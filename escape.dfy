/** `escapeHtml` (app.js): five global replacements, `&` first, then `<`, `>`,
    `"` and `'`, and the entity decoder that undoes them. */
module Html {
  import opened Strings

  /** `s.replace(/c/g, rep)` for a single character `c`. */
  function ReplaceChar(s: string, c: char, rep: string): (r: string)
  {
    if |s| == 0 then "" else (if s[0] == c then rep else [s[0]]) + ReplaceChar(s[1..], c, rep)
  }

  lemma {:induction false} ReplaceCharAppend(a: string, b: string, c: char, rep: string)
    ensures ReplaceChar(a + b, c, rep) == ReplaceChar(a, c, rep) + ReplaceChar(b, c, rep)
  {
    if |a| > 0 {
      assert (a + b)[1..] == a[1..] + b;
      ReplaceCharAppend(a[1..], b, c, rep);
    } else {
      assert a + b == b;
    }
  }

  lemma ReplaceCharSingle(c: char, d: char, rep: string)
    ensures ReplaceChar([c], d, rep) == if c == d then rep else [c]
  {
    assert [c][1..] == [];
  }

  lemma ReplaceCharAbsent(s: string, c: char, rep: string)
    requires c !in s
    ensures ReplaceChar(s, c, rep) == s
  {
  }

  /** The five passes of `escapeHtml`, in the source's order. */
  function EscapeHtml(s: string): (r: string)
  {
    var amp := ReplaceChar(s, '&', "&amp;");
    var lt := ReplaceChar(amp, '<', "&lt;");
    var gt := ReplaceChar(lt, '>', "&gt;");
    var quot := ReplaceChar(gt, '"', "&quot;");
    ReplaceChar(quot, '\'', "&#39;")
  }

  /** The replacement of one character. */
  function Entity(c: char): string
  {
    if c == '&' then "&amp;"
    else if c == '<' then "&lt;"
    else if c == '>' then "&gt;"
    else if c == '"' then "&quot;"
    else if c == '\'' then "&#39;"
    else [c]
  }

  /** Character-by-character escaping. */
  function EscapeEach(s: string): (r: string)
  {
    if |s| == 0 then "" else Entity(s[0]) + EscapeEach(s[1..])
  }

  /** The five passes distribute over concatenation. */
  lemma EscapeHtmlAppend(a: string, b: string)
    ensures EscapeHtml(a + b) == EscapeHtml(a) + EscapeHtml(b)
  {
    ReplaceCharAppend(a, b, '&', "&amp;");
    var a1, b1 := ReplaceChar(a, '&', "&amp;"), ReplaceChar(b, '&', "&amp;");
    ReplaceCharAppend(a1, b1, '<', "&lt;");
    var a2, b2 := ReplaceChar(a1, '<', "&lt;"), ReplaceChar(b1, '<', "&lt;");
    ReplaceCharAppend(a2, b2, '>', "&gt;");
    var a3, b3 := ReplaceChar(a2, '>', "&gt;"), ReplaceChar(b2, '>', "&gt;");
    ReplaceCharAppend(a3, b3, '"', "&quot;");
    var a4, b4 := ReplaceChar(a3, '"', "&quot;"), ReplaceChar(b3, '"', "&quot;");
    ReplaceCharAppend(a4, b4, '\'', "&#39;");
  }

  /** On one character the five passes produce exactly its entity: the
      entities introduced by later passes hold no character that a later pass
      replaces, and `&` is replaced before any entity is introduced. */
  lemma EscapeHtmlChar(c: char)
    ensures EscapeHtml([c]) == Entity(c)
  {
    if c == '&' || c == '<' || c == '>' || c == '"' || c == '\'' {
      EscapeHtmlSpecial(c);
    } else {
      ReplaceCharSingle(c, '&', "&amp;");
      ReplaceCharSingle(c, '<', "&lt;");
      ReplaceCharSingle(c, '>', "&gt;");
      ReplaceCharSingle(c, '"', "&quot;");
      ReplaceCharSingle(c, '\'', "&#39;");
    }
  }

  lemma EscapeHtmlSpecial(c: char)
    requires c == '&' || c == '<' || c == '>' || c == '"' || c == '\''
    ensures EscapeHtml([c]) == Entity(c)
  {
    ReplaceCharSingle(c, '&', "&amp;");
    if c == '&' {
      PassesKeep("&amp;");
    } else {
      ReplaceCharSingle(c, '<', "&lt;");
      if c == '<' {
        PassesKeep("&lt;");
      } else {
        ReplaceCharSingle(c, '>', "&gt;");
        if c == '>' {
          PassesKeep("&gt;");
        } else {
          ReplaceCharSingle(c, '"', "&quot;");
          if c == '"' {
            PassesKeep("&quot;");
          } else {
            ReplaceCharSingle(c, '\'', "&#39;");
          }
        }
      }
    }
  }

  /** An entity holds none of the characters that the passes after `&` replace. */
  lemma PassesKeep(e: string)
    requires '<' !in e && '>' !in e && '"' !in e && '\'' !in e
    ensures ReplaceChar(e, '<', "&lt;") == e
    ensures ReplaceChar(e, '>', "&gt;") == e
    ensures ReplaceChar(e, '"', "&quot;") == e
    ensures ReplaceChar(e, '\'', "&#39;") == e
  {
    ReplaceCharAbsent(e, '<', "&lt;");
    ReplaceCharAbsent(e, '>', "&gt;");
    ReplaceCharAbsent(e, '"', "&quot;");
    ReplaceCharAbsent(e, '\'', "&#39;");
  }

  /** Because `&` is replaced first, the entities introduced by the later passes
      are never escaped again: the five passes escape each character once. */
  lemma {:induction false} EscapeHtmlIsEscapeEach(s: string)
    ensures EscapeHtml(s) == EscapeEach(s)
  {
    if |s| > 0 {
      EscapeHtmlIsEscapeEach(s[1..]);
      assert s == [s[0]] + s[1..];
      EscapeHtmlAppend([s[0]], s[1..]);
      EscapeHtmlChar(s[0]);
    } else {
      assert EscapeHtml(s) == "";
    }
  }

  /** Escaping in the opposite order would escape the `&` of `&lt;` again:
      the order of the passes matters. */
  lemma AmpersandFirstMatters()
    ensures ReplaceChar(ReplaceChar("<", '<', "&lt;"), '&', "&amp;") == "&amp;lt;"
    ensures EscapeHtml("<") == "&lt;"
  {
    assert ReplaceChar("<", '<', "&lt;") == "&lt;";
    EscapeHtmlIsEscapeEach("<");
  }

  predicate NoMarkupChars(s: string)
  {
    forall i :: 0 <= i < |s| ==> s[i] != '<' && s[i] != '>' && s[i] != '"' && s[i] != '\''
  }

  /** The five entities the escaper produces. */
  predicate EntityAt(s: string, i: nat)
    requires i <= |s|
  {
    IsPrefix("&amp;", s[i..]) || IsPrefix("&lt;", s[i..]) || IsPrefix("&gt;", s[i..])
    || IsPrefix("&quot;", s[i..]) || IsPrefix("&#39;", s[i..])
  }

  /** No `<`, `>`, `"` or `'`, and every `&` starts one of the five entities. */
  predicate Escaped(r: string)
  {
    NoMarkupChars(r) && forall i :: 0 <= i < |r| && r[i] == '&' ==> EntityAt(r, i)
  }

  /** Escaped text holds no `<`, `>`, `"` or `'`, every `&` in it starts one of
      the five entities, and it is at least as long as the input. */
  lemma {:induction false} EscapeHtmlSafe(s: string)
    ensures NoMarkupChars(EscapeHtml(s))
    ensures forall i :: 0 <= i < |EscapeHtml(s)| && EscapeHtml(s)[i] == '&' ==> EntityAt(EscapeHtml(s), i)
    ensures |EscapeHtml(s)| >= |s|
    ensures EscapeHtml(s) == "" <==> s == ""
  {
    EscapeHtmlIsEscapeEach(s);
    EscapeEachSafe(s);
  }

  lemma {:induction false} EscapeEachSafe(s: string)
    ensures Escaped(EscapeEach(s))
    ensures |EscapeEach(s)| >= |s|
    ensures EscapeEach(s) == "" <==> s == ""
  {
    if |s| > 0 {
      EscapeEachSafe(s[1..]);
      EscapedPrepend(s[0], EscapeEach(s[1..]));
    }
  }

  /** An entity holds no markup character and its only `&` is its first. */
  lemma EntityShape(c: char)
    ensures |Entity(c)| >= 1 && NoMarkupChars(Entity(c))
    ensures forall i :: 0 < i < |Entity(c)| ==> Entity(c)[i] != '&'
  {
  }

  /** An entity put in front of escaped text leaves it escaped. */
  lemma EscapedPrepend(c: char, t: string)
    requires Escaped(t)
    ensures Escaped(Entity(c) + t)
  {
    var e := Entity(c);
    var r := e + t;
    EntityShape(c);
    assert NoMarkupChars(r) by {
      forall i | 0 <= i < |r| ensures r[i] != '<' && r[i] != '>' && r[i] != '"' && r[i] != '\'' {
        if i >= |e| { assert r[i] == t[i - |e|]; }
      }
    }
    forall i | 0 <= i < |r| && r[i] == '&' ensures EntityAt(r, i) {
      if i < |e| {
        EntityAtStart(c, t);
      } else {
        assert r[i..] == t[i - |e|..];
        assert t[i - |e|] == '&';
      }
    }
  }

  lemma EntityAtStart(c: char, t: string)
    requires Entity(c)[0] == '&'
    ensures EntityAt(Entity(c) + t, 0)
  {
    var r := Entity(c) + t;
    assert r[0..] == r;
    assert r[..|Entity(c)|] == Entity(c);
  }

  /** Decodes the five entities, scanning left to right. */
  function UnescapeHtml(s: string): (r: string)
  {
    if |s| == 0 then ""
    else if IsPrefix("&amp;", s) then "&" + UnescapeHtml(s[5..])
    else if IsPrefix("&lt;", s) then "<" + UnescapeHtml(s[4..])
    else if IsPrefix("&gt;", s) then ">" + UnescapeHtml(s[4..])
    else if IsPrefix("&quot;", s) then "\"" + UnescapeHtml(s[6..])
    else if IsPrefix("&#39;", s) then "'" + UnescapeHtml(s[5..])
    else [s[0]] + UnescapeHtml(s[1..])
  }

  /** Decoding the escaped text gives the original back. */
  lemma {:induction false} UnescapeEscape(s: string)
    ensures UnescapeHtml(EscapeHtml(s)) == s
  {
    EscapeHtmlIsEscapeEach(s);
    UnescapeEscapeEach(s);
  }

  lemma {:induction false} UnescapeEscapeEach(s: string)
    ensures UnescapeHtml(EscapeEach(s)) == s
  {
    if |s| > 0 {
      UnescapeEscapeEach(s[1..]);
      UnescapeEntity(s[0], EscapeEach(s[1..]));
      assert [s[0]] + s[1..] == s;
    }
  }

  /** Decoding an entity followed by more text. */
  lemma UnescapeEntity(c: char, t: string)
    ensures UnescapeHtml(Entity(c) + t) == [c] + UnescapeHtml(t)
  {
    if c == '&' || c == '<' || c == '>' || c == '"' || c == '\'' {
      UnescapeSpecial(c, t);
    } else {
      var r := [c] + t;
      assert r[0] == c && r[1..] == t;
      assert !IsPrefix("&amp;", r) && !IsPrefix("&lt;", r) && !IsPrefix("&gt;", r);
      assert !IsPrefix("&quot;", r) && !IsPrefix("&#39;", r);
    }
  }

  lemma UnescapeSpecial(c: char, t: string)
    requires c == '&' || c == '<' || c == '>' || c == '"' || c == '\''
    ensures UnescapeHtml(Entity(c) + t) == [c] + UnescapeHtml(t)
  {
    if c == '&' {
      UnescapeAmp(t);
    } else if c == '<' {
      UnescapeLt(t);
    } else if c == '>' {
      UnescapeGt(t);
    } else if c == '"' {
      UnescapeQuot(t);
    } else {
      UnescapeApos(t);
    }
  }

  lemma UnescapeAmp(t: string)
    ensures UnescapeHtml("&amp;" + t) == "&" + UnescapeHtml(t)
  {
    var r := "&amp;" + t;
    assert r[..5] == "&amp;" && r[5..] == t;
  }

  lemma UnescapeLt(t: string)
    ensures UnescapeHtml("&lt;" + t) == "<" + UnescapeHtml(t)
  {
    var r := "&lt;" + t;
    assert r[..4] == "&lt;" && r[4..] == t;
    assert r[1] == 'l';
  }

  lemma UnescapeGt(t: string)
    ensures UnescapeHtml("&gt;" + t) == ">" + UnescapeHtml(t)
  {
    var r := "&gt;" + t;
    assert r[..4] == "&gt;" && r[4..] == t;
    assert r[1] == 'g';
  }

  lemma UnescapeQuot(t: string)
    ensures UnescapeHtml("&quot;" + t) == "\"" + UnescapeHtml(t)
  {
    var r := "&quot;" + t;
    assert r[..6] == "&quot;" && r[6..] == t;
    assert r[1] == 'q';
  }

  lemma UnescapeApos(t: string)
    ensures UnescapeHtml("&#39;" + t) == "'" + UnescapeHtml(t)
  {
    var r := "&#39;" + t;
    assert r[..5] == "&#39;" && r[5..] == t;
    assert r[1] == '#';
  }

  /** Escaping is injective: different texts never escape alike. */
  lemma EscapeInjective(a: string, b: string)
    requires EscapeHtml(a) == EscapeHtml(b)
    ensures a == b
  {
    UnescapeEscape(a);
    UnescapeEscape(b);
  }

  lemma {:induction false} EscapeEachAppend(a: string, b: string)
    ensures EscapeEach(a + b) == EscapeEach(a) + EscapeEach(b)
  {
    if |a| > 0 {
      assert (a + b)[1..] == a[1..] + b;
      EscapeEachAppend(a[1..], b);
    } else {
      assert a + b == b;
    }
  }

  /** Characters other than the five pass through unchanged. */
  lemma {:induction false} EscapeEachPlain(s: string)
    requires forall i :: 0 <= i < |s| ==> s[i] != '&' && s[i] != '<' && s[i] != '>' && s[i] != '"' && s[i] != '\''
    ensures EscapeEach(s) == s
  {
    if |s| > 0 {
      EscapeEachPlain(s[1..]);
      assert [s[0]] + s[1..] == s;
    }
  }
}
