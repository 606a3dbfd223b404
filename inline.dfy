/** `formatInline` (app.js): three global, lazy, left-to-right regular
    expression substitutions applied in the order bold, italic, link:
      bold:   two stars, a lazy group, two stars  -> `<strong>$1</strong>`
      italic: one star, a lazy group, one star    -> `<em>$1</em>`
      link:   `[` lazy label `](` lazy url `)`    -> `<a href="$2" target="_blank" rel="noopener">$1</a>`
    Each is modelled as a scan that tries a match at every position in turn,
    exactly as the regular-expression engine does: lazy groups take the fewest
    characters that let the rest of the pattern match, and `.` matches
    anything but a line terminator. */
module Inline {
  import opened Strings
  import opened Wrappers

  /** The closing delimiter of a pattern starts at k: the character `c`,
      once or twice. */
  predicate CloseAt(s: string, k: nat, c: char, twice: bool)
  {
    if twice then k + 1 < |s| && s[k] == c && s[k + 1] == c else k < |s| && s[k] == c
  }

  /** The lazy tail of a group followed by its closing delimiter: the least
      k >= j such that s[j..k] holds no line terminator and the delimiter
      starts at k (FindCloseSpec). */
  function FindClose(s: string, j: nat, c: char, twice: bool): (r: Option<nat>)
    requires j <= |s|
    ensures r.Some? ==> j <= r.value < |s| && (twice ==> r.value + 1 < |s|)
    decreases |s| - j
  {
    if CloseAt(s, j, c, twice) then Some(j)
    else if j < |s| && !IsLineTerminator(s[j]) then FindClose(s, j + 1, c, twice)
    else None
  }

  lemma {:induction false} FindCloseSpec(s: string, j: nat, c: char, twice: bool)
    requires j <= |s|
    ensures var r := FindClose(s, j, c, twice);
      && (r.Some? ==> CloseAt(s, r.value, c, twice) && LineFree(s, j, r.value))
      && (r.Some? ==> forall k :: j <= k < r.value ==> !CloseAt(s, k, c, twice))
      && (r.None? ==> forall k :: j <= k <= |s| && LineFree(s, j, k) ==> !CloseAt(s, k, c, twice))
    decreases |s| - j
  {
    if !CloseAt(s, j, c, twice) && j < |s| && !IsLineTerminator(s[j]) {
      FindCloseSpec(s, j + 1, c, twice);
    }
  }

  // ---------------------------------------------------------------- bold

  /** A match of the bold pattern at i whose group ends at j: two stars, at
      least one character that is not a line terminator, two stars. */
  predicate BoldMatch(s: string, i: nat, j: nat)
  {
    i + 2 < j && j + 2 <= |s| && s[i] == '*' && s[i + 1] == '*'
    && s[j] == '*' && s[j + 1] == '*' && LineFree(s, i + 2, j)
  }

  /** The end of the group of the bold match at i, if there is one. */
  function BoldAt(s: string, i: nat): (r: Option<nat>)
    requires i <= |s|
    ensures r.Some? ==> i + 2 < r.value && r.value + 2 <= |s|
  {
    if i + 2 < |s| && s[i] == '*' && s[i + 1] == '*' && !IsLineTerminator(s[i + 2]) then
      FindClose(s, i + 3, '*', true)
    else
      None
  }

  /** BoldAt finds a match exactly when there is one, and then the shortest. */
  lemma BoldAtSpec(s: string, i: nat)
    requires i <= |s|
    ensures var r := BoldAt(s, i);
      && (r.Some? ==> BoldMatch(s, i, r.value))
      && (r.Some? ==> forall k :: i + 2 < k < r.value ==> !BoldMatch(s, i, k))
      && (r.None? ==> forall k :: !BoldMatch(s, i, k))
  {
    if i + 2 < |s| && s[i] == '*' && s[i + 1] == '*' && !IsLineTerminator(s[i + 2]) {
      FindCloseSpec(s, i + 3, '*', true);
      forall k | i + 2 < k
        ensures BoldMatch(s, i, k) <==> k <= |s| && CloseAt(s, k, '*', true) && LineFree(s, i + 3, k)
      {
      }
    }
  }

  /** The replacement `<strong>$1</strong>`. */
  function Strong(content: string): string
  {
    StrongOpen + content + StrongClose
  }

  /** The global bold substitution applied from position p on. */
  function BoldFrom(s: string, p: nat): (r: string)
    requires p <= |s|
    decreases |s| - p
  {
    if p == |s| then ""
    else
      var m := BoldAt(s, p);
      if m.Some? then Strong(s[p + 2..m.value]) + BoldFrom(s, m.value + 2)
      else [s[p]] + BoldFrom(s, p + 1)
  }

  // -------------------------------------------------------------- italic

  /** A match of the italic pattern at i whose group ends at j. */
  predicate ItalicMatch(s: string, i: nat, j: nat)
  {
    i + 1 < j && j < |s| && s[i] == '*' && s[j] == '*' && LineFree(s, i + 1, j)
  }

  function ItalicAt(s: string, i: nat): (r: Option<nat>)
    requires i <= |s|
    ensures r.Some? ==> i + 1 < r.value < |s|
  {
    if i + 1 < |s| && s[i] == '*' && !IsLineTerminator(s[i + 1]) then
      FindClose(s, i + 2, '*', false)
    else
      None
  }

  lemma ItalicAtSpec(s: string, i: nat)
    requires i <= |s|
    ensures var r := ItalicAt(s, i);
      && (r.Some? ==> ItalicMatch(s, i, r.value))
      && (r.Some? ==> forall k :: i + 1 < k < r.value ==> !ItalicMatch(s, i, k))
      && (r.None? ==> forall k :: !ItalicMatch(s, i, k))
  {
    if i + 1 < |s| && s[i] == '*' && !IsLineTerminator(s[i + 1]) {
      FindCloseSpec(s, i + 2, '*', false);
      forall k | i + 1 < k
        ensures ItalicMatch(s, i, k) <==> k <= |s| && CloseAt(s, k, '*', false) && LineFree(s, i + 2, k)
      {
      }
    }
  }

  /** The replacement `<em>$1</em>`. */
  function Em(content: string): string
  {
    EmOpen + content + EmClose
  }

  /** The global italic substitution applied from position p on. */
  function ItalicFrom(s: string, p: nat): (r: string)
    requires p <= |s|
    decreases |s| - p
  {
    if p == |s| then ""
    else
      var m := ItalicAt(s, p);
      if m.Some? then Em(s[p + 1..m.value]) + ItalicFrom(s, m.value + 1)
      else [s[p]] + ItalicFrom(s, p + 1)
  }

  // ---------------------------------------------------------------- link

  /** A match of the link pattern at i: label s[i+1..l], url s[l+2..u]. */
  predicate LinkMatch(s: string, i: nat, l: nat, u: nat)
  {
    i + 1 < l && l + 2 < u && u < |s| && s[i] == '[' && s[l] == ']' && s[l + 1] == '('
    && s[u] == ')' && LineFree(s, i + 1, l) && LineFree(s, l + 2, u)
  }

  /** A url part `](...)` for a label ending at l, ending at u. */
  predicate UrlMatch(s: string, l: nat, u: nat)
  {
    l + 2 < u < |s| && s[l] == ']' && s[l + 1] == '(' && s[u] == ')' && LineFree(s, l + 2, u)
  }

  /** The end of the shortest url part for a label ending at l. */
  function UrlAt(s: string, l: nat): (r: Option<nat>)
    requires l <= |s|
    ensures r.Some? ==> l + 2 < r.value < |s|
  {
    if l + 2 < |s| && s[l] == ']' && s[l + 1] == '(' && !IsLineTerminator(s[l + 2]) then
      FindClose(s, l + 3, ')', false)
    else
      None
  }

  lemma UrlAtSpec(s: string, l: nat)
    requires l <= |s|
    ensures var r := UrlAt(s, l);
      && (r.Some? ==> UrlMatch(s, l, r.value))
      && (r.Some? ==> forall k :: l + 2 < k < r.value ==> !UrlMatch(s, l, k))
      && (r.None? ==> forall k :: !UrlMatch(s, l, k))
  {
    if l + 2 < |s| && s[l] == ']' && s[l + 1] == '(' && !IsLineTerminator(s[l + 2]) {
      FindCloseSpec(s, l + 3, ')', false);
      forall k | l + 2 < k
        ensures UrlMatch(s, l, k) <==> k <= |s| && CloseAt(s, k, ')', false) && LineFree(s, l + 3, k)
      {
      }
    }
  }

  /** Lazy label: try label ends l, l+1, ... in turn, backtracking into the
      label whenever the url part fails. */
  function LabelFrom(s: string, l: nat): (r: Option<(nat, nat)>)
    requires l <= |s|
    ensures r.Some? ==> l <= r.value.0 && r.value.0 + 2 < r.value.1 < |s|
    decreases |s| - l
  {
    var url := UrlAt(s, l);
    if url.Some? then Some((l, url.value))
    else if l < |s| && !IsLineTerminator(s[l]) then LabelFrom(s, l + 1)
    else None
  }

  lemma {:induction false} LabelFromSpec(s: string, start: nat, l: nat)
    requires start <= l <= |s| && LineFree(s, start, l)
    ensures var r := LabelFrom(s, l);
      && (r.Some? ==> LineFree(s, start, r.value.0) && UrlAt(s, r.value.0) == Some(r.value.1))
      && (r.Some? ==> forall k :: l <= k < r.value.0 ==> UrlAt(s, k).None?)
      && (r.None? ==> forall k :: l <= k <= |s| && LineFree(s, start, k) ==> UrlAt(s, k).None?)
    decreases |s| - l
  {
    if UrlAt(s, l).None? && l < |s| && !IsLineTerminator(s[l]) {
      LabelFromSpec(s, start, l + 1);
    }
  }

  /** The label and url ends of the link match at i, if there is one. */
  function LinkAt(s: string, i: nat): (r: Option<(nat, nat)>)
    requires i <= |s|
    ensures r.Some? ==> i + 1 < r.value.0 && r.value.0 + 2 < r.value.1 < |s|
  {
    if i + 1 < |s| && s[i] == '[' && !IsLineTerminator(s[i + 1]) then LabelFrom(s, i + 2)
    else None
  }

  /** LinkAt finds a match exactly when there is one: the shortest label for
      which a url part follows, then the shortest url. */
  lemma LinkAtSpec(s: string, i: nat)
    requires i <= |s|
    ensures var r := LinkAt(s, i);
      && (r.Some? ==> LinkMatch(s, i, r.value.0, r.value.1))
      && (r.Some? ==> forall l, u :: i + 1 < l < r.value.0 ==> !LinkMatch(s, i, l, u))
      && (r.Some? ==> forall u :: r.value.0 + 2 < u < r.value.1 ==> !LinkMatch(s, i, r.value.0, u))
      && (r.None? ==> forall l, u :: !LinkMatch(s, i, l, u))
  {
    if i + 1 < |s| && s[i] == '[' && !IsLineTerminator(s[i + 1]) {
      LabelFromSpec(s, i + 1, i + 2);
      forall l | i + 2 <= l <= |s|
        ensures var r := UrlAt(s, l);
          && (r.Some? ==> UrlMatch(s, l, r.value))
          && (r.Some? ==> forall k :: l + 2 < k < r.value ==> !UrlMatch(s, l, k))
          && (r.None? ==> forall k :: !UrlMatch(s, l, k))
      {
        UrlAtSpec(s, l);
      }
      forall l, u | LinkMatch(s, i, l, u) ensures UrlMatch(s, l, u) && LineFree(s, i + 1, l) {
      }
      var r := LinkAt(s, i);
      if r.Some? {
        forall l, u | i + 1 < l < r.value.0 ensures !LinkMatch(s, i, l, u) {
          assert UrlAt(s, l).None?;
        }
      }
    }
  }

  /** The three fixed parts of the anchor the link rule writes around the
      address and the link text. */
  datatype AnchorParts = AnchorParts(open: string, mid: string, close: string)

  const LinkAnchor := AnchorParts(AnchorOpen, AnchorMid, AnchorClose)

  /** The anchor for link text `text` and address `href`. */
  function Anchor(a: AnchorParts, text: string, href: string): string
  {
    a.open + href + a.mid + text + a.close
  }

  /** The global link substitution applied from position p on. */
  function LinksFrom(a: AnchorParts, s: string, p: nat): (r: string)
    requires p <= |s|
    decreases |s| - p
  {
    if p == |s| then ""
    else
      var r := LinkAt(s, p);
      if r.Some? then Anchor(a, s[p + 1..r.value.0], s[r.value.0 + 2..r.value.1]) + LinksFrom(a, s, r.value.1 + 1)
      else [s[p]] + LinksFrom(a, s, p + 1)
  }

  /** `formatInline`: bold, then italic, then link. */
  function FormatInline(text: string): string
  {
    var bold := BoldFrom(text, 0);
    var italic := ItalicFrom(bold, 0);
    LinksFrom(LinkAnchor, italic, 0)
  }

  // -------------------------------------------------- markup safety

  /** The characters that would let text open or break out of markup. */
  predicate Special(c: char)
  {
    c == '<' || c == '>' || c == '"' || c == '\''
  }

  /** The characters that start or end an inline match; none occurs in a piece. */
  predicate Delimiter(c: char)
  {
    c == '*' || c == '[' || c == ']' || c == '(' || c == ')'
  }

  const StrongOpen := "<strong>"
  const StrongClose := "</strong>"
  const EmOpen := "<em>"
  const EmClose := "</em>"
  const AnchorOpen := "<a href=\""
  const AnchorMid := "\" target=\"_blank\" rel=\"noopener\">"
  const AnchorClose := "</a>"

  /** Every piece of markup the renderer writes: the inline tags, the two
      halves of the anchor that surround the link address, and the block tags. */
  const Pieces: seq<string> := [
    StrongOpen, StrongClose, EmOpen, EmClose, AnchorOpen, AnchorMid, AnchorClose,
    "<p>", "</p>", "<h1>", "</h1>", "<h2>", "</h2>", "<h3>", "</h3>",
    "<ul>", "</ul>", "<ol>", "</ol>", "<li>", "</li>"]

  /** A piece starts with a special character and holds no delimiter. */
  predicate WellFormedPiece(piece: string)
  {
    |piece| > 0 && Special(piece[0]) && forall o :: 0 <= o < |piece| ==> !Delimiter(piece[o])
  }

  predicate WellFormedPieces(pieces: seq<string>)
  {
    forall k :: 0 <= k < |pieces| ==> WellFormedPiece(pieces[k])
  }

  lemma PiecesWellFormed()
    ensures WellFormedPieces(Pieces)
  {
    assert WellFormedPiece(StrongOpen) && WellFormedPiece(StrongClose);
    assert WellFormedPiece(EmOpen) && WellFormedPiece(EmClose);
    assert WellFormedPiece(AnchorOpen) && WellFormedPiece(AnchorMid) && WellFormedPiece(AnchorClose);
  }

  /** `s` is a sequence of the given pieces and of characters that are not
      special: every `<`, `>`, `"` and `'` in it belongs to one of the pieces. */
  predicate SafeWith(pieces: seq<string>, s: string)
    decreases |s|
  {
    s == []
    || (!Special(s[0]) && SafeWith(pieces, s[1..]))
    || (exists k :: 0 <= k < |pieces| && |pieces[k]| > 0 && IsPrefix(pieces[k], s) && SafeWith(pieces, s[|pieces[k]|..]))
  }

  /** Safe for the renderer's own markup. */
  predicate Safe(s: string)
  {
    SafeWith(Pieces, s)
  }

  predicate NoSpecial(s: string)
  {
    forall i :: 0 <= i < |s| ==> !Special(s[i])
  }

  lemma {:induction false} NoSpecialSafe(pieces: seq<string>, s: string)
    requires NoSpecial(s)
    ensures SafeWith(pieces, s)
    decreases |s|
  {
    if s != [] {
      NoSpecialSafe(pieces, s[1..]);
    }
  }

  lemma MemberSafe(pieces: seq<string>, t: string)
    requires t in pieces && |t| > 0
    ensures SafeWith(pieces, t)
  {
    var k :| 0 <= k < |pieces| && pieces[k] == t;
    assert t[|t|..] == [];
    assert IsPrefix(pieces[k], t);
  }

  lemma {:induction false} SafeAppend(pieces: seq<string>, a: string, b: string)
    requires SafeWith(pieces, a) && SafeWith(pieces, b)
    ensures SafeWith(pieces, a + b)
    decreases |a|
  {
    if a == [] {
      assert a + b == b;
    } else if !Special(a[0]) && SafeWith(pieces, a[1..]) {
      SafeAppend(pieces, a[1..], b);
      assert (a + b)[1..] == a[1..] + b;
    } else {
      var k :| 0 <= k < |pieces| && |pieces[k]| > 0 && IsPrefix(pieces[k], a) && SafeWith(pieces, a[|pieces[k]|..]);
      SafeAppend(pieces, a[|pieces[k]|..], b);
      assert (a + b)[|pieces[k]|..] == a[|pieces[k]|..] + b;
      assert (a + b)[..|pieces[k]|] == a[..|pieces[k]|];
    }
  }

  lemma SafeJoin(pieces: seq<string>, head: string, tail: string, whole: string)
    requires SafeWith(pieces, head) && SafeWith(pieces, tail) && whole == head + tail
    ensures SafeWith(pieces, whole)
  {
    SafeAppend(pieces, head, tail);
  }

  /** No piece runs across a delimiter. */
  lemma DelimiterAfterPiece(piece: string, t: string, c: nat)
    requires WellFormedPiece(piece) && IsPrefix(piece, t) && c < |t| && Delimiter(t[c])
    ensures c >= |piece|
  {
  }

  /** Cutting a safe string at a delimiter leaves both sides safe. */
  lemma {:induction false} SafeSplit(pieces: seq<string>, t: string, c: nat)
    requires WellFormedPieces(pieces)
    requires c < |t| && SafeWith(pieces, t) && Delimiter(t[c])
    ensures SafeWith(pieces, t[..c]) && SafeWith(pieces, t[c + 1..])
    decreases |t|, 1
  {
    if !Special(t[0]) && SafeWith(pieces, t[1..]) {
      if c > 0 {
        SafeSplitPlain(pieces, t, c);
      }
    } else {
      var k :| 0 <= k < |pieces| && |pieces[k]| > 0 && IsPrefix(pieces[k], t) && SafeWith(pieces, t[|pieces[k]|..]);
      SafeSplitPiece(pieces, t, c, pieces[k]);
    }
  }

  lemma {:induction false} SafeSplitPlain(pieces: seq<string>, t: string, c: nat)
    requires WellFormedPieces(pieces)
    requires 0 < c < |t| && !Special(t[0]) && SafeWith(pieces, t[1..]) && Delimiter(t[c])
    ensures SafeWith(pieces, t[..c]) && SafeWith(pieces, t[c + 1..])
    decreases |t|, 0
  {
    var u := t[1..];
    SafeSplit(pieces, u, c - 1);
    assert u[c..] == t[c + 1..];
    assert t[..c] == [t[0]] + u[..c - 1];
    assert ([t[0]] + u[..c - 1])[1..] == u[..c - 1];
  }

  lemma {:induction false} SafeSplitPiece(pieces: seq<string>, t: string, c: nat, piece: string)
    requires WellFormedPieces(pieces)
    requires c < |t| && Delimiter(t[c])
    requires piece in pieces && IsPrefix(piece, t) && SafeWith(pieces, t[|piece|..])
    ensures SafeWith(pieces, t[..c]) && SafeWith(pieces, t[c + 1..])
    decreases |t|, 0
  {
    var n := |piece|;
    var u := t[n..];
    DelimiterAfterPiece(piece, t, c);
    SafeSplit(pieces, u, c - n);
    assert u[c - n + 1..] == t[c + 1..];
    assert t[..c] == piece + u[..c - n];
    MemberSafe(pieces, piece);
    SafeAppend(pieces, piece, u[..c - n]);
  }

  /** The segment of a safe string between two delimiters is safe. */
  lemma SafeBetween(pieces: seq<string>, s: string, a: nat, b: nat)
    requires WellFormedPieces(pieces)
    requires 0 < a <= b < |s| && SafeWith(pieces, s[a - 1..]) && Delimiter(s[a - 1]) && Delimiter(s[b])
    ensures SafeWith(pieces, s[a..b]) && SafeWith(pieces, s[b + 1..])
  {
    SafeSplit(pieces, s[a - 1..], 0);
    assert s[a - 1..][1..] == s[a..];
    SafeSplit(pieces, s[a..], b - a);
    assert s[a..][..b - a] == s[a..b];
    assert s[a..][b - a + 1..] == s[b + 1..];
  }

  /** A safe string starts with a plain character or with a whole piece. */
  lemma SafeHead(pieces: seq<string>, t: string) returns (n: nat)
    requires WellFormedPieces(pieces)
    requires t != [] && SafeWith(pieces, t)
    ensures 0 < n <= |t| && SafeWith(pieces, t[..n]) && SafeWith(pieces, t[n..])
    ensures n == 1 || t[..n] in pieces
  {
    if !Special(t[0]) && SafeWith(pieces, t[1..]) {
      n := 1;
      NoSpecialSafe(pieces, t[..1]);
    } else {
      var k :| 0 <= k < |pieces| && |pieces[k]| > 0 && IsPrefix(pieces[k], t) && SafeWith(pieces, t[|pieces[k]|..]);
      n := |pieces[k]|;
      MemberSafe(pieces, pieces[k]);
    }
  }

  // Skipping over characters that cannot start a match.

  /** Where no match starts, the text up to the next possible match is copied. */
  lemma BoldPlain(s: string, p: nat, n: nat)
    requires 0 < n && p + n <= |s| && BoldAt(s, p).None?
    requires n == 1 || '*' !in s[p..p + n]
    ensures BoldFrom(s, p) == s[p..p + n] + BoldFrom(s, p + n)
  {
    if n > 1 {
      BoldSkip(s, p, n);
    } else {
      BoldNone(s, p);
      assert p + n == p + 1;
    }
  }

  lemma {:induction false} BoldSkip(s: string, p: nat, n: nat)
    requires p + n <= |s|
    requires '*' !in s[p..p + n]
    ensures BoldFrom(s, p) == s[p..p + n] + BoldFrom(s, p + n)
    decreases n
  {
    if n > 0 {
      assert s[p + 1..p + n] == s[p..p + n][1..];
      BoldSkip(s, p + 1, n - 1);
      assert s[p] == s[p..p + n][0];
      BoldNone(s, p);
      assert s[p..p + n] == s[p..p + 1] + s[p + 1..p + n];
    }
  }

  lemma BoldNone(s: string, p: nat)
    requires p < |s| && BoldAt(s, p).None?
    ensures BoldFrom(s, p) == s[p..p + 1] + BoldFrom(s, p + 1)
  {
    assert s[p..p + 1] == [s[p]];
  }

  lemma BoldSome(s: string, p: nat, j: nat)
    requires p < |s| && BoldAt(s, p) == Some(j)
    ensures BoldFrom(s, p) == Strong(s[p + 2..j]) + BoldFrom(s, j + 2)
  {
  }

  /** Where no match starts, the text up to the next possible match is copied. */
  lemma ItalicPlain(s: string, p: nat, n: nat)
    requires 0 < n && p + n <= |s| && ItalicAt(s, p).None?
    requires n == 1 || '*' !in s[p..p + n]
    ensures ItalicFrom(s, p) == s[p..p + n] + ItalicFrom(s, p + n)
  {
    if n > 1 {
      ItalicSkip(s, p, n);
    } else {
      ItalicNone(s, p);
      assert p + n == p + 1;
    }
  }

  lemma {:induction false} ItalicSkip(s: string, p: nat, n: nat)
    requires p + n <= |s|
    requires '*' !in s[p..p + n]
    ensures ItalicFrom(s, p) == s[p..p + n] + ItalicFrom(s, p + n)
    decreases n
  {
    if n > 0 {
      assert s[p + 1..p + n] == s[p..p + n][1..];
      ItalicSkip(s, p + 1, n - 1);
      assert s[p] == s[p..p + n][0];
      ItalicNone(s, p);
      assert s[p..p + n] == s[p..p + 1] + s[p + 1..p + n];
    }
  }

  lemma ItalicNone(s: string, p: nat)
    requires p < |s| && ItalicAt(s, p).None?
    ensures ItalicFrom(s, p) == s[p..p + 1] + ItalicFrom(s, p + 1)
  {
    assert s[p..p + 1] == [s[p]];
  }

  lemma ItalicSome(s: string, p: nat, j: nat)
    requires p < |s| && ItalicAt(s, p) == Some(j)
    ensures ItalicFrom(s, p) == Em(s[p + 1..j]) + ItalicFrom(s, j + 1)
  {
  }

  /** Where no match starts, the text up to the next possible match is copied. */
  lemma LinksPlain(a: AnchorParts, s: string, p: nat, n: nat)
    requires 0 < n && p + n <= |s| && LinkAt(s, p).None?
    requires n == 1 || '[' !in s[p..p + n]
    ensures LinksFrom(a, s, p) == s[p..p + n] + LinksFrom(a, s, p + n)
  {
    if n > 1 {
      LinksSkip(a, s, p, n);
    } else {
      LinksNone(a, s, p);
      assert p + n == p + 1;
    }
  }

  lemma {:induction false} LinksSkip(a: AnchorParts, s: string, p: nat, n: nat)
    requires p + n <= |s|
    requires '[' !in s[p..p + n]
    ensures LinksFrom(a, s, p) == s[p..p + n] + LinksFrom(a, s, p + n)
    decreases n
  {
    if n > 0 {
      assert s[p + 1..p + n] == s[p..p + n][1..];
      LinksSkip(a, s, p + 1, n - 1);
      assert s[p] == s[p..p + n][0];
      LinksNone(a, s, p);
      assert s[p..p + n] == s[p..p + 1] + s[p + 1..p + n];
    }
  }

  lemma LinksNone(a: AnchorParts, s: string, p: nat)
    requires p < |s| && LinkAt(s, p).None?
    ensures LinksFrom(a, s, p) == s[p..p + 1] + LinksFrom(a, s, p + 1)
  {
    assert s[p..p + 1] == [s[p]];
  }

  lemma LinksSome(a: AnchorParts, s: string, p: nat, m: (nat, nat))
    requires p < |s| && LinkAt(s, p) == Some(m)
    ensures LinksFrom(a, s, p) == Anchor(a, s[p + 1..m.0], s[m.0 + 2..m.1]) + LinksFrom(a, s, m.1 + 1)
  {
  }

  /** Text with no star is left alone by the bold and italic rules, and text
      with no `[` by the link rule. */
  lemma PlainUnchanged(s: string)
    ensures '*' !in s ==> BoldFrom(s, 0) == s && ItalicFrom(s, 0) == s
    ensures '[' !in s ==> LinksFrom(LinkAnchor, s, 0) == s
  {
    if '*' !in s {
      BoldSkip(s, 0, |s|);
      ItalicSkip(s, 0, |s|);
    }
    if '[' !in s {
      LinksSkip(LinkAnchor, s, 0, |s|);
    }
  }

  lemma FormatInlinePlain(s: string)
    requires '*' !in s && '[' !in s
    ensures FormatInline(s) == s
  {
    PlainUnchanged(s);
  }

  // Each substitution keeps a string safe.

  /** The pieces an inline substitution writes. */
  predicate InlinePieces(pieces: seq<string>)
  {
    WellFormedPieces(pieces)
    && StrongOpen in pieces && StrongClose in pieces && EmOpen in pieces && EmClose in pieces
    && AnchorOpen in pieces && AnchorMid in pieces && AnchorClose in pieces
  }

  /** Where no match starts, a safe suffix begins either with one plain
      character or with a whole piece, which no match can start inside. */
  lemma SafeStep(pieces: seq<string>, s: string, p: nat) returns (n: nat)
    requires WellFormedPieces(pieces)
    requires p < |s| && SafeWith(pieces, s[p..])
    ensures 0 < n <= |s| - p && SafeWith(pieces, s[p..p + n]) && SafeWith(pieces, s[p + n..])
    ensures n == 1 || ('*' !in s[p..p + n] && '[' !in s[p..p + n])
  {
    n := SafeHead(pieces, s[p..]);
    assert s[p..][..n] == s[p..p + n];
    assert s[p..][n..] == s[p + n..];
    if n > 1 {
      var piece := s[p..p + n];
      assert WellFormedPiece(piece);
      assert forall o :: 0 <= o < |piece| ==> piece[o] != '*' && piece[o] != '[';
    }
  }

  lemma BoldMatchSafe(pieces: seq<string>, s: string, p: nat, j: nat)
    requires WellFormedPieces(pieces) && StrongOpen in pieces && StrongClose in pieces
    requires p <= |s| && SafeWith(pieces, s[p..]) && BoldMatch(s, p, j)
    ensures SafeWith(pieces, s[p + 2..j]) && SafeWith(pieces, s[j + 2..])
  {
    SafeSplit(pieces, s[p..], 0);
    assert s[p..][1..] == s[p + 1..];
    SafeBetween(pieces, s, p + 2, j);
    SafeSplit(pieces, s[j + 1..], 0);
    assert s[j + 1..][1..] == s[j + 2..];
  }

  lemma {:induction false} BoldSafe(pieces: seq<string>, s: string, p: nat)
    requires WellFormedPieces(pieces) && StrongOpen in pieces && StrongClose in pieces
    requires p <= |s| && SafeWith(pieces, s[p..])
    ensures SafeWith(pieces, BoldFrom(s, p))
    decreases |s| - p, 1
  {
    if p < |s| {
      var m := BoldAt(s, p);
      if m.Some? {
        BoldSafeAtMatch(pieces, s, p, m.value);
      } else {
        BoldSafeAtPlain(pieces, s, p);
      }
    }
  }

  lemma {:induction false} BoldSafeAtMatch(pieces: seq<string>, s: string, p: nat, j: nat)
    requires WellFormedPieces(pieces) && StrongOpen in pieces && StrongClose in pieces
    requires p < |s| && SafeWith(pieces, s[p..]) && BoldAt(s, p) == Some(j)
    ensures SafeWith(pieces, BoldFrom(s, p))
    decreases |s| - p, 0
  {
    BoldAtSpec(s, p);
    BoldMatchSafe(pieces, s, p, j);
    BoldSafe(pieces, s, j + 2);
    WrapSafe(pieces, StrongOpen, s[p + 2..j], StrongClose);
    SafeAppend(pieces, Strong(s[p + 2..j]), BoldFrom(s, j + 2));
    BoldSome(s, p, j);
  }

  lemma {:induction false} BoldSafeAtPlain(pieces: seq<string>, s: string, p: nat)
    requires WellFormedPieces(pieces) && StrongOpen in pieces && StrongClose in pieces
    requires p < |s| && SafeWith(pieces, s[p..]) && BoldAt(s, p).None?
    ensures SafeWith(pieces, BoldFrom(s, p))
    decreases |s| - p, 0
  {
    var n := SafeStep(pieces, s, p);
    BoldSafe(pieces, s, p + n);
    BoldPlain(s, p, n);
    SafeJoin(pieces, s[p..p + n], BoldFrom(s, p + n), BoldFrom(s, p));
  }

  lemma ItalicMatchSafe(pieces: seq<string>, s: string, p: nat, j: nat)
    requires WellFormedPieces(pieces)
    requires p < |s| && SafeWith(pieces, s[p..]) && ItalicAt(s, p) == Some(j)
    ensures j + 1 <= |s| && SafeWith(pieces, s[p + 1..j]) && SafeWith(pieces, s[j + 1..])
  {
    ItalicAtSpec(s, p);
    SafeBetween(pieces, s, p + 1, j);
  }

  lemma {:induction false} ItalicSafe(pieces: seq<string>, s: string, p: nat)
    requires WellFormedPieces(pieces) && EmOpen in pieces && EmClose in pieces
    requires p <= |s| && SafeWith(pieces, s[p..])
    ensures SafeWith(pieces, ItalicFrom(s, p))
    decreases |s| - p, 1
  {
    if p < |s| {
      var m := ItalicAt(s, p);
      if m.Some? {
        ItalicSafeAtMatch(pieces, s, p, m.value);
      } else {
        ItalicSafeAtPlain(pieces, s, p);
      }
    }
  }

  lemma {:induction false} ItalicSafeAtMatch(pieces: seq<string>, s: string, p: nat, j: nat)
    requires WellFormedPieces(pieces) && EmOpen in pieces && EmClose in pieces
    requires p < |s| && SafeWith(pieces, s[p..]) && ItalicAt(s, p) == Some(j)
    ensures SafeWith(pieces, ItalicFrom(s, p))
    decreases |s| - p, 0
  {
    ItalicMatchSafe(pieces, s, p, j);
    ItalicSafe(pieces, s, j + 1);
    ItalicSome(s, p, j);
    WrapThenSafe(pieces, EmOpen, s[p + 1..j], EmClose, ItalicFrom(s, j + 1));
  }

  lemma {:induction false} ItalicSafeAtPlain(pieces: seq<string>, s: string, p: nat)
    requires WellFormedPieces(pieces) && EmOpen in pieces && EmClose in pieces
    requires p < |s| && SafeWith(pieces, s[p..]) && ItalicAt(s, p).None?
    ensures SafeWith(pieces, ItalicFrom(s, p))
    decreases |s| - p, 0
  {
    var n := SafeStep(pieces, s, p);
    ItalicSafe(pieces, s, p + n);
    ItalicPlain(s, p, n);
    SafeJoin(pieces, s[p..p + n], ItalicFrom(s, p + n), ItalicFrom(s, p));
  }

  /** A safe string between two pieces is safe. */
  lemma WrapSafe(pieces: seq<string>, open: string, content: string, close: string)
    requires open in pieces && close in pieces && |open| > 0 && |close| > 0
    requires SafeWith(pieces, content)
    ensures SafeWith(pieces, open + content + close)
  {
    MemberSafe(pieces, open);
    MemberSafe(pieces, close);
    SafeAppend(pieces, open, content);
    SafeAppend(pieces, open + content, close);
  }

  /** A safe string between two pieces, then more safe text. */
  lemma WrapThenSafe(pieces: seq<string>, open: string, content: string, close: string, rest: string)
    requires open in pieces && close in pieces && |open| > 0 && |close| > 0
    requires SafeWith(pieces, content) && SafeWith(pieces, rest)
    ensures SafeWith(pieces, open + content + close + rest)
  {
    WrapSafe(pieces, open, content, close);
    SafeAppend(pieces, open + content + close, rest);
  }

  lemma AnchorSafe(pieces: seq<string>, a: AnchorParts, text: string, href: string)
    requires WellFormedPieces(pieces) && a.open in pieces && a.mid in pieces && a.close in pieces
    requires |a.open| > 0 && |a.mid| > 0 && |a.close| > 0
    requires SafeWith(pieces, text) && SafeWith(pieces, href)
    ensures SafeWith(pieces, Anchor(a, text, href))
  {
    MemberSafe(pieces, a.open);
    MemberSafe(pieces, a.mid);
    MemberSafe(pieces, a.close);
    SafeAppend(pieces, a.open, href);
    SafeAppend(pieces, a.open + href, a.mid);
    SafeAppend(pieces, a.open + href + a.mid, text);
    SafeAppend(pieces, a.open + href + a.mid + text, a.close);
  }

  lemma LinkMatchSafe(pieces: seq<string>, s: string, p: nat, l: nat, u: nat)
    requires WellFormedPieces(pieces)
    requires p <= |s| && SafeWith(pieces, s[p..]) && LinkAt(s, p) == Some((l, u))
    ensures SafeWith(pieces, s[p + 1..l]) && SafeWith(pieces, s[l + 2..u]) && SafeWith(pieces, s[u + 1..])
  {
    LinkAtSpec(s, p);
    SafeBetween(pieces, s, p + 1, l);
    SafeSplit(pieces, s[l + 1..], 0);
    assert s[l + 1..][1..] == s[l + 2..];
    SafeBetween(pieces, s, l + 2, u);
  }

  /** A link match whose parts are safe is replaced by a safe anchor. */
  lemma LinkReplacedSafe(pieces: seq<string>, a: AnchorParts, s: string, p: nat, m: (nat, nat))
    requires WellFormedPieces(pieces) && a.open in pieces && a.mid in pieces && a.close in pieces
    requires |a.open| > 0 && |a.mid| > 0 && |a.close| > 0
    requires p < |s| && LinkAt(s, p) == Some(m)
    requires SafeWith(pieces, s[p + 1..m.0]) && SafeWith(pieces, s[m.0 + 2..m.1])
    requires SafeWith(pieces, LinksFrom(a, s, m.1 + 1))
    ensures SafeWith(pieces, LinksFrom(a, s, p))
  {
    AnchorSafe(pieces, a, s[p + 1..m.0], s[m.0 + 2..m.1]);
    LinksSome(a, s, p, m);
    SafeAppend(pieces, Anchor(a, s[p + 1..m.0], s[m.0 + 2..m.1]), LinksFrom(a, s, m.1 + 1));
  }

  lemma {:induction false} LinksSafe(pieces: seq<string>, a: AnchorParts, s: string, p: nat)
    requires WellFormedPieces(pieces) && a.open in pieces && a.mid in pieces && a.close in pieces
    requires |a.open| > 0 && |a.mid| > 0 && |a.close| > 0
    requires p <= |s| && SafeWith(pieces, s[p..])
    ensures SafeWith(pieces, LinksFrom(a, s, p))
    decreases |s| - p, 1
  {
    if p < |s| {
      var r := LinkAt(s, p);
      if r.Some? {
        LinksSafeAtLink(pieces, a, s, p, r.value);
      } else {
        LinksSafeAtPlain(pieces, a, s, p);
      }
    }
  }

  lemma {:induction false} LinksSafeAtLink(pieces: seq<string>, a: AnchorParts, s: string, p: nat, m: (nat, nat))
    requires WellFormedPieces(pieces) && a.open in pieces && a.mid in pieces && a.close in pieces
    requires |a.open| > 0 && |a.mid| > 0 && |a.close| > 0
    requires p < |s| && SafeWith(pieces, s[p..]) && LinkAt(s, p) == Some(m)
    ensures SafeWith(pieces, LinksFrom(a, s, p))
    decreases |s| - p, 0
  {
    LinkMatchSafe(pieces, s, p, m.0, m.1);
    LinksSafe(pieces, a, s, m.1 + 1);
    LinkReplacedSafe(pieces, a, s, p, m);
  }

  lemma {:induction false} LinksSafeAtPlain(pieces: seq<string>, a: AnchorParts, s: string, p: nat)
    requires WellFormedPieces(pieces) && a.open in pieces && a.mid in pieces && a.close in pieces
    requires |a.open| > 0 && |a.mid| > 0 && |a.close| > 0
    requires p < |s| && SafeWith(pieces, s[p..]) && LinkAt(s, p).None?
    ensures SafeWith(pieces, LinksFrom(a, s, p))
    decreases |s| - p, 0
  {
    var n := SafeStep(pieces, s, p);
    LinksSafe(pieces, a, s, p + n);
    LinksPlain(a, s, p, n);
    SafeJoin(pieces, s[p..p + n], LinksFrom(a, s, p + n), LinksFrom(a, s, p));
  }

  lemma RendererInlinePieces()
    ensures InlinePieces(Pieces)
  {
    PiecesWellFormed();
    assert Pieces[0] == StrongOpen && Pieces[1] == StrongClose;
    assert Pieces[2] == EmOpen && Pieces[3] == EmClose;
    assert Pieces[4] == AnchorOpen && Pieces[5] == AnchorMid && Pieces[6] == AnchorClose;
  }

  /** The inline rules only ever add the renderer's own markup: applied to
      safe text (escaped text in particular) they give safe text. */
  lemma FormatInlineSafe(text: string)
    requires Safe(text)
    ensures Safe(FormatInline(text))
  {
    RendererInlinePieces();
    assert text[0..] == text;
    BoldSafe(Pieces, text, 0);
    var bold := BoldFrom(text, 0);
    assert bold[0..] == bold;
    ItalicSafe(Pieces, bold, 0);
    var italic := ItalicFrom(bold, 0);
    assert italic[0..] == italic;
    LinksSafe(Pieces, LinkAnchor, italic, 0);
  }
}
