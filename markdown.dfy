/** `markdownToHtml` (app.js): the text is escaped, split into lines at
    `\r?\n`, and each line is classified by the first of these that applies:
    blank (trims to nothing), heading `^(#{1,3})\s+(.*)$`, ordered item
    `^(\d+)\.\s+(.*)$`, unordered item `^[-*]\s+(.*)$`, paragraph. A flag
    remembers which list (`ul` or `ol`) is open; blank lines, headings and
    paragraphs close it, an item of the other kind closes it and opens its
    own. The renderer is specified by the tokens it writes (Tokens); the
    method mirrors the source loop and is proved to write exactly those. */
module Markdown {
  import opened Strings
  import opened Wrappers
  import opened Html
  import opened Inline

  // ------------------------------------------------ the line patterns

  /** s[k..e] is all white space. */
  predicate SpaceFrom(s: string, k: nat, e: nat)
    requires k <= e <= |s|
  {
    forall i :: k <= i < e ==> IsSpace(s[i])
  }

  /** The end of the greedy run of white space that starts at k. */
  function SpaceRunEnd(s: string, k: nat): (e: nat)
    requires k <= |s|
    ensures k <= e <= |s| && SpaceFrom(s, k, e) && (e == |s| || !IsSpace(s[e]))
    decreases |s| - k
  {
    if k < |s| && IsSpace(s[k]) then SpaceRunEnd(s, k + 1) else k
  }

  /** `\s+(.*)$` matches from k with the rest captured from e: at least one
      white-space character, then no line terminator up to the end. */
  predicate TailMatch(s: string, k: nat, e: nat)
  {
    k < e <= |s| && SpaceFrom(s, k, e) && LineFree(s, e, |s|)
  }

  /** Where the capture of `\s+(.*)$` starts when the pattern matches from
      k: the greedy `\s+` takes the whole run of white space. */
  function SpacedRest(s: string, k: nat): (r: Option<nat>)
    requires k <= |s|
    ensures r.Some? ==> k < r.value <= |s|
  {
    if k < |s| && IsSpace(s[k]) then
      var e := SpaceRunEnd(s, k);
      if LineFree(s, e, |s|) then Some(e) else None
    else None
  }

  /** SpacedRest finds the match the regular-expression engine reports: it
      matches, it is the one with the longest white-space run, and when
      there is none no match exists. */
  lemma SpacedRestSpec(s: string, k: nat)
    requires k <= |s|
    ensures var r := SpacedRest(s, k);
      && (r.Some? ==> TailMatch(s, k, r.value))
      && (r.Some? ==> forall e: nat :: TailMatch(s, k, e) ==> e <= r.value)
      && (r.None? ==> forall e: nat :: !TailMatch(s, k, e))
  {
    if k < |s| && IsSpace(s[k]) {
      var e := SpaceRunEnd(s, k);
      forall e': nat | TailMatch(s, k, e') ensures e' <= e && LineFree(s, e, |s|) {
      }
    }
  }

  /** The number of copies of `c` that `s` starts with. */
  function LeadingRun(s: string, c: char): (n: nat)
    ensures n <= |s| && (forall i :: 0 <= i < n ==> s[i] == c) && (n == |s| || s[n] != c)
  {
    if |s| > 0 && s[0] == c then 1 + LeadingRun(s[1..], c) else 0
  }

  /** The number of decimal digits that `s` starts with. */
  function LeadingDigits(s: string): (n: nat)
    ensures n <= |s| && (forall i :: 0 <= i < n ==> '0' <= s[i] <= '9') && (n == |s| || !('0' <= s[n] <= '9'))
  {
    if |s| > 0 && '0' <= s[0] <= '9' then 1 + LeadingDigits(s[1..]) else 0
  }

  /** A match of the heading pattern whose hashes end at g and whose text
      starts at e. */
  predicate HeadingMatch(s: string, g: nat, e: nat)
  {
    1 <= g <= 3 && g <= |s| && (forall i :: 0 <= i < g ==> s[i] == '#') && TailMatch(s, g, e)
  }

  /** The heading match: `#{1,3}` takes all the leading hashes (fewer would
      be followed by a hash, not by white space). */
  function HeadingAt(s: string): (r: Option<(nat, nat)>)
    ensures r.Some? ==> 1 <= r.value.0 <= 3 && r.value.0 < r.value.1 <= |s|
  {
    var h := LeadingRun(s, '#');
    if 1 <= h <= 3 then
      var e := SpacedRest(s, h);
      if e.Some? then Some((h, e.value)) else None
    else None
  }

  lemma HeadingAtSpec(s: string)
    ensures var r := HeadingAt(s);
      && (r.Some? ==> HeadingMatch(s, r.value.0, r.value.1))
      && (r.Some? ==> forall g: nat, e: nat :: HeadingMatch(s, g, e) ==> g == r.value.0 && e <= r.value.1)
      && (r.None? ==> forall g: nat, e: nat :: !HeadingMatch(s, g, e))
  {
    var h := LeadingRun(s, '#');
    forall g: nat, e: nat | HeadingMatch(s, g, e) ensures g == h {
      assert IsSpace(s[g]);
    }
    if 1 <= h <= 3 {
      SpacedRestSpec(s, h);
    }
  }

  /** A line that starts with four hashes is never a heading. */
  lemma FourHashesNoHeading(s: string)
    requires |s| >= 4 && s[0] == '#' && s[1] == '#' && s[2] == '#' && s[3] == '#'
    ensures HeadingAt(s).None?
    ensures forall g: nat, e: nat :: !HeadingMatch(s, g, e)
  {
    HeadingAtSpec(s);
    forall g: nat, e: nat | HeadingMatch(s, g, e) ensures false {
    }
  }

  /** A match of the ordered-item pattern: digits up to d, a dot, then the
      spaced text starting at e. */
  predicate OrderedMatch(s: string, d: nat, e: nat)
  {
    1 <= d < |s| && (forall i :: 0 <= i < d ==> '0' <= s[i] <= '9') && s[d] == '.' && TailMatch(s, d + 1, e)
  }

  function OrderedAt(s: string): (r: Option<nat>)
    ensures r.Some? ==> 2 < r.value <= |s|
  {
    var d := LeadingDigits(s);
    if 1 <= d < |s| && s[d] == '.' then SpacedRest(s, d + 1) else None
  }

  lemma OrderedAtSpec(s: string)
    ensures var r := OrderedAt(s);
      && (r.Some? ==> exists d: nat :: OrderedMatch(s, d, r.value))
      && (r.Some? ==> forall d: nat, e: nat :: OrderedMatch(s, d, e) ==> e <= r.value)
      && (r.None? ==> forall d: nat, e: nat :: !OrderedMatch(s, d, e))
  {
    var n := LeadingDigits(s);
    forall d: nat, e: nat | OrderedMatch(s, d, e) ensures d == n {
    }
    if 1 <= n < |s| && s[n] == '.' {
      SpacedRestSpec(s, n + 1);
      if OrderedAt(s).Some? {
        assert OrderedMatch(s, n, OrderedAt(s).value);
      }
    }
  }

  /** A match of the unordered-item pattern: `-` or `*`, then the spaced
      text starting at e. */
  predicate UnorderedMatch(s: string, e: nat)
  {
    |s| > 0 && (s[0] == '-' || s[0] == '*') && TailMatch(s, 1, e)
  }

  function UnorderedAt(s: string): (r: Option<nat>)
    ensures r.Some? ==> 1 < r.value <= |s|
  {
    if |s| > 0 && (s[0] == '-' || s[0] == '*') then SpacedRest(s, 1) else None
  }

  lemma UnorderedAtSpec(s: string)
    ensures var r := UnorderedAt(s);
      && (r.Some? ==> UnorderedMatch(s, r.value))
      && (r.Some? ==> forall e: nat :: UnorderedMatch(s, e) ==> e <= r.value)
      && (r.None? ==> forall e: nat :: !UnorderedMatch(s, e))
  {
    if |s| > 0 && (s[0] == '-' || s[0] == '*') {
      SpacedRestSpec(s, 1);
    }
  }

  // ------------------------------------------------ classification

  datatype Line =
    | Blank
    | Heading(level: nat, text: string)
    | OrderedItem(text: string)
    | UnorderedItem(text: string)
    | Paragraph(text: string)

  /** The source's order of tests: blank, heading, ordered, unordered,
      paragraph. The heading level is `Math.min(length of the hashes, 3)`. */
  function Classify(line: string): (c: Line)
  {
    if Trim(line) == "" then Blank
    else
      var heading := HeadingAt(line);
      if heading.Some? then Heading(Min(heading.value.0, 3), line[heading.value.1..])
      else
        var ordered := OrderedAt(line);
        if ordered.Some? then OrderedItem(line[ordered.value..])
        else
          var unordered := UnorderedAt(line);
          if unordered.Some? then UnorderedItem(line[unordered.value..])
          else Paragraph(line)
  }

  function Min(a: int, b: int): int
  {
    if a <= b then a else b
  }

  /** A line is blank exactly when it is all white space. */
  lemma ClassifyBlank(line: string)
    ensures Classify(line) == Blank <==> AllSpace(line)
  {
    TrimEmpty(line);
  }

  /** A heading has level 1 to 3, and a paragraph holds the whole line. */
  lemma ClassifyShapes(line: string)
    ensures Classify(line).Heading? ==> 1 <= Classify(line).level <= 3
    ensures Classify(line).Paragraph? ==> Classify(line).text == line
  {
    var heading := HeadingAt(line);
    var ordered := OrderedAt(line);
    var unordered := UnorderedAt(line);
    if Trim(line) == "" {
    } else if heading.Some? {
      assert Classify(line) == Heading(Min(heading.value.0, 3), line[heading.value.1..]);
    } else if ordered.Some? {
      assert Classify(line) == OrderedItem(line[ordered.value..]);
    } else if unordered.Some? {
      assert Classify(line) == UnorderedItem(line[unordered.value..]);
    } else {
      assert Classify(line) == Paragraph(line);
    }
  }

  /** Four or more hashes make a paragraph: such a line is not blank, and it
      cannot be an item because it starts with `#`. */
  lemma FourHashesParagraph(line: string)
    requires |line| >= 4 && line[0] == '#' && line[1] == '#' && line[2] == '#' && line[3] == '#'
    ensures Classify(line) == Paragraph(line)
  {
    TrimEmpty(line);
    FourHashesNoHeading(line);
    assert !IsSpace(line[0]);
  }

  // ------------------------------------------------ tokens

  datatype ListKind = Ul | Ol

  /** What the renderer writes: list tags, and one content element per
      non-blank line. */
  datatype Token =
    | OpenList(kind: ListKind)
    | CloseList(kind: ListKind)
    | Item(kind: ListKind, text: string)
    | Head(level: nat, text: string)
    | Para(text: string)

  /** The closing tag of the open list, if any. */
  function CloseOpen(open: Option<ListKind>): seq<Token>
  {
    if open.Some? then [CloseList(open.value)] else []
  }

  /** An item of kind k: continues an open list of that kind, otherwise
      closes the open list and opens one. */
  function ItemTokens(k: ListKind, inner: string, open: Option<ListKind>): seq<Token>
  {
    (if open == Some(k) then [] else CloseOpen(open) + [OpenList(k)]) + [Item(k, inner)]
  }

  /** The tokens one classified line writes and the list left open after it. */
  function LineTokens(c: Line, open: Option<ListKind>): (seq<Token>, Option<ListKind>)
  {
    match c
    case Blank => (CloseOpen(open), None)
    case Heading(level, text) => (CloseOpen(open) + [Head(level, text)], None)
    case OrderedItem(text) => (ItemTokens(Ol, text, open), Some(Ol))
    case UnorderedItem(text) => (ItemTokens(Ul, text, open), Some(Ul))
    case Paragraph(text) => (CloseOpen(open) + [Para(text)], None)
  }

  /** The classification of every line. */
  function ClassifyAll(lines: seq<string>): (cs: seq<Line>)
    ensures |cs| == |lines| && forall k :: 0 <= k < |lines| ==> cs[k] == Classify(lines[k])
  {
    seq(|lines|, k requires 0 <= k < |lines| => Classify(lines[k]))
  }

  /** The tokens written for the first i classified lines, and the list left
      open after them. */
  function TokensUpTo(cs: seq<Line>, i: nat): (seq<Token>, Option<ListKind>)
    requires i <= |cs|
  {
    if i == 0 then ([], None)
    else
      var before := TokensUpTo(cs, i - 1);
      var step := LineTokens(cs[i - 1], before.1);
      (before.0 + step.0, step.1)
  }

  /** All the tokens for the classified lines, closing the list left open at the end. */
  function Tokens(cs: seq<Line>): seq<Token>
  {
    var all := TokensUpTo(cs, |cs|);
    all.0 + CloseOpen(all.1)
  }

  function ListTag(k: ListKind, closing: bool): string
  {
    match k
    case Ul => if closing then "</ul>" else "<ul>"
    case Ol => if closing then "</ol>" else "<ol>"
  }

  function HeadTag(level: nat, closing: bool): string
  {
    if level == 1 then (if closing then "</h1>" else "<h1>")
    else if level == 2 then (if closing then "</h2>" else "<h2>")
    else (if closing then "</h3>" else "<h3>")
  }

  function TokenHtml(t: Token): string
  {
    match t
    case OpenList(k) => ListTag(k, false)
    case CloseList(k) => ListTag(k, true)
    case Item(_, text) => "<li>" + FormatInline(text) + "</li>"
    case Head(level, text) => HeadTag(level, false) + FormatInline(text) + HeadTag(level, true)
    case Para(text) => "<p>" + FormatInline(text) + "</p>"
  }

  function Render(ts: seq<Token>): string
  {
    if |ts| == 0 then "" else TokenHtml(ts[0]) + Render(ts[1..])
  }

  /** The output of `markdownToHtml`: the rendered tokens, or `<p></p>` when
      they render to nothing. */
  function MarkdownToHtmlSpec(markdown: string): string
  {
    var out := Render(Tokens(ClassifyAll(SplitLines(EscapeHtml(markdown)))));
    if out == "" then "<p></p>" else out
  }

  lemma {:induction false} RenderAppend(a: seq<Token>, b: seq<Token>)
    ensures Render(a + b) == Render(a) + Render(b)
  {
    if |a| == 0 {
      assert a + b == b;
    } else {
      assert (a + b)[1..] == a[1..] + b;
      RenderAppend(a[1..], b);
    }
  }

  lemma RenderOne(t: Token)
    ensures Render([t]) == TokenHtml(t)
  {
  }

  /** Appending the output of one more token to what a and the text before
      it gave. */
  lemma RenderAfter(html: string, a: seq<Token>, t: Token)
    ensures html + Render(a + [t]) == html + Render(a) + TokenHtml(t)
  {
    RenderAppend(a, [t]);
    RenderOne(t);
  }

  /** One more classified line extends the rendered prefix by that line's tokens. */
  lemma RenderUpToStep(cs: seq<Line>, i: nat)
    requires i < |cs|
    ensures Render(TokensUpTo(cs, i + 1).0)
         == Render(TokensUpTo(cs, i).0) + Render(LineTokens(cs[i], TokensUpTo(cs, i).1).0)
    ensures TokensUpTo(cs, i + 1).1 == LineTokens(cs[i], TokensUpTo(cs, i).1).1
  {
    RenderAppend(TokensUpTo(cs, i).0, LineTokens(cs[i], TokensUpTo(cs, i).1).0);
  }

  // ------------------------------------------------ the source loop

  /** `html += listType === 'ol' ? '</ol>' : '</ul>'` when a list is open. */
  method CloseListIfOpen(html: string, listType: Option<ListKind>) returns (out: string)
    ensures out == html + Render(CloseOpen(listType))
  {
    out := html;
    if listType.Some? {
      out := out + ListTag(listType.value, true);
      RenderOne(CloseList(listType.value));
    }
  }

  /** An item line: open the list of kind k unless it is open already, then
      append the item. */
  method AppendItem(html: string, listType: Option<ListKind>, k: ListKind, text: string)
    returns (out: string)
    ensures out == html + Render(ItemTokens(k, text, listType))
  {
    out := html;
    var opening: seq<Token> := [];
    if listType != Some(k) {
      out := CloseListIfOpen(out, listType);
      out := out + ListTag(k, false);
      opening := CloseOpen(listType) + [OpenList(k)];
      RenderAfter(html, CloseOpen(listType), OpenList(k));
    }
    out := out + ("<li>" + FormatInline(text) + "</li>");
    RenderAfter(html, opening, Item(k, text));
  }

  /** A heading: close the open list, then append the heading. */
  method AppendHeading(html: string, listType: Option<ListKind>, level: nat, text: string)
    returns (out: string)
    ensures out == html + Render(CloseOpen(listType) + [Head(level, text)])
  {
    out := CloseListIfOpen(html, listType);
    out := out + (HeadTag(level, false) + FormatInline(text) + HeadTag(level, true));
    RenderAfter(html, CloseOpen(listType), Head(level, text));
  }

  /** A paragraph: close the open list, then append the paragraph. */
  method AppendParagraph(html: string, listType: Option<ListKind>, text: string)
    returns (out: string)
    ensures out == html + Render(CloseOpen(listType) + [Para(text)])
  {
    out := CloseListIfOpen(html, listType);
    out := out + ("<p>" + FormatInline(text) + "</p>");
    RenderAfter(html, CloseOpen(listType), Para(text));
  }

  /** The body of the source's `forEach` callback for a line already
      classified: what it appends and which list it leaves open. */
  method RenderClassified(html: string, c: Line, listType: Option<ListKind>)
    returns (out: string, newType: Option<ListKind>)
    ensures out == html + Render(LineTokens(c, listType).0)
    ensures newType == LineTokens(c, listType).1
  {
    match c
    case Blank =>
      out := CloseListIfOpen(html, listType);
      newType := None;
    case Heading(level, text) =>
      out := AppendHeading(html, listType, level, text);
      newType := None;
    case OrderedItem(text) =>
      out := AppendItem(html, listType, Ol, text);
      newType := Some(Ol);
    case UnorderedItem(text) =>
      out := AppendItem(html, listType, Ul, text);
      newType := Some(Ul);
    case Paragraph(text) =>
      out := AppendParagraph(html, listType, text);
      newType := None;
  }

  /** The source loop over the lines, then the closing of a list left open.
      The lines come classified: classifying a line reads nothing but the
      line, so doing it ahead of the loop changes nothing. */
  method RenderLines(cs: seq<Line>) returns (html: string)
    ensures html == Render(Tokens(cs))
  {
    html := "";
    var listType: Option<ListKind> := None;
    var i := 0;
    while i < |cs|
      invariant 0 <= i <= |cs|
      invariant html == Render(TokensUpTo(cs, i).0) && listType == TokensUpTo(cs, i).1
    {
      RenderUpToStep(cs, i);
      html, listType := RenderClassified(html, cs[i], listType);
      i := i + 1;
    }
    ghost var all := TokensUpTo(cs, i).0;
    var closed := CloseListIfOpen(html, listType);
    RenderAppend(all, CloseOpen(listType));
    html := closed;
  }

  method MarkdownToHtml(markdown: string) returns (html: string)
    ensures html == MarkdownToHtmlSpec(markdown)
    ensures html != ""
  {
    var escaped := EscapeHtml(markdown);
    var lines := SplitLines(escaped);
    html := RenderLines(ClassifyAll(lines));
    if html == "" {
      html := "<p></p>";
    }
  }

  // ------------------------------------------------ what the output promises

  /** One token read from the list state `open`: the new state, or None when
      the token is out of place (a tag of the wrong list, an item outside its
      list, a heading or a paragraph inside a list). */
  function NestStep(open: Option<ListKind>, t: Token): Option<Option<ListKind>>
  {
    match t
    case OpenList(k) => if open.None? then Some(Some(k)) else None
    case CloseList(k) => if open == Some(k) then Some(None) else None
    case Item(k, _) => if open == Some(k) then Some(open) else None
    case Head(_, _) => if open.None? then Some(None) else None
    case Para(_) => if open.None? then Some(None) else None
  }

  /** The list state after reading all of ts from `open`, or None when one of
      them is out of place. */
  function NestAfter(open: Option<ListKind>, ts: seq<Token>): Option<Option<ListKind>>
    decreases |ts|
  {
    if |ts| == 0 then Some(open)
    else
      var next := NestStep(open, ts[0]);
      if next.None? then None else NestAfter(next.value, ts[1..])
  }

  lemma {:induction false} NestAppend(open: Option<ListKind>, a: seq<Token>, b: seq<Token>)
    requires NestAfter(open, a).Some?
    ensures NestAfter(open, a + b) == NestAfter(NestAfter(open, a).value, b)
    decreases |a|
  {
    if |a| == 0 {
      assert a + b == b;
    } else {
      assert (a + b)[0] == a[0];
      assert (a + b)[1..] == a[1..] + b;
      NestAppend(NestStep(open, a[0]).value, a[1..], b);
    }
  }

  /** A line's tokens are in place and leave open the list the line says. */
  lemma LineTokensNest(c: Line, open: Option<ListKind>)
    ensures NestAfter(open, LineTokens(c, open).0) == Some(LineTokens(c, open).1)
  {
    var ts := LineTokens(c, open).0;
    if c.OrderedItem? || c.UnorderedItem? {
      var k := if c.OrderedItem? then Ol else Ul;
      var item := Item(k, c.text);
      if open == Some(k) {
        assert ts == [item];
      } else {
        var opening := CloseOpen(open) + [OpenList(k)];
        assert ts == opening + [item];
        NestAppend(open, CloseOpen(open), [OpenList(k)]);
        NestAppend(open, opening, [item]);
      }
    } else if !c.Blank? {
      NestAppend(open, CloseOpen(open), [ts[|ts| - 1]]);
      assert ts == CloseOpen(open) + [ts[|ts| - 1]];
    }
  }

  lemma {:induction false} TokensUpToNest(cs: seq<Line>, i: nat)
    requires i <= |cs|
    ensures NestAfter(None, TokensUpTo(cs, i).0) == Some(TokensUpTo(cs, i).1)
  {
    if i > 0 {
      TokensUpToNest(cs, i - 1);
      var before := TokensUpTo(cs, i - 1);
      var step := LineTokens(cs[i - 1], before.1);
      LineTokensNest(cs[i - 1], before.1);
      NestAppend(None, before.0, step.0);
    }
  }

  /** The markup is well nested: every list that is opened is closed, lists
      do not nest, items sit in a list of their own kind, and headings and
      paragraphs never sit inside a list. */
  lemma TokensNest(cs: seq<Line>)
    ensures NestAfter(None, Tokens(cs)) == Some(None)
  {
    var all := TokensUpTo(cs, |cs|);
    TokensUpToNest(cs, |cs|);
    NestAppend(None, all.0, CloseOpen(all.1));
  }

  /** The content tokens of ts, without the list tags. */
  function Content(ts: seq<Token>): seq<Token>
    decreases |ts|
  {
    if |ts| == 0 then []
    else if ts[0].OpenList? || ts[0].CloseList? then Content(ts[1..])
    else [ts[0]] + Content(ts[1..])
  }

  lemma {:induction false} ContentAppend(a: seq<Token>, b: seq<Token>)
    ensures Content(a + b) == Content(a) + Content(b)
    decreases |a|
  {
    if |a| == 0 {
      assert a + b == b;
    } else {
      assert (a + b)[0] == a[0];
      assert (a + b)[1..] == a[1..] + b;
      ContentAppend(a[1..], b);
    }
  }

  /** The content after one more line is the earlier content and that line's own. */
  lemma ContentStep(prev: seq<Token>, c: Line, open: Option<ListKind>, earlier: seq<Token>)
    requires Content(prev) == earlier
    ensures Content(prev + LineTokens(c, open).0) == earlier + LineContent(c)
  {
    LineTokensContent(c, open);
    ContentAppend(prev, LineTokens(c, open).0);
  }

  /** What one classified line contributes, whatever list is open. */
  function LineContent(c: Line): seq<Token>
  {
    match c
    case Blank => []
    case Heading(level, text) => [Head(level, text)]
    case OrderedItem(text) => [Item(Ol, text)]
    case UnorderedItem(text) => [Item(Ul, text)]
    case Paragraph(text) => [Para(text)]
  }

  /** The content of the first i lines, one line after the other. */
  function ContentUpTo(cs: seq<Line>, i: nat): seq<Token>
    requires i <= |cs|
  {
    if i == 0 then [] else ContentUpTo(cs, i - 1) + LineContent(cs[i - 1])
  }

  lemma LineTokensContent(c: Line, open: Option<ListKind>)
    ensures Content(LineTokens(c, open).0) == LineContent(c)
  {
    var ts := LineTokens(c, open).0;
    assert Content(CloseOpen(open)) == [];
    if c.OrderedItem? || c.UnorderedItem? {
      var k := if c.OrderedItem? then Ol else Ul;
      var item := Item(k, c.text);
      if open != Some(k) {
        assert ts == CloseOpen(open) + [OpenList(k)] + [item];
        ContentAppend(CloseOpen(open) + [OpenList(k)], [item]);
        ContentAppend(CloseOpen(open), [OpenList(k)]);
      }
    } else if !c.Blank? {
      assert ts == CloseOpen(open) + [ts[|ts| - 1]];
      ContentAppend(CloseOpen(open), [ts[|ts| - 1]]);
    }
  }

  lemma {:induction false} TokensUpToContent(cs: seq<Line>, i: nat)
    requires i <= |cs|
    ensures Content(TokensUpTo(cs, i).0) == ContentUpTo(cs, i)
  {
    if i > 0 {
      TokensUpToContent(cs, i - 1);
      var before := TokensUpTo(cs, i - 1);
      var step := LineTokens(cs[i - 1], before.1);
      ContentStep(before.0, cs[i - 1], before.1, ContentUpTo(cs, i - 1));
    }
  }

  /** Apart from the list tags, the output holds one element per non-blank
      line, in the order of the lines, each as the line alone would give it:
      the open list decides only where list tags go. */
  lemma TokensContent(cs: seq<Line>)
    ensures Content(Tokens(cs)) == ContentUpTo(cs, |cs|)
  {
    var all := TokensUpTo(cs, |cs|);
    TokensUpToContent(cs, |cs|);
    ContentAppend(all.0, CloseOpen(all.1));
    assert Content(CloseOpen(all.1)) == [];
  }

  lemma RenderEmpty(ts: seq<Token>)
    ensures Render(ts) == "" <==> ts == []
  {
    if ts != [] {
      assert |TokenHtml(ts[0])| > 0;
    }
  }

  lemma {:induction false} BlankUpTo(cs: seq<Line>, i: nat)
    requires i <= |cs|
    requires forall k :: 0 <= k < i ==> cs[k] == Blank
    ensures TokensUpTo(cs, i) == ([], None)
  {
    if i > 0 {
      BlankUpTo(cs, i - 1);
      var before := TokensUpTo(cs, i - 1);
      var step := LineTokens(cs[i - 1], before.1);
      assert step == ([], None);
      assert before.0 + step.0 == [];
    }
  }

  lemma {:induction false} ContentUpToEmpty(cs: seq<Line>, i: nat)
    requires i <= |cs|
    requires ContentUpTo(cs, i) == []
    ensures forall k :: 0 <= k < i ==> cs[k] == Blank
  {
    if i > 0 {
      var c := cs[i - 1];
      assert |ContentUpTo(cs, i)| == |ContentUpTo(cs, i - 1)| + |LineContent(c)|;
      ContentUpToEmpty(cs, i - 1);
    }
  }

  /** The loop writes nothing exactly when every line is blank. */
  lemma TokensEmpty(cs: seq<Line>)
    ensures Render(Tokens(cs)) == "" <==> forall k :: 0 <= k < |cs| ==> cs[k] == Blank
  {
    RenderEmpty(Tokens(cs));
    if forall k :: 0 <= k < |cs| ==> cs[k] == Blank {
      BlankUpTo(cs, |cs|);
    }
    if Tokens(cs) == [] {
      TokensContent(cs);
      ContentUpToEmpty(cs, |cs|);
    }
  }

  /** `<p></p>` is returned in place of the loop's output exactly when every
      line is white space. */
  lemma FallbackExactlyWhenBlank(lines: seq<string>)
    ensures Render(Tokens(ClassifyAll(lines))) == "" <==> forall k :: 0 <= k < |lines| ==> AllSpace(lines[k])
  {
    var cs := ClassifyAll(lines);
    TokensEmpty(cs);
    forall k | 0 <= k < |lines| ensures cs[k] == Blank <==> AllSpace(lines[k]) {
      ClassifyBlank(lines[k]);
    }
  }

  // ------------------------------------------------ no markup from the text

  /** The text a line carries is a suffix of the line. */
  lemma ClassifyText(line: string) returns (e: nat)
    ensures !Classify(line).Blank? ==> e <= |line| && Classify(line).text == line[e..]
  {
    var heading := HeadingAt(line);
    var ordered := OrderedAt(line);
    var unordered := UnorderedAt(line);
    if Trim(line) == "" {
      e := 0;
    } else if heading.Some? {
      e := heading.value.1;
      assert Classify(line) == Heading(Min(heading.value.0, 3), line[e..]);
    } else if ordered.Some? {
      e := ordered.value;
      assert Classify(line) == OrderedItem(line[e..]);
    } else if unordered.Some? {
      e := unordered.value;
      assert Classify(line) == UnorderedItem(line[e..]);
    } else {
      e := 0;
      assert Classify(line) == Paragraph(line);
    }
  }

  /** The line's text, if it has one, holds no special character. */
  predicate PlainLine(c: Line)
  {
    !c.Blank? ==> NoSpecial(c.text)
  }

  /** The token's text, if it has one, holds no special character. */
  predicate PlainToken(t: Token)
  {
    !t.OpenList? && !t.CloseList? ==> NoSpecial(t.text)
  }

  predicate PlainTokens(ts: seq<Token>)
  {
    forall k :: 0 <= k < |ts| ==> PlainToken(ts[k])
  }

  lemma ParagraphTagsArePieces()
    ensures "<p>" in Pieces && "</p>" in Pieces
  {
    assert Pieces[7] == "<p>" && Pieces[8] == "</p>";
  }

  lemma ItemTagsArePieces()
    ensures "<li>" in Pieces && "</li>" in Pieces
  {
    assert Pieces[19] == "<li>" && Pieces[20] == "</li>";
  }

  lemma HeadTagsArePieces(level: nat)
    ensures HeadTag(level, false) in Pieces && HeadTag(level, true) in Pieces
  {
    assert Pieces[9] == "<h1>" && Pieces[10] == "</h1>";
    assert Pieces[11] == "<h2>" && Pieces[12] == "</h2>";
    assert Pieces[13] == "<h3>" && Pieces[14] == "</h3>";
  }

  lemma ListTagsArePieces(k: ListKind, closing: bool)
    ensures ListTag(k, closing) in Pieces
  {
    assert Pieces[15] == "<ul>" && Pieces[16] == "</ul>";
    assert Pieces[17] == "<ol>" && Pieces[18] == "</ol>";
  }

  /** Plain text between two tags of the renderer is safe once formatted. */
  lemma WrappedSafe(open: string, text: string, close: string)
    requires open in Pieces && close in Pieces && |open| > 0 && |close| > 0
    requires NoSpecial(text)
    ensures Safe(open + FormatInline(text) + close)
  {
    NoSpecialSafe(Pieces, text);
    FormatInlineSafe(text);
    WrapSafe(Pieces, open, FormatInline(text), close);
  }

  /** A token with plain text renders to safe markup. */
  lemma TokenSafe(t: Token)
    requires PlainToken(t)
    ensures Safe(TokenHtml(t))
  {
    match t
    case OpenList(k) =>
      ListTagsArePieces(k, false);
      MemberSafe(Pieces, ListTag(k, false));
    case CloseList(k) =>
      ListTagsArePieces(k, true);
      MemberSafe(Pieces, ListTag(k, true));
    case Item(_, text) =>
      ItemTagsArePieces();
      WrappedSafe("<li>", text, "</li>");
    case Head(level, text) =>
      HeadTagsArePieces(level);
      WrappedSafe(HeadTag(level, false), text, HeadTag(level, true));
    case Para(text) =>
      ParagraphTagsArePieces();
      WrappedSafe("<p>", text, "</p>");
  }

  lemma {:induction false} RenderSafe(ts: seq<Token>)
    requires PlainTokens(ts)
    ensures Safe(Render(ts))
    decreases |ts|
  {
    if |ts| == 0 {
      assert Render(ts) == [];
    } else {
      TokenSafe(ts[0]);
      assert PlainTokens(ts[1..]) by {
        forall k | 0 <= k < |ts| - 1 ensures PlainToken(ts[1..][k]) {
          assert ts[1..][k] == ts[k + 1];
        }
      }
      RenderSafe(ts[1..]);
      SafeAppend(Pieces, TokenHtml(ts[0]), Render(ts[1..]));
    }
  }

  lemma PlainAppend(a: seq<Token>, b: seq<Token>)
    requires PlainTokens(a) && PlainTokens(b)
    ensures PlainTokens(a + b)
  {
    forall k | 0 <= k < |a + b| ensures PlainToken((a + b)[k]) {
      if k >= |a| {
        assert (a + b)[k] == b[k - |a|];
      }
    }
  }

  /** The tokens of a plain line after plain earlier ones are plain. */
  lemma PlainStep(prev: seq<Token>, c: Line, open: Option<ListKind>)
    requires PlainTokens(prev) && PlainLine(c)
    ensures PlainTokens(prev + LineTokens(c, open).0)
  {
    var ts := LineTokens(c, open).0;
    forall k | 0 <= k < |ts| ensures PlainToken(ts[k]) {
    }
    PlainAppend(prev, ts);
  }

  lemma {:induction false} TokensUpToPlain(cs: seq<Line>, i: nat)
    requires i <= |cs|
    requires forall k :: 0 <= k < |cs| ==> PlainLine(cs[k])
    ensures PlainTokens(TokensUpTo(cs, i).0)
  {
    if i > 0 {
      TokensUpToPlain(cs, i - 1);
      var before := TokensUpTo(cs, i - 1);
      PlainStep(before.0, cs[i - 1], before.1);
    }
  }

  /** The lines of escaped text hold no special character. */
  lemma EscapedLinesPlain(markdown: string)
    ensures forall k :: 0 <= k < |ClassifyAll(SplitLines(EscapeHtml(markdown)))| ==>
      PlainLine(ClassifyAll(SplitLines(EscapeHtml(markdown)))[k])
  {
    var escaped := EscapeHtml(markdown);
    var lines := SplitLines(escaped);
    var cs := ClassifyAll(lines);
    EscapeHtmlSafe(markdown);
    SplitLinesChars(escaped);
    forall k | 0 <= k < |cs| ensures PlainLine(cs[k]) {
      var line := lines[k];
      forall i | 0 <= i < |line| ensures !Special(line[i]) {
        assert line[i] in escaped;
      }
      var e := ClassifyText(line);
      if !cs[k].Blank? {
        var t := cs[k].text;
        forall i | 0 <= i < |t| ensures !Special(t[i]) {
          assert t[i] == line[e + i];
        }
      }
    }
  }

  /** The output for lines with plain text is safe. */
  lemma TokensSafe(cs: seq<Line>)
    requires forall k :: 0 <= k < |cs| ==> PlainLine(cs[k])
    ensures Safe(Render(Tokens(cs)))
  {
    var all := TokensUpTo(cs, |cs|);
    TokensUpToPlain(cs, |cs|);
    PlainAppend(all.0, CloseOpen(all.1));
    RenderSafe(Tokens(cs));
  }

  lemma EmptyParagraphSafe()
    ensures Safe("<p></p>")
  {
    ParagraphTagsArePieces();
    NoSpecialSafe(Pieces, "");
    WrapSafe(Pieces, "<p>", "", "</p>");
    assert "<p>" + "" + "</p>" == "<p></p>";
  }

  /** Whatever the input, the output's `<`, `>`, `"` and `'` all belong to
      the renderer's own tags: text cannot inject markup. */
  lemma MarkdownSafe(markdown: string)
    ensures Safe(MarkdownToHtmlSpec(markdown))
  {
    EscapedLinesPlain(markdown);
    TokensSafe(ClassifyAll(SplitLines(EscapeHtml(markdown))));
    EmptyParagraphSafe();
  }
}
