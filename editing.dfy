/** The Markdown toolbar of a text block: bold and italic wrap the selection
    of the text area, bullet and numbered lists rewrite the lines the
    selection touches. A text area is its value and its selection bounds. */
module Editing {
  import opened Strings
  import opened Numbers

  /** The text area after an edit: its new value and its new selection. */
  datatype Edit = Edit(text: string, selStart: nat, selEnd: nat)

  /** A non-negative `slice` bound clamped to the length. */
  function Clip(i: nat, len: nat): (r: nat)
    ensures r <= len && (i <= len ==> r == i)
  {
    if i <= len then i else len
  }

  /** `s.slice(a, b)` for non-negative bounds. */
  function Slice(s: string, a: nat, b: nat): (r: string)
    ensures a <= b <= |s| ==> r == s[a..b]
  {
    var x := Clip(a, |s|);
    var y := Clip(b, |s|);
    if x < y then s[x..y] else ""
  }

  // ------------------------------------------------ bold and italic

  const Placeholder := "texto"

  predicate IsWrap(format: string)
  {
    format == "bold" || format == "italic"
  }

  function Mark(format: string): string
  {
    if format == "bold" then "**" else "*"
  }

  /** What gets wrapped: the selection, or the placeholder when it is empty. */
  function Content(value: string, start: nat, end: nat): (r: string)
    ensures r != ""
  {
    var selection := Slice(value, start, end);
    if selection != "" then selection else Placeholder
  }

  /** `applyTextFormat` for every format but the lists: bold and italic wrap
      the content in their mark and select it; another format writes the
      text back as it was. */
  function WrapSelection(value: string, start: nat, end: nat, format: string): Edit
  {
    var before := Slice(value, 0, start);
    var after := value[Clip(end, |value|)..];
    if IsWrap(format) then
      var mark := Mark(format);
      var content := Content(value, start, end);
      Edit(before + mark + content + mark + after, start + |mark|, start + |mark| + |content|)
    else Edit(before + Slice(value, start, end) + after, start, end)
  }

  /** Wrapping keeps the text around the selection, puts the mark on both
      sides of the content and selects exactly the content. */
  lemma WrapSelects(value: string, start: nat, end: nat, format: string)
    requires start <= end <= |value| && IsWrap(format)
    ensures WrapSelection(value, start, end, format).selStart == start + |Mark(format)|
    ensures WrapSelection(value, start, end, format).selEnd ==
      start + |Mark(format)| + |Content(value, start, end)|
    ensures WrapSelection(value, start, end, format).text ==
      value[..start] + Mark(format) + Content(value, start, end) + Mark(format) + value[end..]
    ensures WrapSelection(value, start, end, format).text[
      WrapSelection(value, start, end, format).selStart..WrapSelection(value, start, end, format).selEnd]
      == Content(value, start, end)
  {
    var e := WrapSelection(value, start, end, format);
    var m := Mark(format);
    var c := Content(value, start, end);
    assert e.text == value[..start] + m + c + m + value[end..];
    assert e.text[start + |m|..start + |m| + |c|] == c;
  }

  /** The selection is wrapped as it is; the placeholder only stands in for
      an empty one. */
  lemma ContentIsSelection(value: string, start: nat, end: nat)
    requires start <= end <= |value|
    ensures start < end ==> Content(value, start, end) == value[start..end]
    ensures start == end ==> Content(value, start, end) == Placeholder
  {
  }

  /** Any other format leaves the text area as it was. */
  lemma WrapOther(value: string, start: nat, end: nat, format: string)
    requires start <= end <= |value| && !IsWrap(format)
    ensures WrapSelection(value, start, end, format) == Edit(value, start, end)
  {
    assert value[..start] + value[start..end] + value[end..] == value;
  }

  // ------------------------------------------------ String.prototype.indexOf and lastIndexOf

  /** The last index from `i` down holding `c`, or -1. */
  function LastAt(s: string, c: char, i: int): (r: int)
    requires -1 <= i < |s|
    ensures -1 <= r <= i
    ensures r >= 0 ==> s[r] == c
    ensures forall k :: 0 <= k <= i && r < k ==> s[k] != c
    decreases i + 1
  {
    if i < 0 then -1 else if s[i] == c then i else LastAt(s, c, i - 1)
  }

  /** The first index from `i` up holding `c`, or -1. */
  function NextAt(s: string, c: char, i: nat): (r: int)
    requires i <= |s|
    ensures r == -1 || (i <= r < |s| && s[r] == c)
    ensures forall k :: i <= k < |s| && (r == -1 || k < r) ==> s[k] != c
    decreases |s| - i
  {
    if i == |s| then -1 else if s[i] == c then i else NextAt(s, c, i + 1)
  }

  /** `s.lastIndexOf(c, from)`: the position is clamped into the string, and
      a match may start at it. */
  function LastIndexOf(s: string, c: char, from: int): (r: int)
    ensures -1 <= r < |s|
  {
    var p := if from < 0 then 0 else from;
    if |s| == 0 then -1 else LastAt(s, c, if p < |s| then p else |s| - 1)
  }

  /** `s.indexOf(c, from)`. */
  function IndexOf(s: string, c: char, from: nat): (r: int)
    ensures -1 <= r < |s|
  {
    NextAt(s, c, Clip(from, |s|))
  }

  // ------------------------------------------------ bullet and numbered lists

  /** `value.lastIndexOf('\n', start - 1) + 1` as the code computes it: for
      a selection starting at 0 the search starts at 0 too, and a line break
      there is taken to end the line before. */
  function LineStartAsWritten(value: string, start: nat): nat
  {
    LastIndexOf(value, '\n', start - 1) + 1
  }

  /** Where the line holding the selection start begins: after the last line
      break before `start`, or at 0. */
  function LineStart(value: string, start: nat): nat
  {
    if start == 0 then 0 else LineStartAsWritten(value, start)
  }

  /** Where the line holding the selection end ends: at the next line break
      from `end` on, or at the end of the text. */
  function LineEnd(value: string, end: nat): nat
  {
    var k := IndexOf(value, '\n', end);
    if k == -1 then |value| else k
  }

  /** The covered text, or the default item text when it is empty. */
  function Covered(value: string, a: nat, b: nat): (r: string)
    ensures r != ""
  {
    var s := Slice(value, a, b);
    if s != "" then s else DefaultItem
  }

  /** The item text for an empty covered range. */
  const DefaultItem := "Elemento de la lista"

  /** The length of the list marker `^([-*]\s+|\d+\.\s+)` at the start of
      `line`, or 0 when there is none. */
  function MarkerEnd(line: string): (r: nat)
    ensures r <= |line|
  {
    if |line| >= 2 && (line[0] == '-' || line[0] == '*') && IsSpace(line[1]) then SpaceEnd(line, 1)
    else
      var d := DigitRun(line);
      if 0 < d && d + 1 < |line| && line[d] == '.' && IsSpace(line[d + 1]) then SpaceEnd(line, d + 1)
      else 0
  }

  /** The line without its marker, trimmed. */
  function Unmarked(line: string): string
  {
    Trim(line[MarkerEnd(line)..])
  }

  /** The item text of line number `n`: the unmarked line, or `Elemento n`. */
  function ItemText(line: string, n: nat): string
  {
    var clean := Unmarked(line);
    if clean != "" then clean else "Elemento " + NatToString(n)
  }

  function Marker(n: nat, ordered: bool): string
  {
    if ordered then NatToString(n) + ". " else "- "
  }

  /** Line number `n` of the list. */
  function ItemLine(line: string, n: nat, ordered: bool): string
  {
    Marker(n, ordered) + ItemText(line, n)
  }

  /** Every covered line as a list item, numbered from 1. */
  function FormattedLines(lines: seq<string>, ordered: bool): (r: seq<string>)
    ensures |r| == |lines|
  {
    seq(|lines|, k requires 0 <= k < |lines| => ItemLine(lines[k], k + 1, ordered))
  }

  /** The list that replaces the covered text. */
  function Formatted(value: string, a: nat, b: nat, ordered: bool): string
  {
    Join(FormattedLines(SplitLines(Covered(value, a, b)), ordered), "\n")
  }

  /** `applyListFormat` once the covered range `a`..`b` is known: the text
      before and after it stays, the list replaces it and is selected. */
  function ListEdit(value: string, a: nat, b: nat, ordered: bool): Edit
  {
    Splice(value, a, b, Formatted(value, a, b, ordered))
  }

  /** `f` put in place of `a`..`b` and selected. */
  function Splice(value: string, a: nat, b: nat, f: string): Edit
  {
    Edit(value[..Clip(a, |value|)] + f + value[Clip(b, |value|)..], a, a + |f|)
  }

  /** `applyListFormat` as the code computes the covered range. It agrees
      with the corrected range everywhere except at 0 before a line break. */
  function ListFormatAsWritten(value: string, start: nat, end: nat, format: string): (r: Edit)
    ensures !(start == 0 && |value| > 0 && value[0] == '\n') ==>
      r == ListEdit(value, LineStart(value, start), LineEnd(value, end), format == "ol")
  {
    ListEdit(value, LineStartAsWritten(value, start), LineEnd(value, end), format == "ol")
  }

  lemma FormattedLinesStep(lines: seq<string>, i: nat, ordered: bool)
    requires i < |lines|
    ensures FormattedLines(lines[..i + 1], ordered) == FormattedLines(lines[..i], ordered) + [ItemLine(lines[i], i + 1, ordered)]
  {
    var l := FormattedLines(lines[..i + 1], ordered);
    var r := FormattedLines(lines[..i], ordered) + [ItemLine(lines[i], i + 1, ordered)];
    forall k | 0 <= k < i + 1 ensures l[k] == r[k] {
      assert lines[..i + 1][k] == lines[k];
      if k < i {
        assert lines[..i][k] == lines[k];
      }
    }
    assert |l| == |r|;
  }

  /** `applyListFormat(textarea, format)`: the covered lines rewritten one by
      one, with a counter for their numbers. */
  method ApplyListFormat(value: string, start: nat, end: nat, format: string) returns (e: Edit)
    ensures e == ListFormatAsWritten(value, start, end, format)
  {
    var lineStart := LineStartAsWritten(value, start);
    var lineEnd := LineEnd(value, end);
    var lines := SplitLines(Covered(value, lineStart, lineEnd));
    var ordered := format == "ol";
    var counter := 1;
    var out: seq<string> := [];
    var i := 0;
    while i < |lines|
      invariant 0 <= i <= |lines|
      invariant counter == i + 1
      invariant out == FormattedLines(lines[..i], ordered)
    {
      FormattedLinesStep(lines, i, ordered);
      out := out + [ItemLine(lines[i], counter, ordered)];
      counter := counter + 1;
      i := i + 1;
    }
    assert lines[..|lines|] == lines;
    var formatted := Join(out, "\n");
    assert formatted == Formatted(value, lineStart, lineEnd, ordered);
    e := Edit(value[..Clip(lineStart, |value|)] + formatted + value[Clip(lineEnd, |value|)..],
      lineStart, lineStart + |formatted|);
  }

  /** `applyTextFormat(textarea, format)`: lists go to `applyListFormat`,
      everything else wraps the selection. */
  method ApplyTextFormat(value: string, start: nat, end: nat, format: string) returns (e: Edit)
    ensures format == "ul" || format == "ol" ==> e == ListFormatAsWritten(value, start, end, format)
    ensures !(format == "ul" || format == "ol") ==> e == WrapSelection(value, start, end, format)
  {
    if format == "ul" || format == "ol" {
      e := ApplyListFormat(value, start, end, format);
    } else {
      e := WrapSelection(value, start, end, format);
    }
  }

  // ------------------------------------------------ what the list format promises

  /** The covered range runs from the start of the line holding the
      selection start to the end of the line holding the selection end. */
  lemma LineBounds(value: string, start: nat, end: nat)
    requires start <= end <= |value|
    ensures LineStart(value, start) <= start && end <= LineEnd(value, end) <= |value|
    ensures LineStart(value, start) == 0 || value[LineStart(value, start) - 1] == '\n'
    ensures LineEnd(value, end) == |value| || value[LineEnd(value, end)] == '\n'
    ensures forall k :: LineStart(value, start) <= k < start ==> value[k] != '\n'
    ensures forall k :: end <= k < LineEnd(value, end) ==> value[k] != '\n'
  {
  }

  /** Formatting keeps the text before the first covered line and after the
      last one, and selects exactly the list that replaced the lines. */
  lemma ListEditFrames(value: string, start: nat, end: nat, ordered: bool)
    requires start <= end <= |value|
    ensures ListEdit(value, LineStart(value, start), LineEnd(value, end), ordered).selStart == LineStart(value, start)
    ensures ListEdit(value, LineStart(value, start), LineEnd(value, end), ordered).text ==
      value[..LineStart(value, start)] + Formatted(value, LineStart(value, start), LineEnd(value, end), ordered) +
      value[LineEnd(value, end)..]
    ensures ListEdit(value, LineStart(value, start), LineEnd(value, end), ordered).selEnd ==
      LineStart(value, start) + |Formatted(value, LineStart(value, start), LineEnd(value, end), ordered)|
  {
    LineBounds(value, start, end);
  }

  /** An item text is never empty, has no line break and does not start or
      end with white space. */
  lemma ItemTextShape(line: string, n: nat)
    requires '\n' !in line
    ensures ItemText(line, n) != ""
    ensures !IsSpace(ItemText(line, n)[0]) && !IsSpace(ItemText(line, n)[|ItemText(line, n)| - 1])
    ensures '\n' !in ItemText(line, n)
  {
    var u := line[MarkerEnd(line)..];
    if Unmarked(line) != "" {
      TrimIdempotent(u);
      TrimIdentity(Trim(u));
      TrimChars(u);
    } else {
      var t := "Elemento " + NatToString(n);
      assert t[|t| - 1] == NatToString(n)[|NatToString(n)| - 1];
    }
  }

  /** A marker followed by an item text is read back as exactly that marker. */
  lemma MarkerEndOfItem(n: nat, ordered: bool, c: string)
    requires c != "" && !IsSpace(c[0])
    ensures MarkerEnd(Marker(n, ordered) + c) == |Marker(n, ordered)|
  {
    var p := Marker(n, ordered);
    var u := p + c;
    assert u[|p|] == c[0];
    if ordered {
      var d := NatToString(n);
      assert p == d + ". ";
      assert u == d + (". " + c);
      DigitRunAppend(d, ". " + c);
      assert u[0] == d[0];
      assert u[|d|] == '.' && u[|d| + 1] == ' ';
    }
  }

  /** Formatting an item again, as either kind of list, keeps its text:
      applying a list format twice, or switching between bullets and
      numbers, changes only the markers. */
  lemma ItemLineAgain(line: string, n: nat, first: bool, second: bool)
    requires '\n' !in line
    ensures ItemLine(ItemLine(line, n, first), n, second) == ItemLine(line, n, second)
  {
    var c := ItemText(line, n);
    ItemTextShape(line, n);
    MarkerEndOfItem(n, first, c);
    var u := ItemLine(line, n, first);
    assert u[|Marker(n, first)|..] == c;
    TrimIdentity(c);
  }

  /** A list item holds no line break and does not end in a carriage
      return, so the line reader keeps it whole. */
  lemma ItemLineShape(line: string, n: nat, ordered: bool)
    requires '\n' !in line
    ensures '\n' !in ItemLine(line, n, ordered) && DropCR(ItemLine(line, n, ordered)) == ItemLine(line, n, ordered)
    ensures ItemText(line, n) != ""
  {
    var c := ItemText(line, n);
    var u := ItemLine(line, n, ordered);
    ItemTextShape(line, n);
    assert u[|u| - 1] == c[|c| - 1];
    assert '\n' !in Marker(n, ordered);
  }

  /** Reading the list back gives its items, one per covered line. */
  lemma FormattedSplit(lines: seq<string>, ordered: bool)
    requires |lines| > 0 && forall k :: 0 <= k < |lines| ==> '\n' !in lines[k]
    ensures SplitLines(Join(FormattedLines(lines, ordered), "\n")) == FormattedLines(lines, ordered)
  {
    var out := FormattedLines(lines, ordered);
    forall k | 0 <= k < |out|
      ensures '\n' !in out[k] && DropCR(out[k]) == out[k]
    {
      ItemLineShape(lines[k], k + 1, ordered);
    }
    SplitLinesJoin(out);
  }

  /** Item `k` of the list is the marker for number `k + 1` (`n. ` or `- `)
      followed by a non-empty text. */
  lemma FormattedItems(lines: seq<string>, ordered: bool, k: nat)
    requires k < |lines| && '\n' !in lines[k]
    ensures FormattedLines(lines, ordered)[k] == Marker(k + 1, ordered) + ItemText(lines[k], k + 1)
    ensures ItemText(lines[k], k + 1) != ""
  {
    ItemTextShape(lines[k], k + 1);
  }

  /** Reading the list back gives one line for each line the selection
      covered. */
  lemma FormattedLineCount(value: string, a: nat, b: nat, ordered: bool)
    ensures |SplitLines(Formatted(value, a, b, ordered))| == |SplitLines(Covered(value, a, b))|
  {
    FormattedSplit(SplitLines(Covered(value, a, b)), ordered);
  }

  // ------------------------------------------------ the misplaced first line

  /** The code's line start passes the selection start exactly when the
      selection starts at 0 on a text whose first character is a line
      break. */
  lemma LineStartAsWrittenSkips(value: string, start: nat)
    requires start <= |value|
    ensures LineStartAsWritten(value, start) > start <==> start == 0 && |value| > 0 && value[0] == '\n'
    ensures start > 0 ==> LineStartAsWritten(value, start) == LineStart(value, start)
  {
  }

  /** A single line that is already a bare item becomes one bullet. */
  lemma SingleItem(line: string)
    requires '\n' !in line && line != "" && !IsSpace(line[0]) && !IsSpace(line[|line| - 1])
    requires MarkerEnd(line) == 0
    ensures Join(FormattedLines(SplitLines(line), false), "\n") == "- " + line
  {
    SplitLinesSingle(line);
    TrimIdentity(line);
    assert ItemLine(line, 1, false) == "- " + line;
    assert FormattedLines([line], false) == ["- " + line];
  }

  lemma DefaultItemBare()
    ensures '\n' !in DefaultItem && !IsSpace(DefaultItem[0]) && !IsSpace(DefaultItem[|DefaultItem| - 1])
    ensures MarkerEnd(DefaultItem) == 0
  {
    assert DefaultItem[0] == 'E';
  }

  /** An empty covered range becomes the one default item. */
  lemma DefaultList(value: string, a: nat, b: nat)
    requires Slice(value, a, b) == ""
    ensures Formatted(value, a, b, false) == "- " + DefaultItem
  {
    DefaultItemBare();
    SingleItem(DefaultItem);
  }

  /** With the cursor at 0 before a line break, the code keeps the text
      before its line start and also everything from the line end on: the
      first line break appears twice. */
  lemma ListFormatDuplicatesBreak(value: string)
    requires |value| > 0 && value[0] == '\n'
    ensures ListFormatAsWritten(value, 0, 0, "ul").text == "\n" + "- " + DefaultItem + value
  {
    BreakRange(value);
    DefaultList(value, 1, 0);
    SpliceBreak(value, "- " + DefaultItem);
  }

  /** The corrected range puts the default item in front of the text. */
  lemma ListFormatAtBreak(value: string)
    requires |value| > 0 && value[0] == '\n'
    ensures ListEdit(value, LineStart(value, 0), LineEnd(value, 0), false).text == "- " + DefaultItem + value
  {
    BreakRange(value);
    DefaultList(value, 0, 0);
    SpliceFront(value, "- " + DefaultItem);
  }

  /** At 0 before a line break the line is empty; the code starts it after
      the break. */
  lemma BreakRange(value: string)
    requires |value| > 0 && value[0] == '\n'
    ensures LineStart(value, 0) == 0 && LineEnd(value, 0) == 0
    ensures LineStartAsWritten(value, 0) == 1
  {
  }

  lemma SpliceBreak(value: string, f: string)
    requires |value| > 0 && value[0] == '\n'
    ensures Splice(value, 1, 0, f).text == "\n" + f + value
  {
    assert value[..1] == "\n" && value[0..] == value;
  }

  lemma SpliceFront(value: string, f: string)
    ensures Splice(value, 0, 0, f).text == f + value
  {
    assert value[..0] + f + value[0..] == f + value;
  }

  /** The smallest such text, `"\nabc"`, formatted as a bullet list. */
  lemma ListFormatExample()
    ensures ListFormatAsWritten("\nabc", 0, 0, "ul").text == "\n- " + DefaultItem + "\nabc"
  {
    ListFormatDuplicatesBreak("\nabc");
    assert "\n" + "- " == "\n- ";
  }
}
