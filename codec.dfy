/** The one-item-per-line text format of the gallery and link-list editors:
    `src | alt | caption` and `label | url`, pieces trimmed, blank lines
    skipped, missing pieces empty and extra pieces ignored. */
module Codec {
  import opened Strings
  import opened Json

  datatype GalleryItem = GalleryItem(src: string, alt: string, caption: string)

  /** A link: its `label` text and its `url`. */
  datatype LinkItem = LinkItem(text: string, url: string)

  /** The trimmed `i`-th piece, or `''` when the line has fewer pieces. */
  function Piece(parts: seq<string>, i: nat): string
  {
    if i < |parts| then Trim(parts[i]) else ""
  }

  /** The non-empty strings of `ls`, in order (`filter(Boolean)`). */
  function NonBlank(ls: seq<string>): (r: seq<string>)
    ensures forall k :: 0 <= k < |r| ==> r[k] != "" && r[k] in ls
  {
    if |ls| == 0 then []
    else if ls[0] != "" then [ls[0]] + NonBlank(ls[1..])
    else NonBlank(ls[1..])
  }

  /** The lines of `value`, trimmed, without the blank ones. */
  function ContentLines(value: string): seq<string>
  {
    var lines := SplitLines(value);
    NonBlank(seq(|lines|, k requires 0 <= k < |lines| => Trim(lines[k])))
  }

  function GalleryOfLine(line: string): GalleryItem
  {
    var parts := SplitOn(line, '|');
    GalleryItem(Piece(parts, 0), Piece(parts, 1), Piece(parts, 2))
  }

  function LinkOfLine(line: string): LinkItem
  {
    var parts := SplitOn(line, '|');
    LinkItem(Piece(parts, 0), Piece(parts, 1))
  }

  /** `parseGallery`. */
  function ParseGallery(value: string): seq<GalleryItem>
  {
    var ls := ContentLines(value);
    seq(|ls|, k requires 0 <= k < |ls| => GalleryOfLine(ls[k]))
  }

  /** `parseLinks`. */
  function ParseLinks(value: string): seq<LinkItem>
  {
    var ls := ContentLines(value);
    seq(|ls|, k requires 0 <= k < |ls| => LinkOfLine(ls[k]))
  }

  function GalleryLine(item: GalleryItem): string
  {
    item.src + "|" + item.alt + "|" + item.caption
  }

  function LinkLine(item: LinkItem): string
  {
    item.text + "|" + item.url
  }

  /** `serializeGallery`: one `src|alt|caption` line per item. */
  function SerializeGallery(items: seq<GalleryItem>): string
  {
    Join(seq(|items|, k requires 0 <= k < |items| => GalleryLine(items[k])), "\n")
  }

  /** `serializeLinks`: one `label|url` line per item. */
  function SerializeLinks(items: seq<LinkItem>): string
  {
    Join(seq(|items|, k requires 0 <= k < |items| => LinkLine(items[k])), "\n")
  }

  /** The items as the block stores them: plain objects of strings. */
  function GalleryValue(items: seq<GalleryItem>): (v: Value)
    ensures v.Arr? && |v.elems| == |items|
  {
    Arr(seq(|items|, k requires 0 <= k < |items| =>
      Obj(map["src" := Str(items[k].src), "alt" := Str(items[k].alt), "caption" := Str(items[k].caption)])))
  }

  function LinksValue(items: seq<LinkItem>): (v: Value)
    ensures v.Arr? && |v.elems| == |items|
  {
    Arr(seq(|items|, k requires 0 <= k < |items| =>
      Obj(map["label" := Str(items[k].text), "url" := Str(items[k].url)])))
  }

  // ------------------------------------------------ the round trip

  /** A field the format carries unchanged: no separator, no line break and
      no white space at either end. */
  predicate Clean(f: string)
  {
    '|' !in f && '\n' !in f && Trim(f) == f
  }

  predicate CleanGallery(items: seq<GalleryItem>)
  {
    forall k :: 0 <= k < |items| ==> Clean(items[k].src) && Clean(items[k].alt) && Clean(items[k].caption)
  }

  predicate CleanLinks(items: seq<LinkItem>)
  {
    forall k :: 0 <= k < |items| ==> Clean(items[k].text) && Clean(items[k].url)
  }

  lemma {:induction false} NonBlankAll(ls: seq<string>)
    requires forall k :: 0 <= k < |ls| ==> ls[k] != ""
    ensures NonBlank(ls) == ls
  {
    if |ls| > 0 {
      NonBlankAll(ls[1..]);
      assert [ls[0]] + ls[1..] == ls;
    }
  }

  /** A line made of trimmed pieces joined by `|` is already trimmed. */
  lemma JoinedTrimmed(a: string, b: string)
    requires Trim(a) == a && Trim(b) == b
    ensures Trim(a + "|" + b) == a + "|" + b
  {
    TrimIdentity(a);
    TrimIdentity(b);
    TrimIdentity(a + "|" + b);
  }

  lemma TrimmedEnd(s: string)
    requires s != "" && Trim(s) == s
    ensures DropCR(s) == s
  {
    TrimIdentity(s);
  }

  lemma {:induction false} TrimAllIdentity(lines: seq<string>)
    requires forall k :: 0 <= k < |lines| ==> Trim(lines[k]) == lines[k]
    ensures seq(|lines|, k requires 0 <= k < |lines| => Trim(lines[k])) == lines
  {
  }

  /** Trimmed, non-empty lines without breaks come back from the line reader. */
  lemma ContentLinesJoin(lines: seq<string>)
    requires forall k :: 0 <= k < |lines| ==> lines[k] != "" && '\n' !in lines[k] && Trim(lines[k]) == lines[k]
    ensures ContentLines(Join(lines, "\n")) == lines
  {
    if |lines| == 0 {
      SplitLinesSingle("");
      assert Trim("") == "";
      assert seq(1, k requires 0 <= k < 1 => Trim([""][k])) == [""];
    } else {
      forall k | 0 <= k < |lines| ensures DropCR(lines[k]) == lines[k] {
        TrimmedEnd(lines[k]);
      }
      SplitLinesJoin(lines);
      TrimAllIdentity(lines);
      NonBlankAll(lines);
    }
  }

  lemma PiecesOfLine(a: string, b: string, c: string)
    requires '|' !in a && '|' !in b && '|' !in c
    ensures SplitOn(a + "|" + b + "|" + c, '|') == [a, b, c]
  {
    SplitNoSep(c, '|');
    SplitPrefix(b, c, '|');
    SplitPrefix(a, b + "|" + c, '|');
    assert a + "|" + b + "|" + c == a + "|" + (b + "|" + c);
  }

  lemma PiecesOfLink(a: string, b: string)
    requires '|' !in a && '|' !in b
    ensures SplitOn(a + "|" + b, '|') == [a, b]
  {
    SplitNoSep(b, '|');
    SplitPrefix(a, b, '|');
  }

  /** Serializing clean gallery items and parsing the text gives them back. */
  lemma GalleryRoundTrip(items: seq<GalleryItem>)
    requires CleanGallery(items)
    ensures ParseGallery(SerializeGallery(items)) == items
  {
    var lines := seq(|items|, k requires 0 <= k < |items| => GalleryLine(items[k]));
    forall k | 0 <= k < |items|
      ensures lines[k] != "" && '\n' !in lines[k] && Trim(lines[k]) == lines[k]
      ensures GalleryOfLine(lines[k]) == items[k]
    {
      var it := items[k];
      assert lines[k][|it.src|] == '|';
      JoinedTrimmed(it.src, it.alt);
      JoinedTrimmed(it.src + "|" + it.alt, it.caption);
      PiecesOfLine(it.src, it.alt, it.caption);
    }
    ContentLinesJoin(lines);
  }

  /** Serializing clean links and parsing the text gives them back. */
  lemma LinksRoundTrip(items: seq<LinkItem>)
    requires CleanLinks(items)
    ensures ParseLinks(SerializeLinks(items)) == items
  {
    var lines := seq(|items|, k requires 0 <= k < |items| => LinkLine(items[k]));
    forall k | 0 <= k < |items|
      ensures lines[k] != "" && '\n' !in lines[k] && Trim(lines[k]) == lines[k]
      ensures LinkOfLine(lines[k]) == items[k]
    {
      var it := items[k];
      assert lines[k][|it.text|] == '|';
      JoinedTrimmed(it.text, it.url);
      PiecesOfLink(it.text, it.url);
    }
    ContentLinesJoin(lines);
  }

  /** Every piece the parser returns is clean. */
  lemma PieceClean(line: string, i: nat)
    requires '\n' !in line
    ensures Clean(Piece(SplitOn(line, '|'), i))
  {
    var parts := SplitOn(line, '|');
    if i < |parts| {
      SplitOnChars(line, '|');
      TrimChars(parts[i]);
      TrimIdempotent(parts[i]);
    }
  }

  lemma ContentLinesSingle(value: string)
    ensures forall k :: 0 <= k < |ContentLines(value)| ==> '\n' !in ContentLines(value)[k]
  {
    var lines := SplitLines(value);
    forall k | 0 <= k < |lines| ensures '\n' !in Trim(lines[k]) {
      TrimChars(lines[k]);
    }
  }

  /** What the editor shows after parsing is what it parses again: the
      text-area round trip is stable after one pass. */
  lemma GalleryStable(value: string)
    ensures ParseGallery(SerializeGallery(ParseGallery(value))) == ParseGallery(value)
  {
    var ls := ContentLines(value);
    ContentLinesSingle(value);
    forall k | 0 <= k < |ls|
      ensures Clean(GalleryOfLine(ls[k]).src) && Clean(GalleryOfLine(ls[k]).alt) && Clean(GalleryOfLine(ls[k]).caption)
    {
      PieceClean(ls[k], 0);
      PieceClean(ls[k], 1);
      PieceClean(ls[k], 2);
    }
    GalleryRoundTrip(ParseGallery(value));
  }

  lemma LinksStable(value: string)
    ensures ParseLinks(SerializeLinks(ParseLinks(value))) == ParseLinks(value)
  {
    var ls := ContentLines(value);
    ContentLinesSingle(value);
    forall k | 0 <= k < |ls|
      ensures Clean(LinkOfLine(ls[k]).text) && Clean(LinkOfLine(ls[k]).url)
    {
      PieceClean(ls[k], 0);
      PieceClean(ls[k], 1);
    }
    LinksRoundTrip(ParseLinks(value));
  }
}
