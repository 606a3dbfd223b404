/** The editor's live state for the operations that change it in place: the
    block list of the first section, which the palette, the block buttons,
    drag-and-drop and the block editors splice and update, and the theme
    settings the theme button rotates. */
module Store {
  import opened Wrappers
  import opened Numbers
  import opened Json
  import opened Sanitize
  import opened Codec
  import opened Blocks

  // ------------------------------------------------ Array.prototype.splice

  /** Where `splice(start, …)` starts: a negative start counts from the end,
      and the start is clamped into the array. */
  function SpliceStart(start: int, len: nat): (r: nat)
    ensures r <= len
    ensures 0 <= start <= len ==> r == start
    ensures start > len ==> r == len
  {
    if start < 0 then (if len + start < 0 then 0 else len + start)
    else if start > len then len
    else start
  }

  /** How many elements `splice(…, count)` removes from `at` on. */
  function SpliceCount(count: int, len: nat, at: nat): (r: nat)
    requires at <= len
    ensures at + r <= len
  {
    if count < 0 then 0 else if count > len - at then len - at else count
  }

  /** What `splice` returns, and what it leaves in the array. */
  datatype Spliced = Spliced(removed: seq<Value>, rest: seq<Value>)

  /** `a.splice(start, count, ...items)` on an array holding `s`. */
  function Splice(s: seq<Value>, start: int, count: int, items: seq<Value>): Spliced
  {
    var at := SpliceStart(start, |s|);
    var n := SpliceCount(count, |s|, at);
    Spliced(s[at..at + n], s[..at] + items + s[at + n..])
  }

  /** Inserting one element at a non-negative position puts it there, or at
      the end when the position is past it, and shifts what follows. */
  lemma SpliceInsert(s: seq<Value>, p: int, x: Value)
    requires p >= 0
    ensures Splice(s, p, 0, [x]).removed == []
    ensures |Splice(s, p, 0, [x]).rest| == |s| + 1
    ensures Splice(s, p, 0, [x]).rest[if p <= |s| then p else |s|] == x
    ensures forall j :: 0 <= j < |s| && j < p ==> Splice(s, p, 0, [x]).rest[j] == s[j]
    ensures forall j :: p <= j < |s| ==> Splice(s, p, 0, [x]).rest[j + 1] == s[j]
  {
  }

  /** Removing one element at an index inside the array takes out exactly
      that element and closes the gap. */
  lemma SpliceRemove(s: seq<Value>, i: int)
    requires 0 <= i < |s|
    ensures Splice(s, i, 1, []).removed == [s[i]]
    ensures |Splice(s, i, 1, []).rest| == |s| - 1
    ensures forall j :: 0 <= j < i ==> Splice(s, i, 1, []).rest[j] == s[j]
    ensures forall j :: i < j < |s| ==> Splice(s, i, 1, []).rest[j - 1] == s[j]
  {
  }

  /** The drag-move: `blocks.splice(newIndex, 0, blocks.splice(oldIndex, 1)[0])`;
      an old index outside the array removes nothing and inserts `undefined`. */
  function Moved(s: seq<Value>, from: int, to: int): seq<Value>
  {
    var out := Splice(s, from, 1, []);
    var moved := if |out.removed| > 0 then out.removed[0] else Undefined;
    Splice(out.rest, to, 0, [moved]).rest
  }

  /** `s` without its `i`-th element. */
  function Without(s: seq<Value>, i: nat): (r: seq<Value>)
    requires i < |s|
    ensures |r| == |s| - 1
  {
    s[..i] + s[i + 1..]
  }

  lemma {:induction false} InsertAt(r: seq<Value>, x: Value, i: nat)
    requires i <= |r|
    ensures (r[..i] + [x] + r[i..])[i] == x
    ensures Without(r[..i] + [x] + r[i..], i) == r
    ensures multiset(r[..i] + [x] + r[i..]) == multiset(r) + multiset{x}
  {
    var t := r[..i] + [x] + r[i..];
    assert t[..i] == r[..i];
    assert t[i + 1..] == r[i..];
    assert r == r[..i] + r[i..];
  }

  lemma {:induction false} WithoutMultiset(s: seq<Value>, i: nat)
    requires i < |s|
    ensures multiset(Without(s, i)) + multiset{s[i]} == multiset(s)
  {
    assert s == s[..i] + [s[i]] + s[i + 1..];
  }

  lemma MovedShape(s: seq<Value>, from: int, to: int)
    requires 0 <= from < |s| && 0 <= to < |s|
    ensures Moved(s, from, to) == Without(s, from)[..to] + [s[from]] + Without(s, from)[to..]
  {
    assert Splice(s, from, 1, []) == Spliced([s[from]], Without(s, from));
  }

  /** A move between two positions of the list puts the dragged block at the
      drop position, keeps every block, and keeps the others in their order. */
  lemma MovePermutes(s: seq<Value>, from: int, to: int)
    requires 0 <= from < |s| && 0 <= to < |s|
    ensures |Moved(s, from, to)| == |s|
    ensures Moved(s, from, to)[to] == s[from]
    ensures Without(Moved(s, from, to), to) == Without(s, from)
    ensures multiset(Moved(s, from, to)) == multiset(s)
  {
    MovedShape(s, from, to);
    InsertAt(Without(s, from), s[from], to);
    WithoutMultiset(s, from);
  }

  /** Dropping a block where it was picked up leaves the list as it was. */
  lemma MoveInPlace(s: seq<Value>, i: int)
    requires 0 <= i < |s|
    ensures Moved(s, i, i) == s
  {
    var rest := Without(s, i);
    assert Splice(s, i, 1, []) == Spliced([s[i]], rest);
    assert rest[..i] + [s[i]] + rest[i..] == s;
  }

  // ------------------------------------------------ block updates

  /** `addBlock`'s position: a non-negative number as given, anything else
      (no index, NaN, a negative number) the end of the list. */
  function Position(index: Option<int>, len: nat): int
  {
    if index.Some? && index.value >= 0 then index.value else len
  }

  /** `duplicateBlock`'s copy: `JSON.parse(JSON.stringify(block))` with the
      new id; setting the id of a copied primitive has no effect. */
  function DuplicateOf(block: Value, id: string): Value
  {
    SetProp(JsonClone(block), "id", Str(id))
  }

  /** The copy of a block that JSON represents exactly is the block with the
      new id and nothing else changed. */
  lemma DuplicateOfPlain(block: Value, id: string)
    requires block.Obj? && Plain(block)
    ensures DuplicateOf(block, id) == Obj(block.props["id" := Str(id)])
    ensures DuplicateOf(block, id) != block <==> !("id" in block.props && block.props["id"] == Str(id))
  {
    JsonClonePlain(block);
  }

  /** `Object.assign(block, changes)`: an object block gains or replaces the
      changed properties; a block that is not an object is left
      unchanged. */
  function Merged(block: Value, changes: map<string, Value>): (r: Value)
    ensures block.Obj? ==> r.Obj? && r.props.Keys == block.props.Keys + changes.Keys
    ensures block.Obj? ==> forall k :: k in changes ==> r.props[k] == changes[k]
    ensures block.Obj? ==> forall k :: k in block.props && k !in changes ==> r.props[k] == block.props[k]
    ensures !block.Obj? ==> r == block
  {
    if block.Obj? then Obj(block.props + changes) else block
  }

  predicate IsTextStyle(field: string)
  {
    field == "fontChoice" || field == "fontSize" || field == "lineHeight" || field == "textColor" || field == "align"
  }

  predicate IsMedia(t: Value)
  {
    t == Str("image") || t == Str("audio") || t == Str("pdf")
  }

  /** The sanitized value a text style field stores. */
  function StyleValue(field: string, value: string): string
    requires IsTextStyle(field)
  {
    if field == "fontChoice" then SanitizeFontChoice(Str(value))
    else if field == "fontSize" then SanitizeNumber(Str(value), FontSizeMin, FontSizeMax)
    else if field == "lineHeight" then SanitizeNumber(Str(value), LineHeightMin, LineHeightMax)
    else if field == "textColor" then SanitizeColor(Str(value))
    else SanitizeAlign(Str(value))
  }

  /** Text style fields only ever store sanitized values: a font key, a
      font size from 0.6 to 3 or a line height from 1 to 3 (or nothing), a
      hex colour or nothing, an alignment or nothing. */
  lemma StyleValueSanitized(field: string, value: string)
    requires IsTextStyle(field)
    ensures field == "fontChoice" ==> IsFontKey(StyleValue(field, value))
    ensures field == "textColor" ==>
      StyleValue(field, value) == "" || ShortHex(StyleValue(field, value)) || FullHex(StyleValue(field, value))
    ensures field == "align" ==> StyleValue(field, value) == "" || IsAlign(StyleValue(field, value))
    ensures field == "fontSize" && StyleValue(field, value) != "" ==>
      InRange(StyleValue(field, value), FontSizeMin, FontSizeMax)
    ensures field == "lineHeight" && StyleValue(field, value) != "" ==>
      InRange(StyleValue(field, value), LineHeightMin, LineHeightMax)
  {
    StyleBounds();
    if field == "fontSize" {
      var r := SanitizeNumber(Str(value), FontSizeMin, FontSizeMax);
      assert StyleValue(field, value) == r;
      if r != "" {
        SanitizeNumberInRange(Str(value), FontSizeMin, FontSizeMax);
      }
    } else if field == "lineHeight" {
      var r := SanitizeNumber(Str(value), LineHeightMin, LineHeightMax);
      assert StyleValue(field, value) == r;
      if r != "" {
        SanitizeNumberInRange(Str(value), LineHeightMin, LineHeightMax);
      }
    }
  }

  /** The changes `handleBlockInput(index, field, value)` hands to
      `updateBlock` for the block `block`. */
  function InputChanges(block: Value, field: string, value: string): map<string, Value>
  {
    var t := Get(block, "type");
    if t == Str("gallery") && field == "items" then map["items" := GalleryValue(ParseGallery(value))]
    else if t == Str("links") && field == "items" then map["items" := LinksValue(ParseLinks(value))]
    else if t == Str("text") && IsTextStyle(field) then map[field := Str(StyleValue(field, value))]
    else if IsMedia(t) && field == "src" then
      map["src" := Str(value), "repoPath" := Str(value), "sourceMode" := Str("repo"), "sourceName" := Str("")]
    else if t == Str("image") && field == "width" then map["width" := Str(SanitizeNumber(Str(value), WidthMin, WidthMax))]
    else map[field := Str(value)]
  }

  /** Every routed change writes the edited field; only a media source
      writes more, and then it also points the repository path at it. */
  lemma InputWritesField(block: Value, field: string, value: string)
    ensures field in InputChanges(block, field, value)
    ensures IsMedia(Get(block, "type")) && field == "src" ==>
      InputChanges(block, field, value).Keys == {"src", "repoPath", "sourceMode", "sourceName"} &&
      InputChanges(block, field, value)["repoPath"] == Str(value) &&
      InputChanges(block, field, value)["sourceMode"] == Str("repo") &&
      InputChanges(block, field, value)["sourceName"] == Str("")
    ensures !(IsMedia(Get(block, "type")) && field == "src") ==> InputChanges(block, field, value).Keys == {field}
  {
  }

  /** A style edit on a text block stores the sanitized value under the field. */
  lemma InputTextStyle(block: Value, field: string, value: string)
    requires Get(block, "type") == Str("text") && IsTextStyle(field)
    ensures InputChanges(block, field, value) == map[field := Str(StyleValue(field, value))]
  {
  }

  /** An image width is stored sanitized: nothing, or a number from 10 to 100. */
  lemma InputImageWidth(block: Value, value: string)
    requires Get(block, "type") == Str("image")
    ensures InputChanges(block, "width", value)["width"].Str?
    ensures InputChanges(block, "width", value)["width"] != Str("") ==>
      InRange(InputChanges(block, "width", value)["width"].s, WidthMin, WidthMax)
  {
    StyleBounds();
    var r := SanitizeNumber(Str(value), WidthMin, WidthMax);
    assert InputChanges(block, "width", value) == map["width" := Str(r)];
    if r != "" {
      SanitizeNumberInRange(Str(value), WidthMin, WidthMax);
    }
  }

  /** Gallery and link items are stored parsed, and what the editor shows of
      them (their serialization) parses back to the same items. */
  lemma InputItems(block: Value, value: string)
    ensures Get(block, "type") == Str("gallery") ==>
      InputChanges(block, "items", value)["items"] == GalleryValue(ParseGallery(value)) &&
      ParseGallery(SerializeGallery(ParseGallery(value))) == ParseGallery(value)
    ensures Get(block, "type") == Str("links") ==>
      InputChanges(block, "items", value)["items"] == LinksValue(ParseLinks(value)) &&
      ParseLinks(SerializeLinks(ParseLinks(value))) == ParseLinks(value)
  {
    GalleryStable(value);
    LinksStable(value);
  }

  /** Any other edit stores the typed text under the field's name. */
  lemma InputPlain(block: Value, field: string, value: string)
    requires field != "src" && field != "width" && field != "items" && !IsTextStyle(field)
    ensures InputChanges(block, field, value) == map[field := Str(value)]
  {
  }

  // ------------------------------------------------ the state

  /** `state.sections[0].blocks` and `state.theme`. */
  class State {
    var blocks: seq<Value>
    var theme: map<string, Value>

    constructor(blocks0: seq<Value>, theme0: map<string, Value>)
      ensures blocks == blocks0 && theme == theme0
    {
      blocks := blocks0;
      theme := theme0;
    }

    /** Whether `blocks[index]` is a block (`if (!block) return;`). */
    predicate Present(index: int)
      reads this
    {
      0 <= index < |blocks| && Truthy(blocks[index])
    }

    /** `addBlock(type, index)` with `id` the new block's id. */
    method AddBlock(t: string, index: Option<int>, id: string)
      modifies this
      ensures blocks == Splice(old(blocks), Position(index, |old(blocks)|), 0, [NewBlock(t, id)]).rest
      ensures |blocks| == |old(blocks)| + 1
      ensures theme == old(theme)
    {
      var position := Position(index, |blocks|);
      var out := Splice(blocks, position, 0, [NewBlock(t, id)]);
      blocks := out.rest;
    }

    /** `duplicateBlock(index)` with `id` the copy's id. */
    method DuplicateBlock(index: int, id: string)
      modifies this
      ensures old(Present(index)) ==>
        blocks == Splice(old(blocks), index + 1, 0, [DuplicateOf(old(blocks)[index], id)]).rest
      ensures !old(Present(index)) ==> blocks == old(blocks)
      ensures theme == old(theme)
    {
      if !Present(index) {
        return;
      }
      var copy := DuplicateOf(blocks[index], id);
      var out := Splice(blocks, index + 1, 0, [copy]);
      blocks := out.rest;
    }

    /** `removeBlock(index)`, with `confirmed` the answer to the dialog. */
    method RemoveBlock(index: int, confirmed: bool)
      modifies this
      ensures old(Present(index)) && confirmed ==> blocks == Without(old(blocks), index)
      ensures !(old(Present(index)) && confirmed) ==> blocks == old(blocks)
      ensures theme == old(theme)
    {
      if !Present(index) || !confirmed {
        return;
      }
      var out := Splice(blocks, index, 1, []);
      blocks := out.rest;
    }

    /** `onUpdate` of the block list: a drag from `oldIndex` to `newIndex`. */
    method MoveBlock(oldIndex: int, newIndex: int)
      modifies this
      ensures oldIndex == newIndex ==> blocks == old(blocks)
      ensures oldIndex != newIndex ==> blocks == Moved(old(blocks), oldIndex, newIndex)
      ensures theme == old(theme)
    {
      if oldIndex == newIndex {
        return;
      }
      var out := Splice(blocks, oldIndex, 1, []);
      var moved := if |out.removed| > 0 then out.removed[0] else Undefined;
      var back := Splice(out.rest, newIndex, 0, [moved]);
      blocks := back.rest;
    }

    /** `updateBlock(index, changes)`. */
    method UpdateBlock(index: int, changes: map<string, Value>)
      modifies this
      ensures old(Present(index)) ==> blocks == old(blocks)[index := Merged(old(blocks)[index], changes)]
      ensures !old(Present(index)) ==> blocks == old(blocks)
      ensures theme == old(theme)
    {
      if !Present(index) {
        return;
      }
      blocks := blocks[index := Merged(blocks[index], changes)];
    }

    /** `handleBlockInput(index, field, value)`: only the block at `index`
      changes, by the routed changes. */
    method HandleBlockInput(index: int, field: string, value: string)
      modifies this
      ensures |blocks| == |old(blocks)|
      ensures forall j :: 0 <= j < |blocks| && j != index ==> blocks[j] == old(blocks)[j]
      ensures old(Present(index)) ==>
        blocks[index] == Merged(old(blocks)[index], InputChanges(old(blocks)[index], field, value))
      ensures !old(Present(index)) ==> blocks == old(blocks)
      ensures theme == old(theme)
    {
      if !Present(index) {
        return;
      }
      UpdateBlock(index, InputChanges(blocks[index], field, value));
    }

    /** The theme button: the next mode of the rotation. */
    method ToggleTheme()
      modifies this
      ensures theme == old(theme)["mode" := Str(NextMode(if "mode" in old(theme) then old(theme)["mode"] else Undefined))]
      ensures blocks == old(blocks)
    {
      var mode := if "mode" in theme then theme["mode"] else Undefined;
      theme := theme["mode" := Str(NextMode(mode))];
    }
  }
}
