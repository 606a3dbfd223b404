/** Content blocks: the nine block kinds, a new block of each kind, and the
    normalization that turns whatever a stored or imported document holds
    into blocks with every field of their kind, and a whole document into
    the editor state. */
module Blocks {
  import opened Wrappers
  import opened Strings
  import opened Numbers
  import opened Json
  import opened Sanitize

  datatype Kind = Text | Image | Audio | YouTube | Pdf | Quote | Callout | Gallery | Links

  /** The `type` tag a block of this kind carries. */
  function Tag(k: Kind): string
  {
    match k
    case Text => "text"
    case Image => "image"
    case Audio => "audio"
    case YouTube => "youtube"
    case Pdf => "pdf"
    case Quote => "quote"
    case Callout => "callout"
    case Gallery => "gallery"
    case Links => "links"
  }

  /** The palette, in the order it lists the kinds. */
  const Library: seq<Kind> := [Text, Image, Audio, YouTube, Pdf, Quote, Callout, Gallery, Links]

  /** The kind whose tag is strictly equal to `v`, if any. */
  function KindOf(v: Value): (k: Option<Kind>)
    ensures k.Some? ==> v == Str(Tag(k.value))
    ensures k.None? ==> forall j :: 0 <= j < |Library| ==> v != Str(Tag(Library[j]))
  {
    if v == Str("text") then Some(Text)
    else if v == Str("image") then Some(Image)
    else if v == Str("audio") then Some(Audio)
    else if v == Str("youtube") then Some(YouTube)
    else if v == Str("pdf") then Some(Pdf)
    else if v == Str("quote") then Some(Quote)
    else if v == Str("callout") then Some(Callout)
    else if v == Str("gallery") then Some(Gallery)
    else if v == Str("links") then Some(Links)
    else None
  }

  /** Every kind is on the palette and is found by its own tag. */
  lemma KindOfTag(k: Kind)
    ensures KindOf(Str(Tag(k))) == Some(k)
    ensures k in Library
  {
  }

  /** `createId()`: `b-` and a random suffix, which the model takes as given. */
  function CreateId(suffix: string): (id: string)
    ensures |id| >= 2 && id[..2] == "b-"
  {
    "b-" + suffix
  }

  /** `newBlock(type)`: the empty fields of the kind; any other type, `text`
      included, gives an empty text block. */
  function NewBlock(t: string, id: string): Value
  {
    if t == "image" then Obj(map["id" := Str(id), "type" := Str(t), "src" := Str(""), "alt" := Str(""), "caption" := Str(""), "width" := Str("")])
    else if t == "audio" || t == "pdf" then Obj(map["id" := Str(id), "type" := Str(t), "src" := Str(""), "caption" := Str("")])
    else if t == "youtube" then Obj(map["id" := Str(id), "type" := Str(t), "url" := Str(""), "caption" := Str("")])
    else if t == "quote" then Obj(map["id" := Str(id), "type" := Str(t), "text" := Str(""), "cite" := Str("")])
    else if t == "callout" then Obj(map["id" := Str(id), "type" := Str(t), "text" := Str("")])
    else if t == "gallery" || t == "links" then Obj(map["id" := Str(id), "type" := Str(t), "items" := Arr([])])
    else BaseBlock(id)
  }

  /** A new block is an object with the given id, tagged with the requested
      kind when that kind exists and is not text, and as text otherwise. */
  lemma NewBlockShape(t: string, id: string)
    ensures NewBlock(t, id).Obj? && "id" in NewBlock(t, id).props && "type" in NewBlock(t, id).props
    ensures NewBlock(t, id).props["id"] == Str(id)
    ensures NewBlock(t, id).props["type"] == Str(if KindOf(Str(t)).Some? then t else "text")
  {
  }

  /** The empty text block. */
  function BaseBlock(id: string): Value
  {
    Obj(map["id" := Str(id), "type" := Str("text"), "markdown" := Str("")])
  }

  // ------------------------------------------------ normalizeBlock

  const TypeError := "TypeError"

  /** A property read from the copy `Object.assign({}, block)`. */
  function Lookup(m: map<string, Value>, key: string): Value
  {
    if key in m then m[key] else Undefined
  }

  /** A property name that is neither `length` nor an index. */
  predicate Named(key: string)
  {
    |key| > 0 && !IsDigit(key[0]) && key != "length"
  }

  /** Reading a named property of an object or an array is reading it from
      its copy: `normalizeBlock` may read `block.x` or `normalized.x` alike. */
  lemma GetIsLookup(v: Value, key: string)
    requires v.Obj? || v.Arr?
    requires Named(key)
    ensures Get(v, key) == Lookup(OwnProps(v), key)
  {
    if v.Arr? {
      assert key !in OwnProps(v);
    }
  }

  function OrEmpty(m: map<string, Value>, key: string): Value
  {
    Or(Lookup(m, key), Str(""))
  }

  /** `typeof x === 'number' || typeof x === 'string' ? String(x) : ''`. */
  function StyleText(x: Value): (r: Value)
    ensures r.Str?
  {
    if x.Num? || x.Str? then Str(JsToString(x)) else Str("")
  }

  predicate StartsWith(s: string, p: string)
  {
    |p| <= |s| && s[..|p|] == p
  }

  function TextFields(m: map<string, Value>): map<string, Value>
  {
    map["markdown" := OrEmpty(m, "markdown"),
        "fontChoice" := Or(Lookup(m, "fontChoice"), Str("inherit")),
        "fontSize" := StyleText(Lookup(m, "fontSize")),
        "lineHeight" := StyleText(Lookup(m, "lineHeight")),
        "textColor" := OrEmpty(m, "textColor"),
        "align" := OrEmpty(m, "align")]
  }

  /** `block.sourceMode || (src?.startsWith('data:') ? 'local' : 'repo')`,
      where `src` is already `block.src || ''`: a truthy `src` that is not a
      string has no `startsWith`. */
  function SourceMode(m: map<string, Value>, src: Value): Result<Value>
  {
    var given := Lookup(m, "sourceMode");
    if Truthy(given) then Ok(given)
    else if !Truthy(src) then Ok(Str("repo"))
    else if src.Str? then Ok(Str(if StartsWith(src.s, "data:") then "local" else "repo"))
    else Err(TypeError)
  }

  /** The fields shared by images, audio and PDFs: the source and where it
      comes from. */
  function MediaFields(m: map<string, Value>): Result<map<string, Value>>
  {
    var src := OrEmpty(m, "src");
    var mode := SourceMode(m, src);
    if mode.Err? then Err(mode.error)
    else
      var repo := Or(Lookup(m, "repoPath"), if mode.value == Str("repo") then src else Str(""));
      Ok(map["src" := src, "caption" := OrEmpty(m, "caption"), "sourceMode" := mode.value,
             "sourceName" := OrEmpty(m, "sourceName"), "repoPath" := repo])
  }

  function ImageFields(m: map<string, Value>): Result<map<string, Value>>
  {
    var media := MediaFields(m);
    if media.Err? then media
    else Ok(media.value["alt" := OrEmpty(m, "alt")]["width" := Str(SanitizeNumber(Lookup(m, "width"), WidthMin, WidthMax))])
  }

  /** `{ n: item.n || '' }` for each name `n`. */
  function ItemObject(item: Value, names: set<string>): Value
  {
    Obj(map n | n in names :: Or(Get(item, n), Str("")))
  }

  /** `Array.isArray(block.items) ? block.items.map(…) : []`; reading a
      property of a `null` or `undefined` item throws. */
  function ListFields(m: map<string, Value>, names: set<string>): Result<map<string, Value>>
  {
    var items := Lookup(m, "items");
    if !items.Arr? then Ok(map["items" := Arr([])])
    else if exists j :: 0 <= j < |items.elems| && Nullish(items.elems[j]) then Err(TypeError)
    else Ok(map["items" := Arr(seq(|items.elems|, j requires 0 <= j < |items.elems| => ItemObject(items.elems[j], names)))])
  }

  const GalleryNames: set<string> := {"src", "alt", "caption"}
  const LinkNames: set<string> := {"label", "url"}

  /** The fields the `switch` of `normalizeBlock` writes for a known kind. */
  function KindFields(k: Kind, m: map<string, Value>): (r: Result<map<string, Value>>)
    ensures r.Ok? ==> "id" !in r.value && "type" !in r.value
  {
    match k
    case Text => Ok(TextFields(m))
    case Image => ImageFields(m)
    case Audio => MediaFields(m)
    case Pdf => MediaFields(m)
    case YouTube => Ok(map["url" := OrEmpty(m, "url"), "caption" := OrEmpty(m, "caption")])
    case Quote => Ok(map["text" := OrEmpty(m, "text"), "cite" := OrEmpty(m, "cite")])
    case Callout => Ok(map["text" := OrEmpty(m, "text")])
    case Gallery => ListFields(m, GalleryNames)
    case Links => ListFields(m, LinkNames)
  }

  /** The kind `normalizeBlock` switches on: `block.type || 'text'`. */
  function KindAfter(m: map<string, Value>): Option<Kind>
  {
    KindOf(Or(Lookup(m, "type"), Str("text")))
  }

  /** The copy with its `id` and `type` settled. */
  function Settled(m: map<string, Value>, id: string): map<string, Value>
  {
    m["id" := Or(Lookup(m, "id"), Str(id))]["type" := Or(Lookup(m, "type"), Str("text"))]
  }

  /** `normalizeBlock` on the copy of an object block. */
  function NormalizeProps(m: map<string, Value>, id: string): Result<Value>
  {
    var settled := Settled(m, id);
    var k := KindAfter(m);
    if k.None? then Ok(Obj(settled["type" := Str("text")]["markdown" := OrEmpty(m, "markdown")]))
    else
      var fields := KindFields(k.value, m);
      if fields.Err? then Err(fields.error) else Ok(Obj(settled + fields.value))
  }

  /** `normalizeBlock(block)`, with `id` the identifier `createId()` returns:
      anything that is not a truthy object becomes an empty text block; an
      object keeps its properties, gets an id and a type, and then the fields
      of its kind, defaulted; an unknown type becomes text with only its
      markdown. An error stands for the `TypeError` the code throws. */
  function NormalizeBlock(block: Value, id: string): Result<Value>
  {
    if !Truthy(block) || !IsObjectType(block) then Ok(BaseBlock(id))
    else NormalizeProps(OwnProps(block), id)
  }

  // ------------------------------------------------ what normalizeBlock promises

  /** The fields a normalized block of each kind carries besides id and type. */
  function FieldNames(k: Kind): set<string>
  {
    match k
    case Text => {"markdown", "fontChoice", "fontSize", "lineHeight", "textColor", "align"}
    case Image => {"src", "caption", "sourceMode", "sourceName", "repoPath", "alt", "width"}
    case Audio => {"src", "caption", "sourceMode", "sourceName", "repoPath"}
    case Pdf => {"src", "caption", "sourceMode", "sourceName", "repoPath"}
    case YouTube => {"url", "caption"}
    case Quote => {"text", "cite"}
    case Callout => {"text"}
    case Gallery => {"items"}
    case Links => {"items"}
  }

  /** The names the normalization writes over the copy. */
  function Written(m: map<string, Value>): set<string>
  {
    {"id", "type"} + (if KindAfter(m).Some? then FieldNames(KindAfter(m).value) else {"markdown"})
  }

  lemma MediaFieldsKeys(m: map<string, Value>)
    requires MediaFields(m).Ok?
    ensures MediaFields(m).value.Keys == FieldNames(Audio)
  {
  }

  /** The kind's fields are exactly the ones it lists. */
  lemma KindFieldsKeys(k: Kind, m: map<string, Value>)
    requires KindFields(k, m).Ok?
    ensures KindFields(k, m).value.Keys == FieldNames(k)
  {
    match k
    case Image => MediaFieldsKeys(m);
    case Audio => MediaFieldsKeys(m);
    case Pdf => MediaFieldsKeys(m);
    case _ =>
  }

  /** The error cases: a known kind whose fields cannot be computed. */
  lemma NormalizeBlockFails(block: Value, id: string)
    ensures NormalizeBlock(block, id).Err? <==>
      Truthy(block) && IsObjectType(block) && KindAfter(OwnProps(block)).Some? &&
      KindFields(KindAfter(OwnProps(block)).value, OwnProps(block)).Err?
  {
  }

  /** Media fields fail exactly for a truthy non-string source with no mode. */
  lemma MediaFieldsFail(m: map<string, Value>)
    ensures MediaFields(m).Err? <==>
      !Truthy(Lookup(m, "sourceMode")) && Truthy(Lookup(m, "src")) && !Lookup(m, "src").Str?
  {
  }

  /** A list fails exactly when its items array holds `null` or `undefined`. */
  lemma ListFieldsFail(m: map<string, Value>, names: set<string>)
    ensures ListFields(m, names).Err? <==>
      Lookup(m, "items").Arr? && exists j :: 0 <= j < |Lookup(m, "items").elems| && Nullish(Lookup(m, "items").elems[j])
  {
  }

  /** The normalization of a copy whose kind is known and whose fields can
      be computed: the settled copy with the fields over it. */
  lemma NormalizeOfKind(m: map<string, Value>, id: string, k: Kind)
    requires KindAfter(m) == Some(k) && KindFields(k, m).Ok?
    ensures NormalizeProps(m, id) == Ok(Obj(Settled(m, id) + KindFields(k, m).value))
  {
  }

  /** The settled copy holds the id and the type the block had, defaulted. */
  lemma SettledPlus(m: map<string, Value>, id: string, f: map<string, Value>)
    requires "id" !in f && "type" !in f
    ensures "id" in Settled(m, id) + f && "type" in Settled(m, id) + f
    ensures (Settled(m, id) + f)["id"] == Or(Lookup(m, "id"), Str(id))
    ensures (Settled(m, id) + f)["type"] == Or(Lookup(m, "type"), Str("text"))
  {
  }

  /** A normalized block of a known kind has a truthy id, the block's own
      one when it had one, and its kind's tag. */
  lemma NormalizeIdentityKnown(m: map<string, Value>, id: string, k: Kind, f: map<string, Value>)
    requires id != "" && KindAfter(m) == Some(k) && KindFields(k, m) == Ok(f)
    ensures NormalizeProps(m, id).Ok? && NormalizeProps(m, id).value.Obj?
    ensures "id" in NormalizeProps(m, id).value.props && "type" in NormalizeProps(m, id).value.props
    ensures Truthy(NormalizeProps(m, id).value.props["id"])
    ensures Truthy(Lookup(m, "id")) ==> NormalizeProps(m, id).value.props["id"] == m["id"]
    ensures NormalizeProps(m, id).value.props["type"] == Str(Tag(k))
  {
    NormalizeOfKind(m, id, k);
    SettledPlus(m, id, f);
  }

  /** A block of an unknown type is normalized to text, keeping a truthy id. */
  lemma NormalizeIdentityUnknown(m: map<string, Value>, id: string)
    requires id != "" && KindAfter(m).None?
    ensures NormalizeProps(m, id).Ok? && NormalizeProps(m, id).value.Obj?
    ensures "id" in NormalizeProps(m, id).value.props && "type" in NormalizeProps(m, id).value.props
    ensures Truthy(NormalizeProps(m, id).value.props["id"])
    ensures Truthy(Lookup(m, "id")) ==> NormalizeProps(m, id).value.props["id"] == m["id"]
    ensures NormalizeProps(m, id).value.props["type"] == Str("text")
  {
  }

  /** A block as the editor renders it: an object with a truthy id and the
      tag of one of the nine kinds. */
  predicate Tagged(b: Value)
  {
    b.Obj? && "id" in b.props && Truthy(b.props["id"]) &&
    "type" in b.props && KindOf(b.props["type"]).Some?
  }

  /** Whatever it is given, a normalization that succeeds yields a tagged block. */
  lemma NormalizeBlockTagged(block: Value, id: string)
    requires id != "" && NormalizeBlock(block, id).Ok?
    ensures Tagged(NormalizeBlock(block, id).value)
  {
    if !Truthy(block) || !IsObjectType(block) {
      assert KindOf(Str("text")) == Some(Text);
    } else {
      var m := OwnProps(block);
      if KindAfter(m).Some? {
        var k := KindAfter(m).value;
        NormalizeIdentityKnown(m, id, k, KindFields(k, m).value);
        KindOfTag(k);
      } else {
        NormalizeIdentityUnknown(m, id);
        assert KindOf(Str("text")) == Some(Text);
      }
    }
  }

  /** A normalized block of a known kind has every field of its kind. */
  lemma NormalizeHasFields(m: map<string, Value>, id: string)
    requires NormalizeProps(m, id).Ok? && KindAfter(m).Some?
    ensures forall n :: n in FieldNames(KindAfter(m).value) ==> n in NormalizeProps(m, id).value.props
  {
    KindFieldsKeys(KindAfter(m).value, m);
    NormalizeOfKind(m, id, KindAfter(m).value);
  }

  /** Every property the normalization does not write is kept as it was. */
  lemma NormalizeKeepsOthers(m: map<string, Value>, id: string, n: string)
    requires NormalizeProps(m, id).Ok?
    requires n in m && n !in Written(m)
    ensures n in NormalizeProps(m, id).value.props && NormalizeProps(m, id).value.props[n] == m[n]
  {
    if KindAfter(m).Some? {
      KindFieldsKeys(KindAfter(m).value, m);
      NormalizeOfKind(m, id, KindAfter(m).value);
    }
  }

  /** A media block with no source mode is local exactly when its source is
      a `data:` URL, and a repository block with no path takes its source. */
  lemma SourceModeInferred(m: map<string, Value>)
    requires !Truthy(Lookup(m, "sourceMode")) && Lookup(m, "src").Str?
    ensures MediaFields(m).Ok?
    ensures MediaFields(m).value["sourceMode"] ==
      Str(if StartsWith(Lookup(m, "src").s, "data:") then "local" else "repo")
    ensures !StartsWith(Lookup(m, "src").s, "data:") && !Truthy(Lookup(m, "repoPath")) ==>
      MediaFields(m).value["repoPath"] == Lookup(m, "src")
  {
  }

  /** A normalized image's width is what the width sanitizer makes of it:
      empty or a number from 10 to 100. */
  lemma ImageWidthInRange(m: map<string, Value>)
    requires ImageFields(m).Ok? && ImageFields(m).value["width"] != Str("")
    ensures ImageFields(m).value["width"].Str?
    ensures StringToNumber(ImageFields(m).value["width"].s).Finite?
    ensures Le(Dec(1, 1), StringToNumber(ImageFields(m).value["width"].s).d)
    ensures Le(StringToNumber(ImageFields(m).value["width"].s).d, Dec(1, 2))
  {
    SanitizeNumberInRange(Lookup(m, "width"), WidthMin, WidthMax);
  }

  // ------------------------------------------------ normalizing twice

  lemma TextFixed(x: map<string, Value>, m: map<string, Value>)
    ensures TextFields(x + TextFields(m)) == TextFields(m)
  {
    var f := TextFields(m);
    var y := x + f;
    OrIdempotent(Lookup(m, "markdown"), Str(""));
    OrIdempotent(Lookup(m, "fontChoice"), Str("inherit"));
    OrIdempotent(Lookup(m, "textColor"), Str(""));
    OrIdempotent(Lookup(m, "align"), Str(""));
    assert OrEmpty(y, "markdown") == f["markdown"];
    assert Or(Lookup(y, "fontChoice"), Str("inherit")) == f["fontChoice"];
    assert StyleText(Lookup(y, "fontSize")) == f["fontSize"];
    assert StyleText(Lookup(y, "lineHeight")) == f["lineHeight"];
    assert OrEmpty(y, "textColor") == f["textColor"];
    assert OrEmpty(y, "align") == f["align"];
  }

  lemma MediaFixed(x: map<string, Value>, m: map<string, Value>, f: map<string, Value>)
    requires MediaFields(m).Ok?
    requires forall n :: n in MediaFields(m).value ==> n in f && f[n] == MediaFields(m).value[n]
    ensures MediaFields(x + f) == MediaFields(m)
  {
    var g := MediaFields(m).value;
    assert "src" in g && "sourceMode" in g && "caption" in g && "sourceName" in g && "repoPath" in g;
  }

  lemma WidthFixed(v: Value)
    ensures SanitizeNumber(Str(SanitizeNumber(v, WidthMin, WidthMax)), WidthMin, WidthMax) == SanitizeNumber(v, WidthMin, WidthMax)
  {
    SanitizeNumberIdempotent(v, WidthMin, WidthMax);
  }

  lemma ImageMediaFixed(x: map<string, Value>, m: map<string, Value>)
    requires ImageFields(m).Ok?
    ensures MediaFields(x + ImageFields(m).value) == MediaFields(m)
  {
    var media := MediaFields(m).value;
    var w := SanitizeNumber(Lookup(m, "width"), WidthMin, WidthMax);
    var f := media["alt" := OrEmpty(m, "alt")]["width" := Str(w)];
    assert ImageFields(m).value == f;
    assert "alt" !in media && "width" !in media;
    MediaFixed(x, m, f);
  }

  lemma ImageFixed(x: map<string, Value>, m: map<string, Value>)
    requires ImageFields(m).Ok?
    ensures ImageFields(x + ImageFields(m).value) == ImageFields(m)
  {
    var f := ImageFields(m).value;
    ImageMediaFixed(x, m);
    WidthFixed(Lookup(m, "width"));
    OrIdempotent(Lookup(m, "alt"), Str(""));
    assert Lookup(x + f, "alt") == OrEmpty(m, "alt");
    assert Lookup(x + f, "width") == f["width"];
  }

  lemma ItemObjectFixed(item: Value, names: set<string>)
    ensures ItemObject(ItemObject(item, names), names) == ItemObject(item, names)
  {
  }

  lemma ListFixed(x: map<string, Value>, m: map<string, Value>, names: set<string>)
    requires ListFields(m, names).Ok?
    ensures ListFields(x + ListFields(m, names).value, names) == ListFields(m, names)
  {
    var f := ListFields(m, names).value;
    var once := f["items"];
    assert Lookup(x + f, "items") == once;
    if Lookup(m, "items").Arr? {
      var items := Lookup(m, "items");
      forall j | 0 <= j < |once.elems|
        ensures ItemObject(once.elems[j], names) == once.elems[j]
        ensures !Nullish(once.elems[j])
      {
        ItemObjectFixed(items.elems[j], names);
      }
      assert ListFields(x + f, names).Ok?;
      assert ListFields(x + f, names).value["items"].elems == once.elems;
      assert ListFields(x + f, names).value == f;
    } else {
      assert once == Arr([]);
      assert ListFields(x + f, names).value["items"].elems == [];
      assert ListFields(x + f, names).value == f;
    }
  }

  /** The kind's fields read only names they write: recomputing them over
      anything that already holds them gives them again. */
  lemma KindFieldsFixed(k: Kind, x: map<string, Value>, m: map<string, Value>)
    requires KindFields(k, m).Ok?
    ensures KindFields(k, x + KindFields(k, m).value) == KindFields(k, m)
  {
    match k
    case Text => TextFixed(x, m);
    case Image => ImageFixed(x, m);
    case Audio => MediaFixed(x, m, MediaFields(m).value);
    case Pdf => MediaFixed(x, m, MediaFields(m).value);
    case Gallery => ListFixed(x, m, GalleryNames);
    case Links => ListFixed(x, m, LinkNames);
    case _ =>
  }

  lemma SettledFixed(m: map<string, Value>, id: string, f: map<string, Value>, id2: string)
    requires id != "" && "id" !in f && "type" !in f
    ensures Settled(Settled(m, id) + f, id2) == Settled(m, id) + f
  {
    var s := Settled(m, id) + f;
    SettledPlus(m, id, f);
    assert s["id" := s["id"]]["type" := s["type"]] == s;
  }

  /** The normalized copy has the kind the copy had. */
  lemma KindAfterSettled(m: map<string, Value>, id: string, f: map<string, Value>)
    requires "id" !in f && "type" !in f
    ensures KindAfter(Settled(m, id) + f) == KindAfter(m)
  {
    SettledPlus(m, id, f);
    OrIdempotent(Lookup(m, "type"), Str("text"));
  }

  /** Normalizing a normalized object block whose type was unset or known
      changes nothing, whatever fresh id the second pass would use. */
  lemma NormalizePropsIdempotent(m: map<string, Value>, id: string, id2: string)
    requires id != "" && NormalizeProps(m, id).Ok? && KindAfter(m).Some?
    ensures NormalizeProps(NormalizeProps(m, id).value.props, id2) == NormalizeProps(m, id)
  {
    var k := KindAfter(m).value;
    var f := KindFields(k, m).value;
    var s := Settled(m, id);
    NormalizeOfKind(m, id, k);
    KindAfterSettled(m, id, f);
    KindFieldsFixed(k, s, m);
    NormalizeOfKind(s + f, id2, k);
    SettledFixed(m, id, f, id2);
    assert (s + f) + f == s + f;
  }

  lemma NormalizeBlockIdempotent(block: Value, id: string, id2: string)
    requires id != ""
    requires Truthy(block) && IsObjectType(block) && NormalizeBlock(block, id).Ok?
    requires KindAfter(OwnProps(block)).Some?
    ensures NormalizeBlock(NormalizeBlock(block, id).value, id2) == NormalizeBlock(block, id)
  {
    var p := OwnProps(block);
    assert NormalizeBlock(block, id) == NormalizeProps(p, id);
    NormalizePropsIdempotent(p, id, id2);
    var q := NormalizeProps(p, id).value;
    assert q.Obj? && Truthy(q);
    assert NormalizeBlock(q, id2) == NormalizeProps(q.props, id2);
  }

  /** An unknown type is not a fixed point: the first pass makes a bare text
      block, the second gives it the text style fields. */
  lemma UnknownTypeNotIdempotent()
    ensures NormalizeProps(map["id" := Str("b-1"), "type" := Str("video")], "b-2")
      == Ok(Obj(map["id" := Str("b-1"), "type" := Str("text"), "markdown" := Str("")]))
    ensures "fontChoice" in NormalizeProps(map["id" := Str("b-1"), "type" := Str("text"), "markdown" := Str("")], "b-3").value.props
  {
    var first := map["id" := Str("b-1"), "type" := Str("video")];
    assert KindAfter(first) == None;
    assert Settled(first, "b-2") == first;
    assert first["type" := Str("text")]["markdown" := Str("")]
      == map["id" := Str("b-1"), "type" := Str("text"), "markdown" := Str("")];
    var second := map["id" := Str("b-1"), "type" := Str("text"), "markdown" := Str("")];
    assert KindAfter(second) == Some(Text);
    NormalizeOfKind(second, "b-3", Text);
  }

  /** A value that is not a truthy object becomes the empty text block,
      which is itself not yet normalized. */
  lemma NonObjectBlock(block: Value, id: string)
    requires !Truthy(block) || !IsObjectType(block)
    ensures NormalizeBlock(block, id) == Ok(BaseBlock(id))
    ensures id != "" ==> "fontChoice" in NormalizeBlock(BaseBlock(id), id).value.props
  {
    if id != "" {
      assert Settled(BaseBlock(id).props, id) == BaseBlock(id).props;
    }
  }

  /** When the block already has a truthy id and type, a known kind and
      fields that agree with the ones normalization computes, normalization
      keeps every property it has. */
  lemma NormalizeKeepsAgreeing(block: Value, id: string)
    requires block.Obj? && Agrees(block.props)
    requires Truthy(Lookup(block.props, "id")) && Truthy(Lookup(block.props, "type"))
    ensures NormalizeBlock(block, id).Ok?
    ensures forall n :: n in block.props ==> n in NormalizeBlock(block, id).value.props && NormalizeBlock(block, id).value.props[n] == block.props[n]
  {
    var m := block.props;
    NormalizeOfKind(m, id, KindAfter(m).value);
    assert Settled(m, id) == m;
  }

  /** Every field the copy of a block holds that its kind computes already
      has the computed value; fields it lacks are not compared. */
  predicate Agrees(m: map<string, Value>)
  {
    KindAfter(m).Some? && KindFields(KindAfter(m).value, m).Ok? &&
    forall n :: n in m && n in KindFields(KindAfter(m).value, m).value ==> KindFields(KindAfter(m).value, m).value[n] == m[n]
  }

  lemma NewImageAgrees(id: string)
    ensures Agrees(NewBlock("image", id).props)
  {
    var m := NewBlock("image", id).props;
    assert KindAfter(m) == Some(Image);
    assert MediaFields(m) == Ok(map["src" := Str(""), "caption" := Str(""), "sourceMode" := Str("repo"),
      "sourceName" := Str(""), "repoPath" := Str("")]);
    assert SanitizeNumber(Str(""), WidthMin, WidthMax) == "";
  }

  lemma NewAvAgrees(t: string, id: string)
    requires t == "audio" || t == "pdf"
    ensures Agrees(NewBlock(t, id).props)
  {
    var m := NewBlock(t, id).props;
    assert m == map["id" := Str(id), "type" := Str(t), "src" := Str(""), "caption" := Str("")];
    assert KindAfter(m) == Some(if t == "audio" then Audio else Pdf);
    assert MediaFields(m) == Ok(map["src" := Str(""), "caption" := Str(""), "sourceMode" := Str("repo"),
      "sourceName" := Str(""), "repoPath" := Str("")]);
  }

  lemma NewYouTubeAgrees(id: string)
    ensures Agrees(NewBlock("youtube", id).props)
  {
    assert KindAfter(NewBlock("youtube", id).props) == Some(YouTube);
  }

  lemma NewQuoteAgrees(id: string)
    ensures Agrees(NewBlock("quote", id).props)
  {
    assert KindAfter(NewBlock("quote", id).props) == Some(Quote);
  }

  lemma NewCalloutAgrees(id: string)
    ensures Agrees(NewBlock("callout", id).props)
  {
    assert KindAfter(NewBlock("callout", id).props) == Some(Callout);
  }

  lemma NewListAgrees(t: string, id: string)
    requires t == "gallery" || t == "links"
    ensures Agrees(NewBlock(t, id).props)
  {
    var m := NewBlock(t, id).props;
    assert Lookup(m, "items") == Arr([]);
  }

  lemma NewTextAgrees(t: string, id: string)
    requires t !in {"image", "audio", "pdf", "youtube", "quote", "callout", "gallery", "links"}
    ensures Agrees(NewBlock(t, id).props)
  {
    assert NewBlock(t, id) == BaseBlock(id);
    assert KindAfter(BaseBlock(id).props) == Some(Text);
  }

  /** Every field a new block of any type holds that its kind computes
      already has the computed value. */
  lemma NewBlockAgrees(t: string, id: string)
    ensures Agrees(NewBlock(t, id).props)
  {
    if t == "image" {
      NewImageAgrees(id);
    } else if t == "audio" || t == "pdf" {
      NewAvAgrees(t, id);
    } else if t == "youtube" {
      NewYouTubeAgrees(id);
    } else if t == "quote" {
      NewQuoteAgrees(id);
    } else if t == "callout" {
      NewCalloutAgrees(id);
    } else if t == "gallery" || t == "links" {
      NewListAgrees(t, id);
    } else {
      NewTextAgrees(t, id);
    }
  }

  /** The fields of its kind a new block does not yet hold: the media
      blocks lack where their source comes from, text blocks their style. */
  function MissingFields(t: string): set<string>
  {
    if t == "image" || t == "audio" || t == "pdf" then {"sourceMode", "sourceName", "repoPath"}
    else if t == "youtube" || t == "quote" || t == "callout" || t == "gallery" || t == "links" then {}
    else {"fontChoice", "fontSize", "lineHeight", "textColor", "align"}
  }

  lemma MediaMissing(t: string, id: string)
    requires t == "image" || t == "audio" || t == "pdf"
    ensures KindAfter(NewBlock(t, id).props).Some?
    ensures FieldNames(KindAfter(NewBlock(t, id).props).value) - NewBlock(t, id).props.Keys == MissingFields(t)
  {
    var m := NewBlock(t, id).props;
    var k := if t == "image" then Image else if t == "audio" then Audio else Pdf;
    assert KindAfter(m) == Some(k);
    if t == "image" {
      assert m.Keys == {"id", "type", "src", "alt", "caption", "width"};
    } else {
      assert m.Keys == {"id", "type", "src", "caption"};
    }
  }

  lemma TextMissing(t: string, id: string)
    requires t !in {"image", "audio", "pdf", "youtube", "quote", "callout", "gallery", "links"}
    ensures KindAfter(NewBlock(t, id).props).Some?
    ensures FieldNames(KindAfter(NewBlock(t, id).props).value) - NewBlock(t, id).props.Keys == MissingFields(t)
  {
    var m := NewBlock(t, id).props;
    assert m == BaseBlock(id).props;
    assert KindAfter(m) == Some(Text);
    assert m.Keys == {"id", "type", "markdown"};
  }

  lemma OtherMissing(t: string, id: string)
    requires t == "youtube" || t == "quote" || t == "callout" || t == "gallery" || t == "links"
    ensures KindAfter(NewBlock(t, id).props).Some?
    ensures FieldNames(KindAfter(NewBlock(t, id).props).value) - NewBlock(t, id).props.Keys == MissingFields(t)
  {
    var m := NewBlock(t, id).props;
    if t == "youtube" {
      assert KindAfter(m) == Some(YouTube);
      assert m.Keys == {"id", "type", "url", "caption"};
    } else if t == "quote" {
      assert KindAfter(m) == Some(Quote);
      assert m.Keys == {"id", "type", "text", "cite"};
    } else if t == "callout" {
      assert KindAfter(m) == Some(Callout);
      assert m.Keys == {"id", "type", "text"};
    } else {
      assert KindAfter(m) == Some(if t == "gallery" then Gallery else Links);
      assert m.Keys == {"id", "type", "items"};
    }
  }

  /** Normalization adds exactly the missing fields to a new block. */
  lemma NewBlockMissing(t: string, id: string)
    ensures KindAfter(NewBlock(t, id).props).Some?
    ensures FieldNames(KindAfter(NewBlock(t, id).props).value) - NewBlock(t, id).props.Keys == MissingFields(t)
  {
    if t == "image" || t == "audio" || t == "pdf" {
      MediaMissing(t, id);
    } else if t == "youtube" || t == "quote" || t == "callout" || t == "gallery" || t == "links" {
      OtherMissing(t, id);
    } else {
      TextMissing(t, id);
    }
  }

  /** Normalizing a new block keeps every field it was created with. */
  lemma NewBlockNormalizes(t: string, id: string, id2: string)
    requires id != ""
    ensures NormalizeBlock(NewBlock(t, id), id2).Ok?
    ensures forall n :: n in NewBlock(t, id).props ==>
      n in NormalizeBlock(NewBlock(t, id), id2).value.props &&
      NormalizeBlock(NewBlock(t, id), id2).value.props[n] == NewBlock(t, id).props[n]
  {
    NewBlockShape(t, id);
    NewBlockAgrees(t, id);
    NormalizeKeepsAgreeing(NewBlock(t, id), id2);
  }
}
