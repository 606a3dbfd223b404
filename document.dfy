/** `normalizeState`: a stored, fetched or imported document merged over the
    seed document, its sections rebuilt with normalized blocks. */
module Document {
  import opened Wrappers
  import opened Strings
  import opened Json
  import opened Blocks

  /** `Object.assign({}, base[key], raw[key] || {})`. */
  function Settings(seed: Value, raw: Value, key: string): Value
  {
    Obj(Assign(Get(seed, key), Or(Get(raw, key), Obj(map[]))))
  }

  /** The heading a seedless section falls back to. */
  function DefaultTitle(i: nat): string
  {
    "Sección " + NatToString(i + 1)
  }

  /** `section.title || base.sections[index]?.title || 'Sección n'`, where
      `bs` is `base.sections`: indexing it throws when it is `null` or
      `undefined`, and the read only happens when the section has no title. */
  function SectionTitle(sec: Value, bs: Value, i: nat): Result<Value>
  {
    var own := Get(sec, "title");
    if Truthy(own) then Ok(own)
    else if Nullish(bs) then Err(TypeError)
    else Ok(Or(Get(Get(bs, NatToString(i)), "title"), Str(DefaultTitle(i))))
  }

  /** `Array.isArray(section.blocks) ? section.blocks.map(normalizeBlock) : []`,
      with `ids(i, j)` the id `createId()` returns for block `j` of section `i`. */
  function SectionBlocks(sec: Value, i: nat, ids: (nat, nat) -> string): Result<Value>
  {
    var bl := Get(sec, "blocks");
    if !bl.Arr? then Ok(Arr([]))
    else if exists j :: 0 <= j < |bl.elems| && NormalizeBlock(bl.elems[j], ids(i, j)).Err? then Err(TypeError)
    else Ok(Arr(seq(|bl.elems|, j requires 0 <= j < |bl.elems| => NormalizeBlock(bl.elems[j], ids(i, j)).value)))
  }

  /** Section `i` rebuilt as `{ title, blocks }`; reading the title of a
      `null` or `undefined` section throws. */
  function NormalizeSection(sec: Value, bs: Value, i: nat, ids: (nat, nat) -> string): Result<Value>
  {
    if Nullish(sec) then Err(TypeError)
    else
      var title := SectionTitle(sec, bs, i);
      var blocks := SectionBlocks(sec, i, ids);
      if title.Err? then Err(title.error)
      else if blocks.Err? then Err(blocks.error)
      else Ok(Obj(map["title" := title.value, "blocks" := blocks.value]))
  }

  function NormalizeSections(secs: seq<Value>, bs: Value, ids: (nat, nat) -> string): Result<Value>
  {
    if exists i :: 0 <= i < |secs| && NormalizeSection(secs[i], bs, i, ids).Err? then Err(TypeError)
    else Ok(Arr(seq(|secs|, i requires 0 <= i < |secs| => NormalizeSection(secs[i], bs, i, ids).value)))
  }

  /** Whether the document brings sections of its own: a non-empty array. */
  predicate HasSections(raw: Value)
  {
    Get(raw, "sections").Arr? && |Get(raw, "sections").elems| > 0
  }

  /** `normalizeState(raw)` against the seed document `seed` (whose copy
      `clone(seed)` is the seed itself): the seed's properties overlaid with
      the document's, `site` and `theme` merged one level deeper, and the
      document's sections normalized, or the seed's when it has none. An
      error stands for the `TypeError` the code throws. */
  function NormalizeState(raw: Value, seed: Value, ids: (nat, nat) -> string): Result<Value>
  {
    if Nullish(raw) then Err(TypeError)
    else
      var sections := if HasSections(raw)
        then NormalizeSections(Get(raw, "sections").elems, Get(seed, "sections"), ids)
        else Ok(Get(seed, "sections"));
      if sections.Err? then Err(sections.error)
      else Ok(Obj(Assign(seed, raw)["site" := Settings(seed, raw, "site")]
        ["theme" := Settings(seed, raw, "theme")]["sections" := sections.value]))
  }

  // ------------------------------------------------ what normalizeState promises

  /** The properties it rebuilds; every other one is a plain overlay. */
  predicate Rebuilt(key: string)
  {
    key == "site" || key == "theme" || key == "sections"
  }

  /** A document fails exactly when it is `null` or `undefined`, or one of
      its own sections cannot be normalized. */
  lemma NormalizeStateFails(raw: Value, seed: Value, ids: (nat, nat) -> string)
    ensures NormalizeState(raw, seed, ids).Err? <==>
      Nullish(raw) ||
      (HasSections(raw) &&
        (exists i :: 0 <= i < |Get(raw, "sections").elems| &&
          NormalizeSection(Get(raw, "sections").elems[i], Get(seed, "sections"), i, ids).Err?))
  {
  }

  /** A section fails exactly when it is `null` or `undefined`, when it has
      no title and the seed's `sections` is `null` or `undefined`, or when one of
      its blocks cannot be normalized. */
  lemma NormalizeSectionFails(sec: Value, bs: Value, i: nat, ids: (nat, nat) -> string)
    ensures NormalizeSection(sec, bs, i, ids).Err? <==>
      Nullish(sec) ||
      (!Truthy(Get(sec, "title")) && Nullish(bs)) ||
      (Get(sec, "blocks").Arr? &&
        (exists j :: 0 <= j < |Get(sec, "blocks").elems| &&
          NormalizeBlock(Get(sec, "blocks").elems[j], ids(i, j)).Err?))
  {
  }

  /** Every property other than `site`, `theme` and `sections` is the
      document's own when it has one and the seed's otherwise. */
  lemma StateOverlay(raw: Value, seed: Value, ids: (nat, nat) -> string, key: string)
    requires NormalizeState(raw, seed, ids).Ok? && !Rebuilt(key)
    ensures NormalizeState(raw, seed, ids).value.Obj?
    ensures key in NormalizeState(raw, seed, ids).value.props <==> key in OwnProps(raw) || key in OwnProps(seed)
    ensures key in OwnProps(raw) ==> NormalizeState(raw, seed, ids).value.props[key] == OwnProps(raw)[key]
    ensures key !in OwnProps(raw) && key in OwnProps(seed) ==>
      NormalizeState(raw, seed, ids).value.props[key] == OwnProps(seed)[key]
  {
  }

  /** `site` and `theme` are objects holding the seed's settings overridden
      by the document's. */
  lemma StateSettings(raw: Value, seed: Value, ids: (nat, nat) -> string, key: string, name: string)
    requires NormalizeState(raw, seed, ids).Ok? && (key == "site" || key == "theme")
    ensures key in NormalizeState(raw, seed, ids).value.props
    ensures NormalizeState(raw, seed, ids).value.props[key].Obj?
    ensures name in NormalizeState(raw, seed, ids).value.props[key].props <==>
      name in OwnProps(Get(seed, key)) || name in OwnProps(Or(Get(raw, key), Obj(map[])))
    ensures name in OwnProps(Or(Get(raw, key), Obj(map[]))) ==>
      NormalizeState(raw, seed, ids).value.props[key].props[name] == OwnProps(Get(raw, key))[name]
    ensures name !in OwnProps(Or(Get(raw, key), Obj(map[]))) && name in OwnProps(Get(seed, key)) ==>
      NormalizeState(raw, seed, ids).value.props[key].props[name] == OwnProps(Get(seed, key))[name]
  {
  }

  /** A document without sections of its own gets the seed's. */
  lemma SeedSections(raw: Value, seed: Value, ids: (nat, nat) -> string)
    requires !Nullish(raw) && !HasSections(raw)
    ensures NormalizeState(raw, seed, ids).Ok?
    ensures "sections" in NormalizeState(raw, seed, ids).value.props
    ensures NormalizeState(raw, seed, ids).value.props["sections"] == Get(seed, "sections")
  {
  }

  /** A normalized section is `{ title, blocks }` with a truthy title, the
      section's own when it has one, and an array of tagged blocks, one per
      block it had. */
  lemma SectionShape(sec: Value, bs: Value, i: nat, ids: (nat, nat) -> string)
    requires forall j :: ids(i, j) != ""
    requires NormalizeSection(sec, bs, i, ids).Ok?
    ensures NormalizeSection(sec, bs, i, ids).value.Obj?
    ensures NormalizeSection(sec, bs, i, ids).value.props.Keys == {"title", "blocks"}
    ensures Truthy(NormalizeSection(sec, bs, i, ids).value.props["title"])
    ensures Truthy(Get(sec, "title")) ==> NormalizeSection(sec, bs, i, ids).value.props["title"] == Get(sec, "title")
    ensures NormalizeSection(sec, bs, i, ids).value.props["blocks"].Arr?
    ensures |NormalizeSection(sec, bs, i, ids).value.props["blocks"].elems| ==
      (if Get(sec, "blocks").Arr? then |Get(sec, "blocks").elems| else 0)
    ensures forall j :: 0 <= j < |NormalizeSection(sec, bs, i, ids).value.props["blocks"].elems| ==>
      Tagged(NormalizeSection(sec, bs, i, ids).value.props["blocks"].elems[j])
  {
    var bl := Get(sec, "blocks");
    if bl.Arr? {
      forall j | 0 <= j < |bl.elems|
        ensures Tagged(NormalizeBlock(bl.elems[j], ids(i, j)).value)
      {
        NormalizeBlockTagged(bl.elems[j], ids(i, j));
      }
    }
  }

  /** A document's own sections are all normalized, in order. */
  lemma StateSections(raw: Value, seed: Value, ids: (nat, nat) -> string)
    requires HasSections(raw) && NormalizeState(raw, seed, ids).Ok?
    ensures "sections" in NormalizeState(raw, seed, ids).value.props
    ensures NormalizeState(raw, seed, ids).value.props["sections"].Arr?
    ensures |NormalizeState(raw, seed, ids).value.props["sections"].elems| == |Get(raw, "sections").elems|
    ensures forall i :: 0 <= i < |Get(raw, "sections").elems| ==>
      Ok(NormalizeState(raw, seed, ids).value.props["sections"].elems[i]) ==
        NormalizeSection(Get(raw, "sections").elems[i], Get(seed, "sections"), i, ids)
  {
  }
}
