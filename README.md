# Micro-site editor core in Dafny

This project models the DOM-free core of the micro-site class editor in `app.js`. The editor is a single-page editor for a small course site: a title, sections, and a list of content blocks per section. There are nine block kinds: text, image, audio, YouTube video, PDF, quotation, callout, gallery and link list. The teacher edits them in place, and the page renders every block as a preview.

The model covers the following parts of the editor.

- **Html** (`escape.dfy`) is `escapeHtml`. It is five global replacements, ampersand first. The model proves that the result is free of markup, that every `&` in it starts an entity, and that unescaping gives the input back.
- **Inline** and **Markdown** (`inline.dfy`, `markdown.dfy`) are `formatInline` and `markdownToHtml`.
  - The line loop is an imperative method.
  - It is proved to write exactly a reference fold over the classified lines.
  - That fold is proved never to produce markup other than the renderer's own tags.
  - It is proved to fall back to `<p></p>` exactly when every line is blank.
- **Numbers**, **JsMath** and **Sanitize** (`numbers.dfy`, `jsmath.dfy`, `sanitize.dfy`) cover the rest of the style pipeline.
  - JavaScript's `Number(string)` and `String(number)` are modelled on exact decimals.
  - So are `clamp` and `toFixed(2)`.
  - `sanitizeNumber`, `sanitizeColor`, `sanitizeAlign`, `sanitizeFontChoice`, `fontChoiceToCss` and `hexToRgb` are modelled.
  - So is the theme-mode rotation.
- **Json** (`json.dfy`) holds the JavaScript values the document is made of. It models property reads, `||`, `Object.assign` and the JSON clone.
- **Codec** (`codec.dfy`) is the `src|alt|caption` and `label|url` text format of the gallery and link editors, that is, `parseGallery`, `serializeGallery`, `parseLinks` and `serializeLinks`.
- **Blocks** and **Document** (`blocks.dfy`, `document.dfy`) model the following:
  - `createId`;
  - `newBlock`;
  - `normalizeBlock`, with the places where it throws;
  - `normalizeState` over a seed document.
- **Store** (`store.dfy`) is the editor state as a class. Its `blocks` field holds the blocks of the first section, and its `theme` field holds the theme settings. Its methods are the operations that change it in place: `addBlock`, `duplicateBlock`, `removeBlock`, the drag-and-drop move, `updateBlock`, `handleBlockInput` and the theme button.
- **Editing** (`editing.dfy`) is the toolbar: `applyTextFormat` and `applyListFormat` on a text value and a selection.
- **Views** (`views.dfy`) is the `renderBlockView` family of builders and `extractYouTubeId`.

Several contracts say that markup *carries* a text. This means two things: the markup decodes back to exactly that text, and it holds no `<`, `>`, `"` or `'`, so it can neither open a tag nor end an attribute. A value is *printable* when it is falsy or a string. These are the values `escapeHtml(v || fallback)` accepts without throwing.

JavaScript values are modelled as a datatype: `undefined`, `null`, booleans, numbers, strings, arrays and objects. A property read on `null` or `undefined` throws in JavaScript, and so does calling a string method on a non-string. Every function that can throw returns a `Result`. For each block builder, field normalizer and document normalizer, a lemma states exactly when it fails (the `*Fails` lemmas). `Views.RenderBlockView` returns what the builder it picks returns, and its own contract states the failure only for a nullish block.

## Model

| member | source | states |
|---|---|---|
| Html.EscapeHtmlSafe | app.js:1474-1481 | The escaped text contains no `<`, `>`, `"` or `'`. Every `&` in it begins one of the five entities. It is no shorter than the input, and it is empty exactly when the input is. |
| Html.UnescapeEscape | app.js:1474-1481 | Unescaping the escaped text gives the input back. |
| Html.EscapeInjective | app.js:1474-1481 | Different strings escape to different strings. |
| Html.EscapeHtmlAppend | app.js:1474-1481 | Escaping distributes over concatenation. |
| Html.EscapeHtmlIsEscapeEach | app.js:1474-1481 | The five chained replacements equal the character-by-character escape. |
| Html.EscapeHtmlChar | app.js:1474-1481 | A single character escapes to its entity, or to itself when it is not special. |
| Html.AmpersandFirstMatters | app.js:1475-1476 | An example, not a property: replacing `&` after `<` would give `&amp;lt;` for `<`, while the source's order gives `&lt;`. |
| Html.EscapeEachSafe | app.js:1474-1481 | The character-by-character escape is well formed, no shorter than its input, and empty exactly when the input is. |
| Html.UnescapeEscapeEach | app.js:1474-1481 | The character-by-character escape is undone by unescaping. |
| Html.EscapeEachPlain | app.js:1474-1481 | Text without special characters is unchanged. |
| Strings.TrimShape | app.js:1436 | `trim()` returns a slice of the input with only white space removed on each side. |
| Strings.TrimIdentity | app.js:1436 | A string is its own trim exactly when it is empty or neither end is white space. |
| Strings.TrimIdempotent | app.js:1436 | Trimming twice equals trimming once. |
| Strings.TrimEmpty | app.js:1364 | The trim is empty exactly when the line holds only white space. This is `!line.trim()`. |
| Strings.SplitOn | app.js:1516 | `split('\|')` gives at least one piece, and no piece contains the separator. |
| Strings.JoinSplit | app.js:1516 | Joining the pieces with the separator gives the string back. |
| Strings.SplitJoin | app.js:1521-1523 | Splitting the join of separator-free pieces gives the pieces back. |
| Strings.SplitLines | app.js:1360 | `split(/\r?\n/)` gives at least one line, and no line contains a line feed. |
| Strings.SplitLinesJoin | app.js:1360 | Lines without breaks or a trailing carriage return, joined by `\n`, split back into themselves. |
| Strings.NatToString | app.js:166 | The decimal form of a counter is a non-empty string of digits. |
| Strings.NatToStringValue | app.js:166 | Reading the decimal form back gives the number. |
| Strings.NatToStringInjective | app.js:166 | Different counters print differently. |
| Numbers.NumberRoundTrip | app.js:1427-1430 | `Number(String(x))` is `x` in canonical form, for every finite decimal `x`. |
| Numbers.DecimalRead | app.js:1427 | `Number(s)` of a trimmed decimal literal reads the literal. |
| Numbers.ZeroRead | app.js:1427 | An example, not a property: `Number("0")` is zero. |
| Numbers.PositiveRead | app.js:1430 | The printed form of a positive canonical decimal reads back as that decimal. |
| Numbers.NegativeRead | app.js:1430 | The printed form of a negative canonical decimal reads back as that decimal. |
| Numbers.Strip | app.js:1430 | The canonical form is canonical, and a canonical decimal is its own canonical form. |
| Numbers.LayoutRead | app.js:1430 | Each of the four layouts `String(number)` uses reads back as digits times a power of ten: integer, point, leading-zero fraction and exponent. |
| JsMath.Clamp | app.js:1601-1603 | `Math.min(Math.max(v, lo), hi)` is one of `v`, `lo` and `hi`. It is at most `hi`, at least `lo` when `lo <= hi`, and equal to `v` when `v` is in range. |
| JsMath.Max | app.js:1602 | `Math.max` returns one of its arguments and is at least both. |
| JsMath.Min | app.js:1602 | `Math.min` returns one of its arguments and is at most both. |
| JsMath.Fixed2InRange | app.js:1430 | Rounding to two decimals keeps a value within bounds that have at most two decimals. |
| JsMath.Fixed2Shape | app.js:1430 | The rounded value is canonical, and when rounding changes it, it has at most two decimals. |
| JsMath.Round2OfHundredths | app.js:1430 | A value with at most two decimals is not changed by `toFixed(2)`. |
| JsMath.Round2Lower | app.js:1430 | Rounding never goes below a two-decimal lower bound. |
| JsMath.Round2Upper | app.js:1430 | Rounding never goes above a two-decimal upper bound. |
| Json.Or | app.js:176-177 | `a \|\| b` is one of the two operands, and it is truthy exactly when either operand is. |
| Json.OrIdempotent | app.js:181 | A one-step fact rather than a property of a function: applying the same default twice equals applying it once. |
| Json.Get | app.js:176 | A property read on an object is the own property, or `undefined` when the property is missing. On a boolean or a number it is `undefined`. The callers check for `null` and `undefined` first, because the source throws there. |
| Json.Assign | app.js:161-163 | `Object.assign({}, a, b)` has the keys of both. Each key takes the value from `b` when `b` has it and from `a` otherwise. |
| Json.SetProp | app.js:1160 | Setting a property of an object changes that key only, and setting one on a primitive changes nothing. |
| Json.OwnProps | app.js:175 | The own enumerable properties of an object are its map, and a primitive other than a string has none. |
| Json.IndexProps | app.js:175 | An array's own properties are its indices written in decimal. |
| Json.JsonCloneIsPlain | app.js:1159 | `JSON.parse(JSON.stringify(v))` never contains `undefined`. |
| Json.JsonClonePlain | app.js:1159 | A value that JSON represents exactly clones to itself. |
| Json.JsonCloneIdempotent | app.js:1159 | Cloning a clone changes nothing. |
| Json.ToNumberOfString | app.js:183 | `Number(String(n))` is `n` in canonical form. |
| Sanitize.SanitizeNumberEmpty | app.js:1425-1428 | `sanitizeNumber` gives `''` exactly when the input is `null`, `undefined` or `''`, or when it is not a finite number. |
| Sanitize.SanitizeNumberInRange | app.js:1425-1431 | A non-empty result reads back as a finite number between `min` and `max`. |
| Sanitize.SanitizeNumberIdempotent | app.js:1425-1431 | Sanitizing the sanitized text gives it back. |
| Sanitize.SanitizeNumberKeeps | app.js:1425-1431 | A canonical number with two decimals that is in range is printed unchanged. |
| Sanitize.SanitizedInRange | app.js:1429-1430 | Clamping and then rounding to two decimals gives a canonical value within `[min, max]`. |
| Sanitize.SanitizedIdempotent | app.js:1429-1430 | Clamping and rounding a second time changes nothing. |
| Sanitize.ReprintSanitized | app.js:1430 | The printed sanitized value sanitizes to itself. |
| Sanitize.StyleBounds | app.js:817-846 | The font-size, line-height and width bounds are ordered and have at most two decimals. |
| Sanitize.SanitizeColor | app.js:1433-1438 | The result is `''` or a three- or six-digit hex colour. A string that trims to such a colour comes back trimmed, and any non-empty result is the trimmed input. |
| Sanitize.SanitizeColorIdempotent | app.js:1433-1438 | Sanitizing a sanitized colour gives it back. |
| Sanitize.SanitizeColorParses | app.js:1433-1438 | A colour survives `sanitizeColor` exactly when `hexToRgb` accepts it. |
| Sanitize.HexToRgb | app.js:1491-1503 | Every channel of a parsed colour is below 256. |
| Sanitize.Expand | app.js:1495 | Expanding the shorthand gives a six-digit colour. |
| Sanitize.Channel | app.js:1500 | Two hex digits form a channel below 256. |
| Sanitize.ChannelIsRadix | app.js:1499-1501 | A channel is `parseInt` of its two digits in base 16. |
| Sanitize.ShorthandChannels | app.js:1494-1495 | `#abc` has the same channels as `#aabbcc`. |
| Sanitize.SanitizeAlign | app.js:1440-1443 | The result is one of the four alignments or `''`, and is non-empty exactly when the input is an allowed alignment. |
| Sanitize.SanitizeAlignIdempotent | app.js:1440-1443 | Sanitizing twice equals sanitizing once. |
| Sanitize.FindFrom | app.js:1446 | `find` returns a choice whose value is the input, or no choice when none matches. |
| Sanitize.SanitizeFontChoice | app.js:1445-1448 | The result is always a known font key. A known key is returned as given, and anything else becomes `inherit`. |
| Sanitize.SanitizeFontChoiceIdempotent | app.js:1445-1448 | Sanitizing twice equals sanitizing once. |
| Sanitize.FontChoiceToCss | app.js:1450-1455 | The result is present exactly for a known key other than `inherit`, and it is that choice's CSS. |
| Sanitize.FontCssAfterSanitize | app.js:918 | Looking up the CSS after sanitizing gives the same result as looking it up directly. |
| Sanitize.SansFallBack | app.js:4-10 | The sans-serif choices end with the shared fallback stack. |
| Sanitize.ModeIndex | app.js:276 | `indexOf` gives the position of the mode, or -1 when the mode is not `auto`, `light` or `dark`. |
| Sanitize.NextMode | app.js:275-277 | The next mode is always one of the three modes. |
| Sanitize.NextModeCycles | app.js:275-277 | Three presses of the theme button return to the starting mode. |
| Sanitize.NextModeSteps | app.js:275-277 | `auto` goes to `light`, `light` to `dark` and `dark` to `auto`. An unset mode goes to `light`, and an unknown mode goes to `auto`. |
| Codec.GalleryRoundTrip | app.js:1514-1523 | Parsing the serialization of gallery items gives the items back, when no field contains `\|`, a line break or edge white space. |
| Codec.LinksRoundTrip | app.js:1525-1534 | The same round trip holds for link items. |
| Codec.GalleryStable | app.js:1514-1523 | Parsing, serializing and parsing again gives the first parse. The text area is stable after one pass. |
| Codec.LinksStable | app.js:1525-1534 | The same stability holds for links. |
| Codec.PieceClean | app.js:1516 | Every piece the parser returns is trimmed and holds neither a separator nor a break. |
| Codec.NonBlank | app.js:1515 | `filter(Boolean)` keeps only non-empty lines, each taken from the input. |
| Codec.GalleryValue | app.js:801 | The parsed items are stored as an array with one object per item. |
| Codec.LinksValue | app.js:805 | The same holds for link items. |
| Blocks.KindOf | app.js:178-246 | The `switch` finds the kind whose tag strictly equals the type, and otherwise no kind matches. |
| Blocks.KindOfTag | app.js:35-45 | Every kind is on the palette and is found by its own tag. |
| Blocks.CreateId | app.js:1597-1599 | An id starts with `b-`. |
| Blocks.NewBlockShape | app.js:1131-1153 | A new block is an object with the given id. Its type is the requested one when that is a known kind, and `text` otherwise. |
| Blocks.NewBlockAgrees | app.js:1131-1153 | Every field a new block holds that normalization writes for its kind already has the value normalization writes. |
| Blocks.NewBlockMissing | app.js:1131-1153 | The fields of its kind a new block lacks are exactly these. Image, audio and pdf blocks lack `sourceMode`, `sourceName` and `repoPath`. Text blocks lack the five style fields. The other kinds lack none. |
| Blocks.NewBlockNormalizes | app.js:174-249 | Normalizing a new block succeeds and keeps every field of the new block. |
| Blocks.NormalizeBlockFails | app.js:174-249 | `normalizeBlock` throws exactly when the block is an object of a known kind whose fields throw. |
| Blocks.MediaFieldsFail | app.js:195-216 | The media fields throw exactly when `sourceMode` is falsy and `src` is truthy but not a string. This is `startsWith` on a non-string. |
| Blocks.ListFieldsFail | app.js:226-240 | The item lists throw exactly when `items` is an array holding `null` or `undefined`. |
| Blocks.NonObjectBlock | app.js:175-176 | A falsy or non-object block becomes `{id, type: 'text', markdown: ''}`. A second pass adds the text style fields. |
| Blocks.NormalizeOfKind | app.js:177-246 | A known kind gets the copied block, its id and type settled, and then its kind's fields. |
| Blocks.NormalizeIdentityKnown | app.js:178-179 | A known kind's result keeps a truthy id, defaults it to the fresh id otherwise, and carries the kind's tag. |
| Blocks.NormalizeIdentityUnknown | app.js:244-246 | An unknown type becomes a text block with a truthy id. |
| Blocks.NormalizeBlockTagged | app.js:174-249 | Every normalized block has a truthy id and a type. |
| Blocks.NormalizeHasFields | app.js:181-243 | The result holds every field its kind writes. |
| Blocks.KindFieldsKeys | app.js:181-243 | Each kind writes exactly its own field names. |
| Blocks.MediaFieldsKeys | app.js:202-208 | The media kinds write `src`, `caption`, `sourceMode`, `sourceName` and `repoPath`. |
| Blocks.KindFields | app.js:181-243 | The fields a kind writes never include `id` or `type`. |
| Blocks.NormalizeKeepsOthers | app.js:177 | Properties that normalization does not write are copied unchanged. |
| Blocks.SourceModeInferred | app.js:195-197 | With no source mode, a `data:` source is `local` and any other source is `repo`. A repo source with no path takes the source as its path. |
| Blocks.ImageWidthInRange | app.js:200 | A non-empty image width reads as a number in `[10, 100]`. |
| Blocks.NormalizeBlockIdempotent | app.js:174-249 | Normalizing an already normalized object block of a known kind changes nothing. |
| Blocks.NormalizePropsIdempotent | app.js:177-246 | The same idempotence holds at the level of the property map. |
| Blocks.NormalizeKeepsAgreeing | app.js:174-249 | A block whose fields already agree with its kind keeps every property unchanged. |
| Blocks.UnknownTypeNotIdempotent | app.js:244-246 | An unknown type is rewritten to text, and a second pass then adds the text style fields. So normalization is not idempotent there. |
| Blocks.KindFieldsFixed | app.js:181-243 | Writing a kind's fields over their own output changes nothing. |
| Blocks.TextFixed | app.js:181-192 | The text fields are a fixed point. |
| Blocks.ImageFixed | app.js:193-201 | The image fields are a fixed point. |
| Blocks.ListFixed | app.js:227-243 | The gallery and link fields are a fixed point. |
| Blocks.WidthFixed | app.js:200 | Sanitizing the width a second time gives it back. |
| Blocks.StyleText | app.js:184-189 | `fontSize` and `lineHeight` become strings. |
| Document.NormalizeStateFails | app.js:160-172 | `normalizeState` throws exactly when the document is `null` or `undefined`, or when one of its sections throws. |
| Document.NormalizeSectionFails | app.js:166-167 | A section throws exactly in three cases. It is nullish itself. It has no title and the seed's `sections` is `null` or `undefined`. One of its blocks throws. |
| Document.StateOverlay | app.js:161 | Every top-level key other than `site`, `theme` and `sections` is taken from the document when present there, and from the seed otherwise. |
| Document.StateSettings | app.js:162-163 | `site` and `theme` are the seed's settings overlaid by the document's. |
| Document.SeedSections | app.js:164-169 | A document without sections takes the seed's sections. |
| Document.SectionShape | app.js:165-168 | A section becomes `{title, blocks}`. Its title is truthy, and its own title is kept when truthy. Each block is normalized, and the count of blocks is preserved. |
| Document.StateSections | app.js:164-168 | Section `i` of the result is the normalization of section `i` of the document. |
| Store.SpliceStart | app.js:1081-1082 | `splice`'s start is clamped into the array, and an in-range start is kept. |
| Store.SpliceCount | app.js:1171 | The delete count never runs past the end. |
| Store.SpliceInsert | app.js:1082 | Inserting one value at `p` removes nothing. The array grows by one, the value lands at `p` clamped, and the other elements shift by one. |
| Store.SpliceRemove | app.js:1171 | Removing at `i` returns the removed element and shifts the elements after it down by one. |
| Store.Without | app.js:1171 | Removing one element shortens the array by one. |
| Store.InsertAt | app.js:1062-1063 | Inserting and then removing at the same place gives the array back, and the multiset gains the inserted value. |
| Store.WithoutMultiset | app.js:1062 | Removal takes exactly one copy of the element out of the multiset. |
| Store.MovedShape | app.js:1062-1063 | The move is "remove at `oldIndex`, insert at `newIndex`". |
| Store.MovePermutes | app.js:1062-1063 | A move is a permutation. The moved block lands at `newIndex`, and the other blocks keep their order. |
| Store.MoveInPlace | app.js:1060 | Moving a block onto its own place changes nothing. |
| Store.DuplicateOfPlain | app.js:1159-1160 | The copy of a JSON-plain block is that block with the new id, and it differs from the original exactly when the id changes. |
| Store.Merged | app.js:68 | `Object.assign(block, changes)` takes every changed key from `changes` and leaves the other keys alone. |
| Store.StyleValueSanitized | app.js:810-831 | A text style input is stored sanitized: a font key, `''` or a hex colour, `''` or an alignment, or a number in its range. |
| Store.InputWritesField | app.js:836-854 | The input always writes its field. A media `src` also resets `repoPath`, `sourceMode` and `sourceName`, and every other input writes its field alone. |
| Store.InputTextStyle | app.js:808-831 | A text block's style input writes the sanitized value only. |
| Store.InputImageWidth | app.js:845-847 | An image width input stores `''` or a number in `[10, 100]`. |
| Store.InputItems | app.js:800-806 | A gallery or link list stores its parsed items, and the parse is stable under re-serialization. |
| Store.InputPlain | app.js:854 | Any other field stores the raw value. |
| Store.State.constructor | app.js:46-47 | The state starts with the given blocks and theme. |
| Store.State.AddBlock | app.js:1077-1089 | The new block is spliced in at the index when that is a non-negative number, and appended otherwise. The theme is unchanged. |
| Store.State.DuplicateBlock | app.js:1155-1164 | A copy with a new id is inserted after a present block. A missing index changes nothing. |
| Store.State.RemoveBlock | app.js:1166-1174 | A present, confirmed block is removed, and anything else changes nothing. |
| Store.State.MoveBlock | app.js:1058-1066 | The drag-and-drop move. Equal indices change nothing, and otherwise the list becomes the moved list. |
| Store.State.UpdateBlock | app.js:65-71 | A present block gets the changes merged in, and the other blocks are unchanged. |
| Store.State.HandleBlockInput | app.js:796-855 | Only the edited block changes. It gets the changes its type and field call for, and the list length is unchanged. |
| Store.State.ToggleTheme | app.js:274-277 | `theme.mode` becomes the next mode and the blocks are unchanged. |
| Editing.ApplyTextFormat | app.js:73-105 | `ul` and `ol` go to the list format as the code writes it, and every other format wraps the selection. |
| Editing.WrapSelects | app.js:82-101 | Bold and italic wrap the selection, or the placeholder when nothing is selected, in their marks. The new selection is exactly the wrapped content. |
| Editing.WrapOther | app.js:85-87 | Any other format leaves the text and the selection as they were. |
| Editing.ContentIsSelection | app.js:90 | The content is the selection, or `texto` when nothing is selected. |
| Editing.Content | app.js:90 | The wrapped content is never empty. |
| Editing.ApplyListFormat | app.js:107-128 | The loop rewrites the covered lines into list items, with the line start computed as at app.js:111. The result is the whole text with those lines replaced by the items, with the items selected. |
| Editing.ListFormatAsWritten | app.js:107-128 | The list format as written covers the same lines as the corrected range except when the cursor is at 0 and the text starts with a line break. |
| Editing.LineBounds | app.js:111-113 | With the corrected line start, the edited range starts at a line start and ends at a line end. It covers the selection without crossing other breaks. |
| Editing.ListEditFrames | app.js:124-126 | The text before and after the covered lines is kept, and the selection spans exactly the formatted items. |
| Editing.FormattedLines | app.js:117-123 | There is one item per line. |
| Editing.FormattedLinesStep | app.js:117-122 | Item `i` is formatted with counter `i + 1`. |
| Editing.FormattedItems | app.js:118-120 | Item `k` is the marker of `k + 1` followed by a non-empty content. |
| Editing.FormattedLineCount | app.js:115-123 | Formatting keeps the number of lines. |
| Editing.FormattedSplit | app.js:123 | The joined items split back into the items. |
| Editing.ItemTextShape | app.js:118-119 | An item's content is non-empty, trimmed and single-line. |
| Editing.ItemLineAgain | app.js:118-120 | Formatting an item again, in either list style, equals formatting the original line in that style. |
| Editing.SingleItem | app.js:114-123 | A single bare line becomes `- line`. |
| Editing.DefaultList | app.js:114 | An empty range becomes one item with the default text. |
| Editing.LastAt | app.js:111 | The search finds the last `\n` at or before an index, or reports that there is none. |
| Editing.NextAt | app.js:112 | The search finds the first `\n` at or after an index, or reports that there is none. |
| Editing.LastIndexOf | app.js:111 | `lastIndexOf` returns -1 or an index into the string. |
| Editing.IndexOf | app.js:112 | `indexOf` returns -1 or an index into the string. |
| Editing.Slice | app.js:114 | `slice` of an in-range span is the substring. |
| Editing.Clip | app.js:114 | A slice index is clipped to the length. |
| Editing.Covered | app.js:114 | The covered text is never empty. |
| Editing.MarkerEnd | app.js:118 | The stripped marker ends within the line. |
| Editing.MarkerEndOfItem | app.js:118 | Stripping finds exactly the marker of an item this format wrote. |
| Editing.LineStartAsWrittenSkips | app.js:111 | The line start as written passes the cursor exactly when the cursor is at 0 and the text starts with a line feed. Everywhere else it equals the corrected start. |
| Editing.ListFormatDuplicatesBreak | app.js:111-126 | As written, a list format at the very start of a text that begins with a line feed inserts an item and repeats the break. |
| Editing.ListFormatAtBreak | app.js:111-126 | The corrected format inserts the item before the break, and the text is otherwise kept. |
| Editing.ListFormatExample | app.js:111-126 | On `"\nabc"` with cursor 0 the written code produces `"\n- Elemento de la lista\nabc"`. |
| Inline.FormatInlineSafe | app.js:1418-1423 | The inline pass over escaped text produces only its own `<strong>`, `<em>` and `<a>` tags, around escaped text. |
| Inline.FormatInlinePlain | app.js:1418-1423 | Text without `*` or `[` is unchanged. |
| Inline.PlainUnchanged | app.js:1419-1422 | Each replacement leaves text without its opening character unchanged. |
| Inline.BoldAtSpec | app.js:1420 | A bold match at `i` is `**`, a non-empty single-line content and `**`, with the closer the first one possible. |
| Inline.ItalicAtSpec | app.js:1421 | An italic match is `*`, a non-empty single-line content and `*`, with the closer the first one possible. |
| Inline.LinkAtSpec | app.js:1422 | A link match is `[label](url)`, with the label and url non-empty and single-line and the closers the first ones possible. |
| Inline.UrlAtSpec | app.js:1422 | The url part ends at the first `)` on the line. |
| Inline.LabelFromSpec | app.js:1422 | The label ends at the first `](` followed by a url. |
| Inline.FindCloseSpec | app.js:1420-1422 | The lazy `.+?` stops at the first closer on the line. |
| Inline.BoldSome | app.js:1420 | A bold match becomes `<strong>` around the content, and the scan continues after it. |
| Inline.ItalicSome | app.js:1421 | An italic match becomes `<em>` around the content. |
| Inline.LinksSome | app.js:1422 | A link becomes an anchor with `target="_blank" rel="noopener"`. |
| Inline.BoldNone | app.js:1420 | Where no match starts, the character is kept and the scan moves on. |
| Inline.ItalicNone | app.js:1421 | Where no match starts, the character is kept and the scan moves on. |
| Inline.LinksNone | app.js:1422 | Where no match starts, the character is kept and the scan moves on. |
| Inline.BoldSafe | app.js:1420 | Bold replacement keeps text safe. |
| Inline.ItalicSafe | app.js:1421 | Italic replacement keeps text safe. |
| Inline.LinksSafe | app.js:1422 | Link replacement keeps text safe. |
| Markdown.MarkdownToHtml | app.js:1358-1416 | The loop writes exactly the rendering of the classified lines, and the result is never empty. |
| Markdown.RenderLines | app.js:1363-1414 | The per-line loop writes the rendering of the token fold. |
| Markdown.RenderClassified | app.js:1364-1410 | One line appends its tokens and sets the new list type. |
| Markdown.CloseListIfOpen | app.js:1365-1368 | An open list is closed with its own tag. |
| Markdown.AppendHeading | app.js:1373-1379 | A heading closes any open list and appends `<hN>`. |
| Markdown.AppendItem | app.js:1384-1403 | An item opens its list when another kind or no list is open, and appends `<li>`. |
| Markdown.AppendParagraph | app.js:1406-1410 | A paragraph closes any open list and appends `<p>`. |
| Markdown.MarkdownSafe | app.js:1358-1416 | The Markdown output contains only the renderer's own tags around escaped text. |
| Markdown.FallbackExactlyWhenBlank | app.js:1415 | The `<p></p>` fallback is used exactly when every line is blank. |
| Markdown.TokensNest | app.js:1362-1414 | Lists are opened and closed in pairs, and no list is left open at the end. |
| Markdown.TokensContent | app.js:1363-1411 | The text of the output is the text of the non-blank lines, in order. |
| Markdown.ClassifyBlank | app.js:1364 | A line is blank exactly when it holds only white space. |
| Markdown.ClassifyShapes | app.js:1371-1410 | Heading levels are 1 to 3, and a paragraph is the whole line. |
| Markdown.ClassifyText | app.js:1371-1410 | The text of a non-blank line is a suffix of the line. |
| Markdown.FourHashesNoHeading | app.js:1371 | Four or more `#` never match the heading pattern. |
| Markdown.FourHashesParagraph | app.js:1371-1410 | So such a line is a paragraph. |
| Markdown.HeadingAtSpec | app.js:1371 | A heading is one to three `#`, white space and the rest of the line. |
| Markdown.OrderedAtSpec | app.js:1382 | An ordered item is digits, `.`, white space and the rest of the line. |
| Markdown.UnorderedAtSpec | app.js:1394 | An unordered item is `-` or `*`, white space and the rest of the line. |
| Markdown.SpacedRestSpec | app.js:1371-1394 | The `\s+(.*)` tail is a non-empty run of white space followed by the rest. |
| Markdown.EscapedLinesPlain | app.js:1359-1360 | Every line of the escaped text is free of markup characters. |
| Views.EscapeOr | app.js:893-895 | `escapeHtml(x \|\| fallback)` succeeds exactly when the shown value is printable. The result carries that value and is empty exactly when it is. |
| Views.MarkdownOf | app.js:912 | `markdownToHtml(x \|\| '')` is the Markdown rendering, which is safe and non-empty. |
| Views.ImageFails | app.js:892-905 | `mediaImage` throws exactly when the block is nullish or one of `alt`, `caption` and `src` is not printable. |
| Views.ImageFallback | app.js:896 | The placeholder is shown exactly when there is no source. |
| Views.ImageParts | app.js:892-905 | A figure is built from the escaped source, alt text and caption, with a width that is `''` or within `[10, 100]`. |
| Views.StyleSanitary | app.js:916-939 | Every declaration in the text style carries a sanitized value. |
| Views.DeclsAscending | app.js:916-939 | The declarations come in the source's order. |
| Views.DeclsPresent | app.js:919-936 | Each declaration is present exactly when its sanitized value is. |
| Views.FamilyPresent | app.js:918-921 | `font-family` is present exactly when the sanitized choice is not `inherit`. |
| Views.StyleUnset | app.js:916-939 | A block with no style fields has no style. |
| Views.JoinDeclsEmpty | app.js:938 | The joined style is empty exactly when there are no declarations. |
| Views.StyleAttr | app.js:911 | The attribute is empty exactly when the style is. Otherwise it is ` style="…"` around the escaped style. |
| Views.TextFails | app.js:907-914 | `textBlockHtml` throws exactly when the block is nullish or its Markdown is truthy but not a string. |
| Views.TextParts | app.js:907-914 | The text view is the rich-text div, with the style attribute, around the Markdown rendering. |
| Views.TextBlank | app.js:907-914 | An empty, unstyled text block renders as the div around `<p></p>`. |
| Views.AudioFails | app.js:941-949 | `mediaAudio` throws exactly when the block is nullish or `src` or `caption` is not printable. |
| Views.AudioParts | app.js:941-949 | The placeholder is shown exactly when there is no source, and otherwise the player is built from the escaped source and caption. |
| Views.PdfFails | app.js:961-970 | `pdfViewer` throws exactly when the block is nullish or `src` or `caption` is not printable. |
| Views.PdfParts | app.js:961-970 | The placeholder is shown exactly when there is no source, and otherwise the object and download link are built. |
| Views.QuoteFails | app.js:972-976 | `quoteBlock` throws exactly when the block is nullish or `text` or `cite` is not printable. |
| Views.QuoteParts | app.js:972-976 | A blockquote holds the rendered text, and a `<cite>` exactly when `cite` is truthy. |
| Views.QuoteBlank | app.js:972-976 | An empty quote renders `<p></p>` and no cite. |
| Views.CalloutParts | app.js:978-981 | `calloutBlock` throws exactly when the block is nullish or its text is not printable, and otherwise wraps the rendered text. |
| Views.CalloutBlank | app.js:978-981 | An empty callout wraps `<p></p>`. |
| Views.MapJoin | app.js:987-992 | `map(...).join('')` succeeds exactly when every item does, and starts with the first item's view. |
| Views.ItemListPlaceholder | app.js:983-999 | The placeholder is shown exactly when `items?.length` is falsy: no `items`, an empty array or string, or a value without a truthy `length`. |
| Views.ItemListFails | app.js:983-1006 | The list throws exactly when it has items and they are not an array, or one item's builder throws. |
| Views.ItemListStarts | app.js:993-1005 | A list starts with its opening tag and the first item's view. |
| Views.HasItemsArray | app.js:984 | `items?.length` is truthy for an array exactly when the array is non-empty. |
| Views.GalleryFigureFails | app.js:988-991 | A gallery card throws exactly for a nullish item or a truthy non-string source, alt text or caption. |
| Views.GalleryFigureParts | app.js:988-991 | A gallery card holds the escaped fields, with the image placeholder exactly when there is no source. |
| Views.LinkEntryFails | app.js:1000-1003 | A link entry throws exactly for a nullish item or a truthy non-string url or label. This holds as written and corrected. |
| Views.LinkEntryParts | app.js:1000-1003 | The corrected link entry escapes the url, and shows the label when there is one and the raw url otherwise. |
| Views.LinkEntryAsWrittenShows | app.js:1000-1003 | As written, a labelled link agrees with the corrected entry. An unlabelled one shows the twice-escaped url. |
| Views.LinkLabelDoubleEscaped | app.js:1001-1002 | For a url with `&` and no label, the written label unescapes to the escaped url rather than to the url. The corrected label unescapes to the url. |
| Views.EscapeGrows | app.js:1002 | Escaping a text with `&` makes it longer, so the second escape is visible. |
| Views.LinksBlock | app.js:996-1006 | The corrected link list is never empty. |
| Views.LinksBlockAsWritten | app.js:996-1006 | The written link list is never empty. |
| Views.GalleryBlock | app.js:983-994 | The gallery view is never empty. |
| Views.MatchAt | app.js:1507-1509 | A match is one of the four URL prefixes followed by eleven id characters. |
| Views.MatchFrom | app.js:1508 | The search returns the leftmost match. |
| Views.ExtractYouTubeIdFails | app.js:1505-1512 | The id lookup throws exactly for a truthy url that is not a string. |
| Views.ExtractYouTubeId | app.js:1505-1512 | When the pattern matches, the id is eleven id characters. |
| Views.IdNeedsNoEscape | app.js:958 | A pattern-matched id is unchanged by escaping. |
| Views.ShortUrlNoMatch | app.js:1507-1510 | A url shorter than 20 characters never matches the pattern, so it goes to the query-string fallback. |
| Views.YouTubeEmbedFails | app.js:951-959 | The video view throws exactly for a nullish block or a truthy non-string url. Once an id is found, it also throws for a truthy non-string caption. This holds as written and corrected. |
| Views.YouTubeParts | app.js:951-959 | The corrected embed shows the placeholder exactly when there is no id, and otherwise the iframe with the escaped id and an optional caption. |
| Views.YouTubeEmbedAgrees | app.js:951-959 | When the pattern matches, the written and corrected embeds agree. |
| Views.YouTubeQueryRaw | app.js:1510-1511 | When the id comes from the query string, the written embed inserts it raw and the corrected one escapes it. |
| Views.YouTubeEmbed | app.js:951-959 | The corrected video view is never empty. |
| Views.YouTubeEmbedAsWritten | app.js:951-959 | The written video view is never empty. |
| Views.ViewOf | app.js:868-886 | The view the code picks for a known kind is never empty. The video and link-list views are the builders as written. |
| Views.RenderBlockView | app.js:867-890 | A nullish block throws. Every preview is non-empty, including the video and link-list previews as written. |
| Views.NewImagePreview | app.js:1134-1135 | A new image block previews as the image placeholder. |
| Views.NewAudioPreview | app.js:1136-1137 | A new audio block previews as the audio placeholder. |
| Views.NewVideoPreview | app.js:1138-1139 | A new video block previews as the video placeholder in both the written and the corrected builder. |
| Views.NewPdfPreview | app.js:1140-1141 | A new PDF block previews as the PDF placeholder. |
| Views.NewGalleryPreview | app.js:1146-1149 | New gallery and link blocks preview as their empty placeholders. The link list does so in both the written and the corrected builder. |

## Left out

- Binary floating point is not modelled. `Number()`, `String()` and `toFixed(2)` work on exact decimals, and `toFixed` rounds the exact value half up. `NonFinite` stands for `NaN` and the infinities. So the model does not capture results such as `1.005` rounding down. Overflow is not modelled either: a literal beyond about 1.8e308, such as `"1e400"`, stays finite here. JavaScript reads it as `Infinity`, so `sanitizeNumber` would return `''` (app.js:1427-1428), where the model clamps it to the maximum.
- String lengths count Dafny characters, not UTF-16 code units. A surrogate pair counts as one character here, and `setSelectionRange` offsets are the model's.
- White space follows ECMAScript's `WhiteSpace` and `LineTerminator` sets for `trim()` and `\s`. `\w` is the ASCII word class.
- The DOM, event wiring, rendering into the page, focus handling, `localStorage`, `fetch`, import and export are left out. These include `render`, `renderBlocks`, `updateBlockPreview`, `bindMediaFallbacks`, `saveLocal`, the editors' controls and `showToast`.
  - The call to `handleBlockInput` at the end of `applyTextFormat` and `applyListFormat` is left out. The edit result is what that call would store.
  - The `!textarea` guard is left out.
- `ensureFontChoiceLoaded`, `softColor` and `applyTheme` are left out. They only touch the document head and CSS variables.
- `createId`'s random suffix is a parameter (`Blocks.CreateId(suffix)`). `normalizeState` takes the ids of fresh blocks as a function of section and block index.
- The `confirm()` answer in `removeBlock` is a `confirmed` parameter.
- Sortable's drag handling is left out. Only the index move of `onUpdate` is modelled.
- The `URLSearchParams` lookup of `v` in `extractYouTubeId` is the `query` parameter.
- The width input sync in `handleBlockInput` (app.js:846-849) is left out because it only writes a DOM field.
- The `Store.State` class holds only the blocks of the first section and the theme. `state.sections[0]` is taken to exist. A document without sections makes these handlers throw before they change anything.
- `serializeGallery` and `serializeLinks` are modelled on items whose fields are already strings, which is what `parseGallery` and `parseLinks` produce. The `\|\| ''` on a missing field is not modelled.
- Arrays with extra named properties, sparse arrays and non-integer index keys are not modelled in `Json.Value`.
- The placeholder functions `bindActionsOnce`, `bindBlockEventsOnce` and `bindBlockEvents` (app.js:1281-1291) have no effect and are left out.
- Views.RenderBlockView: its own contract states only the failure on nullish input and that every preview is non-empty. The exact output of each kind is stated in the `*Parts` lemmas and `Views.ViewOf`.
- Views.ExtractYouTubeId: its own contract states only the pattern-match case. The query-string case is the `query` parameter and is stated in `Views.YouTubeQueryRaw`.
- Blocks.NormalizeBlockIdempotent: it requires an object of a known kind, because unknown types and non-objects are not idempotent in the source (`Blocks.UnknownTypeNotIdempotent`, `Blocks.NonObjectBlock`).
- Editing.LineBounds: it states the bounds of the corrected line start `Editing.LineStart`. `applyListFormat` is meant to turn the lines under the selection into items. The line start that app.js:111 computes agrees with the corrected one except when the cursor is at 0 and the text starts with a line break (`Editing.LineStartAsWrittenSkips`). That case is the first finding.
- Views.YouTubeEmbed and Views.LinksBlock are the corrected builders of the third and second findings. The preview (`Views.ViewOf`) uses the builders as the code writes them.
- Objects are maps in `Json.Value`, so the order of their keys is not modelled. The copies in `normalizeBlock` (app.js:177) and the JSON export (app.js:1314) keep insertion order, and the model does not.

## Findings

| source | as written | input that shows it | evidently intended | confidence | as-written member | corrected member |
|---|---|---|---|---|---|---|
| app.js:111 | `lastIndexOf('\n', start - 1) + 1` with `start` 0 searches from index 0. When the text starts with `\n` it gives line start 1, past the line end 0, so the leading break is copied before the new item. | Text `"\nabc"`, cursor at 0, format `ul` gives `"\n- Elemento de la lista\nabc"`. | The line start is 0 when the cursor is at 0, giving `"- Elemento de la lista\nabc"`. | not executed | Editing.ListFormatDuplicatesBreak | Editing.ListFormatAtBreak |
| app.js:1001-1002 | The label falls back to `url`, which is already escaped, and is escaped again. | `{url: "a&b"}` with no label shows `a&amp;amp;b`, which is read as `a&amp;b`. | The label falls back to the raw url, escaped once. | not executed | Views.LinkLabelDoubleEscaped | Views.LinkEntryParts |
| app.js:958 | The id from the query-string fallback is put into the iframe `src` attribute without escaping. | The url `a?v=%22` is shorter than 20 characters, so the pattern never matches (`Views.ShortUrlNoMatch`). `URLSearchParams` decodes `v` to `"`, which closes the attribute. | The id is escaped like every other interpolated value. | not executed | Views.YouTubeQueryRaw | Views.YouTubeParts |
