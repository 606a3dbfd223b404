/** The block previews (`renderBlockView` and the string builders behind
    it): each kind writes its HTML template with the block's fields escaped
    into it, or a bracketed placeholder when the field it needs is empty.
    An error stands for the `TypeError` the code throws when a field it
    escapes is not a string, or when the block itself is `null`. */
module Views {
  import opened Wrappers
  import opened Strings
  import opened Json
  import opened Html
  import opened Sanitize
  import Markdown
  import Inline
  import Blocks

  // ------------------------------------------------ reading fields

  /** The text of `v || fallback`: `v` itself when it is a non-empty string,
      the fallback when `v` is falsy. */
  function Shown(v: Value, fallback: string): string
  {
    if Truthy(v) && v.Str? then v.s else fallback
  }

  /** `escapeHtml(v || fallback)` does not throw: `v` is falsy or a string,
      the only value with a `replace` method. */
  predicate Printable(v: Value)
  {
    !Truthy(v) || v.Str?
  }

  /** Markup that shows the text `s`: it decodes to `s` and holds no `<`,
      `>`, `"` or `'`, so it can neither open a tag nor end an attribute. */
  predicate Carries(t: string, s: string)
  {
    NoMarkupChars(t) && UnescapeHtml(t) == s
  }

  /** `escapeHtml(v || fallback)`; for a truthy `v` this is also
      `escapeHtml(v)`. */
  function EscapeOr(v: Value, fallback: string): (r: Result<string>)
    ensures r.Ok? <==> Printable(v)
    ensures r.Ok? ==> Carries(r.value, Shown(v, fallback))
    ensures r.Ok? ==> (r.value == "" <==> Shown(v, fallback) == "")
  {
    var x := Or(v, Str(fallback));
    if x.Str? then
      EscapeHtmlSafe(x.s);
      UnescapeEscape(x.s);
      Ok(EscapeHtml(x.s))
    else Err(Blocks.TypeError)
  }

  /** `markdownToHtml(v || '')`: the renderer's output, which carries no
      markup but its own, or the error `escapeHtml` throws on a value that
      is not a string. */
  function MarkdownOf(v: Value): (r: Result<string>)
    ensures r.Ok? <==> Printable(v)
    ensures r.Ok? ==> r.value == Markdown.MarkdownToHtmlSpec(Shown(v, "")) && Inline.Safe(r.value)
    ensures r.Ok? ==> r.value != ""
  {
    var x := Or(v, Str(""));
    if x.Str? then
      Markdown.MarkdownSafe(x.s);
      Ok(Markdown.MarkdownToHtmlSpec(x.s))
    else Err(Blocks.TypeError)
  }

  /** `${text ? open + text + close : ''}`. */
  function Captioned(text: string, open: string, close: string): string
  {
    if text != "" then open + text + close else ""
  }

  // ------------------------------------------------ mediaImage

  /** The opening of every bracketed placeholder but the audio one. */
  const FallbackOpen := "<div class=\"media-fallback\">"
  const ImageMissing := FallbackOpen + "[Imagen no encontrada]</div>"

  /** The `style` attribute of an image figure of the given width. */
  function FigureStyle(width: string): string
  {
    if width != "" then " style=\"" + EscapeHtml("width: " + width + "%; margin-inline: auto") + "\"" else ""
  }

  /** The figure an image block shows. */
  function Figure(width: string, src: string, alt: string, caption: string): string
  {
    "<figure" + FigureStyle(width) + "><img src=\"" + src + "\" alt=\"" + alt + "\" loading=\"lazy\" data-fallback=\"image\" />"
    + Captioned(caption, "<figcaption>", "</figcaption>") + "</figure>"
  }

  /** `mediaImage(block)`. */
  function MediaImage(block: Value): (r: Result<string>)
    ensures r.Ok? ==> r.value != ""
  {
    if Nullish(block) then Err(Blocks.TypeError)
    else
      var alt := EscapeOr(Get(block, "alt"), "");
      var caption := EscapeOr(Get(block, "caption"), "");
      var src := EscapeOr(Get(block, "src"), "");
      if alt.Err? || caption.Err? || src.Err? then Err(Blocks.TypeError)
      else if src.value == "" then Ok(ImageMissing)
      else Ok(Figure(SanitizeNumber(Get(block, "width"), WidthMin, WidthMax), src.value, alt.value, caption.value))
  }

  /** The image preview fails exactly when the block is `null` or
      `undefined` or one of its texts is not a string. */
  lemma ImageFails(block: Value)
    ensures MediaImage(block).Err? <==>
      Nullish(block) || !Printable(Get(block, "alt")) || !Printable(Get(block, "caption")) || !Printable(Get(block, "src"))
  {
  }

  /** Without a source the image shows its placeholder, and only then. */
  lemma ImageFallback(block: Value)
    requires !Nullish(block) && Printable(Get(block, "alt")) && Printable(Get(block, "caption")) && Printable(Get(block, "src"))
    ensures MediaImage(block) == Ok(ImageMissing) <==> !Truthy(Get(block, "src"))
  {
    if Truthy(Get(block, "src")) {
      var width, src, alt, caption := ImageParts(block);
      FigureNotMissing(width, src, alt, caption);
    }
  }

  lemma FigureNotMissing(width: string, src: string, alt: string, caption: string)
    ensures Figure(width, src, alt, caption) != ImageMissing
  {
    assert Figure(width, src, alt, caption)[1] == 'f' != ImageMissing[1];
  }

  /** With a source, the image is the figure whose source, alternative
      text and caption show the block's own texts, at the sanitized width
      (nothing, or a number from 10 to 100). */
  lemma ImageParts(block: Value) returns (width: string, src: string, alt: string, caption: string)
    requires !Nullish(block) && Printable(Get(block, "alt")) && Printable(Get(block, "caption"))
    requires Get(block, "src").Str? && Get(block, "src").s != ""
    ensures MediaImage(block) == Ok(Figure(width, src, alt, caption))
    ensures Carries(src, Get(block, "src").s) && src != ""
    ensures Carries(alt, Shown(Get(block, "alt"), "")) && Carries(caption, Shown(Get(block, "caption"), ""))
    ensures width == "" || InRange(width, WidthMin, WidthMax)
  {
    width := SanitizeNumber(Get(block, "width"), WidthMin, WidthMax);
    src := EscapeOr(Get(block, "src"), "").value;
    alt := EscapeOr(Get(block, "alt"), "").value;
    caption := EscapeOr(Get(block, "caption"), "").value;
    ImageShows(block, EscapeOr(Get(block, "src"), ""), EscapeOr(Get(block, "alt"), ""), EscapeOr(Get(block, "caption"), ""));
    StyleBounds();
    if width != "" {
      SanitizeNumberInRange(Get(block, "width"), WidthMin, WidthMax);
    }
  }

  lemma ImageShows(block: Value, src: Result<string>, alt: Result<string>, caption: Result<string>)
    requires !Nullish(block)
    requires src == EscapeOr(Get(block, "src"), "") && alt == EscapeOr(Get(block, "alt"), "")
    requires caption == EscapeOr(Get(block, "caption"), "")
    requires src.Ok? && alt.Ok? && caption.Ok? && src.value != ""
    ensures MediaImage(block) == Ok(Figure(SanitizeNumber(Get(block, "width"), WidthMin, WidthMax), src.value, alt.value, caption.value))
  {
  }

  // ------------------------------------------------ textBlockHtml and buildTextBlockStyle

  /** One CSS declaration of a text block's style. */
  datatype Decl = FontFamily(css: string) | FontSize(size: string) | LineHeight(height: string)
                | Color(color: string) | TextAlign(align: string)

  function DeclText(d: Decl): string
  {
    match d
    case FontFamily(css) => "font-family: " + css
    case FontSize(size) => "font-size: " + size + "rem"
    case LineHeight(height) => "line-height: " + height
    case Color(color) => "color: " + color
    case TextAlign(align) => "text-align: " + align
  }

  /** Where a declaration goes in the style. */
  function Rank(d: Decl): nat
  {
    match d
    case FontFamily(_) => 0
    case FontSize(_) => 1
    case LineHeight(_) => 2
    case Color(_) => 3
    case TextAlign(_) => 4
  }

  /** `[d]` when its value is a non-empty (truthy) string. */
  function When(value: string, d: Decl): seq<Decl>
  {
    if value != "" then [d] else []
  }

  /** The declarations pushed for these values, in the code's order. */
  function Decls(font: string, size: string, height: string, color: string, align: string): seq<Decl>
  {
    When(font, FontFamily(font)) + When(size, FontSize(size)) + When(height, LineHeight(height))
    + When(color, Color(color)) + When(align, TextAlign(align))
  }

  /** The family of the block's sanitized font choice, `''` for none and
      for `inherit`. */
  function FamilyOf(block: Value): string
  {
    var css := FontChoiceToCss(Str(SanitizeFontChoice(Get(block, "fontChoice"))));
    if css.Some? && css.value != "inherit" then css.value else ""
  }

  function SizeOf(block: Value): string
  {
    SanitizeNumber(Get(block, "fontSize"), FontSizeMin, FontSizeMax)
  }

  function HeightOf(block: Value): string
  {
    SanitizeNumber(Get(block, "lineHeight"), LineHeightMin, LineHeightMax)
  }

  /** The declarations `buildTextBlockStyle` pushes. */
  function StyleDecls(block: Value): seq<Decl>
  {
    Decls(FamilyOf(block), SizeOf(block), HeightOf(block), SanitizeColor(Get(block, "textColor")), SanitizeAlign(Get(block, "align")))
  }

  /** `buildTextBlockStyle(block)`: the declarations joined by `; `. */
  function BuildTextBlockStyle(block: Value): string
  {
    JoinDecls(StyleDecls(block))
  }

  /** `styles.join('; ')`. */
  function JoinDecls(ds: seq<Decl>): string
  {
    Join(seq(|ds|, k requires 0 <= k < |ds| => DeclText(ds[k])), "; ")
  }

  /** A declaration with a sanitized value: a family of the font table other
      than `inherit`, a size from 0.6 to 3, a line height from 1 to 3, a hex
      colour, one of the four alignments. */
  predicate Sanitary(d: Decl)
  {
    match d
    case FontFamily(css) => exists i :: 1 <= i < |FontChoices| && FontChoices[i].css == css
    case FontSize(size) => InRange(size, FontSizeMin, FontSizeMax)
    case LineHeight(height) => InRange(height, LineHeightMin, LineHeightMax)
    case Color(color) => ShortHex(color) || FullHex(color)
    case TextAlign(align) => IsAlign(align)
  }

  predicate Ascending(ds: seq<Decl>)
  {
    forall j, k :: 0 <= j < k < |ds| ==> Rank(ds[j]) < Rank(ds[k])
  }

  /** Every declaration of `ds` goes before rank `r`. */
  predicate Below(ds: seq<Decl>, r: nat)
  {
    forall k :: 0 <= k < |ds| ==> Rank(ds[k]) < r
  }

  lemma AppendAscending(ds: seq<Decl>, value: string, d: Decl)
    requires Ascending(ds) && Below(ds, Rank(d))
    ensures Ascending(ds + When(value, d)) && Below(ds + When(value, d), Rank(d) + 1)
  {
  }

  /** Each declaration appears at most once, in the order family, size,
      line height, colour, alignment. */
  lemma DeclsAscending(font: string, size: string, height: string, color: string, align: string)
    ensures Ascending(Decls(font, size, height, color, align))
  {
    var a, b, c, d := When(font, FontFamily(font)), When(size, FontSize(size)), When(height, LineHeight(height)),
      When(color, Color(color));
    AppendAscending([], font, FontFamily(font));
    assert [] + a == a;
    AppendAscending(a, size, FontSize(size));
    AppendAscending(a + b, height, LineHeight(height));
    AppendAscending(a + b + c, color, Color(color));
    AppendAscending(a + b + c + d, align, TextAlign(align));
  }

  /** A declaration is there exactly when its value is. */
  lemma DeclsPresent(font: string, size: string, height: string, color: string, align: string)
    ensures FontFamily(font) in Decls(font, size, height, color, align) <==> font != ""
    ensures FontSize(size) in Decls(font, size, height, color, align) <==> size != ""
    ensures LineHeight(height) in Decls(font, size, height, color, align) <==> height != ""
    ensures Color(color) in Decls(font, size, height, color, align) <==> color != ""
    ensures TextAlign(align) in Decls(font, size, height, color, align) <==> align != ""
  {
    var a, b, c, d, e := When(font, FontFamily(font)), When(size, FontSize(size)), When(height, LineHeight(height)),
      When(color, Color(color)), When(align, TextAlign(align));
    assert Decls(font, size, height, color, align) == a + b + c + d + e;
    assert forall x :: x in a + b + c + d + e <==> x in a || x in b || x in c || x in d || x in e;
  }

  predicate AllSanitary(ds: seq<Decl>)
  {
    forall k :: 0 <= k < |ds| ==> Sanitary(ds[k])
  }

  lemma AppendSanitary(ds: seq<Decl>, value: string, d: Decl)
    requires AllSanitary(ds) && (value != "" ==> Sanitary(d))
    ensures AllSanitary(ds + When(value, d))
  {
  }

  /** Declarations of sanitized values are all sanitary. */
  lemma DeclsSanitary(font: string, size: string, height: string, color: string, align: string)
    requires font != "" ==> Sanitary(FontFamily(font))
    requires size != "" ==> Sanitary(FontSize(size))
    requires height != "" ==> Sanitary(LineHeight(height))
    requires color != "" ==> Sanitary(Color(color))
    requires align != "" ==> Sanitary(TextAlign(align))
    ensures AllSanitary(Decls(font, size, height, color, align))
  {
    var a, b, c, d := When(font, FontFamily(font)), When(size, FontSize(size)), When(height, LineHeight(height)),
      When(color, Color(color));
    AppendSanitary([], font, FontFamily(font));
    assert [] + a == a;
    AppendSanitary(a, size, FontSize(size));
    AppendSanitary(a + b, height, LineHeight(height));
    AppendSanitary(a + b + c, color, Color(color));
    AppendSanitary(a + b + c + d, align, TextAlign(align));
  }

  /** Each value the style writes has been sanitized. */
  lemma StyleSanitary(block: Value)
    ensures AllSanitary(StyleDecls(block))
  {
    var font := FamilyOf(block);
    var css := FontChoiceToCss(Str(SanitizeFontChoice(Get(block, "fontChoice"))));
    if font != "" {
      var i :| 0 <= i < |FontChoices| && FontChoices[i] == FontOption(SanitizeFontChoice(Get(block, "fontChoice")), css.value);
      assert FontChoices[0].value == "inherit";
    }
    StyleBounds();
    if SizeOf(block) != "" {
      SanitizeNumberInRange(Get(block, "fontSize"), FontSizeMin, FontSizeMax);
    }
    if HeightOf(block) != "" {
      SanitizeNumberInRange(Get(block, "lineHeight"), LineHeightMin, LineHeightMax);
    }
    DeclsSanitary(font, SizeOf(block), HeightOf(block), SanitizeColor(Get(block, "textColor")), SanitizeAlign(Get(block, "align")));
  }

  /** The family is written for every font choice but `inherit`. */
  lemma FamilyPresent(block: Value)
    ensures FamilyOf(block) != "" <==> SanitizeFontChoice(Get(block, "fontChoice")) != "inherit"
  {
    var css := FontChoiceToCss(Str(SanitizeFontChoice(Get(block, "fontChoice"))));
    if css.Some? {
      var i :| 0 <= i < |FontChoices| && FontChoices[i] == FontOption(SanitizeFontChoice(Get(block, "fontChoice")), css.value);
      FontCssNamed(i);
    }
  }

  /** Past the `inherit` entry, no family of the table is empty or
      `inherit`. */
  lemma FontCssNamed(i: nat)
    requires 1 <= i < |FontChoices|
    ensures FontChoices[i].css != "" && FontChoices[i].css != "inherit"
  {
  }

  /** A block with no style field set gets no declaration. */
  lemma StyleUnset(block: Value)
    requires Get(block, "fontChoice").Undefined? && Get(block, "fontSize").Undefined? && Get(block, "lineHeight").Undefined?
    requires Get(block, "textColor").Undefined? && Get(block, "align").Undefined?
    ensures BuildTextBlockStyle(block) == ""
  {
    assert FamilyOf(block) == "";
    assert StyleDecls(block) == [];
  }

  /** The style is empty exactly when no declaration is pushed. */
  lemma JoinDeclsEmpty(ds: seq<Decl>)
    ensures JoinDecls(ds) == "" <==> ds == []
  {
    var texts := seq(|ds|, k requires 0 <= k < |ds| => DeclText(ds[k]));
    if |ds| > 0 {
      assert |texts[0]| > 0;
      assert |Join(texts, "; ")| >= |texts[0]|;
    }
  }

  /** The `div` a text block shows: its style attribute, when there is a
      style, and its rendered Markdown. */
  function TextDiv(style: string, content: string): string
  {
    "<div class=\"text-rich\"" + StyleAttr(style) + ">" + content + "</div>"
  }

  /** The `style` attribute that shows `style`, or nothing. */
  function StyleAttr(style: string): (attr: string)
    ensures attr == "" <==> style == ""
    ensures attr != "" ==> exists t :: attr == " style=\"" + t + "\"" && Carries(t, style)
  {
    if style != "" then
      EscapeHtmlSafe(style);
      UnescapeEscape(style);
      " style=\"" + EscapeHtml(style) + "\""
    else ""
  }

  /** `textBlockHtml(block)`. */
  function TextBlockHtml(block: Value): (r: Result<string>)
    ensures r.Ok? ==> r.value != ""
  {
    if Nullish(block) then Err(Blocks.TypeError)
    else
      var content := MarkdownOf(Get(block, "markdown"));
      if content.Err? then Err(Blocks.TypeError)
      else Ok(TextDiv(BuildTextBlockStyle(block), content.value))
  }

  /** The text preview fails exactly for a `null` block or a Markdown field
      that is not a string. */
  lemma TextFails(block: Value)
    ensures TextBlockHtml(block).Err? <==> Nullish(block) || !Printable(Get(block, "markdown"))
  {
  }

  /** The text preview is the rendered Markdown in a `div`, with a style
      attribute exactly when there is a style, which the attribute shows
      as written. */
  lemma TextParts(block: Value) returns (attr: string)
    requires !Nullish(block) && Printable(Get(block, "markdown"))
    ensures TextBlockHtml(block) == Ok("<div class=\"text-rich\"" + attr + ">"
      + Markdown.MarkdownToHtmlSpec(Shown(Get(block, "markdown"), "")) + "</div>")
    ensures attr == "" <==> BuildTextBlockStyle(block) == ""
    ensures attr != "" ==> exists t :: attr == " style=\"" + t + "\"" && Carries(t, BuildTextBlockStyle(block))
  {
    attr := StyleAttr(BuildTextBlockStyle(block));
  }

  // ------------------------------------------------ mediaAudio and pdfViewer

  const AudioMissing := "<div class=\"audio-fallback\">" + "[Audio no disponible]</div>"

  function AudioPlayer(src: string, caption: string): string
  {
    Captioned(caption, "<p>", "</p>") + "<audio controls" + " preload=\"metadata\" data-fallback=\"audio\">"
    + "<source src=\"" + src + "\" />Tu navegador no soporta audio HTML5.</audio>"
  }

  /** `mediaAudio(block)`. */
  function MediaAudio(block: Value): (r: Result<string>)
    ensures r.Ok? ==> r.value != ""
  {
    if Nullish(block) then Err(Blocks.TypeError)
    else
      var src := EscapeOr(Get(block, "src"), "");
      var caption := EscapeOr(Get(block, "caption"), "");
      if src.Err? || caption.Err? then Err(Blocks.TypeError)
      else if src.value == "" then Ok(AudioMissing)
      else Ok(AudioPlayer(src.value, caption.value))
  }

  lemma AudioFails(block: Value)
    ensures MediaAudio(block).Err? <==> Nullish(block) || !Printable(Get(block, "src")) || !Printable(Get(block, "caption"))
  {
  }

  /** Without a source the player is replaced by its placeholder, and only
      then; with one, the player's source and caption show the block's. */
  lemma AudioParts(block: Value) returns (src: string, caption: string)
    requires !Nullish(block) && Printable(Get(block, "src")) && Printable(Get(block, "caption"))
    ensures MediaAudio(block) == Ok(AudioMissing) <==> !Truthy(Get(block, "src"))
    ensures Truthy(Get(block, "src")) ==> MediaAudio(block) == Ok(AudioPlayer(src, caption))
    ensures Carries(src, Shown(Get(block, "src"), "")) && Carries(caption, Shown(Get(block, "caption"), ""))
  {
    src := EscapeOr(Get(block, "src"), "").value;
    caption := EscapeOr(Get(block, "caption"), "").value;
    AudioNotMissing(src, caption);
  }

  lemma AudioNotMissing(src: string, caption: string)
    ensures AudioPlayer(src, caption) != AudioMissing
  {
    var p := AudioPlayer(src, caption);
    if caption != "" {
      assert p[1] == "<p>"[1];
    } else {
      assert p[1] == 'a';
    }
    assert AudioMissing[1] == 'd';
  }

  const PdfMissing := FallbackOpen + "[PDF no disponible]</div>"

  function PdfObject(src: string, caption: string): string
  {
    Captioned(caption, "<p>", "</p>") + "<object" + " type=\"application/pdf\" data=\"" + src + "\" data-fallback=\"pdf\">"
    + "Tu navegador no puede mostrar PDF.</object>" + "<p><a href=\"" + src + "\" download>Descargar PDF</a></p>"
  }

  /** `pdfViewer(block)`. */
  function PdfViewer(block: Value): (r: Result<string>)
    ensures r.Ok? ==> r.value != ""
  {
    if Nullish(block) then Err(Blocks.TypeError)
    else
      var src := EscapeOr(Get(block, "src"), "");
      var caption := EscapeOr(Get(block, "caption"), "");
      if src.Err? || caption.Err? then Err(Blocks.TypeError)
      else if src.value == "" then Ok(PdfMissing)
      else Ok(PdfObject(src.value, caption.value))
  }

  lemma PdfFails(block: Value)
    ensures PdfViewer(block).Err? <==> Nullish(block) || !Printable(Get(block, "src")) || !Printable(Get(block, "caption"))
  {
  }

  /** Without a source the viewer is replaced by its placeholder, and only
      then; with one, the embedded object and the download link both point
      at the block's source. */
  lemma PdfParts(block: Value) returns (src: string, caption: string)
    requires !Nullish(block) && Printable(Get(block, "src")) && Printable(Get(block, "caption"))
    ensures PdfViewer(block) == Ok(PdfMissing) <==> !Truthy(Get(block, "src"))
    ensures Truthy(Get(block, "src")) ==> PdfViewer(block) == Ok(PdfObject(src, caption))
    ensures Carries(src, Shown(Get(block, "src"), "")) && Carries(caption, Shown(Get(block, "caption"), ""))
  {
    src := EscapeOr(Get(block, "src"), "").value;
    caption := EscapeOr(Get(block, "caption"), "").value;
    PdfNotMissing(src, caption);
  }

  lemma PdfNotMissing(src: string, caption: string)
    ensures PdfObject(src, caption) != PdfMissing
  {
    var p := PdfObject(src, caption);
    if caption != "" {
      assert p[1] == "<p>"[1];
    } else {
      assert p[1] == 'o';
    }
    assert PdfMissing[1] == 'd';
  }

  // ------------------------------------------------ quoteBlock and calloutBlock

  /** `quoteBlock(block)`: the rendered text, then the escaped citation when
      there is one. */
  function QuoteBlock(block: Value): (r: Result<string>)
    ensures r.Ok? ==> r.value != ""
  {
    if Nullish(block) then Err(Blocks.TypeError)
    else
      var text := MarkdownOf(Get(block, "text"));
      var cite := if Truthy(Get(block, "cite")) then EscapeOr(Get(block, "cite"), "") else Ok("");
      if text.Err? || cite.Err? then Err(Blocks.TypeError)
      else Ok(Quotation(text.value, cite.value))
  }

  function Quotation(text: string, cite: string): string
  {
    "<blockquote>" + text + Captioned(cite, "<cite>", "</cite>") + "</blockquote>"
  }

  lemma QuoteFails(block: Value)
    ensures QuoteBlock(block).Err? <==> Nullish(block) || !Printable(Get(block, "text")) || !Printable(Get(block, "cite"))
  {
  }

  /** The quotation is the rendered text, followed by a `cite` element that
      shows the citation exactly when there is one. */
  lemma QuoteParts(block: Value) returns (cite: string)
    requires !Nullish(block) && Printable(Get(block, "text")) && Printable(Get(block, "cite"))
    ensures QuoteBlock(block) == Ok(Quotation(Markdown.MarkdownToHtmlSpec(Shown(Get(block, "text"), "")), cite))
    ensures Carries(cite, Shown(Get(block, "cite"), "")) && (cite == "" <==> !Truthy(Get(block, "cite")))
  {
    cite := EscapeOr(Get(block, "cite"), "").value;
  }

  /** `calloutBlock(block)`. */
  function CalloutBlock(block: Value): (r: Result<string>)
    ensures r.Ok? ==> r.value != ""
  {
    if Nullish(block) then Err(Blocks.TypeError)
    else
      var text := MarkdownOf(Get(block, "text"));
      if text.Err? then Err(Blocks.TypeError)
      else Ok(Callout(text.value))
  }

  function Callout(text: string): string
  {
    "<div class=\"block-callout\">" + text + "</div>"
  }

  lemma CalloutParts(block: Value)
    ensures CalloutBlock(block).Err? <==> Nullish(block) || !Printable(Get(block, "text"))
    ensures CalloutBlock(block).Ok? ==>
      CalloutBlock(block).value == Callout(Markdown.MarkdownToHtmlSpec(Shown(Get(block, "text"), "")))
  {
  }

  // ------------------------------------------------ galleryBlock and linksBlock

  /** `items?.length` is truthy. */
  predicate HasItems(items: Value)
  {
    !Nullish(items) && Truthy(Get(items, "length"))
  }

  /** An array has items exactly when it is not empty. */
  lemma HasItemsArray(items: seq<Value>)
    ensures HasItems(Arr(items)) <==> |items| > 0
  {
  }

  /** `items.map(each).join('')`, from item `k` on; the first item that
      throws ends the whole. */
  function MapJoin(items: seq<Value>, each: Value -> Result<string>, k: nat): (r: Result<string>)
    requires k <= |items|
    ensures r.Ok? <==> forall j :: k <= j < |items| ==> each(items[j]).Ok?
    ensures r.Ok? && k < |items| ==> IsPrefix(each(items[k]).value, r.value)
    decreases |items| - k
  {
    if k == |items| then Ok("")
    else
      var head := each(items[k]);
      var rest := MapJoin(items, each, k + 1);
      if head.Err? then Err(head.error)
      else if rest.Err? then Err(rest.error)
      else
        assert (head.value + rest.value)[..|head.value|] == head.value;
        Ok(head.value + rest.value)
  }

  const GalleryOpen := "<div class=\"block-gallery\">"
  const GalleryEmpty := FallbackOpen + "[Galería vacía]</div>"
  const ImageSlot := FallbackOpen + "[Imagen]</div>"

  function GalleryImage(src: string, alt: string): string
  {
    if src != "" then "<img src=\"" + src + "\" alt=\"" + alt + "\" loading=\"lazy\" data-fallback=\"image\" />" else ImageSlot
  }

  /** One figure of `galleryBlock`. */
  function GalleryFigure(item: Value): Result<string>
  {
    if Nullish(item) then Err(Blocks.TypeError)
    else
      var src := EscapeOr(Get(item, "src"), "");
      var alt := EscapeOr(Get(item, "alt"), "");
      var caption := EscapeOr(Get(item, "caption"), "");
      if src.Err? || alt.Err? || caption.Err? then Err(Blocks.TypeError)
      else Ok(GalleryCard(src.value, alt.value, caption.value))
  }

  function GalleryCard(src: string, alt: string, caption: string): string
  {
    "<figure>" + GalleryImage(src, alt) + Captioned(caption, "<figcaption>", "</figcaption>") + "</figure>"
  }

  /** An image without a source is the image placeholder, and only then. */
  lemma GalleryImageSlot(src: string, alt: string)
    ensures GalleryImage(src, alt) == ImageSlot <==> src == ""
  {
    if src != "" {
      assert GalleryImage(src, alt)[1] == 'i' && ImageSlot[1] == 'd';
    }
  }

  /** A figure throws exactly for a nullish item, or one whose source, alt
      text or caption is truthy but not a string. */
  lemma GalleryFigureFails(item: Value)
    ensures GalleryFigure(item).Err? <==>
      Nullish(item) || !Printable(Get(item, "src")) || !Printable(Get(item, "alt")) || !Printable(Get(item, "caption"))
  {
  }

  /** An item becomes a figure showing its image, or the image placeholder
      when it has no source, and its caption. */
  lemma GalleryFigureParts(item: Value) returns (src: string, alt: string, caption: string)
    requires !Nullish(item) && Printable(Get(item, "src")) && Printable(Get(item, "alt")) && Printable(Get(item, "caption"))
    ensures GalleryFigure(item) == Ok(GalleryCard(src, alt, caption))
    ensures Carries(src, Shown(Get(item, "src"), "")) && Carries(alt, Shown(Get(item, "alt"), ""))
    ensures Carries(caption, Shown(Get(item, "caption"), ""))
    ensures GalleryImage(src, alt) == ImageSlot <==> !Truthy(Get(item, "src"))
  {
    src := EscapeOr(Get(item, "src"), "").value;
    alt := EscapeOr(Get(item, "alt"), "").value;
    caption := EscapeOr(Get(item, "caption"), "").value;
    GalleryImageSlot(src, alt);
  }

  /** `galleryBlock(block)`. */
  function GalleryBlock(block: Value): (r: Result<string>)
    ensures r.Ok? ==> r.value != ""
  {
    ItemList(block, GalleryFigure, GalleryOpen, "</div>", GalleryEmpty)
  }

  /** The shape `galleryBlock` and `linksBlock` share: the placeholder
      unless `items?.length`, and otherwise `items.map(each).join('')`
      inside the container; an `items` that is not an array throws. */
  function ItemList(block: Value, each: Value -> Result<string>, open: string, close: string, empty: string): (r: Result<string>)
    ensures r.Ok? && open != "" && empty != "" ==> r.value != ""
  {
    if Nullish(block) then Err(Blocks.TypeError)
    else
      var items := Get(block, "items");
      if !HasItems(items) then Ok(empty)
      else if !items.Arr? then Err(Blocks.TypeError)
      else
        var list := MapJoin(items.elems, each, 0);
        if list.Err? then Err(Blocks.TypeError)
        else Ok(open + list.value + close)
  }

  /** A container of class `block-…` is not a `media-fallback`
      placeholder. */
  predicate Distinct(open: string, empty: string)
  {
    12 < |open| && open[12] == 'b' && 12 < |empty| && empty[12] == 'm'
  }

  /** The list shows its placeholder exactly when it has no items. */
  lemma ItemListPlaceholder(block: Value, each: Value -> Result<string>, open: string, close: string, empty: string)
    requires !Nullish(block) && Distinct(open, empty)
    ensures ItemList(block, each, open, close, empty) == Ok(empty) <==> !HasItems(Get(block, "items"))
  {
    var items := Get(block, "items");
    if HasItems(items) && items.Arr? {
      var list := MapJoin(items.elems, each, 0);
      if list.Ok? {
        assert (open + list.value + close)[12] == 'b';
      }
    }
  }

  /** With items, the list fails exactly when they are not an array or one
      of them fails. */
  lemma ItemListFails(block: Value, each: Value -> Result<string>, open: string, close: string, empty: string)
    requires !Nullish(block)
    ensures ItemList(block, each, open, close, empty).Err? <==>
      (HasItems(Get(block, "items")) &&
       (!Get(block, "items").Arr? || exists j :: 0 <= j < |Get(block, "items").elems| && each(Get(block, "items").elems[j]).Err?))
  {
  }

  /** With items, the list starts with the first one's markup. */
  lemma ItemListStarts(block: Value, each: Value -> Result<string>, open: string, close: string, empty: string)
    requires !Nullish(block) && HasItems(Get(block, "items")) && ItemList(block, each, open, close, empty).Ok?
    ensures IsPrefix(open + each(Get(block, "items").elems[0]).value, ItemList(block, each, open, close, empty).value)
  {
    var items := Get(block, "items");
    var list := MapJoin(items.elems, each, 0).value;
    var head := each(items.elems[0]).value;
    assert (open + list + close)[..|open + head|] == open + list[..|head|];
  }

  /** The gallery and the link list are told from their placeholders. */
  lemma ListsDistinct()
    ensures Distinct(GalleryOpen, GalleryEmpty) && Distinct(LinksOpen, NoLinks)
  {
  }

  const LinksOpen := "<div class=\"block-links\">" + "<ul>"
  const NoLinks := FallbackOpen + "[Sin enlaces]</div>"

  function LinkItem(url: string, name: string): string
  {
    "<li><a href=\"" + url + "\" target=\"_blank\" rel=\"noopener\">" + name + "</a></li>"
  }

  /** One item of `linksBlock` as the code writes it: the label falls back
      to the url after the url has been escaped, and is escaped again. */
  function LinkEntryAsWritten(item: Value): Result<string>
  {
    if Nullish(item) then Err(Blocks.TypeError)
    else
      var url := EscapeOr(Get(item, "url"), "#");
      if url.Err? then Err(Blocks.TypeError)
      else
        var name := EscapeOr(Get(item, "label"), url.value);
        if name.Err? then Err(Blocks.TypeError)
        else Ok(LinkItem(url.value, name.value))
  }

  /** One item of `linksBlock` with the label falling back to the url's own
      text, escaped once. */
  function LinkEntry(item: Value): Result<string>
  {
    if Nullish(item) then Err(Blocks.TypeError)
    else
      var url := EscapeOr(Get(item, "url"), "#");
      var name := EscapeOr(Get(item, "label"), Shown(Get(item, "url"), "#"));
      if url.Err? || name.Err? then Err(Blocks.TypeError)
      else Ok(LinkItem(url.value, name.value))
  }

  /** A link throws exactly for a nullish item, or one whose url or label is
      truthy but not a string, as written and corrected alike. */
  lemma LinkEntryFails(item: Value)
    ensures LinkEntryAsWritten(item).Err? <==> Nullish(item) || !Printable(Get(item, "url")) || !Printable(Get(item, "label"))
    ensures LinkEntry(item).Err? <==> Nullish(item) || !Printable(Get(item, "url")) || !Printable(Get(item, "label"))
  {
  }

  /** A link points at its url (`#` when it has none) and shows its label,
      or its url when it has no label. */
  lemma LinkEntryParts(item: Value) returns (url: string, name: string)
    requires !Nullish(item) && Printable(Get(item, "url")) && Printable(Get(item, "label"))
    ensures LinkEntry(item) == Ok(LinkItem(url, name))
    ensures Carries(url, Shown(Get(item, "url"), "#"))
    ensures Carries(name, Shown(Get(item, "label"), Shown(Get(item, "url"), "#")))
  {
    url := EscapeOr(Get(item, "url"), "#").value;
    name := EscapeOr(Get(item, "label"), Shown(Get(item, "url"), "#")).value;
  }

  /** The two agree on every link with a label; without one, the code's
      label shows the escaped url in place of the url. */
  lemma LinkEntryAsWrittenShows(item: Value) returns (url: string, name: string)
    requires !Nullish(item) && Printable(Get(item, "url")) && Printable(Get(item, "label"))
    ensures LinkEntryAsWritten(item) == Ok(LinkItem(url, name))
    ensures Carries(url, Shown(Get(item, "url"), "#"))
    ensures Truthy(Get(item, "label")) ==> LinkEntryAsWritten(item) == LinkEntry(item)
    ensures !Truthy(Get(item, "label")) ==> Carries(name, EscapeHtml(Shown(Get(item, "url"), "#")))
  {
    url := EscapeOr(Get(item, "url"), "#").value;
    name := EscapeOr(Get(item, "label"), url).value;
    if !Truthy(Get(item, "label")) {
      EscapeHtmlSafe(Shown(Get(item, "url"), "#"));
    } else {
      LabelledAgree(item, url);
    }
  }

  lemma LabelledAgree(item: Value, url: string)
    requires !Nullish(item) && Printable(Get(item, "url")) && Truthy(Get(item, "label"))
    requires EscapeOr(Get(item, "url"), "#") == Ok(url)
    ensures LinkEntryAsWritten(item) == LinkEntry(item)
  {
    assert EscapeOr(Get(item, "label"), url) == EscapeOr(Get(item, "label"), Shown(Get(item, "url"), "#"));
  }

  /** A link without a label whose url holds `&` (`a&b`, say): the code's
      label reads as the escaped url (`a&amp;b`), the corrected one as the
      url itself. */
  lemma LinkLabelDoubleEscaped(item: Value) returns (written: string, intended: string)
    requires !Nullish(item) && Get(item, "url").Str? && '&' in Get(item, "url").s && !Truthy(Get(item, "label"))
    ensures LinkEntryAsWritten(item) == Ok(LinkItem(EscapeHtml(Get(item, "url").s), written))
    ensures LinkEntry(item) == Ok(LinkItem(EscapeHtml(Get(item, "url").s), intended))
    ensures UnescapeHtml(written) == EscapeHtml(Get(item, "url").s) != Get(item, "url").s
    ensures UnescapeHtml(intended) == Get(item, "url").s
  {
    var u := Get(item, "url").s;
    assert Shown(Get(item, "url"), "#") == u;
    written, intended := EscapeHtml(EscapeHtml(u)), EscapeHtml(u);
    assert EscapeOr(Get(item, "url"), "#") == Ok(EscapeHtml(u));
    assert EscapeOr(Get(item, "label"), EscapeHtml(u)) == Ok(written);
    assert EscapeOr(Get(item, "label"), u) == Ok(intended);
    UnescapeEscape(EscapeHtml(u));
    UnescapeEscape(u);
    var k :| 0 <= k < |u| && u[k] == '&';
    EscapeGrows(u, k);
  }

  /** Escaping lengthens a text that holds `&`. */
  lemma EscapeGrows(s: string, k: nat)
    requires k < |s| && s[k] == '&'
    ensures |EscapeHtml(s)| > |s|
  {
    assert s == s[..k] + ([s[k]] + s[k + 1..]);
    EscapeHtmlAppend(s[..k], [s[k]] + s[k + 1..]);
    EscapeHtmlAppend([s[k]], s[k + 1..]);
    EscapeHtmlSafe(s[..k]);
    EscapeHtmlSafe(s[k + 1..]);
    EscapeHtmlChar(s[k]);
  }

  /** `linksBlock(block)` as the code writes it. */
  function LinksBlockAsWritten(block: Value): (r: Result<string>)
    ensures r.Ok? ==> r.value != ""
  {
    ItemList(block, LinkEntryAsWritten, LinksOpen, "</ul></div>", NoLinks)
  }

  /** `linksBlock(block)` with each entry written by `LinkEntry`. */
  function LinksBlock(block: Value): (r: Result<string>)
    ensures r.Ok? ==> r.value != ""
  {
    ItemList(block, LinkEntry, LinksOpen, "</ul></div>", NoLinks)
  }

  // ------------------------------------------------ youtubeEmbed and extractYouTubeId

  /** `[\w-]`. */
  predicate IdChar(c: char)
  {
    'a' <= c <= 'z' || 'A' <= c <= 'Z' || '0' <= c <= '9' || c == '_' || c == '-'
  }

  /** The four ways the pattern lets a link name a video, in its order. */
  const IdPrefixes: seq<string> := ["youtu.be/", "youtube.com/watch?v=", "youtube.com/embed/", "youtube.com/shorts/"]

  /** Prefix `p` at `i`, followed by eleven id characters. */
  predicate IdMatch(s: string, i: nat, p: string)
  {
    i + |p| + 11 <= |s| && s[i..i + |p|] == p && forall j :: i + |p| <= j < i + |p| + 11 ==> IdChar(s[j])
  }

  /** The length of the prefix the pattern matches at `i`, if it matches
      there. */
  function MatchAt(s: string, i: nat): (r: Option<nat>)
    ensures r.Some? <==> exists p :: p in IdPrefixes && IdMatch(s, i, p)
    ensures r.Some? ==> i + r.value + 11 <= |s| && forall j :: i + r.value <= j < i + r.value + 11 ==> IdChar(s[j])
  {
    if IdMatch(s, i, IdPrefixes[0]) then Some(|IdPrefixes[0]|)
    else if IdMatch(s, i, IdPrefixes[1]) then Some(|IdPrefixes[1]|)
    else if IdMatch(s, i, IdPrefixes[2]) then Some(|IdPrefixes[2]|)
    else if IdMatch(s, i, IdPrefixes[3]) then Some(|IdPrefixes[3]|)
    else None
  }

  /** The leftmost position from `i` on where the pattern matches. */
  function MatchFrom(s: string, i: nat): (r: Option<nat>)
    requires i <= |s|
    ensures r.Some? ==> i <= r.value < |s| && MatchAt(s, r.value).Some?
    ensures forall j :: i <= j < |s| && (r.None? || j < r.value) ==> MatchAt(s, j).None?
    decreases |s| - i
  {
    if i == |s| then None
    else if MatchAt(s, i).Some? then Some(i)
    else MatchFrom(s, i + 1)
  }

  /** `url.split('?')[1] || ''`. */
  function QueryOf(url: string): string
  {
    var parts := SplitOn(url, '?');
    if |parts| > 1 then parts[1] else ""
  }

  /** `extractYouTubeId(url)`. `query(q)` stands for
      `new URLSearchParams(q).get('v') || ''`, which the model does not
      define. */
  function ExtractYouTubeId(url: Value, query: string -> string): (r: Result<string>)
    ensures url.Str? && url.s != "" && MatchFrom(url.s, 0).Some? ==>
      r.Ok? && |r.value| == 11 && forall j :: 0 <= j < 11 ==> IdChar(r.value[j])
  {
    if !Truthy(url) then Ok("")
    else if !url.Str? then Err(Blocks.TypeError)
    else
      var m := MatchFrom(url.s, 0);
      if m.Some? then
        var start := m.value + MatchAt(url.s, m.value).value;
        Ok(url.s[start..start + 11])
      else Ok(query(QueryOf(url.s)))
  }

  /** The id lookup throws exactly for a truthy url that is not a string. */
  lemma ExtractYouTubeIdFails(url: Value, query: string -> string)
    ensures ExtractYouTubeId(url, query).Err? <==> !Printable(url)
  {
  }

  /** The id lookup as `youtubeEmbed` calls it finds a non-empty id. */
  predicate FindsId(block: Value, query: string -> string)
  {
    var id := ExtractYouTubeId(Or(Get(block, "url"), Str("")), query);
    id.Ok? && id.value != ""
  }

  /** The id the pattern finds needs no escaping. */
  lemma IdNeedsNoEscape(id: string)
    requires forall j :: 0 <= j < |id| ==> IdChar(id[j])
    ensures EscapeHtml(id) == id
  {
    EscapeHtmlIsEscapeEach(id);
    EscapeEachPlain(id);
  }

  const VideoMissing := FallbackOpen + "[Video no disponible]</div>"
  const EmbedOpen := "<div class=\"youtube-wrapper\">" + "<iframe loading=\"lazy\" src=\"https://www.youtube.com/embed/"
  const EmbedClose := "\" title=\"Video de YouTube\" allowfullscreen></iframe></div>"

  /** The caption line under a video. */
  function VideoCaption(block: Value): Result<string>
  {
    if Truthy(Get(block, "caption")) then
      var c := EscapeOr(Get(block, "caption"), "");
      if c.Err? then c else Ok("<p class=\"muted\">" + c.value + "</p>")
    else Ok("")
  }

  /** `youtubeEmbed(block)` as the code writes it: the id goes into the
      frame's source as it was found. */
  function YouTubeEmbedAsWritten(block: Value, query: string -> string): (r: Result<string>)
    ensures r.Ok? ==> r.value != ""
  {
    if Nullish(block) then Err(Blocks.TypeError)
    else
      var id := ExtractYouTubeId(Or(Get(block, "url"), Str("")), query);
      if id.Err? then Err(Blocks.TypeError)
      else if id.value == "" then Ok(VideoMissing)
      else
        var caption := VideoCaption(block);
        if caption.Err? then Err(Blocks.TypeError)
        else Ok(EmbedOpen + id.value + EmbedClose + caption.value)
  }

  /** `youtubeEmbed(block)` with the id escaped like every other text the
      previews write into an attribute. */
  function YouTubeEmbed(block: Value, query: string -> string): (r: Result<string>)
    ensures r.Ok? ==> r.value != ""
  {
    if Nullish(block) then Err(Blocks.TypeError)
    else
      var id := ExtractYouTubeId(Or(Get(block, "url"), Str("")), query);
      if id.Err? then Err(Blocks.TypeError)
      else if id.value == "" then Ok(VideoMissing)
      else
        var caption := VideoCaption(block);
        if caption.Err? then Err(Blocks.TypeError)
        else Ok(EmbedOpen + EscapeHtml(id.value) + EmbedClose + caption.value)
  }

  /** The video view throws exactly for a nullish block, a truthy url that
      is not a string, or, once an id is found, a truthy caption that is not
      a string; as written and corrected alike. */
  lemma YouTubeEmbedFails(block: Value, query: string -> string)
    ensures YouTubeEmbedAsWritten(block, query).Err? <==>
      Nullish(block) || !Printable(Get(block, "url")) || (FindsId(block, query) && !Printable(Get(block, "caption")))
    ensures YouTubeEmbed(block, query).Err? <==>
      Nullish(block) || !Printable(Get(block, "url")) || (FindsId(block, query) && !Printable(Get(block, "caption")))
  {
    ExtractYouTubeIdFails(Or(Get(block, "url"), Str("")), query);
  }

  /** Whenever the pattern finds the id, the escaping changes nothing: the
      two embeds differ only for ids taken from the query string. */
  lemma YouTubeEmbedAgrees(block: Value, query: string -> string)
    requires !Nullish(block) && Get(block, "url").Str? && MatchFrom(Get(block, "url").s, 0).Some?
    ensures YouTubeEmbed(block, query) == YouTubeEmbedAsWritten(block, query)
  {
    var url := Get(block, "url");
    assert Or(url, Str("")) == url;
    var id := ExtractYouTubeId(url, query);
    IdNeedsNoEscape(id.value);
  }

  /** The video shows its placeholder exactly when no id is found, and
      otherwise a frame whose source holds the id, escaped, followed by the
      caption line when there is a caption. */
  lemma YouTubeParts(block: Value, query: string -> string) returns (id: string, caption: string)
    requires !Nullish(block) && Printable(Get(block, "url")) && Printable(Get(block, "caption"))
    ensures ExtractYouTubeId(Or(Get(block, "url"), Str("")), query) == Ok(id)
    ensures YouTubeEmbed(block, query) == Ok(VideoMissing) <==> id == ""
    ensures id != "" ==> YouTubeEmbed(block, query) == Ok(EmbedOpen + EscapeHtml(id) + EmbedClose + caption)
    ensures Carries(EscapeHtml(id), id)
    ensures caption == "" <==> !Truthy(Get(block, "caption"))
    ensures caption != "" ==> exists c :: caption == "<p class=\"muted\">" + c + "</p>" && Carries(c, Get(block, "caption").s)
  {
    var url := Or(Get(block, "url"), Str(""));
    id := ExtractYouTubeId(url, query).value;
    caption := VideoCaption(block).value;
    EscapeHtmlSafe(id);
    UnescapeEscape(id);
    EmbedNotMissing(EscapeHtml(id), caption);
  }

  lemma EmbedNotMissing(id: string, caption: string)
    ensures EmbedOpen + id + EmbedClose + caption != VideoMissing
  {
    assert (EmbedOpen + id + EmbedClose + caption)[12] == 'y' != VideoMissing[12];
  }

  /** An id taken from the query string reaches the frame's source as it
      is in the code, escaped in the corrected embed. */
  lemma YouTubeQueryRaw(block: Value, query: string -> string) returns (caption: string)
    requires !Nullish(block) && Get(block, "url").Str? && Get(block, "url").s != "" && Printable(Get(block, "caption"))
    requires MatchFrom(Get(block, "url").s, 0).None? && query(QueryOf(Get(block, "url").s)) != ""
    ensures YouTubeEmbedAsWritten(block, query) == Ok(EmbedOpen + query(QueryOf(Get(block, "url").s)) + EmbedClose + caption)
    ensures YouTubeEmbed(block, query) == Ok(EmbedOpen + EscapeHtml(query(QueryOf(Get(block, "url").s))) + EmbedClose + caption)
  {
    caption := VideoCaption(block).value;
  }

  /** No link shorter than twenty characters matches the pattern from any
      position on, so its id comes from the query string. */
  lemma {:induction false} ShortUrlNoMatch(s: string, i: nat)
    requires |s| < 20 && i <= |s|
    ensures MatchFrom(s, i).None?
    decreases |s| - i
  {
    if i < |s| {
      MatchAtShort(s, i);
      ShortUrlNoMatch(s, i + 1);
    }
  }

  /** The pattern needs at least twenty characters from where it starts. */
  lemma MatchAtShort(s: string, i: nat)
    requires |s| < i + 20
    ensures MatchAt(s, i).None?
  {
    PrefixLengths();
    assert !IdMatch(s, i, IdPrefixes[0]) && !IdMatch(s, i, IdPrefixes[1]);
    assert !IdMatch(s, i, IdPrefixes[2]) && !IdMatch(s, i, IdPrefixes[3]);
  }

  lemma PrefixLengths()
    ensures |IdPrefixes[0]| == 9 && |IdPrefixes[1]| == 20 && |IdPrefixes[2]| == 18 && |IdPrefixes[3]| == 19
  {
  }

  // ------------------------------------------------ renderBlockView

  /** The builder `renderBlockView` picks for each kind of block; the video
      and the link list are the builders as the code writes them. */
  function ViewOf(k: Blocks.Kind, block: Value, query: string -> string): (r: Result<string>)
    ensures r.Ok? ==> r.value != ""
  {
    match k
    case Text => TextBlockHtml(block)
    case Image => MediaImage(block)
    case Audio =>
      var audio := MediaAudio(block);
      if audio.Err? then audio else Ok("<div>" + audio.value + "</div>")
    case YouTube => YouTubeEmbedAsWritten(block, query)
    case Pdf => PdfViewer(block)
    case Quote => QuoteBlock(block)
    case Callout => CalloutBlock(block)
    case Gallery => GalleryBlock(block)
    case Links => LinksBlockAsWritten(block)
  }

  /** `renderBlockView(block)`: the builder of the block's type, and the
      Markdown of any other type. Every preview is non-empty. */
  function RenderBlockView(block: Value, query: string -> string): (r: Result<string>)
    ensures Nullish(block) ==> r.Err?
    ensures r.Ok? ==> r.value != ""
  {
    if Nullish(block) then Err(Blocks.TypeError)
    else
      match Blocks.KindOf(Get(block, "type"))
      case Some(k) => ViewOf(k, block, query)
      case None => MarkdownOf(Get(block, "markdown"))
  }

  const EmptyParagraph := "<p></p>"

  /** An empty or missing field renders as the empty paragraph. */
  lemma MarkdownOfBlank(v: Value)
    requires !Truthy(v)
    ensures MarkdownOf(v) == Ok(EmptyParagraph)
  {
    var s := Shown(v, "");
    var lines := SplitLines(EscapeHtml(s));
    assert EscapeHtml(s) == s;
    SplitLinesSingle(s);
    Markdown.FallbackExactlyWhenBlank(lines);
    assert AllSpace(lines[0]);
  }

  /** A quotation without text or citation shows the empty paragraph. */
  lemma QuoteBlank(block: Value)
    requires !Nullish(block) && !Truthy(Get(block, "text")) && !Truthy(Get(block, "cite"))
    ensures QuoteBlock(block) == Ok(Quotation(EmptyParagraph, ""))
  {
    MarkdownOfBlank(Get(block, "text"));
  }

  /** A callout without text shows the empty paragraph. */
  lemma CalloutBlank(block: Value)
    requires !Nullish(block) && !Truthy(Get(block, "text"))
    ensures CalloutBlock(block) == Ok(Callout(EmptyParagraph))
  {
    MarkdownOfBlank(Get(block, "text"));
  }

  /** A text block without Markdown or style fields shows the empty
      paragraph without a style. */
  lemma TextBlank(block: Value)
    requires !Nullish(block) && !Truthy(Get(block, "markdown"))
    requires Get(block, "fontChoice").Undefined? && Get(block, "fontSize").Undefined? && Get(block, "lineHeight").Undefined?
    requires Get(block, "textColor").Undefined? && Get(block, "align").Undefined?
    ensures TextBlockHtml(block) == Ok(TextDiv("", EmptyParagraph))
  {
    MarkdownOfBlank(Get(block, "markdown"));
    StyleUnset(block);
  }

  /** A block fresh from the palette shows its kind's placeholder: the
      media blocks their bracketed notice, the galleries and link lists
      theirs. */
  lemma NewImagePreview(id: string)
    ensures MediaImage(Blocks.NewBlock("image", id)) == Ok(ImageMissing)
  {
  }

  lemma NewAudioPreview(id: string)
    ensures MediaAudio(Blocks.NewBlock("audio", id)) == Ok(AudioMissing)
  {
  }

  lemma NewVideoPreview(id: string, query: string -> string)
    ensures YouTubeEmbedAsWritten(Blocks.NewBlock("youtube", id), query) == Ok(VideoMissing)
    ensures YouTubeEmbed(Blocks.NewBlock("youtube", id), query) == Ok(VideoMissing)
  {
  }

  lemma NewPdfPreview(id: string)
    ensures PdfViewer(Blocks.NewBlock("pdf", id)) == Ok(PdfMissing)
  {
  }

  lemma NewGalleryPreview(id: string)
    ensures GalleryBlock(Blocks.NewBlock("gallery", id)) == Ok(GalleryEmpty)
    ensures LinksBlockAsWritten(Blocks.NewBlock("links", id)) == Ok(NoLinks)
    ensures LinksBlock(Blocks.NewBlock("links", id)) == Ok(NoLinks)
  {
  }
}
