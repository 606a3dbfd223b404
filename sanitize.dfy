/** The editor's input sanitizers for text-block styles and image widths,
    the font table behind the font picker, the colour parser used for soft
    backgrounds, and the light/dark theme rotation. */
module Sanitize {
  import opened Wrappers
  import opened Strings
  import opened Numbers
  import opened JsMath
  import opened Json

  // ------------------------------------------------ sanitizeNumber

  /** The number `sanitizeNumber` prints for a finite input `x`: clamped to
      `[lo, hi]`, kept when it is an integer and otherwise rounded to
      hundredths by `Number(c.toFixed(2))`. */
  function Sanitized(x: Dec, lo: Dec, hi: Dec): Dec
  {
    var c := Clamp(Strip(x), Strip(lo), Strip(hi));
    if IsInteger(c) then c else Fixed2(c)
  }

  /** `sanitizeNumber(value, min, max)`: the empty string for `null`,
      `undefined`, `''` and anything `Number` does not read as a finite
      number; otherwise the printed sanitized number. */
  function SanitizeNumber(value: Value, min: Dec, max: Dec): string
  {
    if value.Null? || value.Undefined? || value == Str("") then ""
    else
      var n := ToNumber(value);
      if n.NonFinite? then "" else NumberToString(Sanitized(n.d, min, max))
  }

  /** The bounds the editor passes: written canonically with at most two
      decimals, and in order (10–100, 0.6–3 and 1–3). */
  predicate Bounds(min: Dec, max: Dec)
  {
    Canonical(min) && Canonical(max) && Hundredths(min) && Hundredths(max) && Le(min, max)
  }

  lemma {:induction false} NumberToStringNonEmpty(d: Dec)
    ensures NumberToString(d) != ""
  {
  }

  /** The sanitizer gives nothing exactly for the excluded inputs and the
      ones that are not finite numbers. */
  lemma SanitizeNumberEmpty(value: Value, min: Dec, max: Dec)
    ensures SanitizeNumber(value, min, max) == "" <==>
      (value.Null? || value.Undefined? || value == Str("") || ToNumber(value).NonFinite?)
  {
    if ToNumber(value).Finite? {
      NumberToStringNonEmpty(Sanitized(ToNumber(value).d, min, max));
    }
  }

  /** The sanitized number is canonical and lies within the bounds. */
  lemma SanitizedInRange(x: Dec, min: Dec, max: Dec)
    requires Bounds(min, max)
    ensures Canonical(Sanitized(x, min, max))
    ensures Le(min, Sanitized(x, min, max)) && Le(Sanitized(x, min, max), max)
  {
    var c := Clamp(Strip(x), min, max);
    if !IsInteger(c) {
      Fixed2InRange(c, min, max);
      Fixed2Shape(c);
    }
  }

  /** What the sanitizer prints reads back, through `Number`, as a number
      between `min` and `max`. */
  lemma SanitizeNumberInRange(value: Value, min: Dec, max: Dec)
    requires Bounds(min, max)
    requires SanitizeNumber(value, min, max) != ""
    ensures StringToNumber(SanitizeNumber(value, min, max)).Finite?
    ensures Le(min, StringToNumber(SanitizeNumber(value, min, max)).d)
    ensures Le(StringToNumber(SanitizeNumber(value, min, max)).d, max)
  {
    var s := Sanitized(ToNumber(value).d, min, max);
    SanitizedInRange(ToNumber(value).d, min, max);
    NumberRoundTrip(s);
  }

  /** Sanitizing a sanitized number changes nothing. */
  lemma SanitizedIdempotent(x: Dec, min: Dec, max: Dec)
    requires Bounds(min, max)
    ensures Sanitized(Sanitized(x, min, max), min, max) == Sanitized(x, min, max)
  {
    var c := Clamp(Strip(x), min, max);
    var s := Sanitized(x, min, max);
    SanitizedInRange(x, min, max);
    assert Clamp(Strip(s), min, max) == s;
    if !IsInteger(c) && !IsInteger(s) && Fixed2(c) != c {
      Fixed2Shape(c);
      Round2OfHundredths(s);
    }
  }

  /** Feeding the sanitizer's own output back in gives the same text: the
      value an edit stores is stable under the normalization that reloads it. */
  lemma SanitizeNumberIdempotent(value: Value, min: Dec, max: Dec)
    requires Bounds(min, max)
    ensures SanitizeNumber(Str(SanitizeNumber(value, min, max)), min, max) == SanitizeNumber(value, min, max)
  {
    if SanitizeNumber(value, min, max) != "" {
      var x := ToNumber(value).d;
      assert SanitizeNumber(value, min, max) == NumberToString(Sanitized(x, min, max));
      ReprintSanitized(x, min, max);
    }
  }

  lemma ReprintSanitized(x: Dec, min: Dec, max: Dec)
    requires Bounds(min, max)
    ensures SanitizeNumber(Str(NumberToString(Sanitized(x, min, max))), min, max) == NumberToString(Sanitized(x, min, max))
  {
    var s := Sanitized(x, min, max);
    SanitizedInRange(x, min, max);
    NumberRoundTrip(s);
    NumberToStringNonEmpty(s);
    assert ToNumber(Str(NumberToString(s))) == Finite(s);
    SanitizedIdempotent(x, min, max);
  }

  /** A canonical number already in range with at most two decimals is
      printed unchanged. */
  lemma SanitizeNumberKeeps(d: Dec, min: Dec, max: Dec)
    requires Bounds(min, max)
    requires Canonical(d) && Hundredths(d) && Le(min, d) && Le(d, max)
    ensures SanitizeNumber(Num(d), min, max) == NumberToString(d)
  {
    Round2OfHundredths(d);
  }

  // ------------------------------------------------ sanitizeColor and hexToRgb

  predicate IsHexDigit(c: char)
  {
    HexValue(c) >= 0
  }

  predicate HexFrom(t: string, i: nat)
  {
    forall k :: i <= k < |t| ==> IsHexDigit(t[k])
  }

  /** `#rgb`. */
  predicate ShortHex(t: string)
  {
    |t| == 4 && t[0] == '#' && HexFrom(t, 1)
  }

  /** `#rrggbb`. */
  predicate FullHex(t: string)
  {
    |t| == 7 && t[0] == '#' && HexFrom(t, 1)
  }

  /** `sanitizeColor`: a string that, trimmed, is `#` and three or six hex
      digits in either case is kept trimmed; anything else is dropped. */
  function SanitizeColor(v: Value): (r: string)
    ensures r == "" || ShortHex(r) || FullHex(r)
    ensures v.Str? && (ShortHex(Trim(v.s)) || FullHex(Trim(v.s))) ==> r == Trim(v.s)
    ensures r != "" ==> v.Str? && r == Trim(v.s)
  {
    if !v.Str? then ""
    else
      var t := Trim(v.s);
      if t != "" && (ShortHex(t) || FullHex(t)) then t else ""
  }

  lemma SanitizeColorIdempotent(v: Value)
    ensures SanitizeColor(Str(SanitizeColor(v))) == SanitizeColor(v)
  {
    if v.Str? {
      TrimIdempotent(v.s);
    }
  }

  datatype Rgb = Rgb(r: nat, g: nat, b: nat)

  /** `#rgb` written out as `#rrggbb`. */
  function Expand(t: string): (f: string)
    requires ShortHex(t)
    ensures FullHex(f)
  {
    ['#', t[1], t[1], t[2], t[2], t[3], t[3]]
  }

  /** `parseInt(xy, 16)` of two hex digits. */
  function Channel(x: char, y: char): (n: nat)
    requires IsHexDigit(x) && IsHexDigit(y)
    ensures n < 256
  {
    16 * HexValue(x) + HexValue(y)
  }

  /** `hexToRgb`: the channels of a trimmed `#rgb` or `#rrggbb` string. */
  function HexToRgb(v: Value): (c: Option<Rgb>)
    ensures c.Some? ==> c.value.r < 256 && c.value.g < 256 && c.value.b < 256
  {
    if !v.Str? then None
    else
      var hex := Trim(v.s);
      var full := if ShortHex(hex) then Expand(hex) else hex;
      if FullHex(full) then Some(Rgb(Channel(full[1], full[2]), Channel(full[3], full[4]), Channel(full[5], full[6])))
      else None
  }

  /** A channel is the two-digit hex numeral, as the radix reader reads it. */
  lemma ChannelIsRadix(x: char, y: char)
    requires IsHexDigit(x) && IsHexDigit(y)
    ensures RadixDigits([x, y], 16) && Channel(x, y) == RadixValue([x, y], 16, 2)
  {
    assert RadixValue([x, y], 16, 1) == HexValue(x);
  }

  /** The sanitizer accepts a colour exactly when the parser reads it. */
  lemma SanitizeColorParses(v: Value)
    ensures SanitizeColor(v) != "" <==> HexToRgb(v).Some?
  {
  }

  /** A shorthand colour has the channels of its long form. */
  lemma ShorthandChannels(t: string)
    requires ShortHex(t)
    ensures HexToRgb(Str(t)) == HexToRgb(Str(Expand(t)))
  {
    TrimIdentity(t);
    TrimIdentity(Expand(t));
  }

  // ------------------------------------------------ the editor's bounds

  /** The bounds the editor uses: font size 0.6–3 rem, line height 1–3,
      image width 10–100 per cent. */
  const FontSizeMin := Dec(6, -1)
  const FontSizeMax := Dec(3, 0)
  const LineHeightMin := Dec(1, 0)
  const LineHeightMax := Dec(3, 0)
  const WidthMin := Dec(1, 1)
  const WidthMax := Dec(1, 2)

  /** The bounds of the numeric style fields and of the image width. */
  lemma StyleBounds()
    ensures Bounds(FontSizeMin, FontSizeMax)
    ensures Bounds(LineHeightMin, LineHeightMax)
    ensures Bounds(WidthMin, WidthMax)
  {
  }

  /** A string that reads back as a number between the bounds. */
  predicate InRange(s: string, lo: Dec, hi: Dec)
  {
    StringToNumber(s).Finite? && Le(lo, StringToNumber(s).d) && Le(StringToNumber(s).d, hi)
  }

  // ------------------------------------------------ sanitizeAlign

  predicate IsAlign(s: string)
  {
    s == "left" || s == "center" || s == "right" || s == "justify"
  }

  /** `sanitizeAlign`: one of the four alignments, unchanged, or nothing. */
  function SanitizeAlign(v: Value): (r: string)
    ensures r == "" || IsAlign(r)
    ensures r != "" <==> v.Str? && IsAlign(v.s)
    ensures r != "" ==> v == Str(r)
  {
    if v.Str? && IsAlign(v.s) then v.s else ""
  }

  lemma SanitizeAlignIdempotent(v: Value)
    ensures SanitizeAlign(Str(SanitizeAlign(v))) == SanitizeAlign(v)
  {
  }

  // ------------------------------------------------ the font table

  /** An entry of the text-block font table: its key and its CSS family list. */
  datatype FontOption = FontOption(value: string, css: string)

  /** The system-font stack appended to the web fonts. */
  const FontFallback: string := "system-ui, -apple-system, BlinkMacSystemFont, \"Segoe UI\", sans-serif"

  const FontChoices: seq<FontOption> := [
    FontOption("inherit", "inherit"),
    FontOption("inter", "'Inter', " + FontFallback),
    FontOption("lato", "'Lato', " + FontFallback),
    FontOption("merriweather", "'Merriweather', Georgia, \"Times New Roman\", serif"),
    FontOption("montserrat", "'Montserrat', " + FontFallback),
    FontOption("serif", "Georgia, 'Times New Roman', serif"),
    FontOption("mono", "'Source Code Pro', 'Courier New', monospace")
  ]

  /** The first entry from `k` on whose key is strictly equal to `v`. */
  function FindFrom(v: Value, k: nat): (r: Option<nat>)
    requires k <= |FontChoices|
    ensures r.Some? ==> k <= r.value < |FontChoices| && v == Str(FontChoices[r.value].value)
    ensures r.None? ==> forall i :: k <= i < |FontChoices| ==> v != Str(FontChoices[i].value)
    decreases |FontChoices| - k
  {
    if k == |FontChoices| then None
    else if v == Str(FontChoices[k].value) then Some(k)
    else FindFrom(v, k + 1)
  }

  /** `TEXT_FONT_CHOICES.find(option => option.value === v)`. */
  function FindChoice(v: Value): Option<nat>
  {
    FindFrom(v, 0)
  }

  predicate IsFontKey(s: string)
  {
    exists i :: 0 <= i < |FontChoices| && FontChoices[i].value == s
  }

  /** `sanitizeFontChoice`: a key of the table, the given one when it is one. */
  function SanitizeFontChoice(v: Value): (r: string)
    ensures IsFontKey(r)
    ensures v.Str? && IsFontKey(v.s) ==> r == v.s
    ensures !(v.Str? && IsFontKey(v.s)) ==> r == "inherit"
  {
    var found := FindChoice(v);
    assert FontChoices[0].value == "inherit";
    if found.Some? then FontChoices[found.value].value else "inherit"
  }

  lemma SanitizeFontChoiceIdempotent(v: Value)
    ensures SanitizeFontChoice(Str(SanitizeFontChoice(v))) == SanitizeFontChoice(v)
  {
  }

  /** `fontChoiceToCss`: the CSS family list of a known key, and nothing for
      `inherit` or an unknown key. */
  function FontChoiceToCss(choice: Value): (r: Option<string>)
    ensures r.Some? <==> choice.Str? && IsFontKey(choice.s) && choice.s != "inherit"
    ensures r.Some? ==> exists i :: 0 <= i < |FontChoices| && FontChoices[i] == FontOption(choice.s, r.value)
  {
    var found := FindChoice(choice);
    if found.None? then None
    else if FontChoices[found.value].value == "inherit" then None
    else Some(FontChoices[found.value].css)
  }

  /** Sanitizing a font choice first does not change the CSS it selects. */
  lemma FontCssAfterSanitize(v: Value)
    ensures FontChoiceToCss(Str(SanitizeFontChoice(v))) == FontChoiceToCss(v)
  {
    if !(v.Str? && IsFontKey(v.s)) {
      assert FontChoices[0].value == "inherit";
    }
  }

  /** The web sans-serif fonts fall back on the system stack. */
  lemma SansFallBack(key: string)
    requires key == "inter" || key == "lato" || key == "montserrat"
    ensures FontChoiceToCss(Str(key)).Some?
    ensures IsSuffix(FontFallback, FontChoiceToCss(Str(key)).value)
  {
    assert FontChoices[1].value == "inter" && FontChoices[2].value == "lato" && FontChoices[4].value == "montserrat";
  }

  predicate IsSuffix(a: string, s: string)
  {
    |a| <= |s| && s[|s| - |a|..] == a
  }

  // ------------------------------------------------ the theme rotation

  const Modes: seq<string> := ["auto", "light", "dark"]

  /** `Modes.indexOf(v)`: strict equality, -1 when absent. */
  function ModeIndex(v: Value): (i: int)
    ensures -1 <= i < |Modes|
    ensures i >= 0 ==> v == Str(Modes[i])
    ensures i == -1 <==> !(v.Str? && v.s in Modes)
  {
    if v == Str("auto") then 0 else if v == Str("light") then 1 else if v == Str("dark") then 2 else -1
  }

  /** The theme button: the mode after `mode || 'auto'` in the rotation
      auto, light, dark; an unknown mode restarts at `auto`. */
  function NextMode(mode: Value): (r: string)
    ensures r in Modes
  {
    Modes[(ModeIndex(Or(mode, Str("auto"))) + 1) % |Modes|]
  }

  /** Three presses bring every mode back; an unset mode counts as `auto`. */
  lemma NextModeCycles(m: string)
    requires m in Modes
    ensures NextMode(Str(NextMode(Str(NextMode(Str(m)))))) == m
  {
  }

  lemma NextModeSteps()
    ensures NextMode(Str("auto")) == "light" && NextMode(Str("light")) == "dark" && NextMode(Str("dark")) == "auto"
    ensures NextMode(Undefined) == "light" && NextMode(Str("sepia")) == "auto"
  {
  }
}
