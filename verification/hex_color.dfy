/** The client's colour heuristic `isDark`: cut the three two-character
    channels out of a `#RRGGBB` string, read each with `parseInt(_, 16)`, and
    call the colour dark when its weighted luminance is below 128. The
    luminance test is kept in integers, scaled by 1000. */
module HexColor {
  import opened Wrappers
  import JsString

  predicate IsHexDigit(c: char) {
    '0' <= c <= '9' || 'a' <= c <= 'f' || 'A' <= c <= 'F'
  }

  predicate AllHexDigits(s: string) {
    forall i :: 0 <= i < |s| ==> IsHexDigit(s[i])
  }

  /** The value of one hexadecimal digit, either case. */
  function DigitValue(c: char): (v: nat)
    requires IsHexDigit(c)
    ensures v < 16
    ensures v < 10 <==> '0' <= c <= '9'
  {
    if '0' <= c <= '9' then (c - '0') as nat
    else if 'a' <= c <= 'f' then (c - 'a') as nat + 10
    else (c - 'A') as nat + 10
  }

  /** The digit alphabets `parseInt` uses for radix 16, lowest value first. */
  const LowerDigits := "0123456789abcdef"
  const UpperDigits := "0123456789ABCDEF"

  /** Every digit is worth its position in either alphabet: `0`-`9` are 0-9,
      and `a`-`f` and `A`-`F` alike are 10-15. */
  lemma DigitValues()
    ensures forall v :: 0 <= v < 16 ==> IsHexDigit(LowerDigits[v]) && DigitValue(LowerDigits[v]) == v
    ensures forall v :: 0 <= v < 16 ==> IsHexDigit(UpperDigits[v]) && DigitValue(UpperDigits[v]) == v
  {
  }

  function Pow16(n: nat): (p: nat)
    ensures p >= 1
  {
    if n == 0 then 1 else 16 * Pow16(n - 1)
  }

  /** The number a string of hexadecimal digits denotes, most significant
      digit first. */
  function DigitsValue(d: string): (v: nat)
    requires AllHexDigits(d)
    ensures v < Pow16(|d|)
    decreases |d|
  {
    if d == [] then 0
    else
      var init := DigitsValue(d[..|d| - 1]);
      var last := DigitValue(d[|d| - 1]);
      assert init * 16 + last < Pow16(|d| - 1) * 16 by {
        assert init + 1 <= Pow16(|d| - 1);
        assert (init + 1) * 16 <= Pow16(|d| - 1) * 16;
      }
      init * 16 + last
  }

  /** The longest prefix of `s` made of hexadecimal digits: where `parseInt`
      stops reading. */
  function LeadingDigits(s: string): (p: string)
    ensures |p| <= |s| && p == s[..|p|]
    ensures AllHexDigits(p)
    ensures |p| == |s| || !IsHexDigit(s[|p|])
    decreases |s|
  {
    if s == [] || !IsHexDigit(s[0]) then []
    else [s[0]] + LeadingDigits(s[1..])
  }

  /** The text after an optional leading `-` or `+`. */
  function DropSign(t: string): (u: string)
    ensures |u| <= |t|
    ensures t == [] || (t[0] != '-' && t[0] != '+') ==> u == t
  {
    if |t| > 0 && (t[0] == '-' || t[0] == '+') then t[1..] else t
  }

  /** The text after an optional `0x` or `0X`, which `parseInt` accepts when
      the radix is 16. */
  function DropHexPrefix(u: string): (w: string)
    ensures |w| <= |u|
    ensures |u| < 2 || (u[1] != 'x' && u[1] != 'X') ==> w == u
  {
    if |u| >= 2 && u[0] == '0' && (u[1] == 'x' || u[1] == 'X') then u[2..] else u
  }

  /** `parseInt(s, 16)`: skip leading whitespace, take an optional sign, then
      an optional `0x`/`0X` prefix, then read the longest run of hexadecimal
      digits. No digit at all is `NaN`, here `None`. */
  function ParseHex(s: string): (r: Option<int>)
    ensures r.Some? ==> |s| > 0
    ensures r.Some? ==> -(Pow16(|s|) as int) < r.value < Pow16(|s|)
  {
    var t := JsString.TrimStart(s);
    var z := LeadingDigits(DropHexPrefix(DropSign(t)));
    if z == [] then None
    else
      var v: int := DigitsValue(z);
      PowMonotone(|z|, |s|);
      Some(if |t| > 0 && t[0] == '-' then -v else v)
  }

  lemma {:induction false} PowMonotone(m: nat, n: nat)
    requires m <= n
    ensures Pow16(m) <= Pow16(n)
    decreases n
  {
    if m < n {
      PowMonotone(m, n - 1);
    }
  }

  /** `isDark(hexColor)`. A channel that reads as `NaN` makes the luminance
      `NaN`, and `NaN < 128` is false, so such a colour is never dark; in
      particular a colour shorter than six characters, such as `#000`, has an
      empty last channel and is never dark. */
  function IsDark(hex: string): (dark: bool)
    ensures dark ==> && ParseHex(JsString.Slice(hex, 1, 3)).Some?
                     && ParseHex(JsString.Slice(hex, 3, 5)).Some?
                     && ParseHex(JsString.Slice(hex, 5, 7)).Some?
    ensures dark ==> |hex| >= 6
  {
    var r, g, b := ParseHex(JsString.Slice(hex, 1, 3)),
                   ParseHex(JsString.Slice(hex, 3, 5)),
                   ParseHex(JsString.Slice(hex, 5, 7));
    r.Some? && g.Some? && b.Some? && 299 * r.value + 587 * g.value + 114 * b.value < 128000
  }

  /** Seven characters whose last six are hexadecimal digits: the shape
      `#RRGGBB` that `isDark` is written for. The first character is skipped
      by the code and may be anything. */
  predicate IsHexColor(hex: string) {
    |hex| == 7 && forall i :: 1 <= i < 7 ==> IsHexDigit(hex[i])
  }

  /** The channel stored in the two digits at `hex[i]` and `hex[i + 1]`. */
  function Channel(hex: string, i: nat): (v: nat)
    requires IsHexColor(hex) && (i == 1 || i == 3 || i == 5)
    ensures v <= 255
  {
    16 * DigitValue(hex[i]) + DigitValue(hex[i + 1])
  }

  /** A string of hexadecimal digits is read whole. */
  lemma {:induction false} LeadingDigitsOfDigits(d: string)
    requires AllHexDigits(d)
    ensures LeadingDigits(d) == d
    decreases |d|
  {
    if d != [] {
      LeadingDigitsOfDigits(d[1..]);
    }
  }

  /** A non-empty string of hexadecimal digits has no leading whitespace, sign
      or `0x` prefix, so `parseInt` reads it as the number it denotes. */
  lemma ParseDigits(d: string)
    requires AllHexDigits(d) && |d| > 0
    ensures ParseHex(d) == Some(DigitsValue(d))
  {
    DigitsUntouched(d);
    LeadingDigitsOfDigits(d);
    var r := ParseHex(d);
    assert r.Some? && r.value == DigitsValue(d);
  }

  /** A string of hexadecimal digits has no leading blanks, sign or `0x`. */
  lemma DigitsUntouched(d: string)
    requires AllHexDigits(d) && |d| > 0
    ensures DropHexPrefix(DropSign(JsString.TrimStart(d))) == d
  {
    assert IsHexDigit(d[0]) && !JsString.IsWhitespace(d[0]);
    assert JsString.TrimStart(d) == d;
    assert DropSign(d) == d;
    assert |d| >= 2 ==> IsHexDigit(d[1]);
  }

  /** Two hexadecimal digits read as one byte, high digit first. */
  lemma ParseTwoDigits(d: string)
    requires |d| == 2 && AllHexDigits(d)
    ensures ParseHex(d) == Some(16 * DigitValue(d[0]) + DigitValue(d[1]))
  {
    ParseDigits(d);
    TwoDigitsValue(d);
    var r := ParseHex(d);
    assert r.Some? && r.value == 16 * DigitValue(d[0]) + DigitValue(d[1]);
  }

  lemma TwoDigitsValue(d: string)
    requires |d| == 2 && AllHexDigits(d)
    ensures DigitsValue(d) == 16 * DigitValue(d[0]) + DigitValue(d[1])
  {
    var hi := d[..1];
    assert hi[0] == d[0] && hi[..0] == [];
  }

  /** On a well-formed colour the channel starting at `hex[i]` parses to the
      byte its two digits spell. */
  lemma ChannelParses(hex: string, i: nat)
    requires IsHexColor(hex) && (i == 1 || i == 3 || i == 5)
    ensures ParseHex(JsString.Slice(hex, i, i + 2)) == Some(Channel(hex, i))
  {
    var d := JsString.Slice(hex, i, i + 2);
    assert d == hex[i..i + 2];
    assert d[0] == hex[i] && d[1] == hex[i + 1];
    ParseTwoDigits(d);
    var r := ParseHex(d);
    assert r.Some? && r.value == Channel(hex, i);
  }

  /** `isDark` compares the scaled luminance of whatever the three channels
      read as. */
  lemma IsDarkOfChannels(hex: string, r: int, g: int, b: int)
    requires ParseHex(JsString.Slice(hex, 1, 3)) == Some(r)
    requires ParseHex(JsString.Slice(hex, 3, 5)) == Some(g)
    requires ParseHex(JsString.Slice(hex, 5, 7)) == Some(b)
    ensures IsDark(hex) <==> 299 * r + 587 * g + 114 * b < 128000
  {
  }

  /** On a well-formed colour `isDark` is exactly the scaled luminance test. */
  lemma IsDarkExact(hex: string)
    requires IsHexColor(hex)
    ensures IsDark(hex) <==>
              299 * Channel(hex, 1) + 587 * Channel(hex, 3) + 114 * Channel(hex, 5) < 128000
  {
    ChannelParses(hex, 1);
    ChannelParses(hex, 3);
    ChannelParses(hex, 5);
    IsDarkOfChannels(hex, Channel(hex, 1), Channel(hex, 3), Channel(hex, 5));
  }

  /** Black is dark. */
  lemma BlackIsDark()
    ensures IsDark("#000000")
  {
    var black := "#000000";
    assert IsHexColor(black);
    assert Channel(black, 1) == 0 && Channel(black, 3) == 0 && Channel(black, 5) == 0;
    IsDarkExact(black);
  }

  /** White is not dark. */
  lemma WhiteIsNotDark()
    ensures !IsDark("#ffffff")
  {
    var white := "#ffffff";
    assert IsHexColor(white);
    assert Channel(white, 1) == 255 && Channel(white, 3) == 255 && Channel(white, 5) == 255;
    IsDarkExact(white);
  }

  /** The client starts with the colour "", whose channels are all `NaN`. */
  lemma EmptyIsNotDark()
    ensures !IsDark("")
  {
  }
}
