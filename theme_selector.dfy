/** components/ThemeSelector.tsx: the `#RRGGBB` format gate, the hex-channel arithmetic of
    `adjustBrightness`, and the selector's state (chosen colour, CSS variables, saved colour). */
module ThemeSelector {
  import opened Wrappers

  // ---------------------------------------------------------------------------------------
  // Hexadecimal digits

  predicate IsHexDigit(c: char) {
    '0' <= c <= '9' || 'a' <= c <= 'f' || 'A' <= c <= 'F'
  }

  /** What `Number.prototype.toString(16)` writes. */
  predicate IsLowerHexDigit(c: char) {
    '0' <= c <= '9' || 'a' <= c <= 'f'
  }

  function DigitValue(c: char): (v: nat)
    requires IsHexDigit(c)
    ensures v < 16
  {
    if '0' <= c <= '9' then c as nat - '0' as nat
    else if 'a' <= c <= 'f' then c as nat - 'a' as nat + 10
    else c as nat - 'A' as nat + 10
  }

  function LowerDigit(v: nat): (c: char)
    requires v < 16
    ensures IsLowerHexDigit(c) && DigitValue(c) == v
  {
    if v < 10 then ('0' as nat + v) as char else ('a' as nat + v - 10) as char
  }

  predicate AllHex(s: string) {
    forall k :: 0 <= k < |s| ==> IsHexDigit(s[k])
  }

  predicate AllLowerHex(s: string) {
    forall k :: 0 <= k < |s| ==> IsLowerHexDigit(s[k])
  }

  /** `parseInt(s, 16)` on a string made only of hex digits. */
  function HexValue(s: string): nat
    requires AllHex(s)
  {
    if s == [] then 0 else HexValue(s[..|s| - 1]) * 16 + DigitValue(s[|s| - 1])
  }

  function Pow16(n: nat): (p: nat)
    ensures p >= 1
  {
    if n == 0 then 1 else 16 * Pow16(n - 1)
  }

  /** A string of `n` hex digits denotes a number below `16^n`. */
  lemma {:induction false} HexValueBound(s: string)
    requires AllHex(s)
    ensures HexValue(s) < Pow16(|s|)
  {
    if s != [] {
      HexValueBound(s[..|s| - 1]);
    }
  }

  /** Reading `a + b` reads `a`, shifts it past `b`'s digits, and adds `b`. */
  lemma {:induction false} HexValueConcat(a: string, b: string)
    requires AllHex(a) && AllHex(b)
    ensures AllHex(a + b) && HexValue(a + b) == HexValue(a) * Pow16(|b|) + HexValue(b)
  {
    assert AllHex(a + b) by {
      forall k | 0 <= k < |a + b| ensures IsHexDigit((a + b)[k]) {
        if k < |a| { assert (a + b)[k] == a[k]; } else { assert (a + b)[k] == b[k - |a|]; }
      }
    }
    if b == [] {
      assert a + b == a;
    } else {
      var b' := b[..|b| - 1];
      assert (a + b)[..|a + b| - 1] == a + b';
      assert (a + b)[|a + b| - 1] == b[|b| - 1];
      HexValueConcat(a, b');
      calc {
        HexValue(a + b);
        HexValue(a + b') * 16 + DigitValue(b[|b| - 1]);
        (HexValue(a) * Pow16(|b'|) + HexValue(b')) * 16 + DigitValue(b[|b| - 1]);
        { MulAssoc16(HexValue(a), Pow16(|b'|)); }
        HexValue(a) * Pow16(|b|) + HexValue(b);
      }
    }
  }

  lemma MulAssoc16(x: nat, y: nat)
    ensures x * y * 16 == x * (16 * y)
  {
  }

  /** Leading zeros do not change the number. */
  lemma ZerosValue(z: string, s: string)
    requires forall k :: 0 <= k < |z| ==> z[k] == '0'
    requires AllHex(s)
    ensures AllHex(z + s) && HexValue(z + s) == HexValue(s)
  {
    assert AllHex(z) && AllHex(z + s) by {
      forall k | 0 <= k < |z + s| ensures IsHexDigit((z + s)[k]) {
        if k < |z| { assert (z + s)[k] == z[k]; } else { assert (z + s)[k] == s[k - |z|]; }
      }
    }
    ZerosAreZero(z);
    HexValueConcat(z, s);
  }

  lemma {:induction false} ZerosAreZero(z: string)
    requires forall k :: 0 <= k < |z| ==> z[k] == '0'
    ensures AllHex(z) && HexValue(z) == 0
  {
    if z != [] {
      ZerosAreZero(z[..|z| - 1]);
    }
  }

  /** Two lower-case hex strings of one length that denote the same number are equal. */
  lemma {:induction false} LowerHexUnique(a: string, b: string)
    requires |a| == |b| && AllLowerHex(a) && AllLowerHex(b)
    requires AllHex(a) && AllHex(b) && HexValue(a) == HexValue(b)
    ensures a == b
  {
    if a != [] {
      var a', b' := a[..|a| - 1], b[..|b| - 1];
      var da, db := DigitValue(a[|a| - 1]), DigitValue(b[|b| - 1]);
      DivMod16(HexValue(a'), da);
      DivMod16(HexValue(b'), db);
      LowerDigitUnique(a[|a| - 1], b[|b| - 1]);
      LowerHexUnique(a', b');
      assert a == a' + [a[|a| - 1]];
      assert b == b' + [b[|b| - 1]];
    }
  }

  lemma DivMod16(p: nat, d: nat)
    requires d < 16
    ensures (p * 16 + d) / 16 == p && (p * 16 + d) % 16 == d
  {
  }

  lemma LowerDigitUnique(c: char, d: char)
    requires IsLowerHexDigit(c) && IsLowerHexDigit(d) && DigitValue(c) == DigitValue(d)
    ensures c == d
  {
  }

  // ---------------------------------------------------------------------------------------
  // toString(16) and padStart

  /** `n.toString(16)`: lower-case digits, no leading zeros, `"0"` for zero. */
  function ToHex(n: nat): (s: string)
    ensures s != [] && AllLowerHex(s) && AllHex(s)
  {
    if n < 16 then [LowerDigit(n)] else ToHex(n / 16) + [LowerDigit(n % 16)]
  }

  /** `ToHex` is read back by `parseInt(_, 16)`. */
  lemma {:induction false} ToHexValue(n: nat)
    ensures HexValue(ToHex(n)) == n
  {
    if n >= 16 {
      ToHexValue(n / 16);
      var s := ToHex(n);
      assert s[..|s| - 1] == ToHex(n / 16);
    }
  }

  /** A number below `16^k` needs at most `k` digits. */
  lemma {:induction false} ToHexLength(n: nat, k: nat)
    requires n < Pow16(k)
    ensures |ToHex(n)| <= if k == 0 then 1 else k
  {
    assert Pow16(0) == 1 && Pow16(1) == 16;
    if n >= 16 {
      ToHexLength(n / 16, k - 1);
    }
  }

  /** `s.padStart(width, '0')` */
  function PadStart(s: string, width: nat): (r: string)
    ensures |r| == if |s| < width then width else |s|
  {
    if |s| < width then seq(width - |s|, _ => '0') + s else s
  }

  /** `padStart` keeps its input as the suffix and adds only `0`s in front of it. */
  lemma PadStartAddsZeros(s: string, width: nat)
    ensures PadStart(s, width)[|PadStart(s, width)| - |s|..] == s
    ensures forall k :: 0 <= k < |PadStart(s, width)| - |s| ==> PadStart(s, width)[k] == '0'
  {
  }

  /** `'#' + n.toString(16).padStart(6, '0')` for `n` below `0x1000000`. */
  function HexColorOf(n: nat): (c: string)
    requires n < 0x100_0000
    ensures IsLowerHexColor(c) && HexValue(c[1..]) == n
  {
    ToHexLength(n, 6);
    assert Pow16(6) == 0x100_0000;
    var digits := ToHex(n);
    ToHexValue(n);
    var padded := PadStart(digits, 6);
    ZerosValue(seq(6 - |digits|, _ => '0'), digits);
    var c := "#" + padded;
    assert c[1..] == padded;
    assert AllLowerHex(padded) by {
      forall k | 0 <= k < 6 ensures IsLowerHexDigit(padded[k]) {
        if k < 6 - |digits| {
        } else {
          assert padded[k] == digits[k - (6 - |digits|)];
        }
      }
    }
    c
  }

  // ---------------------------------------------------------------------------------------
  // The colour format

  /** `/^#[0-9A-Fa-f]{6}$/.test(color)` */
  predicate IsHexColor(color: string) {
    |color| == 7 && color[0] == '#' && AllHex(color[1..])
  }

  predicate IsLowerHexColor(color: string) {
    IsHexColor(color) && AllLowerHex(color[1..])
  }

  /** `parseInt(color.replace('#', ''), 16)` */
  function ColorValue(color: string): (n: nat)
    requires IsHexColor(color)
    ensures n < 0x100_0000
  {
    HexValueBound(color[1..]);
    assert Pow16(6) == 0x100_0000;
    HexValue(color[1..])
  }

  /** `num >> 16`, `(num >> 8) & 0xff` and `num & 0xff`: on a 24-bit value the shifts and masks
      are divisions and remainders by powers of two. */
  function Red(color: string): nat requires IsHexColor(color) { ColorValue(color) / 0x1_0000 }
  function Green(color: string): nat requires IsHexColor(color) { ColorValue(color) / 0x100 % 0x100 }
  function Blue(color: string): nat requires IsHexColor(color) { ColorValue(color) % 0x100 }

  function Clamp(x: int): (c: nat)
    ensures c <= 255
    ensures 0 <= x <= 255 ==> c == x
    ensures x < 0 ==> c == 0
    ensures x > 255 ==> c == 255
  {
    if x < 0 then 0 else if x > 255 then 255 else x
  }

  // ---------------------------------------------------------------------------------------
  // adjustBrightness

  /** `adjustBrightness(color, percent)`: add `percent` to each channel, clamp to 0..255, and
      write the result back as `#` and six lower-case digits. `(r << 16) | (g << 8) | b` is
      `r * 0x10000 + g * 0x100 + b` because each channel is below 0x100. */
  function AdjustBrightness(color: string, percent: int): (r: string)
    requires IsHexColor(color)
    ensures IsLowerHexColor(r)
    ensures Red(r) == Clamp(Red(color) + percent)
    ensures Green(r) == Clamp(Green(color) + percent)
    ensures Blue(r) == Clamp(Blue(color) + percent)
  {
    var red := Clamp(Red(color) + percent);
    var green := Clamp(Green(color) + percent);
    var blue := Clamp(Blue(color) + percent);
    var n := red * 0x1_0000 + green * 0x100 + blue;
    var c := HexColorOf(n);
    ChannelsOf(red, green, blue);
    c
  }

  lemma ChannelsOf(red: nat, green: nat, blue: nat)
    requires red < 0x100 && green < 0x100 && blue < 0x100
    ensures var n := red * 0x1_0000 + green * 0x100 + blue;
      n / 0x1_0000 == red && n / 0x100 % 0x100 == green && n % 0x100 == blue
  {
    var n := red * 0x1_0000 + green * 0x100 + blue;
    assert n == (red * 0x100 + green) * 0x100 + blue;
    DivModBase(red * 0x100 + green, blue);
    DivModBase(red, green);
    assert n / 0x1_0000 == n / 0x100 / 0x100;
  }

  lemma DivModBase(p: nat, d: nat)
    requires d < 0x100
    ensures (p * 0x100 + d) / 0x100 == p && (p * 0x100 + d) % 0x100 == d
  {
  }

  /** The lower-case spelling of a colour. */
  function LowerColor(color: string): (r: string)
    requires IsHexColor(color)
  {
    seq(7, k requires 0 <= k < 7 => if 'A' <= color[k] <= 'F' then (color[k] as int + 32) as char else color[k])
  }

  /** With `percent` 0 the channels are unchanged and the colour comes back in lower case. */
  lemma AdjustBrightnessZero(color: string)
    requires IsHexColor(color)
    ensures AdjustBrightness(color, 0) == LowerColor(color)
  {
    var r := AdjustBrightness(color, 0);
    var l := LowerColor(color);
    var digits := color[1..];
    var lower := l[1..];
    assert AllHex(lower) && AllLowerHex(lower) by {
      forall k | 0 <= k < 6 ensures IsLowerHexDigit(lower[k]) && IsHexDigit(lower[k]) {
        assert lower[k] == l[k + 1];
      }
    }
    assert HexValue(lower) == HexValue(digits) by { SameDigits(digits, lower); }
    var n := ColorValue(color);
    assert ColorValue(r) == n by {
      ChannelsOf(Red(color), Green(color), Blue(color));
      RecombineChannels(n);
    }
    LowerHexUnique(r[1..], lower);
    assert r == [r[0]] + r[1..] && l == [l[0]] + l[1..];
  }

  lemma RecombineChannels(n: nat)
    requires n < 0x100_0000
    ensures n / 0x1_0000 * 0x1_0000 + n / 0x100 % 0x100 * 0x100 + n % 0x100 == n
  {
    DivModBase(n / 0x100, n % 0x100);
    assert n == n / 0x100 * 0x100 + n % 0x100;
    assert n / 0x100 == n / 0x100 / 0x100 * 0x100 + n / 0x100 % 0x100;
    assert n / 0x100 / 0x100 == n / 0x1_0000;
  }

  /** Digits that differ only in case denote the same number. */
  lemma {:induction false} SameDigits(a: string, b: string)
    requires AllHex(a) && AllHex(b) && |a| == |b|
    requires forall k :: 0 <= k < |a| ==> DigitValue(a[k]) == DigitValue(b[k])
    ensures HexValue(a) == HexValue(b)
  {
    if a != [] {
      SameDigits(a[..|a| - 1], b[..|b| - 1]);
    }
  }

  /** Darkening (a negative `percent`, such as the -30 of `darkerColor`) never raises a channel
      and never takes it below 0. */
  lemma DarkerNeverBrighter(color: string, percent: int)
    requires IsHexColor(color) && percent <= 0
    ensures var d := AdjustBrightness(color, percent);
      Red(d) <= Red(color) && Green(d) <= Green(color) && Blue(d) <= Blue(color)
  {
    ChannelBounds(color);
  }

  lemma ChannelBounds(color: string)
    requires IsHexColor(color)
    ensures Red(color) <= 255 && Green(color) <= 255 && Blue(color) <= 255
  {
  }

  /** `parseInt(color.slice(1, 3), 16)` and the two other pairs: the glow channels. */
  function GlowRed(color: string): nat requires IsHexColor(color) { HexValue(color[1..3]) }
  function GlowGreen(color: string): nat requires IsHexColor(color) { HexValue(color[3..5]) }
  function GlowBlue(color: string): nat requires IsHexColor(color) { HexValue(color[5..7]) }

  /** Six digits are three two-digit channels. */
  lemma SixDigits(d: string)
    requires |d| == 6 && AllHex(d)
    ensures AllHex(d[..2]) && AllHex(d[2..4]) && AllHex(d[4..])
    ensures HexValue(d[..2]) < 0x100 && HexValue(d[2..4]) < 0x100 && HexValue(d[4..]) < 0x100
    ensures HexValue(d) == HexValue(d[..2]) * 0x1_0000 + HexValue(d[2..4]) * 0x100 + HexValue(d[4..])
  {
    var x, y, z := d[..2], d[2..4], d[4..];
    assert d == (x + y) + z;
    HexValueConcat(x, y);
    HexValueConcat(x + y, z);
    HexValueBound(x);
    HexValueBound(y);
    HexValueBound(z);
    assert Pow16(2) == 0x100;
  }

  /** The glow reads the same three channels as `adjustBrightness`, pair by pair. */
  lemma GlowMatchesChannels(color: string)
    requires IsHexColor(color)
    ensures GlowRed(color) == Red(color) && GlowGreen(color) == Green(color)
    ensures GlowBlue(color) == Blue(color)
  {
    var d := color[1..];
    SixDigits(d);
    assert d[..2] == color[1..3] && d[2..4] == color[3..5] && d[4..] == color[5..7];
    ChannelsOf(GlowRed(color), GlowGreen(color), GlowBlue(color));
  }

  // ---------------------------------------------------------------------------------------
  // Palette, default and saved colour

  /** The colours of `themeColors`, in order. */
  const ThemeColors: seq<string> := [
    "#00E5FF", "#0066FF", "#b967ff", "#ff2a6d", "#ff6b35", "#ffd23f",
    "#06ffa5", "#ff006e", "#8338ec", "#3a86ff", "#fb5607", "#ffbe0b"
  ]

  const DefaultColor := "#00E5FF"

  /** Every palette entry passes the format gate, so a click on one is never refused. */
  lemma PaletteValid()
    ensures forall k :: 0 <= k < |ThemeColors| ==> IsHexColor(ThemeColors[k])
  {
    forall k | 0 <= k < |ThemeColors| ensures IsHexColor(ThemeColors[k]) {
      var c := ThemeColors[k];
      assert forall j :: 1 <= j < 7 ==> IsHexDigit(c[j]);
      assert forall j :: 0 <= j < 6 ==> c[1..][j] == c[j + 1];
    }
  }

  lemma DefaultColorValid()
    ensures IsHexColor(DefaultColor)
  {
    var c := DefaultColor;
    assert forall j :: 0 <= j < 6 ==> c[1..][j] == c[j + 1];
  }

  /** `colorToApply`: the saved colour when there is one in the right format, the default
      otherwise. A storage read that throws gives `None`, like a missing key. */
  function ColorToApply(saved: Option<string>): (c: string)
    ensures IsHexColor(c)
    ensures saved.Some? && IsHexColor(saved.value) ==> c == saved.value
    ensures !(saved.Some? && IsHexColor(saved.value)) ==> c == DefaultColor
  {
    DefaultColorValid();
    match saved
    case Some(color) => if color != [] && IsHexColor(color) then color else DefaultColor
    case None => DefaultColor
  }

  // ---------------------------------------------------------------------------------------
  // applyThemeColor

  /** `String(n)` for a natural number. */
  function Decimal(n: nat): (s: string)
    ensures s != [] && AllDecimal(s)
  {
    var last := [('0' as nat + n % 10) as char];
    if n < 10 then last else Decimal(n / 10) + last
  }

  /** `toString()` is read back by `parseInt(_, 10)` and has no leading zero. */
  lemma {:induction false} DecimalReadsBack(n: nat)
    ensures DecimalValue(Decimal(n)) == n
    ensures |Decimal(n)| > 1 ==> Decimal(n)[0] != '0'
  {
    if n >= 10 {
      DecimalReadsBack(n / 10);
      var front := Decimal(n / 10);
      assert Decimal(n)[..|front|] == front;
      assert Decimal(n)[0] == front[0];
    }
  }

  /** Every character of `s` is a decimal digit. */
  predicate AllDecimal(s: string) {
    forall k :: 0 <= k < |s| ==> '0' <= s[k] <= '9'
  }

  /** The number a string of decimal digits denotes, as `parseInt(_, 10)` reads it. */
  function DecimalValue(s: string): nat
    requires AllDecimal(s)
  {
    if s == [] then 0 else DecimalValue(s[..|s| - 1]) * 10 + (s[|s| - 1] as nat - '0' as nat)
  }

  /** The CSS custom properties `applyThemeColor` sets for a colour that passed the gate. */
  function ThemeVariables(color: string): map<string, string>
    requires IsHexColor(color)
  {
    var darker := AdjustBrightness(color, -30);
    var rgb := Decimal(GlowRed(color)) + ", " + Decimal(GlowGreen(color)) + ", "
               + Decimal(GlowBlue(color));
    map[
      "--matrix-green" := color,
      "--cyan-neon" := color,
      "--blue-electric" := darker,
      "--accent" := color,
      "--primary" := darker,
      "--gradient-1" := "linear-gradient(135deg, " + color + ", " + darker + ")",
      "--gradient-3" := "linear-gradient(135deg, " + color + ", var(--neon-cyan))",
      "--gradient-primary" := "linear-gradient(90deg, " + darker + " 0%, " + color + " 100%)",
      "--grad" := "linear-gradient(90deg, " + darker + " 0%, " + color + " 100%)",
      "--glow-matrix" := "0 0 15px rgba(" + rgb + ", 0.8)",
      "--glow-primary" := "0 8px 30px rgba(" + rgb + ", 0.18)",
      "--glow-hover" := "0 12px 40px rgba(" + rgb + ", 0.14)"
    ]
  }

  /** The accent variables take the colour itself and the primary variables its darker
      shade, which is never brighter in any channel. */
  lemma ThemeVariablesShades(color: string)
    requires IsHexColor(color)
    ensures var vars := ThemeVariables(color);
      "--accent" in vars && vars["--accent"] == color && vars["--cyan-neon"] == color
      && "--primary" in vars && IsLowerHexColor(vars["--primary"])
      && vars["--primary"] == vars["--blue-electric"]
      && Red(vars["--primary"]) <= Red(color) && Green(vars["--primary"]) <= Green(color)
      && Blue(vars["--primary"]) <= Blue(color)
  {
    DarkerNeverBrighter(color, -30);
  }

  /** Applying a colour over any earlier variables leaves that colour as the accent. */
  lemma AccentAfterApply(vars: map<string, string>, color: string)
    requires IsHexColor(color)
    ensures "--accent" in vars + ThemeVariables(color)
    ensures (vars + ThemeVariables(color))["--accent"] == color
  {
    ThemeVariablesShades(color);
  }

  // ---------------------------------------------------------------------------------------
  // The component

  /** The selector's state: the open flag, the chosen colour, the CSS custom properties on the
      document root and the `themeColor` entry of `localStorage`. */
  class ThemeSelector {
    var isOpen: bool
    var selectedColor: string
    var cssVars: map<string, string>
    var savedColor: Option<string>

    /** Nothing but a well-formed colour ever reaches the chosen colour or the accent. */
    ghost predicate Valid()
      reads this
    {
      IsHexColor(selectedColor) && ("--accent" in cssVars ==> IsHexColor(cssVars["--accent"]))
    }

    /** The first render: closed, cyan, and whatever the storage already holds. */
    constructor(stored: Option<string>)
      ensures Valid()
      ensures !isOpen && selectedColor == DefaultColor && cssVars == map[] && savedColor == stored
    {
      DefaultColorValid();
      isOpen := false;
      selectedColor := DefaultColor;
      cssVars := map[];
      savedColor := stored;
    }

    /** `applyThemeColor(color)`: nothing happens unless the colour passes the gate. */
    method ApplyThemeColor(color: string)
      requires Valid()
      modifies this
      ensures Valid()
      ensures IsHexColor(color) ==> cssVars == old(cssVars) + ThemeVariables(color)
      ensures !IsHexColor(color) ==> cssVars == old(cssVars)
      ensures selectedColor == old(selectedColor) && isOpen == old(isOpen)
      ensures savedColor == old(savedColor)
    {
      if !IsHexColor(color) {
        return;
      }
      AccentAfterApply(cssVars, color);
      cssVars := cssVars + ThemeVariables(color);
    }

    /** The mount effect: read the saved colour (`readable` is false when the read throws),
        apply the colour to use, and select it. */
    method Load(readable: bool)
      requires Valid()
      modifies this
      ensures Valid()
      ensures var c := ColorToApply(if readable then old(savedColor) else None);
        selectedColor == c && cssVars == old(cssVars) + ThemeVariables(c)
      ensures isOpen == old(isOpen) && savedColor == old(savedColor)
    {
      var saved := if readable then savedColor else None;
      var colorToApply := ColorToApply(saved);
      ApplyThemeColor(colorToApply);
      selectedColor := colorToApply;
    }

    /** `handleColorSelect(color)`; `writable` is false when `localStorage.setItem` throws. */
    method HandleColorSelect(color: string, writable: bool)
      requires Valid()
      modifies this
      ensures Valid()
      ensures !IsHexColor(color) ==>
        selectedColor == old(selectedColor) && cssVars == old(cssVars)
        && savedColor == old(savedColor) && isOpen == old(isOpen)
      ensures IsHexColor(color) ==>
        selectedColor == color && cssVars == old(cssVars) + ThemeVariables(color)
        && savedColor == (if writable then Some(color) else old(savedColor)) && !isOpen
    {
      if !IsHexColor(color) {
        return;
      }
      selectedColor := color;
      ApplyThemeColor(color);
      if writable {
        savedColor := Some(color);
      }
      isOpen := false;
    }

    /** `resetTheme()` */
    method ResetTheme(writable: bool)
      requires Valid()
      modifies this
      ensures Valid()
      ensures selectedColor == DefaultColor && cssVars == old(cssVars) + ThemeVariables(DefaultColor)
      ensures savedColor == (if writable then Some(DefaultColor) else old(savedColor))
      ensures isOpen == old(isOpen)
    {
      DefaultColorValid();
      selectedColor := DefaultColor;
      ApplyThemeColor(DefaultColor);
      if writable {
        savedColor := Some(DefaultColor);
      }
    }

    /** The toggle button. */
    method Toggle()
      requires Valid()
      modifies this
      ensures Valid()
      ensures isOpen == !old(isOpen)
      ensures selectedColor == old(selectedColor) && cssVars == old(cssVars)
      ensures savedColor == old(savedColor)
    {
      isOpen := !isOpen;
    }

    /** A `mousedown` on the document; `inside` says whether it hit the selector. */
    method MouseDown(inside: bool)
      requires Valid()
      modifies this
      ensures Valid()
      ensures isOpen == (old(isOpen) && inside)
      ensures selectedColor == old(selectedColor) && cssVars == old(cssVars)
      ensures savedColor == old(savedColor)
    {
      if !inside {
        isOpen := false;
      }
    }
  }

  /** A colour saved by `handleColorSelect` is the one the next load applies. */
  lemma SelectedColorReloads(color: string)
    requires IsHexColor(color)
    ensures ColorToApply(Some(color)) == color
  {
  }
}
