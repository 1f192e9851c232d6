/** The colour model of the contrast auditor (a11y-131.js): the colour
    record, its hex encoding, the matching of the canvas' normalised colour
    strings, relative luminance and contrast ratio as WCAG 2.x defines them,
    and channel blending. */
module Colour {
  import opened Seqs
  import opened Text

  /** Channels as parsed (non-negative integers; 0..255 for anything the
      canvas emits) and alpha. */
  datatype Color = Color(r: nat, g: nat, b: nat, a: real)

  const Black := Color(0, 0, 0, 1.0)
  const White := Color(255, 255, 255, 1.0)

  predicate InGamut(c: Color) {
    c.r <= 255 && c.g <= 255 && c.b <= 255 && 0.0 <= c.a <= 1.0
  }

  // ---------------------------------------------------------------------
  // Hex encoding: toHex / rgbToHex

  /** A lower-case hex digit, as `Number.prototype.toString(16)` writes it. */
  function HexDigit(d: nat): char
    requires d < 16
  {
    if d < 10 then ('0' as int + d) as char else ('a' as int + d - 10) as char
  }

  /** `n.toString(16)`. */
  function HexString(n: nat): (s: string)
    ensures s != []
    ensures s[|s| - 1] == HexDigit(n % 16)
  {
    if n < 16 then [HexDigit(n)] else HexString(n / 16) + [HexDigit(n % 16)]
  }

  /** `toHex`: `("0" + n.toString(16)).slice(-2)`. */
  function ToHex(n: nat): string {
    var t := "0" + HexString(n);
    t[|t| - 2..]
  }

  /** toHex writes the low byte of n as two hex digits: channels above 255
      are truncated, not clamped. */
  lemma ToHexDigits(n: nat)
    ensures ToHex(n) == [HexDigit((n / 16) % 16), HexDigit(n % 16)]
  {
    var h := HexString(n);
    var t := "0" + h;
    if n < 16 {
      assert n / 16 == 0 && n % 16 == n;
      assert t == ['0', HexDigit(n)];
    } else {
      var q := n / 16;
      var hq := HexString(q);
      assert h == hq + [HexDigit(n % 16)];
      assert hq[|hq| - 1] == HexDigit(q % 16);
      assert t[|t| - 2..] == [hq[|hq| - 1], HexDigit(n % 16)];
    }
  }

  /** `rgbToHex`: `#` and three two-digit hex channels, upper-cased. */
  function RgbToHex(c: Color): string {
    Upper("#" + ToHex(c.r) + ToHex(c.g) + ToHex(c.b))
  }

  predicate IsUpperHexChar(ch: char) {
    '0' <= ch <= '9' || 'A' <= ch <= 'F'
  }

  /** The encoding is `#` followed by exactly six upper-case hex digits. */
  lemma RgbToHexShape(c: Color)
    ensures |RgbToHex(c)| == 7 && RgbToHex(c)[0] == '#'
    ensures forall i :: 1 <= i < 7 ==> IsUpperHexChar(RgbToHex(c)[i])
  {
    var t := RgbToHex(c);
    RgbToHexDigits(c);
    HexDigitUpper((c.r / 16) % 16);
    HexDigitUpper(c.r % 16);
    HexDigitUpper((c.g / 16) % 16);
    HexDigitUpper(c.g % 16);
    HexDigitUpper((c.b / 16) % 16);
    HexDigitUpper(c.b % 16);
    forall i | 1 <= i < 7
      ensures IsUpperHexChar(t[i])
    {
      assert i == 1 || i == 2 || i == 3 || i == 4 || i == 5 || i == 6;
    }
  }

  /** The seven characters of rgbToHex's output, one by one. */
  lemma RgbToHexDigits(c: Color)
    ensures var t := RgbToHex(c);
      && |t| == 7 && t[0] == '#'
      && t[1] == UpperChar(HexDigit((c.r / 16) % 16)) && t[2] == UpperChar(HexDigit(c.r % 16))
      && t[3] == UpperChar(HexDigit((c.g / 16) % 16)) && t[4] == UpperChar(HexDigit(c.g % 16))
      && t[5] == UpperChar(HexDigit((c.b / 16) % 16)) && t[6] == UpperChar(HexDigit(c.b % 16))
  {
    ToHexDigits(c.r);
    ToHexDigits(c.g);
    ToHexDigits(c.b);
    var raw := "#" + ToHex(c.r) + ToHex(c.g) + ToHex(c.b);
    assert |raw| == 7;
    assert raw[1] == HexDigit((c.r / 16) % 16) && raw[2] == HexDigit(c.r % 16);
    assert raw[3] == HexDigit((c.g / 16) % 16) && raw[4] == HexDigit(c.g % 16);
    assert raw[5] == HexDigit((c.b / 16) % 16) && raw[6] == HexDigit(c.b % 16);
  }

  lemma HexDigitUpper(d: nat)
    requires d < 16
    ensures IsUpperHexChar(UpperChar(HexDigit(d)))
  {
  }

  // ---------------------------------------------------------------------
  // Matching the canvas' normalised output: the two regular expressions of
  // parseColor

  predicate IsHexChar(ch: char) {
    '0' <= ch <= '9' || 'a' <= ch <= 'f' || 'A' <= ch <= 'F'
  }

  function HexValue(ch: char): (v: nat)
    requires IsHexChar(ch)
    ensures v < 16
  {
    if '0' <= ch <= '9' then ch as int - '0' as int
    else if 'a' <= ch <= 'f' then ch as int - 'a' as int + 10
    else ch as int - 'A' as int + 10
  }

  /** `/^#([0-9a-f]{6})$/i`. */
  predicate HexForm(t: string) {
    |t| == 7 && t[0] == '#' && forall i :: 1 <= i < 7 ==> IsHexChar(t[i])
  }

  /** `parseInt(hex.substr(k, 2), 16)`. */
  function HexByte(hi: char, lo: char): nat
    requires IsHexChar(hi) && IsHexChar(lo)
  {
    HexValue(hi) * 16 + HexValue(lo)
  }

  predicate IsAlphaTokenChar(ch: char) { IsDigit(ch) || ch == '.' }

  /** 0.d1d2d3... */
  function Fraction(ds: string): real
    requires AllDigits(ds)
  {
    if ds == [] then 0.0 else (DigitValue(ds[0]) as real + Fraction(ds[1..])) / 10.0
  }

  /** `parseFloat` on a token of digits and dots: the longest prefix of the
      form digits [ '.' digits ]. A token with no digit in that prefix (NaN in
      JavaScript) reads as 0, which every `a > 0` test treats as NaN is
      treated. */
  function FloatPrefix(tok: string): real {
    var i := Span(tok, 0, IsDigit);
    var whole := DigitsValue(tok[..i]) as real;
    if i < |tok| && tok[i] == '.' then
      whole + Fraction(tok[i + 1..Span(tok, i + 1, IsDigit)])
    else whole
  }

  /** `(\d+),\s*(\d+),\s*(\d+)(?:,\s*([\d.]+))?\)$` on what follows
      `rgb(` or `rgba(`, read one argument at a time. Every quantifier in the
      expression is followed by a character it cannot match, so the greedy
      reading below is the only one. `\s*` is TrimStart. */
  function MatchArgs(s: string): Option<Color> {
    var e := Span(s, 0, IsDigit);
    if e == 0 || e == |s| || s[e] != ',' then None
    else MatchGreen(DigitsValue(s[..e]), TrimStart(s[e + 1..]))
  }

  function MatchGreen(r: nat, s: string): Option<Color> {
    var e := Span(s, 0, IsDigit);
    if e == 0 || e == |s| || s[e] != ',' then None
    else MatchBlue(r, DigitsValue(s[..e]), TrimStart(s[e + 1..]))
  }

  function MatchBlue(r: nat, g: nat, s: string): Option<Color> {
    var e := Span(s, 0, IsDigit);
    if e == 0 || e == |s| then None
    else if s[e] == ')' then
      if e == |s| - 1 then Some(Color(r, g, DigitsValue(s[..e]), 1.0)) else None
    else if s[e] == ',' then MatchAlpha(r, g, DigitsValue(s[..e]), TrimStart(s[e + 1..]))
    else None
  }

  function MatchAlpha(r: nat, g: nat, b: nat, s: string): Option<Color> {
    var e := Span(s, 0, IsAlphaTokenChar);
    if e > 0 && e == |s| - 1 && s[e] == ')' then Some(Color(r, g, b, FloatPrefix(s[..e])))
    else None
  }

  /** `/^rgba?\(...\)$/i`. */
  function MatchRgb(t: string): Option<Color> {
    if |t| < 4 || LowerChar(t[0]) != 'r' || LowerChar(t[1]) != 'g' || LowerChar(t[2]) != 'b' then None
    else if LowerChar(t[3]) == 'a' then MatchParen(t[4..])
    else MatchParen(t[3..])
  }

  /** `\(` and the argument list. */
  function MatchParen(u: string): Option<Color> {
    if u == [] || u[0] != '(' then None else MatchArgs(u[1..])
  }

  /** A failed match falls back to opaque black. */
  function OrBlack(m: Option<Color>): Color {
    match m
    case Some(c) => c
    case None => Black
  }

  /** The string-matching half of `parseColor`: the canvas' normalised
      string t read as a colour; anything matching neither form is opaque
      black. */
  function MatchColor(t: string): (c: Color)
    ensures HexForm(t) ==> InGamut(c) && c.a == 1.0
  {
    if HexForm(t) then
      Color(HexByte(t[1], t[2]), HexByte(t[3], t[4]), HexByte(t[5], t[6]), 1.0)
    else OrBlack(MatchRgb(t))
  }

  /** `parseColor(str)`: the canvas normalises str (an external step, the
      parameter `canvas`), then its output is matched. */
  function ParseColor(canvas: string -> string, str: string): Color {
    MatchColor(canvas(str))
  }

  /** A string that is neither `#` plus six hex digits nor starts with `rgb`
      (in any case) is read as opaque black. */
  lemma MatchNeither(t: string)
    requires !HexForm(t)
    requires |t| < 3 || LowerChar(t[0]) != 'r' || LowerChar(t[1]) != 'g' || LowerChar(t[2]) != 'b'
    ensures MatchColor(t) == Black
  {
  }

  lemma HexDigitUpperValue(d: nat)
    requires d < 16
    ensures IsHexChar(UpperChar(HexDigit(d))) && HexValue(UpperChar(HexDigit(d))) == d
  {
  }

  lemma LowByte(n: nat)
    ensures ((n / 16) % 16) * 16 + n % 16 == n % 256
  {
    var q, m := n / 256, n % 256;
    assert n == 256 * q + m;
    assert n / 16 == 16 * q + m / 16;
    assert n % 16 == m % 16;
  }

  /** Decoding rgbToHex's output gives the low byte of each channel back,
      opaque: the round trip of the hex codec. */
  lemma HexRoundTrip(c: Color)
    ensures MatchColor(RgbToHex(c)) == Color(c.r % 256, c.g % 256, c.b % 256, 1.0)
  {
    var t := RgbToHex(c);
    RgbToHexDigits(c);
    forall i | 1 <= i < 7
      ensures IsHexChar(t[i])
    {
      assert i == 1 || i == 2 || i == 3 || i == 4 || i == 5 || i == 6;
      HexDigitUpperValue((c.r / 16) % 16);
      HexDigitUpperValue(c.r % 16);
      HexDigitUpperValue((c.g / 16) % 16);
      HexDigitUpperValue(c.g % 16);
      HexDigitUpperValue((c.b / 16) % 16);
      HexDigitUpperValue(c.b % 16);
    }
    assert HexForm(t);
    HexPairValue(c.r);
    HexPairValue(c.g);
    HexPairValue(c.b);
  }

  /** The two upper-cased digits toHex writes for n read back as n's low byte. */
  lemma HexPairValue(n: nat)
    ensures var hi, lo := UpperChar(HexDigit((n / 16) % 16)), UpperChar(HexDigit(n % 16));
            IsHexChar(hi) && IsHexChar(lo) && HexByte(hi, lo) == n % 256
  {
    HexDigitUpperValue((n / 16) % 16);
    HexDigitUpperValue(n % 16);
    LowByte(n);
  }

  /** For channels 0..255 the round trip is exact. */
  lemma HexRoundTripInGamut(c: Color)
    requires InGamut(c)
    ensures MatchColor(RgbToHex(c)) == Color(c.r, c.g, c.b, 1.0)
  {
    assert c.r % 256 == c.r && c.g % 256 == c.g && c.b % 256 == c.b;
    HexRoundTrip(c);
  }

  lemma SkipOneSpace(rest: string)
    requires rest != [] && !IsSpace(rest[0])
    ensures TrimStart(" " + rest) == rest
  {
    assert (" " + rest)[1..] == rest;
  }

  /** `,\s*` before an argument that does not start with white space: the
      comma and the one space are skipped. */
  lemma ReadComma(s: string, e: nat, rest: string)
    requires rest != [] && !IsSpace(rest[0])
    requires e <= |s| && s[e..] == ", " + rest
    ensures e < |s| && s[e] == ',' && TrimStart(s[e + 1..]) == rest
  {
    assert s[e + 1..] == " " + rest;
    SkipOneSpace(rest);
  }

  /** A printed number followed by `, ` and the next argument: the number is
      read back, then the comma and the space are skipped. */
  lemma ReadArgument(n: nat, rest: string)
    requires rest != [] && !IsSpace(rest[0])
    ensures var s := Decimal(n) + (", " + rest);
      && Span(s, 0, IsDigit) == |Decimal(n)| && |Decimal(n)| < |s| && s[|Decimal(n)|] == ','
      && DigitsValue(s[..|Decimal(n)|]) == n && TrimStart(s[|Decimal(n)| + 1..]) == rest
  {
    ReadNumber(n, ", " + rest);
    ReadComma(Decimal(n) + (", " + rest), |Decimal(n)|, rest);
  }

  lemma ReadRed(r: nat, rest: string)
    requires rest != [] && IsDigit(rest[0])
    ensures MatchArgs(Decimal(r) + (", " + rest)) == MatchGreen(r, rest)
  {
    ReadArgument(r, rest);
  }

  lemma ReadGreen(r: nat, g: nat, rest: string)
    requires rest != [] && IsDigit(rest[0])
    ensures MatchGreen(r, Decimal(g) + (", " + rest)) == MatchBlue(r, g, rest)
  {
    ReadArgument(g, rest);
  }

  lemma ReadBlueEnd(r: nat, g: nat, b: nat)
    ensures MatchBlue(r, g, Decimal(b) + ")") == Some(Color(r, g, b, 1.0))
  {
    ReadNumber(b, ")");
  }

  lemma ReadBlueAlpha(r: nat, g: nat, b: nat, rest: string)
    requires rest != [] && !IsSpace(rest[0])
    ensures MatchBlue(r, g, Decimal(b) + (", " + rest)) == MatchAlpha(r, g, b, rest)
  {
    ReadArgument(b, rest);
  }

  lemma ReadAlpha(r: nat, g: nat, b: nat, tok: string)
    requires tok != [] && forall k :: 0 <= k < |tok| ==> IsAlphaTokenChar(tok[k])
    ensures MatchAlpha(r, g, b, tok + ")") == Some(Color(r, g, b, FloatPrefix(tok)))
  {
    var s := tok + ")";
    assert s[0..|tok|] == tok;
    SpanAt(s, 0, tok, IsAlphaTokenChar);
    assert s[..|tok|] == tok;
  }

  lemma ReadParen(args: string)
    ensures MatchParen("(" + args) == MatchArgs(args)
  {
    assert ("(" + args)[1..] == args;
  }

  /** Anything not starting with `#` goes to the functional forms. */
  lemma MatchColorNotHex(t: string)
    requires t == [] || t[0] != '#'
    ensures MatchColor(t) == OrBlack(MatchRgb(t))
  {
  }

  lemma MatchRgbHead(t: string)
    requires |t| >= 4 && t[0] == 'r' && t[1] == 'g' && t[2] == 'b' && t[3] == '('
    ensures MatchRgb(t) == MatchParen(t[3..])
  {
  }

  lemma MatchRgbaHead(t: string)
    requires |t| >= 5 && t[0] == 'r' && t[1] == 'g' && t[2] == 'b' && t[3] == 'a'
    ensures MatchRgb(t) == MatchParen(t[4..])
  {
  }

  /** A string starting `rgb(` is matched by its parenthesised part. */
  lemma ReadRgbHead(t: string)
    requires |t| >= 4 && t[0] == 'r' && t[1] == 'g' && t[2] == 'b' && t[3] == '('
    ensures MatchColor(t) == OrBlack(MatchParen(t[3..]))
  {
    MatchColorNotHex(t);
    MatchRgbHead(t);
  }

  /** A string starting `rgba` is matched by what follows the `a`. */
  lemma ReadRgbaHead(t: string)
    requires |t| >= 5 && t[0] == 'r' && t[1] == 'g' && t[2] == 'b' && t[3] == 'a'
    ensures MatchColor(t) == OrBlack(MatchParen(t[4..]))
  {
    MatchColorNotHex(t);
    MatchRgbaHead(t);
  }

  /** The argument list `(r, g, b)`. */
  lemma ReadRgbArgs(r: nat, g: nat, b: nat)
    ensures MatchParen("(" + (Decimal(r) + (", " + (Decimal(g) + (", " + (Decimal(b) + ")"))))))
            == Some(Color(r, g, b, 1.0))
  {
    var argsB := Decimal(b) + ")";
    var argsG := Decimal(g) + (", " + argsB);
    var args := Decimal(r) + (", " + argsG);
    assert argsB[0] == Decimal(b)[0] && argsG[0] == Decimal(g)[0];
    ReadBlueEnd(r, g, b);
    ReadGreen(r, g, argsB);
    ReadRed(r, argsG);
    ReadParen(args);
  }

  /** The argument list `(r, g, b, tok)`. */
  lemma ReadRgbaArgs(r: nat, g: nat, b: nat, tok: string)
    requires tok != [] && forall k :: 0 <= k < |tok| ==> IsAlphaTokenChar(tok[k])
    ensures MatchParen("(" + (Decimal(r) + (", " + (Decimal(g) + (", " + (Decimal(b) + (", " + (tok + ")"))))))))
            == Some(Color(r, g, b, FloatPrefix(tok)))
  {
    var argsA := tok + ")";
    var argsB := Decimal(b) + (", " + argsA);
    var argsG := Decimal(g) + (", " + argsB);
    var args := Decimal(r) + (", " + argsG);
    assert argsB[0] == Decimal(b)[0] && argsG[0] == Decimal(g)[0];
    ReadAlpha(r, g, b, tok);
    ReadBlueAlpha(r, g, b, argsA);
    ReadGreen(r, g, argsB);
    ReadRed(r, argsG);
    ReadParen(args);
  }

  lemma ArgListText(fn: string, a: string, b: string, c: string)
    ensures fn + "(" + a + ", " + b + ", " + c + ")" == fn + ("(" + (a + (", " + (b + (", " + (c + ")"))))))
  {
  }

  lemma AlphaArgListText(fn: string, a: string, b: string, c: string, d: string)
    ensures fn + "(" + a + ", " + b + ", " + c + ", " + d + ")"
            == fn + ("(" + (a + (", " + (b + (", " + (c + (", " + (d + ")"))))))))
  {
  }

  lemma FunctionNameText(fn: string, p: string)
    requires fn == "rgb" || fn == "rgba"
    requires p != []
    ensures |fn + p| >= 4 && (fn + p)[0] == 'r' && (fn + p)[1] == 'g' && (fn + p)[2] == 'b'
    ensures fn == "rgb" ==> (fn + p)[3] == p[0] && (fn + p)[3..] == p
    ensures fn == "rgba" ==> |fn + p| >= 5 && (fn + p)[3] == 'a' && (fn + p)[4..] == p
  {
  }

  /** `rgb(r, g, b)` (also spelled `rgba(`) with no alpha argument is read
      back as the same channels, opaque. */
  lemma RgbRoundTrip(fn: string, r: nat, g: nat, b: nat)
    requires fn == "rgb" || fn == "rgba"
    ensures MatchColor(fn + "(" + Decimal(r) + ", " + Decimal(g) + ", " + Decimal(b) + ")") == Color(r, g, b, 1.0)
  {
    var paren := "(" + (Decimal(r) + (", " + (Decimal(g) + (", " + (Decimal(b) + ")")))));
    ArgListText(fn, Decimal(r), Decimal(g), Decimal(b));
    FunctionNameText(fn, paren);
    if fn == "rgb" {
      ReadRgbHead(fn + paren);
    } else {
      ReadRgbaHead(fn + paren);
    }
    ReadRgbArgs(r, g, b);
  }

  /** `rgba(r, g, b, tok)` is read back as the same channels with alpha
      `parseFloat(tok)`. */
  lemma RgbaRoundTrip(r: nat, g: nat, b: nat, tok: string)
    requires tok != [] && forall k :: 0 <= k < |tok| ==> IsAlphaTokenChar(tok[k])
    ensures MatchColor("rgba(" + Decimal(r) + ", " + Decimal(g) + ", " + Decimal(b) + ", " + tok + ")")
            == Color(r, g, b, FloatPrefix(tok))
  {
    var paren := "(" + (Decimal(r) + (", " + (Decimal(g) + (", " + (Decimal(b) + (", " + (tok + ")")))))));
    AlphaArgListText("rgba", Decimal(r), Decimal(g), Decimal(b), tok);
    assert "rgba(" == "rgba" + "(";
    FunctionNameText("rgba", paren);
    ReadRgbaHead("rgba" + paren);
    ReadRgbaArgs(r, g, b, tok);
  }

  // ---------------------------------------------------------------------
  // Relative luminance and contrast ratio

  /** The sRGB transfer of one channel value v in 0..255. The linear segment
      (v/255 <= 0.03928, divided by 12.92) is exact; above it the source
      computes `Math.pow((v/255 + 0.055) / 1.055, 2.4)`, which the model
      keeps as the parameter `curve`. */
  function Lin(curve: nat -> real, v: nat): real {
    var x := v as real / 255.0;
    if x <= 0.03928 then x / 12.92 else curve(v)
  }

  /** What the model assumes of the power curve: the transfer is never
      negative, is monotone over 0..255, and maps 255 to 1. */
  ghost predicate ValidCurve(curve: nat -> real) {
    && (forall v: nat :: LinNonNegativeAt(curve, v))
    && (forall v: nat, w: nat :: LinMonotoneAt(curve, v, w))
    && Lin(curve, 255) == 1.0
  }

  /** The transfer is not negative at v. */
  ghost predicate LinNonNegativeAt(curve: nat -> real, v: nat) {
    0.0 <= Lin(curve, v)
  }

  /** The transfer at v is at most the transfer at w when v <= w <= 255. */
  ghost predicate LinMonotoneAt(curve: nat -> real, v: nat, w: nat) {
    v <= w <= 255 ==> Lin(curve, v) <= Lin(curve, w)
  }

  /** `relLuminance`. */
  function RelLuminance(curve: nat -> real, c: Color): real {
    0.2126 * Lin(curve, c.r) + 0.7152 * Lin(curve, c.g) + 0.0722 * Lin(curve, c.b)
  }

  /** Relative luminance lies in [0, 1] for every colour in gamut; black has
      luminance 0 and white 1. */
  lemma LuminanceBounds(curve: nat -> real, c: Color)
    requires ValidCurve(curve)
    ensures 0.0 <= RelLuminance(curve, c)
    ensures InGamut(c) ==> RelLuminance(curve, c) <= 1.0
    ensures RelLuminance(curve, Black) == 0.0 && RelLuminance(curve, White) == 1.0
  {
    assert LinNonNegativeAt(curve, c.r) && LinNonNegativeAt(curve, c.g) && LinNonNegativeAt(curve, c.b);
    assert LinNonNegativeAt(curve, 0);
    if InGamut(c) {
      assert LinMonotoneAt(curve, c.r, 255);
      assert LinMonotoneAt(curve, c.g, 255);
      assert LinMonotoneAt(curve, c.b, 255);
    }
  }

  function Max(x: real, y: real): real { if x >= y then x else y }
  function MinR(x: real, y: real): real { if x <= y then x else y }

  /** `contrastRatio`: (lighter + 0.05) / (darker + 0.05). */
  function ContrastRatio(curve: nat -> real, fg: Color, bg: Color): (ratio: real)
    requires ValidCurve(curve)
    ensures ratio >= 1.0
  {
    LuminanceBounds(curve, fg);
    LuminanceBounds(curve, bg);
    var l1 := RelLuminance(curve, fg);
    var l2 := RelLuminance(curve, bg);
    var lighter := Max(l1, l2);
    var darker := MinR(l1, l2);
    QuotientAtLeastOne(lighter + 0.05, darker + 0.05);
    (lighter + 0.05) / (darker + 0.05)
  }

  lemma QuotientAtLeastOne(a: real, b: real)
    requires 0.0 < b <= a
    ensures a / b >= 1.0
  {
    var q := a / b;
    assert q * b == a;
    if q < 1.0 {
      MulNonNegative(1.0 - q, b);
      assert false;
    }
  }

  /** The ratio does not depend on which colour is the foreground. */
  lemma ContrastSymmetric(curve: nat -> real, x: Color, y: Color)
    requires ValidCurve(curve)
    ensures ContrastRatio(curve, x, y) == ContrastRatio(curve, y, x)
  {
  }

  /** Two colours of equal luminance, identical colours in particular, have
      ratio exactly 1. */
  lemma ContrastOfEqualLuminance(curve: nat -> real, x: Color, y: Color)
    requires ValidCurve(curve)
    requires RelLuminance(curve, x) == RelLuminance(curve, y)
    ensures ContrastRatio(curve, x, y) == 1.0
  {
    LuminanceBounds(curve, x);
    var l := RelLuminance(curve, x);
    assert Max(l, l) == l && MinR(l, l) == l;
    QuotientOfSelf(l + 0.05);
  }

  lemma QuotientOfSelf(a: real)
    requires a > 0.0
    ensures a / a == 1.0
  {
  }

  /** a/d <= b/d for a <= b and d > 0; a/d2 <= a/d1 for 0 < d1 <= d2, a >= 0. */
  lemma DivMonotone(a: real, b: real, d1: real, d2: real)
    requires 0.0 <= a <= b && 0.0 < d1 <= d2
    ensures a / d2 <= b / d1
  {
    assert a / d2 * d2 == a;
    assert b / d1 * d1 == b;
    assert a / d2 * d1 <= a / d2 * d2;
  }

  /** No colour in gamut reaches a higher ratio against bg than the better
      of black and white. */
  lemma ContrastAtMostExtremes(curve: nat -> real, c: Color, bg: Color)
    requires ValidCurve(curve)
    requires InGamut(c)
    ensures ContrastRatio(curve, c, bg) <= Max(ContrastRatio(curve, Black, bg), ContrastRatio(curve, White, bg))
  {
    LuminanceBounds(curve, c);
    LuminanceBounds(curve, bg);
    var lc, lb := RelLuminance(curve, c), RelLuminance(curve, bg);
    if lc >= lb {
      assert ContrastRatio(curve, c, bg) == (lc + 0.05) / (lb + 0.05);
      if lb <= 1.0 {
        assert ContrastRatio(curve, White, bg) == (1.0 + 0.05) / (lb + 0.05);
      }
      DivMonotone(lc + 0.05, 1.0 + 0.05, lb + 0.05, lb + 0.05);
    } else {
      assert ContrastRatio(curve, c, bg) == (lb + 0.05) / (lc + 0.05);
      assert ContrastRatio(curve, Black, bg) == (lb + 0.05) / (0.0 + 0.05);
      DivMonotone(lb + 0.05, lb + 0.05, 0.05, lc + 0.05);
    }
  }

  /** Ratios between colours in gamut lie in [1, 21], and black on white
      reaches 21. */
  lemma ContrastAtMost21(curve: nat -> real, x: Color, y: Color)
    requires ValidCurve(curve)
    requires InGamut(x) && InGamut(y)
    ensures ContrastRatio(curve, x, y) <= 21.0
    ensures ContrastRatio(curve, Black, White) == 21.0
  {
    LuminanceBounds(curve, x);
    LuminanceBounds(curve, y);
    LuminanceBounds(curve, White);
    var l1, l2 := RelLuminance(curve, x), RelLuminance(curve, y);
    DivMonotone(Max(l1, l2) + 0.05, 1.05, 0.05, MinR(l1, l2) + 0.05);
  }

  // ---------------------------------------------------------------------
  // Blending: mix

  /** `Math.round(x)`: the nearest integer, halves rounded up. */
  function Round(x: real): int {
    (x + 0.5).Floor
  }

  /** Rounding a value that lies between two integers stays between them. */
  lemma RoundBetween(z: real, lo: int, hi: int)
    requires lo as real <= z <= hi as real
    ensures lo <= Round(z) <= hi
  {
  }

  lemma MulNonNegative(a: real, b: real)
    requires 0.0 <= a && 0.0 <= b
    ensures 0.0 <= a * b
  {
  }

  /** z = x + (y - x) * t lies between x and y for t in [0, 1]. */
  lemma LerpBounds(x: real, y: real, t: real, z: real)
    requires 0.0 <= t <= 1.0 && z == x + (y - x) * t
    ensures x <= y ==> x <= z <= y
    ensures y <= x ==> y <= z <= x
  {
    if x <= y {
      MulNonNegative(y - x, t);
      MulNonNegative(y - x, 1.0 - t);
    } else {
      MulNonNegative(x - y, t);
      MulNonNegative(x - y, 1.0 - t);
      assert (y - x) * t == -((x - y) * t);
    }
  }

  /** One channel of `mix`: Math.round(x + (y - x) * t), which for t in
      [0, 1] lies between x and y. */
  function MixChannel(x: nat, y: nat, t: real): (v: nat)
    requires 0.0 <= t <= 1.0
    ensures (x <= y ==> x <= v <= y) && (y <= x ==> y <= v <= x)
  {
    var z := x as real + (y as real - x as real) * t;
    LerpBounds(x as real, y as real, t, z);
    if x <= y then
      assert x as real <= y as real;
      RoundBetween(z, x, y);
      Round(z)
    else
      assert y as real <= x as real;
      RoundBetween(z, y, x);
      Round(z)
  }

  /** `mix(a, b, t)`: a blended toward b by t, always opaque. */
  function Mix(a: Color, b: Color, t: real): (m: Color)
    requires 0.0 <= t <= 1.0
    ensures m.a == 1.0
    ensures InGamut(a) && InGamut(b) ==> InGamut(m)
  {
    Color(MixChannel(a.r, b.r, t), MixChannel(a.g, b.g, t), MixChannel(a.b, b.b, t), 1.0)
  }

  /** Blending by 0 keeps a, by 1 reaches b (both made opaque). */
  lemma MixEnds(a: Color, b: Color)
    ensures Mix(a, b, 0.0) == Color(a.r, a.g, a.b, 1.0)
    ensures Mix(a, b, 1.0) == Color(b.r, b.g, b.b, 1.0)
  {
  }
}
