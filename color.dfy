/** The immutable RGBA `Color` of `src/util/color.ts` and hex parsing. */
module Colors {
  import opened Wrappers
  import Interpolation

  /** Channels are nominally in [0, 1]; alpha defaults to 1 in the source. */
  datatype Color = Color(r: real, g: real, b: real, a: real)

  const TRANSPARENT: Color := Color(0.0, 0.0, 0.0, 0.0)
  const WHITE: Color := Color(1.0, 1.0, 1.0, 1.0)

  /** The argument of the colour arithmetic: a number or a colour. */
  datatype Operand = Num(k: real) | Col(c: Color)

  /** `withTransparency(a)`. */
  function WithTransparency(c: Color, a: real): (r: Color)
    ensures r.a == a && r.r == c.r && r.g == c.g && r.b == c.b
  {
    Color(c.r, c.g, c.b, a)
  }

  /** Setting alpha twice keeps only the last value; setting the current alpha changes nothing. */
  lemma WithTransparencyLastWins(c: Color, a1: real, a2: real)
    ensures WithTransparency(WithTransparency(c, a1), a2) == WithTransparency(c, a2)
    ensures WithTransparency(c, c.a) == c
  {
  }

  /** The r, g, b channels of an operand: a number stands for itself on all three. */
  function Channel(o: Operand, i: int): real
    requires 0 <= i < 3
  {
    match o
    case Num(k) => k
    case Col(c) => if i == 0 then c.r else if i == 1 then c.g else c.b
  }

  function Rgb(c: Color, i: int): real
    requires 0 <= i < 3
  {
    if i == 0 then c.r else if i == 1 then c.g else c.b
  }

  /** `add`: r, g, b change, alpha is the receiver's. */
  function Add(c: Color, o: Operand): (r: Color)
    ensures r.a == c.a
    ensures forall i :: 0 <= i < 3 ==> Rgb(r, i) == Rgb(c, i) + Channel(o, i)
  {
    match o
    case Num(k) => Color(c.r + k, c.g + k, c.b + k, c.a)
    case Col(v) => Color(c.r + v.r, c.g + v.g, c.b + v.b, c.a)
  }

  /** `subtract`: r, g, b change, alpha is the receiver's. */
  function Subtract(c: Color, o: Operand): (r: Color)
    ensures r.a == c.a
    ensures forall i :: 0 <= i < 3 ==> Rgb(r, i) == Rgb(c, i) - Channel(o, i)
  {
    match o
    case Num(k) => Color(c.r - k, c.g - k, c.b - k, c.a)
    case Col(v) => Color(c.r - v.r, c.g - v.g, c.b - v.b, c.a)
  }

  /** `multiply`: r, g, b change, alpha is the receiver's. */
  function Multiply(c: Color, o: Operand): (r: Color)
    ensures r.a == c.a
    ensures forall i :: 0 <= i < 3 ==> Rgb(r, i) == Rgb(c, i) * Channel(o, i)
  {
    match o
    case Num(k) => Color(c.r * k, c.g * k, c.b * k, c.a)
    case Col(v) => Color(c.r * v.r, c.g * v.g, c.b * v.b, c.a)
  }

  predicate NonZeroDivisor(o: Operand)
  {
    forall i :: 0 <= i < 3 ==> Channel(o, i) != 0.0
  }

  /** `divide`: r, g, b change, alpha is the receiver's. */
  function Divide(c: Color, o: Operand): (r: Color)
    requires NonZeroDivisor(o)
    ensures r.a == c.a
    ensures forall i :: 0 <= i < 3 ==> Rgb(r, i) * Channel(o, i) == Rgb(c, i)
  {
    match o
    case Num(k) =>
      assert Channel(o, 0) == k;
      Color(c.r / k, c.g / k, c.b / k, c.a)
    case Col(v) =>
      assert Channel(o, 0) == v.r && Channel(o, 1) == v.g && Channel(o, 2) == v.b;
      Color(c.r / v.r, c.g / v.g, c.b / v.b, c.a)
  }

  /** Arithmetic with another colour never takes that colour's alpha. */
  lemma ArithmeticIgnoresOperandAlpha(c: Color, v: Color, alpha: real)
    ensures Add(c, Col(v)) == Add(c, Col(WithTransparency(v, alpha)))
    ensures Subtract(c, Col(v)) == Subtract(c, Col(WithTransparency(v, alpha)))
    ensures Multiply(c, Col(v)) == Multiply(c, Col(WithTransparency(v, alpha)))
  {
  }

  /** `lerp(other, alpha)`: all four channels, alpha included, by numeric `interpolate`. */
  function Lerp(c1: Color, c2: Color, alpha: real): (r: Color)
    ensures alpha == 0.0 ==> r == c1
    ensures alpha == 1.0 ==> r == c2
  {
    Color(Interpolation.Interpolate(c1.r, c2.r, alpha), Interpolation.Interpolate(c1.g, c2.g, alpha),
          Interpolation.Interpolate(c1.b, c2.b, alpha), Interpolation.Interpolate(c1.a, c2.a, alpha))
  }

  /** Lerping between two opaque colours stays opaque; alpha is interpolated, not kept. */
  lemma LerpInterpolatesAlpha(c1: Color, c2: Color, alpha: real)
    ensures Lerp(c1, c2, alpha).a == c1.a + (c2.a - c1.a) * alpha
    ensures c1.a == c2.a ==> Lerp(c1, c2, alpha).a == c1.a
  {
    Interpolation.InterpolateAffine(c1.a, c2.a, alpha);
  }

  // ---------------------------------------------------------------- hex parsing

  function HexDigit(c: char): Option<int>
  {
    if '0' <= c <= '9' then Some(c as int - '0' as int)
    else if 'a' <= c <= 'f' then Some(c as int - 'a' as int + 10)
    else if 'A' <= c <= 'F' then Some(c as int - 'A' as int + 10)
    else None
  }

  /** The white space `parseInt` skips before a number. */
  predicate JsWhiteSpace(c: char)
  {
    c == ' ' || c == '\t' || c == '\n' || c == '\r' || c == '\U{000B}' || c == '\U{000C}' ||
    c == '\U{00A0}' || c == '\U{1680}' || ('\U{2000}' <= c <= '\U{200A}') ||
    c == '\U{2028}' || c == '\U{2029}' || c == '\U{202F}' || c == '\U{205F}' ||
    c == '\U{3000}' || c == '\U{FEFF}'
  }

  /** `parseInt(part, 16)` on a two-character string; None is NaN. White space
      and a sign may precede the digits, a "0x" prefix is skipped, and parsing
      stops at the first character that is not a hex digit. */
  function ParseHexPair(c0: char, c1: char): (r: Option<int>)
    ensures HexDigit(c0).Some? && HexDigit(c1).Some? && !(c0 == '0' && (c1 == 'x' || c1 == 'X')) ==>
              r == Some(16 * HexDigit(c0).value + HexDigit(c1).value)
  {
    if JsWhiteSpace(c0) || c0 == '+' then HexDigit(c1)
    else if c0 == '-' then (if HexDigit(c1).Some? then Some(-HexDigit(c1).value) else None)
    else if c0 == '0' && (c1 == 'x' || c1 == 'X') then None
    else if HexDigit(c0).Some? then
      (if HexDigit(c1).Some? then Some(16 * HexDigit(c0).value + HexDigit(c1).value) else HexDigit(c0))
    else None
  }

  /** `getComponent`: the parsed pair over 255. */
  function HexChannel(c0: char, c1: char): Result<real>
  {
    var v := ParseHexPair(c0, c1);
    if v.Some? then Ok(v.value as real / 255.0) else Err("NaN channel")
  }

  function DoubleEach(s: string): (d: string)
    ensures |d| == 2 * |s|
    ensures forall i :: 0 <= i < |s| ==> d[2 * i] == s[i] && d[2 * i + 1] == s[i]
  {
    if s == [] then [] else [s[0], s[0]] + DoubleEach(s[1..])
  }

  /** The hex string after the '#' is stripped, short forms are doubled and
      an opaque alpha is appended; always 8 characters when the length is allowed. */
  function ExpandHex(hex: string): (e: string)
    requires |hex| in {3, 4, 6, 8}
    ensures |e| == 8
  {
    var h := if |hex| == 3 || |hex| == 4 then DoubleEach(hex) else hex;
    if |h| == 6 then h + "ff" else h
  }

  function StripHash(hex: string): string
  {
    if |hex| > 0 && hex[0] == '#' then hex[1..] else hex
  }

  /** `colorFromHex(hex)`. */
  function FromHex(hex: string): (r: Result<Color>)
    ensures |StripHash(hex)| !in {3, 4, 6, 8} ==> r.Err?
  {
    var h := StripHash(hex);
    if |h| !in {3, 4, 6, 8} then Err("Hex string not well formatted")
    else
      var e := ExpandHex(h);
      var r := HexChannel(e[0], e[1]);
      var g := HexChannel(e[2], e[3]);
      var b := HexChannel(e[4], e[5]);
      var a := HexChannel(e[6], e[7]);
      if r.Err? || g.Err? || b.Err? || a.Err? then Err("NaN channel")
      else Ok(Color(r.value, g.value, b.value, a.value))
  }

  /** A leading '#' is optional. */
  lemma FromHexHashOptional(h: string)
    requires |h| == 0 || h[0] != '#'
    ensures FromHex("#" + h) == FromHex(h)
  {
    assert ("#" + h)[1..] == h;
  }

  /** The 3-digit form parses like the 6-digit form with every digit doubled,
      the 4-digit form like the doubled 8-digit form. */
  lemma FromHexShortForm(h: string)
    requires |h| == 3 || |h| == 4
    requires h[0] != '#'
    ensures FromHex(h) == FromHex(DoubleEach(h))
  {
    var d := DoubleEach(h);
    assert d[0] == h[0];
  }

  predicate AllHexDigits(h: string)
  {
    forall i :: 0 <= i < |h| ==> HexDigit(h[i]).Some?
  }

  lemma HexPairInRange(c0: char, c1: char)
    requires HexDigit(c0).Some? && HexDigit(c1).Some?
    ensures ParseHexPair(c0, c1).Some?
    ensures 0 <= ParseHexPair(c0, c1).value <= 255
  {
  }

  /** Six hex digits give an opaque colour with every channel in [0, 1];
      eight hex digits give all four channels in [0, 1]. */
  lemma FromHexChannelsInUnitInterval(h: string)
    requires |h| == 6 || |h| == 8
    requires AllHexDigits(h)
    ensures FromHex(h).Ok?
    ensures var c := FromHex(h).value;
            0.0 <= c.r <= 1.0 && 0.0 <= c.g <= 1.0 && 0.0 <= c.b <= 1.0 && 0.0 <= c.a <= 1.0
    ensures |h| == 6 ==> FromHex(h).value.a == 1.0
  {
    assert HexDigit(h[0]).Some?;
    var e := ExpandHex(h);
    assert forall i :: 0 <= i < 6 ==> e[i] == h[i];
    assert e[6] == if |h| == 6 then 'f' else h[6];
    assert e[7] == if |h| == 6 then 'f' else h[7];
    HexPairInRange(e[0], e[1]);
    HexPairInRange(e[2], e[3]);
    HexPairInRange(e[4], e[5]);
    HexPairInRange(e[6], e[7]);
  }

  /** The lower-case hex digit for 0 <= d < 16. */
  function HexDigitChar(d: int): char
    requires 0 <= d < 16
  {
    if d < 10 then ('0' as int + d) as char else ('a' as int + d - 10) as char
  }

  /** The two hex digits of a byte, lower case. */
  function HexByte(n: int): string
    requires 0 <= n < 256
  {
    [HexDigitChar(n / 16), HexDigitChar(n % 16)]
  }

  /** An eight-character string without '#' is read two characters per channel. */
  lemma FromHexEightDigits(h: string)
    requires |h| == 8 && h[0] != '#'
    ensures FromHex(h) ==
              var r, g, b, a := HexChannel(h[0], h[1]), HexChannel(h[2], h[3]),
                                HexChannel(h[4], h[5]), HexChannel(h[6], h[7]);
              if r.Err? || g.Err? || b.Err? || a.Err? then Err("NaN channel")
              else Ok(Color(r.value, g.value, b.value, a.value))
  {
    assert StripHash(h) == h;
    assert ExpandHex(h) == h;
  }

  /** Printing four bytes as hex and parsing them back gives byte / 255 per channel. */
  lemma FromHexRoundTrip(r: int, g: int, b: int, a: int)
    requires 0 <= r < 256 && 0 <= g < 256 && 0 <= b < 256 && 0 <= a < 256
    ensures FromHex(HexByte(r) + HexByte(g) + HexByte(b) + HexByte(a)) ==
            Ok(Color(r as real / 255.0, g as real / 255.0, b as real / 255.0, a as real / 255.0))
  {
    var hr, hg, hb, ha := HexByte(r), HexByte(g), HexByte(b), HexByte(a);
    var vr, vg, vb, va := r as real / 255.0, g as real / 255.0, b as real / 255.0, a as real / 255.0;
    HexByteChannel(r, hr, vr);
    HexByteChannel(g, hg, vg);
    HexByteChannel(b, hb, vb);
    HexByteChannel(a, ha, va);
    FromHexOfPairs(hr, hg, hb, ha, vr, vg, vb, va);
  }

  /** Four two-character channels, the first not starting with '#', read
      back as the colour of their values. */
  lemma FromHexOfPairs(hr: string, hg: string, hb: string, ha: string, r: real, g: real, b: real, a: real)
    requires |hr| == 2 && |hg| == 2 && |hb| == 2 && |ha| == 2 && hr[0] != '#'
    requires HexChannel(hr[0], hr[1]) == Ok(r) && HexChannel(hg[0], hg[1]) == Ok(g)
    requires HexChannel(hb[0], hb[1]) == Ok(b) && HexChannel(ha[0], ha[1]) == Ok(a)
    ensures FromHex(hr + hg + hb + ha) == Ok(Color(r, g, b, a))
  {
    var h := hr + hg + hb + ha;
    assert h[0] == hr[0] && h[1] == hr[1] && h[2] == hg[0] && h[3] == hg[1];
    assert h[4] == hb[0] && h[5] == hb[1] && h[6] == ha[0] && h[7] == ha[1];
    FromHexEightDigits(h);
  }

  /** A byte printed as two hex digits reads back as that byte over 255. */
  lemma HexByteChannel(n: int, h: string, v: real)
    requires 0 <= n < 256 && h == HexByte(n) && v == n as real / 255.0
    ensures |h| == 2 && h[0] != '#'
    ensures HexChannel(h[0], h[1]) == Ok(v)
  {
    HexByteParses(n);
  }

  lemma HexByteParses(n: int)
    requires 0 <= n < 256
    ensures HexByte(n)[0] != '#'
    ensures ParseHexPair(HexByte(n)[0], HexByte(n)[1]) == Some(n)
  {
    var hi, lo := n / 16, n % 16;
    assert n == 16 * hi + lo;
    assert HexDigit(HexDigitChar(hi)) == Some(hi);
    assert HexDigit(HexDigitChar(lo)) == Some(lo);
  }
}
