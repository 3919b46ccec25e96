/**
 * Colours of a toast: an RGB triple with every component in 0..255, its
 * validating constructor, the "#RRGGBB" rendering, value equality, the packed
 * hash code and the integer part of `brighter`.
 */
module ToastColors {
  import opened Wrappers

  /** One colour component. */
  type Component = x: int | 0 <= x <= 255

  datatype ToastColor = ToastColor(red: Component, green: Component, blue: Component)

  predicate InRange(x: int) {
    0 <= x <= 255
  }

  /**
   * The constructor: a colour when every component is in 0..255, None where
   * the constructor throws `IllegalArgumentException`.
   */
  function NewToastColor(red: int, green: int, blue: int): (r: Option<ToastColor>)
    ensures r.Some? <==> InRange(red) && InRange(green) && InRange(blue)
    ensures r.Some? ==> r.value.red == red && r.value.green == green && r.value.blue == blue
  {
    if red > 255 || red < 0 || green > 255 || green < 0 || blue > 255 || blue < 0 then None
    else Some(ToastColor(red, green, blue))
  }

  const HexDigits := "0123456789ABCDEF"

  /** The upper-case hexadecimal digit of d. */
  function HexDigit(d: int): char
    requires 0 <= d < 16
  {
    HexDigits[d]
  }

  /** `String.format("%02X", v)`: exactly two digits for a component. */
  function Hex2(v: Component): (s: string)
    ensures |s| == 2
  {
    [HexDigit(v / 16), HexDigit(v % 16)]
  }

  /** ASCII upper-casing of one character. */
  function UpperChar(c: char): char {
    if 'a' <= c <= 'z' then (c as int - 'a' as int + 'A' as int) as char else c
  }

  function ToUpperCase(s: string): (r: string)
    ensures |r| == |s|
    ensures forall i :: 0 <= i < |s| ==> r[i] == UpperChar(s[i])
  {
    if s == [] then [] else [UpperChar(s[0])] + ToUpperCase(s[1..])
  }

  /**
   * `toHEX`: "#", then two digits each for red, green and blue, upper-cased;
   * the upper-casing leaves the digits as `%02X` wrote them.
   */
  function ToHex(c: ToastColor): (s: string)
    ensures |s| == 7 && s[0] == '#'
    ensures s[1..3] == Hex2(c.red) && s[3..5] == Hex2(c.green) && s[5..7] == Hex2(c.blue)
    ensures forall i :: 1 <= i < 7 ==> s[i] in HexDigits
  {
    var raw := "#" + Hex2(c.red) + Hex2(c.green) + Hex2(c.blue);
    RawHexIsUpperCase(c.red, c.green, c.blue);
    RawHexFormat(c.red, c.green, c.blue);
    ToUpperCase(raw)
  }

  /** The string `toHEX` builds before upper-casing is already upper case. */
  lemma RawHexIsUpperCase(red: Component, green: Component, blue: Component)
    ensures var raw := "#" + Hex2(red) + Hex2(green) + Hex2(blue);
      ToUpperCase(raw) == raw
  {
    var r, g, b := Hex2(red), Hex2(green), Hex2(blue);
    Hex2IsUpperCase(red);
    Hex2IsUpperCase(green);
    Hex2IsUpperCase(blue);
    assert ToUpperCase("#") == "#";
    UpperCaseAppend("#", r);
    UpperCaseAppend("#" + r, g);
    UpperCaseAppend("#" + r + g, b);
  }

  /** The string `toHEX` builds: "#" and the three digit pairs at positions 1, 3 and 5. */
  lemma RawHexFormat(red: Component, green: Component, blue: Component)
    ensures var raw := "#" + Hex2(red) + Hex2(green) + Hex2(blue);
      && |raw| == 7 && raw[0] == '#'
      && raw[1..3] == Hex2(red) && raw[3..5] == Hex2(green) && raw[5..7] == Hex2(blue)
      && forall i :: 1 <= i < 7 ==> raw[i] in HexDigits
  {
    var r, g, b := Hex2(red), Hex2(green), Hex2(blue);
    var raw := "#" + r + g + b;
    assert raw == ['#', r[0], r[1], g[0], g[1], b[0], b[1]];
  }

  /** `toString` renders a colour as its hex form. */
  function ToString(c: ToastColor): (s: string)
    ensures s == ToHex(c)
    ensures |s| == 7 && s[0] == '#'
    ensures ParseHex(s) == Some(c)
  {
    ToHexParses(c);
    ToHex(c)
  }

  /** The value of an upper-case hexadecimal digit. */
  function DigitValue(ch: char): (r: Option<int>)
    ensures r.Some? ==> 0 <= r.value < 16 && HexDigit(r.value) == ch
    ensures forall d :: 0 <= d < 16 && HexDigit(d) == ch ==> r == Some(d)
  {
    if '0' <= ch <= '9' then Some(ch as int - '0' as int)
    else if 'A' <= ch <= 'F' then Some(ch as int - 'A' as int + 10)
    else None
  }

  /** The value of two upper-case hexadecimal digits. */
  function Pair(hi: char, lo: char): (r: Option<Component>)
    ensures r.Some? ==> Hex2(r.value) == [hi, lo]
  {
    var h := DigitValue(hi);
    var l := DigitValue(lo);
    if h.None? || l.None? then None
    else
      var v := h.value * 16 + l.value;
      assert v / 16 == h.value && v % 16 == l.value;
      Some(v)
  }

  /** Reads "#RRGGBB" with upper-case digits back into a colour. */
  function ParseHex(s: string): (r: Option<ToastColor>)
  {
    if |s| != 7 || s[0] != '#' then None
    else
      var red := Pair(s[1], s[2]);
      var green := Pair(s[3], s[4]);
      var blue := Pair(s[5], s[6]);
      if red.None? || green.None? || blue.None? then None
      else Some(ToastColor(red.value, green.value, blue.value))
  }

  /** The upper-casing in `toHEX` changes nothing: `%02X` already writes upper-case digits. */
  lemma ToHexIsUpperCase(c: ToastColor)
    ensures ToHex(c) == "#" + Hex2(c.red) + Hex2(c.green) + Hex2(c.blue)
  {
    RawHexIsUpperCase(c.red, c.green, c.blue);
  }

  /** Upper-casing works character by character, so it distributes over concatenation. */
  lemma {:induction false} UpperCaseAppend(a: string, b: string)
    ensures ToUpperCase(a + b) == ToUpperCase(a) + ToUpperCase(b)
    decreases |a|
  {
    if a == [] {
      assert a + b == b;
    } else {
      assert (a + b)[1..] == a[1..] + b;
      UpperCaseAppend(a[1..], b);
    }
  }

  /** The digits `%02X` writes are already upper case. */
  lemma Hex2IsUpperCase(v: Component)
    ensures ToUpperCase(Hex2(v)) == Hex2(v)
  {
    var s := Hex2(v);
    assert UpperChar(s[0]) == s[0] && UpperChar(s[1]) == s[1];
    assert ToUpperCase(s) == [UpperChar(s[0]), UpperChar(s[1])];
  }

  /** Decoding the three digit pairs of `toHEX` gives back the colour. */
  lemma ToHexParses(c: ToastColor)
    ensures ParseHex(ToHex(c)) == Some(c)
  {
    var s := ToHex(c);
    HexPairParses(c.red, s[1], s[2]);
    HexPairParses(c.green, s[3], s[4]);
    HexPairParses(c.blue, s[5], s[6]);
  }

  lemma HexPairParses(v: Component, hi: char, lo: char)
    requires Hex2(v) == [hi, lo]
    ensures Pair(hi, lo) == Some(v)
  {
    assert DigitValue(hi) == Some(v / 16);
    assert DigitValue(lo) == Some(v % 16);
  }

  /** Conversely every string that parses is the hex form of what it parses to. */
  lemma ParseHexIsToHex(s: string)
    requires ParseHex(s).Some?
    ensures ToHex(ParseHex(s).value) == s
  {
    var red, green, blue := Pair(s[1], s[2]).value, Pair(s[3], s[4]).value, Pair(s[5], s[6]).value;
    assert ParseHex(s).value == ToastColor(red, green, blue);
    ToHexIsUpperCase(ToastColor(red, green, blue));
    HexRender(s, red, green, blue);
  }

  lemma HexRender(s: string, red: Component, green: Component, blue: Component)
    requires |s| == 7 && s[0] == '#'
    requires Hex2(red) == [s[1], s[2]] && Hex2(green) == [s[3], s[4]] && Hex2(blue) == [s[5], s[6]]
    ensures "#" + Hex2(red) + Hex2(green) + Hex2(blue) == s
  {
    assert s == [s[0], s[1], s[2], s[3], s[4], s[5], s[6]];
  }

  /** `toHEX` tells colours apart. */
  lemma ToHexInjective(a: ToastColor, b: ToastColor)
    ensures ToHex(a) == ToHex(b) <==> a == b
  {
    ToHexParses(a);
    ToHexParses(b);
  }

  /** The argument of `equals`: a colour, or None for null and for an object of any other class. */
  function Equals(c: ToastColor, other: Option<ToastColor>): (r: bool)
    ensures r <==> other == Some(c)
  {
    match other
    case None => false
    case Some(o) => o.red == c.red && o.green == c.green && o.blue == c.blue
  }

  function Pow2(k: nat): (p: nat)
    ensures p >= 1
  {
    if k == 0 then 1 else 2 * Pow2(k - 1)
  }

  /** Java's `x << k` on a value that does not overflow. */
  function ShiftLeft(x: nat, k: nat): nat {
    x * Pow2(k)
  }

  /** Java's `|` on non-negative values, bit by bit from the lowest. */
  function BitOr(a: nat, b: nat): nat
    decreases a + b
  {
    if a == 0 then b
    else if b == 0 then a
    else 2 * BitOr(a / 2, b / 2) + (if a % 2 == 1 || b % 2 == 1 then 1 else 0)
  }

  /** Or-ing a value into bits left free by a shift is adding it. */
  lemma {:induction false} BitOrDisjoint(a: nat, c: nat, k: nat)
    requires c < Pow2(k)
    ensures BitOr(ShiftLeft(a, k), c) == ShiftLeft(a, k) + c
    decreases k
  {
    if k > 0 && a != 0 && c != 0 {
      var x := ShiftLeft(a, k);
      assert x == 2 * ShiftLeft(a, k - 1);
      assert x / 2 == ShiftLeft(a, k - 1) && x % 2 == 0;
      BitOrDisjoint(a, c / 2, k - 1);
    }
  }

  /** `hashCode`: blue shifted by 16 bits, green by 8, and red, combined with bitwise or. */
  function HashCode(c: ToastColor): (h: int)
    ensures h == c.red + 256 * c.green + 65536 * c.blue
  {
    assert Pow2(8) == 256 && Pow2(16) == 65536;
    BitOrDisjoint(c.blue, ShiftLeft(c.green, 8), 16);
    assert ShiftLeft(c.blue, 16) + ShiftLeft(c.green, 8) == ShiftLeft(256 * c.blue + c.green, 8);
    BitOrDisjoint(256 * c.blue + c.green, c.red, 8);
    BitOr(BitOr(ShiftLeft(c.blue, 16), ShiftLeft(c.green, 8)), c.red)
  }

  /** The packing of three components is one-to-one. */
  lemma PackingInjective(r1: Component, g1: Component, b1: Component, r2: Component, g2: Component, b2: Component)
    requires r1 + 256 * g1 + 65536 * b1 == r2 + 256 * g2 + 65536 * b2
    ensures r1 == r2 && g1 == g2 && b1 == b2
  {
  }

  /** Equal colours have equal hash codes, and distinct colours distinct ones. */
  lemma HashCodeInjective(a: ToastColor, b: ToastColor)
    ensures HashCode(a) == HashCode(b) <==> Equals(a, Some(b))
  {
    if HashCode(a) == HashCode(b) {
      PackingInjective(a.red, a.green, a.blue, b.red, b.green, b.blue);
    }
  }

  /** `(int)(1.0 / (1.0 - 0.7))`: the smallest non-zero component `brighter` produces. */
  const BrighterFloor := 3

  /** A component below the floor but not zero is raised to the floor before scaling. */
  function RaiseToFloor(v: Component): (r: Component)
    ensures v == 0 || v >= BrighterFloor ==> r == v
    ensures 0 < v < BrighterFloor ==> r == BrighterFloor
  {
    if v > 0 && v < BrighterFloor then BrighterFloor else v
  }

  /**
   * `brighter`, with the division by the factor 0.7 and its truncation given
   * as `scale`: black becomes the grey (3, 3, 3); otherwise each component is
   * raised to the floor when it is positive and below it, scaled, and capped
   * at 255. The result is None when a scaled component is negative, where the
   * constructor would throw.
   */
  function Brighter(c: ToastColor, scale: int -> int): (r: Option<ToastColor>)
    ensures c == ToastColor(0, 0, 0) ==> r == Some(ToastColor(3, 3, 3))
    ensures c != ToastColor(0, 0, 0) && r.Some? ==>
      && r.value.red == Min(scale(RaiseToFloor(c.red)), 255)
      && r.value.green == Min(scale(RaiseToFloor(c.green)), 255)
      && r.value.blue == Min(scale(RaiseToFloor(c.blue)), 255)
  {
    var i := BrighterFloor;
    if c.red == 0 && c.green == 0 && c.blue == 0 then NewToastColor(i, i, i)
    else
      NewToastColor(
        Min(scale(RaiseToFloor(c.red)), 255),
        Min(scale(RaiseToFloor(c.green)), 255),
        Min(scale(RaiseToFloor(c.blue)), 255))
  }

  function Min(a: int, b: int): int {
    if a <= b then a else b
  }

  /**
   * For any scaling that never makes a component smaller, `brighter` yields
   * a colour and none of its components is darker than the original's.
   */
  lemma BrighterNeverDarkens(c: ToastColor, scale: int -> int)
    requires forall v: int :: 0 <= v <= 255 ==> v <= scale(v)
    ensures Brighter(c, scale).Some?
    ensures var b := Brighter(c, scale).value;
      b.red >= c.red && b.green >= c.green && b.blue >= c.blue
  {
    assert scale(RaiseToFloor(c.red)) >= RaiseToFloor(c.red);
    assert scale(RaiseToFloor(c.green)) >= RaiseToFloor(c.green);
    assert scale(RaiseToFloor(c.blue)) >= RaiseToFloor(c.blue);
  }
}
