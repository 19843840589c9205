/**
 * The `RGB` colour value of pyxels: an immutable triple of byte channels.
 * The arithmetic, bitwise, LSB and lighten/darken operations build their
 * result through the clamping constructor `New`; `FromHex` builds it from
 * two-digit pairs, which are always bytes. The subset type `Byte` makes
 * "every channel lies in 0..255" part of the type. Python's exceptions become
 * `Failure` results.
 */
module Rgb {
  import Bits
  import HexDigits

  type Byte = x: int | 0 <= x < 256

  /** Channel numbers: 0 is red, 1 is green, 2 is blue. */
  type Index = k: int | 0 <= k < 3

  datatype RGB = RGB(red: Byte, green: Byte, blue: Byte)

  /** `InvalidFormat` stands for Python's ValueError, `DivisionByZero` for ZeroDivisionError. */
  datatype Error = InvalidFormat | DivisionByZero

  datatype Result<T> = Success(value: T) | Failure(error: Error)

  const Black := RGB(0, 0, 0)
  const White := RGB(255, 255, 255)

  /** Channel k of a colour. */
  function Ch(c: RGB, k: Index): Byte {
    if k == 0 then c.red else if k == 1 then c.green else c.blue
  }

  function Dist(a: int, b: int): nat {
    if a <= b then b - a else a - b
  }

  /** Saturation into a byte: the byte nearest to x. */
  function Clamp(x: int): (r: Byte)
    ensures 0 <= x <= 255 ==> r == x
    ensures forall b: Byte :: Dist(r, x) <= Dist(b, x)
  {
    if x < 0 then 0 else if x > 255 then 255 else x
  }

  /** The constructor `RGB(red, green, blue)`: each argument is clamped, never rejected. */
  function New(red: int, green: int, blue: int): (c: RGB)
    ensures 0 <= red <= 255 ==> c.red == red
    ensures 0 <= green <= 255 ==> c.green == green
    ensures 0 <= blue <= 255 ==> c.blue == blue
    ensures red > 255 ==> c.red == 255
    ensures green > 255 ==> c.green == 255
    ensures blue > 255 ==> c.blue == 255
    ensures red < 0 ==> c.red == 0
    ensures green < 0 ==> c.green == 0
    ensures blue < 0 ==> c.blue == 0
  {
    RGB(Clamp(red), Clamp(green), Clamp(blue))
  }

  /** `__eq__`: two colours are equal when all three channels are. */
  function Equals(x: RGB, y: RGB): (eq: bool)
    ensures eq <==> x == y
  {
    x.red == y.red && x.green == y.green && x.blue == y.blue
  }

  // ---------------------------------------------------------------------------
  // Hex notation #rrggbb
  // ---------------------------------------------------------------------------

  /** `#` followed by exactly six hexadecimal digits of either case. */
  predicate WellFormedHex(s: string) {
    |s| == 7 && s[0] == '#' && forall i :: 1 <= i < 7 ==> HexDigits.IsHexDigit(s[i])
  }

  /** The byte written by two hexadecimal digits, most significant first. */
  function PairValue(hi: char, lo: char): (n: Byte)
    requires HexDigits.IsHexDigit(hi) && HexDigits.IsHexDigit(lo)
    ensures n / 16 == HexDigits.DigitValue(hi) && n % 16 == HexDigits.DigitValue(lo)
  {
    16 * HexDigits.DigitValue(hi) + HexDigits.DigitValue(lo)
  }

  /** `RGB.from_hex`: the string must be `#` and six hexadecimal digits. */
  function FromHex(s: string): (r: Result<RGB>)
    ensures r.Success? <==> WellFormedHex(s)
    ensures r.Failure? ==> r.error == InvalidFormat
    ensures r.Success? ==>
      && r.value.red == PairValue(s[1], s[2])
      && r.value.green == PairValue(s[3], s[4])
      && r.value.blue == PairValue(s[5], s[6])
  {
    if !WellFormedHex(s) then Failure(InvalidFormat)
    else Success(RGB(PairValue(s[1], s[2]), PairValue(s[3], s[4]), PairValue(s[5], s[6])))
  }

  /** A byte as two lower-case digits, zero-padded. */
  function ByteToHex(n: Byte): (s: string)
    ensures |s| == 2
    ensures HexDigits.IsLowerHexDigit(s[0]) && HexDigits.IsLowerHexDigit(s[1])
    ensures PairValue(s[0], s[1]) == n
  {
    [HexDigits.LowerDigit(n / 16), HexDigits.LowerDigit(n % 16)]
  }

  /** `to_hex`: `#` and the three channels as lower-case digit pairs. */
  function ToHex(c: RGB): (s: string)
    ensures |s| == 7 && s[0] == '#'
    ensures forall i :: 1 <= i < 7 ==> HexDigits.IsLowerHexDigit(s[i])
    ensures PairValue(s[1], s[2]) == c.red
    ensures PairValue(s[3], s[4]) == c.green
    ensures PairValue(s[5], s[6]) == c.blue
  {
    "#" + ByteToHex(c.red) + ByteToHex(c.green) + ByteToHex(c.blue)
  }

  // ---------------------------------------------------------------------------
  // Saturating arithmetic: + - *
  // ---------------------------------------------------------------------------

  /** `x + y`: channel-wise sum, saturating at 255. */
  function Add(x: RGB, y: RGB): (r: RGB)
    ensures forall k: Index :: Ch(r, k) == if Ch(x, k) + Ch(y, k) <= 255 then Ch(x, k) + Ch(y, k) else 255
  {
    New(x.red + y.red, x.green + y.green, x.blue + y.blue)
  }

  /** `x - y`: channel-wise difference, saturating at 0. */
  function Sub(x: RGB, y: RGB): (r: RGB)
    ensures forall k: Index :: Ch(r, k) == if Ch(x, k) >= Ch(y, k) then Ch(x, k) - Ch(y, k) else 0
  {
    New(x.red - y.red, x.green - y.green, x.blue - y.blue)
  }

  /** `x * y`: channel-wise product, saturating at 255. */
  function Mul(x: RGB, y: RGB): (r: RGB)
    ensures forall k: Index :: Ch(r, k) == if Ch(x, k) * Ch(y, k) <= 255 then Ch(x, k) * Ch(y, k) else 255
  {
    New(x.red * y.red, x.green * y.green, x.blue * y.blue)
  }

  // ---------------------------------------------------------------------------
  // Division family: / // %
  // ---------------------------------------------------------------------------

  predicate HasZeroChannel(c: RGB) {
    c.red == 0 || c.green == 0 || c.blue == 0
  }

  /** The true quotient of two bytes, truncated toward zero. */
  function TruncatedQuotient(a: Byte, b: Byte): (q: int)
    requires b != 0
    ensures q * b <= a < (q + 1) * b
  {
    FloorQuotient(a, b);
    var x := (a as real) / (b as real);
    RealQuotientBounds(a as real, b as real, (a / b) as real);
    assert (a / b) as real <= x < (a / b) as real + 1.0;
    x.Floor
  }

  /** The integer quotient of bytes is bracketed by the divisor's multiples. */
  lemma FloorQuotient(a: Byte, b: Byte)
    requires b != 0
    ensures (a / b) * b <= a < (a / b + 1) * b
  {
    assert a == (a / b) * b + a % b;
    assert (a / b + 1) * b == (a / b) * b + b;
  }

  /** A real quotient lies between q and q + 1 when the dividend lies between q and q + 1 divisors. */
  lemma RealQuotientBounds(a: real, b: real, q: real)
    requires b > 0.0 && q * b <= a < (q + 1.0) * b
    ensures q <= a / b < q + 1.0
  {
    var d := a - q * b;
    assert 0.0 <= d < b;
    assert a / b == q + d / b;
    assert (d / b) * b == d;
    assert 0.0 <= d / b < 1.0;
  }

  /** `x / y`: channel-wise true division truncated to an integer; any zero divisor channel fails. */
  function TrueDiv(x: RGB, y: RGB): (r: Result<RGB>)
    ensures r.Failure? <==> HasZeroChannel(y)
    ensures r.Failure? ==> r.error == DivisionByZero
    ensures r.Success? ==> forall k: Index :: Ch(r.value, k) * Ch(y, k) <= Ch(x, k) < (Ch(r.value, k) + 1) * Ch(y, k)
  {
    if HasZeroChannel(y) then Failure(DivisionByZero)
    else
      var q := New(TruncatedQuotient(x.red, y.red), TruncatedQuotient(x.green, y.green),
                   TruncatedQuotient(x.blue, y.blue));
      Success(q)
  }

  /** `x // y`: channel-wise floor division; any zero divisor channel fails. */
  function FloorDiv(x: RGB, y: RGB): (r: Result<RGB>)
    ensures r.Failure? <==> HasZeroChannel(y)
    ensures r.Failure? ==> r.error == DivisionByZero
    ensures r.Success? ==> forall k: Index :: Ch(r.value, k) * Ch(y, k) <= Ch(x, k) < (Ch(r.value, k) + 1) * Ch(y, k)
  {
    if HasZeroChannel(y) then Failure(DivisionByZero)
    else
      FloorQuotient(x.red, y.red);
      FloorQuotient(x.green, y.green);
      FloorQuotient(x.blue, y.blue);
      Success(New(x.red / y.red, x.green / y.green, x.blue / y.blue))
  }

  /** `x % y`: channel-wise remainder; any zero divisor channel fails. */
  function Mod(x: RGB, y: RGB): (r: Result<RGB>)
    ensures r.Failure? <==> HasZeroChannel(y)
    ensures r.Failure? ==> r.error == DivisionByZero
    ensures r.Success? ==> forall k: Index :: Ch(r.value, k) == Ch(x, k) % Ch(y, k)
    ensures r.Success? ==> forall k: Index :: Ch(r.value, k) < Ch(y, k) && Ch(r.value, k) <= Ch(x, k)
  {
    if HasZeroChannel(y) then Failure(DivisionByZero)
    else
      RemainderAtMost(x.red, y.red);
      RemainderAtMost(x.green, y.green);
      RemainderAtMost(x.blue, y.blue);
      Success(New(x.red % y.red, x.green % y.green, x.blue % y.blue))
  }

  lemma RemainderAtMost(a: Byte, b: Byte)
    requires b != 0
    ensures a % b < b && a % b <= a
  {
    assert a == (a / b) * b + a % b;
    assert (a / b) * b >= 0;
  }

  // ---------------------------------------------------------------------------
  // Bitwise operators: & | ^ ~
  // ---------------------------------------------------------------------------

  /** `x & y`: channel-wise AND; it never exceeds either operand. */
  function BitAnd(x: RGB, y: RGB): (r: RGB)
    ensures forall k: Index :: Ch(r, k) == Bits.And(Ch(x, k), Ch(y, k))
    ensures forall k: Index :: Ch(r, k) <= Ch(x, k) && Ch(r, k) <= Ch(y, k)
  {
    Bits.AndAtMost(x.red, y.red);
    Bits.AndAtMost(x.green, y.green);
    Bits.AndAtMost(x.blue, y.blue);
    New(Bits.And(x.red, y.red), Bits.And(x.green, y.green), Bits.And(x.blue, y.blue))
  }

  /** `x | y`: channel-wise OR; bytes OR-ed stay bytes, so the clamp never acts. */
  function BitOr(x: RGB, y: RGB): (r: RGB)
    ensures forall k: Index :: Ch(r, k) == Bits.Or(Ch(x, k), Ch(y, k))
  {
    assert Bits.Pow2(8) == 256;
    Bits.OrBelow(x.red, y.red, 8);
    Bits.OrBelow(x.green, y.green, 8);
    Bits.OrBelow(x.blue, y.blue, 8);
    New(Bits.Or(x.red, y.red), Bits.Or(x.green, y.green), Bits.Or(x.blue, y.blue))
  }

  /** `x ^ y`: channel-wise XOR; bytes XOR-ed stay bytes, so the clamp never acts. */
  function BitXor(x: RGB, y: RGB): (r: RGB)
    ensures forall k: Index :: Ch(r, k) == Bits.Xor(Ch(x, k), Ch(y, k))
  {
    assert Bits.Pow2(8) == 256;
    Bits.XorBelow(x.red, y.red, 8);
    Bits.XorBelow(x.green, y.green, 8);
    Bits.XorBelow(x.blue, y.blue, 8);
    New(Bits.Xor(x.red, y.red), Bits.Xor(x.green, y.green), Bits.Xor(x.blue, y.blue))
  }

  /**
   * `~x & 0xFF` on Python's unbounded two's-complement integers: `~x` is
   * `-x - 1`, and masking with 0xFF keeps its residue modulo 256.
   */
  function NotByte(x: Byte): (r: Byte)
    ensures r == 255 - x
  {
    var complement := -(x as int) - 1;
    complement % 256
  }

  /** `~x`: channel-wise 8-bit complement. */
  function Invert(x: RGB): (r: RGB)
    ensures forall k: Index :: Ch(r, k) + Ch(x, k) == 255
  {
    New(NotByte(x.red), NotByte(x.green), NotByte(x.blue))
  }

  // ---------------------------------------------------------------------------
  // Least-significant-bit utilities
  // ---------------------------------------------------------------------------

  /** Every channel is 0 or 1. */
  predicate IsBitMask(c: RGB) {
    c.red <= 1 && c.green <= 1 && c.blue <= 1
  }

  /** `get_lsb`: channel-wise `c & 1`. */
  function GetLsb(c: RGB): (r: RGB)
    ensures IsBitMask(r)
    ensures forall k: Index :: Ch(r, k) == Ch(c, k) % 2
  {
    Bits.AndOne(c.red);
    Bits.AndOne(c.green);
    Bits.AndOne(c.blue);
    New(Bits.And(c.red, 1), Bits.And(c.green, 1), Bits.And(c.blue, 1))
  }

  /** One channel of `set_lsb`: `(c & 0xFE) | bit`. */
  function SetLsbChannel(c: Byte, bit: Byte): (r: Byte)
    requires bit <= 1
    ensures r % 2 == bit && r / 2 == c / 2
  {
    Bits.ClearLowBit(c);
    Bits.OrIntoEven(Bits.And(c, 254), bit);
    Bits.Or(Bits.And(c, 254), bit)
  }

  /**
   * `set_lsb(bits)`: replaces the lowest bit of every channel with the
   * corresponding channel of `bits`, which the caller keeps at 0 or 1.
   */
  function SetLsb(c: RGB, bits: RGB): (r: RGB)
    requires IsBitMask(bits)
    ensures GetLsb(r) == bits
    ensures forall k: Index :: Ch(r, k) / 2 == Ch(c, k) / 2
  {
    New(SetLsbChannel(c.red, bits.red), SetLsbChannel(c.green, bits.green),
        SetLsbChannel(c.blue, bits.blue))
  }

  // ---------------------------------------------------------------------------
  // Lighten and darken
  // ---------------------------------------------------------------------------

  /** `lighten(amount)`: adds `amount` to every channel, clamped. */
  function Lighten(c: RGB, amount: int): (r: RGB)
    ensures amount >= 0 ==> forall k: Index :: Ch(c, k) <= Ch(r, k)
    ensures forall k: Index :: Ch(r, k) == Clamp(Ch(c, k) + amount)
  {
    New(c.red + amount, c.green + amount, c.blue + amount)
  }

  /** `darken(amount)`: subtracts `amount` from every channel, clamped. */
  function Darken(c: RGB, amount: int): (r: RGB)
    ensures amount >= 0 ==> forall k: Index :: Ch(r, k) <= Ch(c, k)
    ensures forall k: Index :: Ch(r, k) == Clamp(Ch(c, k) - amount)
  {
    New(c.red - amount, c.green - amount, c.blue - amount)
  }
}
