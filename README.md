# pyxels RGB colour value, modelled in Dafny

pyxels has one value type, `RGB`. It is an immutable colour of three byte channels: red, green and blue. Its constructor clamps every channel into 0..255. It parses and formats the six-digit `#rrggbb` hex notation of CSS Color Module Level 4, section 5.2. It has channel-wise saturating `+ - *` and channel-wise `/ // %`. These three fail when any divisor channel is 0. It has channel-wise `& | ^` and an 8-bit `~`. It can read and replace the least-significant bit of every channel. It can lighten or darken a colour with saturation.

The implementation file `pyxels/rgb.py` is not part of this model. The model follows every assertion of the test suite `tests/test_rgb.py`. Where those assertions leave a behaviour open, the model makes a choice, and each choice is listed under "## Left out". These cases are a non-whole quotient under `/`, overflow under `+`, underflow under `-`, a negative `lighten` or `darken` amount, and, in `from_hex`, lower-case digits and the mandatory leading `#`.

Layout:

- `bits.dfy`, module `Bits`: Python's `&`, `|` and `^` on non-negative integers. They are defined by recursion on the lowest binary digit. They are proved against the digit-wise reference `Bit(n, i)`.
- `hex_digits.dfy`, module `HexDigits`: single hex digits. It covers recognition in either case, their values, and lower-case output.
- `rgb.dfy`, module `Rgb`: the `RGB` datatype and every operation. A channel is the subset type `Byte` (0..255), so no colour can hold an out-of-range channel. The exceptions `ValueError` and `ZeroDivisionError` become `Failure(InvalidFormat)` and `Failure(DivisionByZero)`.
- `rgb_laws.dfy`, module `RgbLaws`: laws that relate the operations to each other. They cover the hex round trip in both directions, inverses, the agreement of the division operators, and bitwise and LSB algebra.
- `rgb_examples.dfy`, module `RgbExamples`: the test suite's concrete cases, stated as lemmas about the model.

Python's `__eq__` compares the three channels. It is `Rgb.Equals`, which coincides with Dafny's structural equality on `RGB`.

`set_lsb` replaces the lowest bit: each channel becomes `(c & 0xFE) | bit`. The test at tests/test_rgb.py:120-124 turns 127 with bit 0 into 126, so the old lowest bit is cleared first: a plain `c | bit` would have left 127 unchanged. The pattern test at tests/test_rgb.py:214-220 starts from 254 on every channel, an even value, where clearing first changes nothing.

## Model

| member | source | states |
|---|---|---|
| Rgb.Clamp | tests/test_rgb.py:168-175 | An in-range value is kept; the result is the byte nearest to the argument. |
| Rgb.New | tests/test_rgb.py:168-175 | The constructor keeps channels in 0..255, sends values above 255 to 255 and values below 0 to 0, and never fails. |
| Rgb.Equals | tests/test_rgb.py:168-170 | Two colours compare equal exactly when they are the same triple of channels. |
| Rgb.PairValue | tests/test_rgb.py:6-10 | Two hex digits give the byte whose high nibble is the first digit's value and whose low nibble is the second's. |
| Rgb.FromHex | tests/test_rgb.py:6-10 | Parsing succeeds exactly for `#` plus six hex digits of either case, decoding one byte per digit pair; every other string fails with InvalidFormat. |
| Rgb.ByteToHex | tests/test_rgb.py:13-15 | A byte is written as exactly two lower-case digits, zero-padded, that decode back to the byte. |
| Rgb.ToHex | tests/test_rgb.py:13-15 | Formatting gives `#` and six lower-case digits whose pairs decode to red, green and blue. |
| Rgb.Add | tests/test_rgb.py:18-24 | Each channel is the sum of the operands' channels, or 255 when the sum exceeds 255. |
| Rgb.Sub | tests/test_rgb.py:27-33 | Each channel is the difference of the operands' channels, or 0 when it would be negative. |
| Rgb.Mul | tests/test_rgb.py:36-42 | Each channel is the product of the operands' channels, or 255 when it exceeds 255. |
| Rgb.TruncatedQuotient | tests/test_rgb.py:45-51 | The truncated exact quotient q satisfies q*b <= a < (q+1)*b. |
| Rgb.TrueDiv | tests/test_rgb.py:72-76 | `/` fails with DivisionByZero exactly when some divisor channel is 0; otherwise each channel is the truncated quotient. |
| Rgb.FloorDiv | tests/test_rgb.py:79-83 | `//` fails with DivisionByZero exactly when some divisor channel is 0; otherwise each channel q satisfies q*b <= a < (q+1)*b. |
| Rgb.Mod | tests/test_rgb.py:86-90 | `%` fails with DivisionByZero exactly when some divisor channel is 0; otherwise each channel is the remainder of the dividend's channel by the divisor's, so it is below the divisor and at most the dividend. |
| Rgb.BitAnd | tests/test_rgb.py:93-97 | Each channel is the AND of the operands' channels and is at most either of them. |
| Rgb.BitOr | tests/test_rgb.py:100-104 | Each channel is the OR of the operands' channels; the clamp never changes it. |
| Rgb.BitXor | tests/test_rgb.py:107-111 | Each channel is the XOR of the operands' channels; the clamp never changes it. |
| Rgb.NotByte | tests/test_rgb.py:114-117 | `~x & 0xFF` on Python's unbounded integers is 255 - x for a byte x. |
| Rgb.Invert | tests/test_rgb.py:114-117 | Each channel of `~c` plus the same channel of c is 255. |
| Rgb.GetLsb | tests/test_rgb.py:127-130 | Each channel is its source channel's lowest bit, so the result is a 0/1 mask. |
| Rgb.SetLsbChannel | tests/test_rgb.py:120-124 | `(c & 0xFE)` OR `bit` has lowest bit `bit` and the same upper seven bits as c. |
| Rgb.SetLsb | tests/test_rgb.py:120-124 | The new colour's low bits are exactly `bits`, and every channel's upper seven bits are unchanged. |
| Rgb.Lighten | tests/test_rgb.py:156-159 | Every channel is the original plus the amount, saturated; a non-negative amount never darkens. |
| Rgb.Darken | tests/test_rgb.py:162-165 | Every channel is the original minus the amount, saturated; a non-negative amount never lightens. |
| RgbLaws.NewOfChannels | tests/test_rgb.py:168-175 | Building a colour from its own channels returns it unchanged. |
| RgbLaws.ClampIdempotent | tests/test_rgb.py:168-175 | Clamping twice is clamping once. |
| RgbLaws.ClampMonotone | tests/test_rgb.py:168-175 | Clamping preserves order. |
| RgbLaws.HexRoundTrip | tests/test_rgb.py:6-15 | `from_hex(to_hex(c)) == c` for every colour. |
| RgbLaws.HexParseThenFormat | tests/test_rgb.py:6-15 | For every accepted string, `to_hex(from_hex(s))` is s lower-cased. |
| RgbLaws.DigitValuesDetermine | tests/test_rgb.py:6-15 | A lower-case digit pair of the same value as an accepted pair is that pair lower-cased. |
| RgbLaws.AddCommutes | tests/test_rgb.py:18-24 | Saturating addition is symmetric. |
| RgbLaws.SubUndoesAdd | tests/test_rgb.py:18-33 | Where no channel overflows, `(x + y) - y == x`. |
| RgbLaws.SubSelfIsBlack | tests/test_rgb.py:27-33 | `x - x` is black. |
| RgbLaws.MulUnitAndZero | tests/test_rgb.py:36-42 | Multiplying by (1,1,1) changes nothing; multiplying by black gives black. |
| RgbLaws.LightenIsAddGrey | tests/test_rgb.py:156-159 | Lightening by n >= 0 equals adding the grey (n,n,n). |
| RgbLaws.DarkenIsSubGrey | tests/test_rgb.py:162-165 | Darkening by n >= 0 equals subtracting the grey (n,n,n). |
| RgbLaws.LightenByNegativeIsDarken | tests/test_rgb.py:156-165 | Lightening by -n is darkening by n. |
| RgbLaws.LightenUndoesDarken | tests/test_rgb.py:156-165 | Where no channel would go below 0, lightening undoes darkening. |
| RgbLaws.TrueDivIsFloorDiv | tests/test_rgb.py:45-60 | `/` and `//` give the same result, including the same failure, for all colours. |
| RgbLaws.QuotientUnique | tests/test_rgb.py:45-60 | At most one integer q satisfies q*b <= a < (q+1)*b. |
| RgbLaws.DivModIdentity | tests/test_rgb.py:54-69 | With no zero divisor channel, `x == (x // y) * y + x % y` on every channel. |
| RgbLaws.XorTwiceRestores | tests/test_rgb.py:107-111 | `(x ^ y) ^ y == x`. |
| RgbLaws.BitwiseCommutes | tests/test_rgb.py:93-111 | AND, OR and XOR are symmetric. |
| RgbLaws.OrIsAndPlusXor | tests/test_rgb.py:93-111 | On every channel, x OR y equals (x AND y) + (x XOR y). |
| RgbLaws.InvertIsXorWhite | tests/test_rgb.py:107-117 | `~x == x ^ white`. |
| RgbLaws.InvertInvolution | tests/test_rgb.py:114-117 | `~~x == x`. |
| RgbLaws.InvertComplements | tests/test_rgb.py:93-117 | x AND ~x is black and x OR ~x is white. |
| RgbLaws.SetOwnLsb | tests/test_rgb.py:120-130 | `c.set_lsb(c.get_lsb()) == c`. |
| RgbLaws.SetLsbOverwrites | tests/test_rgb.py:214-220 | Of two LSB writes only the second shows. |
| RgbLaws.SetLsbClears | tests/test_rgb.py:120-124 | A 0 bit on a channel whose low bit is 1 lowers that channel by one, so `set_lsb` clears bits. |
| RgbLaws.ChannelsDetermine | tests/test_rgb.py:168-170 | Colours that agree on all three channels are equal. |
| Bits.Bit | tests/test_rgb.py:93-111 | A binary digit is 0 or 1. |
| Bits.BitOfZero | tests/test_rgb.py:93-111 | Every digit of 0 is 0. |
| Bits.AndBit | tests/test_rgb.py:93-97 | Digit i of `a & b` is 1 exactly when digit i of both a and b is 1. |
| Bits.OrBit | tests/test_rgb.py:100-104 | Digit i of a OR b is 1 exactly when digit i of a or b is 1. |
| Bits.XorBit | tests/test_rgb.py:107-111 | Digit i of `a ^ b` is 1 exactly when the digits i of a and b differ. |
| Bits.BitsDetermine | tests/test_rgb.py:93-111 | Two naturals with the same digits are equal. |
| Bits.XorCancel | tests/test_rgb.py:107-111 | `(a ^ b) ^ b == a`. |
| Bits.AndCommutes | tests/test_rgb.py:93-97 | `a & b == b & a`. |
| Bits.OrCommutes | tests/test_rgb.py:100-104 | a OR b equals b OR a. |
| Bits.XorCommutes | tests/test_rgb.py:107-111 | `a ^ b == b ^ a`. |
| Bits.AndAtMost | tests/test_rgb.py:93-97 | `a & b` is at most a and at most b. |
| Bits.OrBelow | tests/test_rgb.py:100-104 | OR of two numbers below 2^k is below 2^k, so OR of bytes is a byte. |
| Bits.XorBelow | tests/test_rgb.py:107-111 | XOR of two numbers below 2^k is below 2^k, so XOR of bytes is a byte. |
| Bits.OrIsAndPlusXor | tests/test_rgb.py:93-111 | a OR b equals (a AND b) + (a XOR b). |
| Bits.AndAllOnes | tests/test_rgb.py:120-124 | Masking with k one-digits keeps a number below 2^k. |
| Bits.XorAllOnes | tests/test_rgb.py:114-117 | XOR with k one-digits maps a below 2^k to 2^k - 1 - a. |
| Bits.AndComplementIsZero | tests/test_rgb.py:93-117 | A number and its k-digit complement share no digit. |
| Bits.AndOne | tests/test_rgb.py:223-227 | `a & 1 == a % 2`. |
| Bits.ClearLowBit | tests/test_rgb.py:120-124 | `c & 0xFE` is c with its lowest bit cleared. |
| Bits.OrIntoEven | tests/test_rgb.py:120-124 | OR-ing 0 or 1 into an even number adds it. |
| HexDigits.ToLower | tests/test_rgb.py:6-15 | ASCII lower-casing turns a hex digit into a lower-case one and leaves non-capitals unchanged. |
| HexDigits.DigitValue | tests/test_rgb.py:6-10 | A hex digit's value is below 16. |
| HexDigits.LowerDigit | tests/test_rgb.py:13-15 | A value below 16 is written as a lower-case digit with that value. |
| HexDigits.DigitValueIgnoresCase | tests/test_rgb.py:6-10 | Upper- and lower-case spellings of a digit have the same value. |
| HexDigits.LowerDigitOfValue | tests/test_rgb.py:6-15 | Writing back a digit's value gives the digit in lower case. |
| RgbExamples.HexExamples | tests/test_rgb.py:192-199 | "#FF0000" parses to (255,0,0), (255,0,0) formats as "#ff0000", and "#FF" and "#GGGGGG" fail. |
| RgbExamples.ArithmeticExamples | tests/test_rgb.py:18-42 | The suite's `+`, `-` and `*` cases. |
| RgbExamples.DivisionExamples | tests/test_rgb.py:45-90 | The suite's `/`, `//` and `%` cases and their zero-divisor failures. |
| RgbExamples.AndExample | tests/test_rgb.py:93-97 | `(250,128,64) & (15,64,128) == (10,0,0)`. |
| RgbExamples.OrExample | tests/test_rgb.py:100-104 | (250,128,64) OR (15,64,128) is (255,192,192). |
| RgbExamples.XorExample | tests/test_rgb.py:107-111 | `(250,128,64) ^ (15,64,128) == (245,192,192)`. |
| RgbExamples.InvertExample | tests/test_rgb.py:114-117 | `~(250,128,64) == (5,127,191)`. |
| RgbExamples.SetLsbExample | tests/test_rgb.py:120-124 | `(254,127,63).set_lsb((1,0,1)) == (255,126,63)`. |
| RgbExamples.GetLsbExample | tests/test_rgb.py:127-130 | `(255,126,63).get_lsb() == (1,0,1)`. |
| RgbExamples.GetLsbOfGreys | tests/test_rgb.py:223-227 | For every grey (i,i,i), `get_lsb` gives (i AND 1, i AND 1, i AND 1). |
| RgbExamples.SetLsbPatterns | tests/test_rgb.py:214-220 | From (254,254,254), every 0/1 pattern gives 254 + bit on each channel, which equals 254 OR bit because 254 is even. |
| RgbExamples.LightenDarkenExamples | tests/test_rgb.py:202-211 | The suite's lighten and darken cases, including saturation at 255 and 0. |
| RgbExamples.ClampingExamples | tests/test_rgb.py:168-175 | (300,300,300) is white and (-10,-10,-10) is black. |

## Left out

- `blend` (tests/test_rgb.py:133-137, 178-189) is left out. It works on a floating-point factor and rounds the result.
- `to_grayscale` (tests/test_rgb.py:140-145) is left out. It truncates a floating-point weighted sum, and an integer rewrite could differ from IEEE rounding at the edges.
- `distance` (tests/test_rgb.py:148-153, 230-234) is left out. It returns a floating-point square root.
- Rgb.TrueDiv: the tests divide only where the quotient is whole (tests/test_rgb.py:45-51). For a non-whole quotient the model truncates toward zero, so 255/2 gives 127. A float channel or a rounded 128 would pass the tests just as well.
- Rgb.TrueDiv: divides exact rationals rather than IEEE doubles. Once the quotient is truncated, byte operands give the same result either way, because a non-integral quotient a/b is at least 1/255 away from an integer.
- Rgb.Add, Rgb.Sub: no test makes `+` or `-` leave 0..255 (tests/test_rgb.py:18-33). The model saturates at 255 and at 0, as the clamping constructor does (tests/test_rgb.py:168-175) and as `*` is shown to do by 255 * 255 (tests/test_rgb.py:36-42).
- Rgb.Lighten, Rgb.Darken: the tests use only the amount 10 (tests/test_rgb.py:156-165, 202-211). For a negative amount the model still adds (or subtracts) per channel and then clamps, so lightening (100,100,100) by -10 gives (90,90,90). Adding the clamped grey `RGB(n, n, n)` instead would leave that colour unchanged. `RgbLaws.LightenByNegativeIsDarken` holds only under the model's choice.
- Rgb.FromHex: the tests never pass a string without a leading `#` (tests/test_rgb.py:6-10, 192-199). The model rejects "FF0000" and "XFF0000". An implementation that strips an optional `#`, or one that reads `s[1:7]` without checking `s[0]`, would accept one of them.
- Rgb.FromHex: the tests parse only upper-case digits (tests/test_rgb.py:6-10). Accepting lower-case digits too is the model's choice, and it lets `from_hex` read back what `to_hex` writes.
- Rgb.SetLsb: requires every channel of `bits` to be 0 or 1. The caller must ensure this. The tests never pass another value, so the result for other values is not known.
- Rgb.FromHex: accepts only ASCII hex digits. An implementation built on Python's `int(s, 16)` might also accept a sign, surrounding whitespace or non-ASCII digits inside a pair. The tests do not show this.
- Shorthand hex forms (`#rgb`, `#rrggbbaa`) are not modelled. The tests show only the six-digit form.
- Operands that are not `RGB` values (Python's `TypeError` or `NotImplemented` paths) are not modelled. Neither is a non-integer `lighten`/`darken` amount.
