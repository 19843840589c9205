/**
 * Laws that relate the colour operations to one another: the hex round trip
 * in both directions, inverses of the saturating operations where no channel
 * saturates, agreement of the division operators, and the algebra of the
 * bitwise and LSB operations.
 */
module RgbLaws {
  import Bits
  import HexDigits
  import opened Rgb

  /** Two colours that agree on every channel are the same colour. */
  lemma ChannelsDetermine(x: RGB, y: RGB)
    requires forall k: Index :: Ch(x, k) == Ch(y, k)
    ensures x == y
  {
    assert Ch(x, 0) == Ch(y, 0) && Ch(x, 1) == Ch(y, 1) && Ch(x, 2) == Ch(y, 2);
  }

  // ---------------------------------------------------------------------------
  // Construction
  // ---------------------------------------------------------------------------

  /** Clamping leaves a colour's own channels unchanged. */
  lemma NewOfChannels(c: RGB)
    ensures New(c.red, c.green, c.blue) == c
  {
  }

  /** Clamping twice is clamping once. */
  lemma ClampIdempotent(x: int)
    ensures Clamp(Clamp(x)) == Clamp(x)
  {
  }

  /** Clamping never reverses the order of two values. */
  lemma ClampMonotone(x: int, y: int)
    requires x <= y
    ensures Clamp(x) <= Clamp(y)
  {
  }

  // ---------------------------------------------------------------------------
  // Hex notation
  // ---------------------------------------------------------------------------

  /** ASCII lower-casing of a whole string. */
  function LowerCase(s: string): string
  {
    seq(|s|, i requires 0 <= i < |s| => HexDigits.ToLower(s[i]))
  }

  /** Formatting and then parsing gives back every colour. */
  lemma HexRoundTrip(c: RGB)
    ensures FromHex(ToHex(c)) == Success(c)
  {
    var s := ToHex(c);
    assert WellFormedHex(s);
  }

  /** Parsing and then formatting gives back the accepted string, lower-cased. */
  lemma HexParseThenFormat(s: string)
    requires FromHex(s).Success?
    ensures ToHex(FromHex(s).value) == LowerCase(s)
  {
    var c := FromHex(s).value;
    var t, u := ToHex(c), LowerCase(s);
    assert WellFormedHex(s);
    DigitValuesDetermine(t[1], t[2], s[1], s[2]);
    DigitValuesDetermine(t[3], t[4], s[3], s[4]);
    DigitValuesDetermine(t[5], t[6], s[5], s[6]);
    forall i | 0 <= i < 7
      ensures t[i] == u[i]
    {
    }
  }

  /** Two lower-case digit pairs of equal value are the lower-cased pair. */
  lemma DigitValuesDetermine(a: char, b: char, p: char, q: char)
    requires HexDigits.IsLowerHexDigit(a) && HexDigits.IsLowerHexDigit(b)
    requires HexDigits.IsHexDigit(p) && HexDigits.IsHexDigit(q)
    requires PairValue(a, b) == PairValue(p, q)
    ensures a == HexDigits.ToLower(p) && b == HexDigits.ToLower(q)
  {
    HexDigits.LowerDigitOfValue(a);
    HexDigits.LowerDigitOfValue(b);
    HexDigits.LowerDigitOfValue(p);
    HexDigits.LowerDigitOfValue(q);
  }

  // ---------------------------------------------------------------------------
  // Saturating arithmetic
  // ---------------------------------------------------------------------------

  lemma AddCommutes(x: RGB, y: RGB)
    ensures Add(x, y) == Add(y, x)
  {
  }

  /** Where no channel overflows, subtracting the addend undoes an addition. */
  lemma SubUndoesAdd(x: RGB, y: RGB)
    requires forall k: Index :: Ch(x, k) + Ch(y, k) <= 255
    ensures Sub(Add(x, y), y) == x
  {
    var r := Sub(Add(x, y), y);
    forall k: Index
      ensures Ch(r, k) == Ch(x, k)
    {
      assert Ch(Add(x, y), k) == Ch(x, k) + Ch(y, k);
    }
    ChannelsDetermine(r, x);
  }

  /** Subtracting a colour from itself gives black. */
  lemma SubSelfIsBlack(x: RGB)
    ensures Sub(x, x) == Black
  {
  }

  /** (1,1,1) is the unit of multiplication and black absorbs it. */
  lemma MulUnitAndZero(x: RGB)
    ensures Mul(x, RGB(1, 1, 1)) == x
    ensures Mul(x, Black) == Black
  {
  }

  /** Lightening by a non-negative amount adds a grey of that amount. */
  lemma LightenIsAddGrey(c: RGB, amount: int)
    requires amount >= 0
    ensures Lighten(c, amount) == Add(c, New(amount, amount, amount))
  {
  }

  /** Darkening by a non-negative amount subtracts a grey of that amount. */
  lemma DarkenIsSubGrey(c: RGB, amount: int)
    requires amount >= 0
    ensures Darken(c, amount) == Sub(c, New(amount, amount, amount))
  {
  }

  /** Lightening by a negative amount darkens. */
  lemma LightenByNegativeIsDarken(c: RGB, amount: int)
    ensures Lighten(c, -amount) == Darken(c, amount)
  {
  }

  /** Where no channel would go below 0, lightening undoes darkening. */
  lemma LightenUndoesDarken(c: RGB, amount: nat)
    requires forall k: Index :: Ch(c, k) >= amount
    ensures Lighten(Darken(c, amount), amount) == c
  {
    var r := Lighten(Darken(c, amount), amount);
    forall k: Index
      ensures Ch(r, k) == Ch(c, k)
    {
      assert Ch(Darken(c, amount), k) == Ch(c, k) - amount;
    }
    ChannelsDetermine(r, c);
  }

  // ---------------------------------------------------------------------------
  // Division family
  // ---------------------------------------------------------------------------

  /** Truncated true division and floor division agree on bytes. */
  lemma TrueDivIsFloorDiv(x: RGB, y: RGB)
    ensures TrueDiv(x, y) == FloorDiv(x, y)
  {
    if !HasZeroChannel(y) {
      var t, f := TrueDiv(x, y).value, FloorDiv(x, y).value;
      forall k: Index
        ensures Ch(t, k) == Ch(f, k)
      {
        QuotientUnique(Ch(x, k), Ch(y, k), Ch(t, k), Ch(f, k));
      }
      ChannelsDetermine(t, f);
    }
  }

  /** At most one quotient q satisfies q * b <= a < (q + 1) * b. */
  lemma QuotientUnique(a: int, b: int, q1: int, q2: int)
    requires b > 0
    requires q1 * b <= a < (q1 + 1) * b
    requires q2 * b <= a < (q2 + 1) * b
    ensures q1 == q2
  {
  }

  /** Quotient and remainder recompose the dividend on every channel. */
  lemma DivModIdentity(x: RGB, y: RGB)
    requires !HasZeroChannel(y)
    ensures forall k: Index ::
      Ch(x, k) == Ch(FloorDiv(x, y).value, k) * Ch(y, k) + Ch(Mod(x, y).value, k)
  {
    var q, m := FloorDiv(x, y).value, Mod(x, y).value;
    assert q == RGB(x.red / y.red, x.green / y.green, x.blue / y.blue);
    assert m == RGB(x.red % y.red, x.green % y.green, x.blue % y.blue);
    DivModChannel(x.red, y.red);
    DivModChannel(x.green, y.green);
    DivModChannel(x.blue, y.blue);
  }

  lemma DivModChannel(a: Byte, b: Byte)
    requires b != 0
    ensures a == (a / b) * b + a % b
  {
  }

  // ---------------------------------------------------------------------------
  // Bitwise operators
  // ---------------------------------------------------------------------------

  /** XOR-ing the same colour twice restores the original. */
  lemma XorTwiceRestores(x: RGB, y: RGB)
    ensures BitXor(BitXor(x, y), y) == x
  {
    var r := BitXor(BitXor(x, y), y);
    forall k: Index
      ensures Ch(r, k) == Ch(x, k)
    {
      Bits.XorCancel(Ch(x, k), Ch(y, k));
    }
    ChannelsDetermine(r, x);
  }

  /** AND, OR and XOR are each symmetric in their operands. */
  lemma BitwiseCommutes(x: RGB, y: RGB)
    ensures BitAnd(x, y) == BitAnd(y, x)
    ensures BitOr(x, y) == BitOr(y, x)
    ensures BitXor(x, y) == BitXor(y, x)
  {
    forall k: Index
      ensures Ch(BitAnd(x, y), k) == Ch(BitAnd(y, x), k)
      ensures Ch(BitOr(x, y), k) == Ch(BitOr(y, x), k)
      ensures Ch(BitXor(x, y), k) == Ch(BitXor(y, x), k)
    {
      Bits.AndCommutes(Ch(x, k), Ch(y, k));
      Bits.OrCommutes(Ch(x, k), Ch(y, k));
      Bits.XorCommutes(Ch(x, k), Ch(y, k));
    }
    ChannelsDetermine(BitAnd(x, y), BitAnd(y, x));
    ChannelsDetermine(BitOr(x, y), BitOr(y, x));
    ChannelsDetermine(BitXor(x, y), BitXor(y, x));
  }

  /** On every channel, OR is AND plus XOR. */
  lemma OrIsAndPlusXor(x: RGB, y: RGB)
    ensures forall k: Index :: Ch(BitOr(x, y), k) == Ch(BitAnd(x, y), k) + Ch(BitXor(x, y), k)
  {
    forall k: Index
      ensures Ch(BitOr(x, y), k) == Ch(BitAnd(x, y), k) + Ch(BitXor(x, y), k)
    {
      Bits.OrIsAndPlusXor(Ch(x, k), Ch(y, k));
    }
  }

  /** The 8-bit complement is XOR with white. */
  lemma InvertIsXorWhite(x: RGB)
    ensures Invert(x) == BitXor(x, White)
  {
    var i, w := Invert(x), BitXor(x, White);
    forall k: Index
      ensures Ch(i, k) == Ch(w, k)
    {
      assert Bits.Pow2(8) == 256;
      Bits.XorAllOnes(Ch(x, k), 8);
    }
    ChannelsDetermine(i, w);
  }

  /** Complementing twice restores the original. */
  lemma InvertInvolution(x: RGB)
    ensures Invert(Invert(x)) == x
  {
    var r := Invert(Invert(x));
    forall k: Index
      ensures Ch(r, k) == Ch(x, k)
    {
    }
    ChannelsDetermine(r, x);
  }

  /** A colour and its complement have no bit in common and together make white. */
  lemma InvertComplements(x: RGB)
    ensures BitAnd(x, Invert(x)) == Black
    ensures BitOr(x, Invert(x)) == White
  {
    InvertIsXorWhite(x);
    var a, o := BitAnd(x, Invert(x)), BitOr(x, Invert(x));
    assert Bits.Pow2(8) == 256;
    forall k: Index
      ensures Ch(a, k) == 0 && Ch(o, k) == 255
    {
      var c := Ch(x, k);
      var n := Bits.Xor(c, 255);
      Bits.AndComplementIsZero(c, 8);
      Bits.OrIsAndPlusXor(c, n);
      Bits.XorCommutes(c, 255);
      Bits.XorCommutes(c, n);
      Bits.XorCancel(255, c);
    }
    ChannelsDetermine(a, Black);
    ChannelsDetermine(o, White);
  }

  // ---------------------------------------------------------------------------
  // Least-significant-bit utilities
  // ---------------------------------------------------------------------------

  /** Writing back a colour's own low bits changes nothing. */
  lemma SetOwnLsb(c: RGB)
    ensures SetLsb(c, GetLsb(c)) == c
  {
    var r := SetLsb(c, GetLsb(c));
    forall k: Index
      ensures Ch(r, k) == Ch(c, k)
    {
      assert Ch(GetLsb(r), k) == Ch(GetLsb(c), k);
      assert Ch(r, k) == 2 * (Ch(r, k) / 2) + Ch(r, k) % 2;
      assert Ch(c, k) == 2 * (Ch(c, k) / 2) + Ch(c, k) % 2;
    }
    ChannelsDetermine(r, c);
  }

  /** Of two LSB writes only the last one shows. */
  lemma SetLsbOverwrites(c: RGB, first: RGB, second: RGB)
    requires IsBitMask(first) && IsBitMask(second)
    ensures SetLsb(SetLsb(c, first), second) == SetLsb(c, second)
  {
    var r, s := SetLsb(SetLsb(c, first), second), SetLsb(c, second);
    forall k: Index
      ensures Ch(r, k) == Ch(s, k)
    {
      assert Ch(GetLsb(r), k) == Ch(GetLsb(s), k);
      assert Ch(r, k) == 2 * (Ch(r, k) / 2) + Ch(r, k) % 2;
      assert Ch(s, k) == 2 * (Ch(s, k) / 2) + Ch(s, k) % 2;
    }
    ChannelsDetermine(r, s);
  }

  /**
   * `set_lsb` replaces the low bit rather than OR-ing it in: on a channel
   * whose low bit is 1 a 0 bit clears it.
   */
  lemma SetLsbClears(c: RGB, bits: RGB, k: Index)
    requires IsBitMask(bits) && Ch(c, k) % 2 == 1 && Ch(bits, k) == 0
    ensures Ch(SetLsb(c, bits), k) == Ch(c, k) - 1
  {
    var r := SetLsb(c, bits);
    assert Ch(GetLsb(r), k) == 0;
    assert Ch(r, k) == 2 * (Ch(r, k) / 2) + Ch(r, k) % 2;
  }
}
