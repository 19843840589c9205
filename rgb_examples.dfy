/**
 * The concrete cases of the pyxels test suite (tests/test_rgb.py), stated
 * as facts about the model.
 */
module RgbExamples {
  import Bits
  import HexDigits
  import opened Rgb

  lemma HexExamples()
    ensures FromHex("#FF0000") == Success(RGB(255, 0, 0))
    ensures ToHex(New(255, 0, 0)) == "#ff0000"
    ensures FromHex("#FF") == Failure(InvalidFormat)
    ensures FromHex("#GGGGGG") == Failure(InvalidFormat)
  {
    assert !HexDigits.IsHexDigit('G');
  }

  lemma ArithmeticExamples()
    ensures Add(New(255, 0, 0), New(0, 255, 0)) == RGB(255, 255, 0)
    ensures Sub(New(255, 255, 255), New(0, 255, 0)) == RGB(255, 0, 255)
    ensures Mul(New(255, 255, 255), New(0, 255, 0)) == RGB(0, 255, 0)
  {
  }

  lemma DivisionExamples()
    ensures TrueDiv(White, RGB(1, 255, 1)) == Success(RGB(255, 1, 255))
    ensures FloorDiv(White, RGB(1, 255, 1)) == Success(RGB(255, 1, 255))
    ensures Mod(White, RGB(1, 255, 1)) == Success(Black)
    ensures TrueDiv(White, RGB(0, 255, 0)) == Failure(DivisionByZero)
    ensures FloorDiv(White, RGB(0, 255, 0)) == Failure(DivisionByZero)
    ensures Mod(White, RGB(0, 255, 0)) == Failure(DivisionByZero)
  {
    var t := TrueDiv(White, RGB(1, 255, 1)).value;
    assert t.red * 1 <= 255 < (t.red + 1) * 1;
    assert t.green * 255 <= 255 < (t.green + 1) * 255;
    assert t.blue * 1 <= 255 < (t.blue + 1) * 1;
  }

  lemma AndExample()
    ensures BitAnd(RGB(250, 128, 64), RGB(15, 64, 128)) == RGB(10, 0, 0)
  {
    var r := BitAnd(RGB(250, 128, 64), RGB(15, 64, 128));
    assert Ch(r, 0) == Bits.And(250, 15) && Ch(r, 1) == Bits.And(128, 64) && Ch(r, 2) == Bits.And(64, 128);
    AndValues();
    assert Ch(r, 0) == 10 && Ch(r, 1) == 0 && Ch(r, 2) == 0;
  }

  lemma OrExample()
    ensures BitOr(RGB(250, 128, 64), RGB(15, 64, 128)) == RGB(255, 192, 192)
  {
    var r := BitOr(RGB(250, 128, 64), RGB(15, 64, 128));
    assert Ch(r, 0) == Bits.Or(250, 15) && Ch(r, 1) == Bits.Or(128, 64) && Ch(r, 2) == Bits.Or(64, 128);
    OrValues();
  }

  // Each concrete digit-by-digit evaluation gets a lemma of its own, which keeps
  // the solver from unfolding all of them in one proof.
  lemma OrValues()
    ensures Bits.Or(250, 15) == 255 && Bits.Or(128, 64) == 192 && Bits.Or(64, 128) == 192
  {
    Or250With15();
    Or128With64();
    Or64With128();
  }

  lemma Or250With15()
    ensures Bits.Or(250, 15) == 255
  {
    assert Bits.Or(15, 0) == 15;
    assert Bits.Or(31, 1) == 31;
    assert Bits.Or(62, 3) == 63;
    assert Bits.Or(125, 7) == 127;
  }

  lemma Or128With64()
    ensures Bits.Or(128, 64) == 192
  {
    assert Bits.Or(1, 0) == 1;
    assert Bits.Or(2, 1) == 3;
    assert Bits.Or(4, 2) == 6;
    assert Bits.Or(8, 4) == 12;
    assert Bits.Or(16, 8) == 24;
    assert Bits.Or(32, 16) == 48;
    assert Bits.Or(64, 32) == 96;
  }

  lemma Or64With128()
    ensures Bits.Or(64, 128) == 192
  {
    Or128With64();
    Bits.OrCommutes(64, 128);
  }

  lemma XorExample()
    ensures BitXor(RGB(250, 128, 64), RGB(15, 64, 128)) == RGB(245, 192, 192)
  {
    var r := BitXor(RGB(250, 128, 64), RGB(15, 64, 128));
    assert Ch(r, 0) == Bits.Xor(250, 15) && Ch(r, 1) == Bits.Xor(128, 64) && Ch(r, 2) == Bits.Xor(64, 128);
    XorValues();
  }

  /** XOR is OR less AND, so these follow from the OR and AND values. */
  lemma XorValues()
    ensures Bits.Xor(250, 15) == 245 && Bits.Xor(128, 64) == 192 && Bits.Xor(64, 128) == 192
  {
    OrValues();
    AndValues();
    Bits.OrIsAndPlusXor(250, 15);
    Bits.OrIsAndPlusXor(128, 64);
    Bits.OrIsAndPlusXor(64, 128);
  }

  lemma AndValues()
    ensures Bits.And(250, 15) == 10 && Bits.And(128, 64) == 0 && Bits.And(64, 128) == 0
  {
    assert Bits.And(15, 0) == 0;
    assert Bits.And(31, 1) == 1;
    assert Bits.And(62, 3) == 2;
    assert Bits.And(125, 7) == 5;
    assert Bits.And(1, 0) == 0;
    assert Bits.And(2, 1) == 0;
    assert Bits.And(4, 2) == 0;
    assert Bits.And(8, 4) == 0;
    assert Bits.And(16, 8) == 0;
    assert Bits.And(32, 16) == 0;
    assert Bits.And(64, 32) == 0;
    assert Bits.And(128, 64) == 0;
    Bits.AndCommutes(64, 128);
  }

  lemma InvertExample()
    ensures Invert(RGB(250, 128, 64)) == RGB(5, 127, 191)
  {
    var r := Invert(RGB(250, 128, 64));
    assert Ch(r, 0) == 5 && Ch(r, 1) == 127 && Ch(r, 2) == 191;
  }

  lemma SetLsbExample()
    ensures SetLsb(RGB(254, 127, 63), RGB(1, 0, 1)) == RGB(255, 126, 63)
  {
    var r := SetLsb(RGB(254, 127, 63), RGB(1, 0, 1));
    assert Ch(r, 0) / 2 == 127 && Ch(GetLsb(r), 0) == 1;
    assert Ch(r, 1) / 2 == 63 && Ch(GetLsb(r), 1) == 0;
    assert Ch(r, 2) / 2 == 31 && Ch(GetLsb(r), 2) == 1;
  }

  lemma GetLsbExample()
    ensures GetLsb(RGB(255, 126, 63)) == RGB(1, 0, 1)
  {
    var g := GetLsb(RGB(255, 126, 63));
    assert Ch(g, 0) == 1 && Ch(g, 1) == 0 && Ch(g, 2) == 1;
  }

  /** The suite's sweep over all 256 grey levels. */
  lemma GetLsbOfGreys()
    ensures forall i: Byte :: GetLsb(RGB(i, i, i)) == RGB(Bits.And(i, 1), Bits.And(i, 1), Bits.And(i, 1))
  {
    forall i: Byte
      ensures GetLsb(RGB(i, i, i)) == RGB(Bits.And(i, 1), Bits.And(i, 1), Bits.And(i, 1))
    {
      Bits.AndOne(i);
      var h := GetLsb(RGB(i, i, i));
      assert Ch(h, 0) == i % 2 && Ch(h, 1) == i % 2 && Ch(h, 2) == i % 2;
    }
  }

  /** Every pattern the suite writes into a colour whose channels are all 254. */
  lemma SetLsbPatterns(bits: RGB)
    requires IsBitMask(bits)
    ensures SetLsb(RGB(254, 254, 254), bits) == RGB(254 + bits.red, 254 + bits.green, 254 + bits.blue)
  {
    var r := SetLsb(RGB(254, 254, 254), bits);
    assert Ch(r, 0) / 2 == 127 && Ch(GetLsb(r), 0) == bits.red;
    assert Ch(r, 1) / 2 == 127 && Ch(GetLsb(r), 1) == bits.green;
    assert Ch(r, 2) / 2 == 127 && Ch(GetLsb(r), 2) == bits.blue;
  }

  lemma LightenDarkenExamples()
    ensures Lighten(RGB(100, 100, 100), 10) == RGB(110, 110, 110)
    ensures Darken(RGB(100, 100, 100), 10) == RGB(90, 90, 90)
    ensures Lighten(RGB(250, 250, 250), 10) == White
    ensures Darken(RGB(5, 5, 5), 10) == Black
  {
  }

  lemma ClampingExamples()
    ensures New(300, 300, 300) == White
    ensures New(-10, -10, -10) == Black
  {
  }
}
