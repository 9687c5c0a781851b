/** 32-bit words: wrap-around, shifts and the bitwise or that packs four channels into one word. */
module Words {

  const WORD := 0x1_0000_0000

  type Word = w: nat | w < 0x1_0000_0000

  type Byte = b: nat | b < 256

  function Wrap(n: nat): Word { n % WORD }

  /** A sum that wraps at every step wraps as its exact value does. */
  lemma WrapAdd(a: nat, b: nat)
    ensures Wrap(Wrap(a) + b) == Wrap(a + b)
  {
  }

  function Or(x: nat, y: nat): nat
    decreases x + y
  {
    if x == 0 then y
    else if y == 0 then x
    else 2 * Or(x / 2, y / 2) + if x % 2 == 1 || y % 2 == 1 then 1 else 0
  }

  function Power2(k: nat): (p: nat)
    ensures p > 0
  {
    if k == 0 then 1 else 2 * Power2(k - 1)
  }

  /** Bits that do not meet are added by or. */
  lemma {:induction false} OrApart(x: nat, y: nat, k: nat)
    requires y < Power2(k)
    ensures Or(x * Power2(k), y) == x * Power2(k) + y
  {
    if k > 0 && x > 0 && y > 0 {
      var q := x * Power2(k - 1);
      assert x * Power2(k) == 2 * q;
      OrApart(x, y / 2, k - 1);
    }
  }

  function Alpha(p: Word): Byte { p / 0x100_0000 }
  function Red(p: Word): Byte { p / 0x1_0000 % 256 }
  function Green(p: Word): Byte { p / 0x100 % 256 }
  function Blue(p: Word): Byte { p % 256 }

  /** (a << 24) | (r << 16) | (g << 8) | b */
  function Pack(a: Word, r: Word, g: Word, b: Word): Word {
    Wrap(Or(Or(Or(Wrap(a * 0x100_0000), Wrap(r * 0x1_0000)), Wrap(g * 0x100)), b))
  }

  lemma Powers()
    ensures Power2(8) == 0x100 && Power2(16) == 0x1_0000 && Power2(24) == 0x100_0000
  {
    assert Power2(4) == 16;
    assert Power2(8) == 256 by { assert Power2(6) == 64; }
    assert Power2(12) == 4096 by { assert Power2(10) == 1024; }
    assert Power2(16) == 65536 by { assert Power2(14) == 16384; }
    assert Power2(20) == 1048576 by { assert Power2(18) == 262144; }
    assert Power2(24) == 16777216 by { assert Power2(22) == 4194304; }
  }

  lemma PackSum(a: Byte, r: Byte, g: Byte, b: Byte)
    ensures Pack(a, r, g, b) == 256 * (256 * (256 * a + r) + g) + b
  {
    Powers();
    var x := 256 * a + r;
    var y := 256 * x + g;
    hide *;
    OrApart(a, 0x1_0000 * r, 24);
    assert Or(0x100_0000 * a, 0x1_0000 * r) == 0x1_0000 * x;
    OrApart(x, 0x100 * g, 16);
    assert Or(0x1_0000 * x, 0x100 * g) == 0x100 * y;
    OrApart(y, b, 8);
    assert 256 * y + b < 0x1_0000_0000;
    PackIs(a, r, g, b);
  }

  lemma PackIs(a: Byte, r: Byte, g: Byte, b: Byte)
    ensures var p := Or(Or(Or(0x100_0000 * a, 0x1_0000 * r), 0x100 * g), b);
            p < 0x1_0000_0000 ==> Pack(a, r, g, b) == p
  {
    assert Wrap(a * 0x100_0000) == 0x100_0000 * a;
    assert Wrap(r * 0x1_0000) == 0x1_0000 * r;
    assert Wrap(g * 0x100) == 0x100 * g;
  }

  lemma Shifts(p: Word)
    ensures p / 0x1_0000 == p / 256 / 256 && p / 0x100_0000 == p / 256 / 256 / 256
  {
  }

  lemma Nest(q: nat, r: Byte)
    ensures (256 * q + r) / 256 == q && (256 * q + r) % 256 == r
  {
  }

  /** Packing and unpacking loses nothing, either way round. */
  lemma PackUnpack(a: Byte, r: Byte, g: Byte, b: Byte)
    ensures var p := Pack(a, r, g, b); Alpha(p) == a && Red(p) == r && Green(p) == g && Blue(p) == b
  {
    PackSum(a, r, g, b);
    hide Pack;
    Shifts(Pack(a, r, g, b));
    Nest(256 * (256 * a + r) + g, b);
    Nest(256 * a + r, g);
    Nest(a, r);
  }

  /** A word is its four channels, alpha highest and blue lowest. */
  lemma ChannelsExactly(p: Word)
    ensures p == 0x100_0000 * Alpha(p) + 0x1_0000 * Red(p) + 0x100 * Green(p) + Blue(p)
  {
    UnpackPack(p);
    PackSum(Alpha(p), Red(p), Green(p), Blue(p));
    hide *;
  }

  lemma UnpackPack(p: Word)
    ensures Pack(Alpha(p), Red(p), Green(p), Blue(p)) == p
  {
    PackSum(Alpha(p), Red(p), Green(p), Blue(p));
    hide Pack;
    Shifts(p);
  }
}
