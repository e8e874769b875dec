// Bytes as bit vectors, and the numbers they stand for.
module Bytes {
  import Octets

  type Byte = bv8

  function Weight(b: Byte, m: Byte, w: nat): nat { if b & m == m then w else 0 }

  // The number a byte stands for.
  function Val(b: Byte): (v: nat)
    ensures v < 0x100
  {
    Weight(b, 1, 1) + Weight(b, 2, 2) + Weight(b, 4, 4) + Weight(b, 8, 8)
    + Weight(b, 16, 16) + Weight(b, 32, 32) + Weight(b, 64, 64) + Weight(b, 128, 128)
  }

  function Put(c: bool, m: Byte): Byte { if c then m else 0 }

  function Pack(b0: bool, b1: bool, b2: bool, b3: bool, b4: bool, b5: bool, b6: bool, b7: bool): Byte {
    Put(b0, 1) | Put(b1, 2) | Put(b2, 4) | Put(b3, 8) | Put(b4, 16) | Put(b5, 32) | Put(b6, 64) | Put(b7, 128)
  }

  function Num(c: bool, w: nat): nat { if c then w else 0 }

  lemma PackVal(b0: bool, b1: bool, b2: bool, b3: bool, b4: bool, b5: bool, b6: bool, b7: bool)
    ensures Val(Pack(b0, b1, b2, b3, b4, b5, b6, b7))
            == Num(b0, 1) + Num(b1, 2) + Num(b2, 4) + Num(b3, 8) + Num(b4, 16) + Num(b5, 32) + Num(b6, 64)
              + Num(b7, 128)
  {
  }

  function Odd(n: nat): bool { n % 2 == 1 }

  function Half(n: nat): nat { n / 2 }

  // The low byte of a number: n & 0xFF.
  function Low(n: nat): Byte {
    var n1, n2, n3 := Half(n), Half(Half(n)), Half(Half(Half(n)));
    var n4, n5, n6, n7 := Half(n3), Half(Half(n3)), Half(Half(Half(n3))), Half(Half(Half(Half(n3))));
    Pack(Odd(n), Odd(n1), Odd(n2), Odd(n3), Odd(n4), Odd(n5), Odd(n6), Odd(n7))
  }

  lemma Halves(n: nat)
    ensures n == 2 * Half(n) + Num(Odd(n), 1)
  {
  }

  lemma Remainder(n: nat, h: nat, r: nat)
    requires n == 0x100 * h + r && r < 0x100
    ensures n % 0x100 == r
  {
  }

  lemma LowVal(n: nat)
    ensures Val(Low(n)) == n % 0x100
  {
    hide Half, Odd, Pack, Val;
    var n1, n2, n3 := Half(n), Half(Half(n)), Half(Half(Half(n)));
    var n4, n5, n6, n7 := Half(n3), Half(Half(n3)), Half(Half(Half(n3))), Half(Half(Half(Half(n3))));
    PackVal(Odd(n), Odd(n1), Odd(n2), Odd(n3), Odd(n4), Odd(n5), Odd(n6), Odd(n7));
    Halves(n); Halves(n1); Halves(n2); Halves(n3); Halves(n4); Halves(n5); Halves(n6); Halves(n7);
    Remainder(n, Half(n7), Val(Low(n)));
  }

  // ---------- little-endian numbers ----------

  function Le16(lo: Byte, hi: Byte): nat { Val(lo) + Val(hi) * 0x100 }

  function Le32(b0: Byte, b1: Byte, b2: Byte, b3: Byte): nat { Octets.Word(Val(b0), Val(b1), Val(b2), Val(b3)) }

  function Bytes32(n: nat): seq<Byte> { [Low(n), Low(n / 0x100), Low(n / 0x1_0000), Low(n / 0x100_0000)] }

  lemma Le16Low(n: nat)
    ensures Le16(Low(n), Low(n / 0x100)) == n % 0x1_0000
  {
    hide Low, Val;
    LowVal(n);
    LowVal(n / 0x100);
    Digits16(n);
  }

  lemma Digits16(n: nat)
    ensures n % 0x100 + n / 0x100 % 0x100 * 0x100 == n % 0x1_0000
  {
    var q := n / 0x100;
    var h := q / 0x100;
    var r := n % 0x100 + q % 0x100 * 0x100;
    assert n == 0x1_0000 * h + r;
    Remainder16(n, h, r);
  }

  lemma Remainder16(n: nat, h: nat, r: nat)
    requires n == 0x1_0000 * h + r && r < 0x1_0000
    ensures n % 0x1_0000 == r
  {
  }

  lemma Le32Low(n: nat)
    requires n < 0x1_0000_0000
    ensures var b := Bytes32(n); Le32(b[0], b[1], b[2], b[3]) == n
  {
    hide Low, Val, Octets.Word;
    LowVal(n);
    LowVal(n / 0x100);
    LowVal(n / 0x1_0000);
    LowVal(n / 0x100_0000);
    Octets.WordDigits(n);
    Remainder(n / 0x100_0000, 0, n / 0x100_0000);
  }
}
