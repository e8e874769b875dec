// Bytes as numbers, and 32-bit words made of them, the low byte first.
module Octets {
  type Octet = x: int | 0 <= x < 0x100
  type U32 = x: int | 0 <= x < 0x1_0000_0000

  function Word(b0: Octet, b1: Octet, b2: Octet, b3: Octet): U32 {
    b0 as int + b1 as int * 0x100 + b2 as int * 0x1_0000 + b3 as int * 0x100_0000
  }

  lemma Shifted(v: nat)
    ensures v / 0x1_0000 == v / 0x100 / 0x100
    ensures v / 0x100_0000 == v / 0x100 / 0x100 / 0x100
  {
  }

  lemma WordDigits(v: U32)
    ensures v / 0x100_0000 < 0x100
    ensures v == Word(v % 0x100, v / 0x100 % 0x100, v / 0x1_0000 % 0x100, v / 0x100_0000)
  {
    Shifted(v);
    var a := v / 0x100;
    var b := a / 0x100;
    assert v == a * 0x100 + v % 0x100 && a == b * 0x100 + a % 0x100 && b == b / 0x100 * 0x100 + b % 0x100;
  }
}
