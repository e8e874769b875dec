// What the checksum of Crc is, without its shift register: the remainder of a division of
// polynomials over the field of two elements.
//
// A polynomial is the sequence of its coefficients, the one of the highest power first.
module CrcPolynomial {
  import opened Bytes
  import opened Crc

  function Zeros(n: nat): (z: seq<bool>)
    ensures |z| == n && forall i :: 0 <= i < n ==> !z[i]
  {
    seq(n, _ => false)
  }

  function Add(a: seq<bool>, b: seq<bool>): (c: seq<bool>)
    requires |a| == |b|
    ensures |c| == |a| && forall i :: 0 <= i < |a| ==> c[i] == (a[i] != b[i])
  {
    seq(|a|, i requires 0 <= i < |a| => a[i] != b[i])
  }

  function Scaled(c: bool, g: seq<bool>): (s: seq<bool>)
    ensures |s| == |g|
  {
    if c then g else Zeros(|g|)
  }

  // The product, one coefficient of the first factor after the other.
  function Times(q: seq<bool>, g: seq<bool>): (t: seq<bool>)
    requires |g| > 0
    ensures |t| == |q| + |g| - 1
  {
    if q == [] then Zeros(|g| - 1)
    else
      var n := |q| - 1;
      Add(Times(q[..n], g) + [false], Zeros(n) + Scaled(q[n], g))
  }

  function Has(b: Byte, m: Byte): bool { b & m == m }

  function Mask(i: nat): Byte {
    if i == 0 then 1 else if i == 1 then 2 else if i == 2 then 4 else if i == 3 then 8
    else if i == 4 then 16 else if i == 5 then 32 else if i == 6 then 64 else 128
  }

  // A byte in the order in which a serial line sends it: the low bit first.
  function Bits(b: Byte): (s: seq<bool>)
    ensures |s| == 8 && forall i :: 0 <= i < 8 ==> s[i] == Has(b, Mask(i))
  {
    seq(8, i requires 0 <= i < 8 => Has(b, Mask(i)))
  }

  function Message(data: seq<Byte>): (m: seq<bool>)
    ensures |m| == 8 * |data|
  {
    if data == [] then [] else Message(data[..|data| - 1]) + Bits(data[|data| - 1])
  }

  // The divisor: monic, of degree 8, and without a constant term, as the low bit of `p` is shifted
  // out. For 0xB2 it is x^8 + x^7 + x^4 + x^3 + x.
  function Divisor(p: Byte): (g: seq<bool>)
    ensures |g| == 9 && g[0]
  {
    [true] + Bits(p)[1..] + [false]
  }

  // ---------- the shift register divides ----------

  lemma XorHas(a: Byte, b: Byte, i: nat)
    requires i < 8
    ensures Has(Xor(a, b), Mask(i)) == (Has(a, Mask(i)) != Has(b, Mask(i)))
  {
  }

  lemma XorBits(a: Byte, b: Byte)
    ensures Bits(Xor(a, b)) == Add(Bits(a), Bits(b))
  {
    hide Xor, Has, Mask, Bits, Add;
    forall i | 0 <= i < 8
      ensures Bits(Xor(a, b))[i] == Add(Bits(a), Bits(b))[i]
    {
      XorHas(a, b, i);
    }
  }

  function Half(c: Byte): Byte { c >> 1 }

  lemma HalfHas(c: Byte, i: nat)
    requires i < 7
    ensures Has(Half(c), Mask(i)) == Has(c, Mask(i + 1)) && !Has(Half(c), Mask(7))
  {
  }

  lemma HalfBits(c: Byte)
    ensures Bits(Half(c)) == Bits(c)[1..] + [false]
  {
    hide Has, Half, Mask, Bits;
    forall i | 0 <= i < 8
      ensures Bits(Half(c))[i] == (Bits(c)[1..] + [false])[i]
    {
      HalfHas(c, if i < 7 then i else 0);
    }
  }

  lemma ShiftIs(c: Byte, p: Byte)
    ensures Shift(c, p) == if Has(c, 1) then Half(Xor(c, p)) else Half(c)
  {
  }

  // One shift: the register times x is the divisor, if the low bit is set, and the new register.
  lemma ShiftDivides(c: Byte, p: Byte)
    ensures Bits(c) + [false] == Add(Scaled(Has(c, 1), Divisor(p)), [false] + Bits(Shift(c, p)))
  {
    hide Has, Xor, Shift, Half, Add, Bits, Zeros;
    ShiftIs(c, p);
    HalfBits(c);
    HalfBits(Xor(c, p));
    XorBits(c, p);
    LowBit(c);
    if Has(c, 1) {
      LowSet(Bits(c), Bits(p));
    } else {
      LowClear(Bits(c));
    }
  }

  lemma LowBit(c: Byte)
    ensures Bits(c)[0] == Has(c, 1)
  {
  }

  lemma LowSet(s: seq<bool>, p: seq<bool>)
    requires |s| == |p| == 8 && s[0]
    ensures s + [false] == Add([true] + p[1..] + [false], [false] + (Add(s, p)[1..] + [false]))
  {
    hide Add;
  }

  lemma LowClear(s: seq<bool>)
    requires |s| == 8 && !s[0]
    ensures s + [false] == Add(Zeros(9), [false] + (s[1..] + [false]))
  {
    hide Add, Zeros;
  }

  // ---------- sequences of coefficients ----------

  lemma AddZeros(a: seq<bool>)
    ensures Add(a, Zeros(|a|)) == a && Add(Zeros(|a|), a) == a
  {
  }

  lemma AddAssociates(a: seq<bool>, b: seq<bool>, c: seq<bool>)
    requires |a| == |b| == |c|
    ensures Add(Add(a, b), c) == Add(a, Add(b, c))
  {
  }

  lemma AddAppend(a: seq<bool>, b: seq<bool>, c: seq<bool>, d: seq<bool>)
    requires |a| == |b| && |c| == |d|
    ensures Add(a, b) + Add(c, d) == Add(a + c, b + d)
  {
  }

  lemma ZerosAppend(m: nat, n: nat)
    ensures Zeros(m) + Zeros(n) == Zeros(m + n)
  {
  }

  // A polynomial with quotient q and remainder r, by divisor g.
  function Composed(q: seq<bool>, g: seq<bool>, r: seq<bool>): (m: seq<bool>)
    requires |g| == |r| + 1
    ensures |m| == |q| + |r|
  {
    Add(Times(q, g), Zeros(|q|) + r)
  }

  // One more shift of the register is one more coefficient of the quotient.
  lemma ComposedStep(q: seq<bool>, c: Byte, p: Byte)
    ensures Composed(q, Divisor(p), Bits(c)) + [false]
            == Composed(q + [Has(c, 1)], Divisor(p), Bits(Shift(c, p)))
  {
    hide Bits, Divisor, Has, Shift, Times;
    var g, z, n, s := Divisor(p), Zeros(|q|), |q|, Scaled(Has(c, 1), Divisor(p));
    var t, b := Times(q, g), Bits(Shift(c, p));
    ShiftDivides(c, p);
    TimesStep(q, Has(c, 1), g);
    AddAppend(t, z + Bits(c), [false], [false]);
    assert Add([false], [false]) == [false];
    assert z + Bits(c) + [false] == z + (Bits(c) + [false]);
    AddAppend(z, z, s, [false] + b);
    AddZeros(z);
    AddAssociates(t + [false], z + s, z + ([false] + b));
    ZerosAppend(n, 1);
    assert Zeros(1) == [false];
    assert z + ([false] + b) == Zeros(n + 1) + b;
  }

  lemma TimesStep(q: seq<bool>, c: bool, g: seq<bool>)
    requires |g| > 0
    ensures Times(q + [c], g) == Add(Times(q, g) + [false], Zeros(|q|) + Scaled(c, g))
  {
    assert (q + [c])[..|q|] == q;
  }

  // n shifts
  lemma {:induction false} ComposedShifts(q: seq<bool>, c: Byte, p: Byte, n: nat) returns (q': seq<bool>)
    ensures |q'| == |q| + n
    ensures Composed(q, Divisor(p), Bits(c)) + Zeros(n) == Composed(q', Divisor(p), Bits(Shifts(c, p, n)))
  {
    hide Bits, Divisor, Has, Shift, Composed;
    if n == 0 {
      q' := q;
    } else {
      var r := ComposedShifts(q, c, p, n - 1);
      ComposedStep(r, Shifts(c, p, n - 1), p);
      q' := r + [Has(Shifts(c, p, n - 1), 1)];
      ZerosAppend(n - 1, 1);
      assert Zeros(1) == [false];
      var m := Composed(q, Divisor(p), Bits(c));
      assert m + Zeros(n - 1) + [false] == m + (Zeros(n - 1) + [false]);
    }
  }

  // The checksum is what remains of the message, times x^8, after the division.
  lemma {:induction false} Divides(data: seq<Byte>, p: Byte) returns (q: seq<bool>)
    ensures |q| == 8 * |data|
    ensures Message(data) + Zeros(8) == Composed(q, Divisor(p), Bits(From(0, data, p)))
  {
    hide Bits, Divisor, Shifts, Xor, Composed;
    if data == [] {
      q := [];
      NothingComposed(p);
    } else {
      var init, b := data[..|data| - 1], data[|data| - 1];
      var r := Divides(init, p);
      var c := From(0, init, p);
      assert data == init + [b];
      FromAppend(0, init, b, p);
      TakeByte(Message(init), r, c, b, p);
      q := ComposedShifts(r, Xor(c, b), p, 8);
    }
  }

  lemma NothingComposed(p: Byte)
    ensures Message([]) + Zeros(8) == Composed([], Divisor(p), Bits(From(0, [], p)))
  {
  }

  // A byte is added to the register before it is shifted out.
  lemma TakeByte(m: seq<bool>, q: seq<bool>, c: Byte, b: Byte, p: Byte)
    requires |m| == |q| && m + Zeros(8) == Composed(q, Divisor(p), Bits(c))
    ensures m + Bits(b) + Zeros(8) == Composed(q, Divisor(p), Bits(Xor(c, b))) + Zeros(8)
  {
    hide Bits, Divisor, Xor, Times;
    var t, z := Times(q, Divisor(p)), Zeros(|q|);
    XorBits(c, b);
    AddZeros(m);
    AddZeros(Bits(b));
    AddZeros(z);
    AddAppend(m, z, Zeros(8), Bits(b));
    AddAssociates(t, z + Bits(c), z + Bits(b));
    AddAppend(z, z, Bits(c), Bits(b));
  }

  // ---------- and no other byte is ----------

  // The leading coefficients of a product with a monic factor give back the other factor.
  lemma {:induction false} QuotientUnique(q: seq<bool>, q': seq<bool>, g: seq<bool>)
    requires |g| > 0 && g[0] && |q| == |q'| && Times(q, g)[..|q|] == Times(q', g)[..|q|]
    ensures q == q'
  {
    hide Times;
    if q != [] {
      var n := |q| - 1;
      var a, a' := q[..n], q'[..n];
      assert q == a + [q[n]] && q' == a' + [q'[n]];
      TimesPrefix(a, q[n], g);
      TimesPrefix(a', q'[n], g);
      var t, t' := Times(q, g), Times(q', g);
      assert t[..n] == t[..n + 1][..n] && t'[..n] == t'[..n + 1][..n];
      QuotientUnique(a, a', g);
      assert t[n] == t[..n + 1][n] && t'[n] == t'[..n + 1][n];
    }
  }

  lemma TimesPrefix(q: seq<bool>, c: bool, g: seq<bool>)
    requires |g| > 0 && g[0]
    ensures Times(q + [c], g)[..|q|] == Times(q, g)[..|q|]
    ensures Times(q + [c], g)[|q|] == ((Times(q, g) + [false])[|q|] != c)
  {
    hide Add, Zeros, Times, Scaled;
    var t, s := Times(q, g), Scaled(c, g);
    TimesStep(q, c, g);
    ScaledHead(c, g);
    AddHead(t + [false], |q|, s);
    Shorter(t, |q|);
  }

  lemma Shorter(t: seq<bool>, n: nat)
    requires n <= |t|
    ensures (t + [false])[..n] == t[..n]
  {
  }

  lemma ScaledHead(c: bool, g: seq<bool>)
    requires |g| > 0 && g[0]
    ensures Scaled(c, g)[0] == c
  {
  }

  lemma AddHead(t: seq<bool>, n: nat, s: seq<bool>)
    requires |t| == n + |s| && |s| > 0
    ensures Add(t, Zeros(n) + s)[..n] == t[..n] && Add(t, Zeros(n) + s)[n] == (t[n] != s[0])
  {
    var a := Add(t, Zeros(n) + s);
    assert forall i :: 0 <= i < n ==> a[i] == t[i];
  }

  lemma ComposedUnique(q: seq<bool>, q': seq<bool>, g: seq<bool>, r: seq<bool>, r': seq<bool>)
    requires |g| == |r| + 1 == |r'| + 1 && g[0] && |q| == |q'| && Composed(q, g, r) == Composed(q', g, r')
    ensures q == q' && r == r'
  {
    var m, m' := Composed(q, g, r), Composed(q', g, r');
    forall i | 0 <= i < |q|
      ensures Times(q, g)[..|q|][i] == Times(q', g)[..|q|][i]
    {
      assert m[i] == m'[i];
    }
    QuotientUnique(q, q', g);
    forall i | 0 <= i < |r|
      ensures r[i] == r'[i]
    {
      assert m[|q| + i] == m'[|q| + i];
    }
  }

  lemma BitsUnique(a: Byte, b: Byte)
    ensures Bits(a) == Bits(b) <==> a == b
  {
    hide Has, Mask, Bits;
    if Bits(a) == Bits(b) {
      forall i | 0 <= i < 8
        ensures Has(a, Mask(i)) == Has(b, Mask(i))
      {
        assert Bits(a)[i] == Bits(b)[i];
      }
      HasUnique(a, b);
    }
  }

  lemma HasUnique(a: Byte, b: Byte)
    requires forall i :: 0 <= i < 8 ==> Has(a, Mask(i)) == Has(b, Mask(i))
    ensures a == b
  {
    assert Has(a, Mask(0)) == Has(b, Mask(0)) && Has(a, Mask(1)) == Has(b, Mask(1));
    assert Has(a, Mask(2)) == Has(b, Mask(2)) && Has(a, Mask(3)) == Has(b, Mask(3));
    assert Has(a, Mask(4)) == Has(b, Mask(4)) && Has(a, Mask(5)) == Has(b, Mask(5));
    assert Has(a, Mask(6)) == Has(b, Mask(6)) && Has(a, Mask(7)) == Has(b, Mask(7));
  }

  // The message times x^8 leaves r when it is divided.
  ghost predicate Leaves(data: seq<Byte>, p: Byte, r: Byte) {
    exists q: seq<bool> :: |q| == 8 * |data| && Message(data) + Zeros(8) == Composed(q, Divisor(p), Bits(r))
  }

  // The checksum of any bytes, for any polynomial, is the remainder, and nothing else is.
  lemma ChecksumIsRemainder(data: seq<Byte>, p: Byte, r: Byte)
    ensures Leaves(data, p, r) <==> r == From(0, data, p)
  {
    hide Bits, Divisor, Composed, From;
    var q := Divides(data, p);
    assert Leaves(data, p, From(0, data, p));
    if Leaves(data, p, r) {
      var q' :| |q'| == 8 * |data| && Message(data) + Zeros(8) == Composed(q', Divisor(p), Bits(r));
      assert Divisor(p)[0];
      ComposedUnique(q, q', Divisor(p), Bits(From(0, data, p)), Bits(r));
      BitsUnique(r, From(0, data, p));
    }
  }

  // The divisor the bootloader and the host use, and the checksum of the byte 1.
  lemma Constants()
    ensures Divisor(POLYNOMIAL) == [true, true, false, false, true, true, false, true, false]
    ensures Fcs([0x01]) == 0x5F
  {
    ByteOne();
    assert From(0x5F, [0x01][1..], POLYNOMIAL) == 0x5F;
    assert Bits(0xB2) == [false, true, false, false, true, true, false, true];
  }

  lemma ByteOne()
    ensures Digest(0, 0x01, POLYNOMIAL) == 0x5F
  {
    var s1 := Shift(0x01, POLYNOMIAL);
    assert s1 == 0x59;
    var s2 := Shift(s1, POLYNOMIAL);
    var s3 := Shift(s2, POLYNOMIAL);
    var s4 := Shift(s3, POLYNOMIAL);
    var s5 := Shift(s4, POLYNOMIAL);
    var s6 := Shift(s5, POLYNOMIAL);
    var s7 := Shift(s6, POLYNOMIAL);
    assert Shift(s7, POLYNOMIAL) == 0x5F;
    ShiftsStep(0x01, 0);
    ShiftsStep(0x01, 1);
    ShiftsStep(0x01, 2);
    ShiftsStep(0x01, 3);
    ShiftsStep(0x01, 4);
    ShiftsStep(0x01, 5);
    ShiftsStep(0x01, 6);
    ShiftsStep(0x01, 7);
  }

  lemma ShiftsStep(c: Byte, n: nat)
    ensures Shifts(c, POLYNOMIAL, n + 1) == Shift(Shifts(c, POLYNOMIAL, n), POLYNOMIAL)
    ensures Shifts(c, POLYNOMIAL, 0) == c
  {
  }
}
