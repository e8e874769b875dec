// The frame check sequence: bootloader/src/generic/crc.c on the target and calculate_fcs of
// tools/kernel_prog.py on the host.
module Crc {
  import opened Bytes

  const POLYNOMIAL: Byte := 0xB2

  function Xor(a: Byte, b: Byte): Byte { a ^ b }

  // One bit of the shift register.
  function Shift(c: Byte, p: Byte): Byte { (if c & 1 == 1 then Xor(c, p) else c) >> 1 }

  function Shifts(c: Byte, p: Byte, n: nat): Byte { if n == 0 then c else Shift(Shifts(c, p, n - 1), p) }

  function Digest(c: Byte, b: Byte, p: Byte): Byte { Shifts(Xor(c, b), p, 8) }

  // The checksum of some bytes, from a register that holds `c`.
  function From(c: Byte, data: seq<Byte>, p: Byte): Byte
    decreases |data|
  {
    if data == [] then c else From(Digest(c, data[0], p), data[1..], p)
  }

  function Fcs(data: seq<Byte>): Byte { From(0, data, POLYNOMIAL) }

  lemma {:induction false} FromConcat(c: Byte, a: seq<Byte>, b: seq<Byte>, p: Byte)
    ensures From(c, a + b, p) == From(From(c, a, p), b, p)
    decreases |a|
  {
    hide Digest;
    if a == [] {
      assert a + b == b;
    } else {
      assert (a + b)[1..] == a[1..] + b;
      FromConcat(Digest(c, a[0], p), a[1..], b, p);
    }
  }

  lemma FromAppend(c: Byte, data: seq<Byte>, b: Byte, p: Byte)
    ensures From(c, data + [b], p) == Digest(From(c, data, p), b, p)
  {
    hide Digest;
    FromConcat(c, data, [b], p);
    assert [b][1..] == [];
  }

  // The inner loop of crc_calculate: one byte through the register
  method ShiftByte(crc: Byte, polynomial: Byte) returns (r: Byte)
    ensures r == Shifts(crc, polynomial, 8)
  {
    r := crc;
    for j := 0 to 8
      invariant r == Shifts(crc, polynomial, j)
    {
      if r & 0x01 == 1 {
        r := Xor(r, polynomial);
      }
      r := r >> 1;
    }
  }

  // crc_calculate
  method CrcCalculate(src: seq<Byte>, polynomial: Byte) returns (crc: Byte)
    ensures crc == From(0, src, polynomial)
  {
    hide Xor, Shifts;
    crc := 0;
    for i := 0 to |src|
      invariant crc == From(0, src[..i], polynomial)
    {
      FromAppend(0, src[..i], src[i], polynomial);
      assert src[..i + 1] == src[..i] + [src[i]];
      crc := ShiftByte(Xor(crc, src[i]), polynomial);
    }
    assert src[..|src|] == src;
  }

  // ---------- linearity ----------

  lemma ShiftXor(a: Byte, b: Byte)
    ensures Shift(Xor(a, b), POLYNOMIAL) == Xor(Shift(a, POLYNOMIAL), Shift(b, POLYNOMIAL))
  {
  }

  lemma {:induction false} ShiftsXor(a: Byte, b: Byte, n: nat)
    ensures Shifts(Xor(a, b), POLYNOMIAL, n) == Xor(Shifts(a, POLYNOMIAL, n), Shifts(b, POLYNOMIAL, n))
  {
    hide Shift, Xor;
    if n > 0 {
      ShiftsXor(a, b, n - 1);
      ShiftXor(Shifts(a, POLYNOMIAL, n - 1), Shifts(b, POLYNOMIAL, n - 1));
    }
  }

  function XorAll(a: seq<Byte>, b: seq<Byte>): (c: seq<Byte>)
    requires |a| == |b|
    ensures |c| == |a| && forall i :: 0 <= i < |a| ==> c[i] == Xor(a[i], b[i])
  {
    if a == [] then [] else [Xor(a[0], b[0])] + XorAll(a[1..], b[1..])
  }

  lemma Regroup(a: Byte, b: Byte, c: Byte, d: Byte)
    ensures Xor(Xor(a, b), Xor(c, d)) == Xor(Xor(a, c), Xor(b, d))
  {
    hide Xor;
    Associates(Xor(a, b), c, d);
    Associates(a, b, c);
    Commutes(b, c);
    Associates(a, c, b);
    Associates(Xor(a, c), b, d);
  }

  lemma Associates(a: Byte, b: Byte, c: Byte)
    ensures Xor(Xor(a, b), c) == Xor(a, Xor(b, c))
  {
  }

  lemma Commutes(a: Byte, b: Byte)
    ensures Xor(a, b) == Xor(b, a)
  {
  }

  lemma {:induction false} FromXor(c: Byte, d: Byte, a: seq<Byte>, b: seq<Byte>)
    requires |a| == |b|
    ensures From(Xor(c, d), XorAll(a, b), POLYNOMIAL) == Xor(From(c, a, POLYNOMIAL), From(d, b, POLYNOMIAL))
    decreases |a|
  {
    hide Shifts, Xor;
    if a != [] {
      Regroup(c, d, a[0], b[0]);
      ShiftsXor(Xor(c, a[0]), Xor(d, b[0]), 8);
      assert XorAll(a, b)[1..] == XorAll(a[1..], b[1..]);
      FromXor(Digest(c, a[0], POLYNOMIAL), Digest(d, b[0], POLYNOMIAL), a[1..], b[1..]);
    }
  }

  // The checksum is linear over exclusive or, for inputs of one length, whatever that is.
  lemma FcsXor(a: seq<Byte>, b: seq<Byte>)
    requires |a| == |b|
    ensures Fcs(XorAll(a, b)) == Xor(Fcs(a), Fcs(b))
  {
    FromXor(0, 0, a, b);
    assert Xor(0, 0) == 0;
  }

  // ---------- what a changed byte does ----------

  // The only register the shift step takes to zero, other than zero, is 0xB3; and it is not
  // itself the outcome of a shift.
  lemma ShiftKernel(c: Byte)
    ensures Shift(c, POLYNOMIAL) == 0 <==> c == 0 || c == 0xB3
    ensures Shift(c, POLYNOMIAL) != 0xB3
  {
  }

  lemma {:induction false} ShiftsKernel(c: Byte, n: nat)
    requires n > 0
    ensures Shifts(c, POLYNOMIAL, n) == 0 <==> c == 0 || c == 0xB3
    ensures Shifts(c, POLYNOMIAL, n) != 0xB3
  {
    hide Shift;
    ShiftKernel(Shifts(c, POLYNOMIAL, n - 1));
    if n > 1 {
      ShiftsKernel(c, n - 1);
    } else {
      assert Shifts(c, POLYNOMIAL, 0) == c;
    }
  }

  lemma Cancels(c: Byte, d: Byte)
    ensures Xor(c, d) == 0 <==> c == d
  {
  }

  lemma CommonTerm(c: Byte, d: Byte, b: Byte)
    ensures Xor(Xor(c, b), Xor(d, b)) == Xor(c, d)
    ensures Xor(Xor(b, c), Xor(b, d)) == Xor(c, d)
  {
  }

  // Two registers that take in the same byte: what becomes of their difference.
  lemma Difference(c: Byte, d: Byte, b: Byte)
    ensures var x, y := Digest(c, b, POLYNOMIAL), Digest(d, b, POLYNOMIAL);
            Xor(x, y) != 0xB3 && (Xor(c, d) != 0xB3 ==> (x == y <==> c == d))
  {
    hide Shifts, Xor;
    ShiftsXor(Xor(c, b), Xor(d, b), 8);
    CommonTerm(c, d, b);
    ShiftsKernel(Xor(c, d), 8);
    Cancels(c, d);
    Cancels(Digest(c, b, POLYNOMIAL), Digest(d, b, POLYNOMIAL));
  }

  // A difference between two registers that is not 0xB3 survives equal input.
  lemma {:induction false} Differs(c: Byte, d: Byte, data: seq<Byte>)
    requires Xor(c, d) != 0xB3
    ensures From(c, data, POLYNOMIAL) == From(d, data, POLYNOMIAL) <==> c == d
    decreases |data|
  {
    hide Digest, Xor;
    if data != [] {
      Difference(c, d, data[0]);
      Differs(Digest(c, data[0], POLYNOMIAL), Digest(d, data[0], POLYNOMIAL), data[1..]);
    }
  }

  // Altering one byte by a mask goes undetected exactly for the mask 0xB3, wherever it is.
  lemma OneByteAltered(data: seq<Byte>, k: nat, m: Byte)
    requires k < |data| && m != 0
    ensures Fcs(data[k := Xor(data[k], m)]) == Fcs(data) <==> m == 0xB3
  {
    hide Shifts, Xor;
    var a, b, c := data[..k], data[k], data[k + 1..];
    var start := From(0, a, POLYNOMIAL);
    var x, y := Digest(start, b, POLYNOMIAL), Digest(start, Xor(b, m), POLYNOMIAL);
    AlteredSplit(data, k, Xor(b, m));
    AlteredByte(start, b, m);
    Differs(x, y, c);
  }

  // The checksum with one byte replaced, in three parts.
  lemma AlteredSplit(data: seq<Byte>, k: nat, b: Byte)
    requires k < |data|
    ensures var start := From(0, data[..k], POLYNOMIAL);
            && Fcs(data) == From(Digest(start, data[k], POLYNOMIAL), data[k + 1..], POLYNOMIAL)
            && Fcs(data[k := b]) == From(Digest(start, b, POLYNOMIAL), data[k + 1..], POLYNOMIAL)
  {
    hide Digest;
    var a, c := data[..k], data[k + 1..];
    assert data == a + ([data[k]] + c) && data[k := b] == a + ([b] + c);
    FromConcat(0, a, [data[k]] + c, POLYNOMIAL);
    FromConcat(0, a, [b] + c, POLYNOMIAL);
    assert ([data[k]] + c)[1..] == c && ([b] + c)[1..] == c;
  }

  lemma AlteredByte(start: Byte, b: Byte, m: Byte)
    requires m != 0
    ensures var x, y := Digest(start, b, POLYNOMIAL), Digest(start, Xor(b, m), POLYNOMIAL);
            Xor(x, y) != 0xB3 && (x == y <==> m == 0xB3)
  {
    hide Shifts, Xor;
    ShiftsXor(Xor(start, b), Xor(start, Xor(b, m)), 8);
    CommonTerm(b, Xor(b, m), start);
    Mask(b, m);
    ShiftsKernel(m, 8);
    Cancels(Digest(start, b, POLYNOMIAL), Digest(start, Xor(b, m), POLYNOMIAL));
  }

  lemma Mask(b: Byte, m: Byte)
    ensures Xor(b, Xor(b, m)) == m
  {
  }
}
