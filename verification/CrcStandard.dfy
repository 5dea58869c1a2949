/**
 What fixes the CRC: the register starts with ones, so a byte of zeros in front of a string shows; one
 shift written out for the two bytes of the register; and the example of the standard.
 */
module CrcStandard {
  import opened Bytes
  import opened Crc16

  // the bits of the registers written out below
  const I := true
  const O := false

  // ---- the start value

  lemma {:induction false} StepInjective(r: Reg, q: Reg, b: bool)
    requires Step(r, b) == Step(q, b)
    ensures r == q
  {
    var x, y := r[0 := r[0] != b], q[0 := q[0] != b];
    assert Shift(x)[15] == x[0] && Shift(y)[15] == y[0];
    forall i | 0 <= i < 16 ensures r[i] == q[i] {
      if i > 0 {
        ShiftBit(x, i - 1);
        ShiftBit(y, i - 1);
        assert Shift(x)[i - 1] == Shift(y)[i - 1];
      }
    }
  }

  /** The register is known from what has been fed in since. */
  lemma {:induction false} RunInjective(r: Reg, q: Reg, w: seq<bool>)
    requires Run(r, w) == Run(q, w)
    ensures r == q
    decreases w
  {
    hide Step;
    if w != [] {
      var k := |w| - 1;
      StepInjective(Run(r, w[..k]), Run(q, w[..k]), w[k]);
      RunInjective(r, q, w[..k]);
    }
  }

  /** Before the first byte all sixteen bits are ones. */
  lemma StartsWithOnes()
    ensures forall i :: 0 <= i < 16 ==> Crc([])[i]
  {}

  /** A byte of zeros in front changes the CRC of every string, as it would not if the register started clear. */
  lemma {:induction false} LeadingZeroShows(s: seq<Byte>)
    ensures Crc([ByteFrom(0)] + s) != Crc(s)
  {
    hide Run, Shifts, CrcFrom, Bits;
    var zero := [ByteFrom(0)];
    CrcIsSerial(Seed(), zero + s);
    CrcIsSerial(Seed(), s);
    CrcIsSerial(Seed(), zero);
    BitsConcat(zero, s);
    RunConcat(Seed(), Bits(zero), Bits(s));
    ZeroByteShows();
    if Crc(zero + s) == Crc(s) {
      RunInjective(Run(Seed(), Bits(zero)), Seed(), Bits(s));
    }
  }

  lemma {:induction false} ZeroByteShows()
    ensures CrcFrom(Seed(), [ByteFrom(0)]) != Seed()
  {
    AbsorbOne(Seed(), ByteFrom(0));
    SeedBytes();
    ZeroIs();
    LoadedBytes(FF, FF, ByteFrom(0));
    ZerosAbsorbed();
    Le16Bit(Byte(I, I, I, I, I, I, O, I), Byte(O, O, O, O, O, O, I, O), 6);
    assert !Le16(Byte(I, I, I, I, I, I, O, I), Byte(O, O, O, O, O, O, I, O))[6];
  }

  // ---- the register as two bytes

  lemma Le16Bit(lo: Byte, hi: Byte, i: nat)
    requires i < 16
    ensures Le16(lo, hi)[i] == if i < 8 then Bit(lo, i) else Bit(hi, i - 8)
  {}

  /** The low byte after a shift: what falls out of it comes back at its first bit. */
  function NextLow(lo: Byte, hi: Byte): Byte {
    Byte(lo.b1 != lo.b0, lo.b2, lo.b3, lo.b4, lo.b5, lo.b6, lo.b7, hi.b0)
  }

  /** The high byte, where it comes back at the sixth and the eighth bit. */
  function NextHigh(lo: Byte, hi: Byte): Byte {
    Byte(hi.b1, hi.b2, hi.b3, hi.b4, hi.b5, hi.b6 != lo.b0, hi.b7, lo.b0)
  }

  lemma NextBit(lo: Byte, hi: Byte, i: nat)
    requires i < 16
    ensures (if i < 8 then Bit(NextLow(lo, hi), i) else Bit(NextHigh(lo, hi), i - 8))
         == ((if i < 7 then Bit(lo, i + 1) else if i < 15 then Bit(hi, i - 7) else false) != (lo.b0 && Tap(i)))
  {}

  /** The shift of the standard, for all 65536 registers: to the right, and 0xA001 if a one falls out. */
  lemma {:induction false} ShiftBytes(lo: Byte, hi: Byte)
    ensures Shift(Le16(lo, hi))
         == Le16(Byte(lo.b1 != lo.b0, lo.b2, lo.b3, lo.b4, lo.b5, lo.b6, lo.b7, hi.b0),
                 Byte(hi.b1, hi.b2, hi.b3, hi.b4, hi.b5, hi.b6 != lo.b0, hi.b7, lo.b0))
  {
    var lo', hi' := NextLow(lo, hi), NextHigh(lo, hi);
    var r, t := Le16(lo, hi), Le16(lo', hi');
    assert Bit(lo, 0) == lo.b0;
    hide Le16, Shift, NextLow, NextHigh, Bit, Tap;
    Le16Bit(lo, hi, 0);
    forall i: nat | i < 16 ensures Shift(r)[i] == t[i] {
      ShiftBit(r, i);
      NextBit(lo, hi, i);
      Le16Bit(lo', hi', i);
      if i < 15 {
        Le16Bit(lo, hi, i + 1);
      }
    }
  }

  function Xor(a: Byte, b: Byte): Byte { ByteOf(seq(8, k => Bit(a, k) != Bit(b, k))) }

  lemma XorBit(a: Byte, b: Byte, i: nat)
    requires i < 8
    ensures Bit(Xor(a, b), i) == (Bit(a, i) != Bit(b, i))
  {
    hide Bit, ByteOf;
    BitsOfByteOf(seq(8, k => Bit(a, k) != Bit(b, k)));
    assert BitsOf(Xor(a, b))[i] == Bit(Xor(a, b), i);
  }

  /** A byte joins the low half. */
  lemma {:induction false} LoadedBytes(lo: Byte, hi: Byte, b: Byte)
    ensures Loaded(Le16(lo, hi), BitsOf(b)) == Le16(Xor(lo, b), hi)
  {
    var r, t := Loaded(Le16(lo, hi), BitsOf(b)), Le16(Xor(lo, b), hi);
    hide Le16, Xor, Bit;
    forall i: nat | i < 16 ensures r[i] == t[i] {
      Le16Bit(lo, hi, i);
      Le16Bit(Xor(lo, b), hi, i);
      if i < 8 {
        XorBit(lo, b, i);
      }
    }
  }

  /** One more byte of the string: it joins the low byte of the register, then eight shifts. */
  lemma {:induction false} CrcOfOneMore(s: seq<Byte>, b: Byte, lo: Byte, hi: Byte)
    requires Crc(s) == Le16(lo, hi)
    ensures Crc(s + [b]) == Shifts(Le16(Xor(lo, b), hi), 8)
  {
    hide Shifts, Loaded, Le16, Xor;
    assert (s + [b])[..|s|] == s;
    LoadedBytes(lo, hi, b);
  }

  lemma AbsorbOne(r: Reg, b: Byte)
    ensures CrcFrom(r, [b]) == Shifts(Loaded(r, BitsOf(b)), 8)
  {
    assert [b][..0] == [];
  }

  lemma SeedBytes()
    ensures Seed() == Le16(FF, FF)
  {
    var t := Le16(FF, FF);
    forall i: nat | i < 16 ensures t[i] {
      Le16Bit(FF, FF, i);
    }
  }

  // ---- the example

  lemma ZeroIs()
    ensures ByteFrom(0) == Byte(O, O, O, O, O, O, O, O)
  {}

  lemma ExampleBytes()
    ensures ByteFrom(0x02) == Byte(O, I, O, O, O, O, O, O) && ByteFrom(0x07) == Byte(I, I, I, O, O, O, O, O)
    ensures ByteFrom(0x41) == Byte(I, O, O, O, O, O, I, O) && ByteFrom(0x12) == Byte(O, I, O, O, I, O, O, O)
  {}

  /** A byte of zeros, from the start value. */
  lemma {:induction false} ZerosAbsorbed()
    ensures Shifts(Le16(Xor(FF, Byte(O, O, O, O, O, O, O, O)), FF), 8) == Le16(Byte(I, I, I, I, I, I, O, I), Byte(O, O, O, O, O, O, I, O))
  {
    hide Shift, Le16;
    Unshifted(Le16(Byte(I, I, I, I, I, I, I, I), Byte(I, I, I, I, I, I, I, I)));
    ShiftBytes(Byte(I, I, I, I, I, I, I, I), Byte(I, I, I, I, I, I, I, I));
    ShiftBytes(Byte(O, I, I, I, I, I, I, I), Byte(I, I, I, I, I, O, I, I));
    ShiftBytes(Byte(I, I, I, I, I, I, I, I), Byte(I, I, I, I, O, I, I, O));
    ShiftBytes(Byte(O, I, I, I, I, I, I, I), Byte(I, I, I, O, I, O, O, I));
    ShiftBytes(Byte(I, I, I, I, I, I, I, I), Byte(I, I, O, I, O, O, I, O));
    ShiftBytes(Byte(O, I, I, I, I, I, I, I), Byte(I, O, I, O, O, O, O, I));
    ShiftBytes(Byte(I, I, I, I, I, I, I, I), Byte(O, I, O, O, O, O, I, O));
    ShiftBytes(Byte(O, I, I, I, I, I, I, O), Byte(I, O, O, O, O, O, O, I));
  }

  lemma Unshifted(r: Reg)
    ensures Shifts(r, 0) == r
  {}

  lemma {:induction false} FirstAbsorbed()
    ensures Shifts(Le16(Byte(I, O, I, I, I, I, I, I), Byte(I, I, I, I, I, I, I, I)), 8) == Le16(Byte(O, I, I, I, I, I, O, O), Byte(I, O, O, O, O, O, O, I))
  {
    hide Shift, Le16;
    Unshifted(Le16(Byte(I, O, I, I, I, I, I, I), Byte(I, I, I, I, I, I, I, I)));
    ShiftBytes(Byte(I, O, I, I, I, I, I, I), Byte(I, I, I, I, I, I, I, I));
    ShiftBytes(Byte(I, I, I, I, I, I, I, I), Byte(I, I, I, I, I, O, I, I));
    ShiftBytes(Byte(O, I, I, I, I, I, I, I), Byte(I, I, I, I, O, O, I, I));
    ShiftBytes(Byte(I, I, I, I, I, I, I, I), Byte(I, I, I, O, O, I, I, O));
    ShiftBytes(Byte(O, I, I, I, I, I, I, I), Byte(I, I, O, O, I, O, O, I));
    ShiftBytes(Byte(I, I, I, I, I, I, I, I), Byte(I, O, O, I, O, O, I, O));
    ShiftBytes(Byte(O, I, I, I, I, I, I, I), Byte(O, O, I, O, O, O, O, I));
    ShiftBytes(Byte(I, I, I, I, I, I, I, O), Byte(O, I, O, O, O, O, I, O));
  }

  lemma {:induction false} SecondAbsorbed()
    ensures Shifts(Le16(Byte(I, O, O, I, I, I, O, O), Byte(I, O, O, O, O, O, O, I)), 8) == Le16(Byte(I, O, O, O, O, O, I, O), Byte(O, I, O, O, I, O, O, O))
  {
    hide Shift, Le16;
    Unshifted(Le16(Byte(I, O, O, I, I, I, O, O), Byte(I, O, O, O, O, O, O, I)));
    ShiftBytes(Byte(I, O, O, I, I, I, O, O), Byte(I, O, O, O, O, O, O, I));
    ShiftBytes(Byte(I, O, I, I, I, O, O, I), Byte(O, O, O, O, O, I, I, I));
    ShiftBytes(Byte(I, I, I, I, O, O, I, O), Byte(O, O, O, O, I, O, I, I));
    ShiftBytes(Byte(O, I, I, O, O, I, O, O), Byte(O, O, O, I, O, O, I, I));
    ShiftBytes(Byte(I, I, O, O, I, O, O, O), Byte(O, O, I, O, O, I, I, O));
    ShiftBytes(Byte(O, O, O, I, O, O, O, O), Byte(O, I, O, O, I, O, O, I));
    ShiftBytes(Byte(O, O, I, O, O, O, O, O), Byte(I, O, O, I, O, O, I, O));
    ShiftBytes(Byte(O, I, O, O, O, O, O, I), Byte(O, O, I, O, O, I, O, O));
  }

  /** Section 6.2.2 of MODBUS over Serial Line V1.02: the message 02 07 is followed by 41 12. */
  lemma {:induction false} StandardExample()
    ensures Trailer(Crc([ByteFrom(0x02), ByteFrom(0x07)])) == [ByteFrom(0x41), ByteFrom(0x12)]
  {
    hide Shifts, Loaded, Le16, Trailer, ByteFrom, Xor;
    ExampleBytes();
    var s := [ByteFrom(0x02), ByteFrom(0x07)];
    assert s[..1] == [ByteFrom(0x02)];
    assert Crc(s) == Absorb(CrcFrom(Seed(), s[..1]), ByteFrom(0x07));
    AbsorbOne(Seed(), ByteFrom(0x02));
    SeedBytes();
    ExampleLoads();
    FirstAbsorbed();
    SecondAbsorbed();
    Le16Trailer(ByteFrom(0x41), ByteFrom(0x12));
  }

  lemma {:induction false} ExampleLoads()
    ensures Loaded(Le16(FF, FF), BitsOf(Byte(O, I, O, O, O, O, O, O))) == Le16(Byte(I, O, I, I, I, I, I, I), Byte(I, I, I, I, I, I, I, I))
    ensures Loaded(Le16(Byte(O, I, I, I, I, I, O, O), Byte(I, O, O, O, O, O, O, I)), BitsOf(Byte(I, I, I, O, O, O, O, O))) == Le16(Byte(I, O, O, I, I, I, O, O), Byte(I, O, O, O, O, O, O, I))
  {
    hide Loaded, Le16;
    LoadedBytes(FF, FF, Byte(O, I, O, O, O, O, O, O));
    LoadedBytes(Byte(O, I, I, I, I, I, O, O), Byte(I, O, O, O, O, O, O, I), Byte(I, I, I, O, O, O, O, O));
  }
}
