/**
 The CRC of MODBUS over Serial Line V1.02, section 6.2.2: a register seeded with ones, reflected
 polynomial 0xA001, low-order byte first on the wire. The register is its sixteen bits, low first.
 */
module Crc16 {
  import opened Bytes

  type Reg = r: seq<bool> | |r| == 16 witness seq(16, i => false)

  function Seed(): Reg { seq(16, i => true) }

  function Zero(): Reg { seq(16, i => false) }

  /** The places where 0xA001 has a one. */
  predicate Tap(i: int) { i == 0 || i == 13 || i == 15 }

  /** One shift right; a one falling out feeds back at the taps. */
  function Shift(r: Reg): Reg {
    seq(16, i requires 0 <= i < 16 => (i < 15 && r[i + 1]) != (r[0] && Tap(i)))
  }

  lemma {:induction false} ShiftBit(r: Reg, i: nat)
    requires i < 16
    ensures Shift(r)[i] == ((i < 15 && r[i + 1]) != (r[0] && Tap(i)))
  {}

  function Shifts(r: Reg, n: nat): Reg
    decreases n
  {
    if n == 0 then r else Shift(Shifts(r, n - 1))
  }

  /** The register with the bits of w added from place 0 up. */
  function Loaded(r: Reg, w: seq<bool>): Reg {
    seq(16, i requires 0 <= i < 16 => r[i] != (i < |w| && w[i]))
  }

  /** One byte: exclusive-or into the low half, then eight shifts. */
  function Absorb(r: Reg, b: Byte): Reg { Shifts(Loaded(r, BitsOf(b)), 8) }

  function CrcFrom(r: Reg, s: seq<Byte>): Reg
    decreases s
  {
    if s == [] then r else Absorb(CrcFrom(r, s[..|s| - 1]), s[|s| - 1])
  }

  function Crc(s: seq<Byte>): Reg { CrcFrom(Seed(), s) }

  /** The trailer of a frame, low byte first. */
  function Trailer(r: Reg): seq<Byte> { [ByteOf(r[..8]), ByteOf(r[8..])] }

  function Le16(lo: Byte, hi: Byte): Reg { BitsOf(lo) + BitsOf(hi) }

  lemma TrailerLe16(r: Reg)
    ensures Le16(Trailer(r)[0], Trailer(r)[1]) == r
  {
    var lo, hi := r[..8], r[8..];
    BitsOfByteOf(lo);
    BitsOfByteOf(hi);
    assert lo + hi == r;
  }

  lemma Le16Trailer(lo: Byte, hi: Byte)
    ensures Trailer(Le16(lo, hi)) == [lo, hi]
  {
    var v, w := BitsOf(lo), BitsOf(hi);
    assert (v + w)[..8] == v && (v + w)[8..] == w;
    ByteOfBitsOf(lo);
    ByteOfBitsOf(hi);
  }

  // ---- the same register fed bit by bit, in wire order

  /** One bit arrives and joins the outgoing one. */
  function Step(r: Reg, b: bool): Reg { Shift(r[0 := r[0] != b]) }

  function Run(r: Reg, w: seq<bool>): Reg
    decreases w
  {
    if w == [] then r else Step(Run(r, w[..|w| - 1]), w[|w| - 1])
  }

  function Bits(s: seq<Byte>): (w: seq<bool>)
    ensures |w| == 8 * |s|
  {
    if s == [] then [] else Bits(s[..|s| - 1]) + BitsOf(s[|s| - 1])
  }

  lemma RunSnoc(r: Reg, w: seq<bool>, b: bool)
    ensures Run(r, w + [b]) == Step(Run(r, w), b)
  {
    assert (w + [b])[..|w|] == w;
  }

  lemma {:induction false} RunConcat(r: Reg, a: seq<bool>, b: seq<bool>)
    ensures Run(r, a + b) == Run(Run(r, a), b)
    decreases b
  {
    if b == [] {
      assert a + b == a;
    } else {
      var k := |b| - 1;
      assert (a + b)[..|a| + k] == a + b[..k];
      RunConcat(r, a, b[..k]);
    }
  }

  lemma ShiftLoaded(r: Reg, w: seq<bool>)
    requires 0 < |w| <= 16
    ensures Shift(Loaded(r, w)) == Loaded(Step(r, w[0]), w[1..])
  {}

  /** Loaded bits ride along until their turn comes: loading then shifting is feeding. */
  lemma {:induction false} RideAlong(r: Reg, w: seq<bool>, n: nat)
    requires n <= |w| <= 16
    ensures Shifts(Loaded(r, w), n) == Loaded(Run(r, w[..n]), w[n..])
    decreases n
  {
    if n == 0 {
      assert w[0..] == w;
    } else {
      var m := n - 1;
      RideAlong(r, w, m);
      assert w[..n] == w[..m] + [w[m]];
      RunSnoc(r, w[..m], w[m]);
      ShiftLoaded(Run(r, w[..m]), w[m..]);
      assert w[m..][1..] == w[n..];
    }
  }

  lemma LoadAndShift(r: Reg, w: seq<bool>)
    requires |w| <= 16
    ensures Shifts(Loaded(r, w), |w|) == Run(r, w)
  {
    RideAlong(r, w, |w|);
    assert w[..|w|] == w && w[|w|..] == [];
    assert Loaded(Run(r, w), []) == Run(r, w);
  }

  /** The byte-wise CRC of the standard is the serial one over the bits in wire order. */
  lemma {:induction false} CrcIsSerial(r: Reg, s: seq<Byte>)
    ensures CrcFrom(r, s) == Run(r, Bits(s))
    decreases s
  {
    if s != [] {
      var k := |s| - 1;
      CrcIsSerial(r, s[..k]);
      LoadAndShift(CrcFrom(r, s[..k]), BitsOf(s[k]));
      RunConcat(r, Bits(s[..k]), BitsOf(s[k]));
    }
  }

  // ---- the residue: a frame is good iff its CRC, trailer included, is zero

  lemma ShiftZero(r: Reg)
    ensures Shift(r) == Zero() <==> r == Zero()
  {
    var s := Shift(r);
    if s == Zero() {
      assert !s[15];
      forall i | 1 <= i < 16 ensures !r[i] { assert !s[i - 1]; }
      assert r == Zero();
    }
  }

  lemma {:induction false} ShiftsZero(r: Reg, n: nat)
    ensures Shifts(r, n) == Zero() <==> r == Zero()
    decreases n
  {
    if n > 0 {
      ShiftsZero(r, n - 1);
      ShiftZero(Shifts(r, n - 1));
    }
  }

  lemma LoadedZero(r: Reg, w: Reg)
    ensures Loaded(r, w) == Zero() <==> r == w
  {
    var x := Loaded(r, w);
    if x == Zero() {
      forall i | 0 <= i < 16 ensures r[i] == w[i] { assert !x[i]; }
    }
  }

  lemma {:induction false} BitsConcat(a: seq<Byte>, b: seq<Byte>)
    ensures Bits(a + b) == Bits(a) + Bits(b)
    decreases b
  {
    if b == [] {
      assert a + b == a;
    } else {
      var k := |b| - 1;
      assert (a + b)[..|a| + k] == a + b[..k];
      BitsConcat(a, b[..k]);
    }
  }

  lemma BitsPair(lo: Byte, hi: Byte)
    ensures Bits([lo, hi]) == Le16(lo, hi)
  {
    assert [lo, hi][..1] == [lo];
    assert [lo][..0] == [];
    assert Bits([lo]) == Bits([]) + BitsOf(lo);
  }

  lemma ResidueZeroIff(body: seq<Byte>, lo: Byte, hi: Byte)
    ensures Le16(lo, hi) == Crc(body) <==> Crc(body + [lo, hi]) == Zero()
  {
    var c, w := Crc(body), Le16(lo, hi);
    CrcIsSerial(Seed(), body + [lo, hi]);
    CrcIsSerial(Seed(), body);
    BitsConcat(body, [lo, hi]);
    BitsPair(lo, hi);
    RunConcat(Seed(), Bits(body), w);
    LoadAndShift(c, w);
    ShiftsZero(Loaded(c, w), 16);
    LoadedZero(c, w);
  }

  /** The CRC is the register that starts with sixteen ones; it is in the trailer exactly if it then comes to zero. */
  lemma TrailerMatchesIffResidueZero(body: seq<Byte>, lo: Byte, hi: Byte)
    ensures Crc(body) == Run(seq(16, i => true), Bits(body))
    ensures Trailer(Crc(body)) == [lo, hi] <==> Crc(body + [lo, hi]) == Zero()
  {
    assert Seed() == seq(16, i => true);
    hide CrcFrom, Run, Bits, Le16, Trailer;
    CrcIsSerial(Seed(), body);
    ResidueZeroIff(body, lo, hi);
    Le16Trailer(lo, hi);
    TrailerLe16(Crc(body));
  }
}
