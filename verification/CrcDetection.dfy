/**
 What the CRC detects. Error patterns are lists of bits in wire order; by linearity a corrupted
 frame passes exactly when the pattern alone, fed to a cleared register, leaves it cleared.
 */
module CrcDetection {
  import opened Bytes
  import opened Crc16

  // ---- linearity over whole bit strings

  predicate XorOf(x: seq<bool>, a: seq<bool>, b: seq<bool>) {
    |x| == |a| == |b| && forall i :: 0 <= i < |x| ==> x[i] == (a[i] != b[i])
  }

  lemma {:induction false} RunLinear(x: Reg, a: Reg, b: Reg, u: seq<bool>, v: seq<bool>, w: seq<bool>)
    requires XorOf(x, a, b) && XorOf(u, v, w)
    ensures XorOf(Run(x, u), Run(a, v), Run(b, w))
    decreases u
  {
    if u != [] {
      var k := |u| - 1;
      RunLinear(x, a, b, u[..k], v[..k], w[..k]);
    }
  }

  /** Frame g is frame f with the bits marked in e, in wire order, flipped on the line. */
  predicate Corrupted(g: seq<Byte>, f: seq<Byte>, e: seq<bool>) {
    XorOf(Bits(g), Bits(f), e)
  }

  /** From register r, v ends in the cleared register z: u, which differs by e, does iff e alone does. */
  lemma ClearDifference(r: Reg, z: Reg, u: seq<bool>, v: seq<bool>, e: seq<bool>)
    requires Run(r, v) == z && XorOf(u, v, e)
    requires forall i :: 0 <= i < 16 ==> !z[i]
    ensures Run(r, u) == Run(z, e)
  {
    RunLinear(r, r, z, u, v, e);
    assert forall i :: 0 <= i < 16 ==> Run(r, u)[i] == Run(z, e)[i];
  }

  /** The exact class of undetected errors: those whose own zero-seeded remainder vanishes. */
  lemma UndetectedIff(f: seq<Byte>, g: seq<Byte>, e: seq<bool>)
    requires Crc(f) == Zero() && Corrupted(g, f, e)
    ensures Crc(g) == Zero() <==> Run(Zero(), e) == Zero()
  {
    CrcIsSerial(Seed(), f);
    CrcIsSerial(Seed(), g);
    ClearDifference(Seed(), Zero(), Bits(g), Bits(f), e);
  }

  // ---- bursts

  lemma StepZero(r: Reg)
    ensures Step(r, false) == Zero() <==> r == Zero()
  {
    assert r[0 := r[0] != false] == r;
    ShiftZero(r);
  }

  lemma {:induction false} ZerosKeepZeroness(r: Reg, w: seq<bool>)
    requires forall i :: 0 <= i < |w| ==> !w[i]
    ensures Run(r, w) == Zero() <==> r == Zero()
    decreases w
  {
    if w != [] {
      var k := |w| - 1;
      ZerosKeepZeroness(r, w[..k]);
      StepZero(Run(r, w[..k]));
    }
  }

  /** Some one stands at place k or above. */
  predicate Reaches(r: Reg, k: int) { exists i :: 0 <= i < 16 && k <= i && r[i] }

  /** A bit moves the topmost one down by one place at most: feedback only adds ones at the top. */
  lemma StepSinksOnePlace(r: Reg, b: bool, k: int)
    requires 0 < k && Reaches(r, k)
    ensures Reaches(Step(r, b), k - 1)
  {
    var s := Step(r, b);
    if r[0] != b {
      assert s[15];
    } else {
      var i :| 0 <= i < 16 && k <= i && r[i];
      assert s[i - 1];
    }
  }

  lemma {:induction false} SinkBound(r: Reg, w: seq<bool>)
    requires |w| <= 15 && Reaches(r, 15)
    ensures Reaches(Run(r, w), 15 - |w|)
    decreases w
  {
    if w != [] {
      var k := |w| - 1;
      SinkBound(r, w[..k]);
      StepSinksOnePlace(Run(r, w[..k]), w[k], 15 - k);
    }
  }

  /** A one followed by at most fifteen more bits leaves a nonzero register. */
  lemma ShortBurst(w: seq<bool>)
    requires |w| <= 15
    ensures Run(Zero(), [true] + w) != Zero()
  {
    var s := Step(Zero(), true);
    assert Run(Zero(), [true]) == s by { RunSnoc(Zero(), [], true); assert [] + [true] == [true]; }
    assert s[15];
    RunConcat(Zero(), [true], w);
    SinkBound(s, w);
  }

  /** Every one bit of w lies in the sixteen places from k on, and there is one. */
  predicate Burst16(w: seq<bool>, k: nat) {
    (exists i :: 0 <= i < |w| && w[i]) && forall i :: 0 <= i < |w| && w[i] ==> k <= i < k + 16
  }

  function FirstOne(w: seq<bool>): (p: nat)
    requires exists i :: 0 <= i < |w| && w[i]
    ensures p < |w| && w[p] && forall i :: 0 <= i < p ==> !w[i]
    decreases w
  {
    if w[0] then 0
    else
      assert exists i :: 0 <= i < |w[1..]| && w[1..][i] by {
        var i :| 0 <= i < |w| && w[i];
        assert w[1..][i - 1];
      }
      1 + FirstOne(w[1..])
  }

  lemma BurstLeavesResidue(w: seq<bool>, k: nat)
    requires Burst16(w, k)
    ensures Run(Zero(), w) != Zero()
  {
    var p := FirstOne(w);
    var q := Min(p + 16, |w|);
    CutAt(w, p, q);
    ResidueOfParts(w[..p], w[p + 1..q], w[q..]);
  }

  lemma CutAt(w: seq<bool>, p: nat, q: nat)
    requires p < q <= |w| && w[p]
    ensures w == w[..p] + (([true] + w[p + 1..q]) + w[q..])
  {
    assert w[p..q] == [true] + w[p + 1..q];
    assert w[p..] == w[p..q] + w[q..];
    assert w == w[..p] + w[p..];
  }

  lemma ResidueOfParts(head: seq<bool>, mid: seq<bool>, tail: seq<bool>)
    requires |mid| <= 15
    requires forall i :: 0 <= i < |head| ==> !head[i]
    requires forall i :: 0 <= i < |tail| ==> !tail[i]
    ensures Run(Zero(), head + (([true] + mid) + tail)) != Zero()
  {
    var body := [true] + mid;
    ZerosKeepZeroness(Zero(), head);
    RunConcat(Zero(), head, body + tail);
    ShortBurst(mid);
    RunConcat(Zero(), body, tail);
    ZerosKeepZeroness(Run(Zero(), body), tail);
  }

  // ---- odd numbers of flips

  function Ones(w: seq<bool>): nat
    decreases w
  {
    if w == [] then 0 else Ones(w[..|w| - 1]) + if w[|w| - 1] then 1 else 0
  }

  lemma {:induction false} OnesConcat(a: seq<bool>, b: seq<bool>)
    ensures Ones(a + b) == Ones(a) + Ones(b)
    decreases b
  {
    if b == [] {
      assert a + b == a;
    } else {
      var k := |b| - 1;
      assert (a + b)[..|a| + k] == a + b[..k];
      OnesConcat(a, b[..k]);
    }
  }

  lemma OnesFlip(w: seq<bool>, i: nat)
    requires i < |w|
    ensures Ones(w[i := !w[i]]) == Ones(w) + if w[i] then -1 else 1
  {
    var v := w[i := !w[i]];
    assert w == w[..i] + ([w[i]] + w[i + 1..]);
    assert v == w[..i] + ([!w[i]] + w[i + 1..]);
    OnesConcat(w[..i], [w[i]] + w[i + 1..]);
    OnesConcat([w[i]], w[i + 1..]);
    OnesConcat(w[..i], [!w[i]] + w[i + 1..]);
    OnesConcat([!w[i]], w[i + 1..]);
    OnesSingle(w[i]);
    OnesSingle(!w[i]);
  }

  lemma OnesSingle(b: bool)
    ensures Ones([b]) == if b then 1 else 0
  {
    assert [b][..0] == [];
  }

  /** Three taps and one bit leaving: a shift keeps the parity of the register. */
  lemma ShiftParity(r: Reg)
    ensures Ones(Shift(r)) % 2 == Ones(r) % 2
  {
    var t := r[1..] + [false];
    assert r == [r[0]] + r[1..];
    OnesConcat([r[0]], r[1..]);
    OnesConcat(r[1..], [false]);
    OnesSingle(r[0]);
    OnesSingle(false);
    if r[0] {
      var t0 := t[0 := !t[0]];
      var t1 := t0[13 := !t0[13]];
      var t2 := t1[15 := !t1[15]];
      assert Shift(r) == t2;
      OnesFlip(t, 0);
      OnesFlip(t0, 13);
      OnesFlip(t1, 15);
    } else {
      assert Shift(r) == t;
    }
  }

  lemma StepParity(r: Reg, b: bool)
    ensures Ones(Step(r, b)) % 2 == (Ones(r) + if b then 1 else 0) % 2
  {
    var s := r[0 := r[0] != b];
    ShiftParity(s);
    if b {
      OnesFlip(r, 0);
    } else {
      assert s == r;
    }
  }

  lemma {:induction false} RunParity(r: Reg, w: seq<bool>)
    ensures Ones(Run(r, w)) % 2 == (Ones(r) + Ones(w)) % 2
    decreases w
  {
    if w != [] {
      var k := |w| - 1;
      RunParity(r, w[..k]);
      StepParity(Run(r, w[..k]), w[k]);
    }
  }

  lemma {:induction false} OnesAll(w: seq<bool>, b: bool)
    requires forall i :: 0 <= i < |w| ==> w[i] == b
    ensures Ones(w) == if b then |w| else 0
    decreases w
  {
    if w != [] {
      OnesAll(w[..|w| - 1], b);
    }
  }

  /** From an all-ones or all-zeros register to a cleared one, only even inputs lead. */
  lemma EvenInput(r: Reg, z: Reg, w: seq<bool>, b: bool)
    requires forall i :: 0 <= i < 16 ==> r[i] == b && !z[i]
    requires Run(r, w) == z
    ensures Ones(w) % 2 == 0
  {
    RunParity(r, w);
    OnesAll(r, b);
    OnesAll(z, false);
  }

  lemma OddLeavesResidue(w: seq<bool>)
    requires Ones(w) % 2 == 1
    ensures Run(Zero(), w) != Zero()
  {
    if Run(Zero(), w) == Zero() {
      EvenInput(Zero(), Zero(), w, false);
    }
  }

  lemma AcceptedHasEvenOnes(f: seq<Byte>)
    requires Crc(f) == Zero()
    ensures Ones(Bits(f)) % 2 == 0
  {
    CrcIsSerial(Seed(), f);
    EvenInput(Seed(), Zero(), Bits(f), true);
  }
}
