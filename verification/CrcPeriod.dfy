/**
 Two flipped bits. Their remainder vanishes exactly if the register with a single one fed in comes back
 to itself between them. Its output, bit by bit and seen through the factor x + 1, obeys the recurrence
 of x^15 + x + 1; squaring the recurrence over and over gives the period 32767 = 7 * 31 * 151, and none
 of the three maximal divisors is a period.
 */
module CrcPeriod {
  import opened Arith
  import opened Bytes
  import opened Crc16
  import opened CrcDetection

  const PERIOD: nat := 32767

  /** The register after a single one has been fed to a cleared one. */
  function One(): Reg { Step(Zero(), true) }

  lemma {:induction false} ShiftsAdd(r: Reg, a: nat, b: nat)
    ensures Shifts(r, a + b) == Shifts(Shifts(r, a), b)
    decreases b
  {
    if b > 0 {
      ShiftsAdd(r, a, b - 1);
    }
  }

  /** The bits that leave the register, the register being shifted without input. */
  function Out(r: Reg, k: nat): bool { Shifts(r, k)[0] }

  lemma {:induction false} OutAdd(r: Reg, a: nat, b: nat)
    ensures Out(Shifts(r, a), b) == Out(r, a + b)
  {
    ShiftsAdd(r, a, b);
  }

  lemma {:induction false} ShiftsBit(r: Reg, k: nat, i: nat)
    requires i < 16
    ensures Shifts(r, k + 1)[i] == ((i < 15 && Shifts(r, k)[i + 1]) != (Shifts(r, k)[0] && Tap(i)))
  {
    hide Shift;
    ShiftBit(Shifts(r, k), i);
  }

  /** Away from the taps a bit just moves down, m places in m shifts. */
  lemma {:induction false} MovesDown(r: Reg, k: nat, i: nat, m: nat)
    requires 0 < i - m && i <= 13
    ensures Shifts(r, k + m)[i - m] == Shifts(r, k)[i]
    decreases m
  {
    hide Shifts;
    if m > 0 {
      MovesDown(r, k, i, m - 1);
      ShiftsBit(r, k + m - 1, i - m);
    }
  }

  /** The recurrence of the CRC polynomial, for every register. */
  lemma {:induction false} OutRecurrence(r: Reg)
    ensures Out(r, 16) == (Out(r, 15) != (Out(r, 2) != Out(r, 0)))
  {
    hide Shifts;
    ShiftsBit(r, 15, 0);
    MovesDown(r, 3, 13, 12);
    ShiftsBit(r, 2, 13);
    ShiftsBit(r, 1, 14);
    ShiftsBit(r, 0, 15);
  }

  /** The output seen through x + 1. */
  function C(k: nat): bool { Out(One(), k + 1) != Out(One(), k) }

  /** What is left is the recurrence of x^15 + x + 1. */
  lemma {:induction false} Rec15(a: nat)
    ensures C(a + 15) == (C(a + 1) != C(a))
  {
    hide Out, One;
    OutRecurrence(Shifts(One(), a));
    OutAdd(One(), a, 16);
    OutAdd(One(), a, 15);
    OutAdd(One(), a, 2);
    OutAdd(One(), a, 0);
  }

  // ---- squaring: x^16 = x^2 + x, and so on up to x^32768 = x

  lemma {:induction false} Rec16(a: nat)
    ensures C(a + 16) == (C(a + 2) != C(a + 1))
  {
    hide C;
    Rec15(a + 1);
  }

  lemma {:induction false} Rec32(a: nat)
    ensures C(a + 32) == (C(a + 4) != C(a + 2))
  {
    hide C;
    Rec16(a + 16);
    Rec16(a + 2);
    Rec16(a + 1);
  }

  lemma {:induction false} Rec64(a: nat)
    ensures C(a + 64) == (C(a + 8) != C(a + 4))
  {
    hide C;
    Rec32(a + 32);
    Rec32(a + 4);
    Rec32(a + 2);
  }

  lemma {:induction false} Rec128(a: nat)
    ensures C(a + 128) == (C(a + 8) != (C(a + 2) != C(a + 1)))
  {
    hide C;
    Rec64(a + 64);
    Rec64(a + 8);
    Rec64(a + 4);
    Rec16(a);
  }

  lemma {:induction false} Rec256(a: nat)
    ensures C(a + 256) == (C(a + 4) != C(a + 1))
  {
    hide C;
    Rec128(a + 128);
    Rec128(a + 8);
    Rec128(a + 2);
    Rec128(a + 1);
    Rec16(a);
  }

  lemma {:induction false} Rec512(a: nat)
    ensures C(a + 512) == (C(a + 8) != C(a + 2))
  {
    hide C;
    Rec256(a + 256);
    Rec256(a + 4);
    Rec256(a + 1);
  }

  lemma {:induction false} Rec1024(a: nat)
    ensures C(a + 1024) == (C(a + 4) != (C(a + 2) != C(a + 1)))
  {
    hide C;
    Rec512(a + 512);
    Rec512(a + 8);
    Rec512(a + 2);
    Rec16(a);
  }

  lemma {:induction false} Rec2048(a: nat)
    ensures C(a + 2048) == (C(a + 8) != (C(a + 4) != C(a + 2)))
  {
    hide C;
    Rec1024(a + 1024);
    Rec1024(a + 4);
    Rec1024(a + 2);
    Rec1024(a + 1);
  }

  lemma {:induction false} Rec4096(a: nat)
    ensures C(a + 4096) == ((C(a + 8) != C(a + 4)) != (C(a + 2) != C(a + 1)))
  {
    hide C;
    Rec2048(a + 2048);
    Rec2048(a + 8);
    Rec2048(a + 4);
    Rec2048(a + 2);
    Rec16(a);
  }

  lemma {:induction false} Rec8192(a: nat)
    ensures C(a + 8192) == (C(a + 8) != (C(a + 4) != C(a + 1)))
  {
    hide C;
    Rec4096(a + 4096);
    Rec4096(a + 8);
    Rec4096(a + 4);
    Rec4096(a + 2);
    Rec4096(a + 1);
    Rec16(a);
  }

  lemma {:induction false} Rec16384(a: nat)
    ensures C(a + 16384) == (C(a + 8) != C(a + 1))
  {
    hide C;
    Rec8192(a + 8192);
    Rec8192(a + 8);
    Rec8192(a + 4);
    Rec8192(a + 1);
    Rec16(a);
  }

  lemma {:induction false} Rec32768(a: nat)
    ensures C(a + 32768) == C(a + 1)
  {
    hide C;
    Rec16384(a + 16384);
    Rec16384(a + 8);
    Rec16384(a + 1);
    Rec16(a);
  }

  // ---- periods of the output

  ghost predicate Repeats(d: nat) { forall a: nat :: C(a + d) == C(a) }

  /** Squared fifteen times, x is x again. */
  lemma {:induction false} PeriodRepeats()
    ensures Repeats(PERIOD)
  {
    hide C;
    forall a: nat ensures C(a + PERIOD) == C(a) {
      if a > 0 {
        Rec32768(a - 1);
      } else {
        Rec15(PERIOD);
        Rec15(0);
        Rec32768(0);
        Rec32768(14);
      }
    }
  }

  lemma {:induction false} RepeatsDiff(m: nat, n: nat)
    requires Repeats(m) && Repeats(m + n)
    ensures Repeats(n)
  {
    hide C;
    forall a: nat ensures C(a + n) == C(a) {
      assert C((a + n) + m) == C(a + n) && C(a + (m + n)) == C(a);
    }
  }

  lemma {:induction false} RepeatsTimes(m: nat, k: nat)
    requires Repeats(m)
    ensures Repeats(m * k)
    decreases k
  {
    hide C;
    if k > 0 {
      RepeatsTimes(m, k - 1);
      MulDistributes(m, k - 1);
      forall a: nat ensures C(a + m * k) == C(a) {
        assert C((a + m * (k - 1)) + m) == C(a + m * (k - 1)) == C(a);
      }
    }
  }

  // ---- no divisor is a period

  /** The bits of the register, one by one, from the bits that leave it. */
  lemma {:induction false} Observed(r: Reg, k: nat)
    requires k <= 12
    ensures r[0] == Out(r, 0) && r[k + 1] == (Out(r, k + 1) != Out(r, k))
  {
    assert Shifts(r, 0) == r;
    hide Shifts;
    ShiftsBit(r, k, 0);
    MovesDown(r, 0, k + 1, k);
  }

  lemma {:induction false} Observed14(r: Reg)
    ensures r[14] == ((Out(r, 14) != Out(r, 13)) != Out(r, 0))
  {
    assert Shifts(r, 0) == r;
    hide Shifts;
    ShiftsBit(r, 0, 13);
    Observed(Shifts(r, 1), 12);
    OutAdd(r, 1, 13);
    OutAdd(r, 1, 12);
  }

  lemma {:induction false} Observed15(r: Reg)
    ensures r[15] == ((Out(r, 15) != Out(r, 14)) != Out(r, 1))
  {
    assert Shifts(r, 0) == r;
    hide Shifts;
    ShiftsBit(r, 0, 14);
    Observed14(Shifts(r, 1));
    OutAdd(r, 1, 14);
    OutAdd(r, 1, 13);
    OutAdd(r, 1, 0);
  }

  lemma {:induction false} OneBit(i: nat)
    requires i < 16
    ensures One()[i] == Tap(i)
  {
    var z: Reg := Zero();
    ShiftBit(z[0 := z[0] != true], i);
  }

  lemma {:induction false} FirstC(k: nat)
    requires k <= 14
    ensures C(k) == (k == 12 || k == 13)
    decreases k
  {
    hide Out, One;
    OneBit(0);
    Observed(One(), 0);
    if k <= 12 {
      OneBit(k + 1);
      Observed(One(), k);
    } else if k == 13 {
      OneBit(14);
      Observed14(One());
    } else {
      OneBit(15);
      Observed15(One());
      OneBit(1);
      Observed(One(), 0);
    }
  }

  lemma {:induction false} SmallC(k: nat)
    requires k <= 33
    ensures C(k) == (k in {12, 13, 26, 28})
    decreases k
  {
    hide C;
    if k <= 14 {
      FirstC(k);
    } else {
      Rec15(k - 15);
      SmallC(k - 15);
      SmallC(k - 14);
    }
  }

  lemma {:induction false} C31To41(k: nat)
    requires 31 <= k <= 41
    ensures C(k) == (k in {40, 41})
  {
    hide C;
    Rec16(k - 16);
    SmallC(k - 14);
    SmallC(k - 15);
  }

  lemma {:induction false} Not217()
    ensures !Repeats(217)
  {
    hide C;
    Rec128(89);
    Rec64(33);
    Rec64(27);
    Rec64(26);
    C31To41(41);
    C31To41(37);
    C31To41(35);
    C31To41(31);
    C31To41(34);
    SmallC(30);
    SmallC(0);
    assert C(0 + 217) != C(0);
  }

  lemma {:induction false} Not1057()
    ensures !Repeats(1057)
  {
    hide C;
    Rec1024(36);
    C31To41(40);
    C31To41(38);
    C31To41(37);
    SmallC(3);
    assert C(3 + 1057) != C(3);
  }

  lemma {:induction false} Not4681()
    ensures !Repeats(4681)
  {
    hide C;
    Rec4096(585);
    Rec512(81);
    Rec512(77);
    Rec512(75);
    Rec512(74);
    Rec64(25);
    Rec64(21);
    Rec64(15);
    Rec64(13);
    Rec64(18);
    Rec64(12);
    SmallC(33);
    SmallC(29);
    SmallC(25);
    SmallC(23);
    SmallC(19);
    SmallC(21);
    SmallC(17);
    SmallC(26);
    SmallC(22);
    SmallC(20);
    SmallC(16);
    SmallC(0);
    assert C(0 + 4681) != C(0);
  }

  // ---- 32767 = 7 * 31 * 151

  function Gcd(a: nat, b: nat): nat
    decreases b
  {
    if b == 0 then a else Gcd(b, a % b)
  }

  lemma {:induction false} GcdDivides(a: nat, b: nat)
    requires a > 0 || b > 0
    ensures Gcd(a, b) > 0 && a % Gcd(a, b) == 0 && b % Gcd(a, b) == 0
    decreases b
  {
    if b > 0 {
      GcdDivides(b, a % b);
      var g := Gcd(b, a % b);
      TimesMod(b, a / b, g);
      SumMod(b * (a / b), a % b, g);
      assert a == b * (a / b) + a % b;
    } else {
      DivModUnique(a, a, 1, 0);
      DivModUnique(0, a, 0, 0);
    }
  }

  /** The greatest common divisor of two periods is one. */
  lemma {:induction false} GcdRepeats(a: nat, b: nat)
    requires Repeats(a) && Repeats(b)
    ensures Repeats(Gcd(a, b))
    decreases b
  {
    hide Repeats;
    if b > 0 {
      RepeatsTimes(b, a / b);
      assert a == b * (a / b) + a % b;
      RepeatsDiff(b * (a / b), a % b);
      GcdRepeats(b, a % b);
    }
  }

  /** What divides a * m and b * m divides gcd(a, b) * m. */
  lemma {:induction false} GcdFactor(q: nat, m: nat, a: nat, b: nat)
    requires q > 0 && (a * m) % q == 0 && (b * m) % q == 0
    ensures (Gcd(a, b) * m) % q == 0
    decreases b
  {
    if b > 0 {
      var k, r := a / b, a % b;
      assert a == b * k + r;
      TimesMod(b * m, k, q);
      MulPlusTimes(b, k, r, m);
      DiffMod(b * m * k, r * m, q);
      GcdFactor(q, m, b, r);
    }
  }

  lemma {:induction false} PrimeDivisor(p: nat, k: nat)
    requires p in {7, 31, 151} && k > 0 && p % k == 0
    ensures k == 1 || k == p
  {
    var j := p / k;
    assert p == k * j;
    if 1 < k <= 12 {
      assert k in {2, 3, 4, 5, 6, 7, 8, 9, 10, 11, 12};
    } else if k > 12 {
      SmallCofactor(p, k, j);
    }
  }

  lemma {:induction false} SmallCofactor(p: nat, k: nat, j: nat)
    requires p in {7, 31, 151} && k > 12 && p == k * j
    ensures k == p
  {
    if j > 11 {
      MulMonotone(k, 12, j);
      assert false;
    }
    assert j in {0, 1, 2, 3, 4, 5, 6, 7, 8, 9, 10, 11};
  }

  /** A divisor of p * m that is not one of m is a multiple of the prime p. */
  lemma {:induction false} PrimeOrRest(q: nat, p: nat, m: nat)
    requires q > 0 && p in {7, 31, 151} && (p * m) % q == 0
    ensures q % p == 0 || m % q == 0
  {
    GcdDivides(p, q);
    var g := Gcd(p, q);
    PrimeDivisor(p, g);
    if g == 1 {
      TimesMod(q, m, q);
      DivModUnique(q, q, 1, 0);
      GcdFactor(q, m, p, q);
      assert 1 * m == m;
    }
  }

  /** A proper divisor of 7 * 31 * 151 divides one of the three products of two of these primes. */
  lemma {:induction false} ProperDivisor(g: nat, q: nat)
    requires g * q == PERIOD && q > 1
    ensures 4681 % g == 0 || 1057 % g == 0 || 217 % g == 0
  {
    MultipleMod(g, q);
    assert PERIOD == 7 * 4681 && 4681 == 31 * 151 && 151 == 151 * 1;
    PrimeOrRest(q, 7, 4681);
    if q % 7 == 0 {
      Cofactor(g, q, 7, 4681);
    } else {
      PrimeOrRest(q, 31, 151);
      if q % 31 == 0 {
        Cofactor(g, q, 31, 1057);
      } else {
        PrimeOrRest(q, 151, 1);
        assert 1 % q == 1;
        Cofactor(g, q, 151, 217);
      }
    }
  }

  lemma {:induction false} Cofactor(g: nat, q: nat, p: nat, m: nat)
    requires p > 0 && q % p == 0 && g > 0 && g * q == p * m
    ensures m % g == 0
  {
    var k := q / p;
    assert q == p * k && g * q == p * (g * k);
    SameFactor(p, g * k, m);
    MultipleMod(k, g);
  }

  lemma {:induction false} SameFactor(p: nat, x: nat, y: nat)
    requires p > 0 && p * x == p * y
    ensures x == y
  {
    QuotientOrder(p, x, y);
    QuotientOrder(p, y, x);
  }

  lemma {:induction false} RepeatsMultiple(g: nat, h: nat)
    requires g > 0 && Repeats(g) && h % g == 0
    ensures Repeats(h)
  {
    hide Repeats;
    RepeatsTimes(g, h / g);
    assert h == g * (h / g);
  }

  /** Every period is a multiple of 32767. */
  lemma {:induction false} OnlyPeriod(d: nat)
    requires Repeats(d)
    ensures d % PERIOD == 0
  {
    hide Repeats;
    PeriodRepeats();
    GcdRepeats(d, PERIOD);
    GcdDivides(d, PERIOD);
    var g := Gcd(d, PERIOD);
    var q := PERIOD / g;
    assert g * q == PERIOD;
    if q > 1 {
      ProperDivisor(g, q);
      Not4681();
      Not1057();
      Not217();
      if 4681 % g == 0 {
        RepeatsMultiple(g, 4681);
      } else if 1057 % g == 0 {
        RepeatsMultiple(g, 1057);
      } else {
        RepeatsMultiple(g, 217);
      }
      assert false;
    }
    assert q == 1;
  }

  // ---- the register comes back exactly after multiples of 32767 shifts

  lemma {:induction false} BackRepeats(d: nat)
    requires Shifts(One(), d) == One()
    ensures Repeats(d)
  {
    hide Shifts, One;
    forall a: nat ensures C(a + d) == C(a) {
      OutAdd(One(), d, a);
      OutAdd(One(), d, a + 1);
    }
  }

  lemma {:induction false} ShiftsParity(r: Reg, k: nat)
    ensures Ones(Shifts(r, k)) % 2 == Ones(r) % 2
    decreases k
  {
    if k > 0 {
      ShiftsParity(r, k - 1);
      hide Ones, Shift;
      ShiftParity(Shifts(r, k - 1));
    }
  }

  lemma {:induction false} ThreeFlips(r: Reg, s: Reg)
    requires forall i :: 0 <= i < 16 ==> (r[i] != s[i] <==> i in {0, 14, 15})
    ensures Ones(r) % 2 != Ones(s) % 2
  {
    var s0 := s[0 := !s[0]];
    var s1 := s0[14 := !s0[14]];
    var s2 := s1[15 := !s1[15]];
    assert r == s2;
    hide Ones;
    OnesFlip(s, 0);
    OnesFlip(s0, 14);
    OnesFlip(s1, 15);
  }

  /** Outputs that differ by a constant only: the registers differ in bits 0, 14 and 15, or not at all. */
  lemma {:induction false} SameUpTo(r: Reg, s: Reg, e: bool, i: nat)
    requires i < 16 && forall k :: 0 <= k < 16 ==> Out(r, k) == (Out(s, k) != e)
    ensures r[i] == (s[i] != (e && i in {0, 14, 15}))
  {
    hide Out;
    if i <= 13 {
      Observed(r, if i == 0 then 0 else i - 1);
      Observed(s, if i == 0 then 0 else i - 1);
    } else if i == 14 {
      Observed14(r);
      Observed14(s);
    } else {
      Observed15(r);
      Observed15(s);
    }
  }

  /** A period of the output seen through x + 1 shifts the output itself by a constant. */
  lemma {:induction false} ShiftedByConstant(d: nat, k: nat)
    requires Repeats(d)
    ensures Out(Shifts(One(), d), k) == (Out(One(), k) != (Out(One(), d) != Out(One(), 0)))
    decreases k
  {
    hide Shifts, One, Out;
    OutAdd(One(), d, k);
    if k > 0 {
      ShiftedByConstant(d, k - 1);
      OutAdd(One(), d, k - 1);
      assert C((k - 1) + d) == C(k - 1);
    }
  }

  lemma {:induction false} RepeatsBack(d: nat)
    requires Repeats(d)
    ensures Shifts(One(), d) == One()
  {
    hide Shifts, One, Out, Repeats, Ones;
    var r, s, e := Shifts(One(), d), One(), Out(One(), d) != Out(One(), 0);
    forall k | 0 <= k < 16 ensures Out(r, k) == (Out(s, k) != e) {
      ShiftedByConstant(d, k);
    }
    forall i | 0 <= i < 16 ensures r[i] == (s[i] != (e && i in {0, 14, 15})) {
      SameUpTo(r, s, e, i);
    }
    ShiftsParity(s, d);
    if e {
      ThreeFlips(r, s);
    }
  }

  lemma {:induction false} BackIff(d: nat)
    ensures Shifts(One(), d) == One() <==> d % PERIOD == 0
  {
    hide Shifts, Repeats;
    if Shifts(One(), d) == One() {
      BackRepeats(d);
      OnlyPeriod(d);
    }
    if d % PERIOD == 0 {
      PeriodRepeats();
      RepeatsMultiple(PERIOD, d);
      RepeatsBack(d);
    }
  }

  // ---- two ones in a pattern

  /** The ones of e are those at places i and j. */
  predicate Pair(e: seq<bool>, i: nat, j: nat) {
    i < j < |e| && forall k :: 0 <= k < |e| ==> e[k] == (k == i || k == j)
  }

  lemma {:induction false} ZerosShift(r: Reg, w: seq<bool>)
    requires forall i :: 0 <= i < |w| ==> !w[i]
    ensures Run(r, w) == Shifts(r, |w|)
    decreases w
  {
    if w != [] {
      var k := |w| - 1;
      ZerosShift(r, w[..k]);
      var q := Run(r, w[..k]);
      assert q[0 := q[0] != false] == q;
    }
  }

  lemma {:induction false} OneCancels(r: Reg)
    ensures Step(r, true) == Zero() <==> Shift(r) == One()
  {
    hide Shift, One;
    var s, t := Shift(r), Step(r, true);
    forall i | 0 <= i < 16 ensures t[i] == (s[i] != One()[i]) {
      ShiftBit(r, i);
      ShiftBit(r[0 := r[0] != true], i);
      OneBit(i);
    }
    assert t == Zero() ==> forall i :: 0 <= i < 16 ==> s[i] == One()[i];
    assert s == One() ==> forall i :: 0 <= i < 16 ==> !t[i];
  }

  /** Between the two ones the register only shifts. */
  lemma {:induction false} PairShifts(head: seq<bool>, mid: seq<bool>, tail: seq<bool>)
    requires forall i :: 0 <= i < |head| ==> !head[i]
    requires forall i :: 0 <= i < |mid| ==> !mid[i]
    requires forall i :: 0 <= i < |tail| ==> !tail[i]
    ensures Run(Zero(), (((head + [true]) + mid) + [true]) + tail) == Zero()
       <==> Shifts(One(), |mid| + 1) == One()
  {
    assert Shifts(One(), |mid| + 1) == Shift(Shifts(One(), |mid|));
    assert Step(Zero(), true) == One();
    hide Run, Shift, Shifts, One;
    ZerosKeepZeroness(Zero(), head);
    RunSnoc(Zero(), head, true);
    var a := head + [true];
    RunConcat(Zero(), a, mid);
    ZerosShift(One(), mid);
    RunSnoc(Zero(), a + mid, true);
    OneCancels(Shifts(One(), |mid|));
    var b := (a + mid) + [true];
    RunConcat(Zero(), b, tail);
    ZerosKeepZeroness(Run(Zero(), b), tail);
  }

  lemma {:induction false} PairResidueIff(e: seq<bool>, i: nat, j: nat)
    requires Pair(e, i, j)
    ensures Run(Zero(), e) == Zero() <==> (j - i) % PERIOD == 0
  {
    hide Run, Shifts, One;
    var head, mid, tail := e[..i], e[i + 1..j], e[j + 1..];
    assert e == (((head + [true]) + mid) + [true]) + tail;
    PairShifts(head, mid, tail);
    BackIff(j - i);
  }

  /** Two ones in all stand at some pair of places. */
  lemma {:induction false} TwoOnes(e: seq<bool>) returns (i: nat, j: nat)
    requires Ones(e) == 2
    ensures Pair(e, i, j)
  {
    i := SomeOne(e);
    var w := e[i := false];
    OnesFlip(e, i);
    j := SomeOne(w);
    var v := w[j := false];
    OnesFlip(w, j);
    forall k | 0 <= k < |e| && e[k] ensures k == i || k == j {
      if k != i && k != j {
        OnesFlip(v, k);
        assert false;
      }
    }
    i, j := Min(i, j), if i < j then j else i;
  }

  lemma {:induction false} SomeOne(w: seq<bool>) returns (p: nat)
    requires Ones(w) > 0
    ensures p < |w| && w[p]
  {
    if forall k :: 0 <= k < |w| ==> !w[k] {
      OnesAll(w, false);
    }
    p :| p < |w| && w[p];
  }

  /** Up to three ones in a pattern no longer than the period leave a remainder. */
  lemma {:induction false} FewLeaveResidue(e: seq<bool>)
    requires 1 <= Ones(e) <= 3 && |e| <= PERIOD
    ensures Run(Zero(), e) != Zero()
  {
    hide Ones, Run;
    if Ones(e) == 2 {
      var i, j := TwoOnes(e);
      PairResidueIff(e, i, j);
      assert 0 < j - i < PERIOD;
    } else {
      OddLeavesResidue(e);
    }
  }
}
