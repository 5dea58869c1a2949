/**
 Which frames reach the Modbus server: whole-run delivery, recovery from garbage, and exactly when
 one to three left-over bytes (which the gap test never flushes) cost the next frame.
 */
module RxDelivery {
  import opened Bytes
  import Crc16
  import opened AduCodec
  import opened RxPipeline

  /** Nothing is waiting outside the frame buffer. */
  predicate Idle(s: Pipe) { s.ring == [] && s.tmp == [] }

  predicate Quiet(s: Pipe) { Idle(s) && s.rx.frame == [] }

  /** No gap test inside the stretch passes. */
  predicate NoFire(n: BufferSize, s: Pipe, ops: seq<Op>)
    requires Sized(n, s)
  {
    forall i :: 0 <= i < |ops| && ops[i].Test? ==> !Fires(Run(n, s, ops[..i]).rx, ops[i].now)
  }

  /** A stretch of steps followed by the gap test of a poll that found nothing to read. */
  datatype Burst = Burst(ops: seq<Op>, end: int)

  function Steps(b: Burst): seq<Op> { b.ops + [Test(b.end)] }

  function Frame(b: Burst): seq<Byte> { Announced(b.ops) }

  /** Everything has been read, and the line has been silent for the gap since. */
  predicate Silent(n: BufferSize, s: Pipe, b: Burst)
    requires Sized(n, s)
  {
    var t := Run(n, s, b.ops);
    Idle(t) && b.end - t.rx.lastMs >= GAP_MS
  }

  /** The burst carries one frame: no gap test fires inside it, and a silence ends it. */
  predicate OneBurst(n: BufferSize, s: Pipe, b: Burst)
    requires Sized(n, s)
  {
    NoFire(n, s, b.ops) && Silent(n, s, b)
  }

  function Verdict(f: seq<Byte>): Cut { Cut(if Accepts(f) then Submitted else Rejected, f) }

  // ---- one burst

  lemma NoFirePrefix(n: BufferSize, s: Pipe, ops: seq<Op>, k: nat)
    requires Sized(n, s) && NoFire(n, s, ops) && k <= |ops|
    ensures NoFire(n, s, ops[..k])
  {
    forall i | 0 <= i < k && ops[..k][i].Test? ensures !Fires(Run(n, s, ops[..k][..i]).rx, ops[..k][i].now) {
      assert ops[..k][..i] == ops[..i];
    }
  }

  /** What the stretch has brought so far, all of it still on its way or in the frame buffer. */
  predicate Gathered(s: Pipe, t: Pipe, line: seq<Byte>) {
    t.rx.log == s.rx.log && t.rx.frame + t.tmp + t.ring == s.rx.frame + line
  }

  lemma GatherStep(n: BufferSize, s: Pipe, t: Pipe, line: seq<Byte>, op: Op)
    requires Sized(n, t) && Gathered(s, t, line)
    requires op.Test? ==> !Fires(t.rx, op.now)
    requires |s.rx.frame| + |line| + (if op.Rdy? then |op.bytes| else 0) <= n
    ensures Gathered(s, Step(n, t, op), line + if op.Rdy? then op.bytes else [])
  {
    match op
    case Rdy(bytes) =>
      assert bytes[..|bytes|] == bytes;
      assert t.rx.frame + t.tmp + (t.ring + bytes) == (t.rx.frame + t.tmp + t.ring) + bytes;
      assert s.rx.frame + (line + bytes) == (s.rx.frame + line) + bytes;
    case Get =>
      var k := Min(POLL_BUF - |t.tmp|, |t.ring|);
      assert t.ring == t.ring[..k] + t.ring[k..];
      assert t.rx.frame + (t.tmp + t.ring[..k]) + t.ring[k..] == t.rx.frame + t.tmp + t.ring;
      assert line + [] == line;
    case Chunk(_) =>
      assert (t.rx.frame + t.tmp) + [] + t.ring == t.rx.frame + t.tmp + t.ring;
      assert line + [] == line;
    case Test(_) =>
      assert line + [] == line;
  }

  lemma {:induction false} Gather(n: BufferSize, s: Pipe, ops: seq<Op>)
    requires Sized(n, s) && Idle(s) && |s.rx.frame| + |Announced(ops)| <= n && NoFire(n, s, ops)
    ensures Gathered(s, Run(n, s, ops), Announced(ops))
    decreases ops
  {
    if ops == [] {
      assert s.rx.frame + [] + [] == s.rx.frame + [];
    } else {
      var k := |ops| - 1;
      NoFirePrefix(n, s, ops, k);
      Gather(n, s, ops[..k]);
      GatherStep(n, s, Run(n, s, ops[..k]), Announced(ops[..k]), ops[k]);
    }
  }

  /** A burst that fits the buffer, left-over bytes included, is cut whole and leaves nothing. */
  lemma BurstIsCut(n: BufferSize, s: Pipe, b: Burst)
    requires Sized(n, s) && Idle(s) && OneBurst(n, s, b)
    requires 4 <= |s.rx.frame| + |Frame(b)| <= n
    ensures var t := Run(n, s, Steps(b));
            Quiet(t) && t.rx.log == s.rx.log + [Verdict(s.rx.frame + Frame(b))]
  {
    Gather(n, s, b.ops);
    RunSnoc(n, s, b.ops, Test(b.end));
    var t := Run(n, s, b.ops);
    assert t.rx.frame + [] + [] == t.rx.frame;
  }

  // ---- whole runs

  function Trace(bs: seq<Burst>): seq<Op> {
    if bs == [] then [] else Trace(bs[..|bs| - 1]) + Steps(bs[|bs| - 1])
  }

  function Frames(bs: seq<Burst>): seq<seq<Byte>> {
    if bs == [] then [] else Frames(bs[..|bs| - 1]) + [Frame(bs[|bs| - 1])]
  }

  lemma {:induction false} AnnouncedTrace(bs: seq<Burst>)
    ensures Announced(Trace(bs)) == Flatten(Frames(bs))
    decreases bs
  {
    if bs != [] {
      var k := |bs| - 1;
      AnnouncedTrace(bs[..k]);
      AnnouncedConcat(Trace(bs[..k]), Steps(bs[k]));
      AnnouncedConcat(bs[k].ops, [Test(bs[k].end)]);
      assert [Test(bs[k].end)][..0] == [];
      assert Frame(bs[k]) + [] == Frame(bs[k]);
      FlattenSnoc(Frames(bs[..k]), Frame(bs[k]));
    }
  }

  /** What the server must be given for these frames: the good ones, in order, once each. */
  function Expected(fs: seq<seq<Byte>>): seq<Adu> {
    if fs == [] then []
    else
      var f := fs[|fs| - 1];
      Expected(fs[..|fs| - 1]) + Handed(f)
  }

  /** Frames of 4 to n bytes, each ended by a silence before the next begins. */
  predicate WellSeparated(n: BufferSize, s: Pipe, bs: seq<Burst>)
    requires Sized(n, s)
    decreases bs
  {
    bs == [] ||
    var k := |bs| - 1;
    && WellSeparated(n, s, bs[..k])
    && 4 <= |Frame(bs[k])| <= n
    && OneBurst(n, Run(n, s, Trace(bs[..k])), bs[k])
  }

  /** What a gap test does to the frame buffer and to what the server has been given. */
  lemma GapTestEffect(rx: Rx, now: int)
    ensures var t := GapTest(rx, now);
            && t.lastMs == rx.lastMs
            && t.frame == (if Fires(rx, now) then [] else rx.frame)
            && Adus(t.log) == if Fires(rx, now) then Adus(rx.log) + Handed(rx.frame) else Adus(rx.log)
  {
    LogSnoc(rx.log, Verdict(rx.frame));
  }

  /** What storing a chunk does to them. */
  lemma StoreEffect(n: BufferSize, rx: Rx, chunk: seq<Byte>, at: int)
    requires |chunk| <= POLL_BUF && |rx.frame| <= n
    ensures var t := Store(n, rx, chunk, at);
            && t.lastMs == at && Adus(t.log) == Adus(rx.log)
            && t.frame == (if |rx.frame| + |chunk| > n then [] else rx.frame) + chunk
  {
    LogSnoc(rx.log, Cut(Overflowed, rx.frame));
  }

  lemma DeliverOne(n: BufferSize, s: Pipe, b: Burst)
    requires Sized(n, s) && Quiet(s) && 4 <= |Frame(b)| <= n && OneBurst(n, s, b)
    ensures var t := Run(n, s, Steps(b));
            Quiet(t) && Adus(t.rx.log) == Adus(s.rx.log) + Handed(Frame(b))
  {
    BurstIsCut(n, s, b);
    assert [] + Frame(b) == Frame(b);
    LogSnoc(s.rx.log, Verdict(Frame(b)));
  }

  lemma ExpectedSnoc(fs: seq<seq<Byte>>, f: seq<Byte>)
    ensures Expected(fs + [f]) == Expected(fs) + Handed(f)
  {
    assert (fs + [f])[..|fs|] == fs;
  }

  lemma DeliverOneMore(n: BufferSize, s: Pipe, ops: seq<Op>, fs: seq<seq<Byte>>, b: Burst)
    requires Sized(n, s)
    requires var t := Run(n, s, ops);
             && Quiet(t) && Adus(t.rx.log) == Adus(s.rx.log) + Expected(fs)
             && 4 <= |Frame(b)| <= n && OneBurst(n, t, b)
    ensures var u := Run(n, s, ops + Steps(b));
            Quiet(u) && Adus(u.rx.log) == Adus(s.rx.log) + Expected(fs + [Frame(b)])
  {
    var t, steps, f := Run(n, s, ops), Steps(b), Frame(b);
    DeliverOne(n, t, b);
    RunConcat(n, s, ops, steps);
    ExpectedSnoc(fs, f);
    Associative(Adus(s.rx.log), Expected(fs), Handed(f));
  }

  lemma Associative(a: seq<Adu>, b: seq<Adu>, c: seq<Adu>)
    ensures (a + b) + c == a + (b + c)
  {}

  /** Delivery: from an empty buffer, however the frames are split into chunks and interleaved. */
  lemma {:induction false} Delivery(n: BufferSize, s: Pipe, bs: seq<Burst>)
    requires Sized(n, s) && Quiet(s) && WellSeparated(n, s, bs)
    ensures var t := Run(n, s, Trace(bs));
            Quiet(t) && Adus(t.rx.log) == Adus(s.rx.log) + Expected(Frames(bs))
    decreases bs
  {
    if bs != [] {
      var init, last := bs[..|bs| - 1], bs[|bs| - 1];
      Delivery(n, s, init);
      DeliverOneMore(n, s, Trace(init), Frames(init), last);
    }
  }

  function Encoded(adus: seq<Adu>): seq<seq<Byte>> {
    if adus == [] then [] else Encoded(adus[..|adus| - 1]) + [Encode(adus[|adus| - 1])]
  }

  /** The ADUs as received: the same fields, with the crc the wire carried. */
  function Received(adus: seq<Adu>): seq<Adu> {
    if adus == [] then []
    else
      var a := adus[|adus| - 1];
      Received(adus[..|adus| - 1]) + [a.(crc := Crc16.Crc(Body(a)))]
  }

  lemma {:induction false} ExpectedEncoded(adus: seq<Adu>)
    ensures Expected(Encoded(adus)) == Received(adus)
    decreases adus
  {
    if adus != [] {
      var k := |adus| - 1;
      ExpectedEncoded(adus[..k]);
      DecodeEncode(adus[k]);
      assert Encoded(adus)[..|Encoded(adus)| - 1] == Encoded(adus[..k]);
    }
  }

  /** From encoder to server: frames built for transmission arrive as the same ADUs, in order. */
  lemma EndToEnd(n: BufferSize, s: Pipe, bs: seq<Burst>, adus: seq<Adu>)
    requires Sized(n, s) && Quiet(s) && WellSeparated(n, s, bs) && Frames(bs) == Encoded(adus)
    ensures Adus(Run(n, s, Trace(bs)).rx.log) == Adus(s.rx.log) + Received(adus)
  {
    Delivery(n, s, bs);
    ExpectedEncoded(adus);
  }

  // ---- recovery from garbage

  /** One silence, whatever was buffered before: at most three bytes stay. */
  lemma SilenceLeavesAtMostThree(n: BufferSize, s: Pipe, gap: Burst)
    requires Sized(n, s) && Silent(n, s, gap)
    ensures var t := Run(n, s, Steps(gap)); Idle(t) && |t.rx.frame| <= 3
  {
    hide Run, Accepts;
    RunSnoc(n, s, gap.ops, Test(gap.end));
  }

  lemma Resynchronisation(n: BufferSize, s: Pipe, gap: Burst, s1: Pipe, burst: Burst, s2: Pipe, bs: seq<Burst>)
    requires Sized(n, s) && Silent(n, s, gap) && s1 == Run(n, s, Steps(gap))
    requires OneBurst(n, s1, burst) && 4 <= |Frame(burst)| <= n - 3 && s2 == Run(n, s1, Steps(burst))
    requires WellSeparated(n, s2, bs)
    ensures |s1.rx.frame| <= 3 && Quiet(s2)
    ensures Adus(Run(n, s2, Trace(bs)).rx.log) == Adus(s2.rx.log) + Expected(Frames(bs))
  {
    SilenceLeavesAtMostThree(n, s, gap);
    BurstIsCut(n, s1, burst);
    Delivery(n, s2, bs);
  }

  // ---- the left-over bytes: exactly when they cost the next frame

  /** The chunk the stretch from s to t stored first. */
  function FirstChunk(s: Pipe, t: Pipe): seq<Byte>
    requires |s.chunks| < |t.chunks|
  {
    t.chunks[|s.chunks|]
  }

  /** No overflow so far: the left-over bytes head the frame buffer. */
  predicate Headed(n: BufferSize, s: Pipe, t: Pipe, line: seq<Byte>) {
    && Gathered(s, t, line)
    && |s.chunks| <= |t.chunks|
    && if |s.chunks| == |t.chunks| then t.rx.frame == s.rx.frame
       else |t.rx.frame| > |s.rx.frame| && |s.rx.frame| + |FirstChunk(s, t)| <= n
  }

  /** After an overflow that took the left-over bytes and the first a bytes of the line. */
  predicate Beheaded(n: BufferSize, s: Pipe, t: Pipe, line: seq<Byte>, a: nat) {
    && a <= |line|
    && t.rx.log == s.rx.log + [Cut(Overflowed, s.rx.frame + line[..a])]
    && t.rx.frame + t.tmp + t.ring == line[a..]
    && |s.chunks| < |t.chunks|
    && s.rx.frame != []
    && (a == 0 <==> |s.rx.frame| + |FirstChunk(s, t)| > n)
  }

  lemma OverflowBeheads(n: BufferSize, s: Pipe, t: Pipe, line: seq<Byte>, at: int) returns (a: nat)
    requires Sized(n, t) && Headed(n, s, t, line) && |line| <= n
    requires t.tmp != [] && |t.rx.frame| + |t.tmp| > n
    ensures Beheaded(n, s, Step(n, t, Chunk(at)), line, a)
  {
    hide Accepts;
    a := |t.rx.frame| - |s.rx.frame|;
    SplitBehind(t.rx.frame, t.tmp, t.ring, s.rx.frame, line);
    assert ([] + t.tmp) + [] + t.ring == t.tmp + t.ring;
  }

  lemma SplitBehind(x: seq<Byte>, y: seq<Byte>, z: seq<Byte>, r: seq<Byte>, line: seq<Byte>)
    requires x + y + z == r + line && |x| >= |r|
    ensures |x| - |r| <= |line| && x == r + line[..|x| - |r|] && y + z == line[|x| - |r|..]
  {
    var a := |x| - |r|;
    assert x == (x + y + z)[..|x|] && y + z == (x + y + z)[|x|..];
    assert (r + line)[..|x|] == r + line[..a] && (r + line)[|x|..] == line[a..];
  }

  lemma BeheadedStep(n: BufferSize, s: Pipe, t: Pipe, line: seq<Byte>, a: nat, op: Op)
    requires Sized(n, t) && Beheaded(n, s, t, line, a)
    requires op.Test? ==> !Fires(t.rx, op.now)
    requires |line| + (if op.Rdy? then |op.bytes| else 0) <= n
    ensures Beheaded(n, s, Step(n, t, op), line + (if op.Rdy? then op.bytes else []), a)
  {
    hide Accepts, RingPut, RingGet;
    var base := t.(rx := Rx([], t.rx.lastMs, t.rx.log));
    assert [] + line[a..] == line[a..];
    GatherStep(n, base, t, line[a..], op);
    var more := if op.Rdy? then op.bytes else [];
    assert (line + more)[..a] == line[..a];
    assert (line + more)[a..] == line[a..] + more;
    assert [] + (line[a..] + more) == line[a..] + more;
  }

  lemma HeadedStep(n: BufferSize, s: Pipe, t: Pipe, line: seq<Byte>, op: Op)
    requires Sized(n, t) && Headed(n, s, t, line) && |line| <= n
    requires op.Test? ==> !Fires(t.rx, op.now)
    requires |line| + (if op.Rdy? then |op.bytes| else 0) <= n
    requires op.Chunk? ==> |t.rx.frame| + |t.tmp| <= n
    ensures Headed(n, s, Step(n, t, op), line + (if op.Rdy? then op.bytes else []))
  {
    match op
    case Rdy(bytes) =>
      assert |t.ring| <= |t.rx.frame + t.tmp + t.ring| == |s.rx.frame| + |line|;
      assert bytes[..|bytes|] == bytes;
      assert t.rx.frame + t.tmp + (t.ring + bytes) == (t.rx.frame + t.tmp + t.ring) + bytes;
      assert s.rx.frame + (line + bytes) == (s.rx.frame + line) + bytes;
    case Get =>
      var k := Min(POLL_BUF - |t.tmp|, |t.ring|);
      assert t.ring == t.ring[..k] + t.ring[k..];
      assert t.rx.frame + (t.tmp + t.ring[..k]) + t.ring[k..] == t.rx.frame + t.tmp + t.ring;
      assert line + [] == line;
    case Chunk(_) =>
      assert (t.rx.frame + t.tmp) + [] + t.ring == t.rx.frame + t.tmp + t.ring;
      assert line + [] == line;
    case Test(_) =>
      assert line + [] == line;
  }

  /** What a stretch without a passing gap test can have done to the left-over bytes. */
  ghost predicate Phase(n: BufferSize, s: Pipe, t: Pipe, line: seq<Byte>) {
    Headed(n, s, t, line) || exists a: nat :: Beheaded(n, s, t, line, a)
  }

  lemma {:induction false} PhaseOfRun(n: BufferSize, s: Pipe, ops: seq<Op>)
    requires Sized(n, s) && Idle(s) && |Announced(ops)| <= n && NoFire(n, s, ops)
    ensures Phase(n, s, Run(n, s, ops), Announced(ops))
    decreases ops
  {
    if ops == [] {
      assert s.rx.frame + [] + [] == s.rx.frame + [];
      assert Headed(n, s, s, []);
    } else {
      var k := |ops| - 1;
      NoFirePrefix(n, s, ops, k);
      PhaseOfRun(n, s, ops[..k]);
      PhaseStep(n, s, Run(n, s, ops[..k]), Announced(ops[..k]), ops[k]);
    }
  }

  lemma PhaseStep(n: BufferSize, s: Pipe, t: Pipe, line: seq<Byte>, op: Op)
    requires Sized(n, t) && Phase(n, s, t, line)
    requires op.Test? ==> !Fires(t.rx, op.now)
    requires |line| + (if op.Rdy? then |op.bytes| else 0) <= n
    ensures Phase(n, s, Step(n, t, op), line + (if op.Rdy? then op.bytes else []))
  {
    if !Headed(n, s, t, line) {
      var a: nat :| Beheaded(n, s, t, line, a);
      BeheadedStep(n, s, t, line, a, op);
    } else if op.Chunk? && t.tmp != [] && |t.rx.frame| + |t.tmp| > n {
      var a := OverflowBeheads(n, s, t, line, op.at);
      assert line + [] == line;
    } else {
      HeadedStep(n, s, t, line, op);
    }
  }

  /** The cuts made from s to t. */
  function NewCuts(s: Pipe, t: Pipe): seq<Cut>
    requires |s.rx.log| <= |t.rx.log|
  {
    t.rx.log[|s.rx.log|..]
  }

  lemma HeadedOutcome(n: BufferSize, s: Pipe, b: Burst)
    requires Sized(n, s) && Idle(s) && OneBurst(n, s, b) && 4 <= |Frame(b)| <= n
    requires Headed(n, s, Run(n, s, b.ops), Frame(b))
    ensures var u := Run(n, s, Steps(b));
            && u.rx.log == s.rx.log + [Verdict(s.rx.frame + Frame(b))]
            && u.chunks == Run(n, s, b.ops).chunks
            && |u.chunks| > |s.chunks| && |s.rx.frame| + |FirstChunk(s, u)| <= n
  {
    var t := Run(n, s, b.ops);
    RunSnoc(n, s, b.ops, Test(b.end));
    assert t.rx.frame + [] + [] == t.rx.frame;
    assert |t.rx.frame| == |s.rx.frame| + |Frame(b)|;
  }

  lemma BeheadedOutcome(n: BufferSize, s: Pipe, b: Burst, a: nat)
    requires Sized(n, s) && Idle(s) && OneBurst(n, s, b)
    requires 4 <= |Frame(b)| <= n
    requires Beheaded(n, s, Run(n, s, b.ops), Frame(b), a)
    ensures var u := Run(n, s, Steps(b));
            && u.rx.log == s.rx.log + [Cut(Overflowed, s.rx.frame + Frame(b)[..a])]
                           + (if |Frame(b)| - a >= 4 then [Verdict(Frame(b)[a..])] else [])
            && u.chunks == Run(n, s, b.ops).chunks
  {
    var t := Run(n, s, b.ops);
    RunSnoc(n, s, b.ops, Test(b.end));
    assert t.rx.frame + [] + [] == t.rx.frame;
  }

  lemma HeadedIff(n: BufferSize, s: Pipe, b: Burst)
    requires Sized(n, s) && Idle(s) && OneBurst(n, s, b) && 4 <= |Frame(b)| <= n
    requires Headed(n, s, Run(n, s, b.ops), Frame(b))
    ensures LeftoverCriterion(n, s, Run(n, s, Steps(b)), Frame(b))
  {
    var f, u := Frame(b), Run(n, s, Steps(b));
    hide Run, Accepts, OneBurst, Headed;
    HeadedOutcome(n, s, b);
    NewCutsAppended(s, u, [Verdict(s.rx.frame + f)]);
    if s.rx.frame == [] {
      assert [] + f == f;
    } else {
      assert |s.rx.frame + f| > |f|;
    }
  }

  lemma BeheadedIff(n: BufferSize, s: Pipe, b: Burst, a: nat)
    requires Sized(n, s) && Idle(s) && OneBurst(n, s, b)
    requires 4 <= |Frame(b)| <= n
    requires Beheaded(n, s, Run(n, s, b.ops), Frame(b), a)
    ensures LeftoverCriterion(n, s, Run(n, s, Steps(b)), Frame(b))
  {
    hide Run, Accepts, OneBurst;
    var f, u := Frame(b), Run(n, s, Steps(b));
    BeheadedOutcome(n, s, b, a);
    var head := [Cut(Overflowed, s.rx.frame + f[..a])];
    var rest := if |f| - a >= 4 then [Verdict(f[a..])] else [];
    assert s.rx.log + head + rest == s.rx.log + (head + rest);
    NewCutsAppended(s, u, head + rest);
    CutsAfterOverflow(f, s.rx.frame + f[..a], a);
  }

  /** What is cut of a frame after an overflow took its first a bytes is the frame only for a == 0. */
  lemma CutsAfterOverflow(f: seq<Byte>, gone: seq<Byte>, a: nat)
    requires a <= |f| && |f| >= 4
    ensures var cuts := [Cut(Overflowed, gone)] + (if |f| - a >= 4 then [Verdict(f[a..])] else []);
            Verdict(f) in cuts <==> a == 0
  {
    SuffixIsWholeIff(f, a);
    hide Accepts;
    var rest := if |f| - a >= 4 then [Verdict(f[a..])] else [];
    assert Verdict(f) in [Cut(Overflowed, gone)] + rest <==> Verdict(f) in rest;
  }

  lemma SuffixIsWholeIff(f: seq<Byte>, a: nat)
    requires a <= |f|
    ensures f[a..] == f <==> a == 0
  {
    if a > 0 {
      assert |f[a..]| < |f|;
    }
  }

  lemma NewCutsAppended(s: Pipe, u: Pipe, cuts: seq<Cut>)
    requires u.rx.log == s.rx.log + cuts
    ensures NewCuts(s, u) == cuts
  {}

  /** The criterion of LeftoverDeliveryIff, with the first read taken from the chunk history of the run. */
  predicate LeftoverCriterion(n: BufferSize, s: Pipe, u: Pipe, f: seq<Byte>) {
    && |s.chunks| < |u.chunks| && |s.rx.log| <= |u.rx.log|
    && (Verdict(f) in NewCuts(s, u) <==> s.rx.frame == [] || |s.rx.frame| + |FirstChunk(s, u)| > n)
  }

  lemma LeftoverByHistory(n: BufferSize, s: Pipe, b: Burst)
    requires Sized(n, s) && Idle(s) && OneBurst(n, s, b)
    requires 4 <= |Frame(b)| <= n
    ensures LeftoverCriterion(n, s, Run(n, s, Steps(b)), Frame(b))
  {
    PhaseOfRun(n, s, b.ops);
    if Headed(n, s, Run(n, s, b.ops), Frame(b)) {
      HeadedIff(n, s, b);
    } else {
      var a: nat :| Beheaded(n, s, Run(n, s, b.ops), Frame(b), a);
      BeheadedIff(n, s, b, a);
    }
  }

  /** The ring, the read in progress and what the reads have returned: all that the steps alone decide. */
  datatype Flow = Flow(ring: seq<Byte>, tmp: seq<Byte>, got: seq<seq<Byte>>)

  predicate FlowSized(f: Flow) {
    && |f.ring| <= RING_SIZE && |f.tmp| <= POLL_BUF
    && forall i :: 0 <= i < |f.got| ==> 0 < |f.got[i]| <= POLL_BUF
  }

  function FlowStep(f: Flow, op: Op): (t: Flow)
    requires FlowSized(f)
    ensures FlowSized(t)
  {
    match op
    case Rdy(bytes) => Flow(f.ring + RingPut(f.ring, bytes).kept, f.tmp, f.got)
    case Get => var k := RingGet(f.ring, |f.tmp|, POLL_BUF); Flow(f.ring[k..], f.tmp + f.ring[..k], f.got)
    case Chunk(_) => if f.tmp == [] then f else Flow(f.ring, [], f.got + [f.tmp])
    case Test(_) => f
  }

  /** Beginning with nothing on its way, whatever the frame buffer holds and however large it is. */
  function FlowOf(ops: seq<Op>): (f: Flow)
    ensures FlowSized(f)
    decreases ops
  {
    if ops == [] then Flow([], [], []) else FlowStep(FlowOf(ops[..|ops| - 1]), ops[|ops| - 1])
  }

  predicate Flows(s: Pipe, t: Pipe, f: Flow) {
    t.ring == f.ring && t.tmp == f.tmp && t.chunks == s.chunks + f.got
  }

  lemma FlowsStep(n: BufferSize, s: Pipe, t: Pipe, f: Flow, op: Op)
    requires Sized(n, t) && FlowSized(f) && Flows(s, t, f)
    ensures Flows(s, Step(n, t, op), FlowStep(f, op))
  {
    hide Store, Submit, Accepts, FlowSized;
    if op.Chunk? && t.tmp != [] {
      assert (s.chunks + f.got) + [t.tmp] == s.chunks + (f.got + [t.tmp]);
    }
  }

  lemma {:induction false} RunFlows(n: BufferSize, s: Pipe, ops: seq<Op>)
    requires Sized(n, s) && Idle(s)
    ensures Flows(s, Run(n, s, ops), FlowOf(ops))
    decreases ops
  {
    hide FlowStep, Step, Flows;
    if ops == [] {
      NothingFlows(s);
    } else {
      var k := |ops| - 1;
      RunFlows(n, s, ops[..k]);
      FlowsStep(n, s, Run(n, s, ops[..k]), FlowOf(ops[..k]), ops[k]);
    }
  }

  lemma NothingFlows(s: Pipe)
    requires Idle(s)
    ensures Flows(s, s, Flow([], [], []))
  {
    assert s.chunks + [] == s.chunks;
  }

  /**
   A frame arriving on top of left-over bytes is cut and judged as itself, so submitted if it is good, if
   and only if there were none, or the first read of the burst returns more than the buffer has room for behind them.
   */
  lemma LeftoverDeliveryIff(n: BufferSize, s: Pipe, b: Burst)
    requires Sized(n, s) && Idle(s) && OneBurst(n, s, b)
    requires 4 <= |Frame(b)| <= n
    ensures var u, got := Run(n, s, Steps(b)), FlowOf(b.ops).got;
            && got != [] && |s.rx.log| <= |u.rx.log|
            && (Verdict(Frame(b)) in NewCuts(s, u) <==> s.rx.frame == [] || |s.rx.frame| + |got[0]| > n)
  {
    hide Run, FlowOf, Accepts, OneBurst;
    LeftoverByHistory(n, s, b);
    RunFlows(n, s, b.ops);
    RunSnoc(n, s, b.ops, Test(b.end));
  }

  /** With room for one more read behind the left-over bytes, they always cost the frame. */
  lemma LeftoverAlwaysCosts(n: BufferSize, s: Pipe, b: Burst)
    requires Sized(n, s) && Idle(s) && OneBurst(n, s, b)
    requires 4 <= |Frame(b)| <= n && |s.rx.frame| + 64 <= n
    ensures var u := Run(n, s, Steps(b));
            |s.rx.log| <= |u.rx.log| && (Verdict(Frame(b)) in NewCuts(s, u) <==> s.rx.frame == [])
  {
    hide Run, Accepts, OneBurst;
    LeftoverDeliveryIff(n, s, b);
    assert FlowSized(FlowOf(b.ops));
  }

  /**
   A buffer of at least 67 bytes: after a silence, whatever stayed in the buffer costs the next frame,
   however it is split and whenever it is read; only an empty buffer lets it through.
   */
  lemma FrameAfterSilence(n: BufferSize, s: Pipe, gap: Burst, s1: Pipe, b: Burst)
    requires Sized(n, s) && Silent(n, s, gap) && s1 == Run(n, s, Steps(gap)) && n >= 67
    requires OneBurst(n, s1, b) && 4 <= |Frame(b)| <= n
    ensures var u := Run(n, s1, Steps(b));
            |s1.rx.log| <= |u.rx.log| && (Verdict(Frame(b)) in NewCuts(s1, u) <==> s1.rx.frame == [])
  {
    hide Run, Accepts, OneBurst;
    SilenceLeavesAtMostThree(n, s, gap);
    LeftoverAlwaysCosts(n, s1, b);
  }

  lemma RunPair(n: BufferSize, s: Pipe, a: Op, b: Op)
    requires Sized(n, s)
    ensures Run(n, s, [a, b]) == Step(n, Step(n, s, a), b)
  {
    hide Step;
    assert [a, b][..1] == [a];
    assert [a][..0] == [];
    assert Run(n, s, [a]) == Step(n, Run(n, s, []), a);
  }

  /** The steps of a poll that finds f in the ring, and of the next one, which finds nothing. */
  function TwoPolls(f: seq<Byte>, at: int): seq<Op> { [Rdy(f), Get] + ([Chunk(at), Get] + [Chunk(at), Test(at + GAP_MS)]) }

  lemma FirstPoll(n: BufferSize, s: Pipe, f: seq<Byte>)
    requires Sized(n, s) && Idle(s) && |f| <= POLL_BUF
    ensures var t := Run(n, s, [Rdy(f), Get]);
            t.tmp == f && t.ring == [] && t.rx == s.rx
  {
    hide Run, Accepts;
    RunPair(n, s, Rdy(f), Get);
    assert RingPut([], f).kept == f;
    assert f[..|f|] == f && [] + f == f && f[|f|..] == [];
  }

  /**
   For every buffer size there are such runs: a frame of at most 64 bytes, read in one chunk behind one
   to three left-over bytes, is cut together with them, and they are not the frame.
   */
  lemma StrayBytesLoseFrame(n: BufferSize, s: Pipe, f: seq<Byte>, at: int)
    requires Sized(n, s) && Idle(s) && 1 <= |s.rx.frame| <= 3
    requires 4 <= |f| <= 64 && |s.rx.frame| + |f| <= n
    ensures var u := Run(n, s, TwoPolls(f, at));
            u.rx.log == s.rx.log + [Verdict(s.rx.frame + f)] && s.rx.frame + f != f && Quiet(u)
  {
    var a, b, c := [Rdy(f), Get], [Chunk(at), Get], [Chunk(at), Test(at + GAP_MS)];
    FirstPoll(n, s, f);
    var s1 := Run(n, s, a);
    StoreAndCut(n, s1, at);
    RunConcat(n, s1, b, c);
    RunConcat(n, s, a, b + c);
    assert |s.rx.frame + f| > |f|;
  }

  lemma StoreStep(n: BufferSize, s: Pipe, at: int)
    requires Sized(n, s) && s.ring == [] && s.tmp != [] && |s.rx.frame| + |s.tmp| <= n
    ensures var t := Run(n, s, [Chunk(at), Get]);
            t.rx == Rx(s.rx.frame + s.tmp, at, s.rx.log) && Idle(t)
  {
    hide Run, Step;
    StoreFits(n, s, at);
    TakeFromEmpty(n, Step(n, s, Chunk(at)));
    RunPair(n, s, Chunk(at), Get);
  }

  lemma StoreFits(n: BufferSize, s: Pipe, at: int)
    requires Sized(n, s) && s.ring == [] && s.tmp != [] && |s.rx.frame| + |s.tmp| <= n
    ensures var u := Step(n, s, Chunk(at)); u.rx == Rx(s.rx.frame + s.tmp, at, s.rx.log) && Idle(u)
  {}

  lemma TakeFromEmpty(n: BufferSize, s: Pipe)
    requires Sized(n, s) && Idle(s)
    ensures Step(n, s, Get).rx == s.rx && Idle(Step(n, s, Get))
  {}

  lemma CutStep(n: BufferSize, s: Pipe, at: int)
    requires Sized(n, s) && Idle(s) && |s.rx.frame| >= 4 && s.rx.lastMs == at
    ensures var t := Run(n, s, [Chunk(at), Test(at + GAP_MS)]);
            t.rx.log == s.rx.log + [Verdict(s.rx.frame)] && Quiet(t)
  {
    RunPair(n, s, Chunk(at), Test(at + GAP_MS));
  }

  lemma StoreAndCut(n: BufferSize, s: Pipe, at: int)
    requires Sized(n, s) && s.ring == [] && s.tmp != [] && 4 <= |s.rx.frame| + |s.tmp| <= n
    ensures var t := Run(n, Run(n, s, [Chunk(at), Get]), [Chunk(at), Test(at + GAP_MS)]);
            t.rx.log == s.rx.log + [Verdict(s.rx.frame + s.tmp)] && Quiet(t)
  {
    StoreStep(n, s, at);
    CutStep(n, Run(n, s, [Chunk(at), Get]), at);
  }

  /** The line brings r, and a poll reads it. */
  function StrayPoll(r: seq<Byte>): seq<Op> { [Rdy(r), Get] + ([Chunk(0), Get] + [Get, Test(GAP_MS)]) }

  lemma {:induction false} StrayStays(n: BufferSize, r: seq<Byte>)
    requires 1 <= |r| <= 3
    ensures var s := Run(n, Boot(), StrayPoll(r)); Idle(s) && s.rx.frame == r && s.rx.log == []
  {
    hide Run, Step, Accepts;
    var a, b, c := [Rdy(r), Get], [Chunk(0), Get], [Get, Test(GAP_MS)];
    FirstPoll(n, Boot(), r);
    var s1 := Run(n, Boot(), a);
    StoreStep(n, s1, 0);
    var s2 := Run(n, s1, b);
    RunConcat(n, s1, b, c);
    RunConcat(n, Boot(), a, b + c);
    RunPair(n, s2, Get, Test(GAP_MS));
    TakeFromEmpty(n, s2);
    NoCut(n, Step(n, s2, Get), GAP_MS);
    assert [] + r == r;
  }

  lemma {:induction false} NoCut(n: BufferSize, s: Pipe, now: int)
    requires Sized(n, s) && |s.rx.frame| < 4
    ensures Step(n, s, Test(now)) == s
  {}

  /** A run from boot that loses a frame: one to three stray bytes, a poll, then the frame and two polls. */
  lemma {:induction false} StrayRunLosesFrame(n: BufferSize, r: seq<Byte>, f: seq<Byte>, at: int)
    requires 1 <= |r| <= 3 && 4 <= |f| <= 64 && |r| + |f| <= n
    ensures Run(n, Boot(), StrayPoll(r) + TwoPolls(f, at)).rx.log == [Verdict(r + f)] && r + f != f
  {
    hide Run, Accepts;
    StrayStays(n, r);
    StrayBytesLoseFrame(n, Run(n, Boot(), StrayPoll(r)), f, at);
    RunConcat(n, Boot(), StrayPoll(r), TwoPolls(f, at));
    assert [] + [Verdict(r + f)] == [Verdict(r + f)];
  }
}
