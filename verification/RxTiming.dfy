/**
 Delivery seen from outside: steps with the time they happen at. How dense the announcements of a frame
 are, how promptly a poll tests after it has emptied the ring, how often it polls, and how long the
 line is silent behind a frame are enough to deliver every good frame.
 */
module RxTiming {
  import opened Bytes
  import opened AduCodec
  import opened RxPipeline
  import opened RxDelivery

  predicate Speaks(op: Op) { op.Rdy? && op.bytes != [] }

  /** When the line last spoke. */
  function LastSpoke(ts: seq<Stamped>): Option<int>
    decreases ts
  {
    if ts == [] then None
    else if Speaks(ts[|ts| - 1].op) then Some(ts[|ts| - 1].time)
    else LastSpoke(ts[..|ts| - 1])
  }

  /** Within a frame the announcements are at most gap ms apart. */
  predicate Dense(ts: seq<Stamped>, gap: int) {
    forall j :: 0 <= j < |ts| && Speaks(ts[j].op) && LastSpoke(ts[..j]).Some? ==>
      ts[j].time - LastSpoke(ts[..j]).value <= gap
  }

  /** The end of a poll: a ring_buf_get has left ring and read buffer empty, then comes the gap test. */
  predicate PollEnd(n: BufferSize, s: Pipe, ts: seq<Stamped>, k: int, i: int)
    requires Sized(n, s)
  {
    && 0 <= k < i < |ts| && ts[k].op == Get && ts[i].op.Test?
    && Idle(Run(n, s, OpsOf(ts[..k + 1])))
    && forall j :: k < j < i ==> ts[j].op.Rdy?
  }

  /** Every gap test ends a poll. */
  predicate AllPolled(n: BufferSize, s: Pipe, ts: seq<Stamped>)
    requires Sized(n, s)
  {
    forall i :: 0 <= i < |ts| && ts[i].op.Test? ==> PolledAt(n, s, ts, i)
  }

  predicate PolledAt(n: BufferSize, s: Pipe, ts: seq<Stamped>, i: int)
    requires Sized(n, s)
  {
    exists k :: 0 <= k < i && PollEnd(n, s, ts, k, i)
  }

  /** The test comes at most delay ms after the ring was found empty. */
  predicate Prompt(n: BufferSize, s: Pipe, ts: seq<Stamped>, delay: int)
    requires Sized(n, s)
  {
    forall k, i :: 0 <= k < i < |ts| && PollEnd(n, s, ts, k, i) ==> ts[i].time - ts[k].time <= delay
  }

  /** A poll ends within period ms from the given time on. */
  predicate PollWithin(n: BufferSize, s: Pipe, ts: seq<Stamped>, from: int, period: int)
    requires Sized(n, s)
  {
    exists k, i :: 0 <= k < i < |ts| && PollEnd(n, s, ts, k, i) && from <= ts[k].time && ts[i].time <= from + period
  }

  /** As long as the steps go on, a poll ends in every stretch of period ms. */
  ghost predicate Regular(n: BufferSize, s: Pipe, ts: seq<Stamped>, from: int, period: int)
    requires Sized(n, s) && ts != []
  {
    forall x :: from <= x && x + period <= ts[|ts| - 1].time ==> PollWithin(n, s, ts, x, period)
  }

  /** What the line and the main loop must keep to, all times in ms. */
  datatype Timing = Timing(gap: nat, delay: nat, period: nat, silence: nat)

  /** A poll that delays its test for longer than period + 1 ms would leave a stretch without a poll. */
  predicate Sound(t: Timing) {
    t.gap + Min(t.delay, t.period + 1) < 2 && t.silence > 2 * t.period + 2
  }

  /** One frame and the silence behind it: what the line and the speed of the main loop decide. */
  ghost predicate InTime(n: BufferSize, s: Pipe, ts: seq<Stamped>, from: int, t: Timing)
    requires Sized(n, s)
  {
    && 4 <= |Announced(OpsOf(ts))| <= n
    && Dense(ts, t.gap) && Prompt(n, s, ts, t.delay)
    && ts != [] && Regular(n, s, ts, from, t.period)
    && LastSpoke(ts).Some? && ts[|ts| - 1].time - LastSpoke(ts).value >= t.silence
  }

  /** The same, with what the program sees to by itself. */
  ghost predicate OneFrame(n: BufferSize, s: Pipe, ts: seq<Stamped>, from: int, t: Timing)
    requires Sized(n, s)
  {
    Clocked(ts, from) && AllPolled(n, s, ts) && InTime(n, s, ts, from, t)
  }

  // ---- prefixes

  lemma {:induction false} OpsOfPrefix(ts: seq<Stamped>, k: int)
    requires 0 <= k <= |ts|
    ensures OpsOf(ts[..k]) == OpsOf(ts)[..k]
  {}

  lemma {:induction false} RunNext(n: BufferSize, s: Pipe, ts: seq<Stamped>, k: int)
    requires Sized(n, s) && 0 <= k < |ts|
    ensures Run(n, s, OpsOf(ts[..k + 1])) == Step(n, Run(n, s, OpsOf(ts[..k])), ts[k].op)
  {
    hide Step, OpsOf;
    OpsOfPrefix(ts, k);
    OpsOfPrefix(ts, k + 1);
    NthOp(ts, k);
    var ops := OpsOf(ts);
    assert ops[..k + 1] == ops[..k] + [ops[k]];
    RunSnoc(n, s, ops[..k], ops[k]);
  }

  lemma {:induction false} NthOp(ts: seq<Stamped>, k: int)
    requires 0 <= k < |ts|
    ensures OpsOf(ts)[k] == ts[k].op
  {}

  /** After the last announcement of the prefix has been read, the last chunk is no older than it. */
  predicate Fresh(ts: seq<Stamped>, k: int, t: Pipe, from: int)
    requires 0 <= k <= |ts|
  {
    && (Idle(t) && LastSpoke(ts[..k]).Some? ==> LastSpoke(ts[..k]).value <= t.rx.lastMs)
    && t.rx.lastMs <= (if k == 0 then from else ts[k - 1].time)
    && (LastSpoke(ts[..k]).Some? ==> k > 0 && LastSpoke(ts[..k]).value <= ts[k - 1].time)
  }

  lemma {:induction false} RunFresh(n: BufferSize, s: Pipe, ts: seq<Stamped>, k: int, from: int)
    requires Sized(n, s) && Clocked(ts, from) && 0 <= k <= |ts| && s.rx.lastMs <= from
    ensures Fresh(ts, k, Run(n, s, OpsOf(ts[..k])), from)
    decreases k
  {
    hide Fresh, Run, OpsOf, LastSpoke, Step;
    RunNone(n, s, ts);
    if k == 0 {
      FreshStart(ts, s, from);
    } else {
      RunFresh(n, s, ts, k - 1, from);
      RunNext(n, s, ts, k - 1);
      FreshStep(n, ts, k - 1, Run(n, s, OpsOf(ts[..k - 1])), from);
    }
  }

  lemma {:induction false} RunNone(n: BufferSize, s: Pipe, ts: seq<Stamped>)
    requires Sized(n, s)
    ensures Run(n, s, OpsOf(ts[..0])) == s
  {}

  lemma {:induction false} FreshStart(ts: seq<Stamped>, s: Pipe, from: int)
    requires s.rx.lastMs <= from
    ensures Fresh(ts, 0, s, from)
  {}

  lemma {:induction false} FreshStep(n: BufferSize, ts: seq<Stamped>, k: int, t: Pipe, from: int)
    requires Sized(n, t) && Clocked(ts, from) && 0 <= k < |ts| && Fresh(ts, k, t, from)
    ensures Fresh(ts, k + 1, Step(n, t, ts[k].op), from)
  {
    hide Accepts;
    assert ts[..k + 1][..k] == ts[..k];
    SpokeSnoc(ts, k);
    match ts[k].op
    case Rdy(bytes) => SpeechStays(t, bytes);
    case Get => TakeKeepsBusy(t);
    case _ =>
  }

  lemma {:induction false} SpokeSnoc(ts: seq<Stamped>, k: int)
    requires 0 <= k < |ts|
    ensures LastSpoke(ts[..k + 1]) == if Speaks(ts[k].op) then Some(ts[k].time) else LastSpoke(ts[..k])
  {
    assert ts[..k + 1][..k] == ts[..k];
  }

  lemma {:induction false} SpeechStays(t: Pipe, bytes: seq<Byte>)
    requires |t.ring| <= RING_SIZE
    ensures bytes != [] ==> Announce(t, bytes).ring != []
    ensures bytes == [] ==> Announce(t, bytes).ring == t.ring
    ensures t.ring != [] ==> Announce(t, bytes).ring != []
  {}

  lemma {:induction false} TakeKeepsBusy(t: Pipe)
    requires |t.tmp| <= POLL_BUF
    ensures Idle(Take(t)) <==> Idle(t)
  {}

  // ---- no test fires inside a frame

  /** The first announcement from i on. */
  lemma {:induction false} NextSpeech(ts: seq<Stamped>, i: int, m: int) returns (b: int)
    requires 0 <= i <= m < |ts| && Speaks(ts[m].op)
    ensures i <= b <= m && Speaks(ts[b].op) && LastSpoke(ts[..b]) == LastSpoke(ts[..i])
    decreases m - i
  {
    if Speaks(ts[i].op) {
      b := i;
    } else {
      SpokeSnoc(ts, i);
      b := NextSpeech(ts, i + 1, m);
    }
  }

  /** Announcements do not touch what has been read. */
  lemma {:induction false} RdysOnlyAnnounce(n: BufferSize, s: Pipe, ts: seq<Stamped>, k: int, i: int)
    requires Sized(n, s) && 0 <= k <= i <= |ts| && forall j :: k <= j < i ==> ts[j].op.Rdy?
    ensures Run(n, s, OpsOf(ts[..i])).rx == Run(n, s, OpsOf(ts[..k])).rx
    ensures Run(n, s, OpsOf(ts[..i])).tmp == Run(n, s, OpsOf(ts[..k])).tmp
    decreases i - k
  {
    if k < i {
      RdysOnlyAnnounce(n, s, ts, k, i - 1);
      RunNext(n, s, ts, i - 1);
    }
  }

  predicate FiresAt(n: BufferSize, s: Pipe, ts: seq<Stamped>, i: int)
    requires Sized(n, s) && 0 <= i < |ts|
  {
    ts[i].op.Test? && Fires(Run(n, s, OpsOf(ts[..i])).rx, ts[i].op.now)
  }

  /** Without announcements and without a cut nothing moves. */
  lemma {:induction false} StillIdle(n: BufferSize, s: Pipe, ts: seq<Stamped>, k: int, i: int)
    requires Sized(n, s) && 0 <= k <= i <= |ts| && Idle(Run(n, s, OpsOf(ts[..k])))
    requires forall j :: k <= j < i ==> !Speaks(ts[j].op)
    requires Run(n, s, OpsOf(ts[..k])).rx.frame == [] || forall j :: k <= j < i ==> !FiresAt(n, s, ts, j)
    ensures Idle(Run(n, s, OpsOf(ts[..i]))) && Run(n, s, OpsOf(ts[..i])).rx == Run(n, s, OpsOf(ts[..k])).rx
    decreases i - k
  {
    hide Run, OpsOf, Step;
    if k < i {
      StillIdle(n, s, ts, k, i - 1);
      RunNext(n, s, ts, i - 1);
      assert Run(n, s, OpsOf(ts[..k])).rx.frame == [] || !FiresAt(n, s, ts, i - 1);
      IdleStep(n, Run(n, s, OpsOf(ts[..i - 1])), ts[i - 1].op);
    }
  }

  lemma {:induction false} IdleStep(n: BufferSize, t: Pipe, op: Op)
    requires Sized(n, t) && Idle(t) && !Speaks(op) && (op.Test? ==> !Fires(t.rx, op.now))
    ensures Idle(Step(n, t, op)) && Step(n, t, op).rx == t.rx
  {}

  lemma {:induction false} UnspokenIsSilent(ts: seq<Stamped>, k: int)
    requires 0 <= k <= |ts| && LastSpoke(ts[..k]) == None
    ensures forall j :: 0 <= j < k ==> !Speaks(ts[j].op)
    decreases k
  {
    if k > 0 {
      SpokeSnoc(ts, k - 1);
      UnspokenIsSilent(ts, k - 1);
    }
  }

  /** A test whose poll had emptied the ring before the frame's last announcement does not fire. */
  lemma {:induction false} NotYet(n: BufferSize, s: Pipe, ts: seq<Stamped>, from: int, gap: int, k: int, i: int, m: int)
    requires Sized(n, s) && Quiet(s) && s.rx.lastMs <= from && Clocked(ts, from) && Dense(ts, gap)
    requires PollEnd(n, s, ts, k, i) && gap + (ts[i].time - ts[k].time) < GAP_MS
    requires k < m < |ts| && Speaks(ts[m].op)
    ensures !Fires(Run(n, s, OpsOf(ts[..i])).rx, ts[i].op.now)
  {
    hide Run, OpsOf, LastSpoke;
    var b := NextSpeech(ts, k + 1, m);
    RdysOnlyAnnounce(n, s, ts, k + 1, i);
    if LastSpoke(ts[..k + 1]) == None {
      UnspokenIsSilent(ts, k + 1);
      RunNone(n, s, ts);
      StillIdle(n, s, ts, 0, k + 1);
    } else {
      RunFresh(n, s, ts, k + 1, from);
      assert ts[b].time >= ts[k].time;
    }
  }

  /** Regular polls test soon after they have emptied the ring, since polls do not overlap. */
  lemma {:induction false} PollsAreShort(n: BufferSize, s: Pipe, ts: seq<Stamped>, from: int, period: int, k: int, i: int)
    requires Sized(n, s) && Clocked(ts, from) && ts != [] && Regular(n, s, ts, from, period)
    requires PollEnd(n, s, ts, k, i)
    ensures ts[i].time - ts[k].time <= period + 1
  {
    hide Run, OpsOf;
    var x := ts[k].time + 1;
    if x + period < ts[i].time {
      assert PollWithin(n, s, ts, x, period);
      var k', i' :| 0 <= k' < i' < |ts| && PollEnd(n, s, ts, k', i') && x <= ts[k'].time && ts[i'].time <= x + period;
      assert false;
    }
  }

  // ---- a test fires in the silence

  /** The last announcement. */
  lemma {:induction false} LastSpeech(ts: seq<Stamped>, k: int) returns (m: int)
    requires 0 <= k <= |ts| && LastSpoke(ts[..k]).Some?
    ensures 0 <= m < k && Speaks(ts[m].op) && ts[m].time == LastSpoke(ts[..k]).value
    ensures forall j :: m < j < k ==> !Speaks(ts[j].op)
    decreases k
  {
    assert k > 0;
    SpokeSnoc(ts, k - 1);
    if Speaks(ts[k - 1].op) {
      m := k - 1;
    } else {
      m := LastSpeech(ts, k - 1);
    }
  }

  predicate NoneFires(n: BufferSize, s: Pipe, ts: seq<Stamped>, i: int)
    requires Sized(n, s) && 0 <= i <= |ts|
  {
    forall j :: 0 <= j < i ==> !FiresAt(n, s, ts, j)
  }

  lemma {:induction false} FirstFiring(n: BufferSize, s: Pipe, ts: seq<Stamped>, hi: int) returns (i: int)
    requires Sized(n, s) && 0 <= hi < |ts| && FiresAt(n, s, ts, hi)
    ensures 0 <= i <= hi && FiresAt(n, s, ts, i) && NoneFires(n, s, ts, i)
    decreases hi
  {
    hide FiresAt;
    if NoneFires(n, s, ts, hi) {
      i := hi;
    } else {
      var j :| 0 <= j < hi && FiresAt(n, s, ts, j);
      i := FirstFiring(n, s, ts, j);
    }
  }

  lemma {:induction false} NoneFiresNoFire(n: BufferSize, s: Pipe, ts: seq<Stamped>, i: int)
    requires Sized(n, s) && 0 <= i <= |ts| && NoneFires(n, s, ts, i)
    ensures NoFire(n, s, OpsOf(ts[..i]))
  {
    hide Run;
    var ops := OpsOf(ts[..i]);
    forall j | 0 <= j < i && ops[j].Test? ensures !Fires(Run(n, s, ops[..j]).rx, ops[j].now) {
      assert ts[..i][..j] == ts[..j];
      OpsOfPrefix(ts[..i], j);
      assert !FiresAt(n, s, ts, j);
    }
  }

  lemma {:induction false} NoMoreAnnounced(ts: seq<Stamped>, k: int, i: int)
    requires 0 <= k <= i <= |ts| && forall j :: k <= j < i ==> !Speaks(ts[j].op)
    ensures Announced(OpsOf(ts[..i])) == Announced(OpsOf(ts[..k]))
    decreases i - k
  {
    if k < i {
      NoMoreAnnounced(ts, k, i - 1);
      OpsOfPrefix(ts[..i], i - 1);
      assert ts[..i][..i - 1] == ts[..i - 1];
      assert Announced(OpsOf(ts[..i - 1])) + [] == Announced(OpsOf(ts[..i - 1]));
    }
  }

  /** A test two milliseconds after the whole frame has been read fires, if none did before. */
  lemma {:induction false} LateTest(n: BufferSize, s: Pipe, ts: seq<Stamped>, from: int, k: int, i: int)
    requires Sized(n, s) && Quiet(s) && s.rx.lastMs <= from && Clocked(ts, from)
    requires 0 <= k < i < |ts| && Idle(Run(n, s, OpsOf(ts[..k + 1]))) && ts[i].op.Test?
    requires forall j :: k < j < i ==> !Speaks(ts[j].op)
    requires 4 <= |Announced(OpsOf(ts[..i]))| <= n
    requires ts[i].time - ts[k].time >= GAP_MS && NoneFires(n, s, ts, i)
    ensures FiresAt(n, s, ts, i)
  {
    hide Run, OpsOf, LastSpoke;
    assert forall j :: k + 1 <= j < i ==> !FiresAt(n, s, ts, j);
    StillIdle(n, s, ts, k + 1, i);
    RunFresh(n, s, ts, k + 1, from);
    NoneFiresNoFire(n, s, ts, i);
    Gather(n, s, OpsOf(ts[..i]));
    var t := Run(n, s, OpsOf(ts[..i]));
    assert t.rx.frame + [] + [] == t.rx.frame && [] + Announced(OpsOf(ts[..i])) == Announced(OpsOf(ts[..i]));
  }

  /** In the silence behind a frame some gap test fires, the first of all, with everything read. */
  lemma {:induction false} CutInSilence(n: BufferSize, s: Pipe, ts: seq<Stamped>, from: int, t: Timing) returns (i: int)
    requires Sized(n, s) && Quiet(s) && Sound(t) && s.rx.lastMs <= from && OneFrame(n, s, ts, from, t)
    ensures 0 <= i < |ts| && FiresAt(n, s, ts, i) && NoneFires(n, s, ts, i)
    ensures Idle(Run(n, s, OpsOf(ts[..i])))
    ensures forall j :: i <= j < |ts| ==> !Speaks(ts[j].op)
  {
    hide Run, OpsOf, LastSpoke, FiresAt, NoneFires;
    assert ts[..|ts|] == ts;
    var m := LastSpeech(ts, |ts|);
    var hi := LateFiring(n, s, ts, from, t, m);
    i := FirstFiring(n, s, ts, hi);
    TestedAfter(n, s, ts, from, t, m, i);
  }

  /** The silence holds a poll that reads the rest of the frame, and a test two milliseconds later. */
  lemma {:induction false} PollsInSilence(n: BufferSize, s: Pipe, ts: seq<Stamped>, from: int, t: Timing, z: int) returns (k: int, i: int)
    requires Sized(n, s) && Sound(t) && Clocked(ts, from) && ts != [] && Regular(n, s, ts, from, t.period)
    requires from <= z && ts[|ts| - 1].time - z >= t.silence
    ensures 0 <= k < i < |ts| && z < ts[k].time && ts[i].time - ts[k].time >= GAP_MS
    ensures Idle(Run(n, s, OpsOf(ts[..k + 1]))) && ts[i].op.Test?
  {
    hide Run, OpsOf;
    assert PollWithin(n, s, ts, z + 1, t.period);
    var i1: int;
    k, i1 :| 0 <= k < i1 < |ts| && PollEnd(n, s, ts, k, i1) && z + 1 <= ts[k].time && ts[i1].time <= z + 1 + t.period;
    var x := ts[k].time + GAP_MS;
    assert PollWithin(n, s, ts, x, t.period);
    var k2: int;
    k2, i :| 0 <= k2 < i < |ts| && PollEnd(n, s, ts, k2, i) && x <= ts[k2].time && ts[i].time <= x + t.period;
  }

  lemma {:induction false} LateFiring(n: BufferSize, s: Pipe, ts: seq<Stamped>, from: int, t: Timing, m: int) returns (hi: int)
    requires Sized(n, s) && Quiet(s) && Sound(t) && s.rx.lastMs <= from && OneFrame(n, s, ts, from, t)
    requires 0 <= m < |ts| && ts[m].time == LastSpoke(ts).value && forall j :: m < j < |ts| ==> !Speaks(ts[j].op)
    ensures 0 <= hi < |ts| && FiresAt(n, s, ts, hi)
  {
    hide Run, OpsOf, LastSpoke, FiresAt, Announced, Dense, Prompt, Regular;
    var k, i := PollsInSilence(n, s, ts, from, t, ts[m].time);
    if NoneFires(n, s, ts, i) {
      NoMoreAnnounced(ts, m + 1, i);
      NoMoreAnnounced(ts, m + 1, |ts|);
      assert ts[..|ts|] == ts;
      LateTest(n, s, ts, from, k, i);
      hi := i;
    } else {
      hi :| 0 <= hi < i && FiresAt(n, s, ts, hi);
    }
  }

  /** A test that fires is one whose poll has read the whole frame. */
  lemma {:induction false} DrainedAfter(n: BufferSize, s: Pipe, ts: seq<Stamped>, from: int, t: Timing, m: int, i: int) returns (k: int)
    requires Sized(n, s) && Quiet(s) && Sound(t) && s.rx.lastMs <= from && OneFrame(n, s, ts, from, t)
    requires 0 <= m < |ts| && Speaks(ts[m].op) && 0 <= i < |ts| && FiresAt(n, s, ts, i)
    ensures m < k < i && PollEnd(n, s, ts, k, i)
  {
    hide Run, OpsOf, LastSpoke, Announced, Idle, Fires;
    assert PolledAt(n, s, ts, i);
    k :| 0 <= k < i && PollEnd(n, s, ts, k, i);
    PollsAreShort(n, s, ts, from, t.period, k, i);
    if k < m {
      NotYet(n, s, ts, from, t.gap, k, i, m);
    }
    assert k != m;
  }

  lemma {:induction false} TestedAfter(n: BufferSize, s: Pipe, ts: seq<Stamped>, from: int, t: Timing, m: int, i: int)
    requires Sized(n, s) && Quiet(s) && Sound(t) && s.rx.lastMs <= from && OneFrame(n, s, ts, from, t)
    requires 0 <= m < |ts| && Speaks(ts[m].op) && forall j :: m < j < |ts| ==> !Speaks(ts[j].op)
    requires 0 <= i < |ts| && FiresAt(n, s, ts, i)
    ensures m < i && Idle(Run(n, s, OpsOf(ts[..i])))
  {
    hide Run, OpsOf, OneFrame, Idle, Fires;
    var k := DrainedAfter(n, s, ts, from, t, m, i);
    assert forall j :: k + 1 <= j < i ==> !FiresAt(n, s, ts, j);
    StillIdle(n, s, ts, k + 1, i);
  }

  /** One frame with its silence: the server is given it if it is good, and the path is empty again. */
  lemma {:induction false} FrameDelivered(n: BufferSize, s: Pipe, ts: seq<Stamped>, from: int, t: Timing)
    requires Sized(n, s) && Quiet(s) && Sound(t) && s.rx.lastMs <= from && OneFrame(n, s, ts, from, t)
    ensures var u := Run(n, s, OpsOf(ts));
            && Quiet(u) && u.rx.lastMs <= ts[|ts| - 1].time
            && Adus(u.rx.log) == Adus(s.rx.log) + Handed(Announced(OpsOf(ts)))
  {
    hide Run, OpsOf, LastSpoke;
    var i := CutInSilence(n, s, ts, from, t);
    assert ts[..|ts|] == ts;
    NoMoreAnnounced(ts, i, |ts|);
    NoneFiresNoFire(n, s, ts, i);
    var b := Burst(OpsOf(ts[..i]), ts[i].op.now);
    DeliverOne(n, s, b);
    RunNext(n, s, ts, i);
    RunSnoc(n, s, b.ops, Test(b.end));
    StillIdle(n, s, ts, i + 1, |ts|);
    RunFresh(n, s, ts, |ts|, from);
  }

  // ---- whole runs

  function Played(slots: seq<seq<Stamped>>): seq<Op> {
    if slots == [] then [] else Played(slots[..|slots| - 1]) + OpsOf(slots[|slots| - 1])
  }

  /** The frames the line carried. */
  function FramesOf(slots: seq<seq<Stamped>>): seq<seq<Byte>> {
    if slots == [] then [] else FramesOf(slots[..|slots| - 1]) + [Announced(OpsOf(slots[|slots| - 1]))]
  }

  function EndTime(slots: seq<seq<Stamped>>, from: int): int
    requires forall i :: 0 <= i < |slots| ==> slots[i] != []
  {
    if slots == [] then from else var ts := slots[|slots| - 1]; ts[|ts| - 1].time
  }

  /** Frame after frame, each with its silence, the program polling all the time. */
  ghost predicate Paced(n: BufferSize, s: Pipe, slots: seq<seq<Stamped>>, from: int, t: Timing)
    requires Sized(n, s)
    decreases slots
  {
    && (forall i :: 0 <= i < |slots| ==> slots[i] != [])
    && (slots == [] ||
        var init := slots[..|slots| - 1];
        && Paced(n, s, init, from, t)
        && OneFrame(n, Run(n, s, Played(init)), slots[|slots| - 1], EndTime(init, from), t))
  }

  /**
   Delivery in time: with announcements at most gap ms apart inside a frame, every test at most delay
   ms after the ring was found empty, gap + delay < 2, a poll in every period ms, and more than
   2 * period + 2 ms of silence behind every frame, the server is given exactly the good frames, in order.
   (A poll in every period ms alone keeps the delay to period + 1.)
   */
  lemma {:induction false} TimedDelivery(n: BufferSize, s: Pipe, slots: seq<seq<Stamped>>, from: int, t: Timing)
    requires Sized(n, s) && Quiet(s) && Sound(t) && s.rx.lastMs <= from && Paced(n, s, slots, from, t)
    ensures var u := Run(n, s, Played(slots));
            && Quiet(u) && u.rx.lastMs <= EndTime(slots, from)
            && Adus(u.rx.log) == Adus(s.rx.log) + Expected(FramesOf(slots))
    decreases slots
  {
    hide OneFrame, Run;
    if slots == [] {
      RunNothing(n, s);
      assert Adus(s.rx.log) + [] == Adus(s.rx.log);
    } else {
      var init, last := slots[..|slots| - 1], slots[|slots| - 1];
      TimedDelivery(n, s, init, from, t);
      FrameDelivered(n, Run(n, s, Played(init)), last, EndTime(init, from), t);
      RunConcat(n, s, Played(init), OpsOf(last));
      ExpectedSnoc(FramesOf(init), Announced(OpsOf(last)));
      Associative(Adus(s.rx.log), Expected(FramesOf(init)), Handed(Announced(OpsOf(last))));
    }
  }

  // ---- as part of a longer run

  lemma {:induction false} StillPolled(n: BufferSize, s: Pipe, ts: seq<Stamped>, more: seq<Stamped>)
    requires Sized(n, s) && AllPolled(n, s, ts) && forall i :: 0 <= i < |more| ==> !more[i].op.Test?
    ensures AllPolled(n, s, ts + more)
  {
    hide Run, OpsOf, PollEnd;
    var all := ts + more;
    forall i | 0 <= i < |all| && all[i].op.Test? ensures PolledAt(n, s, all, i) {
      assert i < |ts| && PolledAt(n, s, ts, i);
      var k :| 0 <= k < i && PollEnd(n, s, ts, k, i);
      SamePolls(n, s, ts, more, k, i);
    }
  }

  lemma {:induction false} SamePolls(n: BufferSize, s: Pipe, ts: seq<Stamped>, more: seq<Stamped>, k: int, i: int)
    requires Sized(n, s) && 0 <= k < i < |ts|
    ensures PollEnd(n, s, ts + more, k, i) <==> PollEnd(n, s, ts, k, i)
  {
    hide Run, OpsOf;
    var all := ts + more;
    assert all[..k + 1] == ts[..k + 1];
    assert forall j :: 0 <= j < |ts| ==> all[j] == ts[j];
  }

  /** A poll seen from the beginning of a longer run is the same poll. */
  lemma {:induction false} PollsBehind(n: BufferSize, s: Pipe, pre: seq<Stamped>, ts: seq<Stamped>, k: int, i: int)
    requires Sized(n, s) && 0 <= k < i < |ts|
    ensures PollEnd(n, s, pre + ts, |pre| + k, |pre| + i) <==> PollEnd(n, Run(n, s, OpsOf(pre)), ts, k, i)
  {
    hide Run, OpsOf, PollEnd, Idle, RdysBetween;
    RunBehind(n, s, pre, ts, k + 1);
    SamePart(pre, ts, k, i);
    PollEndParts(n, s, pre + ts, |pre| + k, |pre| + i);
    PollEndParts(n, Run(n, s, OpsOf(pre)), ts, k, i);
  }

  lemma {:induction false} RunBehind(n: BufferSize, s: Pipe, pre: seq<Stamped>, ts: seq<Stamped>, k: int)
    requires Sized(n, s) && 0 <= k <= |ts|
    ensures Run(n, s, OpsOf((pre + ts)[..|pre| + k])) == Run(n, Run(n, s, OpsOf(pre)), OpsOf(ts[..k]))
  {
    hide Run, OpsOf;
    assert (pre + ts)[..|pre| + k] == pre + ts[..k];
    OpsConcat(pre, ts[..k]);
    RunConcat(n, s, OpsOf(pre), OpsOf(ts[..k]));
  }

  lemma {:induction false} PollEndParts(n: BufferSize, s: Pipe, ts: seq<Stamped>, k: int, i: int)
    requires Sized(n, s) && 0 <= k < i < |ts|
    ensures PollEnd(n, s, ts, k, i) <==>
            ts[k].op == Get && ts[i].op.Test? && Idle(Run(n, s, OpsOf(ts[..k + 1]))) && RdysBetween(ts, k, i)
  {
    hide Run, OpsOf, Idle;
  }

  predicate RdysBetween(ts: seq<Stamped>, k: int, i: int)
    requires 0 <= k < i < |ts|
  {
    forall j :: k < j < i ==> ts[j].op.Rdy?
  }

  lemma {:induction false} SamePart(pre: seq<Stamped>, ts: seq<Stamped>, k: int, i: int)
    requires 0 <= k < i < |ts|
    ensures (pre + ts)[|pre| + k] == ts[k] && (pre + ts)[|pre| + i] == ts[i]
    ensures RdysBetween(pre + ts, |pre| + k, |pre| + i) <==> RdysBetween(ts, k, i)
  {
    var all, m := pre + ts, |pre|;
    assert forall j :: 0 <= j < |ts| ==> all[m + j] == ts[j];
    if RdysBetween(all, m + k, m + i) {
      forall j | k < j < i ensures ts[j].op.Rdy? {
        assert all[m + j].op.Rdy?;
      }
    }
    if RdysBetween(ts, k, i) {
      forall j | m + k < j < m + i ensures all[j].op.Rdy? {
        assert ts[j - m].op.Rdy?;
      }
    }
  }

  /** Polls do not reach back over a gap test. */
  lemma {:induction false} NotReachingBack(n: BufferSize, s: Pipe, pre: seq<Stamped>, ts: seq<Stamped>, k: int, i: int)
    requires Sized(n, s) && (pre == [] || pre[|pre| - 1].op.Test?)
    requires 0 <= i && PollEnd(n, s, pre + ts, k, |pre| + i)
    ensures |pre| <= k
  {
    hide Run, OpsOf, Idle;
    assert pre == [] || (pre + ts)[|pre| - 1] == pre[|pre| - 1];
  }

  lemma {:induction false} PolledBehind(n: BufferSize, s: Pipe, pre: seq<Stamped>, ts: seq<Stamped>)
    requires Sized(n, s) && AllPolled(n, s, pre + ts) && (pre == [] || pre[|pre| - 1].op.Test?)
    ensures AllPolled(n, Run(n, s, OpsOf(pre)), ts)
  {
    hide Run, OpsOf, PollEnd;
    var all, m := pre + ts, |pre|;
    forall i | 0 <= i < |ts| && ts[i].op.Test? ensures PolledAt(n, Run(n, s, OpsOf(pre)), ts, i) {
      assert all[m + i] == ts[i] && PolledAt(n, s, all, m + i);
      var k :| 0 <= k < m + i && PollEnd(n, s, all, k, m + i);
      NotReachingBack(n, s, pre, ts, k, i);
      PollsBehind(n, s, pre, ts, k - m, i);
    }
  }

  lemma {:induction false} PolledBefore(n: BufferSize, s: Pipe, ts: seq<Stamped>, more: seq<Stamped>)
    requires Sized(n, s) && AllPolled(n, s, ts + more)
    ensures AllPolled(n, s, ts)
  {
    hide Run, OpsOf, PollEnd;
    forall i | 0 <= i < |ts| && ts[i].op.Test? ensures PolledAt(n, s, ts, i) {
      assert (ts + more)[i] == ts[i] && PolledAt(n, s, ts + more, i);
      var k :| 0 <= k < i && PollEnd(n, s, ts + more, k, i);
      SamePolls(n, s, ts, more, k, i);
    }
  }

  /** A poll behind what has been polled. */
  lemma {:induction false} OneMorePolled(n: BufferSize, s: Pipe, pre: seq<Stamped>, ts: seq<Stamped>)
    requires Sized(n, s) && AllPolled(n, s, pre) && ts != []
    requires forall i :: 0 <= i < |ts| - 1 ==> !ts[i].op.Test?
    requires PolledAt(n, Run(n, s, OpsOf(pre)), ts, |ts| - 1)
    ensures AllPolled(n, s, pre + ts)
  {
    hide Run, OpsOf, PollEnd;
    var all, m, last := pre + ts, |pre|, |ts| - 1;
    forall i | 0 <= i < |all| && all[i].op.Test? ensures PolledAt(n, s, all, i) {
      if i < m {
        assert PolledAt(n, s, pre, i);
        var k :| 0 <= k < i && PollEnd(n, s, pre, k, i);
        SamePolls(n, s, pre, ts, k, i);
      } else {
        assert all[i] == ts[i - m] && i == m + last;
        var k :| 0 <= k < last && PollEnd(n, Run(n, s, OpsOf(pre)), ts, k, last);
        PollsBehind(n, s, pre, ts, k, last);
      }
    }
  }

  function Joined(slots: seq<seq<Stamped>>): seq<Stamped> {
    if slots == [] then [] else Joined(slots[..|slots| - 1]) + slots[|slots| - 1]
  }

  lemma {:induction false} JoinedPlayed(slots: seq<seq<Stamped>>)
    ensures OpsOf(Joined(slots)) == Played(slots)
    decreases slots
  {
    if slots != [] {
      JoinedPlayed(slots[..|slots| - 1]);
      OpsConcat(Joined(slots[..|slots| - 1]), slots[|slots| - 1]);
    }
  }

  lemma {:induction false} FramesAnnounced(slots: seq<seq<Stamped>>)
    ensures Announced(Played(slots)) == Flatten(FramesOf(slots))
    decreases slots
  {
    if slots != [] {
      var k := |slots| - 1;
      FramesAnnounced(slots[..k]);
      AnnouncedConcat(Played(slots[..k]), OpsOf(slots[k]));
      FlattenSnoc(FramesOf(slots[..k]), Announced(OpsOf(slots[k])));
    }
  }

  /** Frame after frame in time, each stretch up to a gap test. */
  ghost predicate AllInTime(n: BufferSize, s: Pipe, slots: seq<seq<Stamped>>, from: int, t: Timing)
    requires Sized(n, s)
    decreases slots
  {
    && (forall i :: 0 <= i < |slots| ==> slots[i] != [] && slots[i][|slots[i]| - 1].op.Test?)
    && (slots == [] ||
        var init := slots[..|slots| - 1];
        && AllInTime(n, s, init, from, t)
        && InTime(n, Run(n, s, Played(init)), slots[|slots| - 1], EndTime(init, from), t))
  }

  function EndOf(ts: seq<Stamped>, from: int): int { if ts == [] then from else ts[|ts| - 1].time }

  lemma {:induction false} EndOfJoined(pre: seq<Stamped>, slots: seq<seq<Stamped>>, from: int)
    requires forall i :: 0 <= i < |slots| ==> slots[i] != []
    ensures EndOf(pre + Joined(slots), from) == EndTime(slots, EndOf(pre, from))
    ensures slots != [] ==> Joined(slots) != [] && Joined(slots)[|Joined(slots)| - 1] == slots[|slots| - 1][|slots[|slots| - 1]| - 1]
  {
    if slots == [] {
      assert pre + [] == pre;
    }
  }

  /** What the program sees to by itself: the slots of a polled run by the clock are Paced if in time. */
  lemma {:induction false} SlotsArePaced(n: BufferSize, pre: seq<Stamped>, slots: seq<seq<Stamped>>, start: int, t: Timing)
    requires AllPolled(n, Boot(), pre + Joined(slots)) && Clocked(pre + Joined(slots), start)
    requires pre == [] || pre[|pre| - 1].op.Test?
    requires AllInTime(n, Run(n, Boot(), OpsOf(pre)), slots, EndOf(pre, start), t)
    ensures Paced(n, Run(n, Boot(), OpsOf(pre)), slots, EndOf(pre, start), t)
    decreases slots
  {
    hide Run, OpsOf, AllPolled, InTime, Clocked;
    if slots != [] {
      var init, last := slots[..|slots| - 1], slots[|slots| - 1];
      var before := pre + Joined(init);
      assert pre + Joined(slots) == before + last;
      PolledBefore(n, Boot(), before, last);
      ClockedBefore(before, last, start);
      SlotsArePaced(n, pre, init, start, t);
      EndOfJoined(pre, init, start);
      assert before == [] || before[|before| - 1].op.Test?;
      PolledBehind(n, Boot(), before, last);
      ClockedBehind(before, last, start);
      JoinedPlayed(init);
      OpsConcat(pre, Joined(init));
      RunConcat(n, Boot(), OpsOf(pre), Played(init));
    }
  }

  lemma {:induction false} ClockedBefore(a: seq<Stamped>, b: seq<Stamped>, from: int)
    requires Clocked(a + b, from)
    ensures Clocked(a, from)
  {
    assert forall i :: 0 <= i < |a| ==> (a + b)[i] == a[i];
  }

  lemma {:induction false} ClockedBehind(a: seq<Stamped>, b: seq<Stamped>, from: int)
    requires Clocked(a + b, from)
    ensures Clocked(b, EndOf(a, from))
  {
    var all, m := a + b, |a|;
    assert a == [] || all[m - 1] == a[m - 1];
    forall i | 0 <= i < |b|
      ensures EndOf(a, from) <= b[i].time && (b[i].op.Chunk? ==> b[i].op.at == b[i].time)
      ensures b[i].op.Test? ==> b[i].op.now == b[i].time
    {
      assert all[m + i] == b[i];
    }
    forall i, j | 0 <= i < j < |b| ensures b[i].time <= b[j].time {
      assert all[m + i] == b[i] && all[m + j] == b[j];
    }
  }
}
