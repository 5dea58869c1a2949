/**
 Which timings deliver every frame: the bounds of RxTiming are met by some run whatever they are, and
 as soon as one of them is exceeded there is a run that keeps to the rest and does not deliver.
 */
module TimingBounds {
  import opened Bytes
  import opened AduCodec
  import opened RxPipeline
  import opened RxDelivery
  import opened RxTiming

  /** Everything OneFrame asks for but the silence. */
  ghost predicate Going(n: BufferSize, s: Pipe, ts: seq<Stamped>, t: Timing)
    requires Sized(n, s)
  {
    && Clocked(ts, 0) && Dense(ts, t.gap) && AllPolled(n, s, ts) && Prompt(n, s, ts, t.delay)
    && ts != [] && Regular(n, s, ts, 0, t.period)
  }

  // ---- a run goes on with a poll that finds nothing

  function EmptyPoll(at: int): seq<Stamped> { [Stamped(Get, at), Stamped(Test(at), at)] }

  lemma {:induction false} PrefixOf(ts: seq<Stamped>, more: seq<Stamped>, k: int)
    requires 0 <= k <= |ts|
    ensures (ts + more)[..k] == ts[..k]
  {}

  /** The new poll and no other ends with the new test. */
  lemma {:induction false} NewPoll(n: BufferSize, s: Pipe, ts: seq<Stamped>, at: int)
    requires Sized(n, s) && Idle(Run(n, s, OpsOf(ts)))
    ensures PollEnd(n, s, ts + EmptyPoll(at), |ts|, |ts| + 1)
    ensures Idle(Run(n, s, OpsOf(ts + EmptyPoll(at))))
    ensures Run(n, s, OpsOf(ts + EmptyPoll(at))).rx == GapTest(Run(n, s, OpsOf(ts)).rx, at)
  {
    hide Run, OpsOf;
    var all, m := ts + EmptyPoll(at), |ts|;
    assert all[..m] == ts && all[..m + 2] == all;
    RunNext(n, s, all, m);
    RunNext(n, s, all, m + 1);
    IdleStep(n, Run(n, s, OpsOf(ts)), Get);
  }

  lemma {:induction false} NoOtherPoll(n: BufferSize, s: Pipe, ts: seq<Stamped>, at: int, k: int, i: int)
    requires Sized(n, s) && |ts| <= i && PollEnd(n, s, ts + EmptyPoll(at), k, i)
    ensures k == |ts| && i == |ts| + 1
  {
    hide Run, OpsOf;
    assert (ts + EmptyPoll(at))[|ts|] == EmptyPoll(at)[0];
  }

  lemma {:induction false} MorePolls(n: BufferSize, s: Pipe, ts: seq<Stamped>, t: Timing, at: int)
    requires Sized(n, s) && AllPolled(n, s, ts) && Prompt(n, s, ts, t.delay) && Idle(Run(n, s, OpsOf(ts)))
    ensures AllPolled(n, s, ts + EmptyPoll(at)) && Prompt(n, s, ts + EmptyPoll(at), t.delay)
  {
    hide Run, OpsOf, PollEnd;
    var all, m := ts + EmptyPoll(at), |ts|;
    NewPoll(n, s, ts, at);
    forall i | 0 <= i < |all| && all[i].op.Test? ensures PolledAt(n, s, all, i) {
      if i < m {
        assert PolledAt(n, s, ts, i);
        var k :| 0 <= k < i && PollEnd(n, s, ts, k, i);
        SamePolls(n, s, ts, EmptyPoll(at), k, i);
      }
    }
    forall k, i | 0 <= k < i < |all| && PollEnd(n, s, all, k, i) ensures all[i].time - all[k].time <= t.delay {
      if i < m {
        SamePolls(n, s, ts, EmptyPoll(at), k, i);
      } else {
        NoOtherPoll(n, s, ts, at, k, i);
      }
    }
  }

  lemma {:induction false} MoreRegular(n: BufferSize, s: Pipe, ts: seq<Stamped>, period: nat, at: int)
    requires Sized(n, s) && ts != [] && Regular(n, s, ts, 0, period) && Idle(Run(n, s, OpsOf(ts)))
    requires at <= ts[|ts| - 1].time + 1
    ensures Regular(n, s, ts + EmptyPoll(at), 0, period)
  {
    hide Run, OpsOf, PollEnd;
    var all, m := ts + EmptyPoll(at), |ts|;
    NewPoll(n, s, ts, at);
    forall x | 0 <= x && x + period <= all[|all| - 1].time ensures PollWithin(n, s, all, x, period) {
      if x + period <= ts[m - 1].time {
        assert PollWithin(n, s, ts, x, period);
        var k, i :| 0 <= k < i < m && PollEnd(n, s, ts, k, i) && x <= ts[k].time && ts[i].time <= x + period;
        SamePolls(n, s, ts, EmptyPoll(at), k, i);
      }
    }
  }

  lemma {:induction false} MoreClocked(ts: seq<Stamped>, gap: int, at: int)
    requires Clocked(ts, 0) && Dense(ts, gap) && ts != [] && at == ts[|ts| - 1].time + 1
    ensures Clocked(ts + EmptyPoll(at), 0) && Dense(ts + EmptyPoll(at), gap)
  {
    hide LastSpoke;
    var all := ts + EmptyPoll(at);
    forall j | 0 <= j < |all| && Speaks(all[j].op) && LastSpoke(all[..j]).Some?
      ensures all[j].time - LastSpoke(all[..j]).value <= gap
    {
      PrefixOf(ts, EmptyPoll(at), j);
    }
  }

  lemma {:induction false} NoMoreSpoken(ts: seq<Stamped>, at: int)
    ensures LastSpoke(ts + EmptyPoll(at)) == LastSpoke(ts)
    ensures Announced(OpsOf(ts + EmptyPoll(at))) == Announced(OpsOf(ts))
  {
    hide LastSpoke, Announced, OpsOf;
    var all, m := ts + EmptyPoll(at), |ts|;
    assert all[..m] == ts && all[..m + 2] == all;
    SpokeSnoc(all, m);
    SpokeSnoc(all, m + 1);
    NoMoreAnnounced(all, m, m + 2);
  }

  /** The run so far, with a poll in each of the next m ms. */
  function Polling(ts: seq<Stamped>, m: nat): seq<Stamped>
    requires ts != []
    ensures Polling(ts, m) != []
  {
    if m == 0 then ts
    else var before := Polling(ts, m - 1); before + EmptyPoll(before[|before| - 1].time + 1)
  }

  /** What a run and one that goes on from it have in common. */
  ghost predicate GoesOn(n: BufferSize, s: Pipe, ts: seq<Stamped>, all: seq<Stamped>, t: Timing, m: nat)
    requires Sized(n, s)
  {
    && Going(n, s, all, t) && Idle(Run(n, s, OpsOf(all)))
    && ts != [] && all[|all| - 1].time == ts[|ts| - 1].time + m
    && LastSpoke(all) == LastSpoke(ts) && Announced(OpsOf(all)) == Announced(OpsOf(ts))
    && (|Run(n, s, OpsOf(ts)).rx.frame| < 4 ==> Run(n, s, OpsOf(all)).rx == Run(n, s, OpsOf(ts)).rx)
  }

  lemma {:induction false} PollingGoesOn(n: BufferSize, s: Pipe, ts: seq<Stamped>, t: Timing, m: nat)
    requires Sized(n, s) && Going(n, s, ts, t) && Idle(Run(n, s, OpsOf(ts)))
    ensures GoesOn(n, s, ts, Polling(ts, m), t, m)
  {
    hide Run, OpsOf, LastSpoke, Announced, Clocked, Dense, AllPolled, Prompt, Regular;
    if m > 0 {
      var before := Polling(ts, m - 1);
      PollingGoesOn(n, s, ts, t, m - 1);
      OnePollMore(n, s, ts, before, t, m - 1);
    }
  }

  lemma {:induction false} OnePollMore(n: BufferSize, s: Pipe, ts: seq<Stamped>, before: seq<Stamped>, t: Timing, m: nat)
    requires Sized(n, s) && GoesOn(n, s, ts, before, t, m)
    ensures GoesOn(n, s, ts, before + EmptyPoll(before[|before| - 1].time + 1), t, m + 1)
  {
    hide Run, OpsOf, LastSpoke, Announced, Clocked, Dense, AllPolled, Prompt, Regular, PollEnd;
    var at := before[|before| - 1].time + 1;
    NewPoll(n, s, before, at);
    MorePolls(n, s, before, t, at);
    MoreRegular(n, s, before, t.period, at);
    MoreClocked(before, t.gap, at);
    NoMoreSpoken(before, at);
  }

  // ---- the first steps

  lemma {:induction false} SpokeOnce(ts: seq<Stamped>, i: int, k: int)
    requires 0 <= i < k <= |ts| && Speaks(ts[i].op) && forall j :: i < j < k ==> !Speaks(ts[j].op)
    ensures LastSpoke(ts[..k]) == Some(ts[i].time)
    decreases k
  {
    SpokeSnoc(ts, k - 1);
    if k > i + 1 {
      SpokeOnce(ts, i, k - 1);
    }
  }

  lemma {:induction false} NotSpoken(ts: seq<Stamped>, k: int)
    requires 0 <= k <= |ts| && forall j :: 0 <= j < k ==> !Speaks(ts[j].op)
    ensures LastSpoke(ts[..k]) == None
    decreases k
  {
    if k > 0 {
      SpokeSnoc(ts, k - 1);
      NotSpoken(ts, k - 1);
    }
  }

  lemma {:induction false} NextAnnounced(ts: seq<Stamped>, k: int)
    requires 0 <= k < |ts| && ts[k].op.Rdy?
    ensures Announced(OpsOf(ts[..k + 1])) == Announced(OpsOf(ts[..k])) + ts[k].op.bytes
  {
    OpsOfPrefix(ts[..k + 1], k);
    assert ts[..k + 1][..k] == ts[..k];
  }

  lemma {:induction false} NoneAnnounced(ts: seq<Stamped>)
    ensures Announced(OpsOf(ts[..0])) == []
  {}

  /** The line announces f at 0 ms, and a poll reads it at once. */
  function ReadAtOnce(f: seq<Byte>): seq<Stamped> {
    [Stamped(Rdy(f), 0), Stamped(Get, 0), Stamped(Chunk(0), 0), Stamped(Get, 0), Stamped(Test(0), 0)]
  }

  lemma {:induction false} FirstFour(n: BufferSize, s: Pipe, f: seq<Byte>, ts: seq<Stamped>)
    requires Sized(n, s) && Quiet(s) && 0 < |f| <= POLL_BUF && ReadAtOnce(f) <= ts
    ensures Idle(Run(n, s, OpsOf(ts[..4]))) && Run(n, s, OpsOf(ts[..4])).rx == Rx(f, 0, s.rx.log)
  {
    hide Run, OpsOf, Accepts;
    assert forall j :: 0 <= j < 5 ==> ts[j] == ReadAtOnce(f)[j];
    RunNone(n, s, ts);
    RunNext(n, s, ts, 0);
    RunNext(n, s, ts, 1);
    RunNext(n, s, ts, 2);
    RunNext(n, s, ts, 3);
    assert [] + f == f && f[|f|..] == [] && f[..|f|] == f;
  }

  /** Clocked, from one step to the next. */
  predicate Ticking(ts: seq<Stamped>, from: int) {
    && (ts != [] ==> from <= ts[0].time)
    && (forall i :: 0 < i < |ts| ==> ts[i - 1].time <= ts[i].time)
    && (forall i :: 0 <= i < |ts| && ts[i].op.Chunk? ==> ts[i].op.at == ts[i].time)
    && (forall i :: 0 <= i < |ts| && ts[i].op.Test? ==> ts[i].op.now == ts[i].time)
  }

  lemma {:induction false} TickingIsClocked(ts: seq<Stamped>, from: int)
    requires Ticking(ts, from)
    ensures Clocked(ts, from)
  {
    forall j | 0 <= j < |ts| ensures from <= ts[j].time {
      TicksOn(ts, from, 0, j);
    }
    forall i, j | 0 <= i < j < |ts| ensures ts[i].time <= ts[j].time {
      TicksOn(ts, from, i, j);
    }
  }

  lemma {:induction false} TicksOn(ts: seq<Stamped>, from: int, i: int, j: int)
    requires Ticking(ts, from) && 0 <= i <= j < |ts|
    ensures ts[i].time <= ts[j].time
    decreases j - i
  {
    if i < j {
      TicksOn(ts, from, i, j - 1);
    }
  }

  // ---- every timing is met by some run

  lemma {:induction false} OneAnnouncement(ts: seq<Stamped>, f: seq<Byte>)
    requires ts != [] && ts[0].op == Rdy(f) && f != [] && forall j :: 0 < j < |ts| ==> !Speaks(ts[j].op)
    ensures LastSpoke(ts) == Some(ts[0].time) && Dense(ts, 0) && Announced(OpsOf(ts)) == f
  {
    hide LastSpoke, Announced, OpsOf;
    assert ts[..|ts|] == ts && [] + f == f;
    forall k | 1 <= k <= |ts| ensures LastSpoke(ts[..k]) == Some(ts[0].time) {
      SpokeOnce(ts, 0, k);
    }
    NotSpoken(ts, 0);
    NoMoreAnnounced(ts, 1, |ts|);
    NextAnnounced(ts, 0);
    NoneAnnounced(ts);
  }

  lemma {:induction false} WiderGap(ts: seq<Stamped>, gap: int, wider: int)
    requires Dense(ts, gap) && gap <= wider
    ensures Dense(ts, wider)
  {
    hide LastSpoke;
  }

  lemma {:induction false} ReadAtOnceGoes(n: BufferSize, s: Pipe, f: seq<Byte>, t: Timing)
    requires Sized(n, s) && Quiet(s) && 0 < |f| <= POLL_BUF
    ensures Going(n, s, ReadAtOnce(f), t) && Idle(Run(n, s, OpsOf(ReadAtOnce(f))))
  {
    hide Run, OpsOf, LastSpoke, Announced;
    var ts := ReadAtOnce(f);
    FirstFour(n, s, f, ts);
    assert ts[..5] == ts;
    assert !FiresAt(n, s, ts, 4);
    StillIdle(n, s, ts, 4, 5);
    assert PollEnd(n, s, ts, 3, 4);
    OneAnnouncement(ts, f);
    WiderGap(ts, 0, t.gap);
  }

  /** Whatever the bounds, some run keeps to them: polls in every ms, for as long as the silence takes. */
  lemma {:induction false} TimingCanBeMet(n: BufferSize, s: Pipe, f: seq<Byte>, t: Timing)
    requires Sized(n, s) && Quiet(s) && 4 <= |f| <= 64
    ensures OneFrame(n, s, Polling(ReadAtOnce(f), t.silence), 0, t)
    ensures Announced(OpsOf(Polling(ReadAtOnce(f), t.silence))) == f
  {
    hide Run, OpsOf, LastSpoke, Announced, Clocked, Dense, AllPolled, Prompt, Regular;
    ReadAtOnceGoes(n, s, f, t);
    PollingGoesOn(n, s, ReadAtOnce(f), t, t.silence);
    OneAnnouncement(ReadAtOnce(f), f);
  }

  // ---- a gap and a delay that split a frame

  /**
   The second part of a frame comes g ms after the first, just when a poll has found the ring empty, and
   the test of this poll comes at 2 ms. The next poll reads the second part.
   */
  function SplitStart(a: seq<Byte>, b: seq<Byte>, g: nat): seq<Stamped>
    requires g <= GAP_MS
  {
    var e := if g == 0 then 0 else 1;
    ReadAtOnce(a) +
    [Stamped(Get, e), Stamped(Test(e), e),
     Stamped(Get, g), Stamped(Rdy(b), g), Stamped(Test(2), 2),
     Stamped(Get, 2), Stamped(Chunk(2), 2), Stamped(Get, 2), Stamped(Test(2), 2)]
  }

  lemma {:induction false} SplitInTwo(n: BufferSize, s: Pipe, a: seq<Byte>, b: seq<Byte>, g: nat)
    requires Sized(n, s) && Quiet(s) && 4 <= |a| <= POLL_BUF && 0 < |b| < 4 && g <= GAP_MS
    ensures var ts := SplitStart(a, b, g);
            && Idle(Run(n, s, OpsOf(ts[..4]))) && Idle(Run(n, s, OpsOf(ts[..6]))) && Idle(Run(n, s, OpsOf(ts[..8])))
            && Run(n, s, OpsOf(ts[..9])).rx == Rx(a, 0, s.rx.log) && Run(n, s, OpsOf(ts[..9])).ring == b
            && Run(n, s, OpsOf(ts[..9])).tmp == []
  {
    hide Run, OpsOf, Accepts;
    var ts := SplitStart(a, b, g);
    FirstFour(n, s, a, ts);
    RunNext(n, s, ts, 4);
    RunNext(n, s, ts, 5);
    RunNext(n, s, ts, 6);
    RunNext(n, s, ts, 7);
    RunNext(n, s, ts, 8);
    assert [] + b == b;
  }

  lemma {:induction false} SplitRest(n: BufferSize, s: Pipe, a: seq<Byte>, b: seq<Byte>, g: nat)
    requires Sized(n, s) && Quiet(s) && 4 <= |a| <= POLL_BUF && 0 < |b| < 4 && g <= GAP_MS
    ensures var ts := SplitStart(a, b, g);
            && Idle(Run(n, s, OpsOf(ts[..13]))) && Idle(Run(n, s, OpsOf(ts)))
            && Run(n, s, OpsOf(ts)).rx == Rx(b, 2, s.rx.log + [Verdict(a)])
  {
    hide Run, OpsOf, Accepts;
    var ts := SplitStart(a, b, g);
    SplitInTwo(n, s, a, b, g);
    RunNext(n, s, ts, 9);
    RunNext(n, s, ts, 10);
    RunNext(n, s, ts, 11);
    RunNext(n, s, ts, 12);
    RunNext(n, s, ts, 13);
    assert ts[..14] == ts && [] + b == b && b[|b|..] == [] && b[..|b|] == b;
  }

  lemma {:induction false} EndOfPoll(n: BufferSize, s: Pipe, ts: seq<Stamped>, k: int, i: int)
    requires Sized(n, s) && 0 <= k < i < |ts| && ts[k].op == Get && ts[i].op.Test?
    requires forall j :: k < j < i ==> ts[j].op.Rdy?
    requires Idle(Run(n, s, OpsOf(ts[..k + 1])))
    ensures PollEnd(n, s, ts, k, i)
  {
    hide Run, OpsOf, Idle;
  }

  lemma {:induction false} SplitShape(a: seq<Byte>, b: seq<Byte>, g: nat)
    requires g <= GAP_MS
    ensures var ts := SplitStart(a, b, g);
            && |ts| == 14 && ts[3].op == ts[5].op == ts[7].op == ts[12].op == Get
            && ts[4].op.Test? && ts[6].op.Test? && ts[8].op.Rdy? && ts[9].op.Test? && ts[13].op.Test?
  {}

  lemma {:induction false} SplitPolls(n: BufferSize, s: Pipe, a: seq<Byte>, b: seq<Byte>, g: nat)
    requires Sized(n, s) && Quiet(s) && 4 <= |a| <= POLL_BUF && 0 < |b| < 4 && g <= GAP_MS
    ensures var ts := SplitStart(a, b, g);
            PollEnd(n, s, ts, 3, 4) && PollEnd(n, s, ts, 5, 6) && PollEnd(n, s, ts, 7, 9) && PollEnd(n, s, ts, 12, 13)
  {
    hide Run, OpsOf, Idle, PollEnd, SplitStart, Verdict, Accepts;
    SplitShape(a, b, g);
    SplitInTwo(n, s, a, b, g);
    SplitRest(n, s, a, b, g);
    var ts := SplitStart(a, b, g);
    EndOfPoll(n, s, ts, 3, 4);
    EndOfPoll(n, s, ts, 5, 6);
    EndOfPoll(n, s, ts, 7, 9);
    EndOfPoll(n, s, ts, 12, 13);
  }

  lemma {:induction false} SplitTests(a: seq<Byte>, b: seq<Byte>, g: nat, i: int)
    requires g <= GAP_MS && 0 <= i < |SplitStart(a, b, g)| && SplitStart(a, b, g)[i].op.Test?
    ensures i in {4, 6, 9, 13}
  {}

  /** A test ends one poll only. */
  lemma {:induction false} OnePoll(n: BufferSize, s: Pipe, ts: seq<Stamped>, j: int, k: int, i: int)
    requires Sized(n, s) && PollEnd(n, s, ts, j, i) && PollEnd(n, s, ts, k, i)
    ensures j == k
  {
    hide Run, OpsOf;
  }

  lemma {:induction false} SplitPrompt(n: BufferSize, s: Pipe, a: seq<Byte>, b: seq<Byte>, g: nat)
    requires Sized(n, s) && Quiet(s) && 4 <= |a| <= POLL_BUF && 0 < |b| < 4 && g <= GAP_MS
    ensures AllPolled(n, s, SplitStart(a, b, g)) && Prompt(n, s, SplitStart(a, b, g), GAP_MS - g)
  {
    hide Run, OpsOf, Idle, Verdict, Accepts;
    var ts := SplitStart(a, b, g);
    SplitPolls(n, s, a, b, g);
    assert ts[9].time - ts[7].time == GAP_MS - g && ts[4].time == ts[3].time && ts[6].time == ts[5].time && ts[13].time == ts[12].time;
    forall i | 0 <= i < |ts| && ts[i].op.Test? ensures i in {4, 6, 9, 13} {
      SplitTests(a, b, g, i);
    }
    hide SplitStart;
    forall k, i | 0 <= k < i < |ts| && PollEnd(n, s, ts, k, i) ensures ts[i].time - ts[k].time <= GAP_MS - g {
      OnePoll(n, s, ts, if i == 9 then 7 else i - 1, k, i);
    }
    assert PolledAt(n, s, ts, 4) && PolledAt(n, s, ts, 6) && PolledAt(n, s, ts, 9) && PolledAt(n, s, ts, 13);
  }

  lemma {:induction false} SplitRegular(n: BufferSize, s: Pipe, a: seq<Byte>, b: seq<Byte>, g: nat, period: nat)
    requires Sized(n, s) && Quiet(s) && 4 <= |a| <= POLL_BUF && 0 < |b| < 4 && g <= GAP_MS && GAP_MS - g <= period + 1
    ensures Regular(n, s, SplitStart(a, b, g), 0, period)
  {
    SplitPolls(n, s, a, b, g);
    hide Run, OpsOf, PollEnd, AllPolled, Prompt;
    var ts := SplitStart(a, b, g);
    forall x | 0 <= x && x + period <= ts[13].time ensures PollWithin(n, s, ts, x, period) {
      if x == 0 {
        assert PollEnd(n, s, ts, 3, 4) && 0 <= ts[3].time && ts[4].time <= 0;
      } else if x == 1 && g > 0 {
        assert PollEnd(n, s, ts, 5, 6) && 1 <= ts[5].time && ts[6].time <= 1;
      } else {
        assert PollEnd(n, s, ts, 12, 13) && x <= ts[12].time && ts[13].time <= x + period;
      }
    }
  }

  lemma {:induction false} SplitSpeech(a: seq<Byte>, b: seq<Byte>, g: nat)
    requires a != [] && b != [] && g <= GAP_MS
    ensures var ts := SplitStart(a, b, g);
            && Dense(ts, g) && LastSpoke(ts) == Some(g) && Announced(OpsOf(ts)) == a + b
  {
    hide LastSpoke, Announced, OpsOf;
    var ts := SplitStart(a, b, g);
    assert ts[..14] == ts && [] + a == a;
    NotSpoken(ts, 0);
    forall k | 1 <= k <= 8 ensures LastSpoke(ts[..k]) == Some(0) {
      SpokeOnce(ts, 0, k);
    }
    SpokeOnce(ts, 8, 14);
    NoneAnnounced(ts);
    NextAnnounced(ts, 0);
    NoMoreAnnounced(ts, 1, 8);
    NextAnnounced(ts, 8);
    NoMoreAnnounced(ts, 9, 14);
  }

  lemma {:induction false} SplitClocked(a: seq<Byte>, b: seq<Byte>, g: nat)
    requires g <= GAP_MS
    ensures Clocked(SplitStart(a, b, g), 0)
    ensures SplitStart(a, b, g) != [] && SplitStart(a, b, g)[|SplitStart(a, b, g)| - 1].time == 2
  {
    hide Clocked;
    TickingIsClocked(SplitStart(a, b, g), 0);
  }

  lemma {:induction false} SplitGoes(n: BufferSize, s: Pipe, a: seq<Byte>, b: seq<Byte>, g: nat, t: Timing)
    requires Sized(n, s) && Quiet(s) && 4 <= |a| <= POLL_BUF && 0 < |b| < 4
    requires g <= GAP_MS && g <= t.gap && GAP_MS - g <= Min(t.delay, t.period + 1)
    ensures Going(n, s, SplitStart(a, b, g), t)
  {
    hide Run, OpsOf, LastSpoke, Announced, Clocked, Dense, SplitStart, AllPolled, Regular, PollEnd;
    SplitPrompt(n, s, a, b, g);
    SplitRegular(n, s, a, b, g, t.period);
    SplitSpeech(a, b, g);
    SplitClocked(a, b, g);
    WiderGap(SplitStart(a, b, g), g, t.gap);
  }

  /** A run with the given bounds that cuts the frame a + b behind a, and keeps b. */
  lemma {:induction false} WideGapSplits(n: BufferSize, s: Pipe, a: seq<Byte>, b: seq<Byte>, t: Timing)
    returns (ts: seq<Stamped>)
    requires Sized(n, s) && Quiet(s) && 4 <= |a| <= 64 && 0 < |b| < 4 && |a| + |b| <= n
    requires t.gap + Min(t.delay, t.period + 1) >= 2
    ensures OneFrame(n, s, ts, 0, t) && Announced(OpsOf(ts)) == a + b
    ensures Run(n, s, OpsOf(ts)).rx == Rx(b, 2, s.rx.log + [Verdict(a)])
  {
    hide Run, OpsOf, LastSpoke, Announced, Clocked, Dense, SplitStart, AllPolled, Prompt, Regular;
    var g := Min(t.gap, GAP_MS);
    SplitGoes(n, s, a, b, g, t);
    SplitSpeech(a, b, g);
    SplitClocked(a, b, g);
    SplitRest(n, s, a, b, g);
    ts := Polling(SplitStart(a, b, g), t.silence);
    PollingGoesOn(n, s, SplitStart(a, b, g), t, t.silence);
  }

  // ---- a silence too short for slow polls

  /** Polls as far apart as the period allows, the second of them 1 ms too early to find the silence. */
  function SlowPolls(f: seq<Byte>, p: nat): seq<Stamped> {
    [Stamped(Get, 0), Stamped(Test(0), 0), Stamped(Rdy(f), 0),
     Stamped(Get, p + 1), Stamped(Chunk(p + 1), p + 1), Stamped(Get, p + 1), Stamped(Test(p + 1), p + 1),
     Stamped(Get, p + 2), Stamped(Test(p + 2), p + 2),
     Stamped(Get, 2 * p + 2)]
  }

  lemma {:induction false} SlowRead(n: BufferSize, s: Pipe, f: seq<Byte>, p: nat)
    requires Sized(n, s) && Quiet(s) && 4 <= |f| <= POLL_BUF
    ensures var ts := SlowPolls(f, p);
            && Idle(Run(n, s, OpsOf(ts[..1])))
            && Idle(Run(n, s, OpsOf(ts[..6]))) && Run(n, s, OpsOf(ts[..6])).rx == Rx(f, p + 1, s.rx.log)
  {
    hide Run, OpsOf, Accepts;
    var ts := SlowPolls(f, p);
    RunNone(n, s, ts);
    RunNext(n, s, ts, 0);
    RunNext(n, s, ts, 1);
    RunNext(n, s, ts, 2);
    RunNext(n, s, ts, 3);
    RunNext(n, s, ts, 4);
    RunNext(n, s, ts, 5);
    assert [] + f == f && f[|f|..] == [] && f[..|f|] == f;
  }

  lemma {:induction false} SlowRun(n: BufferSize, s: Pipe, f: seq<Byte>, p: nat)
    requires Sized(n, s) && Quiet(s) && 4 <= |f| <= POLL_BUF
    ensures var ts := SlowPolls(f, p);
            && Idle(Run(n, s, OpsOf(ts[..1]))) && Idle(Run(n, s, OpsOf(ts[..6]))) && Idle(Run(n, s, OpsOf(ts[..8])))
            && Run(n, s, OpsOf(ts)).rx == Rx(f, p + 1, s.rx.log)
  {
    hide Run, OpsOf, Accepts;
    var ts := SlowPolls(f, p);
    SlowRead(n, s, f, p);
    RunNext(n, s, ts, 6);
    RunNext(n, s, ts, 7);
    RunNext(n, s, ts, 8);
    RunNext(n, s, ts, 9);
    assert ts[..10] == ts;
  }

  lemma {:induction false} SlowEnds(n: BufferSize, s: Pipe, f: seq<Byte>, p: nat)
    requires Sized(n, s) && Quiet(s) && 4 <= |f| <= POLL_BUF
    ensures var ts := SlowPolls(f, p);
            PollEnd(n, s, ts, 0, 1) && PollEnd(n, s, ts, 5, 6) && PollEnd(n, s, ts, 7, 8)
  {
    hide Run, OpsOf, Idle, PollEnd;
    SlowRun(n, s, f, p);
    EndOfPoll(n, s, SlowPolls(f, p), 0, 1);
    EndOfPoll(n, s, SlowPolls(f, p), 5, 6);
    EndOfPoll(n, s, SlowPolls(f, p), 7, 8);
  }

  lemma {:induction false} SlowTests(f: seq<Byte>, p: nat, i: int)
    requires 0 <= i < |SlowPolls(f, p)| && SlowPolls(f, p)[i].op.Test?
    ensures i in {1, 6, 8} && SlowPolls(f, p)[i].time == SlowPolls(f, p)[i - 1].time
  {}

  lemma {:induction false} SlowPrompt(n: BufferSize, s: Pipe, f: seq<Byte>, p: nat)
    requires Sized(n, s) && Quiet(s) && 4 <= |f| <= POLL_BUF
    ensures AllPolled(n, s, SlowPolls(f, p)) && Prompt(n, s, SlowPolls(f, p), 0)
  {
    hide Run, OpsOf, SlowPolls;
    var ts := SlowPolls(f, p);
    SlowEnds(n, s, f, p);
    forall i | 0 <= i < |ts| && ts[i].op.Test? ensures i in {1, 6, 8} && ts[i].time == ts[i - 1].time {
      SlowTests(f, p, i);
    }
    forall k, i | 0 <= k < i < |ts| && PollEnd(n, s, ts, k, i) ensures ts[i].time - ts[k].time <= 0 {
      OnePoll(n, s, ts, i - 1, k, i);
    }
    assert PolledAt(n, s, ts, 1) && PolledAt(n, s, ts, 6) && PolledAt(n, s, ts, 8);
  }

  lemma {:induction false} SlowRegular(n: BufferSize, s: Pipe, f: seq<Byte>, p: nat)
    requires Sized(n, s) && Quiet(s) && 4 <= |f| <= POLL_BUF
    ensures Regular(n, s, SlowPolls(f, p), 0, p)
  {
    SlowEnds(n, s, f, p);
    hide Run, OpsOf, PollEnd;
    var ts := SlowPolls(f, p);
    forall x | 0 <= x && x + p <= ts[9].time ensures PollWithin(n, s, ts, x, p) {
      if x == 0 {
        assert PollEnd(n, s, ts, 0, 1) && 0 <= ts[0].time && ts[1].time <= p;
      } else if x <= p + 1 {
        assert PollEnd(n, s, ts, 5, 6) && x <= ts[5].time && ts[6].time <= x + p;
      } else {
        assert PollEnd(n, s, ts, 7, 8) && x <= ts[7].time && ts[8].time <= x + p;
      }
    }
  }

  lemma {:induction false} SlowSpeech(f: seq<Byte>, p: nat)
    requires f != []
    ensures var ts := SlowPolls(f, p);
            && Dense(ts, 0) && LastSpoke(ts) == Some(0) && Announced(OpsOf(ts)) == f
  {
    hide LastSpoke, Announced, OpsOf;
    var ts := SlowPolls(f, p);
    assert ts[..10] == ts && [] + f == f;
    NotSpoken(ts, 2);
    SpokeOnce(ts, 2, 10);
    NoneAnnounced(ts);
    NoMoreAnnounced(ts, 0, 2);
    NextAnnounced(ts, 2);
    NoMoreAnnounced(ts, 3, 10);
  }

  lemma {:induction false} SlowClocked(f: seq<Byte>, p: nat)
    ensures Clocked(SlowPolls(f, p), 0)
  {
    hide Clocked;
    TickingIsClocked(SlowPolls(f, p), 0);
  }

  /** A run with the given bounds at whose end the frame is still in the buffer. */
  lemma {:induction false} ShortSilenceKeeps(n: BufferSize, s: Pipe, f: seq<Byte>, t: Timing)
    requires Sized(n, s) && Quiet(s) && 4 <= |f| <= 64 && t.silence <= 2 * t.period + 2
    ensures OneFrame(n, s, SlowPolls(f, t.period), 0, t)
    ensures Run(n, s, OpsOf(SlowPolls(f, t.period))).rx == Rx(f, t.period + 1, s.rx.log)
  {
    hide Run, OpsOf, LastSpoke, Announced, Clocked, Dense, AllPolled, Regular, PollEnd;
    var ts := SlowPolls(f, t.period);
    SlowRun(n, s, f, t.period);
    SlowPrompt(n, s, f, t.period);
    SlowRegular(n, s, f, t.period);
    SlowSpeech(f, t.period);
    SlowClocked(f, t.period);
    WiderGap(ts, 0, t.gap);
  }

  // ---- the exact condition

  /** The server has been given the frame if it is good, and nothing is left of it. */
  predicate Delivered(n: BufferSize, s: Pipe, ts: seq<Stamped>)
    requires Sized(n, s)
  {
    var u := Run(n, s, OpsOf(ts));
    Quiet(u) && Adus(u.rx.log) == Adus(s.rx.log) + Handed(Announced(OpsOf(ts)))
  }

  /** Every run that keeps to the bounds, from any quiet state and for any buffer size, delivers its frame. */
  ghost predicate AlwaysDelivers(t: Timing) {
    forall n: BufferSize, s: Pipe, ts: seq<Stamped>, from: int ::
      Sized(n, s) && Quiet(s) && s.rx.lastMs <= from && OneFrame(n, s, ts, from, t) ==> Delivered(n, s, ts)
  }

  /** Bounds on gap, delay, polling period and silence are enough if and only if they are Sound. */
  lemma {:induction false} TimingIff(t: Timing)
    ensures AlwaysDelivers(t) <==> Sound(t)
  {
    hide OneFrame, Run, OpsOf, Announced;
    if Sound(t) {
      forall n: BufferSize, s: Pipe, ts: seq<Stamped>, from: int
        | Sized(n, s) && Quiet(s) && s.rx.lastMs <= from && OneFrame(n, s, ts, from, t)
        ensures Delivered(n, s, ts)
      {
        FrameDelivered(n, s, ts, from, t);
      }
    } else {
      Undelivered(t);
    }
  }

  /** From boot, some frame is not delivered. */
  lemma {:induction false} Undelivered(t: Timing)
    requires !Sound(t)
    ensures !AlwaysDelivers(t)
  {
    hide OneFrame, Run, OpsOf, Announced;
    var n: BufferSize, s, f := 64, Boot(), [FF, FF, FF, FF];
    var ts;
    if t.gap + Min(t.delay, t.period + 1) >= 2 {
      ts := WideGapSplits(n, s, f, [FF], t);
    } else {
      ts := SlowPolls(f, t.period);
      ShortSilenceKeeps(n, s, f, t);
    }
    assert !Delivered(n, s, ts);
  }
}
