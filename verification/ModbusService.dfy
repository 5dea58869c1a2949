/**
 modbus_service.c: the poll that gathers and cuts frames, the encoder, and the heartbeat, on the
 RS485 link of Usart. The history fields tie every state to a run of the receive path.
 */
module ModbusService {
  import opened Bytes
  import opened Errno
  import opened AduCodec
  import opened RxPipeline
  import opened RxDelivery
  import opened RxTiming
  import opened TimedRead
  import opened Usart
  import Crc16
  import Heartbeat
  import Tx = HalfDuplex

  /** The steps of one poll: drained at some point, then only announcements, then the one gap test. */
  ghost predicate OnePoll(n: BufferSize, s: Pipe, ts: seq<Stamped>)
    requires Sized(n, s)
  {
    ts != [] && NoTests(ts[..|ts| - 1]) && PolledAt(n, s, ts, |ts| - 1)
  }

  predicate NoTests(ts: seq<Stamped>) { forall i :: 0 <= i < |ts| ==> !ts[i].op.Test? }

  function Tests(ts: seq<Stamped>): nat
    decreases ts
  {
    if ts == [] then 0 else Tests(ts[..|ts| - 1]) + if ts[|ts| - 1].op.Test? then 1 else 0
  }

  /** Clock readings one after the other, from the first moment on and before the second. */
  predicate Ascending(from: int, readings: seq<int>, to: int) {
    && (forall i :: 0 <= i < |readings| ==> from <= readings[i] < to)
    && (forall i, j :: 0 <= i < j < |readings| ==> readings[i] < readings[j])
  }

  class Service {
    const n: BufferSize
    const usart: Rs485
    const mbRxFrame: array<Byte>
    var mbRxLen: nat
    var mbLastRxMs: int
    const inputReg: array<int>
    var hbLastMs: int
    /** The ADUs passed to modbus_raw_submit_rx. */
    var submitted: seq<Adu>
    // history: the steps of the receive path and what they make of it, and the clock readings of the ticks
    ghost var steps: seq<Stamped>
    ghost var pipe: Pipe
    ghost var start: nat
    ghost var readings: seq<int>

    ghost predicate Shape()
      reads this, usart, usart.txBuf
    {
      && mbRxFrame.Length == n && mbRxLen <= n && inputReg.Length == 4
      && mbRxFrame != usart.txBuf
      && usart.Ready()
    }

    /**
     The receive path has run as recorded, by the clock of the link and on what was announced, and has
     got as far as the ring.
     */
    ghost predicate Tracks()
      reads this, usart
    {
      && pipe == Run(n, Boot(), OpsOf(steps)) && pipe.ring == usart.rxRing
      && Said(steps) == usart.heard && Within(steps, start, usart.clock)
    }

    /** Every gap test so far ended a poll. */
    ghost predicate Polled()
      reads this`steps
    {
      AllPolled(n, Boot(), steps)
    }

    /** The frame buffer and what was submitted are those of the receive path. */
    ghost predicate Buffered()
      reads this, mbRxFrame
    {
      && mbRxLen <= mbRxFrame.Length
      && pipe.rx.frame == mbRxFrame[..mbRxLen] && pipe.rx.lastMs == mbLastRxMs
      && submitted == Adus(pipe.rx.log)
    }

    ghost predicate Beating()
      reads this, inputReg
    {
      && inputReg.Length == 4
      && var b := Heartbeat.Ticks(Heartbeat.Beat(0, start), readings);
         hbLastMs == b.lastMs && inputReg[0] == b.count % 0x1_0000
    }

    ghost predicate Valid()
      reads this, usart, usart.txBuf, mbRxFrame, inputReg
    {
      Shape() && Tracks() && pipe.tmp == [] && Buffered() && Polled() && Beating()
    }

    /** What modbus_service_init sets up once rs485_init has succeeded. */
    constructor (n: BufferSize, usart: Rs485)
      requires usart.Ready() && usart.rxRing == [] && usart.heard == []
      ensures this.n == n && this.usart == usart && Valid()
      ensures fresh(mbRxFrame) && fresh(inputReg)
      ensures submitted == [] && steps == [] && readings == [] && start == usart.clock
      ensures mbRxLen == 0 && hbLastMs == usart.clock && inputReg[0] == 0
    {
      this.n := n;
      this.usart := usart;
      mbRxFrame := new Byte[n](_ => FF);
      inputReg := new int[4](_ => 0);
      mbRxLen, mbLastRxMs := 0, 0;
      hbLastMs := usart.clock;
      submitted := [];
      steps, pipe := [], Boot();
      start, readings := usart.clock, [];
    }

    /**
     Every byte announced in the interludes since boot is accounted for, in order, by what the service
     holds and did.
     */
    lemma Accounts()
      requires Valid()
      ensures HeardBy(usart.past) == Offered(pipe.puts)
      ensures Kept(pipe.puts) == Gone(pipe.rx.log) + mbRxFrame[..mbRxLen] + usart.rxRing
      ensures |HeardBy(usart.past)| == Count(pipe.rx.log, Submitted) + Count(pipe.rx.log, Rejected)
                                       + Count(pipe.rx.log, Overflowed) + mbRxLen + |usart.rxRing| + Dropped(pipe.puts)
    {
      hide Run, Announced, HeardBy, Accounted;
      Conservation(n, OpsOf(steps));
      assert mbRxFrame[..mbRxLen] + [] + usart.rxRing == mbRxFrame[..mbRxLen] + usart.rxRing;
    }

    /**
     If since some quiet moment the steps were those of well-separated frames, these frames are what was
     announced since, and the good ones were submitted.
     */
    lemma {:induction false} Delivers(k: nat, bs: seq<Burst>)
      requires Valid() && k <= |steps| && Quiet(Run(n, Boot(), OpsOf(steps[..k])))
      requires OpsOf(steps[k..]) == Trace(bs) && WellSeparated(n, Run(n, Boot(), OpsOf(steps[..k])), bs)
      ensures HeardBy(usart.past) == Said(steps[..k]) + Flatten(Frames(bs))
      ensures submitted == Adus(Run(n, Boot(), OpsOf(steps[..k])).rx.log) + Expected(Frames(bs))
    {
      hide Run, WellSeparated, Announced, HeardBy, OpsOf;
      StepsSplit(steps, k);
      RunConcat(n, Boot(), OpsOf(steps[..k]), OpsOf(steps[k..]));
      AnnouncedConcat(OpsOf(steps[..k]), OpsOf(steps[k..]));
      AnnouncedTrace(bs);
      Delivery(n, Run(n, Boot(), OpsOf(steps[..k])), bs);
    }

    /**
     Delivery by the clock: if the service was quiet behind some gap test (or at its start), and since then
     one frame after the other came with its silence, each stretch up to a gap test being in time, these
     frames are what was announced since, and the good ones were submitted.
     */
    lemma {:induction false} DeliversInTime(k: nat, slots: seq<seq<Stamped>>, t: Timing)
      requires Valid() && Sound(t) && k <= |steps| && (k == 0 || steps[k - 1].op.Test?)
      requires Quiet(Run(n, Boot(), OpsOf(steps[..k])))
      requires steps[k..] == Joined(slots)
      requires AllInTime(n, Run(n, Boot(), OpsOf(steps[..k])), slots, if k == 0 then start else steps[k - 1].time, t)
      ensures HeardBy(usart.past) == Said(steps[..k]) + Flatten(FramesOf(slots))
      ensures submitted == Adus(Run(n, Boot(), OpsOf(steps[..k])).rx.log) + Expected(FramesOf(slots))
    {
      hide Run, Announced, HeardBy, OpsOf, AllInTime, Paced, AllPolled, Clocked;
      var from := if k == 0 then start else steps[k - 1].time;
      StepsSplit(steps, k);
      JoinedPlayed(slots);
      FramesAnnounced(slots);
      RunConcat(n, Boot(), OpsOf(steps[..k]), OpsOf(steps[k..]));
      AnnouncedConcat(OpsOf(steps[..k]), OpsOf(steps[k..]));
      LastStored(n, steps, k, start);
      assert EndOf(steps[..k], start) == from;
      SlotsArePaced(n, steps[..k], slots, start, t);
      TimedDelivery(n, Run(n, Boot(), OpsOf(steps[..k])), slots, from, t);
    }

    /** Record steps of the read loop. */
    ghost method NoteReads(trail: seq<Stamped>, r: Reading, from: int, to: int)
      requires pipe == Run(n, Boot(), OpsOf(steps))
      requires Trailed(POLL_BUF, Reading(pipe.ring, pipe.tmp, []), trail, r)
      requires Within(steps, start, from) && Within(trail, from, to)
      modifies this`steps, this`pipe
      ensures steps == old(steps) + trail && pipe == Run(n, Boot(), OpsOf(steps))
      ensures Within(steps, start, to) && Said(steps) == old(Said(steps)) + Said(trail)
      ensures pipe == old(pipe).(ring := r.ring, tmp := r.got, puts := old(pipe).puts + r.puts)
      ensures NoTests(trail) && (old(Polled()) ==> Polled())
    {
      hide Run, Announced, OpsOf, Within, AllPolled, ReadRun;
      OpsConcat(steps, trail);
      RunConcat(n, Boot(), OpsOf(steps), OpsOf(trail));
      AnnouncedConcat(OpsOf(steps), OpsOf(trail));
      WithinConcat(steps, trail, start, from, to);
      ReadIsPipe(n, pipe, OpsOf(trail));
      ReadsNoTests(trail);
      if Polled() {
        StillPolled(n, Boot(), steps, trail);
      }
      steps, pipe := steps + trail, Run(n, pipe, OpsOf(trail));
    }

    /** Record one step of the poll. */
    ghost method NoteStep(op: Op)
      requires pipe == Run(n, Boot(), OpsOf(steps)) && !op.Rdy? && Within(steps, start, usart.clock)
      requires (op.Chunk? ==> op.at == usart.clock) && (op.Test? ==> op.now == usart.clock)
      modifies this`steps, this`pipe
      ensures Said(steps) == old(Said(steps)) && Within(steps, start, usart.clock)
      ensures steps == old(steps) + [Stamped(op, usart.clock)]
      ensures pipe == Run(n, Boot(), OpsOf(steps)) && pipe == Step(n, old(pipe), op)
      ensures !op.Test? && old(Polled()) ==> Polled()
    {
      hide Run, Announced, AllPolled, Step;
      var step := [Stamped(op, usart.clock)];
      OpsConcat(steps, step);
      assert OpsOf(step) == [op];
      RunSnoc(n, Boot(), OpsOf(steps), op);
      NotAnnounced(OpsOf(steps), op);
      WithinConcat(steps, step, start, usart.clock, usart.clock);
      if !op.Test? && Polled() {
        StillPolled(n, Boot(), steps, step);
      }
      steps, pipe := steps + step, Step(n, pipe, op);
    }

    /**
     modbus_submit_frame: at least four bytes, the last two the CRC of the others, are an ADU; what
     modbus_raw_submit_rx returns only changes what is logged.
     */
    method SubmitFrame()
      requires mbRxFrame.Length == n && mbRxLen <= n
      modifies this`mbRxLen, this`submitted
      ensures mbRxLen == 0
      ensures if old(mbRxLen) >= 4
                 && old(mbRxFrame[mbRxLen - 2..mbRxLen]) == Crc16.Trailer(Crc16.Crc(old(mbRxFrame[..mbRxLen - 2])))
              then
                && |submitted| == |old(submitted)| + 1 && old(submitted) <= submitted
                && var adu := submitted[|submitted| - 1];
                   && adu.unitId == old(mbRxFrame[0]) && adu.fc == old(mbRxFrame[1])
                   && adu.data == old(mbRxFrame[2..mbRxLen - 2])
              else submitted == old(submitted)
      ensures submitted == old(submitted) + Handed(old(mbRxFrame[..mbRxLen]))
    {
      hide Crc16.Crc, Crc16.Le16, Crc16.Trailer;
      if mbRxLen < 4 {
        mbRxLen := 0;
        return;
      }
      var frame := mbRxFrame[..mbRxLen];
      var rxCrc := Crc16.Le16(mbRxFrame[mbRxLen - 2], mbRxFrame[mbRxLen - 1]);
      var calcCrc := Crc16.Crc(mbRxFrame[..mbRxLen - 2]);
      assert frame[..mbRxLen - 2] == mbRxFrame[..mbRxLen - 2];
      assert mbRxFrame[mbRxLen - 2..mbRxLen] == [mbRxFrame[mbRxLen - 2], mbRxFrame[mbRxLen - 1]];
      Crc16.Le16Trailer(mbRxFrame[mbRxLen - 2], mbRxFrame[mbRxLen - 1]);
      Crc16.TrailerLe16(calcCrc);
      if rxCrc != calcCrc {
        mbRxLen := 0;
        return;
      }
      var adu := Adu(mbRxFrame[0], mbRxFrame[1], mbRxFrame[2..mbRxLen - 2], rxCrc);
      assert frame[2..mbRxLen - 2] == mbRxFrame[2..mbRxLen - 2];
      submitted := submitted + [adu];
      mbRxLen := 0;
    }

    /** memcpy into the frame buffer. */
    method CopyChunk(tmp: array<Byte>, rd: nat)
      requires rd <= tmp.Length && mbRxLen + rd <= mbRxFrame.Length && tmp != mbRxFrame
      modifies this`mbRxLen, mbRxFrame
      ensures mbRxLen == old(mbRxLen) + rd
      ensures mbRxFrame[..mbRxLen] == old(mbRxFrame[..mbRxLen]) + tmp[..rd]
    {
      var i := 0;
      while i < rd
        invariant 0 <= i <= rd && mbRxLen == old(mbRxLen)
        invariant mbRxFrame[..mbRxLen + i] == old(mbRxFrame[..mbRxLen]) + tmp[..i]
      {
        mbRxFrame[mbRxLen + i] := tmp[i];
        assert mbRxFrame[..mbRxLen + (i + 1)] == mbRxFrame[..mbRxLen + i] + [tmp[i]];
        i := i + 1;
      }
      mbRxLen := mbRxLen + rd;
    }

    /** k_uptime_get; what arrives before it is recorded. */
    method Now() returns (now: nat, ghost trail: seq<Stamped>)
      requires Shape() && Tracks()
      modifies this`steps, this`pipe, usart
      ensures Shape() && Tracks() && now == usart.clock
      ensures usart.clock == old(usart.clock) + if old(usart.agenda) == [] then 0 else old(usart.agenda)[0].ms
      ensures steps == old(steps) + trail && OnlyRdys(trail) && Within(trail, usart.clock, usart.clock)
      ensures pipe == old(pipe).(ring := pipe.ring, puts := pipe.puts)
      ensures usart.World() == old(usart.World()) && usart.Epoch() == old(usart.Epoch())
      ensures usart.Supply() <= old(usart.Supply())
      ensures old(Polled()) ==> Polled()
    {
      hide Run, Announced, Adus, Rs485.Steady, Rs485.Told, Rs485.Epoch, ReadRun, AllPolled, Within, Elapsed, HeardIn;
      ghost var r0, r := Reading(pipe.ring, pipe.tmp, []), Reading(pipe.ring, pipe.tmp, []);
      now, trail, r := usart.Uptime(POLL_BUF, r0);
      ArrivedIsTrailed(POLL_BUF, r0, trail, r);
      NoteReads(trail, r, old(usart.clock), usart.clock);
    }

    /** The body of the drain loop once a chunk has been read: it is stamped with the clock. */
    method StoreChunk(tmp: array<Byte>, rd: nat)
      requires Shape() && Tracks() && Buffered() && Polled()
      requires 0 < rd <= POLL_BUF && rd <= tmp.Length && tmp != mbRxFrame && pipe.tmp == tmp[..rd]
      modifies this`mbRxLen, this`mbLastRxMs, this`steps, this`pipe, usart, mbRxFrame
      ensures Shape() && Tracks() && Buffered() && Polled() && pipe.tmp == []
      ensures usart.World() == old(usart.World()) && usart.Epoch() == old(usart.Epoch())
      ensures old(steps) < steps && steps[|steps| - 1] == Stamped(Chunk(usart.clock), usart.clock)
      ensures NoTests(steps[|old(steps)|..]) && mbLastRxMs == usart.clock
      ensures mbRxLen <= n
              && mbRxFrame[..mbRxLen] == old(if mbRxLen + rd > n then [] else mbRxFrame[..mbRxLen]) + old(tmp[..rd])
      ensures usart.Supply() <= old(usart.Supply()) && usart.clock >= old(usart.clock)
    {
      hide Run, Announced, Adus, Rs485.Ready, Rs485.Epoch, Store, AllPolled, Within;
      MakeRoomAndCopy(tmp, rd);
      ghost var trail;
      mbLastRxMs, trail := Now();
      StoreEffect(n, pipe.rx, pipe.tmp, mbLastRxMs);
      NoteStep(Chunk(mbLastRxMs));
      RdysThenChunk(old(steps), trail, Stamped(Chunk(mbLastRxMs), mbLastRxMs));
    }

    /** The two length tests: discard what would overflow, then store. */
    method MakeRoomAndCopy(tmp: array<Byte>, rd: nat)
      requires mbRxFrame.Length == n && mbRxLen <= n
      requires rd <= POLL_BUF && rd <= tmp.Length && tmp != mbRxFrame
      modifies this`mbRxLen, mbRxFrame
      ensures mbRxLen <= n
      ensures mbRxFrame[..mbRxLen] == old(if mbRxLen + rd > n then [] else mbRxFrame[..mbRxLen]) + tmp[..rd]
    {
      if mbRxLen + rd > n {
        mbRxLen := 0;
      }
      if mbRxLen + rd <= n {
        CopyChunk(tmp, rd);
      }
    }

    /** modbus_rx_poll: one poll, its gap test made with the clock. */
    method RxPoll()
      requires Valid()
      modifies this`mbRxLen, this`mbLastRxMs, this`submitted, this`steps, this`pipe, usart, mbRxFrame
      ensures Valid() && old(steps) <= steps && usart.clock >= old(usart.clock)
      ensures usart.World() == old(usart.World()) && usart.Epoch() == old(usart.Epoch())
      ensures OnePoll(n, old(pipe), steps[|old(steps)|..])
      ensures steps[|steps| - 1] == Stamped(Test(usart.clock), usart.clock)
      ensures mbRxLen >= 4 ==> usart.clock - mbLastRxMs < 2
    {
      hide Run, Announced, Adus, Rs485.Ready, Rs485.Epoch, AllPolled, Within, OnePoll;
      var tmp := new Byte[POLL_BUF](_ => FF);
      Drain(tmp);
      ghost var drained := steps;
      ghost var trail := TestGap();
      ghost var test := Stamped(Test(usart.clock), usart.clock);
      DrainedThenTested(n, old(steps), drained, trail, test);
      assert steps == drained + trail + [test];
    }

    /** The end of a poll. */
    method TestGap() returns (ghost trail: seq<Stamped>)
      requires Shape() && Tracks() && Buffered()
      modifies this`mbRxLen, this`submitted, this`steps, this`pipe, usart
      ensures Shape() && Tracks() && Buffered() && pipe.tmp == old(pipe.tmp) && usart.clock >= old(usart.clock)
      ensures usart.World() == old(usart.World()) && usart.Epoch() == old(usart.Epoch())
      ensures steps == old(steps) + trail + [Stamped(Test(usart.clock), usart.clock)] && OnlyRdys(trail)
      ensures if old(mbRxLen) >= 4 && usart.clock - mbLastRxMs >= 2
              then mbRxLen == 0 && submitted == old(submitted) + Handed(old(mbRxFrame[..mbRxLen]))
              else mbRxLen == old(mbRxLen) && submitted == old(submitted)
    {
      hide Run, Announced, Adus, Rs485.Ready, Rs485.Epoch, GapTest, AllPolled, Within;
      var t;
      t, trail := Now();
      GapTestEffect(pipe.rx, t);
      CutAtGap(t);
      NoteStep(Test(t));
    }

    /** The gap test that ends a poll. */
    method CutAtGap(now: int)
      requires mbRxFrame.Length == n && mbRxLen <= n
      modifies this`mbRxLen, this`submitted
      ensures if old(mbRxLen) >= 4 && now - mbLastRxMs >= 2
              then mbRxLen == 0 && submitted == old(submitted) + Handed(old(mbRxFrame[..mbRxLen]))
              else mbRxLen == old(mbRxLen) && submitted == old(submitted)
    {
      if mbRxLen >= 4 && now - mbLastRxMs >= GAP_MS {
        SubmitFrame();
      }
    }

    /** The drain loop: it ends when a read finds the ring empty. */
    method Drain(tmp: array<Byte>)
      requires Valid() && tmp != mbRxFrame && tmp != usart.txBuf && tmp.Length == POLL_BUF
      modifies this`mbRxLen, this`mbLastRxMs, this`steps, this`pipe, usart, mbRxFrame, tmp
      ensures Valid() && old(steps) < steps && usart.clock >= old(usart.clock)
      ensures usart.World() == old(usart.World()) && usart.Epoch() == old(usart.Epoch())
      ensures steps[|steps| - 1].op == Get && pipe.ring == [] && NoTests(steps[|old(steps)|..])
    {
      hide Run, Announced, Adus, Rs485.Ready, Rs485.Epoch, AllPolled, Within, NoTests;
      NothingAdded(steps);
      while true
        invariant Valid() && old(steps) <= steps && usart.clock >= old(usart.clock)
        invariant usart.World() == old(usart.World()) && usart.Epoch() == old(usart.Epoch())
        invariant NoTests(steps[|old(steps)|..])
        decreases usart.Supply()
      {
        ghost var before := steps;
        var rd := ReadChunk(tmp);
        MoreNoTests(old(steps), before, steps);
        if rd <= 0 {
          break;
        }
        before := steps;
        StoreChunk(tmp, rd);
        MoreNoTests(old(steps), before, steps);
      }
    }

    /** One read of the drain loop. */
    method ReadChunk(tmp: array<Byte>) returns (rd: nat)
      requires Shape() && Tracks() && pipe.tmp == [] && Buffered() && Polled()
      requires tmp != mbRxFrame && tmp != usart.txBuf && tmp.Length == POLL_BUF
      modifies this`steps, this`pipe, usart, tmp
      ensures Shape() && Tracks() && Buffered() && Polled() && rd <= POLL_BUF && pipe.tmp == tmp[..rd]
      ensures usart.World() == old(usart.World()) && usart.Epoch() == old(usart.Epoch())
      ensures old(steps) <= steps && usart.Supply() + rd <= old(usart.Supply()) && usart.clock >= old(usart.clock)
      ensures NoTests(steps[|old(steps)|..])
      ensures rd == 0 ==> |steps| > |old(steps)| && steps[|steps| - 1].op == Get && pipe.ring == []
    {
      hide Run, Announced, Adus, Rs485.Steady, Rs485.Told, Rs485.Epoch, ReadRun, AllPolled, Within;
      ghost var trail, r;
      rd, trail, r := usart.Rs485Read(tmp, POLL_BUF, NoWait);
      NoteReads(trail, r, old(usart.clock), usart.clock);
      assert steps[|old(steps)|..] == trail;
    }

    /**
     modbus_service_tick: one clock reading for the heartbeat, with what arrives before it, and one poll,
     which begins at step p.
     */
    method Tick() returns (ghost now: int, ghost p: nat)
      requires Valid()
      modifies this, usart, mbRxFrame, inputReg
      ensures Valid() && start == old(start)
      ensures old(steps) <= steps && |old(steps)| <= p <= |steps|
      ensures OnlyRdys(steps[|old(steps)|..p]) && Within(steps[|old(steps)|..p], now, now)
      ensures OnePoll(n, Run(n, Boot(), OpsOf(steps[..p])), steps[p..])
      ensures steps[|steps| - 1] == Stamped(Test(usart.clock), usart.clock)
      ensures usart.World() == old(usart.World()) && usart.Epoch() == old(usart.Epoch())
      ensures now == old(usart.clock) + (if old(usart.agenda) == [] then 0 else old(usart.agenda)[0].ms)
      ensures now <= usart.clock && readings == old(readings) + [now]
      ensures if now - old(hbLastMs) >= 1000 then inputReg[0] == (old(inputReg[0]) + 1) % 0x1_0000 && hbLastMs == now
              else inputReg[0] == old(inputReg[0]) && hbLastMs == old(hbLastMs)
      ensures forall i :: 1 <= i < 4 ==> inputReg[i] == old(inputReg[i])
    {
      hide Run, Announced, Adus, Rs485.Ready, Rs485.Epoch, AllPolled, Within, OnePoll, OpsOf, OnlyRdys, Heartbeat.Ticks;
      var t;
      t, p := ClockThenPoll();
      now := t;
      CountBeat(t);
    }

    /** The clock is read before the poll, so a beat counts from the start of its tick. */
    method ClockThenPoll() returns (now: nat, ghost p: nat)
      requires Valid()
      modifies this`mbRxLen, this`mbLastRxMs, this`submitted, this`steps, this`pipe, usart, mbRxFrame
      ensures Shape() && Tracks() && pipe.tmp == [] && Buffered() && Polled()
      ensures old(steps) <= steps && |old(steps)| <= p <= |steps|
      ensures OnlyRdys(steps[|old(steps)|..p]) && Within(steps[|old(steps)|..p], now, now)
      ensures OnePoll(n, Run(n, Boot(), OpsOf(steps[..p])), steps[p..])
      ensures steps[|steps| - 1] == Stamped(Test(usart.clock), usart.clock)
      ensures usart.World() == old(usart.World()) && usart.Epoch() == old(usart.Epoch())
      ensures now == old(usart.clock) + (if old(usart.agenda) == [] then 0 else old(usart.agenda)[0].ms)
      ensures now <= usart.clock
    {
      hide Run, Announced, Adus, Rs485.Ready, Rs485.Epoch, AllPolled, Within, OnePoll, OpsOf, OnlyRdys;
      ghost var trail;
      now, trail := Now();
      p := |steps|;
      ghost var before := steps;
      RxPoll();
      assert steps[..p] == before && steps[|old(steps)|..p] == trail;
    }

    /** The heartbeat at the end of a tick. */
    method CountBeat(now: int)
      requires Beating()
      modifies this`hbLastMs, this`readings, inputReg
      ensures Beating() && readings == old(readings) + [now]
      ensures if now - old(hbLastMs) >= 1000 then inputReg[0] == (old(inputReg[0]) + 1) % 0x1_0000 && hbLastMs == now
              else inputReg[0] == old(inputReg[0]) && hbLastMs == old(hbLastMs)
      ensures forall i :: 1 <= i < 4 ==> inputReg[i] == old(inputReg[i])
    {
      hide Heartbeat.Ticks;
      Heartbeat.TicksSnoc(Heartbeat.Beat(0, start), readings, now);
      WrapsAround(Heartbeat.Ticks(Heartbeat.Beat(0, start), readings).count);
      readings := readings + [now];
      if now - hbLastMs >= 1000 {
        inputReg[0] := (inputReg[0] + 1) % 0x1_0000;
        hbLastMs := now;
      }
    }

    /** k_sleep(K_MSEC(1)) of the main loop; what arrives meanwhile is recorded. */
    method Pause()
      requires Valid()
      modifies this`steps, this`pipe, usart
      ensures Valid() && old(steps) <= steps && OnlyRdys(steps[|old(steps)|..])
      ensures usart.World() == old(usart.World()) && usart.Epoch() == old(usart.Epoch()) + 1
      ensures usart.clock == old(usart.clock) + 1 + if old(usart.agenda) == [] then 0 else old(usart.agenda)[0].ms
    {
      hide Run, Announced, Adus, Rs485.Steady, Rs485.Told, Rs485.Epoch, ReadRun, AllPolled, Within, Elapsed;
      ghost var r0, r := Reading(pipe.ring, pipe.tmp, []), Reading(pipe.ring, pipe.tmp, []);
      ghost var trail;
      trail, r := usart.Sleep(POLL_BUF, r0);
      ArrivedIsTrailed(POLL_BUF, r0, trail, r);
      NoteReads(trail, r, old(usart.clock), usart.clock);
      assert steps[|old(steps)|..] == trail;
    }

    /** The main loop for so many rounds, each of them one tick with one poll, and a sleep of 1 ms. */
    method Serve(rounds: nat)
      requires Valid()
      modifies this, usart, mbRxFrame, inputReg
      ensures Valid() && old(steps) <= steps && start == old(start)
      ensures usart.World() == old(usart.World()) && usart.Epoch() == old(usart.Epoch()) + rounds
      ensures old(readings) <= readings && |readings| == |old(readings)| + rounds
      ensures Ascending(old(usart.clock), readings[|old(readings)|..], usart.clock)
      ensures Tests(steps) == old(Tests(steps)) + rounds
    {
      hide Run, Announced, Adus, Rs485.Ready, Rs485.Epoch, AllPolled, Within, OnePoll, OpsOf, OnlyRdys, Heartbeat.Ticks,
           Tests;
      var i := 0;
      while i < rounds
        invariant 0 <= i <= rounds && Valid() && old(steps) <= steps && start == old(start)
        invariant usart.World() == old(usart.World()) && usart.Epoch() == old(usart.Epoch()) + i
        invariant old(readings) <= readings && |readings| == |old(readings)| + i
        invariant Ascending(old(usart.clock), readings[|old(readings)|..], usart.clock) && usart.clock >= old(usart.clock)
        invariant Tests(steps) == old(Tests(steps)) + i
      {
        ghost var before := steps;
        ghost var now, p := Tick();
        OneTestMore(n, before, steps, p);
        before := steps;
        Pause();
        NoTestMore(before, steps);
        i := i + 1;
      }
    }

    /** modbus_raw_tx_cb; adu is None for a null pointer. */
    method RawTxCb(adu: Option<Adu>, uartTxRet: int) returns (ret: int)
      requires Valid()
      modifies this`steps, this`pipe, usart, usart.txBuf
      ensures Valid() && old(steps) <= steps && NoTests(steps[|old(steps)|..])
      ensures usart.World() == old(usart.World()) && usart.Epoch() == old(usart.Epoch())
      ensures ret == if adu == None then -EINVAL else if |adu.value.data| > n - 4 then -EMSGSIZE else uartTxRet
      ensures usart.line.wire == old(usart.line.wire)
                                 + if ret == 0 && adu.Some? && SentWhole(Rest(old(usart.agenda), |adu.value.data| + 5))
                                   then [Encode(adu.value)] else []
      ensures |usart.line.wire| > |old(usart.line.wire)| ==>
                && adu.Some?
                && var f := usart.line.wire[|old(usart.line.wire)|];
                   && |f| == |adu.value.data| + 4 && f[0] == adu.value.unitId && f[1] == adu.value.fc
                   && f[2..|f| - 2] == adu.value.data && f[|f| - 2..] == Crc16.Trailer(Crc16.Crc(f[..|f| - 2]))
    {
      hide Run, Announced, Adus, Rs485.Ready, Rs485.Epoch, Within, AllPolled, NoTests, Rest, SentWhole, Encode,
           Crc16.Crc, Crc16.Trailer;
      NothingAdded(steps);
      assert usart.line.wire + [] == usart.line.wire;
      if adu == None {
        return -EINVAL;
      }
      if |adu.value.data| > n - 4 {
        return -EMSGSIZE;
      }
      var frame := BuildFrame(adu.value);
      ret := Send(frame, uartTxRet);
    }

    /** rs485_write of the frame; what arrives meanwhile is recorded. */
    method Send(frame: seq<Byte>, uartTxRet: int) returns (ret: int)
      requires Valid() && |frame| <= n
      modifies this`steps, this`pipe, usart, usart.txBuf
      ensures Valid() && old(steps) <= steps && NoTests(steps[|old(steps)|..]) && ret == uartTxRet
      ensures usart.World() == old(usart.World()) && usart.Epoch() == old(usart.Epoch())
      ensures usart.line.wire == old(usart.line.wire)
                                 + if ret == 0 && SentWhole(Rest(old(usart.agenda), |frame| + 1)) then [frame] else []
    {
      hide Run, Announced, Adus, Rs485.Ready, Rs485.Epoch, ReadRun, Within, AllPolled, OpsOf;
      ghost var trail, r;
      ghost var r0 := Reading(pipe.ring, [], []);
      ret, trail, r := usart.Rs485Write(frame, uartTxRet);
      ArrivedForRead(r0, trail, r);
      NoteReads(trail, r, old(usart.clock), usart.clock);
      assert steps[|old(steps)|..] == trail;
    }

    /** The frame modbus_raw_tx_cb builds in its local buffer. */
    method BuildFrame(adu: Adu) returns (f: seq<Byte>)
      requires |adu.data| <= n - 4
      ensures f == Encode(adu)
      ensures |f| == |adu.data| + 4 && f[0] == adu.unitId && f[1] == adu.fc && f[2..|f| - 2] == adu.data
      ensures f[|f| - 2..] == Crc16.Trailer(Crc16.Crc(f[..|f| - 2]))
    {
      hide Crc16.Crc, Crc16.Trailer;
      var frame := new Byte[n](_ => FF);
      frame[0] := adu.unitId;
      frame[1] := adu.fc;
      var i := 0;
      while i < |adu.data|
        invariant 0 <= i <= |adu.data|
        invariant frame[..i + 2] == [adu.unitId, adu.fc] + adu.data[..i]
      {
        frame[2 + i] := adu.data[i];
        assert frame[..i + 3] == frame[..i + 2] + [adu.data[i]];
        i := i + 1;
      }
      var k := |adu.data| + 2;
      assert adu.data[..i] == adu.data;
      PutCrc(frame, k);
      f := frame[..k + 2];
      DecodeEncode(adu);
    }

    /** crc16_ansi over the first k bytes, stored behind them low byte first. */
    method PutCrc(frame: array<Byte>, k: nat)
      requires k + 2 <= frame.Length
      modifies frame
      ensures frame[..k + 2] == old(frame[..k]) + Crc16.Trailer(Crc16.Crc(old(frame[..k])))
    {
      ghost var body := frame[..k];
      var trailer := Crc16.Trailer(Crc16.Crc(frame[..k]));
      frame[k] := trailer[0];
      frame[k + 1] := trailer[1];
      assert frame[..k] == body;
      assert frame[..k + 2] == frame[..k] + [frame[k], frame[k + 1]];
    }
  }

  lemma {:induction false} WrapsAround(c: nat)
    ensures (c % 0x1_0000 + 1) % 0x1_0000 == (c + 1) % 0x1_0000
  {}

  lemma {:induction false} NotAnnounced(ops: seq<Op>, op: Op)
    requires !op.Rdy?
    ensures Announced(ops + [op]) == Announced(ops)
  {
    assert (ops + [op])[..|ops|] == ops;
    assert Announced(ops) + [] == Announced(ops);
  }

  lemma {:induction false} ArrivalsIgnoreMax(max: nat, max': nat, r: Reading, trail: seq<Op>)
    requires Fits(max, r) && Fits(max', r) && forall i :: 0 <= i < |trail| ==> trail[i].Rdy?
    ensures ReadRun(max, r, trail) == ReadRun(max', r, trail)
    decreases trail
  {
    if trail != [] {
      ArrivalsIgnoreMax(max, max', r, trail[..|trail| - 1]);
    }
  }

  /** What arrives during a write is recorded as during a read that gets nothing. */
  lemma {:induction false} ArrivedForRead(r: Reading, trail: seq<Stamped>, r': Reading)
    requires Arrived(0, r, trail, r')
    ensures Trailed(POLL_BUF, r, trail, r')
  {
    assert forall i :: 0 <= i < |trail| ==> OpsOf(trail)[i] == trail[i].op;
    hide ReadRun, OpsOf;
    ArrivalsIgnoreMax(0, POLL_BUF, r, OpsOf(trail));
  }

  lemma {:induction false} ReadsNoTests(trail: seq<Stamped>)
    requires Reads(OpsOf(trail))
    ensures NoTests(trail)
  {
    assert forall i :: 0 <= i < |trail| ==> OpsOf(trail)[i] == trail[i].op;
  }

  lemma {:induction false} TestsConcat(a: seq<Stamped>, b: seq<Stamped>)
    ensures Tests(a + b) == Tests(a) + Tests(b)
    decreases b
  {
    if b == [] {
      assert a + b == a;
    } else {
      var k := |b| - 1;
      assert (a + b)[..|a| + k] == a + b[..k];
      TestsConcat(a, b[..k]);
    }
  }

  lemma {:induction false} NoneTested(ts: seq<Stamped>)
    requires NoTests(ts)
    ensures Tests(ts) == 0
    decreases ts
  {
    if ts != [] {
      NoneTested(ts[..|ts| - 1]);
    }
  }

  lemma {:induction false} NoTestMore(before: seq<Stamped>, after: seq<Stamped>)
    requires before <= after && OnlyRdys(after[|before|..])
    ensures Tests(after) == Tests(before)
  {
    hide Tests;
    NoneTested(after[|before|..]);
    TestsConcat(before, after[|before|..]);
    assert after == before + after[|before|..];
  }

  /** A tick tests once. */
  lemma {:induction false} OneTestMore(n: BufferSize, before: seq<Stamped>, after: seq<Stamped>, p: nat)
    requires before <= after && |before| <= p <= |after| && OnlyRdys(after[|before|..p])
    requires OnePoll(n, Run(n, Boot(), OpsOf(after[..p])), after[p..])
    ensures Tests(after) == Tests(before) + 1
  {
    hide Run, OpsOf;
    var poll := after[p..];
    assert after[..p][|before|..] == after[|before|..p] && before <= after[..p];
    NoTestMore(before, after[..p]);
    NoneTested(poll[..|poll| - 1]);
    TestsConcat(after[..p], poll);
    assert after == after[..p] + poll;
  }

  lemma {:induction false} NothingAdded(steps: seq<Stamped>)
    ensures NoTests(steps[|steps|..])
  {}

  lemma {:induction false} MoreNoTests(from: seq<Stamped>, mid: seq<Stamped>, to: seq<Stamped>)
    requires from <= mid <= to && NoTests(mid[|from|..]) && NoTests(to[|mid|..])
    ensures from <= to && NoTests(to[|from|..])
  {
    assert to[|from|..] == mid[|from|..] + to[|mid|..];
  }

  lemma {:induction false} RdysThenChunk(steps: seq<Stamped>, trail: seq<Stamped>, chunk: Stamped)
    requires OnlyRdys(trail) && chunk.op.Chunk?
    ensures NoTests((steps + trail + [chunk])[|steps|..])
  {
    assert (steps + trail + [chunk])[|steps|..] == trail + [chunk];
  }

  /** A drain and the gap test behind it are one poll, and all is polled as before. */
  lemma {:induction false} DrainedThenTested(n: BufferSize, steps0: seq<Stamped>, drained: seq<Stamped>,
                                             trail: seq<Stamped>, test: Stamped)
    requires steps0 < drained && drained[|drained| - 1].op == Get && Idle(Run(n, Boot(), OpsOf(drained)))
    requires NoTests(drained[|steps0|..]) && OnlyRdys(trail) && test.op.Test? && AllPolled(n, Boot(), steps0)
    ensures var all := drained + trail + [test];
            OnePoll(n, Run(n, Boot(), OpsOf(steps0)), all[|steps0|..]) && AllPolled(n, Boot(), all)
  {
    hide Run, OpsOf, AllPolled, PollEnd;
    var all, since := drained + trail + [test], drained[|steps0|..];
    var poll, s := since + trail + [test], Run(n, Boot(), OpsOf(steps0));
    assert drained == steps0 + since && all == steps0 + poll && all[|steps0|..] == poll;
    RunBehind(n, Boot(), steps0, poll, |since|);
    assert all[..|steps0| + |since|] == drained && poll[..|since|] == since;
    TestBehindDrain(n, s, since, trail, test);
    OneMorePolled(n, Boot(), steps0, poll);
  }

  lemma {:induction false} TestBehindDrain(n: BufferSize, s: Pipe, since: seq<Stamped>, trail: seq<Stamped>, test: Stamped)
    requires Sized(n, s) && since != [] && since[|since| - 1].op == Get && Idle(Run(n, s, OpsOf(since)))
    requires NoTests(since) && OnlyRdys(trail) && test.op.Test?
    ensures var poll := since + trail + [test];
            OnePoll(n, s, poll) && PolledAt(n, s, poll, |poll| - 1) && NoTests(poll[..|poll| - 1])
  {
    hide Run, OpsOf, Idle;
    var poll, k := since + trail + [test], |since| - 1;
    assert poll[..k + 1] == since && poll[..|poll| - 1] == since + trail;
    assert PollEnd(n, s, poll, k, |poll| - 1);
  }

  lemma {:induction false} StepsSplit(steps: seq<Stamped>, k: nat)
    requires k <= |steps|
    ensures steps == steps[..k] + steps[k..]
    ensures OpsOf(steps) == OpsOf(steps[..k]) + OpsOf(steps[k..])
  {
    OpsConcat(steps[..k], steps[k..]);
  }

  /** The last chunk is no later than the last step. */
  lemma {:induction false} LastStored(n: BufferSize, steps: seq<Stamped>, k: nat, start: nat)
    requires k <= |steps| && Clocked(steps, start)
    ensures Run(n, Boot(), OpsOf(steps[..k])).rx.lastMs <= if k == 0 then start else steps[k - 1].time
  {
    hide Run, OpsOf, LastSpoke;
    RunFresh(n, Boot(), steps, k, start);
  }
}
