/**
 The receive path as a state machine over its atomic steps: the UART callback putting bytes into
 the ring (usart_service.c), the poll taking them out in chunks, gathering them in the frame buffer
 and cutting frames at a silence (modbus_service.c). Any list of steps is an interleaving of the
 callback with the polls; lists the program cannot produce are covered too.
 */
module RxPipeline {
  import opened Bytes
  import opened AduCodec

  const RING_SIZE: nat := 512
  const POLL_BUF: nat := 64
  const GAP_MS: int := 2

  /** CONFIG_MODBUS_BUFFER_SIZE, within the range Zephyr allows for it. */
  type BufferSize = n: nat | 64 <= n <= 256 witness 256

  /** Why bytes left the frame buffer. */
  datatype Fate = Submitted | Rejected | TooShort | Overflowed

  datatype Cut = Cut(fate: Fate, bytes: seq<Byte>)

  /** The frame buffer with the time of the last chunk, and the history of what left it. */
  datatype Rx = Rx(frame: seq<Byte>, lastMs: int, log: seq<Cut>)

  /** One announcement of received bytes: the prefix the ring took and the rest it dropped. */
  datatype Put = Put(kept: seq<Byte>, dropped: seq<Byte>)

  /**
   The whole path. tmp is what the read in progress has collected; puts and chunks are history;
   chunks[open..] are the chunks that make up the frame buffer.
   */
  datatype Pipe = Pipe(ring: seq<Byte>, tmp: seq<Byte>, rx: Rx, puts: seq<Put>, chunks: seq<seq<Byte>>, open: nat)

  datatype Op =
    | Rdy(bytes: seq<Byte>)  // UART_RX_RDY announces bytes
    | Get                    // one ring_buf_get of the read loop
    | Chunk(at: int)         // the read returns and the poll stores what it got
    | Test(now: int)         // the gap test that ends a poll

  /** A step with the time it happens at, in ms. */
  datatype Stamped = Stamped(op: Op, time: int)

  function OpsOf(ts: seq<Stamped>): (ops: seq<Op>)
    ensures |ops| == |ts|
  {
    seq(|ts|, i requires 0 <= i < |ts| => ts[i].op)
  }

  /** The clock never runs backwards, and the program's readings of it are the times of its steps. */
  predicate Clocked(ts: seq<Stamped>, from: int) {
    && (forall i :: 0 <= i < |ts| ==> from <= ts[i].time)
    && (forall i, j :: 0 <= i < j < |ts| ==> ts[i].time <= ts[j].time)
    && (forall i :: 0 <= i < |ts| && ts[i].op.Chunk? ==> ts[i].op.at == ts[i].time)
    && (forall i :: 0 <= i < |ts| && ts[i].op.Test? ==> ts[i].op.now == ts[i].time)
  }

  /** Clocked, and all of it by the given time. */
  predicate Within(ts: seq<Stamped>, from: int, to: int) {
    from <= to && Clocked(ts, from) && forall i :: 0 <= i < |ts| ==> ts[i].time <= to
  }

  lemma OpsConcat(a: seq<Stamped>, b: seq<Stamped>)
    ensures OpsOf(a + b) == OpsOf(a) + OpsOf(b)
  {}

  lemma WithinWiden(ts: seq<Stamped>, from: int, to: int, from': int, to': int)
    requires Within(ts, from, to) && from' <= from && to <= to'
    ensures Within(ts, from', to')
  {}

  lemma WithinConcat(a: seq<Stamped>, b: seq<Stamped>, from: int, mid: int, to: int)
    requires Within(a, from, mid) && Within(b, mid, to)
    ensures Within(a + b, from, to)
  {}

  function Boot(): Pipe { Pipe([], [], Rx([], 0, []), [], [], 0) }

  // ---- the steps of modbus_service.c

  /** The loop body of modbus_rx_poll for a chunk that is not empty. */
  function Store(n: BufferSize, rx: Rx, chunk: seq<Byte>, at: int): Rx
    requires |chunk| <= POLL_BUF
  {
    var r := if |rx.frame| + |chunk| > n then Rx([], rx.lastMs, rx.log + [Cut(Overflowed, rx.frame)]) else rx;
    if |r.frame| + |chunk| <= n then Rx(r.frame + chunk, at, r.log) else r
  }

  /** modbus_submit_frame. */
  function Submit(rx: Rx): Rx {
    var fate := if |rx.frame| < 4 then TooShort else if Accepts(rx.frame) then Submitted else Rejected;
    Rx([], rx.lastMs, rx.log + [Cut(fate, rx.frame)])
  }

  predicate Fires(rx: Rx, now: int) { |rx.frame| >= 4 && now - rx.lastMs >= GAP_MS }

  function GapTest(rx: Rx, now: int): Rx {
    if Fires(rx, now) then Submit(rx) else rx
  }

  // ---- the ring

  /** ring_buf_put: as much as there is room for, the rest is dropped. */
  function RingPut(ring: seq<Byte>, bytes: seq<Byte>): (p: Put)
    requires |ring| <= RING_SIZE
    ensures p.kept + p.dropped == bytes && |ring| + |p.kept| <= RING_SIZE
    ensures |ring| + |bytes| <= RING_SIZE ==> p.kept == bytes && p.dropped == []
    ensures p.dropped != [] ==> |ring| + |p.kept| == 512
  {
    var room := Min(RING_SIZE - |ring|, |bytes|);
    Put(bytes[..room], bytes[room..])
  }

  /** ring_buf_get: how much a read of max bytes that has got some of them takes. */
  function RingGet(ring: seq<Byte>, got: nat, max: nat): (k: nat)
    requires got <= max
    ensures got + k <= max && k <= |ring|
    ensures got + k == max || k == |ring|
    ensures k == 0 ==> got == max || ring == []
  {
    Min(max - got, |ring|)
  }

  // ---- the steps of the whole path

  function Announce(s: Pipe, bytes: seq<Byte>): Pipe
    requires |s.ring| <= RING_SIZE
  {
    var p := RingPut(s.ring, bytes);
    s.(ring := s.ring + p.kept, puts := s.puts + [p])
  }

  function Take(s: Pipe): Pipe
    requires |s.tmp| <= POLL_BUF
  {
    var k := RingGet(s.ring, |s.tmp|, POLL_BUF);
    s.(ring := s.ring[k..], tmp := s.tmp + s.ring[..k])
  }

  function Deliver(n: BufferSize, s: Pipe, at: int): Pipe
    requires |s.tmp| <= POLL_BUF
  {
    if s.tmp == [] then s
    else
      var overflow := |s.rx.frame| + |s.tmp| > n;
      s.(tmp := [], rx := Store(n, s.rx, s.tmp, at),
         chunks := s.chunks + [s.tmp], open := if overflow then |s.chunks| else s.open)
  }

  function Tested(s: Pipe, now: int): Pipe {
    s.(rx := GapTest(s.rx, now), open := if Fires(s.rx, now) then |s.chunks| else s.open)
  }

  predicate Sized(n: BufferSize, s: Pipe) {
    |s.ring| <= RING_SIZE && |s.tmp| <= POLL_BUF && |s.rx.frame| <= n
  }

  function Step(n: BufferSize, s: Pipe, op: Op): (t: Pipe)
    requires Sized(n, s)
    ensures Sized(n, t)
  {
    match op
    case Rdy(bytes) => Announce(s, bytes)
    case Get => Take(s)
    case Chunk(at) => Deliver(n, s, at)
    case Test(now) => Tested(s, now)
  }

  function Run(n: BufferSize, s: Pipe, ops: seq<Op>): (t: Pipe)
    requires Sized(n, s)
    ensures Sized(n, t)
    decreases ops
  {
    if ops == [] then s else Step(n, Run(n, s, ops[..|ops| - 1]), ops[|ops| - 1])
  }

  lemma RunSnoc(n: BufferSize, s: Pipe, ops: seq<Op>, op: Op)
    requires Sized(n, s)
    ensures Run(n, s, ops + [op]) == Step(n, Run(n, s, ops), op)
  {
    assert (ops + [op])[..|ops|] == ops;
  }

  lemma {:induction false} RunConcat(n: BufferSize, s: Pipe, a: seq<Op>, b: seq<Op>)
    requires Sized(n, s)
    ensures Run(n, s, a + b) == Run(n, Run(n, s, a), b)
    decreases b
  {
    if b == [] {
      assert a + b == a;
    } else {
      var k := |b| - 1;
      assert (a + b)[..|a| + k] == a + b[..k];
      RunConcat(n, s, a, b[..k]);
    }
  }

  // ---- accounting

  /** Everything the line announced during the steps. */
  function Announced(ops: seq<Op>): seq<Byte>
    decreases ops
  {
    if ops == [] then []
    else
      var op := ops[|ops| - 1];
      Announced(ops[..|ops| - 1]) + if op.Rdy? then op.bytes else []
  }

  lemma {:induction false} AnnouncedConcat(a: seq<Op>, b: seq<Op>)
    ensures Announced(a + b) == Announced(a) + Announced(b)
    decreases b
  {
    if b == [] {
      assert a + b == a;
    } else {
      var k := |b| - 1;
      assert (a + b)[..|a| + k] == a + b[..k];
      AnnouncedConcat(a, b[..k]);
    }
  }

  function Offered(puts: seq<Put>): seq<Byte> {
    if puts == [] then [] else var p := puts[|puts| - 1]; Offered(puts[..|puts| - 1]) + (p.kept + p.dropped)
  }

  function Kept(puts: seq<Put>): seq<Byte> {
    if puts == [] then [] else Kept(puts[..|puts| - 1]) + puts[|puts| - 1].kept
  }

  function Dropped(puts: seq<Put>): nat {
    if puts == [] then 0 else Dropped(puts[..|puts| - 1]) + |puts[|puts| - 1].dropped|
  }

  /** The bytes that left the frame buffer, in the order they left. */
  function Gone(log: seq<Cut>): seq<Byte> {
    if log == [] then [] else Gone(log[..|log| - 1]) + log[|log| - 1].bytes
  }

  /** How many bytes met the given fate. */
  function Count(log: seq<Cut>, fate: Fate): nat {
    if log == [] then 0
    else Count(log[..|log| - 1], fate) + if log[|log| - 1].fate == fate then |log[|log| - 1].bytes| else 0
  }

  /** What the server must be given for a frame. */
  function Handed(f: seq<Byte>): seq<Adu> { if Accepts(f) then [Decode(f).value] else [] }

  /** The ADUs handed to the Modbus server. */
  function Adus(log: seq<Cut>): seq<Adu> {
    if log == [] then []
    else
      var c := log[|log| - 1];
      Adus(log[..|log| - 1]) + if c.fate == Submitted then Handed(c.bytes) else []
  }

  predicate CutOk(n: BufferSize, c: Cut) {
    match c.fate
    case Submitted => Accepts(c.bytes) && |c.bytes| <= n
    case Rejected => 4 <= |c.bytes| <= n && !Accepts(c.bytes)
    case TooShort => false
    case Overflowed => 0 < |c.bytes| <= n
  }

  predicate CutsOk(n: BufferSize, log: seq<Cut>) { forall i :: 0 <= i < |log| ==> CutOk(n, log[i]) }

  /** Every kept byte is in exactly one place, in arrival order. */
  predicate Accounted(s: Pipe) { Kept(s.puts) == Gone(s.rx.log) + s.rx.frame + s.tmp + s.ring }

  /** The frame buffer is made of whole chunks, the last ones read. */
  predicate Chunked(s: Pipe) {
    && s.open <= |s.chunks|
    && Gone(s.rx.log) == Flatten(s.chunks[..s.open])
    && s.rx.frame == Flatten(s.chunks[s.open..])
  }

  /** What every step keeps, whatever the interleaving. */
  predicate Inv(n: BufferSize, s: Pipe) {
    Sized(n, s) && CutsOk(n, s.rx.log) && Accounted(s) && Chunked(s)
  }

  lemma PutSnoc(puts: seq<Put>, p: Put)
    ensures Kept(puts + [p]) == Kept(puts) + p.kept
    ensures Offered(puts + [p]) == Offered(puts) + (p.kept + p.dropped)
    ensures Dropped(puts + [p]) == Dropped(puts) + |p.dropped|
  {
    assert (puts + [p])[..|puts|] == puts;
  }

  lemma LogSnoc(log: seq<Cut>, c: Cut)
    ensures Gone(log + [c]) == Gone(log) + c.bytes
    ensures Adus(log + [c]) == Adus(log) + if c.fate == Submitted then Handed(c.bytes) else []
    ensures forall f :: Count(log + [c], f) == Count(log, f) + if c.fate == f then |c.bytes| else 0
  {
    assert (log + [c])[..|log|] == log;
  }

  lemma AnnounceKeepsInv(n: BufferSize, s: Pipe, bytes: seq<Byte>)
    requires Inv(n, s)
    ensures Inv(n, Announce(s, bytes))
  {
    hide Kept, Gone, Flatten;
    var p := RingPut(s.ring, bytes);
    PutSnoc(s.puts, p);
    assert Gone(s.rx.log) + s.rx.frame + s.tmp + s.ring + p.kept
        == Gone(s.rx.log) + s.rx.frame + s.tmp + (s.ring + p.kept);
  }

  lemma TakeKeepsInv(n: BufferSize, s: Pipe)
    requires Inv(n, s)
    ensures Inv(n, Take(s))
  {
    hide Kept, Gone, Flatten;
    var k := RingGet(s.ring, |s.tmp|, POLL_BUF);
    assert s.ring == s.ring[..k] + s.ring[k..];
    var front := Gone(s.rx.log) + s.rx.frame;
    assert front + s.tmp + (s.ring[..k] + s.ring[k..]) == front + (s.tmp + s.ring[..k]) + s.ring[k..];
  }

  lemma Regroup(g: seq<Byte>, f: seq<Byte>, t: seq<Byte>, r: seq<Byte>)
    ensures g + f + t + r == (g + f) + t + [] + r == g + (f + t) + [] + r
    ensures g + f + t + r == (g + f) + [] + t + r
  {}

  /** Cutting the frame buffer closes its chunks. */
  lemma CloseChunks(s: Pipe)
    requires Chunked(s)
    ensures Gone(s.rx.log) + s.rx.frame == Flatten(s.chunks)
    ensures s.chunks[|s.chunks|..] == [] && Flatten([]) == []
  {
    assert s.chunks == s.chunks[..s.open] + s.chunks[s.open..];
    FlattenConcat(s.chunks[..s.open], s.chunks[s.open..]);
  }

  lemma OpenChunk(chunks: seq<seq<Byte>>, k: nat, c: seq<Byte>)
    requires k <= |chunks|
    ensures (chunks + [c])[..k] == chunks[..k]
    ensures Flatten((chunks + [c])[k..]) == Flatten(chunks[k..]) + c
  {
    assert (chunks + [c])[k..] == chunks[k..] + [c];
    FlattenSnoc(chunks[k..], c);
  }

  lemma OverflowKeepsInv(n: BufferSize, s: Pipe, at: int)
    requires Inv(n, s) && s.tmp != [] && |s.rx.frame| + |s.tmp| > n
    ensures Inv(n, Deliver(n, s, at))
  {
    hide Kept, Gone, Flatten, Accepts, Count, Adus;
    Regroup(Gone(s.rx.log), s.rx.frame, s.tmp, s.ring);
    LogSnoc(s.rx.log, Cut(Overflowed, s.rx.frame));
    CloseChunks(s);
    OpenChunk(s.chunks, |s.chunks|, s.tmp);
    assert s.chunks[..|s.chunks|] == s.chunks;
    assert [] + s.tmp == s.tmp;
  }

  lemma FitKeepsInv(n: BufferSize, s: Pipe, at: int)
    requires Inv(n, s) && s.tmp != [] && |s.rx.frame| + |s.tmp| <= n
    ensures Inv(n, Deliver(n, s, at))
  {
    hide Kept, Gone, Flatten, Accepts, Count, Adus;
    Regroup(Gone(s.rx.log), s.rx.frame, s.tmp, s.ring);
    OpenChunk(s.chunks, s.open, s.tmp);
  }

  /** Moving a chunk from tmp to the frame buffer, by way of a cut when it would not fit. */
  lemma DeliverKeepsInv(n: BufferSize, s: Pipe, at: int)
    requires Inv(n, s)
    ensures Inv(n, Deliver(n, s, at))
  {
    if s.tmp != [] {
      if |s.rx.frame| + |s.tmp| > n {
        OverflowKeepsInv(n, s, at);
      } else {
        FitKeepsInv(n, s, at);
      }
    }
  }

  /** A gap test that passes moves the frame buffer to the log. */
  lemma CutKeepsInv(n: BufferSize, s: Pipe, now: int)
    requires Inv(n, s) && Fires(s.rx, now)
    ensures Inv(n, Tested(s, now))
  {
    hide Kept, Gone, Flatten, Accepts, Count, Adus;
    var cut := Cut(if Accepts(s.rx.frame) then Submitted else Rejected, s.rx.frame);
    Regroup(Gone(s.rx.log), s.rx.frame, s.tmp, s.ring);
    LogSnoc(s.rx.log, cut);
    CloseChunks(s);
    assert s.chunks[..|s.chunks|] == s.chunks;
  }

  lemma TestKeepsInv(n: BufferSize, s: Pipe, now: int)
    requires Inv(n, s)
    ensures Inv(n, Tested(s, now))
  {
    if Fires(s.rx, now) {
      CutKeepsInv(n, s, now);
    }
  }

  lemma {:induction false} RunKeepsInv(n: BufferSize, s: Pipe, ops: seq<Op>)
    requires Inv(n, s)
    ensures Inv(n, Run(n, s, ops))
    decreases ops
  {
    if ops != [] {
      var k := |ops| - 1;
      RunKeepsInv(n, s, ops[..k]);
      var t := Run(n, s, ops[..k]);
      match ops[k]
      case Rdy(bytes) => AnnounceKeepsInv(n, t, bytes);
      case Get => TakeKeepsInv(n, t);
      case Chunk(at) => DeliverKeepsInv(n, t, at);
      case Test(now) => TestKeepsInv(n, t, now);
    }
  }

  lemma StepOffers(n: BufferSize, s: Pipe, op: Op)
    requires Sized(n, s)
    ensures Offered(Step(n, s, op).puts) == Offered(s.puts) + if op.Rdy? then op.bytes else []
  {
    if op.Rdy? {
      PutSnoc(s.puts, RingPut(s.ring, op.bytes));
    }
  }

  lemma {:induction false} RunOffers(n: BufferSize, s: Pipe, ops: seq<Op>)
    requires Sized(n, s)
    ensures Offered(Run(n, s, ops).puts) == Offered(s.puts) + Announced(ops)
    decreases ops
  {
    if ops != [] {
      var k := |ops| - 1;
      RunOffers(n, s, ops[..k]);
      StepOffers(n, Run(n, s, ops[..k]), ops[k]);
    }
  }

  lemma {:induction false} OfferedSize(puts: seq<Put>)
    ensures |Offered(puts)| == |Kept(puts)| + Dropped(puts)
  {
    if puts != [] {
      OfferedSize(puts[..|puts| - 1]);
    }
  }

  lemma {:induction false} GoneSize(log: seq<Cut>)
    ensures |Gone(log)| == Count(log, Submitted) + Count(log, Rejected) + Count(log, TooShort) + Count(log, Overflowed)
  {
    if log != [] {
      GoneSize(log[..|log| - 1]);
    }
  }

  lemma {:induction false} NoneTooShort(n: BufferSize, log: seq<Cut>)
    requires CutsOk(n, log)
    ensures Count(log, TooShort) == 0
  {
    if log != [] {
      NoneTooShort(n, log[..|log| - 1]);
      assert CutOk(n, log[|log| - 1]);
    }
  }

  lemma BootInv(n: BufferSize)
    ensures Inv(n, Boot())
  {}

  /** Step k announces more than the ring has room for, and leaves it full. */
  predicate OverflowsAt(n: BufferSize, ops: seq<Op>, k: int) {
    && 0 <= k < |ops| && ops[k].Rdy?
    && |Run(n, Boot(), ops[..k]).ring| + |ops[k].bytes| > 512 == |Run(n, Boot(), ops[..k + 1]).ring|
  }

  lemma {:induction false} StepDrops(n: BufferSize, s: Pipe, op: Op)
    requires Sized(n, s)
    ensures Dropped(Step(n, s, op).puts)
         == Dropped(s.puts) + if op.Rdy? && |s.ring| + |op.bytes| > 512 then |s.ring| + |op.bytes| - 512 else 0
    ensures op.Rdy? && |s.ring| + |op.bytes| > 512 ==> |Step(n, s, op).ring| == 512
  {
    hide Dropped, Offered, Kept, Store, GapTest;
    if op.Rdy? {
      PutSnoc(s.puts, RingPut(s.ring, op.bytes));
    }
  }

  /** Bytes are dropped exactly in runs that announce more than a ring of 512 bytes has room for. */
  lemma {:induction false} DroppedIff(n: BufferSize, ops: seq<Op>)
    ensures Dropped(Run(n, Boot(), ops).puts) > 0 <==> exists k :: OverflowsAt(n, ops, k)
    decreases ops
  {
    hide Run, Dropped, OverflowsAt;
    if ops == [] {
      NothingDropped(n);
    } else {
      var m := |ops| - 1;
      DroppedIff(n, ops[..m]);
      LastDrops(n, ops, m);
      forall k | k != m ensures OverflowsAt(n, ops, k) <==> OverflowsAt(n, ops[..m], k) {
        SameOverflow(n, ops, m, k);
      }
      assert !OverflowsAt(n, ops[..m], m) by {
        NotPast(n, ops[..m], m);
      }
    }
  }

  lemma {:induction false} LastDrops(n: BufferSize, ops: seq<Op>, m: nat)
    requires |ops| == m + 1
    ensures Dropped(Run(n, Boot(), ops).puts) >= Dropped(Run(n, Boot(), ops[..m]).puts)
    ensures OverflowsAt(n, ops, m) <==> Dropped(Run(n, Boot(), ops).puts) > Dropped(Run(n, Boot(), ops[..m]).puts)
  {
    StepDrops(n, Run(n, Boot(), ops[..m]), ops[m]);
    assert ops[..m + 1] == ops;
    assert Run(n, Boot(), ops) == Step(n, Run(n, Boot(), ops[..m]), ops[m]);
    hide Step, Dropped, Run;
  }

  lemma {:induction false} NotPast(n: BufferSize, ops: seq<Op>, k: int)
    requires k >= |ops|
    ensures !OverflowsAt(n, ops, k)
  {}

  lemma {:induction false} NothingDropped(n: BufferSize)
    ensures Dropped(Run(n, Boot(), []).puts) == 0 && forall k :: !OverflowsAt(n, [], k)
  {}

  lemma {:induction false} SameOverflow(n: BufferSize, ops: seq<Op>, m: nat, k: int)
    requires |ops| == m + 1 && k != m
    ensures OverflowsAt(n, ops, k) <==> OverflowsAt(n, ops[..m], k)
  {
    hide Run;
    if 0 <= k < m {
      assert ops[..m][..k] == ops[..k] && ops[..m][..k + 1] == ops[..k + 1];
    }
  }

  /**
   Conservation and order: every announced byte is in exactly one place, nothing is reordered, and bytes
   are lost at the ring only by announcements that find less room than they need, and fill it.
   */
  lemma Conservation(n: BufferSize, ops: seq<Op>)
    ensures var t := Run(n, Boot(), ops);
            && Announced(ops) == Offered(t.puts)
            && Kept(t.puts) == Gone(t.rx.log) + t.rx.frame + t.tmp + t.ring
            && |Announced(ops)| == Count(t.rx.log, Submitted) + Count(t.rx.log, Rejected) + Count(t.rx.log, Overflowed)
                                   + |t.rx.frame| + |t.tmp| + |t.ring| + Dropped(t.puts)
            && (Dropped(t.puts) > 0 <==> exists k :: OverflowsAt(n, ops, k))
  {
    var t := Run(n, Boot(), ops);
    DroppedIff(n, ops);
    BootInv(n);
    RunKeepsInv(n, Boot(), ops);
    RunOffers(n, Boot(), ops);
    OfferedSize(t.puts);
    GoneSize(t.rx.log);
    NoneTooShort(n, t.rx.log);
  }

  /** The frame buffer is at most n bytes, always the last bytes read, cut where a chunk began. */
  lemma FrameIsSuffixOfRead(n: BufferSize, ops: seq<Op>)
    ensures var t := Run(n, Boot(), ops);
            && |t.rx.frame| <= n
            && (exists k :: 0 <= k <= |t.chunks| && t.rx.frame == Flatten(t.chunks[k..]))
            && Flatten(t.chunks) + t.tmp + t.ring == Kept(t.puts)
  {
    var t := Run(n, Boot(), ops);
    BootInv(n);
    RunKeepsInv(n, Boot(), ops);
    FlattenConcat(t.chunks[..t.open], t.chunks[t.open..]);
    assert t.chunks == t.chunks[..t.open] + t.chunks[t.open..];
  }

  lemma {:induction false} AdusFit(n: BufferSize, log: seq<Cut>, i: int)
    requires CutsOk(n, log)
    requires 0 <= i < |Adus(log)|
    ensures |Adus(log)[i].data| <= n - 4
  {
    var k := |log| - 1;
    assert CutOk(n, log[k]);
    if i < |Adus(log[..k])| {
      AdusFit(n, log[..k], i);
    }
  }

  /** The payload copy of every submitted ADU fits the n - 4 bytes of its data array. */
  lemma PayloadFits(n: BufferSize, ops: seq<Op>, i: int)
    requires 0 <= i < |Adus(Run(n, Boot(), ops).rx.log)|
    ensures |Adus(Run(n, Boot(), ops).rx.log)[i].data| <= n - 4
  {
    BootInv(n);
    RunKeepsInv(n, Boot(), ops);
    AdusFit(n, Run(n, Boot(), ops).rx.log, i);
  }

  // ---- when the ring cannot overflow

  lemma RoomStep(n: BufferSize, s: Pipe, op: Op)
    requires Sized(n, s) && |s.ring| + (if op.Rdy? then |op.bytes| else 0) <= RING_SIZE
    ensures var t := Step(n, s, op);
            Dropped(t.puts) == Dropped(s.puts) && |t.ring| <= |s.ring| + if op.Rdy? then |op.bytes| else 0
  {
    hide Dropped, Offered, Kept, Store, GapTest;
    if op.Rdy? {
      PutSnoc(s.puts, RingPut(s.ring, op.bytes));
    }
  }

  lemma {:induction false} RoomEnough(n: BufferSize, s: Pipe, ops: seq<Op>)
    requires Sized(n, s) && |s.ring| + |Announced(ops)| <= 512
    ensures Dropped(Run(n, s, ops).puts) == Dropped(s.puts)
    ensures |Run(n, s, ops).ring| <= |s.ring| + |Announced(ops)|
    decreases ops
  {
    hide Dropped, Step;
    if ops != [] {
      var k := |ops| - 1;
      RoomEnough(n, s, ops[..k]);
      RoomStep(n, Run(n, s, ops[..k]), ops[k]);
    }
  }

  lemma RunNothing(n: BufferSize, s: Pipe)
    requires Sized(n, s)
    ensures Run(n, s, []) == s
  {}

  function Join(segs: seq<seq<Op>>): seq<Op> {
    if segs == [] then [] else Join(segs[..|segs| - 1]) + segs[|segs| - 1]
  }

  /** Stretches that each begin with an empty ring and announce at most its capacity lose nothing. */
  lemma {:induction false} NoDropBetweenDrains(n: BufferSize, s: Pipe, segs: seq<seq<Op>>)
    requires Sized(n, s)
    requires forall i :: 0 <= i < |segs| ==> Run(n, s, Join(segs[..i])).ring == [] && |Announced(segs[i])| <= 512
    ensures Dropped(Run(n, s, Join(segs)).puts) == Dropped(s.puts)
    decreases segs
  {
    hide Run, Announced, Dropped;
    if segs != [] {
      var k := |segs| - 1;
      forall i | 0 <= i < k ensures Run(n, s, Join(segs[..k][..i])).ring == [] && |Announced(segs[..k][i])| <= 512 {
        assert segs[..k][..i] == segs[..i];
      }
      NoDropBetweenDrains(n, s, segs[..k]);
      RoomEnough(n, Run(n, s, Join(segs[..k])), segs[k]);
      RunConcat(n, s, Join(segs[..k]), segs[k]);
    } else {
      RunNothing(n, s);
    }
  }
}
