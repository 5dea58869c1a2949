/**
 The read loop of rs485_read seen from the ring: announcements by the callback and ring_buf_get calls
 of the loop, in any order. It specifies the loop, and for reads of 64 bytes it is the receive path.
 */
module TimedRead {
  import opened Bytes
  import opened RxPipeline

  /** The ring, what the read has collected, and what the callback has put meanwhile. */
  datatype Reading = Reading(ring: seq<Byte>, got: seq<Byte>, puts: seq<Put>)

  predicate Fits(max: nat, r: Reading) { |r.ring| <= RING_SIZE && |r.got| <= max }

  predicate Reads(ops: seq<Op>) { forall i :: 0 <= i < |ops| ==> ops[i].Rdy? || ops[i].Get? }

  function ReadStep(max: nat, r: Reading, op: Op): (t: Reading)
    requires Fits(max, r)
    ensures Fits(max, t)
  {
    match op
    case Rdy(bytes) =>
      var p := RingPut(r.ring, bytes);
      Reading(r.ring + p.kept, r.got, r.puts + [p])
    case Get =>
      var k := RingGet(r.ring, |r.got|, max);
      Reading(r.ring[k..], r.got + r.ring[..k], r.puts)
    case _ => r
  }

  function ReadRun(max: nat, r: Reading, ops: seq<Op>): (t: Reading)
    requires Fits(max, r)
    ensures Fits(max, t)
    decreases ops
  {
    if ops == [] then r else ReadStep(max, ReadRun(max, r, ops[..|ops| - 1]), ops[|ops| - 1])
  }

  lemma ReadRunSnoc(max: nat, r: Reading, ops: seq<Op>, op: Op)
    requires Fits(max, r)
    ensures ReadRun(max, r, ops + [op]) == ReadStep(max, ReadRun(max, r, ops), op)
  {
    assert (ops + [op])[..|ops|] == ops;
  }

  lemma {:induction false} ReadRunConcat(max: nat, r: Reading, a: seq<Op>, b: seq<Op>)
    requires Fits(max, r)
    ensures ReadRun(max, r, a + b) == ReadRun(max, ReadRun(max, r, a), b)
    decreases b
  {
    if b == [] {
      assert a + b == a;
    } else {
      var k := |b| - 1;
      assert (a + b)[..|a| + k] == a + b[..k];
      ReadRunConcat(max, r, a, b[..k]);
    }
  }

  /**
   Whatever arrives during the read, what it returns and what stays in the ring are together, in
   order and without a gap, what was in the ring and what the ring took meanwhile.
   */
  lemma {:induction false} FifoPrefix(max: nat, ring: seq<Byte>, ops: seq<Op>)
    requires |ring| <= RING_SIZE
    ensures var t := ReadRun(max, Reading(ring, [], []), ops);
            t.got + t.ring == ring + Kept(t.puts) && |t.got| <= max
    decreases ops
  {
    var r := Reading(ring, [], []);
    if ops == [] {
      assert [] + ring == ring + [];
    } else {
      var k := |ops| - 1;
      FifoPrefix(max, ring, ops[..k]);
      FifoStep(max, ring, ReadRun(max, r, ops[..k]), ops[k]);
    }
  }

  lemma FifoStep(max: nat, ring: seq<Byte>, r: Reading, op: Op)
    requires Fits(max, r) && r.got + r.ring == ring + Kept(r.puts)
    ensures var t := ReadStep(max, r, op); t.got + t.ring == ring + Kept(t.puts)
  {
    match op
    case Rdy(bytes) =>
      var p := RingPut(r.ring, bytes);
      PutSnoc(r.puts, p);
      assert r.got + (r.ring + p.kept) == (r.got + r.ring) + p.kept;
      assert ring + (Kept(r.puts) + p.kept) == (ring + Kept(r.puts)) + p.kept;
    case Get =>
      var k := RingGet(r.ring, |r.got|, max);
      assert r.ring == r.ring[..k] + r.ring[k..];
      assert (r.got + r.ring[..k]) + r.ring[k..] == r.got + r.ring;
    case _ =>
  }

  /** The receive path s with the ring and the read in progress of r, and r's puts after p. */
  predicate Matches(s: Pipe, r: Reading, s0: Pipe) {
    s == s0.(ring := r.ring, tmp := r.got, puts := s0.puts + r.puts)
  }

  /** A read of 64 bytes does to the receive path what its steps say, and nothing else. */
  lemma {:induction false} ReadIsPipe(n: BufferSize, s0: Pipe, ops: seq<Op>)
    requires Sized(n, s0) && Reads(ops)
    ensures Matches(Run(n, s0, ops), ReadRun(64, Reading(s0.ring, s0.tmp, []), ops), s0)
    decreases ops
  {
    if ops == [] {
      assert s0.puts + [] == s0.puts;
    } else {
      var k := |ops| - 1;
      ReadIsPipe(n, s0, ops[..k]);
      var r := ReadRun(POLL_BUF, Reading(s0.ring, s0.tmp, []), ops[..k]);
      MatchStep(n, s0, Run(n, s0, ops[..k]), r, ops[k]);
    }
  }

  lemma MatchStep(n: BufferSize, s0: Pipe, s: Pipe, r: Reading, op: Op)
    requires Sized(n, s) && Fits(POLL_BUF, r) && Matches(s, r, s0) && (op.Rdy? || op.Get?)
    ensures Matches(Step(n, s, op), ReadStep(POLL_BUF, r, op), s0)
  {
    if op.Rdy? {
      var p := RingPut(s.ring, op.bytes);
      assert (s0.puts + r.puts) + [p] == s0.puts + (r.puts + [p]);
    }
  }
}
