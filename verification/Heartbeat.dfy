/** The heartbeat of modbus_service_tick: how many beats a run of ticks makes, and when. */
module Heartbeat {

  const BEAT_MS: int := 1000

  /** How often input_reg[0] was incremented, and hb_last_ms. */
  datatype Beat = Beat(count: nat, lastMs: int)

  function Tick(b: Beat, now: int): Beat {
    if now - b.lastMs >= BEAT_MS then Beat(b.count + 1, now) else b
  }

  /** The heartbeat after ticks that read the clock at the given times. */
  function Ticks(b: Beat, readings: seq<int>): Beat
    decreases readings
  {
    if readings == [] then b else Tick(Ticks(b, readings[..|readings| - 1]), readings[|readings| - 1])
  }

  lemma TicksSnoc(b: Beat, readings: seq<int>, now: int)
    ensures Ticks(b, readings + [now]) == Tick(Ticks(b, readings), now)
  {
    assert (readings + [now])[..|readings|] == readings;
  }

  function Last(start: int, readings: seq<int>): int { if readings == [] then start else readings[|readings| - 1] }

  /** The clock never runs backwards, and consecutive readings are at most d ms apart. */
  predicate Paced(start: int, readings: seq<int>, d: nat)
    decreases readings
  {
    readings == [] ||
    var init := readings[..|readings| - 1];
    Paced(start, init, d) && Last(start, init) <= Last(start, readings) <= Last(start, init) + d
  }

  /** b beats take at least b seconds, and at most b times a second and the pace, less one ms each. */
  lemma {:induction false} HeartbeatBound(start: int, readings: seq<int>, d: nat)
    requires Paced(start, readings, d)
    ensures var b := Ticks(Beat(0, start), readings);
            && 1000 * b.count <= b.lastMs - start <= (999 + d) * b.count
            && 0 <= Last(start, readings) - b.lastMs < 1000
    decreases readings
  {
    if readings != [] {
      var init := readings[..|readings| - 1];
      HeartbeatBound(start, init, d);
      var b := Ticks(Beat(0, start), init);
      assert (999 + d) * (b.count + 1) == (999 + d) * b.count + (999 + d);
    }
  }

  /** Seen from outside: how many beats the time since start allows and forces. */
  lemma BeatsInTime(start: int, readings: seq<int>, d: nat)
    requires Paced(start, readings, d)
    ensures var b := Ticks(Beat(0, start), readings).count;
            var elapsed := Last(start, readings) - start;
            1000 * b <= elapsed < (999 + d) * b + 1000
  {
    HeartbeatBound(start, readings, d);
  }
}
