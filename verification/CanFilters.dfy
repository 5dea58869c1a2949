/**
 can_service.c: changing the receive filters while frames keep arriving. Before every driver call the
 agenda may deliver frames; the driver queues those that match an installed filter, while there is room.
 */
module CanFilters {
  import opened Bytes
  import opened Errno

  const MSGQ_LEN: nat := 16
  const STD_ID_MASK: nat := 0x7FF
  const EXT_ID_MASK: nat := 0x1FFF_FFFF

  /** How long a read waits: not at all, or while the given number of further arrivals go by. */
  datatype Wait = NoWait | Within(rounds: nat)

  datatype Frame = Frame(id: nat, ide: bool, data: seq<Byte>)

  datatype Filter = Filter(id: nat, mask: nat, ide: bool)

  function Shifted(v: nat, i: nat): nat
    decreases i
  {
    if i == 0 then v else Shifted(v / 2, i - 1)
  }

  /** (v >> i) & 1. */
  predicate BitAt(v: nat, i: nat) { Shifted(v, i) % 2 == 1 }

  /** Same kind of identifier, and equal on the bits of the mask. */
  predicate Matches(f: Frame, g: Filter) {
    f.ide == g.ide && forall i: nat :: i < 32 && BitAt(g.mask, i) ==> BitAt(f.id, i) == BitAt(g.id, i)
  }

  predicate Accepted(f: Frame, table: map<int, Filter>) {
    exists k :: k in table && Matches(f, table[k])
  }

  predicate AllAccepted(q: seq<Frame>, table: map<int, Filter>) {
    forall i :: 0 <= i < |q| ==> Accepted(q[i], table)
  }

  /** The driver's callback on arriving frames: those a filter matches are queued while there is room. */
  function Queued(q: seq<Frame>, frames: seq<Frame>, table: map<int, Filter>): seq<Frame>
    decreases frames
  {
    if frames == [] then q
    else
      var k := |frames| - 1;
      var r := Queued(q, frames[..k], table);
      if Accepted(frames[k], table) && |r| < MSGQ_LEN then r + [frames[k]] else r
  }

  /** What is queued into an empty queue by the first arrivals that queue anything, of at most k. */
  function FirstQueued(arrivals: seq<seq<Frame>>, k: nat, table: map<int, Filter>): seq<Frame> {
    if k == 0 || arrivals == [] then []
    else
      var q := Queued([], arrivals[0], table);
      if q != [] then q else FirstQueued(arrivals[1..], k - 1, table)
  }

  predicate NoneAccepted(frames: seq<Frame>, table: map<int, Filter>) {
    forall i :: 0 <= i < |frames| ==> !Accepted(frames[i], table)
  }

  /** An empty queue stays empty exactly if no filter matches any of the frames. */
  lemma {:induction false} QueuedNothingIff(frames: seq<Frame>, table: map<int, Filter>)
    ensures Queued([], frames, table) == [] <==> NoneAccepted(frames, table)
    decreases frames
  {
    if frames != [] {
      var k := |frames| - 1;
      QueuedNothingIff(frames[..k], table);
      assert NoneAccepted(frames, table) <==> NoneAccepted(frames[..k], table) && !Accepted(frames[k], table);
    }
  }

  const STD_ALL: Filter := Filter(0, 0, false)
  const EXT_ALL: Filter := Filter(0, 0, true)

  lemma {:induction false} NoBitsInZero(i: nat)
    ensures Shifted(0, i) == 0 && !BitAt(0, i)
    decreases i
  {
    if i > 0 {
      NoBitsInZero(i - 1);
    }
  }

  /** The two catch-all filters take every standard and every extended frame. */
  lemma CatchAll(f: Frame)
    ensures Matches(f, if f.ide then EXT_ALL else STD_ALL)
  {
    forall i: nat | i < 32 ensures !BitAt(0, i) { NoBitsInZero(i); }
  }

  function Two(n: nat): nat { if n == 0 then 1 else 2 * Two(n - 1) }

  lemma {:induction false} SomeBit(v: nat) returns (k: nat)
    requires v > 0
    ensures BitAt(v, k)
    decreases v
  {
    if v % 2 == 1 {
      k := 0;
    } else {
      var j := SomeBit(v / 2);
      k := j + 1;
    }
  }

  /** The numbers below 2 to the n are those without a bit from n up. */
  lemma {:induction false} BelowIff(v: nat, n: nat)
    ensures v < Two(n) <==> forall k: nat :: n <= k ==> !BitAt(v, k)
    decreases n
  {
    if n == 0 {
      if v > 0 {
        var k := SomeBit(v);
      } else {
        forall k: nat ensures !BitAt(v, k) { NoBitsInZero(k); }
      }
    } else {
      BelowIff(v / 2, n - 1);
      assert v < Two(n) <==> v / 2 < Two(n - 1);
      BitsMoveUp(v, n - 1);
    }
  }

  lemma {:induction false} BitsMoveUp(v: nat, n: nat)
    ensures (forall k: nat :: n + 1 <= k ==> !BitAt(v, k)) <==> (forall k: nat :: n <= k ==> !BitAt(v / 2, k))
  {
    if forall k: nat :: n + 1 <= k ==> !BitAt(v, k) {
      forall k: nat | n <= k ensures !BitAt(v / 2, k) {
        BitUp(v, k);
      }
    }
    if forall k: nat :: n <= k ==> !BitAt(v / 2, k) {
      forall k: nat | n + 1 <= k ensures !BitAt(v, k) {
        BitUp(v, k - 1);
      }
    }
  }

  lemma {:induction false} BitUp(v: nat, k: nat)
    ensures BitAt(v, k + 1) == BitAt(v / 2, k)
  {}

  /** The two limits of the identifiers and masks, by their bits. */
  lemma {:induction false} LimitIff(v: nat, ide: bool)
    ensures v <= (if ide then EXT_ID_MASK else STD_ID_MASK) <==> forall k: nat :: (if ide then 29 else 11) <= k ==> !BitAt(v, k)
  {
    Limits();
    BelowIff(v, if ide then 29 else 11);
  }

  lemma {:induction false} Limits()
    ensures Two(11) == STD_ID_MASK + 1 && Two(29) == EXT_ID_MASK + 1
  {
    assert Two(5) == 32;
    TwoAdd(5, 6);
    assert Two(6) == 64;
    TwoAdd(11, 6);
    TwoAdd(17, 6);
    TwoAdd(23, 6);
  }

  lemma {:induction false} TwoAdd(m: nat, n: nat)
    ensures Two(m + n) == Two(m) * Two(n)
    decreases n
  {
    if n > 0 {
      TwoAdd(m, n - 1);
    }
  }

  /** A single filter accepts what agrees with it on the bits of its mask. */
  lemma {:induction false} OneFilter(f: Frame, k: int, g: Filter)
    ensures Accepted(f, map[k := g]) <==> Matches(f, g)
  {
    hide Matches;
    assert k in map[k := g] && map[k := g][k] == g;
  }

  /** The first frame that reaches the empty queue is the first that some filter matches. */
  lemma {:induction false} QueuedHead(frames: seq<Frame>, table: map<int, Filter>) returns (j: nat)
    requires Queued([], frames, table) != []
    ensures j < |frames| && Queued([], frames, table)[0] == frames[j] && Accepted(frames[j], table)
    ensures NoneAccepted(frames[..j], table)
    decreases frames
  {
    hide Accepted;
    var k := |frames| - 1;
    var before := Queued([], frames[..k], table);
    if before == [] {
      QueuedNothingIff(frames[..k], table);
      j := k;
    } else {
      j := QueuedHead(frames[..k], table);
      assert frames[..k][..j] == frames[..j];
    }
  }

  /** The first frame of these arrivals that a filter matches, as the arrival and its place in it. */
  predicate FirstOf(arrivals: seq<seq<Frame>>, table: map<int, Filter>, i: int, j: int) {
    && 0 <= i < |arrivals| && 0 <= j < |arrivals[i]| && Accepted(arrivals[i][j], table)
    && NoneAccepted(arrivals[i][..j], table) && forall k :: 0 <= k < i ==> NoneAccepted(arrivals[k], table)
  }

  lemma {:induction false} FirstQueuedHead(arrivals: seq<seq<Frame>>, n: nat, table: map<int, Filter>) returns (i: nat, j: nat)
    requires FirstQueued(arrivals, n, table) != []
    ensures i < n && FirstOf(arrivals, table, i, j) && FirstQueued(arrivals, n, table)[0] == arrivals[i][j]
    decreases n
  {
    hide Accepted, Queued, NoneAccepted;
    if Queued([], arrivals[0], table) != [] {
      i := 0;
      j := QueuedHead(arrivals[0], table);
    } else {
      QueuedNothingIff(arrivals[0], table);
      i, j := FirstQueuedHead(arrivals[1..], n - 1, table);
      i := i + 1;
      assert forall k :: 1 <= k < i ==> arrivals[k] == arrivals[1..][k - 1];
    }
  }

  /** As long as fewer than sixteen frames wait, every frame that a filter matches is queued. */
  lemma {:induction false} QueuedWhileRoom(q: seq<Frame>, frames: seq<Frame>, table: map<int, Filter>)
    ensures q <= Queued(q, frames, table)
    ensures |Queued(q, frames, table)| < 16 ==>
              forall f :: f in frames && Accepted(f, table) ==> f in Queued(q, frames, table)[|q|..]
    decreases frames
  {
    hide Accepted;
    if frames != [] {
      var k := |frames| - 1;
      QueuedWhileRoom(q, frames[..k], table);
      var before, after := Queued(q, frames[..k], table), Queued(q, frames, table);
      if |after| < 16 && after != before {
        assert after[|q|..] == before[|q|..] + [frames[k]];
      }
      assert forall f :: f in frames ==> f in frames[..k] || f == frames[k];
    }
  }

  lemma MoreFiltersAcceptMore(q: seq<Frame>, table: map<int, Filter>, id: int, g: Filter)
    requires AllAccepted(q, table) && id !in table
    ensures AllAccepted(q, table[id := g])
  {
    forall i | 0 <= i < |q| ensures Accepted(q[i], table[id := g]) {
      assert Accepted(q[i], table);
      var k :| k in table && Matches(q[i], table[k]);
      assert k in table[id := g] && table[id := g][k] == table[k];
    }
  }

  class CanService {
    var stdId: int
    var extId: int
    // the driver's filters and the queue they feed, and what is still to arrive
    var table: map<int, Filter>
    var msgq: seq<Frame>
    var agenda: seq<seq<Frame>>

    /** The identifiers the service remembers. */
    function Tracked(): set<int>
      reads this
    {
      (if stdId >= 0 then {stdId} else {}) + (if extId >= 0 then {extId} else {})
    }

    /** The remembered filters are exactly the installed ones, one of each kind. */
    predicate Bookkept()
      reads this
    {
      && stdId >= -1 && extId >= -1 && (stdId >= 0 ==> stdId != extId)
      && table.Keys == Tracked()
      && (stdId >= 0 ==> !table[stdId].ide) && (extId >= 0 ==> table[extId].ide)
    }

    /** What holds between any two calls. */
    predicate Valid()
      reads this
    {
      Bookkept() && |msgq| <= MSGQ_LEN && AllAccepted(msgq, table)
    }

    constructor (agenda: seq<seq<Frame>>)
      ensures Valid() && table == map[] && msgq == [] && this.agenda == agenda
    {
      stdId, extId := -1, -1;
      table, msgq := map[], [];
      this.agenda := agenda;
    }

    /** Frames arrive before the next driver call. */
    method Arrivals()
      modifies this`msgq, this`agenda
      ensures agenda == if old(agenda) == [] then [] else old(agenda)[1..]
      ensures msgq == if old(agenda) == [] then old(msgq) else Queued(old(msgq), old(agenda)[0], table)
      ensures old(msgq) <= msgq
      ensures AllAccepted(msgq[|old(msgq)|..], table)
      ensures |old(msgq)| <= MSGQ_LEN ==> |msgq| <= MSGQ_LEN
      ensures AllAccepted(old(msgq), table) ==> AllAccepted(msgq, table)
      ensures table == map[] ==> msgq == old(msgq)
    {
      if agenda == [] {
        return;
      }
      var frames := agenda[0];
      agenda := agenda[1..];
      var i := 0;
      while i < |frames|
        invariant 0 <= i <= |frames| && agenda == old(agenda)[1..]
        invariant msgq == Queued(old(msgq), frames[..i], table)
        invariant old(msgq) <= msgq
        invariant AllAccepted(msgq[|old(msgq)|..], table)
        invariant |old(msgq)| <= MSGQ_LEN ==> |msgq| <= MSGQ_LEN
        invariant table == map[] ==> msgq == old(msgq)
      {
        assert frames[..i + 1][..i] == frames[..i];
        if Accepted(frames[i], table) && |msgq| < MSGQ_LEN {
          assert (msgq + [frames[i]])[|old(msgq)|..] == msgq[|old(msgq)|..] + [frames[i]];
          msgq := msgq + [frames[i]];
        }
        i := i + 1;
      }
      assert frames[..i] == frames;
      assert msgq == old(msgq) + msgq[|old(msgq)|..];
    }

    /** can_remove_rx_filter. */
    method Remove(id: int)
      modifies this`table, this`msgq, this`agenda
      ensures table == old(table) - {id}
      ensures |old(msgq)| <= MSGQ_LEN ==> |msgq| <= MSGQ_LEN
    {
      Arrivals();
      table := table - {id};
    }

    /** can_remove_all_filters. */
    method RemoveAllFilters()
      requires Bookkept() && |msgq| <= MSGQ_LEN
      modifies this
      ensures Bookkept() && table == map[] && stdId == -1 && extId == -1
    {
      if stdId >= 0 {
        Remove(stdId);
        stdId := -1;
      }
      if extId >= 0 {
        Remove(extId);
        extId := -1;
      }
      assert table.Keys == {};
    }

    /** k_msgq_purge, with no filter installed. */
    method Purge()
      requires Bookkept() && table == map[] && stdId == -1 && extId == -1
      modifies this`msgq, this`agenda
      ensures msgq == []
    {
      Arrivals();
      msgq := [];
    }

    /** can_add_rx_filter_msgq; answer is what the driver returns, a new identifier or an error. */
    method Add(g: Filter, answer: int) returns (ret: int)
      requires AllAccepted(msgq, table) && |msgq| <= MSGQ_LEN && (answer >= 0 ==> answer !in table)
      modifies this`table, this`msgq, this`agenda
      ensures ret == answer
      ensures table == if answer >= 0 then old(table)[answer := g] else old(table)
      ensures AllAccepted(msgq, table) && |msgq| <= MSGQ_LEN
      ensures old(msgq) <= msgq && (answer < 0 && old(table) == map[] ==> msgq == old(msgq))
    {
      Arrivals();
      if answer >= 0 {
        MoreFiltersAcceptMore(msgq, table, answer, g);
        table := table[answer := g];
      }
      ret := answer;
    }

    /** can_service_set_rx_filter_all, given the driver's answers to the two additions. */
    method SetRxFilterAll(stdAnswer: int, extAnswer: int) returns (ret: int)
      requires Valid() && (extAnswer >= 0 ==> extAnswer != stdAnswer)
      modifies this
      ensures Valid()
      ensures ret == if stdAnswer < 0 then stdAnswer else 0
      ensures stdAnswer < 0 ==> table == map[] && msgq == []
      ensures stdAnswer >= 0 && extAnswer < 0 ==> table == map[stdAnswer := STD_ALL]
      ensures stdAnswer >= 0 && extAnswer >= 0 ==> table == map[stdAnswer := STD_ALL, extAnswer := EXT_ALL]
      ensures stdAnswer >= 0 ==> forall f: Frame :: Accepted(f, table) <==> !f.ide || extAnswer >= 0
    {
      RemoveAllFilters();
      Purge();
      ret := Add(STD_ALL, stdAnswer);
      if ret < 0 {
        return;
      }
      stdId := ret;
      var extRet := Add(EXT_ALL, extAnswer);
      if extRet >= 0 {
        extId := extRet;
      }
      forall f: Frame ensures Accepted(f, table) <==> !f.ide || extAnswer >= 0 {
        CatchAll(f);
        assert stdAnswer in table && (extAnswer >= 0 ==> extAnswer in table);
      }
      return 0;
    }

    /** can_service_set_rx_filter, given the driver's answer to the addition. */
    method SetRxFilter(id: nat, mask: nat, ide: bool, answer: int) returns (ret: int)
      requires Valid()
      modifies this
      ensures Valid()
      ensures (exists k: nat :: (if ide then 29 else 11) <= k && (BitAt(id, k) || BitAt(mask, k))) ==>
                && ret == -EINVAL && table == old(table) && msgq == old(msgq)
                && stdId == old(stdId) && extId == old(extId)
      ensures (forall k: nat :: (if ide then 29 else 11) <= k ==> !BitAt(id, k) && !BitAt(mask, k)) ==>
                if answer < 0 then ret == answer && table == map[] && msgq == []
                else
                  && ret == 0 && table == map[answer := Filter(id, mask, ide)]
                  && stdId == (if ide then -1 else answer) && extId == (if ide then answer else -1)
      ensures (forall k: nat :: (if ide then 29 else 11) <= k ==> !BitAt(id, k) && !BitAt(mask, k)) && answer >= 0 ==>
                forall f: Frame :: Accepted(f, table) <==>
                  f.ide == ide && forall i: nat :: i < 32 && BitAt(mask, i) ==> BitAt(f.id, i) == BitAt(id, i)
    {
      LimitIff(id, ide);
      LimitIff(mask, ide);
      if ide {
        if id > EXT_ID_MASK || mask > EXT_ID_MASK {
          return -EINVAL;
        }
      } else {
        if id > STD_ID_MASK || mask > STD_ID_MASK {
          return -EINVAL;
        }
      }
      RemoveAllFilters();
      Purge();
      ret := Add(Filter(id, mask, ide), answer);
      if ret < 0 {
        return;
      }
      if ide {
        extId := ret;
      } else {
        stdId := ret;
      }
      forall f: Frame ensures Accepted(f, table) <==> Matches(f, Filter(id, mask, ide)) {
        OneFilter(f, answer, Filter(id, mask, ide));
      }
      return 0;
    }

    /** None of the next k arrivals holds a frame that a filter matches. */
    predicate NoneArrived(arrivals: seq<seq<Frame>>, k: nat)
      reads this`table
    {
      forall i :: 0 <= i < k && i < |arrivals| ==> NoneAccepted(arrivals[i], table)
    }

    /** The wait of k_msgq_get: the given number of arrivals go by, or fewer once there is a frame. */
    method WaitForFrame(rounds: nat)
      requires Valid() && rounds > 0
      modifies this`msgq, this`agenda
      ensures Valid()
      ensures msgq == if old(msgq) != [] && old(agenda) != [] then Queued(old(msgq), old(agenda)[0], table)
                      else if old(msgq) != [] then old(msgq) else FirstQueued(old(agenda), rounds, table)
      ensures old(msgq) <= msgq && (msgq == [] ==> NoneArrived(old(agenda), rounds))
    {
      hide Accepted, Queued, NoneAccepted;
      Arrivals();
      if old(msgq) == [] && old(agenda) != [] {
        QueuedNothingIff(old(agenda)[0], table);
      }
      var i := 1;
      while i < rounds && msgq == []
        invariant Valid() && old(msgq) <= msgq && 1 <= i <= rounds
        invariant agenda == old(agenda)[Min(i, |old(agenda)|)..]
        invariant msgq == [] ==> NoneArrived(old(agenda), i)
        invariant if old(msgq) != [] then msgq == if old(agenda) != [] then Queued(old(msgq), old(agenda)[0], table) else old(msgq)
                  else FirstQueued(old(agenda), rounds, table) == if msgq != [] then msgq else FirstQueued(agenda, rounds - i, table)
      {
        if agenda != [] {
          QueuedNothingIff(agenda[0], table);
        }
        Arrivals();
        i := i + 1;
      }
    }

    /** can_service_read; frame is false for a null pointer. */
    method Read(frame: bool, wait: Wait) returns (ret: int, got: Option<Frame>)
      requires Valid()
      modifies this`msgq, this`agenda
      ensures Valid()
      ensures ret == if !frame then -EINVAL else if got.Some? then 0 else if wait.NoWait? then -ENOMSG else -EAGAIN
      ensures got.Some? ==> Accepted(got.value, table)
      ensures frame && got == None ==> old(msgq) == [] && msgq == []
      ensures frame && got == None ==>
                forall i :: 0 <= i < |old(agenda)| && i <= (if wait.NoWait? then 0 else wait.rounds) ==>
                  forall f :: f in old(agenda)[i] ==> !Accepted(f, table)
      ensures frame && old(msgq) == [] && got.Some? ==>
                exists i, j :: FirstOf(old(agenda), table, i, j) && i <= (if wait.NoWait? then 0 else wait.rounds)
                               && got.value == old(agenda)[i][j]
      ensures frame && old(msgq) == [] ==>
                var q := FirstQueued(old(agenda), 1 + Rounds(wait), table);
                if q == [] then got == None else got == Some(q[0]) && msgq == q[1..]
      ensures frame && old(msgq) != [] ==> got == Some(old(msgq)[0]) && old(msgq)[1..] <= msgq
      ensures !frame ==> msgq == old(msgq)
    {
      if !frame {
        return -EINVAL, None;
      }
      WaitForFrame(1 + Rounds(wait));
      if old(msgq) == [] && msgq != [] {
        ghost var i, j := FirstQueuedHead(old(agenda), 1 + Rounds(wait), table);
      }
      if msgq == [] {
        return if wait.NoWait? then -ENOMSG else -EAGAIN, None;
      }
      got := Some(msgq[0]);
      msgq := msgq[1..];
      ret := 0;
    }
  }

  /** How many arrivals a read that finds the queue empty lets go by. */
  function Rounds(wait: Wait): nat {
    if wait.NoWait? then 0 else wait.rounds
  }
}
