/**
 The two receive buffers of usart_service.c. The driver fills one, asks for the next one, moves on
 to it, and may be disabled at any time; the callback answers with rx_buf[rx_buf_idx] and flips the
 index, and restarts reception into rx_buf[0] without touching the index.
 */
module RxBuffers {
  import opened Bytes

  /** filling: the buffer the DMA writes to; next: the one handed over for later; idx: rx_buf_idx. */
  datatype Dma = Dma(filling: Option<int>, next: Option<int>, idx: int)

  datatype Event =
    | BufRequest             // UART_RX_BUF_REQUEST
    | Switch                 // the driver moves on to the buffer it was given
    | Disabled(restart: int) // UART_RX_DISABLED; restart is what uart_rx_enable returned

  predicate Enabled(s: Dma, e: Event) {
    match e
    case BufRequest => s.filling.Some? && s.next == None
    case Switch => s.filling.Some? && s.next.Some?
    case Disabled(_) => s.filling.Some?
  }

  function Apply(s: Dma, e: Event): Dma
    requires Enabled(s, e)
  {
    match e
    case BufRequest => s.(next := Some(s.idx), idx := 1 - s.idx)
    case Switch => s.(filling := s.next, next := None)
    case Disabled(restart) => s.(filling := if restart == 0 then Some(0) else None, next := None)
  }

  predicate Legal(s: Dma, es: seq<Event>)
    decreases es, 0
  {
    es == [] || (Legal(s, es[..|es| - 1]) && Enabled(Run(s, es[..|es| - 1]), es[|es| - 1]))
  }

  function Run(s: Dma, es: seq<Event>): Dma
    requires Legal(s, es)
    decreases es, 1
  {
    if es == [] then s else Apply(Run(s, es[..|es| - 1]), es[|es| - 1])
  }

  /** rs485_init has enabled reception into rx_buf[0] with rx_buf_idx at its initial 1. */
  function Boot(): Dma { Dma(Some(0), None, 1) }

  lemma RunSnoc(s: Dma, es: seq<Event>, e: Event)
    requires Legal(s, es) && Enabled(Run(s, es), e)
    ensures Legal(s, es + [e]) && Run(s, es + [e]) == Apply(Run(s, es), e)
  {
    assert (es + [e])[..|es|] == es;
  }

  /** The buffer the callback would offer now is not the one being filled. */
  predicate OfferSafe(s: Dma) { s.filling != Some(s.idx) }

  /** The index points away from the buffer in use, or at it once the other one has been offered. */
  predicate Aligned(s: Dma) {
    && s.idx in {0, 1}
    && match (s.filling, s.next)
       case (None, _) => true
       case (Some(f), None) => f == 1 - s.idx
       case (Some(f), Some(g)) => f == s.idx && g == 1 - s.idx
  }

  lemma StepKeepsAligned(s: Dma, e: Event)
    requires Aligned(s) && Enabled(s, e)
    requires e.Disabled? && e.restart == 0 ==> s.idx == 1
    ensures Aligned(Apply(s, e))
  {}

  /** A restart re-establishes the invariant exactly when the index is 1 at that moment. */
  lemma RestartAlignedIff(s: Dma)
    requires s.idx in {0, 1} && s.filling.Some?
    ensures Aligned(Apply(s, Disabled(0))) <==> s.idx == 1
  {}

  /** How many buffers have been requested. */
  function Requests(es: seq<Event>): nat
    decreases es
  {
    if es == [] then 0 else Requests(es[..|es| - 1]) + if es[|es| - 1].BufRequest? then 1 else 0
  }

  lemma {:induction false} IndexIsParity(es: seq<Event>)
    requires Legal(Boot(), es)
    ensures Run(Boot(), es).idx == if Requests(es) % 2 == 0 then 1 else 0
    decreases es
  {
    if es != [] {
      IndexIsParity(es[..|es| - 1]);
    }
  }

  // ---- the exact condition for a safe run

  /** Every request of the run was answered with a buffer not being filled. */
  predicate SafeRun(es: seq<Event>)
    requires Legal(Boot(), es)
    decreases es
  {
    es == [] ||
    var init := es[..|es| - 1];
    SafeRun(init) && (es[|es| - 1].BufRequest? ==> OfferSafe(Run(Boot(), init)))
  }

  /** Reception was last restarted after an odd number of requests, and none came since. */
  predicate AfterOddRestart(es: seq<Event>)
    decreases es
  {
    es != [] &&
    var init := es[..|es| - 1];
    match es[|es| - 1]
    case BufRequest => false
    case Switch => AfterOddRestart(init)
    case Disabled(restart) => restart == 0 && Requests(init) % 2 == 1
  }

  /** No request directly follows a restart made after an odd number of requests. */
  predicate NoOddRestart(es: seq<Event>)
    decreases es
  {
    es == [] ||
    var init := es[..|es| - 1];
    NoOddRestart(init) && (es[|es| - 1].BufRequest? ==> !AfterOddRestart(init))
  }

  /** Where a run can stand: aligned, restarted askew, or past the one bad offer that follows. */
  predicate Tracked(es: seq<Event>)
    requires Legal(Boot(), es)
  {
    var s := Run(Boot(), es);
    if AfterOddRestart(es) then s == Dma(Some(0), None, 0)
    else Aligned(s) || s == Dma(Some(0), Some(0), 1)
  }

  lemma {:induction false} RunTracked(es: seq<Event>)
    requires Legal(Boot(), es)
    ensures Tracked(es)
    decreases es
  {
    if es != [] {
      var init := es[..|es| - 1];
      RunTracked(init);
      IndexIsParity(init);
      IndexIsParity(es);
    }
  }

  /**
   Over every run from the initial enable: no buffer is offered while it is being filled if and
   only if no request comes straight after a restart that followed an odd number of requests.
   */
  lemma {:induction false} SafeRunIff(es: seq<Event>)
    requires Legal(Boot(), es)
    ensures SafeRun(es) <==> NoOddRestart(es)
    decreases es
  {
    if es != [] {
      SafeRunIff(es[..|es| - 1]);
      RunTracked(es[..|es| - 1]);
    }
  }

  /** Disabled and restarted after an odd number of requests, every run goes on to a bad offer. */
  lemma OddRestartUnsafe(es: seq<Event>)
    requires Legal(Boot(), es) && Requests(es) % 2 == 1 && Run(Boot(), es).filling.Some?
    ensures Legal(Boot(), es + [Disabled(0)] + [BufRequest]) && !SafeRun(es + [Disabled(0)] + [BufRequest])
  {
    var restarted := es + [Disabled(0)];
    RunSnoc(Boot(), es, Disabled(0));
    RunSnoc(Boot(), restarted, BufRequest);
    IndexIsParity(es);
    assert (restarted + [BufRequest])[..|restarted|] == restarted;
  }

  /** The shortest such run: one request, then a restart, then the next request. */
  lemma UnsafeRun()
    ensures var es := [BufRequest, Disabled(0), BufRequest];
            Legal(Boot(), es) && !SafeRun(es)
  {
    RunSnoc(Boot(), [], BufRequest);
    assert [] + [BufRequest] == [BufRequest];
    assert [BufRequest][..0] == [];
    OddRestartUnsafe([BufRequest]);
    assert [BufRequest] + [Disabled(0)] + [BufRequest] == [BufRequest, Disabled(0), BufRequest];
  }

  /** In particular a run that is never disabled is safe. */
  lemma {:induction false} UndisturbedRunSafe(es: seq<Event>)
    requires Legal(Boot(), es) && forall i :: 0 <= i < |es| ==> !es[i].Disabled?
    ensures SafeRun(es)
    decreases es
  {
    SafeRunIff(es);
    NeverDisabled(es);
  }

  lemma {:induction false} NeverDisabled(es: seq<Event>)
    requires forall i :: 0 <= i < |es| ==> !es[i].Disabled?
    ensures NoOddRestart(es) && !AfterOddRestart(es)
    decreases es
  {
    if es != [] {
      NeverDisabled(es[..|es| - 1]);
    }
  }
}
