/**
 The transmit side of usart_service.c as a transition system: one writer inside rs485_write, and
 the UART callback, which can run between any two of the writer's steps.
 The driver's side of the bargain: one TX_DONE or TX_ABORTED for each accepted uart_tx, none else.
 */
module HalfDuplex {
  import opened Bytes

  const TX_BUF_SIZE: nat := 256

  /** Where the writer stands in rs485_write, and with what data. */
  datatype Pc =
    | Outside
    | Copying(data: seq<Byte>, i: nat)
    | Raised(data: seq<Byte>)
    | Refused
    | Waiting(data: seq<Byte>)

  /**
   The shared state. out is the length of the transfer the driver is busy with, asked the data of
   the write that started it. wire lists what each completed transfer put on the line, taken from
   tx_buf as it completes; done lists the data those writes were called with.
   */
  datatype Line = Line(pc: Pc, txBuf: seq<Byte>, de: bool, sem: nat, out: Option<nat>,
                       asked: seq<Byte>, wire: seq<seq<Byte>>, done: seq<seq<Byte>>)

  datatype Event =
    | Call(data: seq<Byte>)  // rs485_write is entered with at most TX_BUF_SIZE bytes
    | CopyByte               // one byte of the memcpy into tx_buf
    | RaiseDe                // gpio_pin_set_dt(&de_gpio, 1)
    | Accept                 // uart_tx returns 0
    | Refuse                 // uart_tx returns an error
    | LowerDe                // gpio_pin_set_dt(&de_gpio, 0), and the error is returned
    | TakeSem                // k_sem_take comes back, and rs485_write returns 0
    | TxDone                 // the callback, after the whole transfer
    | TxAborted              // the callback, after part of it

  predicate Enabled(s: Line, e: Event) {
    match e
    case Call(data) => s.pc == Outside && |data| <= TX_BUF_SIZE
    case CopyByte => s.pc.Copying? && s.pc.i < |s.pc.data| && s.pc.i < |s.txBuf|
    case RaiseDe => s.pc.Copying? && s.pc.i == |s.pc.data|
    case Accept => s.pc.Raised?
    case Refuse => s.pc.Raised?
    case LowerDe => s.pc.Refused?
    case TakeSem => s.pc.Waiting? && s.sem > 0
    case TxDone => s.out.Some?
    case TxAborted => s.out.Some?
  }

  function Apply(s: Line, e: Event): Line
    requires Enabled(s, e)
  {
    match e
    case Call(data) => s.(pc := Copying(data, 0))
    case CopyByte => s.(txBuf := s.txBuf[s.pc.i := s.pc.data[s.pc.i]], pc := Copying(s.pc.data, s.pc.i + 1))
    case RaiseDe => s.(de := true, pc := Raised(s.pc.data))
    case Accept => s.(out := Some(|s.pc.data|), asked := s.pc.data, pc := Waiting(s.pc.data))
    case Refuse => s.(pc := Refused)
    case LowerDe => s.(de := false, pc := Outside)
    case TakeSem => s.(sem := s.sem - 1, pc := Outside)
    case TxDone => s.(out := None, de := false, sem := 1,
                      wire := s.wire + [s.txBuf[..Min(s.out.value, |s.txBuf|)]], done := s.done + [s.asked])
    case TxAborted => s.(out := None, de := false, sem := 1)
  }

  /** Every event of the list is possible when its turn comes. */
  predicate Legal(s: Line, es: seq<Event>)
    decreases es, 0
  {
    es == [] || (Legal(s, es[..|es| - 1]) && Enabled(Run(s, es[..|es| - 1]), es[|es| - 1]))
  }

  function Run(s: Line, es: seq<Event>): Line
    requires Legal(s, es)
    decreases es, 1
  {
    if es == [] then s else Apply(Run(s, es[..|es| - 1]), es[|es| - 1])
  }

  /** After rs485_init: DE low, the semaphore at 0 of 1, tx_buf as it happens to be. */
  predicate Booted(s: Line) {
    && s.pc == Outside && |s.txBuf| == TX_BUF_SIZE
    && !s.de && s.sem == 0 && s.out == None && s.wire == s.done
  }

  lemma RunSnoc(s: Line, es: seq<Event>, e: Event)
    requires Legal(s, es) && Enabled(Run(s, es), e)
    ensures Legal(s, es + [e]) && Run(s, es + [e]) == Apply(Run(s, es), e)
  {
    assert (es + [e])[..|es|] == es;
  }

  // ---- safety

  /** tx_buf holds the data of the write from its first byte on, as far as it has been copied. */
  predicate Loaded(s: Line, data: seq<Byte>, k: nat) {
    k <= |data| <= |s.txBuf| && s.txBuf[..k] == data[..k]
  }

  predicate Inv(s: Line) {
    && |s.txBuf| == TX_BUF_SIZE
    && s.wire == s.done
    && match s.pc
       case Outside => !s.de && s.sem == 0 && s.out == None
       case Copying(data, i) => !s.de && s.sem == 0 && s.out == None && Loaded(s, data, i)
       case Raised(data) => s.de && s.sem == 0 && s.out == None && Loaded(s, data, |data|)
       case Refused => s.de && s.sem == 0 && s.out == None
       case Waiting(data) =>
         || (s.de && s.sem == 0 && s.out == Some(|data|) && s.asked == data && Loaded(s, data, |data|))
         || (!s.de && s.sem == 1 && s.out == None)
  }

  lemma EventKeepsInv(s: Line, e: Event)
    requires Inv(s) && Enabled(s, e)
    ensures Inv(Apply(s, e))
  {
    match e
    case CopyByte =>
      var t := Apply(s, e);
      assert t.txBuf[..s.pc.i + 1] == s.txBuf[..s.pc.i] + [s.pc.data[s.pc.i]];
      assert s.pc.data[..s.pc.i + 1] == s.pc.data[..s.pc.i] + [s.pc.data[s.pc.i]];
    case TxDone =>
      assert s.pc.data[..|s.pc.data|] == s.pc.data;
    case _ =>
  }

  lemma {:induction false} RunKeepsInv(s: Line, es: seq<Event>)
    requires Booted(s) && Legal(s, es)
    ensures Inv(Run(s, es))
    decreases es
  {
    if es != [] {
      RunKeepsInv(s, es[..|es| - 1]);
      EventKeepsInv(Run(s, es[..|es| - 1]), es[|es| - 1]);
    }
  }

  /**
   Over every interleaving: outside rs485_write, and while it copies, the driver is off the line; DE is
   high throughout every transfer; a waiting writer is either owed a callback or already released; and what went
   out is, transfer by transfer, exactly the data the writer was called with.
   */
  lemma HalfDuplexSafety(s: Line, es: seq<Event>)
    requires Booted(s) && Legal(s, es)
    ensures var t := Run(s, es);
            && (t.pc == Outside ==> !t.de && t.sem == 0 && t.out == None)
            && (t.out.Some? ==> t.de && t.pc.Waiting?)
            && (t.pc.Copying? ==> !t.de)
            && (t.pc.Waiting? ==> (t.out.Some? <==> t.sem == 0))
            && t.sem <= 1
            && t.wire == t.done
  {
    RunKeepsInv(s, es);
  }

  /** No event that can happen during a transfer touches tx_buf or the DE line, except its end. */
  lemma TransferUndisturbed(s: Line, es: seq<Event>, e: Event)
    requires Booted(s) && Legal(s, es) && Run(s, es).out.Some? && Enabled(Run(s, es), e)
    ensures e.TxDone? || e.TxAborted?
    ensures Apply(Run(s, es), e).txBuf == Run(s, es).txBuf
    ensures Apply(Run(s, es), e).out == None && !Apply(Run(s, es), e).de && Apply(Run(s, es), e).sem == 1
  {
    RunKeepsInv(s, es);
  }
}
