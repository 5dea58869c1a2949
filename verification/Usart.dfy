/**
 usart_service.c: the RS485 link. The UART driver, the clock and the callback's arrival times come
 from an agenda: before every kernel call of the program the next interlude lets time pass and
 delivers the driver's events, so a proof about any agenda is one about any interleaving.
 */
module Usart {
  import opened Bytes
  import opened Errno
  import opened RxPipeline
  import opened TimedRead
  import Tx = HalfDuplex
  import Dma = RxBuffers

  datatype UartEvent =
    | TxDone
    | TxAborted
    | RxRdy(bytes: seq<Byte>)
    | RxBufRequest
    | RxSwitch                  // the driver moves on to the next buffer; the callback ignores it
    | RxDisabled(restart: int)  // restart is what uart_rx_enable returns to the callback

  /** What happens outside the program before its next kernel call. */
  datatype Interlude = Interlude(ms: nat, events: seq<UartEvent>)

  /** k_timeout_t; ms is what k_ticks_to_ms_floor64 makes of the ticks. */
  datatype Timeout = NoWait | Forever | Ticks(ms: int)

  const INT64_MAX: int := 0x7FFF_FFFF_FFFF_FFFF

  class Rs485 {
    var rxRing: seq<Byte>
    const txBuf: array<Byte>
    var rxBufIdx: int
    var txDoneSem: nat
    var de: bool
    // the driver: the length of the transfer under way, the buffer being filled, the one after it
    var out: Option<nat>
    var filling: Option<int>
    var next: Option<int>
    // the outside world
    var clock: nat
    var agenda: seq<Interlude>
    /** The interludes that are over, and the bytes UART_RX_RDY has announced in them. */
    ghost var past: seq<Interlude>
    ghost var heard: seq<Byte>
    // the history as runs of the two transition systems
    ghost var line: Tx.Line
    ghost var boot: Tx.Line
    ghost var txSteps: seq<Tx.Event>
    ghost var rxSteps: seq<Dma.Event>

    ghost predicate ValidTx()
      reads this`boot, this`txSteps, this`line, this`de, this`txDoneSem, this`out, txBuf
    {
      && Tx.Booted(boot) && Tx.Legal(boot, txSteps) && line == Tx.Run(boot, txSteps)
      && line.txBuf == txBuf[..] && line.de == de && line.sem == txDoneSem && line.out == out
    }

    ghost predicate ValidRx()
      reads this`rxRing, this`rxSteps, this`filling, this`next, this`rxBufIdx
    {
      && |rxRing| <= RING_SIZE
      && Dma.Legal(Dma.Boot(), rxSteps)
      && Dma.Run(Dma.Boot(), rxSteps) == Dma.Dma(filling, next, rxBufIdx)
    }

    /** What every single event keeps. */
    ghost predicate Steady()
      reads this`boot, this`txSteps, this`line, this`de, this`txDoneSem, this`out, txBuf
      reads this`rxRing, this`rxSteps, this`filling, this`next, this`rxBufIdx
    {
      ValidTx() && ValidRx()
    }

    /** The state of the receive buffers. */
    ghost function Rx(): Dma.Dma
      reads this`filling, this`next, this`rxBufIdx
    {
      Dma.Dma(filling, next, rxBufIdx)
    }

    /** What was announced, and where reception stands, is what the events so far make of it. */
    ghost predicate Told()
      reads this`past, this`heard, this`filling, this`next, this`rxBufIdx
    {
      heard == HeardBy(past) && Rx() == RxAfter(past)
    }

    /** The link as rs485_init and any number of calls and callbacks leave it. */
    ghost predicate Valid()
      reads this, txBuf
    {
      Steady() && Told()
    }

    /** Valid, and rs485_write is not executing. */
    ghost predicate Ready()
      reads this, txBuf
    {
      Valid() && line.pc == Tx.Outside
    }

    /** The static initialisers of the file; agenda is what the outside world will do. */
    constructor (agenda: seq<Interlude>, clock: nat)
      ensures fresh(txBuf) && txBuf.Length == Tx.TX_BUF_SIZE
      ensures rxRing == [] && rxBufIdx == 1 && out == None && filling == None && next == None
      ensures this.agenda == agenda && this.clock == clock
    {
      txBuf := new Byte[Tx.TX_BUF_SIZE](_ => FF);
      rxRing := [];
      rxBufIdx := 1;
      txDoneSem := 0;
      de := false;
      out, filling, next := None, None, None;
      this.clock, this.agenda := clock, agenda;
      line := Tx.Line(Tx.Outside, [], false, 0, None, [], [], []);
      boot := line;
      txSteps, rxSteps, past, heard := [], [], [], [];
    }

    /** rs485_init, given what the devices answer. */
    method Init(uartReady: bool, gpioReady: bool, callbackRet: int, enableRet: int) returns (ret: int)
      requires txBuf.Length == Tx.TX_BUF_SIZE && rxRing == [] && rxBufIdx == 1
      requires out == None && filling == None && next == None
      modifies this
      ensures agenda == old(agenda) && clock == old(clock)
      ensures ret == if !uartReady || !gpioReady then -ENODEV else if callbackRet != 0 then callbackRet else enableRet
      ensures ret == 0 ==> Ready() && rxRing == [] && line.wire == [] && past == [] && heard == []
      ensures ret == 0 ==> filling == Some(0) && next == None && rxBufIdx == 1 && !de && txDoneSem == 0
    {
      hide Tx.Run, Tx.Legal, Dma.Run, Dma.Legal, RxThrough, HeardIn;
      if !uartReady {
        return -ENODEV;
      }
      if !gpioReady {
        return -ENODEV;
      }
      de := false;
      txDoneSem := 0;
      if callbackRet != 0 {
        return callbackRet;
      }
      if enableRet != 0 {
        return enableRet;
      }
      filling := Some(0);
      line := Tx.Line(Tx.Outside, txBuf[..], de, txDoneSem, out, [], [], []);
      NoSteps(line);
      boot, txSteps, rxSteps, past, heard := line, [], [], [], [];
      return 0;
    }

    /** In every state between two steps of the program. */
    lemma LineSafe()
      requires Steady()
      ensures line.pc == Tx.Outside ==> !de && txDoneSem == 0 && out == None
      ensures out.Some? ==> de && txDoneSem == 0 && out == Some(|line.asked|)
                            && |line.asked| <= txBuf.Length && txBuf[..|line.asked|] == line.asked
      ensures line.wire == line.done
    {
      Tx.HalfDuplexSafety(boot, txSteps);
      Tx.RunKeepsInv(boot, txSteps);
    }

    /** The receive buffers offered so far were free exactly as far as the restarts allow. */
    lemma OffersSafeIff()
      requires Valid()
      ensures Dma.SafeRun(rxSteps) <==> Dma.NoOddRestart(rxSteps)
    {
      Dma.SafeRunIff(rxSteps);
    }

    // ---- the callback

    /** uart_cb, in the state the driver calls it in. */
    method UartCb(e: UartEvent)
      requires |rxRing| <= RING_SIZE
      modifies this`de, this`txDoneSem, this`rxRing, this`next, this`rxBufIdx, this`filling
      ensures e.TxDone? || e.TxAborted? ==> !de && txDoneSem == 1
      ensures !(e.TxDone? || e.TxAborted?) ==> de == old(de) && txDoneSem == old(txDoneSem)
      ensures rxRing == if e.RxRdy? then old(rxRing) + RingPut(old(rxRing), e.bytes).kept else old(rxRing)
      ensures e.RxRdy? ==> rxRing == old(rxRing) + e.bytes[..Min(512 - |old(rxRing)|, |e.bytes|)]
      ensures next == if e.RxBufRequest? then Some(old(rxBufIdx)) else old(next)
      ensures rxBufIdx == if e.RxBufRequest? then 1 - old(rxBufIdx) else old(rxBufIdx)
      ensures filling == if e.RxDisabled? && e.restart == 0 then Some(0) else old(filling)
    {
      match e
      case TxDone | TxAborted =>
        de := false;
        txDoneSem := 1;  // k_sem_give, limit 1
      case RxRdy(bytes) =>
        rxRing := rxRing + RingPut(rxRing, bytes).kept;
      case RxBufRequest =>
        next := Some(rxBufIdx);
        rxBufIdx := 1 - rxBufIdx;
      case RxDisabled(restart) =>
        if restart == 0 {
          filling := Some(0);
        }
      case RxSwitch =>
    }

    /** Record a step of the transmit side. */
    ghost method NoteTx(e: Tx.Event)
      requires Tx.Booted(boot) && Tx.Legal(boot, txSteps) && line == Tx.Run(boot, txSteps) && Tx.Enabled(line, e)
      modifies this`line, this`txSteps
      ensures Tx.Legal(boot, txSteps) && line == Tx.Run(boot, txSteps) && line == Tx.Apply(old(line), e)
    {
      Tx.RunSnoc(boot, txSteps, e);
      txSteps := txSteps + [e];
      line := Tx.Apply(line, e);
    }

    /** Record a step of the receive buffers. */
    ghost method NoteRx(e: Dma.Event)
      requires Dma.Legal(Dma.Boot(), rxSteps) && Dma.Enabled(Dma.Run(Dma.Boot(), rxSteps), e)
      modifies this`rxSteps
      ensures Dma.Legal(Dma.Boot(), rxSteps)
      ensures Dma.Run(Dma.Boot(), rxSteps) == Dma.Apply(old(Dma.Run(Dma.Boot(), rxSteps)), e)
    {
      Dma.RunSnoc(Dma.Boot(), rxSteps, e);
      rxSteps := rxSteps + [e];
    }

    /** The end of a transfer: the driver's part and the callback. */
    method EndTransfer(done: bool)
      requires Steady() && out.Some?
      modifies this`line, this`txSteps, this`out, this`de, this`txDoneSem, this`rxRing, this`next, this`rxBufIdx, this`filling
      ensures Steady() && rxRing == old(rxRing) && Rx() == old(Rx()) && line.pc == old(line.pc)
      ensures out == None && txDoneSem == 1
      ensures line.done == if done then old(line.done) + [old(line.asked)] else old(line.done)
      ensures line.asked == old(line.asked)
      ensures !de && old(out).value <= txBuf.Length
      ensures line.wire == old(line.wire) + if done then [txBuf[..old(out).value]] else []
    {
      LineSafe();
      assert line.wire + [] == line.wire;
      NoteTx(if done then Tx.TxDone else Tx.TxAborted);
      out := None;
      UartCb(if done then TxDone else TxAborted);
    }

    /** An event of the receive buffers: the driver's part and the callback. */
    method BufferEvent(e: UartEvent)
      requires Steady() && (e.RxBufRequest? || e.RxSwitch? || e.RxDisabled?)
      modifies this`filling, this`next, this`rxBufIdx, this`rxSteps, this`de, this`txDoneSem, this`rxRing
      ensures Steady() && rxRing == old(rxRing) && Rx() == Reacts(old(Rx()), e)
    {
      match e
      case RxBufRequest =>
        if filling.Some? && next == None {
          NoteRx(Dma.BufRequest);
          UartCb(e);
        }
      case RxSwitch =>
        if filling.Some? && next.Some? {
          NoteRx(Dma.Switch);
          filling, next := next, None;
        }
      case RxDisabled(restart) =>
        if filling.Some? {
          NoteRx(Dma.Disabled(restart));
          filling, next := None, None;
          UartCb(e);
        }
      case _ =>
    }

    /** The driver reports e, unless the state of the hardware rules it out. */
    method Deliver(e: UartEvent, ghost max: nat, ghost r: Reading) returns (ghost trail: seq<Stamped>, ghost r': Reading)
      requires Steady() && Fits(max, r) && r.ring == rxRing
      modifies this`line, this`txSteps, this`rxSteps, this`heard,
               this`out, this`de, this`txDoneSem, this`rxRing, this`next, this`rxBufIdx, this`filling
      ensures Steady() && Rx() == Reacts(old(Rx()), e)
      ensures Said(trail) == Heard(old(Rx()), e) && heard == old(heard) + Said(trail) && Within(trail, old(clock), clock)
      ensures |rxRing| <= |old(rxRing)| + if e.RxRdy? then |e.bytes| else 0
      ensures Arrived(max, r, trail, r') && r'.ring == rxRing
      ensures Ended(old(line), Ending([e]))
      ensures e.RxRdy? && filling.Some? ==>
                && heard == old(heard) + e.bytes
                && rxRing == old(rxRing) + e.bytes[..Min(512 - |old(rxRing)|, |e.bytes|)]
      ensures (e.TxDone? || e.TxAborted?) && old(out).Some? ==>
                && out == None && !de && txDoneSem == 1 && old(out).value <= txBuf.Length
                && line.wire == old(line.wire) + if e.TxDone? then [txBuf[..old(out).value]] else []
      ensures e.RxBufRequest? && old(filling).Some? && old(next) == None ==>
                filling == old(filling) && next == Some(old(rxBufIdx)) && rxBufIdx == 1 - old(rxBufIdx)
      ensures e.RxDisabled? && old(filling).Some? ==>
                filling == (if e.restart == 0 then Some(0) else None) && next == None && rxBufIdx == old(rxBufIdx)
    {
      hide Said, Within, Ending, ReadRun, Tx.Run, Tx.Legal;
      trail, r' := [], r;
      NothingArrived(max, r, heard, clock);
      OneEnding(e);
      match e
      case TxDone | TxAborted =>
        if out.Some? {
          EndTransfer(e.TxDone?);
        }
      case RxRdy(bytes) =>
        if filling.Some? {
          trail := [Stamped(Rdy(bytes), clock)];
          OneArrival(max, r, bytes, clock);
          r' := ReadStep(max, r, Rdy(bytes));
          UartCb(e);
          heard := heard + bytes;
        }
      case _ =>
        BufferEvent(e);
    }

    lemma RingFits()
      requires Steady()
      ensures |rxRing| <= RING_SIZE
    {}

    lemma LineIsDriver()
      requires Steady()
      ensures line.out == out
    {}

    /** The writer stays where it was; its transfer, if there is one, ends as e says. */
    ghost predicate Ended(was: Tx.Line, e: Option<bool>)
      reads this`line, this`out
    {
      && line.pc == was.pc && line.asked == was.asked
      && if was.out == None || e == None then out == was.out && line.done == was.done
         else out == None && line.done == if e.value then was.done + [was.asked] else was.done
    }

    /** The bytes that can still be read: those in the ring and those still to be announced. */
    ghost function Supply(): nat
      reads this`rxRing, this`agenda
    {
      |rxRing| + AgendaBytes(agenda)
    }

    lemma NotEnded()
      requires Steady()
      ensures Ended(line, None)
    {}

    /** The next interlude: time passes, the driver reports its events. */
    method Interrupts(ghost max: nat, ghost r: Reading) returns (ghost trail: seq<Stamped>, ghost r': Reading)
      requires Valid() && Fits(max, r) && r.ring == rxRing
      modifies this
      ensures Valid() && clock >= old(clock)
      ensures Epoch() == old(Epoch())
      ensures World() == old(World()) && heard == old(heard) + Said(trail) && Within(trail, old(clock), clock)
      ensures Said(trail) == if old(agenda) == [] then [] else HeardIn(old(Rx()), old(agenda)[0].events)
      ensures clock == old(clock) + if old(agenda) == [] then 0 else old(agenda)[0].ms
      ensures agenda == if old(agenda) == [] then [] else old(agenda)[1..]
      ensures Within(trail, clock, clock)
      ensures Supply() <= old(Supply())
      ensures Arrived(max, r, trail, r') && r'.ring == rxRing
      ensures Ended(old(line), if old(agenda) == [] then None else Ending(old(agenda)[0].events))
    {
      hide Steady, RxThrough, HeardIn, HeardBy, RxAfter, Elapsed, Said, Within, EventBytes, ReadRun, Ended, Ending;
      trail, r' := [], r;
      NothingArrived(max, r, heard, clock);
      NotEnded();
      if agenda == [] {
        return;
      }
      var now := agenda[0];
      agenda := agenda[1..];
      clock := clock + now.ms;
      trail, r' := Events(now.events, max, r);
      WithinWiden(trail, clock, clock, old(clock), clock);
      HeardSnoc(past, now);
      assert past + [now] + agenda == old(past + agenda);
      past := past + [now];
    }

    /** The events of one interlude, one by one. */
    method Events(es: seq<UartEvent>, ghost max: nat, ghost r: Reading) returns (ghost trail: seq<Stamped>, ghost r': Reading)
      requires Steady() && Fits(max, r) && r.ring == rxRing
      modifies this`line, this`txSteps, this`rxSteps, this`heard,
               this`out, this`de, this`txDoneSem, this`rxRing, this`next, this`rxBufIdx, this`filling
      ensures Steady() && Rx() == RxThrough(old(Rx()), es)
      ensures Said(trail) == HeardIn(old(Rx()), es) && heard == old(heard) + Said(trail) && Within(trail, old(clock), clock)
      ensures |rxRing| <= |old(rxRing)| + EventBytes(es)
      ensures Arrived(max, r, trail, r') && r'.ring == rxRing
      ensures Ended(old(line), Ending(es))
    {
      hide ValidTx, ValidRx, RxThrough, HeardIn, Said, Within, EventBytes, ReadRun;
      trail, r' := [], r;
      var i := 0;
      assert es[..0] == [];
      NothingArrived(max, r, heard, clock);
      NothingThrough(Rx());
      EndingSnoc([], RxSwitch);
      NotEnded();
      while i < |es|
        invariant 0 <= i <= |es|
        invariant Steady() && Rx() == RxThrough(old(Rx()), es[..i])
        invariant Said(trail) == HeardIn(old(Rx()), es[..i]) && heard == old(heard) + Said(trail) && Within(trail, old(clock), clock)
        invariant |rxRing| <= |old(rxRing)| + EventBytes(es[..i])
        invariant Arrived(max, r, trail, r') && r'.ring == rxRing
        invariant Ended(old(line), Ending(es[..i]))
      {
        ThroughSnoc(old(Rx()), es[..i], es[i]);
        assert es[..i + 1] == es[..i] + [es[i]];
        LineIsDriver();
        EndingSnoc(es[..i], es[i]);
        ghost var more, r'' := Deliver(es[i], max, r');
        ArrivedMore(max, r, trail, r', more, r'');
        HeardMore(old(heard), trail, more, clock, clock, clock);
        trail, r' := trail + more, r'';
        i := i + 1;
      }
      assert es[..i] == es;
    }

    /** Everything the outside world has done and will do. */
    ghost function World(): seq<Interlude>
      reads this`past, this`agenda
    {
      past + agenda
    }

    /** What the clock would show had no interlude passed; only sleeping moves it. */
    ghost function Epoch(): int
      reads this`past, this`clock
    {
      clock - Elapsed(past)
    }

    /** k_uptime_get. */
    method Uptime(ghost max: nat, ghost r: Reading) returns (t: int, ghost trail: seq<Stamped>, ghost r': Reading)
      requires Valid() && Fits(max, r) && r.ring == rxRing
      modifies this
      ensures Valid() && t == clock >= old(clock)
      ensures Epoch() == old(Epoch())
      ensures World() == old(World()) && heard == old(heard) + Said(trail) && Within(trail, old(clock), clock)
      ensures Said(trail) == if old(agenda) == [] then [] else HeardIn(old(Rx()), old(agenda)[0].events)
      ensures clock == old(clock) + if old(agenda) == [] then 0 else old(agenda)[0].ms
      ensures agenda == if old(agenda) == [] then [] else old(agenda)[1..]
      ensures Within(trail, clock, clock)
      ensures Supply() <= old(Supply())
      ensures Arrived(max, r, trail, r') && r'.ring == rxRing
      ensures line.pc == old(line.pc)
    {
      hide Steady, Told, World, Elapsed, Said, Within, ReadRun, Supply;
      trail, r' := Interrupts(max, r);
      t := clock;
    }

    // ---- transmit

    /** rs485_write; uartTxRet is what uart_tx answers if it is reached. */
    method Rs485Write(data: seq<Byte>, uartTxRet: int) returns (ret: int, ghost trail: seq<Stamped>, ghost r: Reading)
      requires Ready()
      modifies this, txBuf
      ensures Ready() && clock >= old(clock)
      ensures ret == if |data| > 256 then -EINVAL else uartTxRet
      ensures Epoch() == old(Epoch())
      ensures World() == old(World()) && heard == old(heard) + Said(trail) && Within(trail, old(clock), clock)
      ensures Arrived(0, Reading(old(rxRing), [], []), trail, r) && r.ring == rxRing
      ensures !de && txDoneSem == 0 && out == None
      ensures line.wire == old(line.wire) + if ret == 0 && SentWhole(Rest(old(agenda), |data| + 1)) then [data] else []
    {
      hide ValidRx, Told, World, Epoch, Said, Within, Rest, Ending, HeardIn, EventBytes, ReadRun, Supply, Tx.Run, Tx.Legal;
      trail, r := [], Reading(rxRing, [], []);
      RingFits();
      NothingArrived(0, r, heard, clock);
      LineSafe();
      assert line.wire + [] == line.wire;
      if |data| > Tx.TX_BUF_SIZE {
        return -EINVAL, trail, r;
      }
      NoteTx(Tx.Call(data));
      trail, r := CopyIn(data);

      ghost var mid := clock;
      de := true;
      NoteTx(Tx.RaiseDe);
      RestNext(old(agenda), |data|);
      var ret', more, r' := Transfer(data, uartTxRet, r);
      ArrivedMore(0, Reading(old(rxRing), [], []), trail, r, more, r');
      HeardMore(old(heard), trail, more, old(clock), mid, clock);
      ret, trail, r := ret', trail + more, r';
      LineSafe();
    }

    /** The memcpy into tx_buf, one byte at a time. */
    method CopyIn(data: seq<Byte>) returns (ghost trail: seq<Stamped>, ghost r: Reading)
      requires Valid() && line.pc == Tx.Copying(data, 0) && |data| <= Tx.TX_BUF_SIZE
      modifies this, txBuf
      ensures Valid() && line.pc == Tx.Copying(data, |data|) && clock >= old(clock)
      ensures line.done == old(line.done) && agenda == Rest(old(agenda), |data|)
      ensures Epoch() == old(Epoch())
      ensures World() == old(World()) && heard == old(heard) + Said(trail) && Within(trail, old(clock), clock)
      ensures Arrived(0, Reading(old(rxRing), [], []), trail, r) && r.ring == rxRing
    {
      hide ValidRx, Told, World, Epoch, Said, Within, Rest, Ending, HeardIn, EventBytes, ReadRun, Supply, Tx.Run, Tx.Legal;
      trail, r := [], Reading(rxRing, [], []);
      RingFits();
      NothingArrived(0, r, heard, clock);
      RestNext(agenda, 0);
      var i := 0;
      while i < |data|
        invariant 0 <= i <= |data|
        invariant Valid() && line.pc == Tx.Copying(data, i) && clock >= old(clock)
        invariant line.done == old(line.done) && agenda == Rest(old(agenda), i)
        invariant Epoch() == old(Epoch())
        invariant World() == old(World()) && heard == old(heard) + Said(trail) && Within(trail, old(clock), clock)
        invariant Arrived(0, Reading(old(rxRing), [], []), trail, r) && r.ring == rxRing
      {
        Tx.RunKeepsInv(boot, txSteps);
        RestNext(old(agenda), i);
        ghost var mid := clock;
        ghost var more, r' := Interrupts(0, r);
        ArrivedMore(0, Reading(old(rxRing), [], []), trail, r, more, r');
        HeardMore(old(heard), trail, more, old(clock), mid, clock);
        trail, r := trail + more, r';
        Tx.RunKeepsInv(boot, txSteps);
        txBuf[i] := data[i];
        NoteTx(Tx.CopyByte);
        i := i + 1;
      }
      Tx.RunKeepsInv(boot, txSteps);
    }

    /** From uart_tx on. */
    method Transfer(data: seq<Byte>, uartTxRet: int, ghost r0: Reading) returns (ret: int, ghost trail: seq<Stamped>, ghost r: Reading)
      requires Valid() && line.pc == Tx.Raised(data) && Fits(0, r0) && r0.ring == rxRing
      modifies this
      ensures Ready() && clock >= old(clock) && ret == uartTxRet
      ensures Epoch() == old(Epoch())
      ensures World() == old(World()) && heard == old(heard) + Said(trail) && Within(trail, old(clock), clock)
      ensures Arrived(0, r0, trail, r) && r.ring == rxRing
      ensures line.done == old(line.done)
                           + if ret == 0 && SentWhole(if old(agenda) == [] then [] else old(agenda)[1..]) then [data] else []
    {
      hide ValidRx, Told, World, Epoch, Said, Within, Rest, Ending, HeardIn, EventBytes, ReadRun, Supply, Tx.Run, Tx.Legal;
      Tx.RunKeepsInv(boot, txSteps);
      assert line.done + [] == line.done;
      trail, r := Interrupts(0, r0);
      ghost var mid := clock;
      if uartTxRet != 0 {
        NoteTx(Tx.Refuse);
        de := false;
        NoteTx(Tx.LowerDe);
        return uartTxRet, trail, r;
      }
      Tx.RunKeepsInv(boot, txSteps);
      out := Some(|data|);
      NoteTx(Tx.Accept);
      ghost var more, r' := AwaitDone(data, r);
      ArrivedMore(0, r0, trail, r, more, r');
      HeardMore(old(heard), trail, more, old(clock), mid, clock);
      trail, r := trail + more, r';
      ret := 0;
    }

    /** k_sem_take(&tx_done_sem, K_FOREVER): when nothing else is to come, the owed callback does. */
    method AwaitDone(data: seq<Byte>, ghost r0: Reading) returns (ghost trail: seq<Stamped>, ghost r: Reading)
      requires Valid() && line.pc == Tx.Waiting(data) && line.asked == data && txDoneSem == 0
      requires Fits(0, r0) && r0.ring == rxRing
      modifies this
      ensures Ready() && clock >= old(clock)
      ensures Epoch() == old(Epoch())
      ensures World() == old(World()) && heard == old(heard) + Said(trail) && Within(trail, old(clock), clock)
      ensures Arrived(0, r0, trail, r) && r.ring == rxRing
      ensures line.done == old(line.done) + if SentWhole(old(agenda)) then [data] else []
    {
      hide ValidRx, Told, World, Epoch, Said, Within, Rest, Ending, HeardIn, EventBytes, ReadRun, Supply, Tx.Run, Tx.Legal;
      trail, r := [], r0;
      NothingArrived(0, r, heard, clock);
      assert line.done + [] == line.done;
      while txDoneSem == 0
        invariant Valid() && line.pc == Tx.Waiting(data) && line.asked == data && clock >= old(clock)
        invariant Epoch() == old(Epoch())
        invariant World() == old(World()) && heard == old(heard) + Said(trail) && Within(trail, old(clock), clock)
        invariant Arrived(0, r0, trail, r) && r.ring == rxRing
        invariant if txDoneSem == 0 then line.done == old(line.done) && EndingIn(agenda) == EndingIn(old(agenda))
                  else line.done == old(line.done) + if SentWhole(old(agenda)) then [data] else []
        decreases if txDoneSem == 0 then 1 else 0, |agenda|
      {
        Tx.RunKeepsInv(boot, txSteps);
        if agenda == [] {
          EndTransfer(true);
        } else {
          ghost var mid := clock;
          ghost var more, r' := Interrupts(0, r);
          ArrivedMore(0, r0, trail, r, more, r');
          HeardMore(old(heard), trail, more, old(clock), mid, clock);
          trail, r := trail + more, r';
          Tx.RunKeepsInv(boot, txSteps);
        }
      }
      Tx.RunKeepsInv(boot, txSteps);
      NoteTx(Tx.TakeSem);
      txDoneSem := txDoneSem - 1;
    }

    // ---- receive

    /** rs485_read into the first max bytes of buf. */
    method Rs485Read(buf: array<Byte>, max: nat, timeout: Timeout) returns (total: nat, ghost trail: seq<Stamped>, ghost r: Reading)
      requires Valid() && max <= buf.Length && buf != txBuf
      modifies this, buf
      ensures Valid() && clock >= old(clock) && line.pc == old(line.pc)
      ensures total <= max && forall i :: total <= i < buf.Length ==> buf[i] == old(buf[i])
      ensures timeout == NoWait ==> Epoch() == old(Epoch())
      ensures timeout.Ticks? ==> Epoch() <= old(Epoch()) + 1 + if timeout.ms <= 0 then 1 else timeout.ms
      ensures World() == old(World()) && heard == old(heard) + Said(trail) && Within(trail, old(clock), clock)
      ensures Reads(OpsOf(trail)) && r == ReadRun(max, Reading(old(rxRing), [], []), OpsOf(trail))
      ensures r.got == buf[..total] && r.ring == rxRing
      ensures r.got + rxRing == old(rxRing) + Kept(r.puts)
      ensures timeout == NoWait && total < max ==> rxRing == [] && trail != [] && trail[|trail| - 1].op == Get
      ensures Supply() + total <= old(Supply())
      ensures timeout.Ticks? && total < max ==> clock > old(clock) + (if timeout.ms <= 0 then 1 else timeout.ms)
      ensures timeout == Forever && total < max ==> clock > INT64_MAX
    {
      hide Steady, Told, World, Elapsed, Said, Within, ReadRun, Supply;
      ghost var r0 := Reading(rxRing, [], []);
      RingFits();
      NothingArrived(max, r0, heard, clock);
      var end;
      end, trail, r := Deadline(timeout, max, r0);
      ghost var mid := clock;
      ghost var more, r';
      total, more, r' := ReadLoop(buf, max, timeout, end, r);
      TrailedMore(max, r0, [], r0, trail, r);
      TrailedMore(max, r0, [] + trail, r, more, r');
      HeardMore(old(heard), trail, more, old(clock), mid, clock);
      assert [] + trail == trail;
      trail, r := [] + trail + more, r';
      FifoPrefix(max, r0.ring, OpsOf(trail));
    }

    /** The loop of rs485_read. */
    method ReadLoop(buf: array<Byte>, max: nat, timeout: Timeout, end: int, ghost r0: Reading)
      returns (total: nat, ghost trail: seq<Stamped>, ghost r: Reading)
      requires Valid() && max <= buf.Length && buf != txBuf
      requires Fits(max, r0) && r0.ring == rxRing && r0.got == []
      modifies this, buf
      ensures Valid() && clock >= old(clock) && line.pc == old(line.pc)
      ensures total <= max && forall i :: total <= i < buf.Length ==> buf[i] == old(buf[i])
      ensures timeout == NoWait ==> Epoch() == old(Epoch())
      ensures old(clock) <= end ==> Epoch() - old(Epoch()) <= end + 1 - old(clock)
      ensures World() == old(World()) && heard == old(heard) + Said(trail) && Within(trail, old(clock), clock)
      ensures Reading(rxRing, buf[..total], r.puts) == r && Trailed(max, r0, trail, r)
      ensures Supply() + total <= old(Supply())
      ensures total < max && timeout == NoWait ==> rxRing == [] && trail != [] && trail[|trail| - 1].op == Get
      ensures total < max && timeout != NoWait ==> clock > end
    {
      hide Steady, Told, World, Elapsed, Said, Within, ReadRun, Supply;
      total, trail, r := 0, [], r0;
      NothingArrived(max, r0, heard, clock);
      while total < max
        invariant Valid() && clock >= old(clock) && line.pc == old(line.pc)
        invariant total <= max && forall i :: total <= i < buf.Length ==> buf[i] == old(buf[i])
        invariant Reading(rxRing, buf[..total], r.puts) == r && Trailed(max, r0, trail, r)
        invariant timeout == NoWait ==> Epoch() == old(Epoch())
        invariant Epoch() - old(Epoch()) <= clock - old(clock)
        invariant old(clock) <= end ==> Epoch() - old(Epoch()) <= end + 1 - old(clock)
        invariant World() == old(World()) && heard == old(heard) + Said(trail) && Within(trail, old(clock), clock)
        invariant Supply() + total <= old(Supply())
        decreases max - total, end + 1 - clock
      {
        ghost var mid := clock;
        var len, stop, more, r' := ReadRound(buf, total, max, timeout, end, r);
        TrailedMore(max, r0, trail, r, more, r');
        HeardMore(old(heard), trail, more, old(clock), mid, clock);
        trail, r := trail + more, r';
        total := total + len;
        if stop {
          break;
        }
      }
    }

    /** One round of the read loop: take what there is; with nothing there, stop or sleep. */
    method ReadRound(buf: array<Byte>, at: nat, max: nat, timeout: Timeout, end: int, ghost r: Reading)
      returns (len: nat, stop: bool, ghost trail: seq<Stamped>, ghost r': Reading)
      requires Valid() && at < max <= buf.Length && buf != txBuf
      requires Reading(rxRing, buf[..at], r.puts) == r
      modifies this, buf
      ensures Valid() && clock >= old(clock) && line.pc == old(line.pc)
      ensures at + len <= max && forall i :: at + len <= i < buf.Length ==> buf[i] == old(buf[i])
      ensures Epoch() == old(Epoch()) + if !stop && len == 0 then 1 else 0
      ensures World() == old(World()) && heard == old(heard) + Said(trail) && Within(trail, old(clock), clock)
      ensures Reading(rxRing, buf[..at + len], r'.puts) == r' && Trailed(max, r, trail, r')
      ensures Supply() + len <= old(Supply())
      ensures stop && timeout == NoWait ==> rxRing == [] && trail != [] && trail[|trail| - 1].op == Get
      ensures stop && timeout != NoWait ==> clock > end
      ensures stop ==> len == 0
      ensures !stop ==> len > 0 || (timeout != NoWait && old(clock) < clock <= end + 1)
    {
      hide Steady, Told, World, Elapsed, Said, Within, ReadRun, Supply;
      len, trail, r' := RingGet(buf, at, max, r);
      stop := false;
      if len > 0 {
        return;
      }
      if timeout == NoWait {
        stop := true;
        return;
      }
      ghost var mid := clock;
      ghost var more, r'';
      stop, more, r'' := PastOrSleep(end, max, r');
      TrailedMore(max, r, trail, r', more, r'');
      HeardMore(old(heard), trail, more, old(clock), mid, clock);
      trail, r' := trail + more, r'';
    }

    /** The moment a read must give up: never, or one uptime reading plus the timeout, at least 1 ms. */
    method Deadline(timeout: Timeout, ghost max: nat, ghost r0: Reading) returns (end: int, ghost trail: seq<Stamped>, ghost r: Reading)
      requires Valid() && Fits(max, r0) && r0.ring == rxRing
      modifies this
      ensures Valid() && clock >= old(clock) && line.pc == old(line.pc)
      ensures Supply() <= old(Supply())
      ensures Epoch() == old(Epoch())
      ensures World() == old(World()) && heard == old(heard) + Said(trail) && Within(trail, old(clock), clock)
      ensures Arrived(max, r0, trail, r) && r.ring == rxRing
      ensures timeout == Forever ==> end == INT64_MAX
      ensures timeout != Forever ==> end == clock + if timeout == NoWait || timeout.ms <= 0 then 1 else timeout.ms
    {
      hide Steady, Told, World, Elapsed, Said, Within, ReadRun, Supply;
      trail, r := [], r0;
      NothingArrived(max, r0, heard, clock);
      end := INT64_MAX;
      if timeout != Forever {
        var ms := if timeout == NoWait || timeout.ms <= 0 then 1 else timeout.ms;
        var t;
        t, trail, r := Uptime(max, r);
        end := t + ms;
      }
    }

    /** The end of a round that found nothing: past the deadline, or k_sleep(K_MSEC(1)). */
    method PastOrSleep(end: int, ghost max: nat, ghost r0: Reading) returns (late: bool, ghost trail: seq<Stamped>, ghost r: Reading)
      requires Valid() && Fits(max, r0) && r0.ring == rxRing
      modifies this
      ensures Valid() && line.pc == old(line.pc)
      ensures Supply() <= old(Supply())
      ensures Epoch() == old(Epoch()) + if late then 0 else 1
      ensures World() == old(World()) && heard == old(heard) + Said(trail) && Within(trail, old(clock), clock)
      ensures Arrived(max, r0, trail, r) && r.ring == rxRing
      ensures if late then clock > end && clock >= old(clock) else old(clock) < clock <= end + 1
    {
      hide Steady, Told, World, Elapsed, Said, Within, ReadRun, Supply;
      var t;
      t, trail, r := Uptime(max, r0);
      late := t > end;
      if !late {
        WithinWiden(trail, old(clock), clock, old(clock), clock + 1);
        clock := clock + 1;
      }
    }

    /** k_sleep(K_MSEC(1)) outside the service. */
    method Sleep(ghost max: nat, ghost r: Reading) returns (ghost trail: seq<Stamped>, ghost r': Reading)
      requires Valid() && Fits(max, r) && r.ring == rxRing
      modifies this
      ensures Valid() && line.pc == old(line.pc)
      ensures clock == old(clock) + 1 + if old(agenda) == [] then 0 else old(agenda)[0].ms
      ensures Epoch() == old(Epoch()) + 1
      ensures World() == old(World()) && heard == old(heard) + Said(trail) && Within(trail, old(clock), clock)
      ensures Arrived(max, r, trail, r') && r'.ring == rxRing
    {
      hide Steady, Told, World, Elapsed, Said, Within, ReadRun, Supply;
      var t;
      t, trail, r' := Uptime(max, r);
      WithinWiden(trail, old(clock), clock, old(clock), clock + 1);
      clock := clock + 1;
    }

    /** ring_buf_get into buf + at, for a read of max bytes. */
    method RingGet(buf: array<Byte>, at: nat, max: nat, ghost r: Reading) returns (len: nat, ghost trail: seq<Stamped>, ghost r': Reading)
      requires Valid() && at <= max <= buf.Length && buf != txBuf
      requires Reading(rxRing, buf[..at], r.puts) == r
      modifies this, buf
      ensures Valid() && clock >= old(clock) && line.pc == old(line.pc)
      ensures at + len <= max && forall i :: at + len <= i < buf.Length ==> buf[i] == old(buf[i])
      ensures Epoch() == old(Epoch())
      ensures World() == old(World()) && heard == old(heard) + Said(trail) && Within(trail, old(clock), clock)
      ensures Reading(rxRing, buf[..at + len], r'.puts) == r' && Trailed(max, r, trail, r')
      ensures at + len == max || rxRing == []
      ensures trail != [] && trail[|trail| - 1].op == Get
      ensures Supply() + len <= old(Supply())
    {
      hide ValidTx, Told, World, Epoch, Said, Within, HeardIn, EventBytes, ReadRun;
      trail, r' := Interrupts(max, r);
      len := Min(max - at, |rxRing|);
      ArrivedThenGet(max, r, trail, r', clock);
      HeardThenGet(trail, old(clock), clock);
      trail, r' := trail + [Stamped(Get, clock)], ReadStep(max, r', Get);
      CopyOut(buf, at, rxRing[..len]);
      rxRing := rxRing[len..];
    }

    /** The copy of ring_buf_get into buf + at. */
    method CopyOut(buf: array<Byte>, at: nat, src: seq<Byte>)
      requires at + |src| <= buf.Length
      modifies buf
      ensures buf[..at + |src|] == old(buf[..at]) + src
      ensures forall i :: at + |src| <= i < buf.Length ==> buf[i] == old(buf[i])
    {
      var i := 0;
      while i < |src|
        invariant 0 <= i <= |src|
        invariant buf[..at + i] == old(buf[..at]) + src[..i]
        invariant forall j :: at + i <= j < buf.Length ==> buf[j] == old(buf[j])
      {
        buf[at + i] := src[i];
        assert buf[..at + (i + 1)] == buf[..at + i] + [src[i]];
        i := i + 1;
      }
    }
  }

  /** The event of the receive buffers, if it is one. */
  function BufferStep(e: UartEvent): Option<Dma.Event> {
    match e
    case RxBufRequest => Some(Dma.BufRequest)
    case RxSwitch => Some(Dma.Switch)
    case RxDisabled(restart) => Some(Dma.Disabled(restart))
    case _ => None
  }

  /** What an event does to the receive buffers; one their state rules out does nothing. */
  function Reacts(d: Dma.Dma, e: UartEvent): Dma.Dma {
    var step := BufferStep(e);
    if step.Some? && Dma.Enabled(d, step.value) then Dma.Apply(d, step.value) else d
  }

  /** The bytes an event announces: those of UART_RX_RDY while a buffer is being filled. */
  function Heard(d: Dma.Dma, e: UartEvent): seq<Byte> {
    if e.RxRdy? && d.filling.Some? then e.bytes else []
  }

  function RxThrough(d: Dma.Dma, es: seq<UartEvent>): Dma.Dma
    decreases es
  {
    if es == [] then d else Reacts(RxThrough(d, es[..|es| - 1]), es[|es| - 1])
  }

  function HeardIn(d: Dma.Dma, es: seq<UartEvent>): seq<Byte>
    decreases es
  {
    if es == [] then []
    else HeardIn(d, es[..|es| - 1]) + Heard(RxThrough(d, es[..|es| - 1]), es[|es| - 1])
  }

  /** Where reception stands after these interludes since rs485_init, and all they announced. */
  function RxAfter(past: seq<Interlude>): Dma.Dma
    decreases past
  {
    if past == [] then Dma.Boot() else RxThrough(RxAfter(past[..|past| - 1]), past[|past| - 1].events)
  }

  function HeardBy(past: seq<Interlude>): seq<Byte>
    decreases past
  {
    if past == [] then []
    else HeardBy(past[..|past| - 1]) + HeardIn(RxAfter(past[..|past| - 1]), past[|past| - 1].events)
  }

  lemma NothingThrough(d: Dma.Dma)
    ensures RxThrough(d, []) == d && HeardIn(d, []) == [] && EventBytes([]) == 0
  {}

  lemma ThroughSnoc(d: Dma.Dma, es: seq<UartEvent>, e: UartEvent)
    ensures RxThrough(d, es + [e]) == Reacts(RxThrough(d, es), e)
    ensures HeardIn(d, es + [e]) == HeardIn(d, es) + Heard(RxThrough(d, es), e)
    ensures EventBytes(es + [e]) == EventBytes(es) + if e.RxRdy? then |e.bytes| else 0
  {
    assert (es + [e])[..|es|] == es;
  }

  /** All bytes that UART_RX_RDY events carry. */
  function RdyBytes(es: seq<UartEvent>): seq<Byte> {
    if es == [] then [] else RdyBytes(es[..|es| - 1]) + if es[|es| - 1].RxRdy? then es[|es| - 1].bytes else []
  }

  function AllRdyBytes(past: seq<Interlude>): seq<Byte> {
    if past == [] then [] else AllRdyBytes(past[..|past| - 1]) + RdyBytes(past[|past| - 1].events)
  }

  predicate RestartsWork(es: seq<UartEvent>) {
    forall i :: 0 <= i < |es| && es[i].RxDisabled? ==> es[i].restart == 0
  }

  /** As long as every restart works, a buffer is always being filled, and all bytes that arrive are announced. */
  lemma {:induction false} AllIsHeard(past: seq<Interlude>)
    requires forall i :: 0 <= i < |past| ==> RestartsWork(past[i].events)
    ensures HeardBy(past) == AllRdyBytes(past) && RxAfter(past).filling.Some?
    decreases past
  {
    hide RestartsWork, HeardIn, RdyBytes, RxThrough;
    if past != [] {
      var k := |past| - 1;
      AllIsHeard(past[..k]);
      AllIsHeardIn(RxAfter(past[..k]), past[k].events);
    }
  }

  lemma {:induction false} AllIsHeardIn(d: Dma.Dma, es: seq<UartEvent>)
    requires d.filling.Some? && RestartsWork(es)
    ensures HeardIn(d, es) == RdyBytes(es) && RxThrough(d, es).filling.Some?
    decreases es
  {
    if es != [] {
      var k := |es| - 1;
      AllIsHeardIn(d, es[..k]);
      assert RestartsWork(es[..k]) && (es[k].RxDisabled? ==> es[k].restart == 0);
    }
  }

  /** How long these interludes last. */
  function Elapsed(past: seq<Interlude>): nat
    decreases past
  {
    if past == [] then 0 else Elapsed(past[..|past| - 1]) + past[|past| - 1].ms
  }

  lemma HeardSnoc(past: seq<Interlude>, now: Interlude)
    ensures Elapsed(past + [now]) == Elapsed(past) + now.ms
    ensures RxAfter(past + [now]) == RxThrough(RxAfter(past), now.events)
    ensures HeardBy(past + [now]) == HeardBy(past) + HeardIn(RxAfter(past), now.events)
  {
    assert (past + [now])[..|past|] == past;
  }

  /** The bytes a trail announces. */
  function Said(trail: seq<Stamped>): seq<Byte> { Announced(OpsOf(trail)) }

  /** One trail behind another. */
  lemma HeardMore(heard: seq<Byte>, a: seq<Stamped>, b: seq<Stamped>, from: int, mid: int, to: int)
    requires Within(a, from, mid) && Within(b, mid, to)
    ensures heard + Said(a) + Said(b) == heard + Said(a + b)
    ensures Said(a) + Said(b) == Said(a + b)
    ensures Within(a + b, from, to)
  {
    WithinConcat(a, b, from, mid, to);
    hide Announced, OpsOf, Within;
    OpsConcat(a, b);
    AnnouncedConcat(OpsOf(a), OpsOf(b));
    assert heard + Said(a) + Said(b) == heard + (Said(a) + Said(b));
  }

  lemma HeardThenGet(trail: seq<Stamped>, from: int, to: int)
    requires Within(trail, from, to)
    ensures Said(trail + [Stamped(Get, to)]) == Said(trail) && Within(trail + [Stamped(Get, to)], from, to)
  {
    OpsConcat(trail, [Stamped(Get, to)]);
    assert OpsOf(trail + [Stamped(Get, to)])[..|trail|] == OpsOf(trail);
    assert Said(trail) + [] == Said(trail);
  }

  /** While there is room for them, the ring takes the announced bytes as they come. */
  lemma {:induction false} ArrivedInOrder(max: nat, r: Reading, trail: seq<Op>)
    requires Fits(max, r) && forall i :: 0 <= i < |trail| ==> trail[i].Rdy?
    requires |r.ring| + |Announced(trail)| <= RING_SIZE
    ensures ReadRun(max, r, trail).ring == r.ring + Announced(trail)
    decreases trail
  {
    if trail == [] {
      assert r.ring + [] == r.ring;
    } else {
      var k := |trail| - 1;
      ArrivedInOrder(max, r, trail[..k]);
      RingTakes(r.ring, Announced(trail[..k]), trail[k].bytes);
    }
  }

  lemma RingTakes(ring: seq<Byte>, before: seq<Byte>, bytes: seq<Byte>)
    requires |ring| + |before| + |bytes| <= RING_SIZE
    ensures (ring + before) + RingPut(ring + before, bytes).kept == ring + (before + bytes)
  {}

  lemma NothingArrived(max: nat, r: Reading, heard: seq<Byte>, at: int)
    requires Fits(max, r)
    ensures Arrived(max, r, [], r) && Trailed(max, r, [], r)
    ensures Said([]) == [] && heard + Said([]) == heard && Within([], at, at)
  {}

  lemma OneArrival(max: nat, r: Reading, bytes: seq<Byte>, at: int)
    requires Fits(max, r)
    ensures Arrived(max, r, [Stamped(Rdy(bytes), at)], ReadStep(max, r, Rdy(bytes)))
    ensures Said([Stamped(Rdy(bytes), at)]) == bytes && Within([Stamped(Rdy(bytes), at)], at, at)
  {
    OneAnnounced(bytes);
    assert OpsOf([Stamped(Rdy(bytes), at)]) == [Rdy(bytes)];
    hide Announced, RingPut;
    ReadRunSnoc(max, r, [], Rdy(bytes));
    assert [] + [Rdy(bytes)] == [Rdy(bytes)];
  }

  lemma OneAnnounced(bytes: seq<Byte>)
    ensures Announced([Rdy(bytes)]) == bytes
  {
    assert [Rdy(bytes)][..0] == [] && [] + bytes == bytes;
  }

  /** Runs of no steps. */
  lemma NoSteps(line: Tx.Line)
    ensures Tx.Legal(line, []) && Tx.Run(line, []) == line
    ensures Dma.Legal(Dma.Boot(), []) && Dma.Run(Dma.Boot(), []) == Dma.Boot()
  {}

  /** How the transfer under way ends in these events, if it does: whole, or aborted. */
  function Ending(es: seq<UartEvent>): Option<bool>
    decreases es
  {
    if es == [] then None
    else if Ending(es[..|es| - 1]).Some? then Ending(es[..|es| - 1])
    else match es[|es| - 1]
         case TxDone => Some(true)
         case TxAborted => Some(false)
         case _ => None
  }

  /** The same for the interludes to come. */
  function EndingIn(agenda: seq<Interlude>): Option<bool> {
    if agenda == [] then None
    else if Ending(agenda[0].events).Some? then Ending(agenda[0].events)
    else EndingIn(agenda[1..])
  }

  /** What is left of the interludes after k of them. */
  function Rest(agenda: seq<Interlude>, k: nat): seq<Interlude> {
    agenda[if k < |agenda| then k else |agenda|..]
  }

  lemma RestNext(agenda: seq<Interlude>, k: nat)
    ensures Rest(agenda, k + 1) == if Rest(agenda, k) == [] then [] else Rest(agenda, k)[1..]
    ensures Rest(agenda, 0) == agenda
  {}

  /** A transfer that begins with these interludes to come is sent whole: no abort is its first end. */
  predicate SentWhole(agenda: seq<Interlude>) { EndingIn(agenda) != Some(false) }

  lemma OneEnding(e: UartEvent)
    ensures Ending([e]) == if e.TxDone? then Some(true) else if e.TxAborted? then Some(false) else None
  {
    assert [e][..0] == [];
  }

  lemma EndingSnoc(es: seq<UartEvent>, e: UartEvent)
    ensures Ending(es + [e]) == if Ending(es).Some? then Ending(es) else Ending([e])
    ensures Ending([]) == None
  {
    assert (es + [e])[..|es|] == es;
    assert [e][..0] == [];
  }

  function EventBytes(es: seq<UartEvent>): nat {
    if es == [] then 0
    else EventBytes(es[..|es| - 1]) + if es[|es| - 1].RxRdy? then |es[|es| - 1].bytes| else 0
  }

  function AgendaBytes(agenda: seq<Interlude>): nat {
    if agenda == [] then 0 else EventBytes(agenda[0].events) + AgendaBytes(agenda[1..])
  }

  /** trail holds announcements only, and takes the reading from r to r'. */
  ghost predicate Arrived(max: nat, r: Reading, trail: seq<Stamped>, r': Reading) {
    Fits(max, r) && Fits(max, r') && OnlyRdys(trail) && r' == ReadRun(max, r, OpsOf(trail)) && r'.got == r.got
  }

  predicate OnlyRdys(trail: seq<Stamped>) {
    forall i :: 0 <= i < |trail| ==> trail[i].op.Rdy?
  }

  lemma ArrivedMore(max: nat, r: Reading, a: seq<Stamped>, r': Reading, b: seq<Stamped>, r'': Reading)
    requires Arrived(max, r, a, r') && Arrived(max, r', b, r'')
    ensures Arrived(max, r, a + b, r'')
  {
    hide ReadRun, OpsOf;
    OpsConcat(a, b);
    ReadRunConcat(max, r, OpsOf(a), OpsOf(b));
  }

  /** trail holds announcements and ring_buf_get calls only, and takes the reading from r to r'. */
  ghost predicate Trailed(max: nat, r: Reading, trail: seq<Stamped>, r': Reading) {
    Fits(max, r) && Reads(OpsOf(trail)) && r' == ReadRun(max, r, OpsOf(trail))
  }

  lemma ArrivedIsTrailed(max: nat, r: Reading, trail: seq<Stamped>, r': Reading)
    requires Arrived(max, r, trail, r')
    ensures Trailed(max, r, trail, r')
  {
    hide ReadRun;
  }

  lemma ReadsConcat(a: seq<Op>, b: seq<Op>)
    requires Reads(a) && Reads(b)
    ensures Reads(a + b)
  {}

  lemma TrailedMore(max: nat, r: Reading, a: seq<Stamped>, r': Reading, b: seq<Stamped>, r'': Reading)
    requires Trailed(max, r, a, r') && (Trailed(max, r', b, r'') || Arrived(max, r', b, r''))
    ensures Trailed(max, r, a + b, r'')
  {
    if !Trailed(max, r', b, r'') {
      ArrivedIsTrailed(max, r', b, r'');
    }
    hide ReadRun, OpsOf, Reads, Arrived;
    OpsConcat(a, b);
    ReadRunConcat(max, r, OpsOf(a), OpsOf(b));
    ReadsConcat(OpsOf(a), OpsOf(b));
  }

  lemma ArrivedThenGet(max: nat, r: Reading, a: seq<Stamped>, r': Reading, at: int)
    requires Arrived(max, r, a, r')
    ensures Trailed(max, r, a + [Stamped(Get, at)], ReadStep(max, r', Get))
  {
    ArrivedIsTrailed(max, r, a, r');
    hide ReadRun, Reads;
    OpsConcat(a, [Stamped(Get, at)]);
    assert OpsOf([Stamped(Get, at)]) == [Get];
    ReadRunSnoc(max, r, OpsOf(a), Get);
    OneGet(OpsOf(a));
  }

  lemma OneGet(a: seq<Op>)
    requires Reads(a)
    ensures Reads(a + [Get])
  {}

  /**
   A run in which rs485_write returns 0 and nothing was sent whole: the driver aborts the transfer once
   uart_tx has accepted it.
   */
  method AbortedWrite() returns (ret: int, ghost sent: seq<seq<Byte>>)
    ensures ret == 0 && sent == []
  {
    var quiet, abort := Interlude(0, []), Interlude(0, [TxAborted]);
    var link := new Rs485([quiet, quiet, abort], 0);
    ret := link.Init(true, true, 0, 0);
    EndingSnoc([], TxAborted);
    assert [] + [TxAborted] == [TxAborted];
    OneEnding(TxAborted);
    assert Rest([quiet, quiet, abort], 2) == [abort];
    ghost var trail, r;
    ret, trail, r := link.Rs485Write([FF], 0);
    sent := link.line.wire;
  }
}
