/**
 fal_stub_zephyr.c: FlashDB's partition interface over the flash port. Addresses are uint32_t,
 sizes size_t of 32 bits, and the port takes a signed 32-bit off_t.
 */
module FalPartition {
  import opened Bytes
  import opened Errno
  import opened NorFlash
  import opened FlashPort

  type uint32 = x: int | 0 <= x < 0x1_0000_0000

  /** The casts (off_t)addr and (int)size. */
  function ToSigned(x: uint32): int { if x < 0x8000_0000 then x else x - 0x1_0000_0000 }

  /** The bounds test of the three partition operations, for a partition of len bytes. */
  predicate FalInRange(len: nat, addr: uint32, size: uint32) {
    !(addr > len || size > len - addr)
  }

  /**
   The adapter's test implies the port's test of the cast address, for every address and size, if
   and only if the partition is shorter than 2 GiB.
   */
  lemma FalBoundsImplyPortBoundsIff(len: uint32)
    ensures (forall addr: uint32, size: uint32 :: FalInRange(len, addr, size) ==> InRange(len, ToSigned(addr), size))
            <==> len < 0x8000_0000
  {
    if len >= 0x8000_0000 {
      assert FalInRange(len, len, 0) && !InRange(len, ToSigned(len), 0);
    }
  }

  // ---- setting up: which calls make fal_init succeed

  /** A call of fal_init or of flashdb_port_init, with what the platform would answer to it. */
  datatype SetupCall = FalInit(a: Answers) | PortInit(a: Answers)

  /** g_fal_inited, whether the area is open, and the erase size. */
  datatype Setup = Setup(inited: bool, open: bool, eraseSize: nat)

  predicate Opens(a: Answers) { a.openRet == 0 }

  predicate Answered(a: Answers) { Opens(a) && a.ready && a.pageRet == 0 }

  /** What the calls do on a partition of the given size, the page at its start being page bytes. */
  function SetupStep(size: nat, page: nat, s: Setup, c: SetupCall): Setup {
    var asked := c.PortInit? || (!s.inited && (!s.open || size == 0));
    var t := Setup(s.inited, s.open || (asked && Opens(c.a)), if asked && Answered(c.a) then page else s.eraseSize);
    if c.PortInit? || s.inited || (asked && !Answered(c.a)) then t
    else t.(inited := size > 0 && t.eraseSize > 0)
  }

  function SetupRun(size: nat, page: nat, calls: seq<SetupCall>): Setup
    decreases calls
  {
    if calls == [] then Setup(false, false, 0)
    else SetupStep(size, page, SetupRun(size, page, calls[..|calls| - 1]), calls[|calls| - 1])
  }

  lemma SetupSnoc(size: nat, page: nat, calls: seq<SetupCall>, c: SetupCall)
    ensures SetupRun(size, page, calls + [c]) == SetupStep(size, page, SetupRun(size, page, calls), c)
  {
    assert (calls + [c])[..|calls|] == calls;
  }

  /** No call so far has opened the area. */
  predicate NeverOpened(calls: seq<SetupCall>) {
    forall i :: 0 <= i < |calls| ==> !Opens(calls[i].a)
  }

  /** Some call was answered in full, and it was a port initialisation or the first to open the area. */
  predicate Learnt(calls: seq<SetupCall>)
    decreases calls
  {
    calls != [] &&
    var init, c := calls[..|calls| - 1], calls[|calls| - 1];
    Learnt(init) || (Answered(c.a) && (c.PortInit? || NeverOpened(init)))
  }

  /** Call k is answered in full, and is a port initialisation or the first to open the area. */
  predicate LearntAt(calls: seq<SetupCall>, k: int) {
    && 0 <= k < |calls|
    && calls[k].a.openRet == 0 && calls[k].a.ready && calls[k].a.pageRet == 0
    && (calls[k].PortInit? || forall j :: 0 <= j < k ==> calls[j].a.openRet != 0)
  }

  lemma {:induction false} LearntIff(calls: seq<SetupCall>)
    ensures Learnt(calls) <==> exists k :: LearntAt(calls, k)
    decreases calls
  {
    if calls != [] {
      var m := |calls| - 1;
      LearntIff(calls[..m]);
      forall k | k != m ensures LearntAt(calls, k) <==> LearntAt(calls[..m], k) {}
      assert !LearntAt(calls[..m], m);
      assert LearntAt(calls, m) <==> Answered(calls[m].a) && (calls[m].PortInit? || NeverOpened(calls[..m])) by {
        assert NeverOpened(calls[..m]) <==> forall j :: 0 <= j < m ==> calls[j].a.openRet != 0 by {
          assert forall j :: 0 <= j < m ==> calls[..m][j] == calls[j];
        }
      }
    }
  }

  lemma {:induction false} SetupRunIff(size: nat, page: nat, calls: seq<SetupCall>)
    requires size > 0
    ensures var s := SetupRun(size, page, calls);
            && (s.open <==> !NeverOpened(calls))
            && s.eraseSize == (if Learnt(calls) then page else 0)
            && (s.inited ==> s.eraseSize > 0) && (Learnt(calls) ==> s.open)
    decreases calls
  {
    if calls != [] {
      var k := |calls| - 1;
      SetupRunIff(size, page, calls[..k]);
      assert NeverOpened(calls) <==> NeverOpened(calls[..k]) && !Opens(calls[k].a) by {
        NeverOpenedSnoc(calls[..k], calls[k]);
        assert calls == calls[..k] + [calls[k]];
      }
    }
  }

  lemma NeverOpenedSnoc(calls: seq<SetupCall>, c: SetupCall)
    ensures NeverOpened(calls + [c]) <==> NeverOpened(calls) && !Opens(c.a)
  {
    if NeverOpened(calls + [c]) {
      assert !Opens((calls + [c])[|calls|].a);
      forall i | 0 <= i < |calls| ensures !Opens(calls[i].a) {
        assert (calls + [c])[i] == calls[i];
      }
    }
  }

  /**
   Over every order of calls since boot: after a fal_init the adapter is initialised if and only if the
   partition and its pages are not empty and some call so far was answered in full, being a port
   initialisation or the first call to open the area.
   */
  lemma InitedIff(size: nat, page: nat, calls: seq<SetupCall>, a: Answers)
    ensures var all := calls + [FalInit(a)];
            && (SetupRun(size, page, all).inited <==> size > 0 && page > 0 && Learnt(all))
            && (Learnt(all) <==> exists k :: LearntAt(all, k))
  {
    LearntIff(calls + [FalInit(a)]);
    var all := calls + [FalInit(a)];
    SetupSnoc(size, page, calls, FalInit(a));
    assert all[..|all| - 1] == calls;
    if size > 0 {
      SetupRunIff(size, page, calls);
      SetupRunIff(size, page, all);
    } else {
      EmptyNeverInited(size, page, all);
    }
  }

  lemma {:induction false} EmptyNeverInited(size: nat, page: nat, calls: seq<SetupCall>)
    requires size == 0
    ensures !SetupRun(size, page, calls).inited
    decreases calls
  {
    if calls != [] {
      EmptyNeverInited(size, page, calls[..|calls| - 1]);
    }
  }

  /** Which struct the caller passes: the one of this file, or any other pointer. */
  datatype PartRef = Ours | Foreign

  class Fal {
    const port: Port
    var inited: bool
    var devLen: nat
    var blkSize: nat
    var partLen: nat
    /** The initialisations called since boot. */
    ghost var calls: seq<SetupCall>

    ghost predicate Valid()
      reads this, port
    {
      && port.Valid() && port.board.size < 0x8000_0000
      && Setup(inited, port.area.Some?, port.eraseSize) == SetupRun(port.board.size, port.pageSize, calls)
      && (inited ==>
            && port.area == Some(port.board)
            && partLen == devLen == port.board.size > 0
            && blkSize == port.eraseSize > 0)
    }

    /** At boot nothing has been initialised. */
    constructor (port: Port)
      requires port.Valid() && port.board.size < 0x8000_0000 && port.area == None
      ensures Valid() && !inited && this.port == port && calls == []
    {
      this.port := port;
      inited := false;
      devLen, blkSize, partLen := 0, 0, 0;
      calls := [];
    }

    /** flashdb_port_init called from elsewhere, before or after fal_init. */
    method PortInit(a: Answers) returns (ret: int)
      requires Valid()
      modifies port, this`calls
      ensures Valid() && calls == old(calls) + [SetupCall.PortInit(a)]
      ensures ret == if a.openRet != 0 then a.openRet else if !a.ready then -ENODEV else a.pageRet
      ensures port.area == if a.openRet == 0 then Some(port.board) else old(port.area)
      ensures port.eraseSize == if ret == 0 then port.pageSize else old(port.eraseSize)
      ensures old(Stuck()) ==> (Stuck() <==> !(ret == 0 && port.pageSize > 0))
    {
      SetupSnoc(port.board.size, port.pageSize, calls, SetupCall.PortInit(a));
      calls := calls + [SetupCall.PortInit(a)];
      ret := port.Init(a);
    }

    /** fal_init, given what the platform would answer to the port's initialisation. */
    method Init(a: Answers) returns (ret: int)
      requires Valid()
      modifies this, port
      ensures Valid() && calls == old(calls) + [FalInit(a)]
      ensures ret == if inited then 1 else -1
      ensures old(inited) ==> ret == 1
      ensures !old(inited) && old(port.area) == None ==>
                (ret == 1 <==> a.openRet == 0 && a.ready && a.pageRet == 0 && port.board.size > 0 && port.pageSize > 0)
      ensures !old(inited) && old(port.area).Some? ==> (ret == 1 <==> port.board.size > 0 && old(port.eraseSize) > 0)
      ensures inited ==> partLen == devLen == port.board.size && blkSize == port.pageSize > 0
      ensures inited <==> port.board.size > 0 && port.pageSize > 0 && Learnt(calls)
      ensures inited <==> old(inited) || old(CanInit(a))
      ensures port.area == if old(Asks()) && a.openRet == 0 then Some(port.board) else old(port.area)
      ensures port.eraseSize == if old(Asks()) && Answered(a) then port.pageSize else old(port.eraseSize)
      ensures Stuck() <==> old(Stuck()) || old(GetsStuck(a))
    {
      InitedIff(port.board.size, port.pageSize, calls, a);
      SetupSnoc(port.board.size, port.pageSize, calls, FalInit(a));
      calls := calls + [FalInit(a)];
      if inited {
        return 1;
      }
      if port.Size() == 0 {
        var err := port.Init(a);
        if err != 0 {
          return -1;
        }
      }
      var areaSize := port.Size();
      var eraseSize := port.eraseSize;
      if areaSize == 0 || eraseSize == 0 {
        return -1;
      }
      devLen := areaSize;
      blkSize := eraseSize;
      partLen := areaSize;
      inited := true;
      return 1;
    }

    /** A fal_init would initialise the port. */
    predicate Asks()
      reads this, port
    {
      !inited && port.Size() == 0
    }

    /** When a first fal_init succeeds: the port is set up already, or the platform lets it be. */
    predicate CanInit(a: Answers)
      reads this, port
    {
      && port.board.size > 0
      && if port.area == None then Answered(a) && port.pageSize > 0 else port.eraseSize > 0
    }

    /** The area is open but its page size was never learnt: fal_init fails and does not ask again. */
    predicate Stuck()
      reads this, port
    {
      !inited && port.area.Some? && port.board.size > 0 && port.eraseSize == 0
    }

    /** The fal_init that gets into that state: the first to open the area, not answered in full. */
    predicate GetsStuck(a: Answers)
      reads this, port
    {
      && !inited && port.area == None && port.board.size > 0
      && Opens(a) && !(Answered(a) && port.pageSize > 0)
    }

    /** part_is_valid. */
    predicate PartIsValid(part: PartRef)
      reads this
    {
      part == Ours && inited
    }

    /** fal_partition_read; buf is false for a null buffer. */
    method PartitionRead(part: PartRef, addr: uint32, buf: bool, size: uint32, o: Outcome) returns (ret: int, data: seq<Byte>)
      requires Valid() && Proper(o)
      ensures ret == if part == Ours && inited && buf && addr + size <= port.board.size && o.Works? then size else -1
      ensures ret != -1 ==> data == port.Part()[addr..addr + size]
    {
      data := [];
      if !PartIsValid(part) || !buf {
        return -1, data;
      }
      if addr > partLen || size > partLen - addr {
        return -1, data;
      }
      ret, data := port.Read(ToSigned(addr), size, o);
      ret := if ret == 0 then ToSigned(size) else -1;
    }

    /** fal_partition_write; data is None for a null buffer. */
    method PartitionWrite(part: PartRef, addr: uint32, data: Option<seq<Byte>>, o: Outcome) returns (ret: int)
      requires Valid() && Proper(o) && (data.Some? ==> |data.value| < 0x1_0000_0000)
      modifies port.flash.mem
      ensures Valid()
      ensures ret == if part == Ours && inited && data.Some? && addr + |data.value| <= port.board.size && o.Works?
                        && (port.board.off + addr) % port.flash.writeBlock == 0
                        && |data.value| % port.flash.writeBlock == 0 then |data.value| else -1
      ensures part == Foreign || !inited || data == None || addr + |data.value| > port.board.size ==>
                port.flash.mem[..] == old(port.flash.mem[..])
      ensures data.Some? ==> port.ConfinedTo(addr, |data.value|)
      ensures ret != -1 ==> port.Part() == Programmed(old(port.Part()), addr, data.value)
      ensures ret != -1 && (forall i :: addr <= i < addr + |data.value| ==> old(port.Part())[i] == FF) ==>
                port.Part()[addr..addr + |data.value|] == data.value
    {
      hide Programmed;
      if !PartIsValid(part) || data == None {
        return -1;
      }
      var size: uint32 := |data.value|;
      if addr > partLen || size > partLen - addr {
        return -1;
      }
      ret := port.Write(ToSigned(addr), data.value, o);
      ret := if ret == 0 then ToSigned(size) else -1;
    }

    /** fal_partition_erase. */
    method PartitionErase(part: PartRef, addr: uint32, size: uint32, o: Outcome) returns (ret: int)
      requires Valid() && Proper(o)
      modifies port.flash.mem
      ensures Valid()
      ensures ret == if part == Ours && inited && addr + size <= port.board.size && o.Works?
                        && (port.board.off + addr) % port.flash.eraseUnit == 0
                        && size % port.flash.eraseUnit == 0 then size else -1
      ensures part == Foreign || !inited || addr + size > port.board.size ==>
                port.flash.mem[..] == old(port.flash.mem[..])
      ensures port.ConfinedTo(addr, size)
      ensures ret != -1 ==> forall i :: 0 <= i < port.board.size ==>
                port.Part()[i] == if addr <= i < addr + size then FF else old(port.Part())[i]
    {
      if !PartIsValid(part) {
        return -1;
      }
      if addr > partLen || size > partLen - addr {
        return -1;
      }
      ret := port.Erase(ToSigned(addr), size, o);
      ret := if ret == 0 then ToSigned(size) else -1;
    }

    /** fal_partition_erase_all. */
    method PartitionEraseAll(part: PartRef, o: Outcome) returns (ret: int)
      requires Valid() && Proper(o)
      modifies port.flash.mem
      ensures Valid()
      ensures ret == if part == Ours && inited && o.Works? && port.board.off % port.flash.eraseUnit == 0
                        && port.board.size % port.flash.eraseUnit == 0 then port.board.size else -1
      ensures part == Foreign || !inited ==> port.flash.mem[..] == old(port.flash.mem[..])
      ensures port.ConfinedTo(0, port.board.size)
      ensures ret != -1 ==> forall i :: 0 <= i < port.board.size ==> port.Part()[i] == FF
    {
      if !PartIsValid(part) {
        return -1;
      }
      ret := PartitionErase(part, 0, partLen, o);
    }
  }
}
