/**
 flashdb_port_zephyr.c: bounds-checked access to one partition of the flash, and its self-test.
 off_t and size_t are 32 bits wide.
 */
module FlashPort {
  import opened Bytes
  import opened Errno
  import opened NorFlash
  import opened Arith

  const TEST_BUF: nat := 64

  /** struct flash_area, as far as it is used. */
  datatype Area = Area(off: nat, size: nat)

  /** What the platform answers to one call of flashdb_port_init. */
  datatype Answers = Answers(openRet: int, ready: bool, pageRet: int, align: nat)

  /** flashdb_check_range's test for an open area of the given size. */
  predicate InRange(size: nat, off: int, len: nat) {
    0 <= off <= size && len <= size - off
  }

  class Port {
    const flash: Device
    /** The flash_map entry that flash_area_open finds, and the page size at its start. */
    const board: Area
    const pageSize: nat
    var area: Option<Area>
    var eraseSize: nat
    var writeAlign: nat

    ghost predicate Valid()
      reads this
    {
      && flash.Valid() && board.off + board.size <= flash.mem.Length
      && (area == None || area == Some(board))
      && (eraseSize == 0 || (eraseSize == pageSize && area == Some(board)))
    }

    constructor (flash: Device, board: Area, pageSize: nat)
      requires flash.Valid() && board.off + board.size <= flash.mem.Length
      ensures Valid() && area == None && eraseSize == 0
      ensures this.flash == flash && this.board == board && this.pageSize == pageSize
    {
      this.flash, this.board, this.pageSize := flash, board, pageSize;
      area, eraseSize, writeAlign := None, 0, 0;
    }

    /** The partition as a plain array of bytes. */
    ghost function Part(): seq<Byte>
      requires Valid()
      reads this, flash.mem
    {
      flash.mem[board.off..board.off + board.size]
    }

    /** flashdb_port_init. */
    method Init(a: Answers) returns (ret: int)
      requires Valid()
      modifies this
      ensures Valid()
      ensures ret == if a.openRet != 0 then a.openRet else if !a.ready then -ENODEV else a.pageRet
      ensures area == if a.openRet == 0 then Some(board) else old(area)
      ensures ret == 0 ==> eraseSize == pageSize && writeAlign == if a.align == 0 then 1 else a.align
      ensures ret != 0 ==> eraseSize == old(eraseSize) && writeAlign == old(writeAlign)
    {
      if a.openRet != 0 {
        return a.openRet;
      }
      area := Some(board);
      if !a.ready {
        return -ENODEV;
      }
      if a.pageRet != 0 {
        return a.pageRet;
      }
      eraseSize := pageSize;
      writeAlign := a.align;
      if writeAlign == 0 {
        writeAlign := 1;
      }
      return 0;
    }

    /** flashdb_port_size. */
    function Size(): nat
      reads this
    {
      if area == None then 0 else area.value.size
    }

    /** flashdb_check_range. */
    function CheckRange(off: int, len: nat): (ret: int)
      reads this
      ensures ret == 0 <==> area.Some? && InRange(area.value.size, off, len)
      ensures ret == if area == None then -EACCES else if 0 <= off && off + len <= area.value.size then 0 else -EINVAL
    {
      if area == None then -EACCES
      else if off < 0 || off > area.value.size || len > area.value.size - off then -EINVAL
      else 0
    }

    /** flashdb_port_read. */
    method Read(off: int, len: nat, o: Outcome) returns (ret: int, data: seq<Byte>)
      requires Valid() && Proper(o)
      ensures ret == if CheckRange(off, len) != 0 then CheckRange(off, len) else if o.Works? then 0 else o.err
      ensures ret == 0 ==> data == Part()[off..off + len]
    {
      data := [];
      ret := CheckRange(off, len);
      if ret != 0 {
        return;
      }
      ret, data := flash.Read(area.value.off + off, len, o);
      if ret == 0 {
        SliceOfPart(flash.mem[..], board.off, board.size, off, len);
        assert flash.mem[..][board.off..board.off + board.size] == Part();
        assert flash.mem[..][board.off + off..board.off + off + len] == data;
      }
    }

    /** Nothing changed outside len bytes at off of the partition. */
    twostate predicate ConfinedTo(off: int, len: nat)
      reads flash.mem
    {
      forall i :: 0 <= i < flash.mem.Length && !(board.off + off <= i < board.off + off + len) ==>
        flash.mem[i] == old(flash.mem[i])
    }

    /** The range lies in the open area and the device would erase it. */
    predicate Erasable(off: int, len: nat)
      requires flash.Valid()
      reads this
    {
      CheckRange(off, len) == 0 && flash.EraseFits(board.off + off, len)
    }

    /** The range lies in the open area and the device would program it. */
    predicate Writable(off: int, len: nat)
      requires flash.Valid()
      reads this
    {
      CheckRange(off, len) == 0 && flash.WriteFits(board.off + off, len)
    }

    /** flashdb_port_write. */
    method Write(off: int, data: seq<Byte>, o: Outcome) returns (ret: int)
      requires Valid() && Proper(o)
      modifies flash.mem
      ensures ret == if CheckRange(off, |data|) != 0 then CheckRange(off, |data|)
                     else if !Writable(off, |data|) then -EINVAL else if o.Works? then 0 else o.err
      ensures !Writable(off, |data|) ==> flash.mem[..] == old(flash.mem[..])
      ensures CheckRange(off, |data|) == 0 ==> ConfinedTo(off, |data|)
      ensures ret == 0 ==> Part() == Programmed(old(Part()), off, data)
      ensures ret == 0 <==> area.Some? && 0 <= off && off + |data| <= board.size && o.Works?
                            && (board.off + off) % flash.writeBlock == 0 && |data| % flash.writeBlock == 0
      ensures ret == 0 && (forall i :: off <= i < off + |data| ==> old(Part())[i] == FF) ==>
                Part()[off..off + |data|] == data
      ensures forall i :: 0 <= i < flash.mem.Length && !(board.off <= i < board.off + board.size) ==>
                flash.mem[i] == old(flash.mem[i])
    {
      hide Programmed, And;
      ret := CheckRange(off, |data|);
      if ret != 0 {
        return;
      }
      ghost var mem := flash.mem[..];
      ret := flash.Write(area.value.off + off, data, o);
      if ret == 0 {
        ProgramInPart(mem, board.off, board.size, off, data);
        BlankTakes(old(Part()), off, data);
        assert flash.mem[..][board.off..board.off + board.size] == Part();
        assert mem[board.off..board.off + board.size] == old(Part());
      }
    }

    /** flashdb_port_erase. */
    method Erase(off: int, len: nat, o: Outcome) returns (ret: int)
      requires Valid() && Proper(o)
      modifies flash.mem
      ensures ret == if CheckRange(off, len) != 0 then CheckRange(off, len)
                     else if !Erasable(off, len) then -EINVAL else if o.Works? then 0 else o.err
      ensures !Erasable(off, len) ==> flash.mem[..] == old(flash.mem[..])
      ensures CheckRange(off, len) == 0 ==> ConfinedTo(off, len)
      ensures ret == 0 ==> Part() == Erased(old(Part()), off, len)
      ensures ret == 0 <==> area.Some? && 0 <= off && off + len <= board.size && o.Works?
                            && (board.off + off) % flash.eraseUnit == 0 && len % flash.eraseUnit == 0
      ensures ret == 0 ==> forall i :: 0 <= i < board.size ==>
                Part()[i] == if off <= i < off + len then FF else old(Part())[i]
      ensures forall i :: 0 <= i < flash.mem.Length && !(board.off <= i < board.off + board.size) ==>
                flash.mem[i] == old(flash.mem[i])
    {
      ret := CheckRange(off, len);
      if ret != 0 {
        return;
      }
      ghost var mem := flash.mem[..];
      ret := flash.Erase(area.value.off + off, len, o);
      if ret == 0 {
        EraseInPart(mem, board.off, board.size, off, len);
        assert flash.mem[..][board.off..board.off + board.size] == Part();
        assert mem[board.off..board.off + board.size] == old(Part());
      }
    }

    /** flashdb_port_self_test, given how the three flash operations turn out. */
    method SelfTest(align: nat, erase: Outcome, write: Outcome, read: Outcome) returns (ret: int)
      requires Valid() && Proper(erase) && Proper(write) && Proper(read)
      modifies flash.mem
      ensures area == None ==> ret == -EACCES && flash.mem[..] == old(flash.mem[..])
      ensures area.Some? && align > 64 ==> ret == -ENOMEM && flash.mem[..] == old(flash.mem[..])
      ensures area.Some? && align <= 64 ==> Tested(TestLen(align), erase, write, read, ret)
      ensures ret == 0 ==>
                && 18 <= board.size && Part()[17] == ByteFrom(0)
                && forall i :: 0 <= i < 17 ==> Part()[i] == ByteFrom("flashdb-qspi-test"[i] as int)
      ensures area.Some? && 0 < align <= 64 && align % flash.writeBlock == 0 && board.off % flash.writeBlock == 0
              && board.off % flash.eraseUnit == 0 && eraseSize % flash.eraseUnit == 0 && 64 <= eraseSize <= board.size
              && erase.Works? && write.Works? && read.Works? ==>
                ret == 0
      ensures forall i :: 0 <= i < flash.mem.Length && !(board.off <= i < board.off + board.size) ==>
                flash.mem[i] == old(flash.mem[i])
    {
      if area == None {
        return -EACCES;
      }
      TestLenIsLeast(align);
      var wrLen := TestLen(align);
      if wrLen > TEST_BUF {
        return -ENOMEM;
      }
      if align % flash.writeBlock == 0 && align > 0 {
        MultipleOfMultiple(wrLen, align, flash.writeBlock);
      }
      ret := EraseWriteRead(wrLen, erase, write, read);
    }

    /** What the self-test returns and leaves behind, for a pattern of len bytes. */
    twostate predicate Tested(len: nat, erase: Outcome, write: Outcome, read: Outcome, ret: int)
      requires old(Valid()) && Valid() && area.Some?
      reads this, flash.mem
    {
      if !Erasable(0, eraseSize) then
        ret == -EINVAL && flash.mem[..] == old(flash.mem[..])
      else if erase.Fails? then
        ret == erase.err && ConfinedTo(0, eraseSize)
      else if !Writable(0, len) then
        ret == -EINVAL && ConfinedTo(0, eraseSize) && Part() == Erased(old(Part()), 0, eraseSize)
      else
        && ConfinedTo(0, if eraseSize > len then eraseSize else len)
        && if write.Fails? then ret == write.err
           else
             && Part() == Programmed(Erased(old(Part()), 0, eraseSize), 0, TestBytes(len))
             && ret == if read.Fails? then read.err
                       else if Storable(old(Part()), eraseSize, len) then 0 else -EIO
    }

    /** The three flash operations of the self-test and its comparison. */
    method EraseWriteRead(wrLen: nat, erase: Outcome, write: Outcome, read: Outcome) returns (ret: int)
      requires Valid() && area.Some? && Proper(erase) && Proper(write) && Proper(read)
      modifies flash.mem
      ensures Tested(wrLen, erase, write, read, ret)
      ensures forall i :: 0 <= i < flash.mem.Length && !(board.off <= i < board.off + board.size) ==>
                flash.mem[i] == old(flash.mem[i])
      ensures ret == 0 ==> wrLen <= board.size && Part()[..wrLen] == TestBytes(wrLen)
    {
      ret := Erase(0, eraseSize, erase);
      if ret != 0 {
        return;
      }
      ret := WriteRead(wrLen, write, read);
      if Writable(0, wrLen) {
        StorableIff(old(Part()), eraseSize, wrLen);
      }
    }

    /** The write and the read with the comparison. */
    method WriteRead(wrLen: nat, write: Outcome, read: Outcome) returns (ret: int)
      requires Valid() && area.Some? && Proper(write) && Proper(read)
      modifies flash.mem
      ensures !Writable(0, wrLen) ==> ret == -EINVAL && flash.mem[..] == old(flash.mem[..])
      ensures Writable(0, wrLen) ==> ConfinedTo(0, wrLen)
      ensures Writable(0, wrLen) && write.Fails? ==> ret == write.err
      ensures Writable(0, wrLen) && write.Works? ==>
                && Part() == Programmed(old(Part()), 0, TestBytes(wrLen))
                && ret == if read.Fails? then read.err else if Part()[0..wrLen] == TestBytes(wrLen) then 0 else -EIO
      ensures ret == 0 ==> wrLen <= board.size && Part()[..wrLen] == TestBytes(wrLen)
      ensures forall i :: 0 <= i < flash.mem.Length && !(board.off <= i < board.off + board.size) ==>
                flash.mem[i] == old(flash.mem[i])
    {
      var tx := TestBytes(wrLen);
      ret := Write(0, tx, write);
      if ret != 0 {
        return;
      }
      var rx;
      ret, rx := Read(0, wrLen, read);
      if ret != 0 {
        return;
      }
      if tx != rx {
        return -EIO;
      }
      return 0;
    }
  }

  /** Blank cells store any data. */
  lemma {:induction false} BlankTakes(part: seq<Byte>, off: nat, data: seq<Byte>)
    requires off + |data| <= |part|
    ensures (forall i :: off <= i < off + |data| ==> part[i] == FF) ==>
              Programmed(part, off, data)[off..off + |data|] == data
  {
    ProgramStoresIff(part, off, data);
    if forall i :: off <= i < off + |data| ==> part[i] == FF {
      forall i | 0 <= i < |data| ensures And(part[off + i], data[i]) == data[i] {
        assert part[off + i] == FF;
      }
    }
  }

  /** Reading inside a part of the device is reading that part. */
  lemma SliceOfPart(mem: seq<Byte>, base: nat, size: nat, off: nat, len: nat)
    requires base + size <= |mem| && off + len <= size
    ensures mem[base + off..base + off + len] == mem[base..base + size][off..off + len]
  {
    var a, b := mem[base + off..base + off + len], mem[base..base + size][off..off + len];
    assert |a| == |b| && forall i :: 0 <= i < len ==> a[i] == mem[base + off + i] == b[i];
  }

  /** What the self-test writes: its message with the closing NUL, then 0xFF up to len. */
  function TestBytes(len: nat): (r: seq<Byte>)
    ensures |r| == len
  {
    seq(len, i requires 0 <= i < len =>
      if i < |MESSAGE| then ByteFrom(MESSAGE[i] as int) else if i == |MESSAGE| then ByteFrom(0) else FF)
  }

  const MESSAGE: string := "flashdb-qspi-test"

  /** ROUND_UP(sizeof(msg), align), with an alignment of 0 taken as 1. */
  function TestLen(align: nat): nat {
    var a := if align == 0 then 1 else align;
    (|MESSAGE| + 1 + a - 1) / a * a
  }

  /** The pattern is as long as the least multiple of the alignment not below 18, so too long exactly from 65 on. */
  lemma {:induction false} TestLenIsLeast(align: nat)
    ensures var a := if align == 0 then 1 else align;
            TestLen(align) % a == 0 && 18 <= TestLen(align) < 18 + a
    ensures TestLen(align) <= 64 <==> align <= 64
    ensures |MESSAGE| == 17
  {
    var a := if align == 0 then 1 else align;
    assert |MESSAGE| == 17;
    RoundUp(18, a);
    assert 18 + a - 1 == |MESSAGE| + 1 + a - 1;
    if 18 <= a {
      LeastIsOne(a);
    }
  }

  lemma {:induction false} LeastIsOne(a: nat)
    requires 18 <= a
    ensures (18 + a - 1) / a * a == a
  {
    DivModUnique(18 + a - 1, a, 1, 17);
  }

  lemma {:induction false} MultipleOfMultiple(x: nat, a: nat, m: nat)
    requires a > 0 && m > 0 && x % a == 0 && a % m == 0
    ensures x % m == 0
  {
    TimesMod(a, x / a, m);
    assert x == a * (x / a);
  }

  /** The part of the test pattern past the erased block falls on cells that can still take it. */
  predicate Storable(part: seq<Byte>, erased: nat, len: nat)
    requires erased <= |part| && len <= |part|
  {
    forall i :: erased <= i < len ==> And(part[i], TestBytes(len)[i]) == TestBytes(len)[i]
  }

  /** The comparison of the self-test succeeds exactly then. */
  lemma StorableIff(part: seq<Byte>, erased: nat, len: nat)
    requires erased <= |part| && len <= |part|
    ensures Programmed(Erased(part, 0, erased), 0, TestBytes(len))[0..len] == TestBytes(len) <==> Storable(part, erased, len)
  {
    var blank, tx := Erased(part, 0, erased), TestBytes(len);
    ProgramStoresIff(blank, 0, tx);
    if forall i :: 0 <= i < len ==> And(blank[0 + i], tx[i]) == tx[i] {
      forall i | erased <= i < len ensures And(part[i], tx[i]) == tx[i] {
        assert blank[0 + i] == part[i];
      }
    }
  }

  /** With an erase block as long as the pattern the test always passes, on any flash contents. */
  lemma SelfTestEffect(part: seq<Byte>, erased: nat, len: nat)
    requires len <= erased <= |part|
    ensures Storable(part, erased, len)
    ensures Programmed(Erased(part, 0, erased), 0, TestBytes(len)) == TestBytes(len) + Blank(erased - len) + part[erased..]
  {
    var r := Programmed(Erased(part, 0, erased), 0, TestBytes(len));
    forall i | 0 <= i < |part| ensures r[i] == (TestBytes(len) + Blank(erased - len) + part[erased..])[i] {}
  }
}
