/**
 A NOR flash device behind the Zephyr flash API: programming can only clear bits, erasing sets
 whole units to 0xFF. A call either succeeds, or fails with an error after part of the work.
 */
module NorFlash {
  import opened Bytes
  import opened Errno

  /** What becomes of a flash operation: it works, or stops with an error after some bytes. */
  datatype Outcome = Works | Fails(err: int, after: nat)

  predicate Proper(o: Outcome) { o.Fails? ==> o.err != 0 }

  /** The cells after programming data at off. */
  function Programmed(mem: seq<Byte>, off: nat, data: seq<Byte>): (r: seq<Byte>)
    requires off + |data| <= |mem|
    ensures |r| == |mem|
    ensures r[..off] == mem[..off] && r[off + |data|..] == mem[off + |data|..]
  {
    seq(|mem|, i requires 0 <= i < |mem| => if off <= i < off + |data| then And(mem[i], data[i - off]) else mem[i])
  }

  /** The cells after erasing len bytes at off. */
  function Erased(mem: seq<Byte>, off: nat, len: nat): (r: seq<Byte>)
    requires off + len <= |mem|
    ensures |r| == |mem|
    ensures r[..off] == mem[..off] && r[off + len..] == mem[off + len..]
  {
    seq(|mem|, i requires 0 <= i < |mem| => if off <= i < off + len then FF else mem[i])
  }

  function Blank(n: nat): (r: seq<Byte>)
    ensures |r| == n
  {
    seq(n, i => FF)
  }

  /** On any cells: the data is stored exactly if none of its ones falls on a cell already cleared. */
  lemma ProgramStoresIff(mem: seq<Byte>, off: nat, data: seq<Byte>)
    requires off + |data| <= |mem|
    ensures Programmed(mem, off, data)[off..off + |data|] == data
            <==> forall i :: 0 <= i < |data| ==> And(mem[off + i], data[i]) == data[i]
  {
    var r := Programmed(mem, off, data);
    forall i | 0 <= i < |data| ensures r[off..off + |data|][i] == And(mem[off + i], data[i]) {}
    if r[off..off + |data|] == data {
      forall i | 0 <= i < |data| ensures And(mem[off + i], data[i]) == data[i] {
        assert r[off..off + |data|][i] == data[i];
      }
    }
  }

  /** Programming inside a part of the device is programming that part. */
  lemma ProgramInPart(mem: seq<Byte>, base: nat, size: nat, off: nat, data: seq<Byte>)
    requires base + size <= |mem| && off + |data| <= size
    ensures Programmed(mem, base + off, data)[base..base + size] == Programmed(mem[base..base + size], off, data)
  {}

  lemma EraseInPart(mem: seq<Byte>, base: nat, size: nat, off: nat, len: nat)
    requires base + size <= |mem| && off + len <= size
    ensures Erased(mem, base + off, len)[base..base + size] == Erased(mem[base..base + size], off, len)
  {}

  class Device {
    const mem: array<Byte>
    const writeBlock: nat
    const eraseUnit: nat

    ghost predicate Valid()
    {
      writeBlock > 0 && eraseUnit > 0
    }

    constructor (size: nat, writeBlock: nat, eraseUnit: nat)
      requires writeBlock > 0 && eraseUnit > 0
      ensures Valid() && fresh(mem) && mem.Length == size
      ensures this.writeBlock == writeBlock && this.eraseUnit == eraseUnit
    {
      mem := new Byte[size](_ => FF);
      this.writeBlock, this.eraseUnit := writeBlock, eraseUnit;
    }

    predicate WriteFits(off: int, len: nat)
      requires Valid()
    {
      0 <= off && off + len <= mem.Length && off % writeBlock == 0 && len % writeBlock == 0
    }

    predicate EraseFits(off: int, len: nat)
      requires Valid()
    {
      0 <= off && off + len <= mem.Length && off % eraseUnit == 0 && len % eraseUnit == 0
    }

    /** flash_read. */
    method Read(off: int, len: nat, o: Outcome) returns (ret: int, data: seq<Byte>)
      requires Proper(o)
      ensures ret == if off < 0 || off + len > mem.Length then -EINVAL else if o.Works? then 0 else o.err
      ensures ret == 0 ==> data == mem[off..off + len]
    {
      data := [];
      if off < 0 || off + len > mem.Length {
        return -EINVAL, data;
      }
      if o.Fails? {
        return o.err, data;
      }
      return 0, mem[off..off + len];
    }

    /** flash_write. */
    method Write(off: int, data: seq<Byte>, o: Outcome) returns (ret: int)
      requires Valid() && Proper(o)
      modifies mem
      ensures ret == if !WriteFits(off, |data|) then -EINVAL else if o.Works? then 0 else o.err
      ensures ret == -EINVAL && !WriteFits(off, |data|) ==> mem[..] == old(mem[..])
      ensures ret == 0 ==> mem[..] == Programmed(old(mem[..]), off, data)
      ensures WriteFits(off, |data|) && o.Fails? ==>
                mem[..] == Programmed(old(mem[..]), off, data[..Min(o.after, |data|)])
      ensures WriteFits(off, |data|) ==>
                forall i :: 0 <= i < mem.Length && !(off <= i < off + |data|) ==> mem[i] == old(mem[i])
    {
      if !WriteFits(off, |data|) {
        return -EINVAL;
      }
      var k := if o.Works? then |data| else Min(o.after, |data|);
      var i := 0;
      while i < k
        invariant 0 <= i <= k
        invariant forall j :: 0 <= j < mem.Length && !(off <= j < off + i) ==> mem[j] == old(mem[j])
        invariant forall j :: off <= j < off + i ==> mem[j] == And(old(mem[j]), data[j - off])
      {
        mem[off + i] := And(mem[off + i], data[i]);
        i := i + 1;
      }
      ret := if o.Works? then 0 else o.err;
    }

    /** flash_erase. */
    method Erase(off: int, len: nat, o: Outcome) returns (ret: int)
      requires Valid() && Proper(o)
      modifies mem
      ensures ret == if !EraseFits(off, len) then -EINVAL else if o.Works? then 0 else o.err
      ensures ret == -EINVAL && !EraseFits(off, len) ==> mem[..] == old(mem[..])
      ensures ret == 0 ==> mem[..] == Erased(old(mem[..]), off, len)
      ensures EraseFits(off, len) && o.Fails? ==> mem[..] == Erased(old(mem[..]), off, Min(o.after, len))
      ensures EraseFits(off, len) ==>
                forall i :: 0 <= i < mem.Length && !(off <= i < off + len) ==> mem[i] == old(mem[i])
    {
      if !EraseFits(off, len) {
        return -EINVAL;
      }
      var k := if o.Works? then len else Min(o.after, len);
      var i := 0;
      while i < k
        invariant 0 <= i <= k
        invariant forall j :: 0 <= j < mem.Length && !(off <= j < off + i) ==> mem[j] == old(mem[j])
        invariant forall j :: off <= j < off + i ==> mem[j] == FF
      {
        mem[off + i] := FF;
        i := i + 1;
      }
      ret := if o.Works? then 0 else o.err;
    }
  }
}
