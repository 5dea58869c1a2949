/**
 qspi_service.c: a log appended to the first 4 KiB of a NOR flash. Records are padded with 0xFF to
 the write block; a record that would not fit erases the window and starts again at its beginning.
 */
module QspiLog {
  import opened Bytes
  import opened Errno
  import opened NorFlash
  import opened Arith

  const REGION: nat := 4096
  const TMP: nat := 64
  const LINE: nat := 16

  /** The length of a record rounded up to whole write blocks. */
  function Padded(len: nat, wb: nat): (p: nat)
    requires wb > 0
    ensures len <= p < len + wb
    decreases len
  {
    if len == 0 then 0 else if len <= wb then wb else wb + Padded(len - wb, wb)
  }

  lemma {:induction false} PaddedAligned(len: nat, wb: nat)
    requires wb > 0
    ensures Padded(len, wb) % wb == 0
    decreases len
  {
    if len > wb {
      PaddedAligned(len - wb, wb);
      SumMod(wb, Padded(len - wb, wb), wb);
    }
  }

  /** The rounding of qspi_service_write is the next multiple. */
  lemma PaddedIsRounding(len: nat, wb: nat)
    requires wb > 0
    ensures Padded(len, wb) == if len % wb != 0 then ((len + wb - 1) / wb) * wb else len
  {
    var p, q := Padded(len, wb), if len % wb != 0 then ((len + wb - 1) / wb) * wb else len;
    PaddedAligned(len, wb);
    RoundUp(len, wb);
    NextMultiple(p, q, wb);
    NextMultiple(q, p, wb);
  }

  /** A write block that divides the buffer leaves room for the padding. */
  lemma PaddedFits(len: nat, wb: nat)
    requires wb > 0 && 64 % wb == 0 && len <= 64
    ensures Padded(len, wb) <= TMP
  {
    PaddedAligned(len, wb);
    NextMultiple(Padded(len, wb), TMP, wb);
  }

  function Pad(data: seq<Byte>, wb: nat): (r: seq<Byte>)
    requires wb > 0
    ensures |r| == Padded(|data|, wb) && r[..|data|] == data
  {
    data + Blank(Padded(|data|, wb) - |data|)
  }

  /** The in-order concatenation of padded records. */
  function Layout(recs: seq<seq<Byte>>, wb: nat): seq<Byte>
    requires wb > 0
  {
    if recs == [] then [] else Layout(recs[..|recs| - 1], wb) + Pad(recs[|recs| - 1], wb)
  }

  lemma {:induction false} LayoutAligned(recs: seq<seq<Byte>>, wb: nat)
    requires wb > 0
    ensures |Layout(recs, wb)| % wb == 0
    decreases recs
  {
    if recs != [] {
      var k := |recs| - 1;
      LayoutAligned(recs[..k], wb);
      PaddedAligned(|recs[k]|, wb);
      SumMod(|Layout(recs[..k], wb)|, Padded(|recs[k]|, wb), wb);
    }
  }

  lemma LayoutSnoc(recs: seq<seq<Byte>>, data: seq<Byte>, wb: nat)
    requires wb > 0
    ensures Layout(recs + [data], wb) == Layout(recs, wb) + Pad(data, wb)
  {
    assert (recs + [data])[..|recs|] == recs;
  }

  lemma LayoutNone(wb: nat)
    requires wb > 0
    ensures Layout([], wb) == []
  {}

  // ---- laps

  /** A write that reached the device, and whether it returned 0; or an erase of the window. */
  datatype Call = Wrote(data: seq<Byte>, ok: bool) | Cleared

  /** The records written one behind the other from origin on. */
  datatype Lap = Lap(origin: nat, recs: seq<seq<Byte>>)

  /** Where the next record goes. */
  function End(l: Lap, wb: nat): nat
    requires wb > 0
  {
    l.origin + |Layout(l.recs, wb)|
  }

  lemma EndAligned(l: Lap, wb: nat)
    requires wb > 0 && l.origin % wb == 0
    ensures End(l, wb) % wb == 0
  {
    LayoutAligned(l.recs, wb);
    SumMod(l.origin, |Layout(l.recs, wb)|, wb);
  }

  /** A record that does not fit starts a new lap at the beginning of the window. */
  function Turned(l: Lap, data: seq<Byte>, wb: nat): Lap
    requires wb > 0
  {
    if End(l, wb) + Padded(|data|, wb) > REGION then Lap(0, []) else l
  }

  function LapStep(l: Lap, c: Call, wb: nat): Lap
    requires wb > 0
  {
    match c
    case Cleared => Lap(End(l, wb), [])
    case Wrote(data, ok) =>
      var t := Turned(l, data, wb);
      if ok then Lap(t.origin, t.recs + [data]) else t
  }

  function LapOf(calls: seq<Call>, wb: nat): Lap
    requires wb > 0
    decreases calls
  {
    if calls == [] then Lap(0, []) else LapStep(LapOf(calls[..|calls| - 1], wb), calls[|calls| - 1], wb)
  }

  lemma LapSnoc(calls: seq<Call>, c: Call, wb: nat)
    requires wb > 0
    ensures LapOf(calls + [c], wb) == LapStep(LapOf(calls, wb), c, wb)
  {
    assert (calls + [c])[..|calls|] == calls;
  }

  /** The data of the writes that returned 0. */
  function Stored(calls: seq<Call>): seq<seq<Byte>>
    decreases calls
  {
    if calls == [] then []
    else
      var c := calls[|calls| - 1];
      Stored(calls[..|calls| - 1]) + if c.Wrote? && c.ok then [c.data] else []
  }

  predicate Suffix(recs: seq<seq<Byte>>, all: seq<seq<Byte>>) {
    |recs| <= |all| && recs == all[|all| - |recs|..]
  }

  /** The lap holds the last of the stored records, the very last included, and fits the window. */
  predicate IsTail(l: Lap, calls: seq<Call>, wb: nat)
    requires wb > 0
  {
    && Suffix(l.recs, Stored(calls))
    && (calls != [] && calls[|calls| - 1].Wrote? && calls[|calls| - 1].ok ==> l.recs != [])
    && l.origin % wb == 0 && End(l, wb) <= REGION
  }

  lemma {:induction false} LapIsTail(calls: seq<Call>, wb: nat)
    requires wb > 0 && forall i :: 0 <= i < |calls| && calls[i].Wrote? ==> Padded(|calls[i].data|, wb) <= TMP
    ensures IsTail(LapOf(calls, wb), calls, wb)
    decreases calls
  {
    if calls != [] {
      hide IsTail, LapStep;
      var init := calls[..|calls| - 1];
      LapIsTail(init, wb);
      TailStep(LapOf(init, wb), init, calls[|calls| - 1], wb);
      assert calls == init + [calls[|calls| - 1]];
    }
  }

  lemma TailStep(l: Lap, calls: seq<Call>, c: Call, wb: nat)
    requires wb > 0 && (c.Wrote? ==> Padded(|c.data|, wb) <= TMP) && IsTail(l, calls, wb)
    ensures IsTail(LapStep(l, c, wb), calls + [c], wb)
  {
    hide Suffix, Stored, Layout, Padded;
    StoredSnoc(calls, c);
    EmptySuffix(Stored(calls));
    assert Stored(calls) + [] == Stored(calls);
    match c
    case Cleared =>
      EndAligned(l, wb);
      LayoutNone(wb);
    case Wrote(data, ok) =>
      LapFits(l, data, wb);
      SuffixSnoc(Turned(l, data, wb).recs, Stored(calls), data);
  }

  lemma StoredSnoc(calls: seq<Call>, c: Call)
    ensures Stored(calls + [c]) == Stored(calls) + if c.Wrote? && c.ok then [c.data] else []
  {
    assert (calls + [c])[..|calls|] == calls;
  }

  lemma LapFits(l: Lap, data: seq<Byte>, wb: nat)
    requires wb > 0 && Padded(|data|, wb) <= TMP && End(l, wb) <= REGION
    ensures var t := Turned(l, data, wb);
            End(Lap(t.origin, t.recs + [data]), wb) == End(t, wb) + Padded(|data|, wb) <= REGION
  {
    LayoutSnoc(Turned(l, data, wb).recs, data, wb);
  }

  lemma SuffixSnoc(recs: seq<seq<Byte>>, all: seq<seq<Byte>>, data: seq<Byte>)
    requires Suffix(recs, all)
    ensures Suffix(recs + [data], all + [data])
  {
    assert (all + [data])[|all| - |recs|..] == all[|all| - |recs|..] + [data];
  }

  lemma EmptySuffix(all: seq<seq<Byte>>)
    ensures Suffix([], all)
  {}

  // ---- what is on the flash

  /** The window from the lap's origin on: the records, then erased cells. */
  function Window(l: Lap, wb: nat): seq<Byte>
    requires wb > 0 && End(l, wb) <= REGION
  {
    Layout(l.recs, wb) + Blank(REGION - End(l, wb))
  }

  /** Where record i starts. */
  function Start(recs: seq<seq<Byte>>, i: nat, wb: nat): nat
    requires wb > 0 && i <= |recs|
  {
    |Layout(recs[..i], wb)|
  }

  lemma {:induction false} RecordInLayout(recs: seq<seq<Byte>>, i: nat, wb: nat)
    requires wb > 0 && i < |recs|
    ensures Start(recs, i, wb) + |recs[i]| <= |Layout(recs, wb)|
    ensures Layout(recs, wb)[Start(recs, i, wb)..Start(recs, i, wb) + |recs[i]|] == recs[i]
    decreases recs
  {
    hide Padded, Pad;
    var k := |recs| - 1;
    var front, p := Layout(recs[..k], wb), Pad(recs[k], wb);
    if i < k {
      RecordInLayout(recs[..k], i, wb);
      assert recs[..k][..i] == recs[..i];
      PrefixSlice(front, p, Start(recs, i, wb), Start(recs, i, wb) + |recs[i]|);
    } else {
      MiddleSlice(front, p, |recs[k]|);
    }
  }

  lemma PrefixSlice(x: seq<Byte>, y: seq<Byte>, a: nat, b: nat)
    requires a <= b <= |x|
    ensures (x + y)[a..b] == x[a..b]
  {}

  lemma MiddleSlice(x: seq<Byte>, y: seq<Byte>, len: nat)
    requires len <= |y|
    ensures (x + y)[|x|..|x| + len] == y[..len]
  {}

  lemma SliceOfSlice(mem: seq<Byte>, lo: nat, hi: nat, a: nat, b: nat)
    requires lo <= hi <= |mem| && a <= b <= hi - lo
    ensures mem[lo..hi][a..b] == mem[lo + a..lo + b]
  {
    var x, y := mem[lo..hi][a..b], mem[lo + a..lo + b];
    assert |x| == |y| && forall i :: 0 <= i < |y| ==> x[i] == mem[lo + a + i] == y[i];
  }

  /** Every record of a logged lap reads back exactly. */
  lemma RecordReadsBack(mem: seq<Byte>, l: Lap, i: nat, wb: nat)
    requires wb > 0 && End(l, wb) <= REGION <= |mem| && mem[l.origin..REGION] == Window(l, wb)
    requires i < |l.recs|
    ensures var at := l.origin + Start(l.recs, i, wb);
            at + |l.recs[i]| <= REGION && mem[at..at + |l.recs[i]|] == l.recs[i]
  {
    RecordInLayout(l.recs, i, wb);
    var a, b := Start(l.recs, i, wb), Start(l.recs, i, wb) + |l.recs[i]|;
    SliceOfSlice(mem, l.origin, REGION, a, b);
    PrefixSlice(Layout(l.recs, wb), Blank(REGION - End(l, wb)), a, b);
  }

  /** None of the ones of p falls on a bit already cleared in the cells from off on. */
  predicate Takes(cells: seq<Byte>, off: nat, p: seq<Byte>) {
    off + |p| <= |cells| && forall i :: 0 <= i < |p| ==> And(cells[off + i], p[i]) == p[i]
  }

  predicate BlankBetween(cells: seq<Byte>, lo: nat, hi: nat)
    requires hi <= |cells|
  {
    forall i :: lo <= i < hi ==> cells[i] == FF
  }

  /** Programming p leaves p followed by erased cells exactly if the cells take p and were erased behind. */
  lemma ProgramThenBlankIff(cells: seq<Byte>, off: nat, p: seq<Byte>)
    requires off + |p| <= REGION <= |cells|
    ensures Programmed(cells, off, p)[off..REGION] == p + Blank(REGION - off - |p|)
            <==> Takes(cells, off, p) && BlankBetween(cells, off + |p|, REGION)
  {
    var mid := off + |p|;
    var r := Programmed(cells, off, p);
    assert r[off..REGION] == r[off..mid] + r[mid..][..REGION - mid];
    ProgramStoresIff(cells, off, p);
    BlankIff(cells, mid, REGION);
    assert r[mid..][..REGION - mid] == cells[mid..][..REGION - mid] == cells[mid..REGION];
    PairIff(r[off..mid], cells[mid..REGION], p, Blank(REGION - mid));
  }

  lemma BlankIff(cells: seq<Byte>, lo: nat, hi: nat)
    requires lo <= hi <= |cells|
    ensures cells[lo..hi] == Blank(hi - lo) <==> BlankBetween(cells, lo, hi)
  {
    if cells[lo..hi] == Blank(hi - lo) {
      forall i | lo <= i < hi ensures cells[i] == FF {
        assert cells[lo..hi][i - lo] == FF;
      }
    }
  }

  lemma PairIff(a: seq<Byte>, b: seq<Byte>, c: seq<Byte>, d: seq<Byte>)
    requires |a| == |c|
    ensures a + b == c + d <==> a == c && b == d
  {
    if a + b == c + d {
      assert a == (a + b)[..|a|] && c == (c + d)[..|c|] && b == (a + b)[|a|..] && d == (c + d)[|c|..];
    }
  }

  /** A part of what was programmed reads back exactly if the cells under that part take it. */
  lemma PartStoredIff(cells: seq<Byte>, off: nat, p: seq<Byte>, a: nat, part: seq<Byte>)
    requires off + |p| <= |cells| && a + |part| <= |p| && part == p[a..a + |part|]
    ensures Programmed(cells, off, p)[off + a..off + a + |part|] == part <==> Takes(cells, off + a, part)
  {
    var r := Programmed(cells, off, p)[off + a..off + a + |part|];
    forall i | 0 <= i < |part| ensures r[i] == And(cells[off + a + i], part[i]) {
      assert part[i] == p[a..a + |part|][i] == p[a + i];
    }
    if r == part {
      forall i | 0 <= i < |part| ensures And(cells[off + a + i], part[i]) == part[i] {
        assert r[i] == part[i];
      }
    }
  }

  /** A record of a placed lap reads back exactly if the cells under it take it. */
  lemma RecordStoredIff(cells: seq<Byte>, l: Lap, i: nat, wb: nat)
    requires wb > 0 && i < |l.recs| && End(l, wb) <= |cells|
    ensures var at := l.origin + Start(l.recs, i, wb);
            && at + |l.recs[i]| <= End(l, wb)
            && (Programmed(cells, l.origin, Layout(l.recs, wb))[at..at + |l.recs[i]|] == l.recs[i]
                <==> Takes(cells, at, l.recs[i]))
  {
    hide Layout, Start, Takes, Programmed;
    RecordInLayout(l.recs, i, wb);
    var a := Start(l.recs, i, wb);
    PartStoredIff(cells, l.origin, Layout(l.recs, wb), a, l.recs[i]);
  }

  /** Programming one string behind another is programming both. */
  lemma ProgramTwice(cells: seq<Byte>, off: nat, a: seq<Byte>, b: seq<Byte>)
    requires off + |a| + |b| <= |cells|
    ensures Programmed(Programmed(cells, off, a), off + |a|, b) == Programmed(cells, off, a + b)
  {
    var x, y := Programmed(Programmed(cells, off, a), off + |a|, b), Programmed(cells, off, a + b);
    assert |x| == |y| && forall i :: 0 <= i < |y| ==> x[i] == y[i];
  }

  /** Programming two places that do not meet can be done in either order. */
  lemma ProgramCommutes(cells: seq<Byte>, off: nat, a: seq<Byte>, at: nat, b: seq<Byte>)
    requires off + |a| <= at && at + |b| <= |cells|
    ensures Programmed(Programmed(cells, off, a), at, b) == Programmed(Programmed(cells, at, b), off, a)
  {
    var x, y := Programmed(Programmed(cells, off, a), at, b), Programmed(Programmed(cells, at, b), off, a);
    assert |x| == |y| && forall i :: 0 <= i < |y| ==> x[i] == y[i];
  }

  /** Programming the next record over a placed lap places the longer lap. */
  lemma PlaceRecord(cells: seq<Byte>, l: Lap, data: seq<Byte>, wb: nat)
    requires wb > 0 && End(l, wb) + Padded(|data|, wb) <= |cells|
    ensures var m := Lap(l.origin, l.recs + [data]);
            && End(m, wb) == End(l, wb) + Padded(|data|, wb)
            && Programmed(Programmed(cells, l.origin, Layout(l.recs, wb)), End(l, wb), Pad(data, wb))
               == Programmed(cells, l.origin, Layout(m.recs, wb))
  {
    LayoutSnoc(l.recs, data, wb);
    ProgramTwice(cells, l.origin, Layout(l.recs, wb), Pad(data, wb));
  }

  lemma ProgramNothing(cells: seq<Byte>, off: nat)
    requires off <= |cells|
    ensures Programmed(cells, off, []) == cells
  {}

  /** Programming the next record behind a logged lap extends it by exactly that record. */
  lemma AppendToWindow(mem: seq<Byte>, l: Lap, data: seq<Byte>, wb: nat)
    requires wb > 0 && End(l, wb) + Padded(|data|, wb) <= REGION <= |mem|
    requires mem[l.origin..REGION] == Window(l, wb)
    ensures var m := Lap(l.origin, l.recs + [data]);
            && End(m, wb) <= REGION
            && Programmed(mem, End(l, wb), Pad(data, wb))[l.origin..REGION] == Window(m, wb)
  {
    hide Layout, Padded, Pad, Programmed, Blank;
    var w, p := Layout(l.recs, wb), Pad(data, wb);
    LayoutSnoc(l.recs, data, wb);
    assert |w + p| == |w| + |p|;
    ProgramBehind(mem, l.origin, w, p);
  }

  /** Programming p over the first blank cells behind w. */
  lemma ProgramBehind(mem: seq<Byte>, off: nat, w: seq<Byte>, p: seq<Byte>)
    requires off + |w| + |p| <= REGION <= |mem|
    requires mem[off..REGION] == w + Blank(REGION - (off + |w|))
    ensures Programmed(mem, off + |w|, p)[off..REGION] == (w + p) + Blank(REGION - (off + |(w + p)|))
  {
    var r, t := Programmed(mem, off + |w|, p)[off..REGION], (w + p) + Blank(REGION - (off + |(w + p)|));
    forall i | 0 <= i < REGION - off ensures r[i] == t[i] {
      assert mem[off + i] == mem[off..REGION][i] == (w + Blank(REGION - (off + |w|)))[i];
    }
  }

  class QspiService {
    const flash: Device
    var eraseSize: nat
    var writeBlock: nat
    var writeOff: nat
    /**
     The calls since the service was initialised, the lap they make, and the cells under it: what they
     held when the lap began, less what writes that failed have cleared since.
     */
    ghost var calls: seq<Call>
    ghost var lap: Lap
    ghost var cells: seq<Byte>

    ghost predicate Sound()
    {
      flash.Valid() && REGION <= flash.mem.Length
    }

    /** Before a first initialisation that found the device ready. */
    ghost predicate Unset()
      reads this
    {
      Sound() && writeBlock == 0 && writeOff == 0
    }

    /** The flash is the cells with the lap programmed over them, and the offset is behind the lap. */
    ghost predicate Placed()
      reads this, flash.mem
    {
      && Sound() && writeBlock == flash.writeBlock
      && lap.origin % writeBlock == 0 && End(lap, writeBlock) == writeOff <= REGION
      && |cells| == flash.mem.Length
      && flash.mem[..] == Programmed(cells, lap.origin, Layout(lap.recs, writeBlock))
    }

    /** What every call keeps, whatever the flash answers. */
    ghost predicate Ready()
      reads this, flash.mem
    {
      Placed() && lap == LapOf(calls, writeBlock)
    }

    /** From its origin on, the window holds exactly the records of the lap. */
    ghost predicate Logged()
      reads this, flash.mem
    {
      && Sound() && writeBlock > 0 && End(lap, writeBlock) <= REGION
      && flash.mem[lap.origin..REGION] == Window(lap, writeBlock)
    }

    constructor (flash: Device)
      requires flash.Valid() && REGION <= flash.mem.Length
      ensures this.flash == flash && Unset() && eraseSize == 0
    {
      this.flash := flash;
      eraseSize, writeBlock, writeOff := 0, 0, 0;
      calls, lap, cells := [], Lap(0, []), [];
    }

    /** qspi_service_init, given what the device answers; pageSize is the size of the first page. */
    method Init(ready: bool, pageRet: int, pageSize: nat) returns (ret: int)
      requires Unset() || Ready()
      modifies this
      ensures ret == if !ready then -ENODEV else if pageRet != 0 then -EIO else 0
      ensures !ready ==> writeBlock == old(writeBlock)
      ensures ready ==> Ready() && writeBlock == flash.writeBlock
      ensures eraseSize == if ret == 0 then pageSize else old(eraseSize)
      ensures writeOff == if ret == 0 then 0 else old(writeOff)
      ensures ret == 0 || (ready && old(Unset())) ==> calls == [] && cells == flash.mem[..]
      ensures ret != 0 && old(Ready()) ==> Ready() && calls == old(calls) && cells == old(cells)
    {
      if !ready {
        return -ENODEV;
      }
      if writeBlock == 0 {
        NoteStart();
      }
      writeBlock := flash.writeBlock;
      if pageRet != 0 {
        return -EIO;
      }
      eraseSize := pageSize;
      writeOff := 0;
      NoteStart();
      return 0;
    }

    /** No call yet: the cells are whatever the flash holds. */
    ghost method NoteStart()
      requires Sound()
      modifies this`calls, this`lap, this`cells
      ensures calls == [] && lap == Lap(0, []) && cells == flash.mem[..]
      ensures flash.mem[..] == Programmed(cells, 0, Layout([], flash.writeBlock))
    {
      calls, lap, cells := [], Lap(0, []), flash.mem[..];
      ProgramNothing(cells, 0);
    }

    /** Exactly when the window is the log of the lap. */
    lemma LoggedIff()
      requires Placed()
      ensures Logged() <==> Takes(cells, lap.origin, Layout(lap.recs, writeBlock)) && BlankBetween(cells, writeOff, REGION)
    {
      ProgramThenBlankIff(cells, lap.origin, Layout(lap.recs, writeBlock));
      assert flash.mem[..][lap.origin..REGION] == flash.mem[lap.origin..REGION];
    }

    /** An erased window is the empty log. */
    lemma FreshWindow()
      requires Ready() && calls == [] && flash.mem[..REGION] == Blank(REGION)
      ensures Logged()
    {
      assert flash.mem[0..REGION] == flash.mem[..REGION];
      assert [] + Blank(REGION) == Blank(REGION);
    }

    /** Where record i of the lap starts. */
    ghost function At(i: nat): nat
      requires writeBlock > 0 && i <= |lap.recs|
      reads this
    {
      lap.origin + Start(lap.recs, i, writeBlock)
    }

    /** The bytes at the given place of the flash are data. */
    ghost predicate Reads(at: nat, data: seq<Byte>)
      reads flash.mem
    {
      at + |data| <= flash.mem.Length && flash.mem[at..at + |data|] == data
    }

    /** Exactly when a record just programmed reads back. */
    lemma ReadsIff(mem: seq<Byte>, at: nat, bytes: seq<Byte>, data: seq<Byte>)
      requires at + |bytes| <= |mem| && flash.mem[..] == Programmed(mem, at, bytes)
      requires |data| <= |bytes| && bytes[..|data|] == data
      ensures Reads(at, data) <==> Takes(mem, at, data)
    {
      hide Takes, Programmed;
      PartStoredIff(mem, at, bytes, 0, data);
      assert flash.mem[..][at..at + |data|] == flash.mem[at..at + |data|];
    }

    /** Exactly when a record of the lap, whichever writes and erases failed, reads back as written. */
    lemma ReadsBackIff(i: nat)
      requires Placed() && i < |lap.recs|
      ensures At(i) + |lap.recs[i]| <= writeOff
      ensures Reads(At(i), lap.recs[i]) <==> Takes(cells, At(i), lap.recs[i])
    {
      hide Layout, Start, Takes, Programmed;
      RecordStoredIff(cells, lap, i, writeBlock);
      var at, to := At(i), At(i) + |lap.recs[i]|;
      assert flash.mem[..][at..to] == flash.mem[at..to];
    }

    /** How many bytes an erase of the window gets done. */
    ghost function Reach(o: Outcome): (k: nat)
      requires Sound()
      reads this`eraseSize
      ensures k <= flash.mem.Length
    {
      if !flash.EraseFits(0, eraseSize) then 0 else if o.Works? then eraseSize else Min(o.after, eraseSize)
    }

    /** The flash_erase of qspi_service_erase, and the lap that begins with it. */
    method ClearWindow(o: Outcome) returns (ret: int)
      requires (Unset() || Ready()) && Proper(o)
      modifies this`calls, this`lap, this`cells, flash.mem
      ensures ret == if !flash.EraseFits(0, eraseSize) then -EINVAL else if o.Works? then 0 else o.err
      ensures flash.mem[..] == Erased(old(flash.mem[..]), 0, Reach(o))
      ensures old(Ready()) ==> Ready() && calls == old(calls) + [Cleared] && cells == flash.mem[..]
    {
      EraseNothing(flash.mem[..]);
      ret := flash.Erase(0, eraseSize, o);
      if writeBlock > 0 {
        LapSnoc(calls, Cleared, writeBlock);
        EndAligned(lap, writeBlock);
        ProgramNothing(flash.mem[..], writeOff);
        calls, lap, cells := calls + [Cleared], Lap(writeOff, []), flash.mem[..];
      }
    }

    /** qspi_service_erase: the erase size from the beginning is blank afterwards; the offset stays where it is. */
    method Erase(o: Outcome) returns (ret: int)
      requires (Unset() || Ready()) && Proper(o)
      modifies this`calls, this`lap, this`cells, flash.mem
      ensures ret == if !flash.EraseFits(0, eraseSize) then -EINVAL else if o.Works? then 0 else o.err
      ensures ret == 0 <==> eraseSize <= flash.mem.Length && eraseSize % flash.eraseUnit == 0 && o.Works?
      ensures ret == 0 ==> forall i :: 0 <= i < eraseSize ==> flash.mem[i] == FF
      ensures forall i :: eraseSize <= i < flash.mem.Length ==> flash.mem[i] == old(flash.mem[i])
      ensures flash.mem[..] == Erased(old(flash.mem[..]), 0, Reach(o))
      ensures old(Ready()) ==> Ready() && calls == old(calls) + [Cleared] && cells == flash.mem[..]
    {
      hide Erased, LapOf, Layout;
      ret := ClearWindow(o);
      ErasedCells(old(flash.mem[..]), Reach(o));
      CellsOf();
    }

    lemma CellsOf()
      ensures forall i :: 0 <= i < flash.mem.Length ==> flash.mem[..][i] == flash.mem[i]
    {}

    /** The padded record qspi_service_write builds in its local buffer. */
    method FillTmp(data: seq<Byte>) returns (bytes: seq<Byte>)
      requires writeBlock > 0 && Padded(|data|, writeBlock) <= TMP
      ensures bytes == Pad(data, writeBlock)
    {
      var tmp := new Byte[TMP](_ => FF);
      var i := 0;
      while i < |data|
        invariant 0 <= i <= |data| && tmp[..i] == data[..i]
      {
        tmp[i] := data[i];
        i := i + 1;
      }
      var padded := |data|;
      if padded % writeBlock != 0 {
        padded := ((padded + writeBlock - 1) / writeBlock) * writeBlock;
      }
      PaddedIsRounding(|data|, writeBlock);
      assert tmp[..|data|] == data;
      while i < padded
        invariant |data| <= i <= padded <= TMP
        invariant tmp[..i] == data + Blank(i - |data|)
      {
        tmp[i] := FF;
        assert tmp[..i + 1] == tmp[..i] + [FF];
        i := i + 1;
      }
      bytes := tmp[..padded];
    }

    /** Whether a record makes the log start again. */
    predicate Wraps(data: seq<Byte>)
      requires writeBlock > 0
      reads this`writeBlock, this`writeOff
    {
      writeOff + Padded(|data|, writeBlock) > REGION
    }

    /** Where the record goes. */
    function Base(data: seq<Byte>): nat
      requires writeBlock > 0
      reads this`writeBlock, this`writeOff
    {
      if Wraps(data) then 0 else writeOff
    }

    /** The flash the record is programmed over: what the erase of a wrap leaves, or as it is. */
    ghost function Room(data: seq<Byte>, erase: Outcome): (r: seq<Byte>)
      requires Sound() && writeBlock > 0
      reads this, flash.mem
      ensures |r| == flash.mem.Length
    {
      if Wraps(data) then Erased(flash.mem[..], 0, Reach(erase)) else flash.mem[..]
    }

    /** The cells under the lap the record belongs to. */
    ghost function Under(data: seq<Byte>, erase: Outcome): seq<Byte>
      requires Sound() && writeBlock > 0
      reads this, flash.mem
    {
      if Wraps(data) then Room(data, erase) else cells
    }

    /** The bytes of the padded record that reach the flash. */
    ghost function Part(data: seq<Byte>, write: Outcome): (r: seq<Byte>)
      requires writeBlock > 0
      reads this`writeBlock
      ensures |r| <= Padded(|data|, writeBlock)
    {
      Pad(data, writeBlock)[..Done(write, Padded(|data|, writeBlock))]
    }

    /** The flash after a write of the record. */
    ghost function FlashAfter(data: seq<Byte>, erase: Outcome, write: Outcome): seq<Byte>
      requires Sound() && 0 < writeBlock && writeOff <= REGION && Padded(|data|, writeBlock) <= TMP
      reads this, flash.mem
    {
      Programmed(Room(data, erase), Base(data), Part(data, write))
    }

    /** The cells under the lap after it: a write that fails leaves its traces in them. */
    ghost function CellsAfter(data: seq<Byte>, erase: Outcome, write: Outcome): seq<Byte>
      requires Placed() && Padded(|data|, writeBlock) <= TMP
      reads this, flash.mem
    {
      if write.Works? then Under(data, erase) else Programmed(Under(data, erase), Base(data), Part(data, write))
    }

    /** The erase of a wrap empties the whole window. */
    ghost predicate Clears(erase: Outcome)
      requires Sound()
      reads this`eraseSize
    {
      Reach(erase) >= REGION
    }

    /** A window erased from end to end is an empty log. */
    lemma ErasedWindow()
      requires Placed() && lap == Lap(0, []) && BlankBetween(flash.mem[..], 0, REGION)
      ensures Logged()
    {
      assert flash.mem[0..REGION] == [] + Blank(REGION);
    }

    /** The wrap of qspi_service_write; what the erase returns is not looked at. */
    method MakeRoom(data: seq<Byte>, padded: nat, erase: Outcome)
      requires Ready() && Proper(erase) && padded == Padded(|data|, writeBlock) <= TMP
      modifies this`writeOff, this`calls, this`lap, this`cells, flash.mem
      ensures Placed() && writeOff == old(Base(data)) && writeOff + padded <= REGION
      ensures calls == old(calls) + if old(Wraps(data)) then [Cleared] else []
      ensures lap == old(Turned(lap, data, writeBlock)) == Turned(LapOf(calls, writeBlock), data, writeBlock)
      ensures flash.mem[..] == old(Room(data, erase)) && cells == old(Under(data, erase))
      ensures old(Logged()) && !old(Wraps(data)) ==> Logged()
      ensures old(Wraps(data)) && old(Clears(erase)) ==> Logged()
    {
      if writeOff + padded > REGION {
        var _ := Erase(erase);
        writeOff := 0;
        lap := Lap(0, []);
        ProgramNothing(cells, 0);
        if Reach(erase) >= REGION {
          ErasedWindow();
        }
      } else {
        assert calls + [] == calls;
      }
    }

    /** The flash_write of qspi_service_write, of the padded record. */
    method Program(data: seq<Byte>, bytes: seq<Byte>, write: Outcome) returns (ret: int)
      requires Placed() && Proper(write) && bytes == Pad(data, writeBlock) && writeOff + |bytes| <= REGION
      modifies this`writeOff, this`lap, this`cells, flash.mem
      ensures Placed() && ret == if write.Works? then 0 else -EIO
      ensures lap == if ret == 0 then Lap(old(lap).origin, old(lap).recs + [data]) else old(lap)
      ensures writeOff == old(writeOff) + if ret == 0 then |bytes| else 0
      ensures flash.mem[..] == Programmed(old(flash.mem[..]), old(writeOff), bytes[..Done(write, |bytes|)])
      ensures cells == if ret == 0 then old(cells) else Programmed(old(cells), old(writeOff), bytes[..Done(write, |bytes|)])
    {
      EndAligned(lap, writeBlock);
      PaddedAligned(|data|, writeBlock);
      assert bytes[..|bytes|] == bytes;
      ret := flash.Write(writeOff, bytes, write);
      if ret != 0 {
        var part := bytes[..Done(write, |bytes|)];
        ProgramCommutes(cells, lap.origin, Layout(lap.recs, writeBlock), writeOff, part);
        cells := Programmed(cells, writeOff, part);
        return -EIO;
      }
      PlaceRecord(cells, lap, data, writeBlock);
      writeOff := writeOff + |bytes|;
      lap := Lap(lap.origin, lap.recs + [data]);
    }

    /** The same, seen by its effect on a window that is a log. */
    method Append(data: seq<Byte>, bytes: seq<Byte>, write: Outcome) returns (ret: int)
      requires Placed() && Proper(write) && bytes == Pad(data, writeBlock) && writeOff + |bytes| <= REGION
      modifies this`writeOff, this`lap, this`cells, flash.mem
      ensures Placed() && ret == if write.Works? then 0 else -EIO
      ensures lap == if ret == 0 then Lap(old(lap).origin, old(lap).recs + [data]) else old(lap)
      ensures writeOff == old(writeOff) + if ret == 0 then |bytes| else 0
      ensures flash.mem[..] == Programmed(old(flash.mem[..]), old(writeOff), bytes[..Done(write, |bytes|)])
      ensures cells == if ret == 0 then old(cells) else Programmed(old(cells), old(writeOff), bytes[..Done(write, |bytes|)])
      ensures ret == 0 ==> (Reads(old(writeOff), data) <==> Takes(old(flash.mem[..]), old(writeOff), data))
      ensures old(Logged()) && ret == 0 ==> Logged()
    {
      hide Takes, Reads, Programmed, Layout, Padded;
      ghost var was, mem, logged := lap, flash.mem[..], Logged();
      assert mem[lap.origin..REGION] == flash.mem[lap.origin..REGION];
      assert bytes[..|bytes|] == bytes;
      ghost var at := writeOff;
      ret := Program(data, bytes, write);
      if ret == 0 {
        ReadsIff(mem, at, bytes, data);
      }
      if logged && ret == 0 {
        AppendToWindow(mem, was, data, writeBlock);
        assert flash.mem[..][lap.origin..REGION] == flash.mem[lap.origin..REGION];
      }
    }

    /** qspi_service_write, by the functions of the state before it. */
    method Log(data: seq<Byte>, erase: Outcome, write: Outcome) returns (ret: int)
      requires Ready() && Padded(|data|, writeBlock) <= TMP && Proper(erase) && Proper(write)
      modifies this`writeOff, this`calls, this`lap, this`cells, flash.mem
      ensures Ready() && ret == if write.Works? then 0 else -EIO
      ensures calls == old(calls) + (if old(Wraps(data)) then [Cleared] else []) + [Wrote(data, ret == 0)]
      ensures lap == LapStep(old(lap), Wrote(data, ret == 0), writeBlock)
      ensures writeOff == old(Base(data)) + if ret == 0 then Padded(|data|, writeBlock) else 0
      ensures flash.mem[..] == old(FlashAfter(data, erase, write)) && cells == old(CellsAfter(data, erase, write))
      ensures ret == 0 ==> (Reads(old(Base(data)), data) <==> Takes(old(Room(data, erase)), old(Base(data)), data))
      ensures old(Logged()) && !old(Wraps(data)) && ret == 0 ==> Logged()
      ensures old(Wraps(data)) && old(Clears(erase)) && ret == 0 ==> Logged() && lap == Lap(0, [data])
    {
      hide Layout, Padded, Pad, Programmed, Erased, Window, LapOf, Takes, Reads;
      var bytes := FillTmp(data);
      MakeRoom(data, |bytes|, erase);
      ret := Append(data, bytes, write);
      LapSnoc(calls, Wrote(data, ret == 0), writeBlock);
      calls := calls + [Wrote(data, ret == 0)];
    }

    /**
     qspi_service_write. The offset moves by the record rounded up to write blocks, to the beginning first
     if that would pass 4096. Without the wrap the record is programmed there and nothing else changes;
     with one whose erase empties the window, the window holds the record and blank cells.
     */
    method Write(data: seq<Byte>, erase: Outcome, write: Outcome) returns (ret: int)
      requires Ready() && Padded(|data|, writeBlock) <= TMP && Proper(erase) && Proper(write)
      modifies this`writeOff, this`calls, this`lap, this`cells, flash.mem
      ensures Ready() && ret == if write.Works? then 0 else -EIO
      ensures var at := if old(writeOff) + Padded(|data|, writeBlock) > 4096 then 0 else old(writeOff);
              if ret != 0 then writeOff == at
              else writeOff % writeBlock == 0 && at + |data| <= writeOff < at + |data| + writeBlock && writeOff <= 4096
      ensures ret == 0 && old(writeOff) + Padded(|data|, writeBlock) <= 4096 ==>
                && (forall i :: 0 <= i < |data| ==> flash.mem[old(writeOff) + i] == And(old(flash.mem[writeOff + i]), data[i]))
                && (forall i :: 0 <= i < flash.mem.Length && !(old(writeOff) <= i < old(writeOff) + |data|) ==>
                      flash.mem[i] == old(flash.mem[i]))
      ensures ret == 0 && old(writeOff) + Padded(|data|, writeBlock) > 4096
              && erase.Works? && 4096 <= eraseSize <= flash.mem.Length && eraseSize % flash.eraseUnit == 0 ==>
                && flash.mem[..|data|] == data && (forall i :: |data| <= i < 4096 ==> flash.mem[i] == FF)
                && Logged() && lap == Lap(0, [data])
      ensures calls == old(calls) + (if old(Wraps(data)) then [Cleared] else []) + [Wrote(data, ret == 0)]
      ensures lap == LapStep(old(lap), Wrote(data, ret == 0), writeBlock)
      ensures writeOff == old(Base(data)) + if ret == 0 then Padded(|data|, writeBlock) else 0
      ensures flash.mem[..] == old(FlashAfter(data, erase, write)) && cells == old(CellsAfter(data, erase, write))
      ensures ret == 0 ==> (Reads(old(Base(data)), data) <==> Takes(old(Room(data, erase)), old(Base(data)), data))
      ensures old(Logged()) && !old(Wraps(data)) && ret == 0 ==> Logged()
      ensures old(Wraps(data)) && old(Clears(erase)) && ret == 0 ==> Logged() && lap == Lap(0, [data])
    {
      hide Layout, Padded, Pad, Programmed, Erased, Window, LapOf, Takes, Reads, Logged, Placed, CellsAfter, Under;
      InRange();
      ghost var mem, off, room := flash.mem[..], writeOff, Room(data, erase);
      ret := Log(data, erase, write);
      InRange();
      if ret == 0 {
        WholePart(data);
        PadProgrammed(room, if off + Padded(|data|, writeBlock) > REGION then 0 else off, data, writeBlock);
        CellsOf();
        FrontCells(|data|);
        if off + Padded(|data|, writeBlock) > REGION && eraseSize <= |mem| {
          RecordAlone(mem, eraseSize, data, writeBlock);
        }
      }
    }

    lemma WholePart(data: seq<Byte>)
      requires writeBlock > 0
      ensures Part(data, Works) == Pad(data, writeBlock)
    {
      var bytes := Pad(data, writeBlock);
      assert bytes[..|bytes|] == bytes;
    }

    lemma FrontCells(k: nat)
      requires k <= flash.mem.Length
      ensures flash.mem[..][..k] == flash.mem[..k]
    {}

    lemma InRange()
      requires Ready()
      ensures Sound() && writeBlock > 0 && writeOff <= 4096 && writeOff % writeBlock == 0
    {
      EndAligned(lap, writeBlock);
    }

    /** qspi_service_dump: the lines it prints; failAt is the chunk whose read fails, if any. */
    method Dump(off: nat, len: nat, failAt: Option<nat>) returns (lines: seq<(nat, seq<Byte>)>)
      requires off + len <= flash.mem.Length
      ensures |Printed(lines)| == if failAt == None then len else Min(16 * failAt.value, len)
      ensures Printed(lines) == flash.mem[..][off..off + |Printed(lines)|]
      ensures forall j :: 0 <= j < |lines| ==>
                && lines[j].0 == off + 16 * j && |lines[j].1| == Min(16, len - 16 * j) > 0
                && lines[j].1 == flash.mem[..][off + 16 * j..off + Min(16 * j + 16, len)]
    {
      hide Printed, Ruled;
      ghost var mem := flash.mem[..];
      lines := [];
      NoLines(mem, off, len);
      var i := 0;
      while i < len
        invariant i == LINE * |lines| && flash.mem[..] == mem
        invariant Printed(lines) == mem[off..off + Min(i, len)]
        invariant failAt.Some? ==> |lines| <= failAt.value
        invariant Ruled(mem, lines, off, len)
        decreases len - i
      {
        var chunk := len - i;
        if chunk > LINE {
          chunk := LINE;
        }
        var ok, buf := ReadChunk(off + i, chunk, failAt == Some(|lines|));
        if !ok {
          Lines(mem, lines, off, len);
          return;
        }
        DumpStep(mem, lines, off, len, i, chunk, buf);
        lines := lines + [(off + i, buf)];
        i := i + LINE;
      }
      Lines(mem, lines, off, len);
    }

    /** One flash_read of the dump. */
    method ReadChunk(at: nat, chunk: nat, fail: bool) returns (ok: bool, buf: seq<Byte>)
      requires at + chunk <= flash.mem.Length
      ensures ok == !fail && (ok ==> buf == flash.mem[..][at..at + chunk])
    {
      var ret;
      ret, buf := flash.Read(at, chunk, if fail then Fails(-EIO, 0) else Works);
      ok := ret == 0;
    }

    /** A record dumped from its place prints as it was written. */
    method DumpRecord(ghost i: nat, off: nat, len: nat) returns (lines: seq<(nat, seq<Byte>)>)
      requires Placed() && i < |lap.recs| && off == At(i) && len == |lap.recs[i]|
      ensures off + len <= |cells|
      ensures Printed(lines) == lap.recs[i] <==> Takes(cells, off, lap.recs[i])
    {
      ReadsBackIff(i);
      assert flash.mem[..][off..off + len] == flash.mem[off..off + len];
      lines := Dump(off, len, None);
    }
  }

  /**
   A run in which qspi_service_write returns 0 and the record is lost: the window has been filled with
   zeros, and the erase of the wrap fails at once.
   */
  method LostRecord() returns (ret: int, data: seq<Byte>, got: seq<Byte>)
    ensures ret == 0 && |data| == 1 && |got| == 1 && got != data
  {
    var flash := new Device(REGION, 1, REGION);
    var service := new QspiService(flash);
    ret := service.Init(true, 0, REGION);
    FillWithZeros(service);
    ret, data, got := LoseRecord(service);
  }

  /** A record of one 0xFF byte, written over a full window of zeros that was not erased. */
  method LoseRecord(service: QspiService) returns (ret: int, data: seq<Byte>, got: seq<Byte>)
    requires service.Ready() && service.writeBlock == 1 && service.writeOff == REGION
    requires service.flash.mem[0] == ByteFrom(0)
    modifies service, service.flash.mem
    ensures ret == 0 && |data| == 1 && |got| == 1 && got != data
  {
    hide Padded, LapOf, LapStep, Layout, Programmed, Erased, Takes, Pad;
    data := [FF];
    NotTaken(service.flash.mem[..]);
    ret := service.Write(data, Fails(-EIO, 0), Works);
    got := service.flash.mem[0..1];
  }

  lemma NotTaken(mem: seq<Byte>)
    requires mem != [] && mem[0] == ByteFrom(0)
    ensures !Takes(Erased(mem, 0, 0), 0, [FF])
  {
    EraseNothing(mem);
    assert And(mem[0 + 0], [FF][0]) != [FF][0];
  }

  /** 64 writes of 64 zero bytes fill the window of a device that takes single bytes. */
  method FillWithZeros(service: QspiService)
    requires service.Ready() && service.writeBlock == 1 && service.writeOff == 0
    modifies service, service.flash.mem
    ensures service.Ready() && service.writeBlock == 1 && service.writeOff == REGION
    ensures service.flash.mem[0] == ByteFrom(0) && service.eraseSize == old(service.eraseSize)
  {
    var zeros := seq(TMP, i => ByteFrom(0));
    var i := 0;
    while i < REGION / TMP
      invariant 0 <= i <= REGION / TMP
      invariant service.Ready() && service.writeBlock == 1 && service.writeOff == TMP * i
      invariant i > 0 ==> service.flash.mem[0] == ByteFrom(0)
      invariant service.eraseSize == old(service.eraseSize)
    {
      WriteZeros(service, zeros);
      i := i + 1;
    }
  }

  /** One of them: the first cell is zero afterwards. */
  method WriteZeros(service: QspiService, zeros: seq<Byte>)
    requires service.Ready() && service.writeBlock == 1 && service.writeOff + TMP <= REGION
    requires |zeros| == TMP && zeros[0] == ByteFrom(0)
    requires service.writeOff == 0 || service.flash.mem[0] == ByteFrom(0)
    modifies service, service.flash.mem
    ensures service.Ready() && service.writeBlock == 1 && service.writeOff == old(service.writeOff) + TMP
    ensures service.flash.mem[0] == ByteFrom(0) && service.eraseSize == old(service.eraseSize)
  {
    hide LapOf, LapStep, Layout, Programmed, Takes, Padded;
    ghost var mem, off := service.flash.mem[..], service.writeOff;
    var _ := service.Write(zeros, Works, Works);
    FirstCell(mem, off, Pad(zeros, 1)[..TMP]);
    assert service.flash.mem[..][0] == service.flash.mem[0];
  }

  lemma FirstCell(mem: seq<Byte>, off: nat, p: seq<Byte>)
    requires off + |p| <= |mem| && p != [] && (if off == 0 then p[0] else mem[0]) == ByteFrom(0)
    ensures Programmed(mem, off, p)[0] == ByteFrom(0)
  {}

  /** How many of len bytes a write programs. */
  function Done(o: Outcome, len: nat): (k: nat)
    ensures k <= len
  {
    if o.Works? then len else Min(o.after, len)
  }

  lemma {:induction false} ErasedCells(mem: seq<Byte>, len: nat)
    requires len <= |mem|
    ensures forall i :: 0 <= i < |mem| ==> Erased(mem, 0, len)[i] == if i < len then FF else mem[i]
  {}

  /** Programming a padded record touches the cells of the record only. */
  lemma {:induction false} PadProgrammed(mem: seq<Byte>, at: nat, data: seq<Byte>, wb: nat)
    requires wb > 0 && at + Padded(|data|, wb) <= |mem|
    ensures var r := Programmed(mem, at, Pad(data, wb));
            && (forall i :: 0 <= i < |data| ==> r[at + i] == And(mem[at + i], data[i]))
            && (forall i :: 0 <= i < |mem| && !(at <= i < at + |data|) ==> r[i] == mem[i])
  {
    var p := Pad(data, wb);
    hide Padded;
    forall i | at + |data| <= i < at + |p| ensures And(mem[i], p[i - at]) == mem[i] {
      assert p[i - at] == FF;
    }
  }

  /** Over an erased window a record is stored exactly, with blank cells behind it. */
  lemma {:induction false} RecordAlone(mem: seq<Byte>, erased: nat, data: seq<Byte>, wb: nat)
    requires wb > 0 && Padded(|data|, wb) <= |mem| && erased <= |mem|
    ensures Padded(|data|, wb) <= erased ==>
              var r := Programmed(Erased(mem, 0, erased), 0, Pad(data, wb));
              r[..|data|] == data && forall i :: |data| <= i < erased ==> r[i] == FF
  {
    ErasedCells(mem, erased);
    var blank := Erased(mem, 0, erased);
    PadProgrammed(blank, 0, data, wb);
    var r := Programmed(blank, 0, Pad(data, wb));
    hide Programmed, Erased, Pad;
    if Padded(|data|, wb) <= erased {
      forall i | 0 <= i < |data| ensures r[i] == data[i] {
        assert r[0 + i] == And(blank[0 + i], data[i]);
      }
    }
  }

  lemma EraseNothing(mem: seq<Byte>)
    ensures Erased(mem, 0, 0) == mem
  {}

  /** Line j: sixteen bytes, or what is left, with their address and what the flash holds there. */
  predicate LineAt(mem: seq<Byte>, line: (nat, seq<Byte>), off: nat, len: nat, j: nat)
    requires off + len <= |mem|
  {
    LINE * j < len && line.0 == off + LINE * j && line.1 == mem[off + LINE * j..off + Min(LINE * j + LINE, len)]
  }

  predicate Ruled(mem: seq<Byte>, lines: seq<(nat, seq<Byte>)>, off: nat, len: nat)
    requires off + len <= |mem|
  {
    forall j: nat :: j < |lines| ==> LineAt(mem, lines[j], off, len, j)
  }

  lemma {:induction false} Lines(mem: seq<Byte>, lines: seq<(nat, seq<Byte>)>, off: nat, len: nat)
    requires off + len <= |mem| && Ruled(mem, lines, off, len)
    ensures forall j :: 0 <= j < |lines| ==>
              && lines[j].0 == off + 16 * j && |lines[j].1| == Min(16, len - 16 * j) > 0
              && lines[j].1 == mem[off + 16 * j..off + Min(16 * j + 16, len)]
  {
    forall j | 0 <= j < |lines|
      ensures lines[j].0 == off + 16 * j && |lines[j].1| == Min(16, len - 16 * j) > 0
      ensures lines[j].1 == mem[off + 16 * j..off + Min(16 * j + 16, len)]
    {
      assert LineAt(mem, lines[j], off, len, j);
    }
  }

  function Printed(lines: seq<(nat, seq<Byte>)>): seq<Byte> {
    if lines == [] then [] else Printed(lines[..|lines| - 1]) + lines[|lines| - 1].1
  }

  lemma {:induction false} DumpStep(mem: seq<Byte>, lines: seq<(nat, seq<Byte>)>, off: nat, len: nat, i: nat, chunk: nat, buf: seq<Byte>)
    requires off + len <= |mem| && i == LINE * |lines| < len && chunk == Min(LINE, len - i)
    requires Printed(lines) == mem[off..off + i] && Ruled(mem, lines, off, len)
    requires buf == mem[off + i..off + i + chunk]
    ensures Printed(lines + [(off + i, buf)]) == mem[off..off + i + chunk]
    ensures Ruled(mem, lines + [(off + i, buf)], off, len)
  {
    hide Printed;
    PrintedSnoc(lines, off + i, buf);
    Slices(mem, off, off + i, off + i + chunk);
    assert LineAt(mem, (off + i, buf), off, len, |lines|);
    hide LineAt;
    RuledSnoc(mem, lines, (off + i, buf), off, len);
  }

  lemma {:induction false} RuledSnoc(mem: seq<Byte>, lines: seq<(nat, seq<Byte>)>, line: (nat, seq<Byte>), off: nat, len: nat)
    requires off + len <= |mem| && Ruled(mem, lines, off, len) && LineAt(mem, line, off, len, |lines|)
    ensures Ruled(mem, lines + [line], off, len)
  {
    hide LineAt;
  }

  lemma Slices(mem: seq<Byte>, a: nat, b: nat, c: nat)
    requires a <= b <= c <= |mem|
    ensures mem[a..b] + mem[b..c] == mem[a..c]
  {}

  lemma NoLines(mem: seq<Byte>, off: nat, len: nat)
    requires off + len <= |mem|
    ensures Printed([]) == [] && Ruled(mem, [], off, len)
  {}

  lemma PrintedSnoc(lines: seq<(nat, seq<Byte>)>, at: nat, buf: seq<Byte>)
    ensures Printed(lines + [(at, buf)]) == Printed(lines) + buf
  {
    assert (lines + [(at, buf)])[..|lines|] == lines;
  }
}
