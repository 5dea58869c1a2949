/**
 The SFDP scan of flashdb_port_print_sfdp_dw15: parameter headers of eight bytes behind an eight-byte
 header, of which 64 bytes are read; little-endian words; the QER field of JESD216 DWORD 15.
 */
module Sfdp {
  import opened Bytes
  import opened Errno
  import opened Arith

  const HDR: nat := 64
  const BFP: nat := 80
  const MAGIC: nat := 0x5044_4653

  function Num(b: Byte): nat { Value(BitsOf(b)) }

  function Digit(b: bool): nat { if b then 1 else 0 }

  lemma ValueFrom(w: seq<bool>, k: nat)
    requires k < |w|
    ensures Value(w[k..]) == Digit(w[k]) + 2 * Value(w[k + 1..])
  {
    assert w[k..][1..] == w[k + 1..];
  }

  lemma {:induction false} ValueOfFour(w: seq<bool>, k: nat)
    requires k + 4 <= |w|
    ensures Value(w[k..]) == Digit(w[k]) + 2 * Digit(w[k + 1]) + 4 * Digit(w[k + 2]) + 8 * Digit(w[k + 3]) + 16 * Value(w[k + 4..])
  {
    hide Value, Digit;
    ValueFrom(w, k);
    ValueFrom(w, k + 1);
    ValueFrom(w, k + 2);
    ValueFrom(w, k + 3);
  }

  lemma {:induction false} ValueOfEight(w: seq<bool>)
    requires |w| == 8
    ensures Value(w) == Digit(w[0]) + 2 * Digit(w[1]) + 4 * Digit(w[2]) + 8 * Digit(w[3])
                        + 16 * Digit(w[4]) + 32 * Digit(w[5]) + 64 * Digit(w[6]) + 128 * Digit(w[7])
  {
    assert w[0..] == w && w[8..] == [];
    assert Value([]) == 0;
    hide Value, Digit;
    ValueOfFour(w, 0);
    ValueOfFour(w, 4);
  }

  /** A byte is the number its bits are the binary digits of. */
  lemma {:induction false} NumBits(b: Byte)
    ensures Num(b) == Digit(b.b0) + 2 * Digit(b.b1) + 4 * Digit(b.b2) + 8 * Digit(b.b3)
                      + 16 * Digit(b.b4) + 32 * Digit(b.b5) + 64 * Digit(b.b6) + 128 * Digit(b.b7)
  {
    var w := BitsOf(b);
    FieldsAreBits(b, w);
    hide Value, Digit, BitsOf;
    ValueOfEight(w);
  }

  lemma {:induction false} FieldsAreBits(b: Byte, w: seq<bool>)
    requires w == BitsOf(b)
    ensures w[0] == b.b0 && w[1] == b.b1 && w[2] == b.b2 && w[3] == b.b3
    ensures w[4] == b.b4 && w[5] == b.b5 && w[6] == b.b6 && w[7] == b.b7
  {
    assert w[0] == Bit(b, 0) && w[1] == Bit(b, 1) && w[2] == Bit(b, 2) && w[3] == Bit(b, 3);
    assert w[4] == Bit(b, 4) && w[5] == Bit(b, 5) && w[6] == Bit(b, 6) && w[7] == Bit(b, 7);
  }

  /** Zero and 0xFF among the bytes. */
  lemma {:induction false} NumExtremes(b: Byte)
    ensures Num(b) < 0x100
    ensures Num(b) == 0 <==> b == ByteFrom(0)
    ensures Num(b) == 0xFF <==> b == FF
  {
    hide Num;
    NumBits(b);
  }

  // ---- 32-bit words as the code computes them

  type Word = w: seq<bool> | |w| == 32 witness seq(32, i => false)

  function Widen(b: Byte): Word { seq(32, i requires 0 <= i < 32 => i < 8 && Bit(b, i)) }

  function Shl(w: Word, n: nat): Word { seq(32, i requires 0 <= i < 32 => i >= n && w[i - n]) }

  function Shr(w: Word, n: nat): Word { seq(32, i requires 0 <= i < 32 => i + n < 32 && w[i + n]) }

  function Or(a: Word, b: Word): Word { seq(32, i requires 0 <= i < 32 => a[i] || b[i]) }

  /** The low n bits. */
  function Masked(a: Word, n: nat): Word { seq(32, i requires 0 <= i < 32 => i < n && a[i]) }

  /** u32_from_le_bytes. */
  function U32FromLe(p0: Byte, p1: Byte, p2: Byte, p3: Byte): Word {
    Or(Or(Or(Widen(p0), Shl(Widen(p1), 8)), Shl(Widen(p2), 16)), Shl(Widen(p3), 24))
  }

  /** The address of a parameter header, from three bytes. */
  function U24FromLe(p0: Byte, p1: Byte, p2: Byte): Word {
    Or(Or(Widen(p0), Shl(Widen(p1), 8)), Shl(Widen(p2), 16))
  }

  /** The id of a parameter header, from its high and low byte. */
  function U16FromBytes(hi: Byte, lo: Byte): Word { Or(Shl(Widen(hi), 8), Widen(lo)) }

  /** v moved up by n places. */
  function Scale(n: nat, v: nat): nat { if n == 0 then v else 2 * Scale(n - 1, v) }

  lemma {:induction false} ValueConcat(a: seq<bool>, b: seq<bool>)
    ensures Value(a + b) == Value(a) + Scale(|a|, Value(b))
    decreases a
  {
    if a == [] {
      assert a + b == b;
    } else {
      ConsConcat(a, b);
      ValueConcat(a[1..], b);
    }
  }

  lemma ConsConcat(a: seq<bool>, b: seq<bool>)
    requires a != []
    ensures (a + b)[0] == a[0] && (a + b)[1..] == a[1..] + b
  {}

  lemma ScaleFour(n: nat, v: nat)
    ensures Scale(n + 4, v) == 16 * Scale(n, v)
  {
    assert Scale(n + 4, v) == 4 * Scale(n + 2, v);
  }

  lemma Scales(v: nat)
    ensures Scale(3, v) == 8 * v && Scale(8, v) == 0x100 * v && Scale(20, v) == 0x10_0000 * v
  {
    ScaleFour(0, v);
    ScaleFour(4, v);
    ScaleFour(8, v);
    ScaleFour(12, v);
    ScaleFour(16, v);
    assert Scale(3, v) == 2 * Scale(2, v);
  }

  const NONE: Byte := Byte(false, false, false, false, false, false, false, false)

  /** Bit i of the word comes from one byte only. */
  lemma WordBit(p0: Byte, p1: Byte, p2: Byte, p3: Byte, i: nat)
    requires i < 32
    ensures U32FromLe(p0, p1, p2, p3)[i]
         == if i < 8 then Bit(p0, i) else if i < 16 then Bit(p1, i - 8) else if i < 24 then Bit(p2, i - 16) else Bit(p3, i - 24)
  {}

  lemma ConcatBit(a: seq<bool>, b: seq<bool>, c: seq<bool>, d: seq<bool>, i: nat)
    requires |a| == |b| == |c| == |d| == 8 && i < 32
    ensures (a + (b + (c + d)))[i]
         == if i < 8 then a[i] else if i < 16 then b[i - 8] else if i < 24 then c[i - 16] else d[i - 24]
  {}

  lemma WordIsConcat(p0: Byte, p1: Byte, p2: Byte, p3: Byte)
    ensures U32FromLe(p0, p1, p2, p3) == BitsOf(p0) + (BitsOf(p1) + (BitsOf(p2) + BitsOf(p3)))
  {
    var w, t := U32FromLe(p0, p1, p2, p3), BitsOf(p0) + (BitsOf(p1) + (BitsOf(p2) + BitsOf(p3)));
    forall i: nat | i < 32 ensures w[i] == t[i] {
      WordBit(p0, p1, p2, p3, i);
      ConcatBit(BitsOf(p0), BitsOf(p1), BitsOf(p2), BitsOf(p3), i);
    }
  }

  /** Shifting and or-ing bytes together is positional notation to base 256. */
  lemma U32IsArithmetic(p0: Byte, p1: Byte, p2: Byte, p3: Byte)
    ensures Value(U32FromLe(p0, p1, p2, p3)) == Num(p0) + 0x100 * Num(p1) + 0x1_0000 * Num(p2) + 0x100_0000 * Num(p3)
  {
    WordIsConcat(p0, p1, p2, p3);
    ConcatValue(BitsOf(p0), BitsOf(p1), BitsOf(p2), BitsOf(p3));
  }

  lemma ByteConcat(a: seq<bool>, b: seq<bool>)
    requires |a| == 8
    ensures Value(a + b) == Value(a) + 0x100 * Value(b)
  {
    ValueConcat(a, b);
    Scales(Value(b));
  }

  lemma ConcatValue(a: seq<bool>, b: seq<bool>, c: seq<bool>, d: seq<bool>)
    requires |a| == |b| == |c| == 8
    ensures Value(a + (b + (c + d))) == Value(a) + 0x100 * Value(b) + 0x1_0000 * Value(c) + 0x100_0000 * Value(d)
  {
    ByteConcat(a, b + (c + d));
    ByteConcat(b, c + d);
    ByteConcat(c, d);
  }

  lemma NoneIsZero()
    ensures Num(NONE) == 0
  {
    ValueZeros(BitsOf(NONE));
  }

  lemma U24IsU32(p0: Byte, p1: Byte, p2: Byte)
    ensures U24FromLe(p0, p1, p2) == U32FromLe(p0, p1, p2, NONE)
  {
    var w, v := U24FromLe(p0, p1, p2), U32FromLe(p0, p1, p2, NONE);
    forall i: nat | i < 32 ensures w[i] == v[i] { WordBit(p0, p1, p2, NONE, i); }
  }

  lemma U16IsU32(hi: Byte, lo: Byte)
    ensures U16FromBytes(hi, lo) == U32FromLe(lo, hi, NONE, NONE)
  {
    var w, v := U16FromBytes(hi, lo), U32FromLe(lo, hi, NONE, NONE);
    forall i: nat | i < 32 ensures w[i] == v[i] { WordBit(lo, hi, NONE, NONE, i); }
  }

  lemma U24IsArithmetic(p0: Byte, p1: Byte, p2: Byte)
    ensures Value(U24FromLe(p0, p1, p2)) == Num(p0) + 0x100 * Num(p1) + 0x1_0000 * Num(p2)
  {
    U24IsU32(p0, p1, p2);
    U32IsArithmetic(p0, p1, p2, NONE);
    NoneIsZero();
  }

  lemma U16IsArithmetic(hi: Byte, lo: Byte)
    ensures Value(U16FromBytes(hi, lo)) == 0x100 * Num(hi) + Num(lo)
  {
    U16IsU32(hi, lo);
    U32IsArithmetic(lo, hi, NONE, NONE);
    NoneIsZero();
  }

  lemma {:induction false} ValueBound(w: seq<bool>)
    ensures Value(w) < Scale(|w|, 1)
  {
    if w != [] {
      ValueBound(w[1..]);
    }
  }

  lemma {:induction false} ValueZeros(w: seq<bool>)
    requires forall i :: 0 <= i < |w| ==> !w[i]
    ensures Value(w) == 0
  {
    if w != [] {
      ValueZeros(w[1..]);
    }
  }

  /** (dw15 >> 20) & 7 is the number in bits 22 to 20. */
  function Qer(dw15: Word): Word { Masked(Shr(dw15, 20), 3) }

  lemma QerIsBits22To20(dw15: Word)
    ensures Value(Qer(dw15)) == Value(dw15[20..23]) == Value(dw15) / 0x10_0000 % 8
  {
    var lo, mid, hi := dw15[..20], dw15[20..23], dw15[23..];
    assert dw15 == lo + (mid + hi);
    ValueConcat(lo, mid + hi);
    ValueConcat(mid, hi);
    ValueBound(lo);
    ValueBound(mid);
    Scales(1);
    Scales(Value(mid + hi));
    Scales(Value(hi));
    DivModUnique(Value(dw15), 0x10_0000, Value(mid + hi), Value(lo));
    DivModUnique(Value(mid + hi), 8, Value(hi), Value(mid));
    var rest := Qer(dw15)[3..];
    assert Qer(dw15) == mid + rest;
    ValueConcat(mid, rest);
    ValueZeros(rest);
  }

  // ---- the parameter headers

  /** Header i, in the bytes read. */
  function At(i: nat): nat { 8 + 8 * i }

  function Id(hdr: seq<Byte>, i: nat): nat
    requires |hdr| == HDR && i < 7
  {
    0x100 * Num(hdr[At(i) + 7]) + Num(hdr[At(i)])
  }

  function LenDw(hdr: seq<Byte>, i: nat): nat
    requires |hdr| == HDR && i < 7
  {
    Num(hdr[At(i) + 3])
  }

  function Addr(hdr: seq<Byte>, i: nat): nat
    requires |hdr| == HDR && i < 7
  {
    Num(hdr[At(i) + 4]) + 0x100 * Num(hdr[At(i) + 5]) + 0x1_0000 * Num(hdr[At(i) + 6])
  }

  /** A Basic Flash Parameter header that says something. */
  predicate IsBfp(hdr: seq<Byte>, i: nat)
    requires |hdr| == HDR && i < 7
  {
    Id(hdr, i) == 0xFF00 && LenDw(hdr, i) != 0
  }

  /** In bytes: the id is 00 at the first and FF at the last of the eight, the length the fourth. */
  lemma {:induction false} BfpBytes(hdr: seq<Byte>, i: nat)
    requires |hdr| == HDR && i < 7
    ensures IsBfp(hdr, i) <==> hdr[8 * i + 8] == ByteFrom(0) && hdr[8 * i + 15] == FF && hdr[8 * i + 11] != ByteFrom(0)
    ensures LenDw(hdr, i) == Num(hdr[8 * i + 11])
    ensures Addr(hdr, i) == Num(hdr[8 * i + 12]) + 0x100 * Num(hdr[8 * i + 13]) + 0x1_0000 * Num(hdr[8 * i + 14])
  {
    hide Num, ByteFrom;
    NumExtremes(hdr[8 * i + 8]);
    NumExtremes(hdr[8 * i + 15]);
    NumExtremes(hdr[8 * i + 11]);
  }

  /** Header i is the first useful one among the first count, of which at most seven were read whole. */
  predicate First(hdr: seq<Byte>, count: nat, i: nat)
    requires |hdr| == HDR
  {
    i < Min(count, 7) && IsBfp(hdr, i) && forall j :: 0 <= j < i ==> !IsBfp(hdr, j)
  }

  /**
   The scan loop over count headers, by the bytes: a header is useful if its id bytes are 00 and FF and its
   length is not 0; the first useful one of those read whole is taken.
   */
  method ScanHeaders(hdr: seq<Byte>, count: nat) returns (addr: nat, lenDw: nat, ghost first: nat)
    requires |hdr| == HDR
    ensures lenDw == 0 ==> forall j :: 0 <= j < count && j < 7 ==>
              !(hdr[8 * j + 8] == ByteFrom(0) && hdr[8 * j + 15] == FF && hdr[8 * j + 11] != ByteFrom(0))
    ensures lenDw != 0 ==>
              && first < count && first < 7
              && hdr[8 * first + 8] == ByteFrom(0) && hdr[8 * first + 15] == FF && hdr[8 * first + 11] != ByteFrom(0)
              && (forall j :: 0 <= j < first ==>
                    !(hdr[8 * j + 8] == ByteFrom(0) && hdr[8 * j + 15] == FF && hdr[8 * j + 11] != ByteFrom(0)))
              && lenDw == Num(hdr[8 * first + 11])
              && addr == Num(hdr[8 * first + 12]) + 0x100 * Num(hdr[8 * first + 13]) + 0x1_0000 * Num(hdr[8 * first + 14])
  {
    hide Num, ByteFrom, IsBfp, LenDw, Addr;
    addr, lenDw, first := Scan(hdr, count);
    forall j | 0 <= j < (if lenDw == 0 then Min(count, 7) else first)
      ensures !(hdr[8 * j + 8] == ByteFrom(0) && hdr[8 * j + 15] == FF && hdr[8 * j + 11] != ByteFrom(0))
    {
      BfpBytes(hdr, j);
      assert !IsBfp(hdr, j);
    }
    if lenDw != 0 {
      BfpBytes(hdr, first);
    }
  }

  /** The loop. */
  method Scan(hdr: seq<Byte>, count: nat) returns (addr: nat, lenDw: nat, ghost first: nat)
    requires |hdr| == HDR
    ensures lenDw == 0 ==> forall j :: 0 <= j < Min(count, 7) ==> !IsBfp(hdr, j)
    ensures lenDw != 0 ==> First(hdr, count, first) && addr == Addr(hdr, first) && lenDw == LenDw(hdr, first)
  {
    addr, lenDw, first := 0, 0, 0;
    var i := 0;
    while i < count
      invariant 0 <= i <= Min(count, 7)
      invariant lenDw == 0 ==> forall j :: 0 <= j < i ==> !IsBfp(hdr, j)
      invariant lenDw != 0 ==> First(hdr, i, first) && addr == Addr(hdr, first) && lenDw == LenDw(hdr, first)
      decreases count - i
    {
      var off := At(i);
      if off + 7 >= HDR {
        break;
      }
      first := if lenDw == 0 then i else first;
      addr, lenDw := Consider(hdr, i, addr, lenDw);
      i := i + 1;
    }
  }

  /** The rest of the loop body: header i is taken if nothing useful was found before it. */
  method Consider(hdr: seq<Byte>, i: nat, addr0: nat, lenDw0: nat) returns (addr: nat, lenDw: nat)
    requires |hdr| == HDR && At(i) + 7 < HDR
    ensures lenDw0 != 0 ==> addr == addr0 && lenDw == lenDw0
    ensures lenDw0 == 0 ==> (lenDw != 0 <==> IsBfp(hdr, i))
    ensures lenDw0 == 0 && lenDw != 0 ==> addr == Addr(hdr, i) && lenDw == LenDw(hdr, i)
  {
    addr, lenDw := addr0, lenDw0;
    var id, len, a := HeaderFields(hdr, i);
    if id == 0xFF00 && lenDw == 0 {
      addr, lenDw := a, len;
    }
  }

  /** The fields of header i as the loop body decodes them. */
  method HeaderFields(hdr: seq<Byte>, i: nat) returns (id: nat, lenDw: nat, addr: nat)
    requires |hdr| == HDR && At(i) + 7 < HDR
    ensures id == Id(hdr, i) && lenDw == LenDw(hdr, i) && addr == Addr(hdr, i)
  {
    var off := At(i);
    U16IsArithmetic(hdr[off + 7], hdr[off]);
    U24IsArithmetic(hdr[off + 4], hdr[off + 5], hdr[off + 6]);
    id := Value(U16FromBytes(hdr[off + 7], hdr[off]));
    lenDw := Num(hdr[off + 3]);
    addr := Value(U24FromLe(hdr[off + 4], hdr[off + 5], hdr[off + 6]));
  }

  /** The little-endian word at the given offset. */
  function WordAt(s: seq<Byte>, off: nat): nat
    requires off + 4 <= |s|
  {
    Num(s[off]) + 0x100 * Num(s[off + 1]) + 0x1_0000 * Num(s[off + 2]) + 0x100_0000 * Num(s[off + 3])
  }

  /** qspi_read_sfdp_raw of the parameter space: len bytes at the address. */
  function Raw(sfdp: nat -> Byte, addr: nat, len: nat): (s: seq<Byte>)
    ensures |s| == len && forall i :: 0 <= i < len ==> s[i] == sfdp(addr + i)
  {
    seq(len, i requires 0 <= i < len => sfdp(addr + i))
  }

  /** The little-endian word at an address of the parameter space. */
  function DwordAt(sfdp: nat -> Byte, a: nat): nat {
    Num(sfdp(a)) + 0x100 * Num(sfdp(a + 1)) + 0x1_0000 * Num(sfdp(a + 2)) + 0x100_0000 * Num(sfdp(a + 3))
  }

  /** The magic word is the four characters SFDP. */
  lemma {:induction false} MagicBytes(sfdp: nat -> Byte)
    ensures DwordAt(sfdp, 0) == MAGIC <==>
            && sfdp(0) == ByteFrom('S' as int) && sfdp(1) == ByteFrom('F' as int)
            && sfdp(2) == ByteFrom('D' as int) && sfdp(3) == ByteFrom('P' as int)
  {
    hide Num, ByteFrom;
    NumChar(sfdp(0), 'S');
    NumChar(sfdp(1), 'F');
    NumChar(sfdp(2), 'D');
    NumChar(sfdp(3), 'P');
  }

  lemma {:induction false} NumChar(b: Byte, c: char)
    requires c in {'S', 'F', 'D', 'P'}
    ensures Num(b) < 0x100 && (Num(b) == c as int <==> b == ByteFrom(c as int))
  {
    hide Num;
    NumBits(b);
  }

  /** Bits 22 to 20 of a little-endian word are bits 6 to 4 of its third byte. */
  lemma {:induction false} QerBits(sfdp: nat -> Byte, a: nat)
    ensures DwordAt(sfdp, a) / 0x10_0000 % 8
         == var b := sfdp(a + 2); Digit(b.b4) + 2 * Digit(b.b5) + 4 * Digit(b.b6)
  {
    hide Num;
    var p0, p1, b, p3 := sfdp(a), sfdp(a + 1), sfdp(a + 2), sfdp(a + 3);
    NumExtremes(p0);
    NumExtremes(p1);
    NumBits(b);
    var lo := Digit(b.b0) + 2 * Digit(b.b1) + 4 * Digit(b.b2) + 8 * Digit(b.b3);
    var mid := Digit(b.b4) + 2 * Digit(b.b5) + 4 * Digit(b.b6);
    var hi := Digit(b.b7) + 2 * Num(p3);
    DivModUnique(DwordAt(sfdp, a), 0x10_0000, mid + 8 * hi, Num(p0) + 0x100 * Num(p1) + 0x1_0000 * lo);
    DivModUnique(mid + 8 * hi, 8, hi, mid);
  }

  /**
   flashdb_port_print_sfdp_dw15 on a device with the given parameter space, given what its two raw reads
   return; qer is what it prints. The length in the first useful header, if there is one, decides, and the
   field is taken from DWORD 15 of the table that it points to.
   */
  method PrintDw15(open: bool, sfdp: nat -> Byte, hdrRet: int, bfpRet: int)
    returns (ret: int, qer: nat, ghost first: Option<nat>)
    ensures !open ==> ret == -EACCES
    ensures open && hdrRet != 0 ==> ret == hdrRet
    ensures open && hdrRet == 0 && !(sfdp(0) == ByteFrom('S' as int) && sfdp(1) == ByteFrom('F' as int)
                                     && sfdp(2) == ByteFrom('D' as int) && sfdp(3) == ByteFrom('P' as int)) ==>
              ret == -EINVAL
    ensures open && hdrRet == 0 && sfdp(0) == ByteFrom('S' as int) && sfdp(1) == ByteFrom('F' as int)
            && sfdp(2) == ByteFrom('D' as int) && sfdp(3) == ByteFrom('P' as int)
            && first == None ==>
              && ret == -ENOTSUP
              && forall j :: 0 <= j <= Num(sfdp(6)) && j < 7 ==>
                   !(sfdp(8 * j + 8) == ByteFrom(0) && sfdp(8 * j + 15) == FF && sfdp(8 * j + 11) != ByteFrom(0))
    ensures open && hdrRet == 0 && sfdp(0) == ByteFrom('S' as int) && sfdp(1) == ByteFrom('F' as int)
            && sfdp(2) == ByteFrom('D' as int) && sfdp(3) == ByteFrom('P' as int)
            && first.Some? ==>
              var i := first.value;
              && i <= Num(sfdp(6)) && i < 7
              && sfdp(8 * i + 8) == ByteFrom(0) && sfdp(8 * i + 15) == FF && sfdp(8 * i + 11) != ByteFrom(0)
              && (forall j :: 0 <= j < i ==>
                    !(sfdp(8 * j + 8) == ByteFrom(0) && sfdp(8 * j + 15) == FF && sfdp(8 * j + 11) != ByteFrom(0)))
              && var table := Num(sfdp(8 * i + 12)) + 0x100 * Num(sfdp(8 * i + 13)) + 0x1_0000 * Num(sfdp(8 * i + 14));
                 if Num(sfdp(8 * i + 11)) < 15 then ret == -ENOTSUP
                 else
                   && ret == bfpRet
                   && (ret == 0 ==>
                         qer == Digit(sfdp(table + 58).b4) + 2 * Digit(sfdp(table + 58).b5) + 4 * Digit(sfdp(table + 58).b6))
  {
    hide Num, DwordAt, WordAt, ByteFrom, Digit, Raw;
    qer, first := 0, None;
    if !open {
      return -EACCES, qer, first;
    }
    if hdrRet != 0 {
      return hdrRet, qer, first;
    }
    var hdr := Raw(sfdp, 0, HDR);
    RawWord(sfdp, 0, HDR, 0);
    MagicBytes(sfdp);
    var magic := ReadWord(hdr, 0);
    if magic != MAGIC {
      return -EINVAL, qer, first;
    }
    var addr, lenDw;
    ghost var i;
    addr, lenDw, i := ScanHeaders(hdr, Num(hdr[6]) + 1);
    HeadersInSpace(sfdp);
    first := if lenDw == 0 then None else Some(i);
    if lenDw < 15 {
      return -ENOTSUP, qer, first;
    }
    if bfpRet != 0 {
      return bfpRet, qer, first;
    }
    var bfp := Raw(sfdp, addr, BFP);
    RawWord(sfdp, addr, BFP, 4 * 14);
    QerBits(sfdp, addr + 4 * 14);
    qer := ReadQer(bfp);
    ret := 0;
  }

  lemma HeadersInSpace(sfdp: nat -> Byte)
    ensures forall k :: 0 <= k < HDR ==> Raw(sfdp, 0, HDR)[k] == sfdp(k)
  {}

  lemma RawWord(sfdp: nat -> Byte, addr: nat, len: nat, off: nat)
    requires off + 4 <= len
    ensures WordAt(Raw(sfdp, addr, len), off) == DwordAt(sfdp, addr + off)
  {
    hide Num;
  }

  /** u32_from_le_bytes at an offset. */
  method ReadWord(s: seq<Byte>, off: nat) returns (v: nat)
    requires off + 4 <= |s|
    ensures v == WordAt(s, off)
  {
    U32IsArithmetic(s[off], s[off + 1], s[off + 2], s[off + 3]);
    v := Value(U32FromLe(s[off], s[off + 1], s[off + 2], s[off + 3]));
  }

  /** The QER field of DWORD 15. */
  method ReadQer(bfp: seq<Byte>) returns (qer: nat)
    requires |bfp| == BFP
    ensures qer == WordAt(bfp, 4 * 14) / 0x10_0000 % 8
  {
    var dw15 := U32FromLe(bfp[56], bfp[57], bfp[58], bfp[59]);
    U32IsArithmetic(bfp[56], bfp[57], bfp[58], bfp[59]);
    QerIsBits22To20(dw15);
    qer := Value(Qer(dw15));
  }
}
