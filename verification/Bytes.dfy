/** Bytes as their eight bits (low bit first, as a UART sends them), flattening, and Option. */
module Bytes {

  datatype Option<+T> = None | Some(value: T)

  datatype Byte = Byte(b0: bool, b1: bool, b2: bool, b3: bool, b4: bool, b5: bool, b6: bool, b7: bool)

  /** The erased state of a NOR cell. */
  const FF: Byte := Byte(true, true, true, true, true, true, true, true)

  predicate Bit(b: Byte, i: int) {
    if i == 0 then b.b0 else if i == 1 then b.b1 else if i == 2 then b.b2 else if i == 3 then b.b3
    else if i == 4 then b.b4 else if i == 5 then b.b5 else if i == 6 then b.b6 else b.b7
  }

  function BitsOf(b: Byte): (w: seq<bool>)
    ensures |w| == 8
  {
    seq(8, i => Bit(b, i))
  }

  function ByteOf(w: seq<bool>): Byte
    requires |w| == 8
  {
    Byte(w[0], w[1], w[2], w[3], w[4], w[5], w[6], w[7])
  }

  lemma BitsOfByteOf(w: seq<bool>)
    requires |w| == 8
    ensures BitsOf(ByteOf(w)) == w
  {}

  lemma ByteOfBitsOf(b: Byte)
    ensures ByteOf(BitsOf(b)) == b
  {}

  /** Programming a NOR cell can only clear bits. */
  function And(a: Byte, b: Byte): Byte {
    Byte(a.b0 && b.b0, a.b1 && b.b1, a.b2 && b.b2, a.b3 && b.b3, a.b4 && b.b4, a.b5 && b.b5, a.b6 && b.b6, a.b7 && b.b7)
  }

  /** The number a list of bits stands for, low bit first. */
  function Value(w: seq<bool>): nat {
    if w == [] then 0 else (if w[0] then 1 else 0) + 2 * Value(w[1..])
  }

  /** The byte with the given value. */
  function ByteFrom(v: nat): Byte {
    Byte(v % 2 == 1, v / 2 % 2 == 1, v / 4 % 2 == 1, v / 8 % 2 == 1,
         v / 16 % 2 == 1, v / 32 % 2 == 1, v / 64 % 2 == 1, v / 128 % 2 == 1)
  }

  function Min(a: int, b: int): int { if a < b then a else b }

  /** The concatenation of a list of byte strings. */
  function Flatten(ss: seq<seq<Byte>>): seq<Byte> {
    if ss == [] then [] else Flatten(ss[..|ss| - 1]) + ss[|ss| - 1]
  }

  lemma FlattenSnoc(ss: seq<seq<Byte>>, s: seq<Byte>)
    ensures Flatten(ss + [s]) == Flatten(ss) + s
  {
    assert (ss + [s])[..|ss|] == ss;
  }

  lemma {:induction false} FlattenConcat(a: seq<seq<Byte>>, b: seq<seq<Byte>>)
    ensures Flatten(a + b) == Flatten(a) + Flatten(b)
    decreases b
  {
    if b == [] {
      assert a + b == a;
    } else {
      var k := |b| - 1;
      assert (a + b)[..|a| + k] == a + b[..k];
      FlattenConcat(a, b[..k]);
    }
  }
}
