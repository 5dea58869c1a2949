/**
 The RTU frame of modbus_service.c: unit id, function code, data, CRC trailer. Encode is what
 modbus_raw_tx_cb builds, Decode is what modbus_submit_frame hands to the server.
 */
module AduCodec {
  import opened Bytes
  import opened Crc16
  import opened CrcDetection
  import opened CrcPeriod

  /** The fields of struct modbus_adu that cross the wire; crc is filled in on receive only. */
  datatype Adu = Adu(unitId: Byte, fc: Byte, data: seq<Byte>, crc: Reg)

  /** What is on the wire of an ADU, whatever its crc field held. */
  function Body(adu: Adu): seq<Byte> { [adu.unitId, adu.fc] + adu.data }

  function Encode(adu: Adu): (f: seq<Byte>)
    ensures |f| == |adu.data| + 4
  {
    Body(adu) + Trailer(Crc(Body(adu)))
  }

  /** The CRC a frame carries in its last two bytes. */
  function Carried(f: seq<Byte>): Reg
    requires |f| >= 2
  {
    Le16(f[|f| - 2], f[|f| - 1])
  }

  predicate Accepts(f: seq<Byte>) {
    |f| >= 4 && Carried(f) == Crc(f[..|f| - 2])
  }

  function Decode(f: seq<Byte>): (r: Option<Adu>)
    ensures r.Some? <==> Accepts(f)
  {
    if Accepts(f) then Some(Adu(f[0], f[1], f[2..|f| - 2], Carried(f))) else None
  }

  // ---- encode and decode are mutual inverses

  lemma DecodeEncode(adu: Adu)
    ensures Decode(Encode(adu)) == Some(adu.(crc := Crc(Body(adu))))
    ensures var f := Encode(adu);
            && f[0] == adu.unitId && f[1] == adu.fc && f[2..|f| - 2] == adu.data
            && f[|f| - 2..] == Trailer(Crc(f[..|f| - 2]))
  {
    var f, b := Encode(adu), Body(adu);
    assert f[..|f| - 2] == b;
    TrailerLe16(Crc(b));
    assert f[2..|f| - 2] == adu.data;
  }

  lemma FrameParts(f: seq<Byte>, k: nat)
    requires |f| == k + 2 >= 4
    ensures f == f[..k] + [f[k], f[k + 1]]
    ensures f[..k] == [f[0], f[1]] + f[2..k]
  {}

  lemma EncodeDecode(f: seq<Byte>)
    requires Accepts(f)
    ensures Encode(Decode(f).value) == f
    ensures var adu := Decode(f).value;
            adu.unitId == f[0] && adu.fc == f[1] && adu.data == f[2..|f| - 2] && Trailer(adu.crc) == f[|f| - 2..]
  {
    var k := |f| - 2;
    FrameParts(f, k);
    Le16Trailer(f[k], f[k + 1]);
  }

  /** What is accepted: four bytes at least, the last two of them the CRC of the others, low byte first. */
  lemma AcceptedIff(f: seq<Byte>)
    ensures Decode(f).Some? <==> |f| >= 4 && f[|f| - 2..] == Trailer(Crc(f[..|f| - 2]))
  {
    if |f| >= 4 {
      var k := |f| - 2;
      FrameParts(f, k);
      assert f[k..] == [f[k], f[k + 1]];
      Le16Trailer(f[k], f[k + 1]);
      TrailerLe16(Crc(f[..k]));
    }
  }

  // ---- what the receiver detects

  lemma AcceptsIffResidueZero(f: seq<Byte>)
    requires |f| >= 4
    ensures Accepts(f) <==> Crc(f) == Zero()
  {
    var k := |f| - 2;
    FrameParts(f, k);
    ResidueZeroIff(f[..k], f[k], f[k + 1]);
  }

  /** The receiver cannot tell g from a good frame exactly when the error alone leaves no remainder. */
  lemma ErrorUndetectedIff(f: seq<Byte>, g: seq<Byte>, e: seq<bool>)
    requires Accepts(f) && Corrupted(g, f, e)
    ensures Accepts(g) <==> Run(Zero(), e) == Zero()
  {
    AcceptsIffResidueZero(f);
    assert |g| == |f|;
    AcceptsIffResidueZero(g);
    UndetectedIff(f, g, e);
  }

  lemma BurstRejected(adu: Adu, g: seq<Byte>, e: seq<bool>, k: nat)
    requires Corrupted(g, Encode(adu), e) && Burst16(e, k)
    ensures Decode(g) == None
  {
    DecodeEncode(adu);
    BurstLeavesResidue(e, k);
    ErrorUndetectedIff(Encode(adu), g, e);
  }

  lemma OddFlipsRejected(adu: Adu, g: seq<Byte>, e: seq<bool>)
    requires Corrupted(g, Encode(adu), e) && Ones(e) % 2 == 1
    ensures Decode(g) == None
  {
    DecodeEncode(adu);
    OddLeavesResidue(e);
    ErrorUndetectedIff(Encode(adu), g, e);
  }

  lemma TwoFlipsRejectedIff(adu: Adu, g: seq<Byte>, e: seq<bool>, i: nat, j: nat)
    requires Corrupted(g, Encode(adu), e) && Pair(e, i, j)
    ensures Decode(g) == None <==> (j - i) % PERIOD != 0
  {
    DecodeEncode(adu);
    PairResidueIff(e, i, j);
    ErrorUndetectedIff(Encode(adu), g, e);
  }

  /** A frame buffer holds at most 256 bytes; from 4096 on two flips can lie a whole period apart. */
  lemma FewFlipsRejected(adu: Adu, g: seq<Byte>, e: seq<bool>)
    requires Corrupted(g, Encode(adu), e) && |g| < 4096 && 1 <= Ones(e) <= 3
    ensures Decode(g) == None
  {
    assert |e| == |Bits(g)| == 8 * |g|;
    hide Corrupted, Ones, Bits, Run;
    DecodeEncode(adu);
    FewLeaveResidue(e);
    ErrorUndetectedIff(Encode(adu), g, e);
  }

  lemma AcceptedFramesHaveEvenOnes(f: seq<Byte>)
    requires Accepts(f)
    ensures Ones(Bits(f)) % 2 == 0
  {
    AcceptsIffResidueZero(f);
    AcceptedHasEvenOnes(f);
  }
}
