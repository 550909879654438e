/**
 Typed messages from end to end: a message of any declaration is packed, framed, carried, parsed and
 unpacked (Encode of src/mavlink/parser/message.go with the code the generator emits).
 */
module MavlinkMessages {
  import opened Bytes
  import opened MavlinkFrames
  import opened MavlinkStreams
  import opened MavlinkCodec
  import opened MavlinkLayout
  import opened MavlinkGenerator
  import opened MavlinkPayload

  /** Encode: pack the message, address it, and write the packet. */
  method Encode(enc: Encoder, sysId: u8, compId: u8, msgId: u8, fs: seq<Field>, byteOffset: seq<nat>, vs: seq<Value>)
    returns (err: Option<Error>)
    requires FitsAll(fs, vs) && |byteOffset| == |fs|
    requires forall i :: 0 <= i < |fs| ==> byteOffset[i] == Offset(fs, i)
    modifies enc
    ensures var p := Packet(0, sysId, compId, msgId, Packed(fs, vs), 0);
            var (bytes, e) := EncodeBytes(enc.dialects, old(enc.currSeqId), p);
            enc.bw == old(enc.bw) + bytes && err == e
    ensures enc.currSeqId == if err.None? then (old(enc.currSeqId) + 1) % 256 else old(enc.currSeqId)
  {
    var payload := Pack(fs, byteOffset, vs);
    err := enc.EncodePacket(Packet(0, sysId, compId, msgId, payload[..], 0));
  }

  /** The bytes decode to a packet of this origin and id whose payload unpacks to the values. */
  predicate MessageArrives(ds: seq<Dialect>, bytes: seq<u8>, p: Packet, fs: seq<Field>, vs: seq<Value>) {
    match DecodeStream(ds, bytes).0
    case Accepted(q) =>
      q.sysId == p.sysId && q.compId == p.compId && q.msgId == p.msgId && UnpackedFrom(fs, q.payload) == Some(vs)
    case _ => false
  }

  /** A message arrives with its values exactly when its id is known and its fields fit in 255 bytes. */
  lemma MessageArrivesExactly(ds: seq<Dialect>, seqId: u8, p: Packet, fs: seq<Field>, vs: seq<Value>)
    requires FitsAll(fs, vs) && p.payload == Packed(fs, vs)
    ensures MessageArrives(ds, EncodeBytes(ds, seqId, p).0, p, fs, vs)
       <==> FindCrcX(ds, p.msgId).Some? && Size(fs) <= 255
  {
    hide DecodeStream, Packed, Unpacked, EncodeBytes, FitsAll, Good;
    EncodedPacketArrives(ds, seqId, p);
    UnpackPack(fs, vs);
    assert p.payload[..Size(fs)] == p.payload;
    if MessageArrives(ds, EncodeBytes(ds, seqId, p).0, p, fs, vs) {
      AcceptedFits(ds, seqId, p);
    }
  }

  /** Whatever an encoder's output is accepted as has a known id and no more payload than its length byte says. */
  lemma AcceptedFits(ds: seq<Dialect>, seqId: u8, p: Packet)
    requires DecodeStream(ds, EncodeBytes(ds, seqId, p).0).0.Accepted?
    ensures var q := DecodeStream(ds, EncodeBytes(ds, seqId, p).0).0.packet;
            |q.payload| == |p.payload| % 256 && FindCrcX(ds, q.msgId).Some?
  {
    hide Checksum, U16ToBytes, DecodeStream, Noise;
    var bytes := EncodeBytes(ds, seqId, p).0;
    AcceptedIsWire(ds, bytes);
    var q := DecodeStream(ds, bytes).0.packet;
    NoNoise(bytes);
    assert bytes[0] == START && bytes[1] == LengthByte(|p.payload|);
    assert Wire(q)[1] == bytes[1];
  }

  lemma NoNoise(s: seq<u8>)
    requires s != [] && s[0] == START
    ensures Noise(s) == []
  {
  }

  /**
   Two peers whose declarations differ only across widths agree on the CRC_EXTRA and on the bytes, so
   each reads the other's messages.
   */
  lemma ReorderedPeersAgree(name: seq<u8>, a: seq<Field>, b: seq<Field>, vs: seq<Value>)
    requires SameWithinWidths(a, b) && FitsAll(Arranged(a), vs)
    ensures CrcExtraOf(name, Arranged(a)) == CrcExtraOf(name, Arranged(b))
    ensures UnpackedFrom(Arranged(b), Packed(Arranged(a), vs)) == Some(vs)
  {
    hide Packed, Unpacked, Arranged;
    LayoutIgnoresCrossWidthOrder(a, b);
    UnpackPack(Arranged(a), vs);
    var s := Packed(Arranged(a), vs);
    assert s[..|s|] == s;
  }
}
