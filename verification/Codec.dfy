/**
 The stream codec itself: Decoder and Encoder keep a position in a byte stream and a sequence number,
 drive a running checksum, and are proved against the frame functions.  UnrollPacket and the
 re-encoding of raw cloud commands come from the link loop of src/fmulink/fmulink.go.
 */
module MavlinkCodec {
  import opened Bytes
  import opened ReflectedCrc
  import opened X25Checksum
  import opened MavlinkFrames
  import opened MavlinkStreams

  class Decoder {
    var br: seq<u8>      // bytes not yet read
    var currSeqId: u8
    const dialects: seq<Dialect>

    constructor (input: seq<u8>, ds: seq<Dialect>)
      ensures br == input && currSeqId == 0 && dialects == ds
    {
      br := input;
      currSeqId := 0;
      dialects := ds;
    }

    method ReadByte() returns (c: u8, err: Option<Error>)
      modifies this`br
      ensures old(br) == [] ==> err == Some(EOF) && br == []
      ensures old(br) != [] ==> err == None && c == old(br)[0] && br == old(br)[1..]
    {
      if br == [] {
        return 0, Some(EOF);
      }
      c, err := br[0], None;
      br := br[1..];
    }

    /** Reads exactly n bytes, or all there are and an error. */
    method ReadFull(n: nat) returns (buf: seq<u8>, err: Option<Error>)
      requires n > 0
      modifies this`br
      ensures |old(br)| >= n ==> err == None && buf == old(br)[..n] && br == old(br)[n..]
      ensures |old(br)| < n ==> err == Some(if old(br) == [] then EOF else UnexpectedEOF) && br == []
    {
      if |br| < n {
        err := Some(if br == [] then EOF else UnexpectedEOF);
        buf, br := br, [];
      } else {
        buf, br, err := br[..n], br[n..], None;
      }
    }

    /** Discards bytes up to and including the first start byte. */
    method SkipToStart() returns (err: Option<Error>)
      modifies this`br
      ensures err.None? ==> ParseFrame(dialects, br) == DecodeStream(dialects, old(br))
      ensures err.Some? ==> (NoPacket(err.value), br) == DecodeStream(dialects, old(br))
    {
      hide DecodeStream, ParseFrame;
      var found := false;
      while !found
        invariant if found then ParseFrame(dialects, br) == DecodeStream(dialects, old(br))
                  else DecodeStream(dialects, br) == DecodeStream(dialects, old(br))
        decreases !found, |br|
      {
        DecodeUnfolds(dialects, br);
        var c;
        c, err := ReadByte();
        if err.Some? {
          return;
        }
        found := c == START;
      }
      err := None;
    }

    method Decode() returns (r: Outcome)
      modifies this
      ensures (r, br) == DecodeStream(dialects, old(br))
      ensures currSeqId == if r.Accepted? then r.packet.seqId else old(currSeqId)
    {
      hide DecodeStream, ParseFrame, Checksum, BytesToU16, Update, ByteStep, Bv, Bv8, Word, FindCrcX;
      var err := SkipToStart();
      if err.Some? {
        return NoPacket(err.value);
      }
      ghost var b := br;
      ParseUnfolds(dialects, b);
      var hdr;
      hdr, err := ReadFull(5);
      if err.Some? {
        return NoPacket(err.value);
      }
      var (p0, payloadLen) := NewPacketFromBytes(hdr);
      var p := p0;
      var crc := new X25();
      var _ := crc.Write(hdr);
      var buf;
      buf, err := ReadFull(payloadLen + 2);
      if err.Some? {
        return Rejected(p, err.value);
      }
      p := p.(payload := buf[..payloadLen]);
      var _ := crc.Write(p.payload);
      TwoReads(b, hdr, buf, payloadLen);
      var crcx := LookUpCrcX(dialects, p.msgId);
      if crcx.None? {
        return Rejected(p, UnknownMsgId);
      }
      crc.WriteByte(crcx.value);
      p := p.(checksum := BytesToU16(buf[payloadLen], buf[payloadLen + 1]));
      var sum := crc.Sum16();
      ChecksumInParts(hdr, p.payload, crcx.value);
      if p.checksum != sum {
        return Rejected(p, CrcFail);
      }
      currSeqId := p.seqId;
      r := Accepted(p);
    }
  }

  class Encoder {
    var bw: seq<u8>      // everything handed to the writer
    var currSeqId: u8
    const dialects: seq<Dialect>

    constructor (ds: seq<Dialect>)
      ensures bw == [] && currSeqId == 0 && dialects == ds
    {
      bw := [];
      currSeqId := 0;
      dialects := ds;
    }

    method EncodePacket(p: Packet) returns (err: Option<Error>)
      modifies this
      ensures var (bytes, e) := EncodeBytes(dialects, old(currSeqId), p);
              bw == old(bw) + bytes && err == e
      ensures currSeqId == if err.None? then (old(currSeqId) + 1) % 256 else old(currSeqId)
    {
      hide Checksum, U16ToBytes, Wire, Core, EncodeBytes;
      var crc := new X25();
      var hdr := [START, LengthByte(|p.payload|), currSeqId, p.sysId, p.compId, p.msgId];
      bw := bw + hdr;
      var _ := crc.Write(hdr[1..]);
      bw := bw + p.payload;
      var _ := crc.Write(p.payload);
      EncodesInParts(dialects, currSeqId, p, hdr);
      var crcx := LookUpCrcX(dialects, p.msgId);
      if crcx.None? {
        Regroup(old(bw), hdr, p.payload, []);
        return Some(UnknownMsgId);
      }
      crc.WriteByte(crcx.value);
      var sum := crc.Sum16();
      ChecksumInParts(hdr[1..], p.payload, crcx.value);
      bw := bw + U16ToBytes(sum);
      Regroup(old(bw), hdr, p.payload, U16ToBytes(sum));
      currSeqId := (currSeqId + 1) % 256;
      err := None;
    }
  }

  lemma Regroup(a: seq<u8>, b: seq<u8>, c: seq<u8>, d: seq<u8>)
    ensures a + b + c == a + (b + c)
    ensures a + b + c + d == a + (b + c + d)
  {
  }

  lemma EncodesInParts(ds: seq<Dialect>, seqId: u8, p: Packet, hdr: seq<u8>)
    requires hdr == [START, LengthByte(|p.payload|), seqId, p.sysId, p.compId, p.msgId]
    ensures EncodeBytes(ds, seqId, p) ==
      match FindCrcX(ds, p.msgId)
      case None => (hdr + p.payload, Some(UnknownMsgId))
      case Some(crcx) => (hdr + p.payload + U16ToBytes(Checksum(hdr[1..] + p.payload, crcx)), None)
  {
    hide Checksum, U16ToBytes;
    assert hdr[1..] + p.payload == Core(p.(seqId := seqId));
    assert hdr + p.payload == [START] + Core(p.(seqId := seqId));
    if FindCrcX(ds, p.msgId).Some? {
      CoreIgnoresChecksum(p.(seqId := seqId), Stamp(p, seqId, FindCrcX(ds, p.msgId).value));
    }
  }

  /** The packet fields of a five-byte header, and the payload length. */
  function NewPacketFromBytes(b: seq<u8>): (Packet, nat)
    requires |b| >= 5
  {
    (Packet(b[1], b[2], b[3], b[4], [], 0), b[0])
  }

  /** The header and the buffer together are the frame's bytes. */
  lemma TwoReads(b: seq<u8>, hdr: seq<u8>, buf: seq<u8>, n: nat)
    requires |b| >= 7 + n && hdr == b[..5] && buf == b[5..][..n + 2]
    ensures hdr + buf[..n] == b[..5 + n] && buf[..n] == b[5..5 + n] && b[5..][n + 2..] == b[7 + n..]
    ensures buf[n] == b[5 + n] && buf[n + 1] == b[6 + n]
  {
  }

  lemma DecodeUnfolds(ds: seq<Dialect>, s: seq<u8>)
    ensures DecodeStream(ds, s) ==
            if s == [] then (NoPacket(EOF), [])
            else if s[0] != START then DecodeStream(ds, s[1..])
            else ParseFrame(ds, s[1..])
  {
    hide ParseFrame;
  }

  lemma ParseUnfolds(ds: seq<Dialect>, b: seq<u8>)
    ensures |b| < 5 ==> ParseFrame(ds, b) == (NoPacket(if b == [] then EOF else UnexpectedEOF), [])
    ensures 5 <= |b| < (b[0] as nat) + 7 ==>
      ParseFrame(ds, b)
      == (Rejected(Packet(b[1], b[2], b[3], b[4], [], 0), if |b| == 5 then EOF else UnexpectedEOF), [])
    ensures 5 <= |b| && |b| >= (b[0] as nat) + 7 ==>
      var n: nat := b[0];
      ParseFrame(ds, b) == (Judge(ds, Packet(b[1], b[2], b[3], b[4], b[5..5 + n], 0), b[..5 + n],
                                  BytesToU16(b[5 + n], b[6 + n])), b[7 + n..])
  {
  }

  lemma ChecksumInParts(h: seq<u8>, payload: seq<u8>, crcx: u8)
    ensures Word(ByteStep(POLY, Update(POLY, Update(POLY, INITIAL, Bv(h)), Bv(payload)), Bv8(crcx)))
         == Checksum(h + payload, crcx)
  {
    hide ByteStep, Word;
    UpdateConcat(POLY, INITIAL, h, payload);
  }

  /** Decodes one datagram, cut from a buffer that goes on with `spare`. */
  method DecodeBytes(b: seq<u8>, spare: seq<u8>, ds: seq<Dialect>) returns (r: Outcome)
    ensures r == DecodeDatagram(ds, b, spare)
  {
    hide Checksum, BytesToU16;
    if |b| < 6 || b[0] != START {
      return NoPacket(InvalidHeader);
    }
    var (p0, payloadLen) := NewPacketFromBytes(b[1..]);
    var reach := b + spare;
    if |reach| < 6 + payloadLen {
      return NoPacket(OutOfRange);
    }
    var crc := new X25();
    var p := p0.(payload := reach[6..6 + payloadLen]);
    var _ := crc.Write(reach[1..6 + payloadLen]);
    var crcx := LookUpCrcX(ds, p.msgId);
    if crcx.None? {
      return Rejected(p, UnknownMsgId);
    }
    crc.WriteByte(crcx.value);
    if |b| < 8 + payloadLen {
      return NoPacket(OutOfRange);
    }
    assert reach[1..6 + payloadLen] == b[1..6 + payloadLen];
    p := p.(checksum := BytesToU16(b[6 + payloadLen], b[7 + payloadLen]));
    var sum := crc.Sum16();
    ChecksumWhole(b[1..6 + payloadLen], crcx.value);
    r := if p.checksum != sum then Rejected(p, CrcFail) else Accepted(p);
  }

  lemma ChecksumWhole(core: seq<u8>, crcx: u8)
    ensures Word(ByteStep(POLY, Update(POLY, INITIAL, Bv(core)), Bv8(crcx))) == Checksum(core, crcx)
  {
    hide ByteStep, Word;
  }

  // ---------- the link loop ----------

  /** The raw bytes of a packet, filled in place. */
  method UnrollPacket(pkt: Packet) returns (buf: array<u8>)
    ensures fresh(buf)
    ensures buf[..] == Wire(pkt)
  {
    var plen := |pkt.payload|;
    buf := new u8[plen + 8](_ => 0);
    buf[0] := START;
    buf[1] := LengthByte(plen);
    buf[2] := pkt.seqId;
    buf[3] := pkt.sysId;
    buf[4] := pkt.compId;
    buf[5] := pkt.msgId;
    for i := 0 to plen
      invariant buf[0] == START && buf[1] == LengthByte(plen) && buf[2] == pkt.seqId
      invariant buf[3] == pkt.sysId && buf[4] == pkt.compId && buf[5] == pkt.msgId
      invariant forall j :: 0 <= j < i ==> buf[6 + j] == pkt.payload[j]
    {
      buf[i + 6] := pkt.payload[i];
    }
    buf[plen + 6] := pkt.checksum % 256;
    buf[plen + 7] := pkt.checksum / 256;
    WireFromParts(pkt, buf[..]);
  }

  lemma WireFromParts(p: Packet, b: seq<u8>)
    requires |b| == |p.payload| + 8
    requires b[0] == START && b[1] == LengthByte(|p.payload|) && b[2] == p.seqId
    requires b[3] == p.sysId && b[4] == p.compId && b[5] == p.msgId
    requires forall j {:trigger p.payload[j]} :: 0 <= j < |p.payload| ==> b[6 + j] == p.payload[j]
    requires [b[|b| - 2], b[|b| - 1]] == U16ToBytes(p.checksum)
    ensures b == Wire(p)
  {
    hide U16ToBytes;
    assert b[..6] == [START] + Core(p)[..5];
    assert b[6..|b| - 2] == p.payload;
    assert b == b[..6] + b[6..|b| - 2] + [b[|b| - 2], b[|b| - 1]];
  }

  /** A raw cloud command as a packet; anything shorter than an empty frame is a slice fault in the source. */
  function ChunkPacket(chunk: seq<u8>): Option<Packet> {
    if |chunk| < 8 then None
    else Some(Packet(chunk[2], chunk[3], chunk[4], chunk[5], chunk[6..|chunk| - 2], 0))
  }

  /** a and b agree except at the sequence byte and the two checksum bytes. */
  predicate SameButSeqAndChecksum(a: seq<u8>, b: seq<u8>) {
    |a| == |b| && forall j :: 0 <= j < |a| - 2 && j != 2 ==> a[j] == b[j]
  }

  /**
   Re-encoding a raw command changes nothing but its sequence and checksum bytes exactly when its id is
   known, it starts like a frame and its length byte is consistent.
   */
  lemma ReencodingKeeps(ds: seq<Dialect>, seqId: u8, chunk: seq<u8>)
    requires |chunk| >= 8
    ensures SameButSeqAndChecksum(EncodeBytes(ds, seqId, ChunkPacket(chunk).value).0, chunk)
       <==> FindCrcX(ds, chunk[5]).Some? && chunk[0] == START && chunk[1] == LengthByte(|chunk| - 8)
  {
    hide Checksum, U16ToBytes, FindCrcX;
    var n := |chunk|;
    var p := ChunkPacket(chunk).value;
    var out := EncodeBytes(ds, seqId, p).0;
    assert out[0] == START && out[1] == LengthByte(n - 8);
    assert out[3] == chunk[3] && out[4] == chunk[4] && out[5] == chunk[5];
    forall j | 6 <= j < n - 2 ensures out[j] == chunk[j] {
      assert out[j] == p.payload[j - 6];
    }
  }

  /** A good frame whose sequence number is the encoder's own turn passes through unchanged. */
  lemma ReencodingGoodFrame(ds: seq<Dialect>, p: Packet)
    requires Good(ds, p)
    ensures ChunkPacket(Wire(p)) == Some(p.(checksum := 0))
    ensures EncodeBytes(ds, p.seqId, ChunkPacket(Wire(p)).value) == (Wire(p), None)
  {
    hide Checksum, U16ToBytes;
    assert Wire(p)[6..|Wire(p)| - 2] == p.payload;
    var q := p.(checksum := 0);
    CoreIgnoresChecksum(q, p);
  }
}
