/**
 Whole streams of MAVLink frames: what an encoder sends a decoder receives, in order, whatever noise
 lies between the frames and whichever frames were damaged on the way.
 */
module MavlinkStreams {
  import opened Bytes
  import opened ShiftRegister
  import opened ReflectedCrc
  import opened MavlinkFrames
  import opened MavlinkDamage

  // ---------- one packet through encoder and decoder ----------

  lemma StampIsGood(ds: seq<Dialect>, seqId: u8, p: Packet)
    requires FindCrcX(ds, p.msgId).Some? && |p.payload| <= 255
    ensures Good(ds, Stamp(p, seqId, FindCrcX(ds, p.msgId).value))
  {
    hide Checksum;
    assert Core(p.(seqId := seqId)) == Core(Stamp(p, seqId, FindCrcX(ds, p.msgId).value));
  }

  /** The bytes decode to a packet with p's addressing, message id and payload. */
  predicate Arrives(ds: seq<Dialect>, bytes: seq<u8>, p: Packet) {
    match DecodeStream(ds, bytes).0
    case Accepted(q) => q == p.(seqId := q.seqId, checksum := q.checksum)
    case _ => false
  }

  /** EncodePacket gets a packet across exactly when its id is known and its payload fits the length byte. */
  lemma EncodedPacketArrives(ds: seq<Dialect>, seqId: u8, p: Packet)
    ensures Arrives(ds, EncodeBytes(ds, seqId, p).0, p)
       <==> FindCrcX(ds, p.msgId).Some? && |p.payload| <= 255
  {
    hide Core, Checksum, Noise, U16ToBytes;
    var bytes := EncodeBytes(ds, seqId, p).0;
    if FindCrcX(ds, p.msgId).Some? && |p.payload| <= 255 {
      StampIsGood(ds, seqId, p);
      var q := Stamp(p, seqId, FindCrcX(ds, p.msgId).value);
      DecodesGood(ds, [], q, []);
      assert [] + Wire(q) + [] == Wire(q);
    }
    if Arrives(ds, bytes, p) {
      AcceptedIsWire(ds, bytes);
    }
  }

  // ---------- whole streams ----------

  lemma ParseShrinks(ds: seq<Dialect>, b: seq<u8>)
    ensures |ParseFrame(ds, b).1| <= |b|
  {
  }

  lemma {:induction false} DecodeShrinks(ds: seq<Dialect>, s: seq<u8>)
    requires s != []
    ensures |DecodeStream(ds, s).1| < |s|
  {
    hide ParseFrame;
    ParseShrinks(ds, s[1..]);
    if s[0] != START && s[1..] != [] {
      DecodeShrinks(ds, s[1..]);
    }
  }

  /** Every packet repeated calls of Decode accept before the stream is used up. */
  function Delivered(ds: seq<Dialect>, s: seq<u8>): seq<Packet>
    decreases |s|
  {
    if s == [] then []
    else
      var (r, rest) := DecodeStream(ds, s);
      DecodeShrinks(ds, s);
      (match r case Accepted(p) => [p] case _ => []) + Delivered(ds, rest)
  }

  /** One frame as it reaches the receiver: noise, then the sent packet or what damage made of it. */
  datatype Arrival = Intact(noise: seq<u8>, sent: Packet) | Hit(noise: seq<u8>, sent: Packet, became: Packet)
  {
    function OnWire(): seq<u8> {
      noise + Wire(if Intact? then sent else became)
    }

    predicate Legal(ds: seq<Dialect>) {
      NoStart(noise) && Good(ds, sent) && (Hit? ==> Damaged(sent, became))
    }
  }

  function Stream(arrivals: seq<Arrival>): seq<u8> {
    if arrivals == [] then [] else arrivals[0].OnWire() + Stream(arrivals[1..])
  }

  function Survivors(arrivals: seq<Arrival>): seq<Packet> {
    if arrivals == [] then []
    else (if arrivals[0].Intact? then [arrivals[0].sent] else []) + Survivors(arrivals[1..])
  }

  lemma NoiseDeliversNothing(ds: seq<Dialect>, tail: seq<u8>)
    requires NoStart(tail)
    ensures Delivered(ds, tail) == []
  {
    if tail != [] {
      SkipsNoise(ds, tail, []);
      assert tail + [] == tail;
    }
  }

  /** Damage and noise cost exactly the damaged packets: every other one is delivered, unchanged and in order. */
  lemma {:induction false} LossyStreamDelivers(ds: seq<Dialect>, arrivals: seq<Arrival>, tail: seq<u8>)
    requires forall i :: 0 <= i < |arrivals| ==> arrivals[i].Legal(ds)
    requires NoStart(tail)
    ensures Delivered(ds, Stream(arrivals) + tail) == Survivors(arrivals)
  {
    hide Wire, DecodeStream, Good, Residue;
    if arrivals == [] {
      NoiseDeliversNothing(ds, tail);
      assert Stream(arrivals) + tail == tail;
    } else {
      var a, s := arrivals[0], Stream(arrivals[1..]) + tail;
      assert Stream(arrivals) + tail == a.OnWire() + s;
      if a.Intact? {
        DecodesGood(ds, a.noise, a.sent, s);
      } else {
        FramePassesExactly(ds, a.sent, a.became, a.noise, s);
      }
      LossyStreamDelivers(ds, arrivals[1..], tail);
    }
  }

  // ---------- everything an encoder writes ----------

  /** The sequence number after one call: it moves on, modulo 256, only if the call succeeds. */
  function NextSeq(seqId: u8, err: Option<Error>): u8 {
    if err.None? then (seqId + 1) % 256 else seqId
  }

  /** The packets as one encoder sends them, numbered from seqId. */
  function Numbered(ds: seq<Dialect>, seqId: u8, ps: seq<Packet>): (qs: seq<Packet>)
    requires forall p <- ps :: FindCrcX(ds, p.msgId).Some?
    ensures |qs| == |ps|
    decreases |ps|
  {
    if ps == [] then []
    else [Stamp(ps[0], seqId, FindCrcX(ds, ps[0].msgId).value)] + Numbered(ds, (seqId + 1) % 256, ps[1..])
  }

  lemma {:induction false} NumberedConsecutively(ds: seq<Dialect>, seqId: u8, ps: seq<Packet>, i: nat)
    requires forall p <- ps :: FindCrcX(ds, p.msgId).Some?
    requires i < |ps|
    ensures var qs := Numbered(ds, seqId, ps);
            qs[i] == ps[i].(seqId := (seqId + i) % 256, checksum := qs[i].checksum)
    decreases i
  {
    hide Checksum, Core;
    if i > 0 {
      NumberedConsecutively(ds, (seqId + 1) % 256, ps[1..], i - 1);
      WrapsTogether(seqId, i);
    }
  }

  lemma WrapsTogether(seqId: u8, i: nat)
    requires i > 0
    ensures ((seqId + 1) % 256 + (i - 1)) % 256 == (seqId + i) % 256
  {
  }

  /** The encoder's output for successive calls, with a stretch of other bytes before each frame. */
  function Transmitted(ds: seq<Dialect>, seqId: u8, ps: seq<Packet>, gaps: seq<seq<u8>>): seq<u8>
    requires |gaps| == |ps|
    decreases |ps|
  {
    if ps == [] then []
    else
      var (bytes, err) := EncodeBytes(ds, seqId, ps[0]);
      gaps[0] + bytes + Transmitted(ds, NextSeq(seqId, err), ps[1..], gaps[1..])
  }

  function Intacts(ps: seq<Packet>, gaps: seq<seq<u8>>): seq<Arrival>
    requires |gaps| == |ps|
  {
    if ps == [] then [] else [Intact(gaps[0], ps[0])] + Intacts(ps[1..], gaps[1..])
  }

  lemma {:induction false} IntactsSurvive(ps: seq<Packet>, gaps: seq<seq<u8>>)
    requires |gaps| == |ps|
    ensures Survivors(Intacts(ps, gaps)) == ps
    ensures |Intacts(ps, gaps)| == |ps|
    ensures forall i :: 0 <= i < |ps| ==> Intacts(ps, gaps)[i] == Intact(gaps[i], ps[i])
  {
    if ps != [] {
      IntactsSurvive(ps[1..], gaps[1..]);
    }
  }

  lemma {:induction false} TransmittedIsStream(ds: seq<Dialect>, seqId: u8, ps: seq<Packet>, gaps: seq<seq<u8>>)
    requires |gaps| == |ps|
    requires forall p <- ps :: FindCrcX(ds, p.msgId).Some? && |p.payload| <= 255
    ensures Transmitted(ds, seqId, ps, gaps) == Stream(Intacts(Numbered(ds, seqId, ps), gaps))
    ensures forall q <- Numbered(ds, seqId, ps) :: Good(ds, q)
    decreases |ps|
  {
    hide Checksum, Core, Wire, Good;
    if ps != [] {
      StampIsGood(ds, seqId, ps[0]);
      TransmittedIsStream(ds, (seqId + 1) % 256, ps[1..], gaps[1..]);
    }
  }

  /** Any sequence of encodable packets, with start-free noise around the frames, is delivered whole and in order. */
  lemma StreamRoundTrip(ds: seq<Dialect>, seqId: u8, ps: seq<Packet>, gaps: seq<seq<u8>>, tail: seq<u8>)
    requires |gaps| == |ps|
    requires forall p <- ps :: FindCrcX(ds, p.msgId).Some? && |p.payload| <= 255
    requires NoStart(tail) && forall g <- gaps :: NoStart(g)
    ensures Delivered(ds, Transmitted(ds, seqId, ps, gaps) + tail) == Numbered(ds, seqId, ps)
  {
    hide Checksum, Core, Wire, Good, DecodeStream;
    var qs := Numbered(ds, seqId, ps);
    TransmittedIsStream(ds, seqId, ps, gaps);
    IntactsSurvive(qs, gaps);
    LossyStreamDelivers(ds, Intacts(qs, gaps), tail);
  }

  // ---------- what an unknown message id does to the stream ----------

  /** The frame of an unknown id goes out without a checksum, so the decoder eats two bytes of what follows. */
  lemma UnknownIdSwallowsTwo(ds: seq<Dialect>, seqId: u8, p: Packet, rest: seq<u8>)
    requires FindCrcX(ds, p.msgId).None? && |p.payload| <= 255 && |rest| >= 2
    ensures DecodeStream(ds, EncodeBytes(ds, seqId, p).0 + rest)
         == (Rejected(p.(seqId := seqId, checksum := 0), UnknownMsgId), rest[2..])
  {
    hide Checksum, U16ToBytes, BytesToU16, ParseFrame, Core;
    var q := p.(seqId := seqId, checksum := BytesToU16(rest[0], rest[1]));
    BytesRoundTrip(rest[0], rest[1]);
    CoreIgnoresChecksum(p.(seqId := seqId), q);
    TakeTwo(START, Core(q), rest);
    ParseWire(ds, q, rest[2..]);
  }

  lemma TakeTwo(first: u8, core: seq<u8>, rest: seq<u8>)
    requires |rest| >= 2
    ensures ([first] + core + rest)[1..] == core + [rest[0], rest[1]] + rest[2..]
  {
    assert rest == [rest[0], rest[1]] + rest[2..];
  }

  lemma CoreIgnoresChecksum(p: Packet, q: Packet)
    requires q == p.(checksum := q.checksum)
    ensures Core(p) == Core(q)
  {
  }

  /**
   After the frame of an unknown id, decoding goes on two bytes further: with at least two noise bytes in
   between, the next good frame and all that follows are delivered; otherwise the frame is entered past
   its start byte, and if nothing follows it is lost.
   */
  lemma UnknownIdCostsNextFrame(ds: seq<Dialect>, seqId: u8, p: Packet, gap: seq<u8>, q: Packet, s: seq<u8>)
    requires FindCrcX(ds, p.msgId).None? && |p.payload| <= 255
    requires Good(ds, q) && NoStart(gap)
    ensures var got := Delivered(ds, EncodeBytes(ds, seqId, p).0 + (gap + Wire(q) + s));
            && got == (if |gap| >= 2 then [q] + Delivered(ds, s) else Delivered(ds, Wire(q)[2 - |gap|..] + s))
            && (s == [] ==> (q in got <==> |gap| >= 2))
  {
    hide Checksum, Core, Wire, Good, ParseFrame, DecodeStream, EncodeBytes;
    var bytes, rest := EncodeBytes(ds, seqId, p).0, gap + Wire(q) + s;
    UnknownIdSwallowsTwo(ds, seqId, p, rest);
    EncodesSomething(ds, seqId, p);
    assert bytes + rest != [];
    assert Delivered(ds, bytes + rest) == Delivered(ds, rest[2..]);
    AfterTwoBytes(ds, gap, q, s);
    if s == [] {
      assert Delivered(ds, s) == [];
      DeliveredFit(ds, rest[2..]);
    }
  }

  lemma EncodesSomething(ds: seq<Dialect>, seqId: u8, p: Packet)
    ensures EncodeBytes(ds, seqId, p).0 != []
  {
  }

  lemma AfterTwoBytes(ds: seq<Dialect>, gap: seq<u8>, q: Packet, s: seq<u8>)
    requires Good(ds, q) && NoStart(gap)
    ensures Delivered(ds, (gap + Wire(q) + s)[2..])
         == if |gap| >= 2 then [q] + Delivered(ds, s) else Delivered(ds, Wire(q)[2 - |gap|..] + s)
  {
    hide Wire, Good, DecodeStream;
    var rest := gap + Wire(q) + s;
    if |gap| >= 2 {
      DecodesGood(ds, gap[2..], q, s);
      assert rest[2..] == gap[2..] + Wire(q) + s;
    } else {
      assert rest[2..] == Wire(q)[2 - |gap|..] + s;
    }
  }

  /** No packet is delivered from fewer bytes than its frame has. */
  lemma {:induction false} DeliveredFit(ds: seq<Dialect>, s: seq<u8>)
    ensures forall p <- Delivered(ds, s) :: |Wire(p)| <= |s|
    decreases |s|
  {
    hide DecodeStream, Wire, Good;
    if s != [] {
      var (r, rest) := DecodeStream(ds, s);
      DecodeShrinks(ds, s);
      DeliveredFit(ds, rest);
      if r.Accepted? {
        AcceptedIsWire(ds, s);
      }
    }
  }

  // ---------- datagrams and the link echo ----------

  /** DecodeBytes accepts p exactly when the datagram begins with the wire form of a good p, whatever lies behind it. */
  lemma DatagramAcceptsExactly(ds: seq<Dialect>, b: seq<u8>, spare: seq<u8>, p: Packet)
    ensures DecodeDatagram(ds, b, spare) == Accepted(p) <==> Good(ds, p) && Wire(p) <= b
  {
    hide Checksum, U16ToBytes, BytesToU16, DecodeDatagram, ParseFrame, Core;
    if DecodeDatagram(ds, b, spare).Accepted? {
      DatagramIsParse(ds, b, spare);
      ParsedIsWire(ds, b[1..]);
      assert b == [START] + b[1..];
    }
    if Good(ds, p) && Wire(p) <= b {
      assert |Wire(p)| <= |b| && b[..|Wire(p)|] == Wire(p);
      var rest := b[|Wire(p)|..];
      assert b[1..] == Core(p) + U16ToBytes(p.checksum) + rest;
      LengthAt(p, b);
      ParseWire(ds, p, rest);
      DatagramIsParse(ds, b, spare);
    }
  }

  lemma LengthAt(p: Packet, b: seq<u8>)
    requires |p.payload| <= 255 && Wire(p) <= b
    ensures b[0] == START && b[1] == |p.payload|
  {
    assert b[1] == Wire(p)[1];
  }

  lemma DatagramIsParse(ds: seq<Dialect>, b: seq<u8>, spare: seq<u8>)
    requires DecodeDatagram(ds, b, spare).Accepted? || (|b| >= 8 && b[0] == START && |b| >= 8 + (b[1] as nat))
    ensures |b| >= 8 && b[0] == START && DecodeDatagram(ds, b, spare) == ParseFrame(ds, b[1..]).0
  {
    hide Checksum, BytesToU16;
    var n: nat := b[1];
    var c := b[1..];
    assert 6 + n <= |b| ==> (b + spare)[6..6 + n] == b[6..6 + n];
    assert c[0] == b[1] && c[1] == b[2] && c[2] == b[3] && c[3] == b[4] && c[4] == b[5];
    assert n + 8 <= |b| ==> c[5 + n] == b[6 + n] && c[6 + n] == b[7 + n];
    assert b[1..6 + n] == b[1..][..5 + n] && b[6..6 + n] == b[1..][5..5 + n];
  }

  /** Echoing an accepted packet repeats its frame byte for byte, and the echo decodes to the same packet. */
  lemma EchoLossless(ds: seq<Dialect>, s: seq<u8>, spare: seq<u8>)
    requires DecodeStream(ds, s).0.Accepted?
    ensures var (r, rest) := DecodeStream(ds, s);
            && s == Noise(s) + Wire(r.packet) + rest
            && DecodeDatagram(ds, Wire(r.packet), spare) == r
  {
    hide DecodeDatagram, Good, Wire;
    AcceptedIsWire(ds, s);
    var p := DecodeStream(ds, s).0.packet;
    DatagramAcceptsExactly(ds, Wire(p), spare, p);
  }

  /** Two adjacent bytes of an accepted frame, length and message id excepted, cannot change unnoticed. */
  lemma AlteredFrameRejected(ds: seq<Dialect>, p: Packet, g: seq<u8>, i: nat, rest: seq<u8>)
    requires Good(ds, p) && |g| == |Wire(p)| && g != Wire(p)
    requires 1 <= i && i + 1 < |g| - 2
    requires forall j :: 0 <= j < |g| && j != i && j != i + 1 ==> g[j] == Wire(p)[j]
    requires g[1] == Wire(p)[1] && g[5] == Wire(p)[5]
    ensures var (r, left) := DecodeStream(ds, g + rest);
            r.Rejected? && r.error == CrcFail && left == rest && Wire(r.packet) == g
  {
    hide Checksum, U16ToBytes, Bits, Good, Core, DecodeStream, Residue;
    var q := Reframed(p, g);
    assert Core(p) == Wire(p)[1..|g| - 2] && Core(q) == g[1..|g| - 2];
    AdjacentBvBytes(Core(p), Core(q), i - 1);
    BurstShows(p, q, 8 * (i - 1));
    FramePassesExactly(ds, p, q, [], rest);
    assert [] + g + rest == g + rest;
  }

  /** The packet whose frame is g, where g keeps the start, length, id and checksum bytes of p's frame. */
  function Reframed(p: Packet, g: seq<u8>): (q: Packet)
    requires |g| == |Wire(p)|
    requires g[0] == START && g[1] == Wire(p)[1] && g[5] == Wire(p)[5]
    requires g[|g| - 2] == Wire(p)[|g| - 2] && g[|g| - 1] == Wire(p)[|g| - 1]
    ensures Wire(q) == g && |q.payload| == |p.payload| && q.msgId == p.msgId && q.checksum == p.checksum
  {
    hide U16ToBytes;
    var n := |p.payload|;
    var q := Packet(g[2], g[3], g[4], g[5], g[6..6 + n], p.checksum);
    assert g[..6] == [START] + Core(q)[..5];
    assert g[6 + n..] == U16ToBytes(p.checksum);
    assert g == g[..6] + g[6..6 + n] + g[6 + n..];
    q
  }

  lemma AdjacentBvBytes(s: seq<u8>, t: seq<u8>, i: nat)
    requires |s| == |t|
    requires forall j :: 0 <= j < |s| && j != i && j != i + 1 ==> s[j] == t[j]
    ensures Burst(Bits(Bv(s)), Bits(Bv(t)), 8 * i, 16)
  {
    hide Bv8, Bits;
    forall j | 0 <= j < |s| && j != i && j != i + 1 ensures Bv(s)[j] == Bv(t)[j] {
      BvAt(s, j);
      BvAt(t, j);
    }
    AdjacentBytesAreBurst(Bv(s), Bv(t), i);
  }
}
