/**
 MAVLink 1 frames as values: what EncodePacket puts on the wire and what Decode makes of a stream
 (src/mavlink/parser/message.go), and the theorems that tie the two together.
 */
module MavlinkFrames {
  import opened Bytes
  import opened ReflectedCrc
  import X25Checksum

  const START: u8 := 0xFE

  datatype Error = EOF | UnexpectedEOF | UnknownMsgId | CrcFail | InvalidHeader | OutOfRange

  datatype Packet = Packet(seqId: u8, sysId: u8, compId: u8, msgId: u8, payload: seq<u8>, checksum: u16)

  /** What a decoder returns: a packet, a packet with an error, or an error alone. */
  datatype Outcome = Accepted(packet: Packet) | Rejected(packet: Packet, error: Error) | NoPacket(error: Error)

  // ---------- dialects ----------

  datatype Dialect = Dialect(name: string, crcExtras: map<u8, u8>)

  /** The first dialect that knows the id decides. */
  function FindCrcX(ds: seq<Dialect>, id: u8): Option<u8> {
    if ds == [] then None
    else if id in ds[0].crcExtras then Some(ds[0].crcExtras[id])
    else FindCrcX(ds[1..], id)
  }

  /** A lookup succeeds exactly when some dialect knows the id, and the first such dialect answers. */
  lemma {:induction false} FirstDialectAnswers(ds: seq<Dialect>, id: u8, crcx: u8)
    ensures FindCrcX(ds, id) == Some(crcx)
       <==> exists i :: 0 <= i < |ds| && id in ds[i].crcExtras && ds[i].crcExtras[id] == crcx
                        && forall j :: 0 <= j < i ==> id !in ds[j].crcExtras
  {
    if ds != [] && id !in ds[0].crcExtras {
      FirstDialectAnswers(ds[1..], id, crcx);
      var rest := ds[1..];
      if FindCrcX(rest, id) == Some(crcx) {
        var i :| 0 <= i < |rest| && id in rest[i].crcExtras && rest[i].crcExtras[id] == crcx
                 && forall j :: 0 <= j < i ==> id !in rest[j].crcExtras;
        assert ds[i + 1] == rest[i];
        assert forall j :: 0 < j < i + 1 ==> ds[j] == rest[j - 1];
      }
      if i :| 0 <= i < |ds| && id in ds[i].crcExtras && ds[i].crcExtras[id] == crcx
              && forall j :: 0 <= j < i ==> id !in ds[j].crcExtras {
        assert rest[i - 1] == ds[i];
        assert forall j :: 0 <= j < i - 1 ==> rest[j] == ds[j + 1];
      }
    }
  }

  method LookUpCrcX(ds: seq<Dialect>, id: u8) returns (r: Option<u8>)
    ensures r == FindCrcX(ds, id)
  {
    assert ds[0..] == ds;
    for i := 0 to |ds|
      invariant FindCrcX(ds, id) == FindCrcX(ds[i..], id)
    {
      if id in ds[i].crcExtras {
        return Some(ds[i].crcExtras[id]);
      }
      assert ds[i..][1..] == ds[i + 1..];
    }
    r := None;
  }

  // ---------- the wire form ----------

  /** Everything the checksum covers: length, sequence, system, component, message id and payload. */
  function Core(p: Packet): (s: seq<u8>)
    ensures |s| == |p.payload| + 5
  {
    [LengthByte(|p.payload|), p.seqId, p.sysId, p.compId, p.msgId] + p.payload
  }

  function Wire(p: Packet): (s: seq<u8>)
    ensures |s| == |p.payload| + 8
  {
    [START] + Core(p) + U16ToBytes(p.checksum)
  }

  function Checksum(core: seq<u8>, crcx: u8): u16 {
    Word(ByteStep(X25Checksum.POLY, X25Checksum.Register(core), Bv8(crcx)))
  }

  /** A packet that fits a frame, has a known id and carries the right checksum. */
  predicate Good(ds: seq<Dialect>, p: Packet) {
    && |p.payload| <= 255
    && FindCrcX(ds, p.msgId).Some?
    && p.checksum == Checksum(Core(p), FindCrcX(ds, p.msgId).value)
  }

  /** The frame byte by byte. */
  lemma WireByPlace(p: Packet)
    ensures var w, n := Wire(p), |p.payload|;
            && |w| == n + 8
            && w[0] == 0xFE && w[1] == n % 256 && w[2] == p.seqId && w[3] == p.sysId && w[4] == p.compId
            && w[5] == p.msgId
            && (forall k :: 0 <= k < n ==> w[6 + k] == p.payload[k])
            && w[n + 6] == p.checksum % 256 && w[n + 7] == p.checksum / 256
  {
    var w, n := Wire(p), |p.payload|;
    assert w == [START] + Core(p) + U16ToBytes(p.checksum);
    assert w[6..6 + n] == p.payload;
  }

  /**
   What makes a packet good: its payload fits, its id is known, and its checksum is the X.25 sum of the frame
   between start byte and checksum, followed by the message's extra byte.
   */
  lemma SealedExactly(ds: seq<Dialect>, p: Packet)
    ensures Good(ds, p)
       <==> |p.payload| <= 255
            && exists crcx: u8 :: FindCrcX(ds, p.msgId) == Some(crcx)
                 && p.checksum == Word(X25Checksum.Register(Wire(p)[1..|p.payload| + 6] + [crcx]))
  {
    hide Bv8, Bv, ByteStep, U16ToBytes, Core;
    assert Wire(p)[1..|p.payload| + 6] == Core(p);
    if FindCrcX(ds, p.msgId).Some? {
      SumWithExtra(Core(p), FindCrcX(ds, p.msgId).value);
    }
  }

  lemma SumWithExtra(core: seq<u8>, crcx: u8)
    ensures Word(X25Checksum.Register(core + [crcx])) == Checksum(core, crcx)
  {
    hide Bv8, ByteStep;
    var more := core + [crcx];
    UpdateGrows(X25Checksum.POLY, X25Checksum.INITIAL, more, |core|);
    assert more[..|core|] == core && more[..|core| + 1] == more;
  }

  // ---------- encoding ----------

  /** p as it leaves an encoder: the encoder's own sequence number and a fresh checksum. */
  function Stamp(p: Packet, seqId: u8, crcx: u8): Packet {
    var q := p.(seqId := seqId);
    q.(checksum := Checksum(Core(q), crcx))
  }

  /** The bytes written and whether the call fails.  The header and payload go out before the lookup. */
  function EncodeBytes(ds: seq<Dialect>, seqId: u8, p: Packet): (seq<u8>, Option<Error>) {
    match FindCrcX(ds, p.msgId)
    case None => ([START] + Core(p.(seqId := seqId)), Some(UnknownMsgId))
    case Some(crcx) => (Wire(Stamp(p, seqId, crcx)), None)
  }

  // ---------- decoding ----------

  /** What Decode makes of the bytes after a start byte, and what it leaves unread. */
  function ParseFrame(ds: seq<Dialect>, b: seq<u8>): (Outcome, seq<u8>) {
    if |b| < 5 then
      (NoPacket(if b == [] then EOF else UnexpectedEOF), [])
    else
      var n: nat := b[0];
      var p := Packet(b[1], b[2], b[3], b[4], [], 0);
      if |b| < n + 7 then
        (Rejected(p, if |b| == 5 then EOF else UnexpectedEOF), [])
      else
        var q := p.(payload := b[5..5 + n]);
        (Judge(ds, q, b[..5 + n], BytesToU16(b[5 + n], b[6 + n])), b[7 + n..])
  }

  function Judge(ds: seq<Dialect>, p: Packet, core: seq<u8>, sent: u16): Outcome {
    match FindCrcX(ds, p.msgId)
    case None => Rejected(p, UnknownMsgId)
    case Some(crcx) =>
      var q := p.(checksum := sent);
      if sent == Checksum(core, crcx) then Accepted(q) else Rejected(q, CrcFail)
  }

  /** One call of Decode: bytes before the first start byte are dropped. */
  function DecodeStream(ds: seq<Dialect>, s: seq<u8>): (Outcome, seq<u8>) {
    if s == [] then (NoPacket(EOF), [])
    else if s[0] != START then DecodeStream(ds, s[1..])
    else ParseFrame(ds, s[1..])
  }

  /**
   One call of DecodeBytes on a datagram.  `spare` is what lies behind it in the buffer it was cut from: a
   slice expression may reach into it, an index may not.
   */
  function DecodeDatagram(ds: seq<Dialect>, b: seq<u8>, spare: seq<u8>): Outcome {
    if |b| < 6 || b[0] != START then NoPacket(InvalidHeader)
    else
      var n: nat := b[1];
      var p := Packet(b[2], b[3], b[4], b[5], [], 0);
      if |b + spare| < 6 + n then NoPacket(OutOfRange)
      else
        var q := p.(payload := (b + spare)[6..6 + n]);
        if FindCrcX(ds, q.msgId).None? then Rejected(q, UnknownMsgId)
        else if |b| < 8 + n then NoPacket(OutOfRange)
        else Judge(ds, q, b[1..6 + n], BytesToU16(b[6 + n], b[7 + n]))
  }

  lemma U16RoundTrip(v: u16)
    ensures BytesToU16(U16ToBytes(v)[0], U16ToBytes(v)[1]) == v
  {
  }

  lemma BytesRoundTrip(lo: u8, hi: u8)
    ensures U16ToBytes(BytesToU16(lo, hi)) == [lo, hi]
  {
  }

  lemma Pieces(h: seq<u8>, m: seq<u8>, c: seq<u8>, rest: seq<u8>, b: seq<u8>)
    requires b == h + m + c + rest
    ensures b[..|h|] == h && b[..|h| + |m|] == h + m && b[|h|..|h| + |m|] == m
    ensures b[|h| + |m|..][..|c|] == c && b[|h| + |m| + |c|..] == rest
  {
  }

  lemma Cuts(b: seq<u8>, i: nat, j: nat)
    requires i <= j && j + 2 <= |b|
    ensures b == b[..i] + b[i..j] + [b[j], b[j + 1]] + b[j + 2..]
    ensures b[..j] == b[..i] + b[i..j]
  {
  }

  /** Parsing the bytes of a packet that fits gives that packet back, judged on its checksum alone. */
  lemma ParseWire(ds: seq<Dialect>, p: Packet, rest: seq<u8>)
    requires |p.payload| <= 255
    ensures ParseFrame(ds, Core(p) + U16ToBytes(p.checksum) + rest)
         == (Judge(ds, p.(checksum := 0), Core(p), p.checksum), rest)
  {
    hide Judge, U16ToBytes, BytesToU16;
    var b := Core(p) + U16ToBytes(p.checksum) + rest;
    var h := [LengthByte(|p.payload|), p.seqId, p.sysId, p.compId, p.msgId];
    Pieces(h, p.payload, U16ToBytes(p.checksum), rest, b);
    assert b[0] == |p.payload|;
    U16RoundTrip(p.checksum);
  }

  /** Conversely, whatever is accepted was the wire form of a good packet, byte for byte. */
  lemma ParsedIsWire(ds: seq<Dialect>, b: seq<u8>)
    requires ParseFrame(ds, b).0.Accepted?
    ensures var (r, rest) := ParseFrame(ds, b);
            Good(ds, r.packet) && b == Core(r.packet) + U16ToBytes(r.packet.checksum) + rest
  {
    hide Checksum, U16ToBytes, BytesToU16;
    var n: nat := b[0];
    var p := ParseFrame(ds, b).0.packet;
    Cuts(b, 5, 5 + n);
    assert b[..5] == [LengthByte(n), p.seqId, p.sysId, p.compId, p.msgId];
    BytesRoundTrip(b[5 + n], b[6 + n]);
  }

  // ---------- the language Decode accepts ----------

  predicate NoStart(s: seq<u8>) {
    START !in s
  }

  lemma {:induction false} SkipsNoise(ds: seq<Dialect>, noise: seq<u8>, s: seq<u8>)
    requires NoStart(noise)
    ensures DecodeStream(ds, noise + s) == DecodeStream(ds, s)
  {
    if noise == [] {
      assert noise + s == s;
    } else {
      assert (noise + s)[1..] == noise[1..] + s;
      SkipsNoise(ds, noise[1..], s);
    }
  }

  lemma DecodesGood(ds: seq<Dialect>, noise: seq<u8>, p: Packet, rest: seq<u8>)
    requires NoStart(noise) && Good(ds, p)
    ensures DecodeStream(ds, noise + Wire(p) + rest) == (Accepted(p), rest)
  {
    hide ParseFrame, Core;
    assert noise + Wire(p) + rest == noise + (Wire(p) + rest);
    SkipsNoise(ds, noise, Wire(p) + rest);
    assert (Wire(p) + rest)[1..] == Core(p) + U16ToBytes(p.checksum) + rest;
    ParseWire(ds, p, rest);
  }

  /** The noise in front of the frame a successful Decode consumed. */
  function Noise(s: seq<u8>): (n: seq<u8>)
    ensures NoStart(n) && n <= s
  {
    if s == [] || s[0] == START then [] else [s[0]] + Noise(s[1..])
  }

  lemma {:induction false} AcceptedIsWire(ds: seq<Dialect>, s: seq<u8>)
    requires DecodeStream(ds, s).0.Accepted?
    ensures var (r, rest) := DecodeStream(ds, s);
            Good(ds, r.packet) && s == Noise(s) + Wire(r.packet) + rest
  {
    hide ParseFrame, Good, Wire;
    var (r, rest) := DecodeStream(ds, s);
    if s[0] != START {
      AcceptedIsWire(ds, s[1..]);
      assert s == [s[0]] + (Noise(s[1..]) + Wire(r.packet) + rest);
    } else {
      FramedIsWire(ds, s);
      assert s == [] + Wire(r.packet) + rest;
    }
  }

  lemma FramedIsWire(ds: seq<Dialect>, s: seq<u8>)
    requires s != [] && s[0] == START && ParseFrame(ds, s[1..]).0.Accepted?
    ensures var (r, rest) := ParseFrame(ds, s[1..]);
            Good(ds, r.packet) && s == Wire(r.packet) + rest
  {
    hide ParseFrame, Good, Core, U16ToBytes;
    ParsedIsWire(ds, s[1..]);
    assert s == [START] + s[1..];
  }

  /** Decode accepts p and leaves rest exactly when the stream is noise, the wire form of a good p, rest. */
  lemma DecodeAcceptsExactly(ds: seq<Dialect>, s: seq<u8>, p: Packet, rest: seq<u8>)
    ensures DecodeStream(ds, s) == (Accepted(p), rest)
       <==> Good(ds, p) && s == Noise(s) + Wire(p) + rest
  {
    if DecodeStream(ds, s) == (Accepted(p), rest) {
      AcceptedIsWire(ds, s);
    }
    if Good(ds, p) && s == Noise(s) + Wire(p) + rest {
      DecodesGood(ds, Noise(s), p, rest);
    }
  }

  // ---------- everything Decode can return ----------

  /** The bytes begin with a whole frame, good or not. */
  predicate Whole(b: seq<u8>) {
    |b| >= 8 && b[0] == 0xFE && |b| >= 8 + b[1] as nat
  }

  function FrameOf(b: seq<u8>): (p: Packet)
    requires Whole(b)
    ensures |p.payload| == b[1] && Wire(p) == b[..8 + b[1] as nat]
  {
    hide U16ToBytes, BytesToU16;
    var n: nat := b[1];
    var p := Packet(b[2], b[3], b[4], b[5], b[6..6 + n], BytesToU16(b[6 + n], b[7 + n]));
    BytesRoundTrip(b[6 + n], b[7 + n]);
    assert [START] + Core(p)[..5] == b[..6];
    assert Wire(p) == [START] + Core(p)[..5] + p.payload + U16ToBytes(p.checksum);
    p
  }

  /**
   Every outcome of Decode.  Let b be the stream from its first start byte on.  If b begins with a whole
   frame, that frame is consumed and judged on its message id and then its checksum.  Otherwise the stream
   is used up: up to a start byte or behind a complete header it counts as its end, anywhere else as its
   unexpected end, and the header if complete comes with the error.
   */
  lemma DecodeOutcomes(ds: seq<Dialect>, s: seq<u8>)
    ensures var b := s[|Noise(s)|..];
            if Whole(b) then
              var p, rest := FrameOf(b), b[8 + b[1] as nat..];
              DecodeStream(ds, s) ==
                (if FindCrcX(ds, p.msgId).None? then Rejected(p.(checksum := 0), UnknownMsgId)
                 else if Good(ds, p) then Accepted(p)
                 else Rejected(p, CrcFail), rest)
            else if |b| < 6 then
              DecodeStream(ds, s) == (NoPacket(if |b| <= 1 then EOF else UnexpectedEOF), [])
            else
              DecodeStream(ds, s)
              == (Rejected(Packet(b[2], b[3], b[4], b[5], [], 0), if |b| == 6 then EOF else UnexpectedEOF), [])
  {
    hide Judge, Core, Wire, FindCrcX, U16ToBytes, BytesToU16;
    var b := s[|Noise(s)|..];
    FirstStart(s);
    SkipsNoise(ds, Noise(s), b);
    if Whole(b) {
      var p, rest := FrameOf(b), b[8 + b[1] as nat..];
      WholeIsJudged(ds, b);
      JudgedExactly(ds, p);
    } else if b != [] {
      var c := b[1..];
      assert |c| >= 1 ==> c[0] == b[1];
      assert |c| >= 5 ==> c[1] == b[2] && c[2] == b[3] && c[3] == b[4] && c[4] == b[5];
    }
  }

  lemma {:induction false} FirstStart(s: seq<u8>)
    ensures s == Noise(s) + s[|Noise(s)|..]
    ensures |Noise(s)| < |s| ==> s[|Noise(s)|] == 0xFE
  {
    if s != [] && s[0] != START {
      FirstStart(s[1..]);
    }
  }

  lemma WholeIsJudged(ds: seq<Dialect>, b: seq<u8>)
    requires Whole(b)
    ensures var p := FrameOf(b);
            ParseFrame(ds, b[1..]) == (Judge(ds, p.(checksum := 0), Core(p), p.checksum), b[8 + b[1] as nat..])
  {
    hide Judge, ParseFrame, U16ToBytes;
    var p, rest := FrameOf(b), b[8 + b[1] as nat..];
    ParseWire(ds, p, rest);
    assert b == Wire(p) + rest;
    assert b[1..] == Core(p) + U16ToBytes(p.checksum) + rest;
  }

  lemma JudgedExactly(ds: seq<Dialect>, p: Packet)
    requires |p.payload| <= 255
    ensures Judge(ds, p.(checksum := 0), Core(p), p.checksum)
         == if FindCrcX(ds, p.msgId).None? then Rejected(p.(checksum := 0), UnknownMsgId)
            else if Good(ds, p) then Accepted(p)
            else Rejected(p, CrcFail)
  {
    hide Checksum, Core;
  }

  /**
   Every outcome of DecodeBytes: a short or unmarked datagram is no frame; one whose payload reaches past the
   buffer, or whose checksum past the datagram, is a slice fault, unless its id is unknown; else the
   frame is judged on its checksum.
   */
  lemma DatagramOutcomes(ds: seq<Dialect>, b: seq<u8>, spare: seq<u8>)
    ensures var r := DecodeDatagram(ds, b, spare);
            && (r == NoPacket(InvalidHeader) <==> |b| < 6 || b[0] != 0xFE)
            && (|b| >= 6 && b[0] == 0xFE ==>
                  && (r == NoPacket(OutOfRange)
                      <==> |b| + |spare| < 6 + b[1] as nat || (|b| < 8 + b[1] as nat && FindCrcX(ds, b[5]).Some?))
                  && (|b| + |spare| >= 6 + b[1] as nat && FindCrcX(ds, b[5]).None? ==>
                        r == Rejected(Packet(b[2], b[3], b[4], b[5], (b + spare)[6..6 + b[1] as nat], 0),
                                      UnknownMsgId)))
            && (Whole(b) && FindCrcX(ds, b[5]).Some? ==>
                  r == if Good(ds, FrameOf(b)) then Accepted(FrameOf(b)) else Rejected(FrameOf(b), CrcFail))
  {
    hide Checksum, FindCrcX, FrameOf, U16ToBytes;
    if Whole(b) {
      FrameByPlace(b);
      var n: nat := b[1];
      assert (b + spare)[6..6 + n] == b[6..6 + n];
    }
  }

  lemma FrameByPlace(b: seq<u8>)
    requires Whole(b)
    ensures var n: nat := b[1];
            var p := FrameOf(b);
            && p == Packet(b[2], b[3], b[4], b[5], b[6..6 + n], BytesToU16(b[6 + n], b[7 + n]))
            && Core(p) == b[1..6 + n]
  {
    hide U16ToBytes, BytesToU16;
    var n: nat := b[1];
    assert Wire(FrameOf(b))[1..6 + n] == Core(FrameOf(b));
  }
}
