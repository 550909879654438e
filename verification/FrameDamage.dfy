/**
 Frames hit on the way: which damage a MAVLink checksum notices.  The residue of the damage decides, and
 bursts of up to sixteen bits always leave one.
 */
module MavlinkDamage {
  import opened Bytes
  import opened Folds
  import opened ShiftRegister
  import opened ReflectedCrc
  import opened CrcDifferences
  import opened MavlinkFrames
  import opened X25Checksum

  /** q has the length and the message id of p, so a decoder reads the one where it would have read the other. */
  predicate InPlaceOf(p: Packet, q: Packet) {
    |q.payload| == |p.payload| && q.msgId == p.msgId
  }

  function FieldOf(checksum: u16): (c: bv16)
    ensures Word(c) == checksum
  {
    Field(checksum / 256, checksum % 256)
  }

  /** What the damage to the covered bytes leaves in the register, past CRC_EXTRA, against that to the checksum. */
  function Residue(p: Packet, q: Packet): bv16
    requires InPlaceOf(p, q)
  {
    Xor(Remainder(Damage(Core(p), Core(q))), Xor(FieldOf(p.checksum), FieldOf(q.checksum)))
  }

  function Remainder(damage: seq<u8>): bv16 {
    ByteStep(POLY, Update(POLY, 0, Bv(damage)), 0)
  }

  /** A frame that took damage of which a residue is left. */
  predicate Damaged(p: Packet, q: Packet) {
    InPlaceOf(p, q) && Residue(p, q) != 0
  }

  // ---------- the residue decides ----------

  function Raw(core: seq<u8>, crcx: u8): bv16 {
    ByteStep(POLY, X25Checksum.Register(core), Bv8(crcx))
  }

  lemma ChecksumIsField(core: seq<u8>, crcx: u8, checksum: u16)
    ensures checksum == Checksum(core, crcx) <==> Raw(core, crcx) == FieldOf(checksum)
  {
    hide ByteStep, Word, FieldOf, X25Checksum.Register;
    if checksum == Checksum(core, crcx) {
      WordInjective(Raw(core, crcx), FieldOf(checksum));
    }
  }

  lemma RawDifference(s: seq<u8>, t: seq<u8>, a: u8, b: u8)
    requires |s| == |t|
    ensures Xor(Raw(s, a), Raw(t, b)) == ByteStep(POLY, Update(POLY, 0, Bv(Damage(s, t))), Bv8(a) ^ Bv8(b))
  {
    hide ByteStep, Xor, Bv8, Update, Damage;
    ChecksumDifference(POLY, INITIAL, s, t);
    ByteStepIsLinear(POLY, X25Checksum.Register(s), X25Checksum.Register(t), Bv8(a), Bv8(b));
  }

  lemma XorZero(a: bv16, b: bv16)
    ensures Xor(a, b) == 0 <==> a == b
  {
    hide Xor;
    XorTwice(a, b);
    XorTwice(b, b);
  }

  /** The residue if q is taken for a message with CRC_EXTRA b, p having a. */
  function IdResidue(p: Packet, q: Packet, a: u8, b: u8): bv16
    requires |q.payload| == |p.payload|
  {
    Xor(ByteStep(POLY, Update(POLY, 0, Bv(Damage(Core(p), Core(q)))), Bv8(a) ^ Bv8(b)),
        Xor(FieldOf(p.checksum), FieldOf(q.checksum)))
  }

  lemma SameIdResidue(p: Packet, q: Packet, a: u8)
    requires InPlaceOf(p, q)
    ensures IdResidue(p, q, a, a) == Residue(p, q)
  {
    hide ByteStep, Xor, Bv8, Update, Damage, Core, FieldOf;
    SelfCancels(Bv8(a));
  }

  /** With the length of a good packet and known ids, another is good exactly when the damage leaves no residue. */
  lemma GoodExactly(ds: seq<Dialect>, p: Packet, q: Packet)
    requires Good(ds, p) && |q.payload| == |p.payload| && FindCrcX(ds, q.msgId).Some?
    ensures Good(ds, q) <==> IdResidue(p, q, FindCrcX(ds, p.msgId).value, FindCrcX(ds, q.msgId).value) == 0
  {
    hide Checksum, Raw, ByteStep, Xor, FieldOf, Core, Damage, Update;
    var x, y := FindCrcX(ds, p.msgId).value, FindCrcX(ds, q.msgId).value;
    var a, b := Raw(Core(p), x), Raw(Core(q), y);
    ChecksumIsField(Core(p), x, p.checksum);
    ChecksumIsField(Core(q), y, q.checksum);
    RawDifference(Core(p), Core(q), x, y);
    XorBalance(a, b, FieldOf(p.checksum), FieldOf(q.checksum));
    XorZero(Xor(a, b), Xor(FieldOf(p.checksum), FieldOf(q.checksum)));
  }

  lemma GoodInPlace(ds: seq<Dialect>, p: Packet, q: Packet)
    requires Good(ds, p) && InPlaceOf(p, q)
    ensures Good(ds, q) <==> Residue(p, q) == 0
  {
    hide Checksum, IdResidue, Residue;
    GoodExactly(ds, p, q);
    SameIdResidue(p, q, FindCrcX(ds, p.msgId).value);
  }

  /** What Decode makes of a frame of the same length, its id damaged or not. */
  function Verdict(ds: seq<Dialect>, p: Packet, q: Packet): Outcome
    requires Good(ds, p) && |q.payload| == |p.payload|
  {
    match FindCrcX(ds, q.msgId)
    case None => Rejected(q.(checksum := 0), UnknownMsgId)
    case Some(b) =>
      if IdResidue(p, q, FindCrcX(ds, p.msgId).value, b) == 0 then Accepted(q) else Rejected(q, CrcFail)
  }

  /** Damage that keeps the length byte: an unknown id is refused, a known one passes exactly without a residue. */
  lemma LengthKeptPassesExactly(ds: seq<Dialect>, p: Packet, q: Packet, noise: seq<u8>, rest: seq<u8>)
    requires Good(ds, p) && |q.payload| == |p.payload| && NoStart(noise)
    ensures DecodeStream(ds, noise + Wire(q) + rest) == (Verdict(ds, p, q), rest)
  {
    hide Checksum, U16ToBytes, Core, IdResidue;
    if FindCrcX(ds, q.msgId).Some? {
      GoodExactly(ds, p, q);
    }
    assert noise + Wire(q) + rest == noise + (Wire(q) + rest);
    SkipsNoise(ds, noise, Wire(q) + rest);
    assert (Wire(q) + rest)[1..] == Core(q) + U16ToBytes(q.checksum) + rest;
    ParseWire(ds, q, rest);
  }

  /** A frame in place of a good one passes exactly when no residue is left; either way its own bytes are consumed. */
  lemma FramePassesExactly(ds: seq<Dialect>, p: Packet, q: Packet, noise: seq<u8>, rest: seq<u8>)
    requires Good(ds, p) && InPlaceOf(p, q) && NoStart(noise)
    ensures DecodeStream(ds, noise + Wire(q) + rest)
         == (if Residue(p, q) == 0 then Accepted(q) else Rejected(q, CrcFail), rest)
  {
    hide Checksum, Core, Wire, Residue, IdResidue, DecodeStream;
    LengthKeptPassesExactly(ds, p, q, noise, rest);
    SameIdResidue(p, q, FindCrcX(ds, p.msgId).value);
  }

  // ---------- damage that always shows ----------

  lemma {:induction false} DamageOfBurst(s: seq<u8>, t: seq<u8>, k: nat)
    requires s != t && Burst(Bits(Bv(s)), Bits(Bv(t)), k, 16) && |s| == |t|
    ensures Remainder(Damage(s, t)) != 0
  {
    hide ByteStep, Xor, Bits, Damage;
    if Bv(s) == Bv(t) {
      BvInjective(s, t);
    }
    BurstDetected(POLY, 0, Bv(s), Bv(t), k);
    ChecksumDifference(POLY, 0, s, t);
    XorZero(Update(POLY, 0, Bv(s)), Update(POLY, 0, Bv(t)));
    ZeroByte(POLY);
    if Remainder(Damage(s, t)) == 0 {
      assert Bv8(0) as int == 0;
      ByteStepInjective(POLY, Update(POLY, 0, Bv(Damage(s, t))), 0, 0);
    }
  }

  lemma CoreInjective(p: Packet, q: Packet)
    requires Core(p) == Core(q)
    ensures q == p.(checksum := q.checksum)
  {
    assert Core(p)[5..] == p.payload && Core(q)[5..] == q.payload;
    assert Core(p)[1] == p.seqId && Core(p)[2] == p.sysId && Core(p)[3] == p.compId && Core(p)[4] == p.msgId;
  }

  /** A burst of at most sixteen bits in the covered bytes. */
  lemma BurstShows(p: Packet, q: Packet, k: nat)
    requires InPlaceOf(p, q) && q != p && q.checksum == p.checksum
    requires Burst(Bits(Bv(Core(p))), Bits(Bv(Core(q))), k, 16)
    ensures Damaged(p, q)
  {
    hide Core, Bits, Remainder, FieldOf, Damage;
    if Core(p) == Core(q) {
      CoreInjective(p, q);
    }
    DamageOfBurst(Core(p), Core(q), k);
    XorTwice(FieldOf(p.checksum), 0);
    XorTwice(Remainder(Damage(Core(p), Core(q))), 0);
  }

  /** Any change of the checksum alone. */
  lemma ChecksumDamageShows(p: Packet, q: Packet)
    requires q == p.(checksum := q.checksum) && q != p
    ensures Damaged(p, q)
  {
    hide Core, FieldOf, Damage, Remainder, Xor;
    assert Core(p) == Core(q) by { SameCore(p, q); }
    NothingLeft(Core(p));
    XorZero(FieldOf(p.checksum), FieldOf(q.checksum));
    XorTwice(Xor(FieldOf(p.checksum), FieldOf(q.checksum)), 0);
  }

  lemma SameCore(p: Packet, q: Packet)
    requires q == p.(checksum := q.checksum)
    ensures Core(p) == Core(q)
  {
  }

  lemma NothingLeft(s: seq<u8>)
    ensures Remainder(Damage(s, s)) == 0
  {
    hide ByteStep, Damage;
    NoDamage(s);
    LeadingZeros(POLY, Damage(s, s), []);
    assert Damage(s, s) + [] == Damage(s, s) && Bv([]) == [];
    assert Bv8(0) as int == 0;
    ZeroByte(POLY);
  }

  // ---------- across the boundary to the checksum ----------

  lemma LonePair(d: byte, e: byte)
    ensures FourSteps(FourSteps(FourSteps(FourSteps(d as bv16)))) == e as bv16
       <==> (d == 0 && e == 0) || (d == 0x91 && e == 0x85)
  {
  }

  lemma RemainderOfOne(d: u8)
    ensures Remainder([d]) == FourSteps(FourSteps(FourSteps(FourSteps(Bv8(d) as bv16))))
  {
    hide Bv8, FourSteps, ByteStep, Xor;
    var w := Bv8(d) as bv16;
    FirstByte(POLY, 0, [d]);
    EightAsFours(0, Bv8(d), w);
    EightAsFours(ByteStep(POLY, 0, Bv8(d)), 0, 0);
    XorTwice(w, 0);
    XorTwice(ByteStep(POLY, 0, Bv8(d)), 0);
  }

  lemma EightAsFours(c: bv16, b: byte, w: bv16)
    requires w == b as bv16
    ensures ByteStep(POLY, c, b) == FourSteps(FourSteps(Xor(c, w)))
  {
    hide FourSteps, Xor;
    ByteStepOf(POLY, c, b, w);
    IterateAdd(Stepper(POLY), 4, 4, Xor(c, w));
    FourStepsAreSerial(Xor(c, w));
    FourStepsAreSerial(FourSteps(Xor(c, w)));
  }

  /**
   Damage to the last payload byte and the checksum byte beside it passes for exactly one pair of masks,
   whatever the frame.
   */
  lemma AcrossChecksumPassesExactly(ds: seq<Dialect>, p: Packet, q: Packet)
    requires Good(ds, p) && q != p && InPlaceOf(p, q) && p.payload != []
    requires q == p.(payload := p.payload[..|p.payload| - 1] + [q.payload[|p.payload| - 1]], checksum := q.checksum)
    requires q.checksum / 256 == p.checksum / 256
    ensures Good(ds, q) <==> LastMask(p, q) == 0x91 && Differ(p.checksum % 256, q.checksum % 256) == 0x85
  {
    hide Good, Core, Differ, Residue;
    var d, e := LastMask(p, q), Differ(p.checksum % 256, q.checksum % 256);
    GoodInPlace(ds, p, q);
    ResidueOfPair(p, q);
    PairLeavesNothing(d, e, p.checksum / 256);
    if d == 0 && e == 0 {
      NoMask(p.payload[|p.payload| - 1], q.payload[|p.payload| - 1]);
      NoMask(p.checksum % 256, q.checksum % 256);
    }
  }

  function LastMask(p: Packet, q: Packet): u8
    requires InPlaceOf(p, q) && p.payload != []
  {
    Differ(p.payload[|p.payload| - 1], q.payload[|p.payload| - 1])
  }

  lemma ResidueOfPair(p: Packet, q: Packet)
    requires InPlaceOf(p, q) && p.payload != []
    requires q == p.(payload := p.payload[..|p.payload| - 1] + [q.payload[|p.payload| - 1]], checksum := q.checksum)
    requires q.checksum / 256 == p.checksum / 256
    ensures var high := p.checksum / 256;
            Residue(p, q) == Xor(Remainder([LastMask(p, q)]),
                                 Field(Differ(high, high), Differ(p.checksum % 256, q.checksum % 256)))
  {
    hide Core, Damage, Differ, Remainder, Xor, Field;
    DamageOfLast(p, q);
    FieldDiffer(p.checksum / 256, p.checksum % 256, q.checksum / 256, q.checksum % 256);
  }

  lemma PairLeavesNothing(d: u8, e: u8, h: u8)
    ensures Xor(Remainder([d]), Field(Differ(h, h), e)) == 0 <==> (d == 0 && e == 0) || (d == 0x91 && e == 0x85)
  {
    hide Remainder, Xor, Field, Differ, Bv8, FourSteps;
    RemainderOfOne(d);
    LowField(Differ(h, h), e, h);
    XorZero(Remainder([d]), Field(Differ(h, h), e));
    LonePair(Bv8(d), Bv8(e));
    MaskNumbers(d, e);
  }

  lemma MaskNumbers(d: u8, e: u8)
    ensures Bv8(d) == 0x91 <==> d == 0x91
    ensures Bv8(e) == 0x85 <==> e == 0x85
    ensures Bv8(d) == 0 <==> d == 0
    ensures Bv8(e) == 0 <==> e == 0
  {
    hide Bv8;
    if d == 0x91 { SameByte(Bv8(d), 0x91); }
    if e == 0x85 { SameByte(Bv8(e), 0x85); }
    if d == 0 { SameByte(Bv8(d), 0); }
    if e == 0 { SameByte(Bv8(e), 0); }
  }

  lemma NoMask(a: u8, b: u8)
    requires Differ(a, b) == 0
    ensures a == b
  {
    MaskNumbers(0, 0);
    XorByteZero(Bv8(a), Bv8(b));
    Bv8Injective(a, b);
  }

  lemma XorByteZero(a: byte, b: byte)
    requires a ^ b == 0
    ensures a == b
  {
  }

  lemma LowField(zero: u8, e: u8, h: u8)
    requires zero == Differ(h, h)
    ensures Field(zero, e) == Bv8(e) as bv16
  {
    SelfCancels(Bv8(h));
    NoHighByte(Bv8(zero), Bv8(e));
  }

  lemma NoHighByte(h: byte, l: byte)
    requires h == 0
    ensures Join(h, l) == l as bv16
  {
  }

  lemma DamageOfLast(p: Packet, q: Packet)
    requires InPlaceOf(p, q) && p.payload != []
    requires q == p.(payload := p.payload[..|p.payload| - 1] + [q.payload[|p.payload| - 1]], checksum := q.checksum)
    ensures Remainder(Damage(Core(p), Core(q))) == Remainder([LastMask(p, q)])
  {
    hide Damage, Differ, ByteStep;
    var n := |p.payload| - 1;
    var s := Core(p)[..n + 5];
    var x, y := p.payload[n], q.payload[n];
    assert Core(p) == s + [x] && Core(q) == s + [y];
    DamageConcat(s, s, [x], [y]);
    DamageOfOne(x, y);
    NoDamage(s);
    LeadingZeros(POLY, Damage(s, s), [Differ(x, y)]);
  }

  lemma DamageOfOne(x: u8, y: u8)
    ensures Damage([x], [y]) == [Differ(x, y)]
  {
    assert [x][1..] == [] && [y][1..] == [];
  }
}
