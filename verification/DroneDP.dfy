/**
 The DroneDP framing of src/cloudlink/dronedp/dronedp.go: session, op, length, payload and a checksum
 over all of it, big end first.  What the JSON library makes of status and text data is a parameter.
 */
module DroneDP {
  import opened Bytes
  import opened ShiftRegister
  import opened ReflectedCrc
  import opened CrcDifferences
  import Crc16Checksum

  type u32 = x: int | 0 <= x < 0x1_0000_0000

  const STATUS: u8 := 0x10
  const CODE: u8 := 0x11
  const TERMINAL: u8 := 0x12
  const MAVLINK_TEXT: u8 := 0xFD
  const MAVLINK_BIN: u8 := 0xFE

  predicate Writable(op: u8) {
    op == STATUS || op == CODE || op == TERMINAL || op == MAVLINK_TEXT || op == MAVLINK_BIN
  }

  /** ParseMsg has no case for terminal messages. */
  predicate Readable(op: u8) {
    op == STATUS || op == CODE || op == MAVLINK_TEXT || op == MAVLINK_BIN
  }

  datatype Msg = Msg(op: u8, session: u32, data: seq<u8>)

  /** The two ops whose data is JSON for a typed value. */
  predicate Typed(op: u8) {
    op == STATUS || op == MAVLINK_TEXT
  }

  /** Whether the JSON library decodes the data into the op's value. */
  type Json = (u8, seq<u8>) -> bool

  datatype Outcome = Parsed(msg: Msg) | BadJson(msg: Msg) | CrcError | ReadError | UnknownOp | SliceFault

  // ---------- big-endian numbers ----------

  function PutU16(v: u16): (s: seq<u8>)
    ensures |s| == 2
  {
    [v / 256, v % 256]
  }

  function GetU16(s: seq<u8>): u16
    requires |s| == 2
  {
    var high: int, low: int := s[0], s[1];
    high * 256 + low
  }

  function PutU32(v: u32): (s: seq<u8>)
    ensures |s| == 4
  {
    PutU16(v / 0x1_0000) + PutU16(v % 0x1_0000)
  }

  function GetU32(s: seq<u8>): u32
    requires |s| == 4
  {
    var high: int, low: int := GetU16(s[..2]), GetU16(s[2..]);
    high * 0x1_0000 + low
  }

  lemma U16RoundTrip(v: u16, s: seq<u8>)
    ensures GetU16(PutU16(v)) == v
    ensures |s| == 2 ==> PutU16(GetU16(s)) == s
  {
  }

  lemma U32RoundTrip(v: u32, s: seq<u8>)
    ensures GetU32(PutU32(v)) == v
    ensures |s| == 4 ==> PutU32(GetU32(s)) == s
  {
    hide PutU16, GetU16;
    var w := PutU32(v);
    assert w[..2] == PutU16(v / 0x1_0000) && w[2..] == PutU16(v % 0x1_0000);
    U16RoundTrip(v / 0x1_0000, if |s| == 4 then s[..2] else []);
    U16RoundTrip(v % 0x1_0000, if |s| == 4 then s[2..] else []);
    if |s| == 4 {
      assert s == s[..2] + s[2..];
    }
  }

  // ---------- frames ----------

  function Head(m: Msg): (s: seq<u8>)
    ensures |s| == 7
  {
    PutU32(m.session) + [m.op] + PutU16(|m.data| % 0x1_0000)
  }

  function Body(m: Msg): (s: seq<u8>)
    ensures |s| == 7 + |m.data|
  {
    Head(m) + m.data
  }

  function Sealed(body: seq<u8>): (s: seq<u8>)
    ensures |s| == |body| + 2
  {
    body + PutU16(Crc16Checksum.Sum(body))
  }

  function Generated(m: Msg): Option<seq<u8>> {
    if Writable(m.op) then Some(Sealed(Body(m))) else None
  }

  /** The last two bytes are the checksum of the others. */
  predicate Intact(data: seq<u8>) {
    |data| >= 2 && GetU16(data[|data| - 2..]) == Crc16Checksum.Sum(data[..|data| - 2])
  }

  /** A zero-length read at the very end of the input is an error too, hence eight bytes at least. */
  function ParsedFrom(data: seq<u8>, json: Json): Outcome {
    if |data| < 2 then SliceFault
    else if !Intact(data) then CrcError
    else if |data| < 8 then ReadError
    else
      var length := GetU16(data[5..7]);
      if 7 + length > |data| then ReadError
      else if !Readable(data[4]) then UnknownOp
      else Typecheck(Msg(data[4], GetU32(data[..4]), data[7..7 + length]), json)
  }

  function Typecheck(m: Msg, json: Json): Outcome {
    if Typed(m.op) && !json(m.op, m.data) then BadJson(m) else Parsed(m)
  }

  /** The four bytes of a number, most significant first. */
  lemma U32ByPlace(v: u32)
    ensures PutU32(v) == [v / 0x100_0000, v / 0x1_0000 % 0x100, v / 0x100 % 0x100, v % 0x100]
  {
    HighHalf(v, v / 0x1_0000);
    LowHalf(v, v % 0x1_0000, v / 0x1_0000);
  }

  lemma HighHalf(v: u32, h: u16)
    requires h == v / 0x1_0000
    ensures h / 0x100 == v / 0x100_0000
  {
  }

  lemma LowHalf(v: nat, l: u16, h: nat)
    requires v == 0x1_0000 * h + l
    ensures l / 0x100 == v / 0x100 % 0x100
    ensures l % 0x100 == v % 0x100
  {
    assert v / 0x100 == 0x100 * h + l / 0x100;
  }

  lemma U32FromBytes(s: seq<u8>)
    requires |s| == 4
    ensures var a: int, b: int, c: int, d: int := s[0], s[1], s[2], s[3];
            GetU32(s) == ((a * 0x100 + b) * 0x100 + c) * 0x100 + d
  {
  }

  /**
   A generated message byte by byte: five ops can be sent; session, op and the low sixteen bits of the
   length head the data, and the checksum of all that ends it, every number with its high byte first.
   */
  lemma GeneratedByPlace(m: Msg)
    ensures Generated(m).Some? <==> m.op in {0x10, 0x11, 0x12, 0xFD, 0xFE}
    ensures Generated(m).Some? ==>
      var g, n := Generated(m).value, |m.data|;
      && |g| == n + 9
      && g[0] == m.session / 0x100_0000 && g[1] == m.session / 0x1_0000 % 0x100
      && g[2] == m.session / 0x100 % 0x100 && g[3] == m.session % 0x100
      && g[4] == m.op && g[5] == n / 0x100 % 0x100 && g[6] == n % 0x100
      && (forall k :: 0 <= k < n ==> g[7 + k] == m.data[k])
      && var sum: int := Crc16Checksum.Sum(g[..n + 7]);
         g[n + 7] == sum / 0x100 && g[n + 8] == sum % 0x100
  {
    hide PutU32, Crc16Checksum.Sum;
    if Generated(m).Some? {
      var g, n, head := Generated(m).value, |m.data|, PutU32(m.session);
      U32ByPlace(m.session);
      LengthByPlace(n);
      assert g[..4] == head && g[4] == m.op && g[5..7] == PutU16(n % 0x1_0000);
      assert g[7..7 + n] == m.data && g[..n + 7] == Body(m);
    }
  }

  lemma LengthByPlace(n: nat)
    ensures PutU16(n % 0x1_0000) == [n / 0x100 % 0x100, n % 0x100]
  {
    LowHalf(n, n % 0x1_0000, n / 0x1_0000);
  }

  /**
   Every outcome of ParseMsg.  Under two bytes it faults; then the checksum in the last two is compared; then
   the length field must leave the data inside the input, checksum included, and not start at its end; then
   the op must be one of the four with a case; and for two of them the JSON library decides.
   */
  lemma ParseOutcomes(data: seq<u8>, json: Json)
    ensures var r, n := ParsedFrom(data, json), |data|;
            if n < 2 then r == SliceFault
            else if data[n - 2] as int * 0x100 + data[n - 1] as int != Crc16Checksum.Sum(data[..n - 2]) then
              r == CrcError
            else if n < 8 then r == ReadError
            else
              var length := data[5] as int * 0x100 + data[6] as int;
              if 7 + length > n then r == ReadError
              else if data[4] !in {0x10, 0x11, 0xFD, 0xFE} then r == UnknownOp
              else
                var a: int, b: int, c: int, d: int := data[0], data[1], data[2], data[3];
                var m := Msg(data[4], ((a * 0x100 + b) * 0x100 + c) * 0x100 + d, data[7..7 + length]);
                r == if data[4] in {0x10, 0xFD} && !json(data[4], data[7..7 + length]) then BadJson(m) else Parsed(m)
  {
    hide GetU32, Crc16Checksum.Sum;
    var n := |data|;
    if n >= 2 {
      assert data[n - 2..][0] == data[n - 2] && data[n - 2..][1] == data[n - 1];
    }
    if n >= 8 {
      assert data[5..7][0] == data[5] && data[5..7][1] == data[6];
      U32FromBytes(data[..4]);
    }
  }

  /** ParseMsg accepts m exactly when the input is intact and begins with the body of a readable m. */
  lemma ParseAcceptsExactly(data: seq<u8>, m: Msg, json: Json)
    ensures ParsedFrom(data, json) == Parsed(m)
       <==> && |data| >= 8 && Intact(data) && Readable(m.op) && |m.data| < 0x1_0000 && Body(m) <= data
            && (Typed(m.op) ==> json(m.op, m.data))
  {
    hide Intact, Readable, Typed, PutU16, GetU16, PutU32, GetU32;
    if |data| >= 8 {
      Divides(data);
      var length := GetU16(data[5..7]);
      U16RoundTrip(length, data[5..7]);
      U32RoundTrip(m.session, data[..4]);
      U16RoundTrip(|m.data| % 0x1_0000, data[5..7]);
      if ParsedFrom(data, json) == Parsed(m) {
        assert Body(m) == data[..7 + length];
      }
      if Body(m) <= data && |m.data| < 0x1_0000 {
        BodyParts(m, data);
      }
    }
  }

  lemma Divides(data: seq<u8>)
    requires |data| >= 8
    ensures forall n: nat :: 7 <= n <= |data| ==> data[..n] == data[..4] + [data[4]] + data[5..7] + data[7..n]
  {
  }

  lemma BodyParts(m: Msg, data: seq<u8>)
    requires Body(m) <= data
    ensures data[..4] == PutU32(m.session) && data[4] == m.op && data[5..7] == PutU16(|m.data| % 0x1_0000)
    ensures data[7..7 + |m.data|] == m.data
  {
    hide PutU16, PutU32;
    var b := Body(m);
    assert data[..|b|] == b;
    assert data[..4] == b[..4] && data[5..7] == b[5..7] && data[7..7 + |m.data|] == b[7..];
    assert data[4] == b[4];
  }

  /** What was sealed is intact. */
  lemma SealedIsIntact(body: seq<u8>)
    ensures Intact(Sealed(body))
  {
    hide Crc16Checksum.Sum;
    var c := Crc16Checksum.Sum(body);
    U16RoundTrip(c, []);
    assert Sealed(body)[..|body|] == body && Sealed(body)[|body|..] == PutU16(c);
  }

  /** What comes back of a message: its data cut to its length modulo 65536, and no terminal message at all. */
  lemma ParseOfGenerated(m: Msg, json: Json)
    requires Writable(m.op)
    ensures ParsedFrom(Generated(m).value, json) ==
            if Readable(m.op) then Typecheck(m.(data := m.data[..|m.data| % 0x1_0000]), json) else UnknownOp
  {
    hide Intact, Readable, Typecheck, PutU16, GetU16, PutU32, GetU32, Crc16Checksum.Sum;
    var data := Generated(m).value;
    SealedIsIntact(Body(m));
    assert Body(m) <= data;
    BodyParts(m, data);
    U16RoundTrip(|m.data| % 0x1_0000, []);
    U32RoundTrip(m.session, []);
    var n := |m.data| % 0x1_0000;
    assert data[7..7 + n] == data[7..7 + |m.data|][..n];
  }

  /**
   A message survives the trip exactly when it is no terminal message, its data fits the length field, and
   the JSON library takes back typed data.
   */
  lemma RoundTripsExactly(m: Msg, json: Json)
    requires m.op in {0x10, 0x11, 0x12, 0xFD, 0xFE}
    ensures ParsedFrom(Generated(m).value, json) == Parsed(m)
       <==> m.op != 0x12 && |m.data| < 0x1_0000 && (m.op in {0x10, 0xFD} ==> json(m.op, m.data))
  {
    hide Generated, ParsedFrom;
    ParseOfGenerated(m, json);
    if |m.data| < 0x1_0000 {
      assert m.data[..|m.data| % 0x1_0000] == m.data;
    }
  }

  // ---------- damage ----------

  /** A burst of at most sixteen bits in what the checksum covers, the length field included, is caught. */
  lemma BurstInBodyRejected(body: seq<u8>, hit: seq<u8>, k: nat, json: Json)
    requires body != hit && Burst(Bits(Bv(body)), Bits(Bv(hit)), k, 16)
    ensures ParsedFrom(hit + PutU16(Crc16Checksum.Sum(body)), json) == CrcError
  {
    hide PutU16, GetU16, Bits;
    var c := Crc16Checksum.Sum(body);
    U16RoundTrip(c, []);
    var data := hit + PutU16(c);
    assert data[..|data| - 2] == hit && data[|data| - 2..] == PutU16(c);
    SumsDiffer(body, hit, k);
  }

  lemma SumsDiffer(s: seq<u8>, t: seq<u8>, k: nat)
    requires s != t && Burst(Bits(Bv(s)), Bits(Bv(t)), k, 16)
    ensures Crc16Checksum.Sum(s) != Crc16Checksum.Sum(t)
  {
    if Bv(s) == Bv(t) {
      BvInjective(s, t);
    }
    BurstDetected(Crc16Checksum.POLY, 0, Bv(s), Bv(t), k);
    if Crc16Checksum.Sum(s) == Crc16Checksum.Sum(t) {
      WordInjective(Crc16Checksum.Register(s), Crc16Checksum.Register(t));
    }
  }

  /** The checksum comparison on registers. */
  lemma IntactIsField(body: seq<u8>, h: u8, l: u8)
    ensures Intact(body + [h, l]) <==> Crc16Checksum.Register(body) == Field(h, l)
  {
    hide Crc16Checksum.Register, Field, Word;
    var data := body + [h, l];
    assert data[..|data| - 2] == body && data[|data| - 2..] == [h, l];
    WordIsField(Crc16Checksum.Register(body), h, l);
  }

  /** Damaged input of the same length passes exactly when the damage, taken as an input, is itself intact. */
  lemma DamagePassesExactly(data: seq<u8>, hit: seq<u8>)
    requires Intact(data) && |hit| == |data|
    ensures Intact(hit) <==> Intact(Damage(data, hit))
  {
    hide Intact, Damage, Field, Xor, Differ;
    var n := |data| - 2;
    AtLeastTwo(data);
    var s, t := data[..n], hit[..n];
    var h, l, h', l' := data[n], data[n + 1], hit[n], hit[n + 1];
    assert data == s + [h, l] && hit == t + [h', l'];
    DamageConcat(s, t, [h, l], [h', l']);
    DamageOfTwo(h, l, h', l');
    IntactIsField(s, h, l);
    IntactIsField(t, h', l');
    IntactIsField(Damage(s, t), Differ(h, h'), Differ(l, l'));
    FieldDiffer(h, l, h', l');
    ChecksumDifference(Crc16Checksum.POLY, 0, s, t);
    XorBalance(Crc16Checksum.Register(s), Crc16Checksum.Register(t), Field(h, l), Field(h', l'));
  }

  lemma AtLeastTwo(data: seq<u8>)
    requires Intact(data)
    ensures |data| >= 2
  {
  }

  lemma DamageOfTwo(h: u8, l: u8, h': u8, l': u8)
    ensures Damage([h, l], [h', l']) == [Differ(h, h'), Differ(l, l')]
  {
    assert [h, l][1..] == [l] && [h', l'][1..] == [l'];
  }

  /** Only the tail from the first damaged byte on matters. */
  lemma DamagedTailPassesExactly(s: seq<u8>, v: seq<u8>, w: seq<u8>)
    requires Intact(s + v) && |w| == |v| >= 2
    ensures Intact(s + w) <==> Intact(Damage(v, w))
  {
    hide Intact, Damage;
    DamagePassesExactly(s + v, s + w);
    DamageConcat(s, s, v, w);
    NoDamage(s);
    ZerosInFront(Damage(s, s), Damage(v, w));
  }

  lemma ZerosInFront(z: seq<u8>, w: seq<u8>)
    requires Zeros(z) && |w| >= 2
    ensures Intact(z + w) <==> Intact(w)
  {
    hide Intact;
    var n := |w| - 2;
    assert w == w[..n] + [w[n], w[n + 1]];
    assert z + w == (z + w[..n]) + [w[n], w[n + 1]];
    IntactIsField(w[..n], w[n], w[n + 1]);
    IntactIsField(z + w[..n], w[n], w[n + 1]);
    LeadingZeros(Crc16Checksum.POLY, z, w[..n]);
  }

  /** Damage to the checksum alone is always caught. */
  lemma SealDamageRejected(body: seq<u8>, hit: seq<u8>, json: Json)
    requires |hit| == 2 && hit != PutU16(Crc16Checksum.Sum(body))
    ensures ParsedFrom(body + hit, json) == CrcError
  {
    hide PutU16, GetU16, Crc16Checksum.Sum;
    U16RoundTrip(Crc16Checksum.Sum(body), hit);
    var data := body + hit;
    assert data[..|data| - 2] == body && data[|data| - 2..] == hit;
  }

  /**
   Damage to the last covered byte and to the checksum byte beside it passes exactly when the table entry
   of the one mask is the other, moved to the high byte.
   */
  lemma AcrossSealPassesExactly(s: seq<u8>, x: u8, y: u8, h: u8, h': u8, l: u8)
    requires Intact(s + [x, h, l])
    ensures Intact(s + [y, h', l])
       <==> Crc16Checksum.Entry(Bv8(x) ^ Bv8(y)) == Join(Bv8(h) ^ Bv8(h'), 0)
  {
    hide Intact, Damage, Crc16Checksum.Entry, Join, Bv8, Differ;
    DamagedTailPassesExactly(s, [x, h, l], [y, h', l]);
    DamageOfThree(x, y, h, h', l);
    MasksIntact(Differ(x, y), Differ(h, h'), Differ(l, l), l);
  }

  lemma MasksIntact(d: u8, e: u8, zero: u8, l: u8)
    requires zero == Differ(l, l)
    ensures Intact([d] + [e, zero]) <==> Crc16Checksum.Entry(Bv8(d)) == Join(Bv8(e), 0)
  {
    hide Intact, Crc16Checksum.Register, Crc16Checksum.Entry, Join, Field, Bv8, Differ;
    IntactIsField([d], e, zero);
    EntryRegister(d);
    FieldOfHigh(e, zero, l);
  }

  lemma DamageOfThree(x: u8, y: u8, h: u8, h': u8, l: u8)
    ensures Damage([x, h, l], [y, h', l]) == [Differ(x, y)] + [Differ(h, h'), Differ(l, l)]
  {
    hide Differ;
    assert [x, h, l][1..] == [h, l] && [y, h', l][1..] == [h', l];
    DamageOfTwo(h, l, h', l);
  }

  lemma EntryRegister(d: u8)
    ensures Crc16Checksum.Register([d]) == Crc16Checksum.Entry(Bv8(d))
  {
    hide Bv8, Crc16Checksum.Entry, ByteStep, Xor;
    FirstByte(Crc16Checksum.POLY, 0, [d]);
    XorTwice(Bv8(d) as bv16, 0);
    ByteStepOf(Crc16Checksum.POLY, 0, Bv8(d), Bv8(d) as bv16);
  }

  lemma FieldOfHigh(h: u8, zero: u8, l: u8)
    requires zero == Differ(l, l)
    ensures Field(h, zero) == Join(Bv8(h), 0)
  {
    SelfCancels(Bv8(l));
  }

  /** One such pair of masks, 0x0C and 0x05, passes on every input. */
  lemma DamageAcrossSealMissed(s: seq<u8>, x: u8, h: u8, l: u8)
    requires Intact(s + [x, h, l])
    ensures Differ(x, 0x0C) != x && Differ(h, 0x05) != h
    ensures Intact(s + [Differ(x, 0x0C), Differ(h, 0x05), l])
  {
    hide Intact;
    MaskBack(x, 0x0C);
    MaskBack(h, 0x05);
    AcrossSealPassesExactly(s, x, Differ(x, 0x0C), h, Differ(h, 0x05), l);
    EntryTwelve(Bv8(0x0C), Bv8(0x05));
  }

  /** Such damage to a generated message gives another message, with its last data byte changed. */
  lemma DamagedMessageAccepted(m: Msg, json: Json)
    requires Readable(m.op) && 0 < |m.data| < 0x1_0000
    ensures var g, n := Sealed(Body(m)), |m.data| - 1;
            var hit := g[n + 7 := Differ(g[n + 7], 0x0C)][n + 8 := Differ(g[n + 8], 0x05)];
            var m' := m.(data := m.data[n := Differ(m.data[n], 0x0C)]);
            m' != m && ParsedFrom(hit, json) == Typecheck(m', json)
  {
    hide Intact, Typecheck, Readable, Differ, PutU16, GetU16, PutU32, GetU32, Crc16Checksum.Sum;
    var g, n := Sealed(Body(m)), |m.data| - 1;
    var s, x, h, l := g[..n + 7], g[n + 7], g[n + 8], g[n + 9];
    SealedIsIntact(Body(m));
    assert g == s + [x, h, l];
    DamageAcrossSealMissed(s, x, h, l);
    var hit := s + [Differ(x, 0x0C), Differ(h, 0x05), l];
    assert hit == g[n + 7 := Differ(x, 0x0C)][n + 8 := Differ(h, 0x05)];
    var m' := m.(data := m.data[n := Differ(m.data[n], 0x0C)]);
    assert Body(m') == s + [Differ(x, 0x0C)];
    assert Body(m') <= hit;
    ParseOfBody(m', hit, json);
  }

  lemma ParseOfBody(m: Msg, data: seq<u8>, json: Json)
    requires Intact(data) && Readable(m.op) && |m.data| < 0x1_0000 && |data| >= 8 && Body(m) <= data
    ensures ParsedFrom(data, json) == Typecheck(m, json)
  {
    hide Intact, Typecheck, Readable, PutU16, GetU16, PutU32, GetU32;
    BodyParts(m, data);
    U16RoundTrip(|m.data|, []);
    U32RoundTrip(m.session, []);
  }

  lemma MaskBack(x: u8, m: u8)
    ensures Bv8(x) ^ Bv8(Differ(x, m)) == Bv8(m)
    ensures m != 0 ==> Differ(x, m) != x
  {
    MaskTwice(Bv8(x), Bv8(m));
  }

  lemma MaskTwice(x: byte, m: byte)
    ensures x ^ (x ^ m) == m && (m != 0 ==> x ^ m != x)
  {
  }

  lemma EntryTwelve(x: byte, h: byte)
    requires x as int == 0x0C && h as int == 0x05
    ensures Crc16Checksum.Entry(x) == Join(h, 0)
  {
    SameByte(x, 0x0C);
    SameByte(h, 0x05);
  }

  // ---------- the operations ----------

  method GenerateMsg(opCode: u8, session: u32, payload: seq<u8>) returns (r: Option<seq<u8>>)
    ensures r == Generated(Msg(opCode, session, payload))
  {
    hide PutU16, PutU32, Crc16Checksum.Sum;
    if !Writable(opCode) {
      return None;
    }
    var buf := PutU32(session);
    buf := buf + [opCode];
    buf := buf + PutU16(|payload| % 0x1_0000);
    buf := buf + payload;
    var sum := Crc16Checksum.Crc16(buf);
    buf := buf + PutU16(sum);
    r := Some(buf);
  }

  /** bytes.Reader.ReadAt: what is there from off, the rest zero; short reads and an offset at the end are errors. */
  method ReadAt(data: seq<u8>, n: nat, off: nat) returns (slice: seq<u8>, ok: bool)
    ensures |slice| == n
    ensures ok <==> off < |data| && off + n <= |data|
    ensures ok ==> slice == data[off..off + n]
  {
    if off >= |data| {
      return seq(n, _ => 0), false;
    }
    if off + n <= |data| {
      return data[off..off + n], true;
    }
    slice := data[off..] + seq(n - (|data| - off), _ => 0);
    ok := false;
  }

  method ParseMsg(data: seq<u8>, json: Json) returns (r: Outcome)
    ensures r == ParsedFrom(data, json)
  {
    hide PutU16, PutU32, GetU32, GetU16, Crc16Checksum.Sum;
    var dataSize := |data|;
    if dataSize < 2 {
      return SliceFault;
    }
    var crcVal := GetU16(data[dataSize - 2..dataSize]);
    assert data[dataSize - 2..dataSize] == data[dataSize - 2..];
    var sum := Crc16Checksum.Crc16(data[..dataSize - 2]);
    if sum != crcVal {
      return CrcError;
    }
    var session, _ := ReadAt(data, 4, 0);
    var op := if dataSize > 4 then data[4] else 0;
    var size, _ := ReadAt(data, 2, 5);
    var length := GetU16(size);
    var decoded, ok := ReadAt(data, length, 7);
    if !ok {
      return ReadError;
    }
    if !Readable(op) {
      return UnknownOp;
    }
    var msg := Msg(op, GetU32(session), decoded);
    r := if Typed(op) && !json(op, decoded) then BadJson(msg) else Parsed(msg);
  }
}
