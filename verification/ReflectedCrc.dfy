/**
 The bit-serial definition of a reflected 16-bit CRC, for any generator polynomial, and what such a
 CRC detects.  Both 16-bit checksums of the repository (the X.25 one of MAVLink and the table-driven
 one of DroneDP) are proved equal to an instance of this definition, so the theorems hold of both.
 */
module ReflectedCrc {
  import opened Bytes
  import opened Folds
  import opened ShiftRegister

  type byte = bv8

  // ---------- definition ----------

  /** One shift step: the low bit leaves the register and, if set, folds the polynomial back in. */
  function BitStep(poly: bv16, c: bv16): bv16 {
    if c & 1 == 1 then (c >> 1) ^ poly else c >> 1
  }

  function Stepper(poly: bv16): bv16 -> bv16 {
    c => BitStep(poly, c)
  }

  /** A byte enters at the low end and is followed by eight shift steps. */
  function ByteStep(poly: bv16, c: bv16, b: byte): bv16 {
    Iterate(Stepper(poly), 8, c ^ (b as bv16))
  }

  function ByteFeeder(poly: bv16): (bv16, byte) -> bv16 {
    (c, b) => ByteStep(poly, c, b)
  }

  function Update(poly: bv16, c: bv16, s: seq<byte>): bv16 {
    Fold(ByteFeeder(poly), c, s)
  }

  lemma UpdateConcat(poly: bv16, c: bv16, s: seq<u8>, t: seq<u8>)
    ensures Update(poly, c, Bv(s + t)) == Update(poly, Update(poly, c, Bv(s)), Bv(t))
  {
    BvConcat(s, t);
    FoldConcat(ByteFeeder(poly), c, Bv(s), Bv(t));
  }

  lemma UpdateGrows(poly: bv16, c: bv16, p: seq<u8>, i: nat)
    requires i < |p|
    ensures Update(poly, c, Bv(p[..i + 1])) == ByteStep(poly, Update(poly, c, Bv(p[..i])), Bv8(p[i]))
  {
    hide ByteStep;
    assert p[..i + 1] == p[..i] + [p[i]];
    BvConcat(p[..i], [p[i]]);
    assert Bv([p[i]]) == [Bv8(p[i])];
    FoldSnoc(ByteFeeder(poly), c, Bv(p[..i]), Bv8(p[i]));
  }

  // ---------- messages as bits, least significant bit of each byte first ----------

  function BitsOf(b: byte): (bits: seq<bool>)
    ensures |bits| == 8
  {
    [b & 1 == 1, b & 2 == 2, b & 4 == 4, b & 8 == 8, b & 16 == 16, b & 32 == 32, b & 64 == 64, b & 128 == 128]
  }

  function Bits(s: seq<byte>): (bits: seq<bool>)
    ensures |bits| == 8 * |s|
  {
    if s == [] then [] else BitsOf(s[0]) + Bits(s[1..])
  }

  // ---------- the sixteen-bit shift register ----------

  function Crc(poly: bv16): Register<bv16> {
    Register(16, 0, Stepper(poly), Up, Bit, Xor, Or, Fits)
  }

  function Up(x: bv16): bv16 { x << 1 }

  function Xor(x: bv16, y: bv16): bv16 { x ^ y }

  function Or(x: bv16, y: bv16): bv16 { x | y }

  predicate Fits(n: nat, x: bv16) { n <= 16 && x & (0xFFFF << n) == 0 }

  function Bit(b: bool): bv16 { if b then 1 else 0 }

  lemma StepInjective(poly: bv16, x: bv16, y: bv16)
    requires poly & 0x8000 == 0x8000
    requires BitStep(poly, x) == BitStep(poly, y)
    ensures x == y
  {
  }

  lemma XorCancels(c: bv16, x: bv16, y: bv16)
    ensures Xor(c, x) == Xor(c, y) ==> x == y
    ensures Xor(x, c) == Xor(y, c) ==> x == y
    ensures Xor(c, 0) == c
  {
  }

  lemma FitsUp(n: nat, b: bool, v: bv16)
    requires n < 16 && v & (0xFFFF << n) == 0
    ensures (Bit(b) | (v << 1)) & (0xFFFF << (n + 1)) == 0
  {
    var m: bv16 := 0xFFFF << n;
    MaskShift(n);
    MaskUp(Bit(b), v, m);
  }

  lemma MaskShift(n: nat)
    requires n < 16
    ensures (0xFFFF as bv16) << (n + 1) == ((0xFFFF as bv16) << n) << 1
  {
  }

  lemma MaskUp(a: bv16, v: bv16, m: bv16)
    requires (a == 0 || a == 1) && v & m == 0
    ensures (a | (v << 1)) & (m << 1) == 0
  {
  }

  lemma TopBitFree(n: nat, v: bv16)
    requires n < 16 && v & (0xFFFF << n) == 0
    ensures v & 0x8000 == 0
  {
    var m: bv16 := 0xFFFF << n;
    assert m & 0x8000 == 0x8000;
  }

  lemma XorRegroups(a: bv16, b: bv16, d: bv16)
    ensures (a ^ b) ^ d == (a ^ d) ^ b
  {
  }

  lemma EvenPart(x: bv16, v: bv16)
    requires v & 0x8000 == 0
    ensures (x ^ (v << 1)) & 1 == x & 1
    ensures (x ^ (v << 1)) >> 1 == (x >> 1) ^ v
  {
  }

  lemma StepOfShifted(poly: bv16, x: bv16, y: bv16, v: bv16)
    requires y & 1 == x & 1 && y >> 1 == (x >> 1) ^ v
    ensures BitStep(poly, y) == BitStep(poly, x) ^ v
  {
    XorRegroups(x >> 1, v, poly);
  }

  /** Bits above the lowest one pass through a step unchanged. */
  lemma StepAbsorbs(poly: bv16, x: bv16, v: bv16)
    requires v & 0x8000 == 0
    ensures BitStep(poly, x ^ (v << 1)) == BitStep(poly, x) ^ v
  {
    EvenPart(x, v);
    StepOfShifted(poly, x, x ^ (v << 1), v);
  }

  lemma LowBitSplits(c: bv16, b: bool, v: bv16)
    ensures Xor(c, Or(Bit(b), Up(v))) == Xor(Xor(c, Bit(b)), Up(v))
  {
  }

  lemma LowBitAndRest(a: bv16, x: bv16)
    requires a == 0 || a == 1
    requires x & 0x8000 == 0
    ensures (a | (x << 1)) >> 1 == x && (a | (x << 1)) & 1 == a
  {
  }

  lemma SplitInjective(a: bool, b: bool, x: bv16, y: bv16)
    requires x & 0x8000 == 0 && y & 0x8000 == 0
    requires Or(Bit(a), Up(x)) == Or(Bit(b), Up(y))
    ensures a == b && x == y
  {
    LowBitAndRest(Bit(a), x);
    LowBitAndRest(Bit(b), y);
  }

  lemma CrcXorLaws(poly: bv16)
    ensures Crc(poly).XorLaws()
  {
    hide Xor;
    forall c: bv16, x: bv16, y: bv16
      ensures Xor(c, x) == Xor(c, y) ==> x == y
      ensures Xor(x, c) == Xor(y, c) ==> x == y
      ensures Xor(c, 0) == c
    {
      XorCancels(c, x, y);
    }
  }

  lemma FitsNothing()
    ensures Fits(0, 0)
  {
  }

  lemma FitsMore(n: nat, b: bool, v: bv16)
    requires n < 16 && Fits(n, v)
    ensures Fits(n + 1, Or(Bit(b), Up(v)))
  {
    FitsUp(n, b, v);
  }

  lemma CrcFitLaws(poly: bv16)
    ensures Crc(poly).FitLaws()
  {
    hide Fits;
    FitsNothing();
    forall n: nat, b: bool, v: bv16 | n < 16 && Fits(n, v) ensures Fits(n + 1, Or(Bit(b), Up(v))) {
      FitsMore(n, b, v);
    }
  }

  lemma StepsInjective(poly: bv16)
    requires poly & 0x8000 == 0x8000
    ensures forall x, y :: Stepper(poly)(x) == Stepper(poly)(y) ==> x == y
  {
    forall x, y | Stepper(poly)(x) == Stepper(poly)(y) ensures x == y {
      StepInjective(poly, x, y);
    }
  }

  lemma FittingAbsorbed(poly: bv16, n: nat, c: bv16, v: bv16)
    requires n < 16 && Fits(n, v)
    ensures BitStep(poly, Xor(c, Up(v))) == Xor(BitStep(poly, c), v)
  {
    hide BitStep;
    TopBitFree(n, v);
    StepAbsorbs(poly, c, v);
  }

  lemma StepsAbsorb(poly: bv16)
    ensures forall n: nat, c, v :: n < 16 && Fits(n, v) ==> Stepper(poly)(Xor(c, Up(v))) == Xor(Stepper(poly)(c), v)
  {
    forall n: nat, c, v | n < 16 && Fits(n, v)
      ensures Stepper(poly)(Xor(c, Up(v))) == Xor(Stepper(poly)(c), v)
    {
      FittingAbsorbed(poly, n, c, v);
    }
  }

  lemma CrcStepLaws(poly: bv16)
    requires poly & 0x8000 == 0x8000
    ensures Crc(poly).StepLaws()
  {
    StepsInjective(poly);
    StepsAbsorb(poly);
  }

  lemma FitsTop(n: nat, v: bv16)
    requires n < 16 && Fits(n, v)
    ensures v & 0x8000 == 0
  {
    TopBitFree(n, v);
  }

  lemma FittingSplits(n: nat, a: bool, b: bool, x: bv16, y: bv16)
    requires n < 16 && Fits(n, x) && Fits(n, y) && Or(Bit(a), Up(x)) == Or(Bit(b), Up(y))
    ensures a == b && x == y
  {
    hide Fits, Or, Up, Bit;
    FitsTop(n, x);
    FitsTop(n, y);
    SplitInjective(a, b, x, y);
  }

  lemma CrcSplitLaws(poly: bv16)
    ensures Crc(poly).SplitLaws()
  {
    forall c, b, v ensures Xor(c, Or(Bit(b), Up(v))) == Xor(Xor(c, Bit(b)), Up(v)) {
      LowBitSplits(c, b, v);
    }
    forall n: nat, a, b, x, y
      | n < 16 && Fits(n, x) && Fits(n, y) && Or(Bit(a), Up(x)) == Or(Bit(b), Up(y))
      ensures a == b && x == y
    {
      FittingSplits(n, a, b, x, y);
    }
  }

  lemma CrcLawful(poly: bv16)
    requires poly & 0x8000 == 0x8000
    ensures Crc(poly).Lawful()
  {
    CrcXorLaws(poly);
    CrcFitLaws(poly);
    CrcStepLaws(poly);
    CrcSplitLaws(poly);
  }

  // ---------- feeding bytes is feeding their bits ----------

  lemma ByteFromBits(b: byte)
    ensures var s := BitsOf(b);
      Or(Bit(s[0]), Up(Or(Bit(s[1]), Up(Or(Bit(s[2]), Up(Or(Bit(s[3]), Up(Or(Bit(s[4]), Up(Or(Bit(s[5]),
        Up(Or(Bit(s[6]), Up(Or(Bit(s[7]), Up(0)))))))))))))))) == b as bv16
  {
  }

  lemma ValueOfByte(poly: bv16, b: byte)
    ensures Crc(poly).Value(BitsOf(b)) == b as bv16
  {
    ByteFromBits(b);
    Crc(poly).ValueOfEight(BitsOf(b));
  }

  lemma ByteStepIsBits(poly: bv16, c: bv16, b: byte)
    requires poly & 0x8000 == 0x8000
    ensures Fold(Crc(poly).Feeder(), c, BitsOf(b)) == ByteStep(poly, c, b)
  {
    CrcLawful(poly);
    Crc(poly).FeedWindow(c, BitsOf(b));
    ValueOfByte(poly, b);
  }

  lemma {:induction false} UpdateIsBits(poly: bv16, c: bv16, s: seq<byte>)
    requires poly & 0x8000 == 0x8000
    ensures Fold(Crc(poly).Feeder(), c, Bits(s)) == Update(poly, c, s)
    decreases |s|
  {
    if s != [] {
      FoldConcat(Crc(poly).Feeder(), c, BitsOf(s[0]), Bits(s[1..]));
      ByteStepIsBits(poly, c, s[0]);
      UpdateIsBits(poly, ByteStep(poly, c, s[0]), s[1..]);
    }
  }

  // ---------- what the checksum detects ----------

  lemma ByteStepInjective(poly: bv16, x: bv16, y: bv16, b: byte)
    requires poly & 0x8000 == 0x8000
    requires ByteStep(poly, x, b) == ByteStep(poly, y, b)
    ensures x == y
  {
    CrcLawful(poly);
    ByteStepIsBits(poly, x, b);
    ByteStepIsBits(poly, y, b);
    Crc(poly).FeedInjective(x, y, BitsOf(b));
  }

  /** Every error burst of at most sixteen bits changes the checksum, wherever it falls. */
  lemma BurstDetected(poly: bv16, c: bv16, s: seq<byte>, t: seq<byte>, k: nat)
    requires poly & 0x8000 == 0x8000
    requires s != t && Burst(Bits(s), Bits(t), k, 16)
    ensures Update(poly, c, s) != Update(poly, c, t)
  {
    if Update(poly, c, s) == Update(poly, c, t) {
      UpdateIsBits(poly, c, s);
      UpdateIsBits(poly, c, t);
      CrcLawful(poly);
      Crc(poly).BurstInjective(c, Bits(s), Bits(t), k);
      BitsInjective(s, t);
    }
  }

  lemma BitsOfInjective(a: byte, b: byte)
    requires BitsOf(a) == BitsOf(b)
    ensures a == b
  {
    ByteFromBits(a);
    ByteFromBits(b);
  }

  lemma {:induction false} BitsInjective(s: seq<byte>, t: seq<byte>)
    requires Bits(s) == Bits(t)
    ensures s == t
  {
    hide BitsOf;
    if s != [] {
      assert Bits(s)[..8] == BitsOf(s[0]) && Bits(t)[..8] == BitsOf(t[0]);
      assert Bits(s)[8..] == Bits(s[1..]) && Bits(t)[8..] == Bits(t[1..]);
      BitsOfInjective(s[0], t[0]);
      BitsInjective(s[1..], t[1..]);
      assert s == [s[0]] + s[1..] && t == [t[0]] + t[1..];
    }
  }

  lemma {:induction false} BitAt(s: seq<byte>, j: nat, r: nat)
    requires j < |s| && r < 8
    ensures Bits(s)[8 * j + r] == BitsOf(s[j])[r]
  {
    hide BitsOf;
    if j > 0 {
      BitAt(s[1..], j - 1, r);
    }
  }

  lemma SameBit(s: seq<byte>, t: seq<byte>, k: nat, j: nat, r: nat)
    requires |s| == |t| && k == 8 * j + r && r < 8 && j < |s| && s[j] == t[j]
    ensures Bits(s)[k] == Bits(t)[k]
  {
    hide BitsOf, Bits;
    BitAt(s, j, r);
    BitAt(t, j, r);
  }

  /** Two adjacent bytes are sixteen consecutive bits. */
  lemma AdjacentBytesAreBurst(s: seq<byte>, t: seq<byte>, i: nat)
    requires |s| == |t|
    requires forall j :: 0 <= j < |s| && j != i && j != i + 1 ==> s[j] == t[j]
    ensures Burst(Bits(s), Bits(t), 8 * i, 16)
  {
    hide BitsOf;
    forall k | 0 <= k < 8 * |s| && !(8 * i <= k < 8 * i + 16) ensures Bits(s)[k] == Bits(t)[k] {
      SameBit(s, t, k, k / 8, k % 8);
    }
  }
}
