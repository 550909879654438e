/**
 The 32-bit twin of ReflectedCrc: Dafny's bit-vectors have their width in the type, so the register and
 its laws are written out again, while bits, windows and bursts are shared.
 */
module WideCrc {
  import opened Bytes
  import opened Folds
  import opened ShiftRegister
  import Narrow = ReflectedCrc

  // ---------- definition ----------

  /** One shift step: the low bit leaves the register and, if set, folds the polynomial back in. */
  function BitStep(poly: bv32, c: bv32): bv32 {
    if c & 1 == 1 then (c >> 1) ^ poly else c >> 1
  }

  function Stepper(poly: bv32): bv32 -> bv32 {
    c => BitStep(poly, c)
  }

  /** A byte enters at the low end and is followed by eight shift steps. */
  function ByteStep(poly: bv32, c: bv32, b: bv8): bv32 {
    Iterate(Stepper(poly), 8, c ^ (b as bv32))
  }

  function ByteFeeder(poly: bv32): (bv32, bv8) -> bv32 {
    (c, b) => ByteStep(poly, c, b)
  }

  function Update(poly: bv32, c: bv32, s: seq<bv8>): bv32 {
    Fold(ByteFeeder(poly), c, s)
  }

  lemma UpdateConcat(poly: bv32, c: bv32, s: seq<u8>, t: seq<u8>)
    ensures Update(poly, c, Bv(s + t)) == Update(poly, Update(poly, c, Bv(s)), Bv(t))
  {
    BvConcat(s, t);
    FoldConcat(ByteFeeder(poly), c, Bv(s), Bv(t));
  }

  lemma UpdateGrows(poly: bv32, c: bv32, p: seq<u8>, i: nat)
    requires i < |p|
    ensures Update(poly, c, Bv(p[..i + 1])) == ByteStep(poly, Update(poly, c, Bv(p[..i])), Bv8(p[i]))
  {
    hide ByteStep;
    assert p[..i + 1] == p[..i] + [p[i]];
    BvConcat(p[..i], [p[i]]);
    assert Bv([p[i]]) == [Bv8(p[i])];
    FoldSnoc(ByteFeeder(poly), c, Bv(p[..i]), Bv8(p[i]));
  }

  // ---------- the thirty-two-bit shift register ----------

  function Crc(poly: bv32): Register<bv32> {
    Register(32, 0, Stepper(poly), Up, Bit, Xor, Or, Fits)
  }

  function Up(x: bv32): bv32 { x << 1 }

  function Xor(x: bv32, y: bv32): bv32 { x ^ y }

  function Or(x: bv32, y: bv32): bv32 { x | y }

  predicate Fits(n: nat, x: bv32) { n <= 32 && x & (0xFFFFFFFF << n) == 0 }

  function Bit(b: bool): bv32 { if b then 1 else 0 }

  lemma StepInjective(poly: bv32, x: bv32, y: bv32)
    requires poly & 0x80000000 == 0x80000000
    requires BitStep(poly, x) == BitStep(poly, y)
    ensures x == y
  {
  }

  lemma XorCancels(c: bv32, x: bv32, y: bv32)
    ensures Xor(c, x) == Xor(c, y) ==> x == y
    ensures Xor(x, c) == Xor(y, c) ==> x == y
    ensures Xor(c, 0) == c
  {
  }

  lemma FitsUp(n: nat, b: bool, v: bv32)
    requires n < 32 && v & (0xFFFFFFFF << n) == 0
    ensures (Bit(b) | (v << 1)) & (0xFFFFFFFF << (n + 1)) == 0
  {
    var m: bv32 := 0xFFFFFFFF << n;
    MaskShift(n);
    MaskUp(Bit(b), v, m);
  }

  lemma MaskShift(n: nat)
    requires n < 32
    ensures (0xFFFFFFFF as bv32) << (n + 1) == ((0xFFFFFFFF as bv32) << n) << 1
  {
  }

  lemma MaskUp(a: bv32, v: bv32, m: bv32)
    requires (a == 0 || a == 1) && v & m == 0
    ensures (a | (v << 1)) & (m << 1) == 0
  {
  }

  lemma TopBitFree(n: nat, v: bv32)
    requires n < 32 && v & (0xFFFFFFFF << n) == 0
    ensures v & 0x80000000 == 0
  {
    var m: bv32 := 0xFFFFFFFF << n;
    assert m & 0x80000000 == 0x80000000;
  }

  lemma XorRegroups(a: bv32, b: bv32, d: bv32)
    ensures (a ^ b) ^ d == (a ^ d) ^ b
  {
  }

  lemma EvenPart(x: bv32, v: bv32)
    requires v & 0x80000000 == 0
    ensures (x ^ (v << 1)) & 1 == x & 1
    ensures (x ^ (v << 1)) >> 1 == (x >> 1) ^ v
  {
  }

  lemma StepOfShifted(poly: bv32, x: bv32, y: bv32, v: bv32)
    requires y & 1 == x & 1 && y >> 1 == (x >> 1) ^ v
    ensures BitStep(poly, y) == BitStep(poly, x) ^ v
  {
    XorRegroups(x >> 1, v, poly);
  }

  /** Bits above the lowest one pass through a step unchanged. */
  lemma StepAbsorbs(poly: bv32, x: bv32, v: bv32)
    requires v & 0x80000000 == 0
    ensures BitStep(poly, x ^ (v << 1)) == BitStep(poly, x) ^ v
  {
    EvenPart(x, v);
    StepOfShifted(poly, x, x ^ (v << 1), v);
  }

  lemma LowBitSplits(c: bv32, b: bool, v: bv32)
    ensures Xor(c, Or(Bit(b), Up(v))) == Xor(Xor(c, Bit(b)), Up(v))
  {
  }

  lemma LowBitAndRest(a: bv32, x: bv32)
    requires a == 0 || a == 1
    requires x & 0x80000000 == 0
    ensures (a | (x << 1)) >> 1 == x && (a | (x << 1)) & 1 == a
  {
  }

  lemma SplitInjective(a: bool, b: bool, x: bv32, y: bv32)
    requires x & 0x80000000 == 0 && y & 0x80000000 == 0
    requires Or(Bit(a), Up(x)) == Or(Bit(b), Up(y))
    ensures a == b && x == y
  {
    LowBitAndRest(Bit(a), x);
    LowBitAndRest(Bit(b), y);
  }

  lemma CrcXorLaws(poly: bv32)
    ensures Crc(poly).XorLaws()
  {
    hide Xor;
    forall c: bv32, x: bv32, y: bv32
      ensures Xor(c, x) == Xor(c, y) ==> x == y
      ensures Xor(x, c) == Xor(y, c) ==> x == y
      ensures Xor(c, 0) == c
    {
      XorCancels(c, x, y);
    }
  }

  lemma FitsNothing()
    ensures Fits(0, 0)
  {
  }

  lemma FitsMore(n: nat, b: bool, v: bv32)
    requires n < 32 && Fits(n, v)
    ensures Fits(n + 1, Or(Bit(b), Up(v)))
  {
    FitsUp(n, b, v);
  }

  lemma CrcFitLaws(poly: bv32)
    ensures Crc(poly).FitLaws()
  {
    hide Fits;
    FitsNothing();
    forall n: nat, b: bool, v: bv32 | n < 32 && Fits(n, v) ensures Fits(n + 1, Or(Bit(b), Up(v))) {
      FitsMore(n, b, v);
    }
  }

  lemma StepsInjective(poly: bv32)
    requires poly & 0x80000000 == 0x80000000
    ensures forall x, y :: Stepper(poly)(x) == Stepper(poly)(y) ==> x == y
  {
    forall x, y | Stepper(poly)(x) == Stepper(poly)(y) ensures x == y {
      StepInjective(poly, x, y);
    }
  }

  lemma FittingAbsorbed(poly: bv32, n: nat, c: bv32, v: bv32)
    requires n < 32 && Fits(n, v)
    ensures BitStep(poly, Xor(c, Up(v))) == Xor(BitStep(poly, c), v)
  {
    hide BitStep;
    TopBitFree(n, v);
    StepAbsorbs(poly, c, v);
  }

  lemma StepsAbsorb(poly: bv32)
    ensures forall n: nat, c, v :: n < 32 && Fits(n, v) ==> Stepper(poly)(Xor(c, Up(v))) == Xor(Stepper(poly)(c), v)
  {
    forall n: nat, c, v | n < 32 && Fits(n, v)
      ensures Stepper(poly)(Xor(c, Up(v))) == Xor(Stepper(poly)(c), v)
    {
      FittingAbsorbed(poly, n, c, v);
    }
  }

  lemma CrcStepLaws(poly: bv32)
    requires poly & 0x80000000 == 0x80000000
    ensures Crc(poly).StepLaws()
  {
    StepsInjective(poly);
    StepsAbsorb(poly);
  }

  lemma FitsTop(n: nat, v: bv32)
    requires n < 32 && Fits(n, v)
    ensures v & 0x80000000 == 0
  {
    TopBitFree(n, v);
  }

  lemma FittingSplits(n: nat, a: bool, b: bool, x: bv32, y: bv32)
    requires n < 32 && Fits(n, x) && Fits(n, y) && Or(Bit(a), Up(x)) == Or(Bit(b), Up(y))
    ensures a == b && x == y
  {
    hide Fits, Or, Up, Bit;
    FitsTop(n, x);
    FitsTop(n, y);
    SplitInjective(a, b, x, y);
  }

  lemma CrcSplitLaws(poly: bv32)
    ensures Crc(poly).SplitLaws()
  {
    forall c, b, v ensures Xor(c, Or(Bit(b), Up(v))) == Xor(Xor(c, Bit(b)), Up(v)) {
      LowBitSplits(c, b, v);
    }
    forall n: nat, a, b, x, y
      | n < 32 && Fits(n, x) && Fits(n, y) && Or(Bit(a), Up(x)) == Or(Bit(b), Up(y))
      ensures a == b && x == y
    {
      FittingSplits(n, a, b, x, y);
    }
  }

  lemma CrcLawful(poly: bv32)
    requires poly & 0x80000000 == 0x80000000
    ensures Crc(poly).Lawful()
  {
    CrcXorLaws(poly);
    CrcFitLaws(poly);
    CrcStepLaws(poly);
    CrcSplitLaws(poly);
  }

  // ---------- feeding bytes is feeding their bits ----------

  lemma HighNibble(b: bv8)
    ensures var s := Narrow.BitsOf(b);
      Or(Bit(s[4]), Up(Or(Bit(s[5]), Up(Or(Bit(s[6]), Up(Or(Bit(s[7]), Up(0)))))))) == (b >> 4) as bv32
  {
  }

  lemma LowNibble(b: bv8, v: bv32)
    requires v == (b >> 4) as bv32
    ensures var s := Narrow.BitsOf(b);
      Or(Bit(s[0]), Up(Or(Bit(s[1]), Up(Or(Bit(s[2]), Up(Or(Bit(s[3]), Up(v)))))))) == b as bv32
  {
  }

  lemma ByteFromBits(b: bv8)
    ensures var s := Narrow.BitsOf(b);
      Or(Bit(s[0]), Up(Or(Bit(s[1]), Up(Or(Bit(s[2]), Up(Or(Bit(s[3]), Up(Or(Bit(s[4]), Up(Or(Bit(s[5]),
        Up(Or(Bit(s[6]), Up(Or(Bit(s[7]), Up(0)))))))))))))))) == b as bv32
  {
    hide Narrow.BitsOf, Or, Up, Bit;
    HighNibble(b);
    LowNibble(b, (b >> 4) as bv32);
  }

  lemma ValueOfByte(poly: bv32, b: bv8)
    ensures Crc(poly).Value(Narrow.BitsOf(b)) == b as bv32
  {
    ByteFromBits(b);
    Crc(poly).ValueOfEight(Narrow.BitsOf(b));
  }

  lemma ByteStepIsBits(poly: bv32, c: bv32, b: bv8)
    requires poly & 0x80000000 == 0x80000000
    ensures Fold(Crc(poly).Feeder(), c, Narrow.BitsOf(b)) == ByteStep(poly, c, b)
  {
    CrcLawful(poly);
    Crc(poly).FeedWindow(c, Narrow.BitsOf(b));
    ValueOfByte(poly, b);
  }

  lemma {:induction false} UpdateIsBits(poly: bv32, c: bv32, s: seq<bv8>)
    requires poly & 0x80000000 == 0x80000000
    ensures Fold(Crc(poly).Feeder(), c, Narrow.Bits(s)) == Update(poly, c, s)
    decreases |s|
  {
    if s != [] {
      FoldConcat(Crc(poly).Feeder(), c, Narrow.BitsOf(s[0]), Narrow.Bits(s[1..]));
      ByteStepIsBits(poly, c, s[0]);
      UpdateIsBits(poly, ByteStep(poly, c, s[0]), s[1..]);
    }
  }

  // ---------- what the checksum detects ----------

  /** Every error burst of at most thirty-two bits changes the checksum, wherever it falls. */
  lemma BurstDetected(poly: bv32, c: bv32, s: seq<bv8>, t: seq<bv8>, k: nat)
    requires poly & 0x80000000 == 0x80000000
    requires s != t && Burst(Narrow.Bits(s), Narrow.Bits(t), k, 32)
    ensures Update(poly, c, s) != Update(poly, c, t)
  {
    if Update(poly, c, s) == Update(poly, c, t) {
      UpdateIsBits(poly, c, s);
      UpdateIsBits(poly, c, t);
      CrcLawful(poly);
      Crc(poly).BurstInjective(c, Narrow.Bits(s), Narrow.Bits(t), k);
      Narrow.BitsInjective(s, t);
    }
  }
}
