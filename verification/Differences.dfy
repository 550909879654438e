/**
 What damage does to a 16-bit CRC: the register is linear, so the difference of two checksums depends on
 the difference of the messages alone.  Which damage passes is settled by the damage pattern.
 */
module CrcDifferences {
  import opened Bytes
  import opened Folds
  import opened ReflectedCrc

  // ---------- one step ----------

  predicate Odd(c: bv16) { c & 1 == 1 }

  lemma StepByHalf(poly: bv16, c: bv16, half: bv16)
    requires half == c >> 1
    ensures BitStep(poly, c) == if Odd(c) then Xor(half, poly) else half
  {
  }

  lemma LowBits(x: bv16, y: bv16, z: bv16)
    requires z == Xor(x, y)
    ensures Odd(z) <==> Odd(x) != Odd(y)
    ensures z >> 1 == Xor(x >> 1, y >> 1)
  {
  }

  lemma XorAssociates(a: bv16, b: bv16, c: bv16)
    ensures Xor(Xor(a, b), c) == Xor(a, Xor(b, c))
  {
  }

  lemma XorCommutes(a: bv16, b: bv16)
    ensures Xor(a, b) == Xor(b, a)
  {
  }

  lemma XorTwice(a: bv16, p: bv16)
    ensures Xor(Xor(a, p), p) == a && Xor(a, a) == 0 && Xor(a, 0) == a && Xor(0, a) == a
  {
  }

  /** Two sums side by side. */
  lemma XorPairs(a: bv16, b: bv16, c: bv16, d: bv16)
    ensures Xor(Xor(a, b), Xor(c, d)) == Xor(Xor(a, c), Xor(b, d))
  {
    hide Xor;
    XorAssociates(a, b, Xor(c, d));
    XorAssociates(b, c, d);
    XorCommutes(b, c);
    XorAssociates(c, b, d);
    XorAssociates(a, c, Xor(b, d));
  }

  /** Equal sums, rearranged. */
  lemma XorBalance(a: bv16, b: bv16, c: bv16, d: bv16)
    requires a == c
    ensures b == d <==> Xor(a, b) == Xor(c, d)
  {
    hide Xor;
    if Xor(a, b) == Xor(c, d) {
      XorCommutes(a, b);
      XorCommutes(c, d);
      XorTwice(b, a);
      XorTwice(d, c);
    }
  }

  lemma StepIsLinear(poly: bv16, x: bv16, y: bv16)
    ensures BitStep(poly, Xor(x, y)) == Xor(BitStep(poly, x), BitStep(poly, y))
  {
    hide BitStep, Xor, Odd;
    var z, a, b := Xor(x, y), x >> 1, y >> 1;
    LowBits(x, y, z);
    XorAssociates(a, b, poly);
    XorAssociates(a, poly, b);
    XorCommutes(poly, b);
    XorPairs(a, poly, b, poly);
    XorTwice(Xor(a, b), poly);
    XorTwice(poly, poly);
    StepByHalf(poly, x, a);
    StepByHalf(poly, y, b);
    StepByHalf(poly, z, Xor(a, b));
  }

  lemma StepsAreLinear(poly: bv16, n: nat, x: bv16, y: bv16)
    ensures Iterate(Stepper(poly), n, Xor(x, y)) == Xor(Iterate(Stepper(poly), n, x), Iterate(Stepper(poly), n, y))
  {
    hide BitStep, Xor;
    forall a, b ensures Stepper(poly)(Xor(a, b)) == Xor(Stepper(poly)(a), Stepper(poly)(b)) {
      StepIsLinear(poly, a, b);
    }
    IterateHomomorphic(Stepper(poly), Xor, n, x, y);
  }

  // ---------- bytes and messages ----------

  lemma Widened(a: byte, b: byte)
    ensures (a ^ b) as bv16 == Xor(a as bv16, b as bv16)
  {
  }

  lemma ByteStepIsLinear(poly: bv16, c: bv16, d: bv16, a: byte, b: byte)
    ensures ByteStep(poly, Xor(c, d), a ^ b) == Xor(ByteStep(poly, c, a), ByteStep(poly, d, b))
  {
    hide BitStep, Iterate;
    var a16, b16 := a as bv16, b as bv16;
    Widened(a, b);
    ByteStepOf(poly, c, a, a16);
    ByteStepOf(poly, d, b, b16);
    ByteStepOf(poly, Xor(c, d), a ^ b, Xor(a16, b16));
    XorPairs(c, d, a16, b16);
    StepsAreLinear(poly, 8, Xor(c, a16), Xor(d, b16));
  }

  lemma ByteStepOf(poly: bv16, c: bv16, b: byte, w: bv16)
    requires w == b as bv16
    ensures ByteStep(poly, c, b) == Iterate(Stepper(poly), 8, Xor(c, w))
  {
  }

  lemma SelfCancels(b: byte)
    ensures b ^ b == 0
  {
  }

  /** The exclusive or of two bytes as a number. */
  function Differ(a: u8, b: u8): (d: u8)
    ensures Bv8(d) == Bv8(a) ^ Bv8(b)
  {
    var v := Bv8(a) ^ Bv8(b);
    SameByte(Bv8(v as int), v);
    v as int
  }

  /** The damage that turns s into t, byte by byte. */
  function Damage(s: seq<u8>, t: seq<u8>): (d: seq<u8>)
    requires |s| == |t|
    ensures |d| == |s|
  {
    if s == [] then [] else [Differ(s[0], t[0])] + Damage(s[1..], t[1..])
  }

  /** Checksums differ by the checksum, from zero, of the damage. */
  lemma {:induction false} UpdateIsLinear(poly: bv16, c: bv16, d: bv16, s: seq<u8>, t: seq<u8>)
    requires |s| == |t|
    ensures Update(poly, Xor(c, d), Bv(Damage(s, t))) == Xor(Update(poly, c, Bv(s)), Update(poly, d, Bv(t)))
    decreases |s|
  {
    hide ByteStep, Xor, Differ, Bv8;
    if s != [] {
      ByteStepIsLinear(poly, c, d, Bv8(s[0]), Bv8(t[0]));
      FirstByte(poly, c, s);
      FirstByte(poly, d, t);
      FirstByte(poly, Xor(c, d), Damage(s, t));
      assert Damage(s, t)[1..] == Damage(s[1..], t[1..]);
      UpdateIsLinear(poly, ByteStep(poly, c, Bv8(s[0])), ByteStep(poly, d, Bv8(t[0])), s[1..], t[1..]);
    }
  }

  lemma FirstByte(poly: bv16, c: bv16, s: seq<u8>)
    requires s != []
    ensures Update(poly, c, Bv(s)) == Update(poly, ByteStep(poly, c, Bv8(s[0])), Bv(s[1..]))
  {
    hide ByteStep, Bv8;
    assert Bv(s)[1..] == Bv(s[1..]);
  }

  /** From one register, the two checksums and the damage's. */
  lemma ChecksumDifference(poly: bv16, c: bv16, s: seq<u8>, t: seq<u8>)
    requires |s| == |t|
    ensures Update(poly, 0, Bv(Damage(s, t))) == Xor(Update(poly, c, Bv(s)), Update(poly, c, Bv(t)))
  {
    hide Xor, Damage;
    XorTwice(c, c);
    UpdateIsLinear(poly, c, c, s, t);
  }

  predicate Zeros(s: seq<u8>) {
    forall i :: 0 <= i < |s| ==> s[i] == 0
  }

  lemma {:induction false} NoDamage(s: seq<u8>)
    ensures Zeros(Damage(s, s))
  {
    if s != [] {
      assert Bv8(Differ(s[0], s[0])) as int == 0;
      NoDamage(s[1..]);
    }
  }

  lemma {:induction false} DamageConcat(s: seq<u8>, t: seq<u8>, v: seq<u8>, w: seq<u8>)
    requires |s| == |t| && |v| == |w|
    ensures Damage(s + v, t + w) == Damage(s, t) + Damage(v, w)
  {
    hide Differ;
    if s == [] {
      assert s + v == v && t + w == w;
    } else {
      assert (s + v)[1..] == s[1..] + v && (t + w)[1..] == t[1..] + w;
      DamageConcat(s[1..], t[1..], v, w);
    }
  }

  /** Undamaged bytes in front do not matter. */
  lemma {:induction false} LeadingZeros(poly: bv16, z: seq<u8>, w: seq<u8>)
    requires Zeros(z)
    ensures Update(poly, 0, Bv(z + w)) == Update(poly, 0, Bv(w))
  {
    hide ByteStep;
    if z == [] {
      assert z + w == w;
    } else {
      ZeroByte(poly);
      FirstByte(poly, 0, z + w);
      assert (z + w)[1..] == z[1..] + w;
      LeadingZeros(poly, z[1..], w);
    }
  }

  lemma ZeroByte(poly: bv16)
    ensures ByteStep(poly, 0, Bv8(0)) == 0
  {
    ZeroSteps(poly, 8);
  }

  lemma {:induction false} ZeroSteps(poly: bv16, n: nat)
    ensures Iterate(Stepper(poly), n, 0) == 0
  {
    if n > 0 {
      assert BitStep(poly, 0) == 0;
      ZeroSteps(poly, n - 1);
    }
  }

  // ---------- the checksum field ----------

  function Join(high: byte, low: byte): bv16 {
    ((high as bv16) << 8) | (low as bv16)
  }

  lemma JoinHalves(high: byte, low: byte, c: bv16)
    requires c == Join(high, low)
    ensures (c >> 8) as bv8 == high && (c & 0xFF) as bv8 == low
  {
  }

  lemma WordHalves(c: bv16)
    ensures Word(c) == 256 * (((c >> 8) as bv8) as int) + (((c & 0xFF) as bv8) as int)
  {
  }

  lemma WordOfJoin(high: byte, low: byte)
    ensures Word(Join(high, low)) == 256 * (high as int) + (low as int)
  {
    hide Word;
    var c := Join(high, low);
    JoinHalves(high, low, c);
    WordHalves(c);
  }

  lemma JoinXor(h: byte, l: byte, h': byte, l': byte)
    ensures Join(h ^ h', l ^ l') == Xor(Join(h, l), Join(h', l'))
  {
  }

  /** A checksum field as the register compares it. */
  function Field(high: u8, low: u8): (c: bv16)
    ensures Word(c) == 256 * high + low
  {
    WordOfJoin(Bv8(high), Bv8(low));
    Join(Bv8(high), Bv8(low))
  }

  lemma FieldDiffer(h: u8, l: u8, h': u8, l': u8)
    ensures Field(Differ(h, h'), Differ(l, l')) == Xor(Field(h, l), Field(h', l'))
  {
    hide Join, Differ, Bv8, Xor, Word;
    JoinXor(Bv8(h), Bv8(l), Bv8(h'), Bv8(l'));
  }

  /** A register has the value of a field exactly when it is the field's bit-vector. */
  lemma WordIsField(c: bv16, high: u8, low: u8)
    ensures Word(c) == 256 * high + low <==> c == Field(high, low)
  {
    hide Word, Field;
    if Word(c) == 256 * high + low {
      WordInjective(c, Field(high, low));
    }
  }
}
