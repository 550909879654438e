/**
 The running checksum of src/mavlink/x25/x25.go: a register updated in place with a table-free
 shortcut per byte, proved to be the bit-serial CRC of polynomial 0x8408 (Appendix C.1 of RFC 1662)
 started at 0xFFFF and left without its final complement.
 */
module X25Checksum {
  import opened Bytes
  import opened Folds
  import opened ReflectedCrc

  const POLY: bv16 := 0x8408
  const INITIAL: bv16 := 0xFFFF

  /** The register after a whole message, bit by bit. */
  function Register(s: seq<u8>): bv16 {
    Update(POLY, INITIAL, Bv(s))
  }

  // ---------- the shortcut ----------

  /** Four shift steps at once: the leaving nibble comes back at the three places of the polynomial. */
  function FourSteps(x: bv16): bv16 {
    (x >> 4) ^ ((x & 0xF) << 12) ^ ((x & 0xF) << 7) ^ (x & 0xF)
  }

  function TwoSteps(x: bv16): bv16 {
    (x >> 2) ^ ((x & 3) << 14) ^ ((x & 3) << 9) ^ ((x & 3) << 2)
  }

  function OneStep(x: bv16): bv16 {
    (x >> 1) ^ ((x & 1) << 15) ^ ((x & 1) << 10) ^ ((x & 1) << 3)
  }

  lemma OneByForm(x: bv16)
    ensures BitStep(POLY, x) == OneStep(x)
  {
    if x & 1 == 1 {
      assert OneStep(x) == (x >> 1) ^ 0x8408;
    }
  }

  lemma OneOnes(x: bv16)
    ensures OneStep(OneStep(x)) == TwoSteps(x)
  {
  }

  lemma TwoAtOnce(x: bv16)
    ensures BitStep(POLY, BitStep(POLY, x)) == TwoSteps(x)
  {
    hide BitStep, OneStep, TwoSteps;
    OneByForm(x);
    OneByForm(OneStep(x));
    OneOnes(x);
  }

  lemma TwoTwos(x: bv16)
    ensures TwoSteps(TwoSteps(x)) == FourSteps(x)
  {
  }

  lemma NibbleSteps(x: bv16)
    ensures BitStep(POLY, BitStep(POLY, BitStep(POLY, BitStep(POLY, x)))) == FourSteps(x)
  {
    hide BitStep, TwoSteps, FourSteps;
    TwoAtOnce(x);
    TwoAtOnce(TwoSteps(x));
    TwoTwos(x);
  }

  lemma FourStepsAreSerial(x: bv16)
    ensures Iterate(Stepper(POLY), 4, x) == FourSteps(x)
  {
    hide BitStep, FourSteps;
    NibbleSteps(x);
    IterateFour(Stepper(POLY), x);
  }

  lemma TwoNibbles(x: bv16)
    ensures var t := (x & 0xFF) ^ ((x & 0xF) << 4);
            (x >> 8) ^ (t << 8) ^ (t << 3) ^ (t >> 4) == FourSteps(FourSteps(x))
  {
  }

  lemma LowByteMixed(c: bv16, b: byte, x: bv16, t0: byte)
    requires x == c ^ (b as bv16) && t0 == b ^ ((c & 0xFF) as byte)
    ensures c >> 8 == x >> 8 && t0 as bv16 == x & 0xFF
  {
  }

  lemma NibbleSpread(t0: byte, x: bv16)
    requires t0 as bv16 == x & 0xFF
    ensures (t0 ^ (t0 << 4)) as bv16 == (x & 0xFF) ^ ((x & 0xF) << 4)
  {
  }

  lemma ShortcutIsFourFour(c: bv16, b: byte, x: bv16, t0: byte, t: bv16)
    requires x == c ^ (b as bv16) && t0 == b ^ ((c & 0xFF) as byte) && t == (t0 ^ (t0 << 4)) as bv16
    ensures (c >> 8) ^ (t << 8) ^ (t << 3) ^ (t >> 4) == FourSteps(FourSteps(x))
  {
    LowByteMixed(c, b, x, t0);
    NibbleSpread(t0, x);
    TwoNibbles(x);
  }

  /** Eight shift steps collapse to three shifted copies of one byte. */
  lemma ShortcutIsSerial(c: bv16, b: byte, t0: byte, t: byte, w: bv16, next: bv16)
    requires t0 == b ^ ((c & 0xFF) as byte) && t == t0 ^ (t0 << 4) && w == t as bv16
    requires next == (c >> 8) ^ (w << 8) ^ (w << 3) ^ (w >> 4)
    ensures next == ByteStep(POLY, c, b)
  {
    ShortcutFrom(c, b, c ^ (b as bv16), t0, w);
  }

  lemma ShortcutFrom(c: bv16, b: byte, x: bv16, t0: byte, t: bv16)
    requires x == c ^ (b as bv16) && t0 == b ^ ((c & 0xFF) as byte) && t == (t0 ^ (t0 << 4)) as bv16
    ensures (c >> 8) ^ (t << 8) ^ (t << 3) ^ (t >> 4) == ByteStep(POLY, c, b)
  {
    ShortcutIsFourFour(c, b, x, t0, t);
    IterateAdd(Stepper(POLY), 4, 4, x);
    FourStepsAreSerial(x);
    FourStepsAreSerial(FourSteps(x));
  }

  // ---------- the register's start ----------

  lemma InitialIsOnes()
    ensures Word(INITIAL) == 65535
  {
  }

  lemma ZeroMovesFresh()
    ensures ByteStep(POLY, INITIAL, Bv8(0)) == 0x0F87
  {
    hide ByteStep, Bv8;
    assert Bv8(0) as int == 0;
    ShortcutIsSerial(INITIAL, 0, 0xFF, 0x0F, 0x000F, 0x0F87);
  }

  /** Unlike a register started at zero, this one notices zero bytes in front of a message. */
  lemma LeadingZeroShows(s: seq<u8>)
    ensures Register([0] + s) != Register(s)
  {
    hide ByteStep;
    UpdateConcat(POLY, INITIAL, [0], s);
    assert Bv([0]) == [Bv8(0)];
    ZeroMovesFresh();
    assert Update(POLY, INITIAL, Bv([0])) == 0x0F87;
    if Register([0] + s) == Register(s) {
      forall x, y, b | ByteFeeder(POLY)(x, b) == ByteFeeder(POLY)(y, b) ensures x == y {
        ByteStepInjective(POLY, x, y, b);
      }
      FoldInjective(ByteFeeder(POLY), 0x0F87, INITIAL, Bv(s));
    }
  }

  /** One more byte of a message whose register is known. */
  lemma Fed(s: seq<u8>, b: u8, more: seq<u8>, c: bv16, v: byte, t0: byte, t: byte, w: bv16, next: bv16)
    requires Register(s) == c && v as int == b && more == s + [b]
    requires t0 == v ^ ((c & 0xFF) as byte) && t == t0 ^ (t0 << 4) && w == t as bv16
    requires next == (c >> 8) ^ (w << 8) ^ (w << 3) ^ (w >> 4)
    ensures Register(more) == next
  {
    hide ByteStep, Bv8;
    SameByte(Bv8(b), v);
    ShortcutIsSerial(c, v, t0, t, w, next);
    UpdateGrows(POLY, INITIAL, more, |s|);
    assert more[..|s|] == s && more[..|s| + 1] == more;
  }

  lemma OneToThree()
    ensures Register([49, 50, 51]) == 0x634b
  {
    assert Register([]) == INITIAL;
    hide Register;
    Fed([], 49, [49], 0xffff, 49, 0xce, 0x2e, 0x002e, 0x2f8d);
    Fed([49], 50, [49, 50], 0x2f8d, 50, 0xbf, 0x4f, 0x004f, 0x4d53);
    Fed([49, 50], 51, [49, 50, 51], 0x4d53, 51, 0x60, 0x60, 0x0060, 0x634b);
  }

  lemma OneToSix()
    ensures Register([49, 50, 51, 52, 53, 54]) == 0x198d
  {
    hide Register;
    OneToThree();
    Fed([49, 50, 51], 52, [49, 50, 51, 52], 0x634b, 52, 0x7f, 0x8f, 0x008f, 0x8b13);
    Fed([49, 50, 51, 52], 53, [49, 50, 51, 52, 53], 0x8b13, 53, 0x26, 0x46, 0x0046, 0x44bf);
    Fed([49, 50, 51, 52, 53], 54, [49, 50, 51, 52, 53, 54], 0x44bf, 54, 0x89, 0x19, 0x0019, 0x198d);
  }

  /** The check value of this CRC: that of the digits 1 to 9 in ASCII. */
  lemma CheckValue()
    ensures Register([49, 50, 51, 52, 53, 54, 55, 56, 57]) == 0x6f91
  {
    hide Register;
    OneToSix();
    Fed([49, 50, 51, 52, 53, 54], 55, [49, 50, 51, 52, 53, 54, 55], 0x198d, 55, 0xba, 0x1a, 0x001a, 0x1ac8);
    Fed([49, 50, 51, 52, 53, 54, 55], 56, [49, 50, 51, 52, 53, 54, 55, 56], 0x1ac8, 56, 0xf0, 0xf0, 0x00f0, 0xf795);
    Fed([49, 50, 51, 52, 53, 54, 55, 56], 57, [49, 50, 51, 52, 53, 54, 55, 56, 57],
        0xf795, 57, 0xac, 0x6c, 0x006c, 0x6f91);
  }

  // ---------- the class ----------

  class X25 {
    var crc: bv16

    constructor ()
      ensures crc == INITIAL && Word(crc) == 65535
    {
      crc := INITIAL;
      new;
      InitialIsOnes();
    }

    method Reset()
      modifies this
      ensures crc == INITIAL && Word(crc) == 65535
    {
      InitialIsOnes();
      crc := INITIAL;
    }

    method WriteByte(b: u8)
      modifies this
      ensures crc == ByteStep(POLY, old(crc), Bv8(b))
    {
      var c, v := crc, Bv8(b);
      var mixed := v ^ ((c & 0xFF) as bv8);
      var tmp := mixed ^ (mixed << 4);
      var w := tmp as bv16;
      var next := (c >> 8) ^ (w << 8) ^ (w << 3) ^ (w >> 4);
      ShortcutIsSerial(c, v, mixed, tmp, w, next);
      crc := next;
    }

    method Write(p: seq<u8>) returns (n: nat)
      modifies this
      ensures crc == Update(POLY, old(crc), Bv(p))
      ensures n == |p|
    {
      for i := 0 to |p|
        invariant crc == Update(POLY, old(crc), Bv(p[..i]))
      {
        UpdateGrows(POLY, old(crc), p, i);
        WriteByte(p[i]);
      }
      assert p[..|p|] == p;
      n := |p|;
    }

    method Sum16() returns (sum: u16)
      ensures sum == Word(crc)
    {
      sum := Word(crc);
    }
  }
}
