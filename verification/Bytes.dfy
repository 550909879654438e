/**
 Bytes and sixteen-bit words as bounded integers, and their passage to and from the bit-vectors the
 checksums are computed on.
 */
module Bytes {

  type u8 = x: int | 0 <= x < 0x100
  type u16 = x: int | 0 <= x < 0x1_0000

  datatype Option<+T> = None | Some(value: T)

  // ---------- bit-vector views ----------

  lemma Successor(c: bv8)
    requires c as int < 255
    ensures (c + 1) as int == c as int + 1
  {
  }

  /** The bit-vector of value b, counted up from zero. */
  function Bv8(b: u8): (c: bv8)
    ensures c as int == b
  {
    if b == 0 then 0 else Successor(Bv8(b - 1)); Bv8(b - 1) + 1
  }

  function Word(c: bv16): u16 {
    c as int
  }

  /** The bytes of a message as the checksums see them. */
  function Bv(s: seq<u8>): (t: seq<bv8>)
    ensures |t| == |s|
  {
    if s == [] then [] else [Bv8(s[0])] + Bv(s[1..])
  }

  lemma Bv8Injective(a: u8, b: u8)
    requires Bv8(a) == Bv8(b)
    ensures a == b
  {
    hide Bv8;
  }

  lemma SameByte(x: bv8, y: bv8)
    requires x as int == y as int
    ensures x == y
  {
    assert (x as int) as bv8 == x && (y as int) as bv8 == y;
  }

  lemma WordInjective(c: bv16, d: bv16)
    requires Word(c) == Word(d)
    ensures c == d
  {
    assert (Word(c) as bv16) == c && (Word(d) as bv16) == d;
  }

  lemma {:induction false} BvAt(s: seq<u8>, i: nat)
    requires i < |s|
    ensures Bv(s)[i] == Bv8(s[i])
  {
    hide Bv8;
    if i > 0 {
      BvAt(s[1..], i - 1);
    }
  }

  lemma BvInjective(s: seq<u8>, t: seq<u8>)
    requires Bv(s) == Bv(t)
    ensures s == t
  {
    hide Bv8;
    forall i | 0 <= i < |s| ensures s[i] == t[i] {
      BvAt(s, i);
      BvAt(t, i);
      Bv8Injective(s[i], t[i]);
    }
  }

  lemma {:induction false} BvConcat(s: seq<u8>, t: seq<u8>)
    ensures Bv(s + t) == Bv(s) + Bv(t)
  {
    hide Bv8;
    if s == [] {
      assert s + t == t;
    } else {
      assert (s + t)[1..] == s[1..] + t;
      BvConcat(s[1..], t);
    }
  }

  // ---------- integers in bytes ----------

  /** What a conversion to byte keeps of a length. */
  function LengthByte(n: nat): u8 {
    n % 256
  }

  function U16ToBytes(v: u16): (s: seq<u8>)
    ensures |s| == 2
  {
    [v % 256, v / 256]
  }

  function BytesToU16(lo: u8, hi: u8): u16 {
    hi * 256 + lo
  }
}
