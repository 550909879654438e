/**
 A message under generation: its field list is sorted in place, offsets are assigned in the sorted
 order, and the CRC_EXTRA byte is hashed from the sorted list (src/mavlink/generator/generator.go).
 */
module MavlinkGenerator {
  import opened Bytes
  import opened ReflectedCrc
  import opened X25Checksum
  import opened MavlinkLayout
  import opened CrcDifferences
  import opened GoTypes

  function Ascii(s: string): seq<u8> {
    if s == "" then [] else [(s[0] as int) % 256] + Ascii(s[1..])
  }

  /** What one field contributes to the hash: type name, field name, and the length of an array. */
  function FieldText(f: Field): seq<u8> {
    Ascii(HashedType(TypeText(f))) + Ascii(" ") + f.name + Ascii(" ")
      + (if f.arrayLen > 0 then [LengthByte(f.arrayLen)] else [])
  }

  function FieldsText(fs: seq<Field>): seq<u8> {
    if fs == [] then [] else FieldText(fs[0]) + FieldsText(fs[1..])
  }

  /** The two halves of a sixteen-bit hash folded into one byte. */
  function FoldHalves(c: bv16): u8 {
    (((c & 0xFF) ^ (c >> 8)) as bv8) as int
  }

  function CrcExtraOf(name: seq<u8>, fs: seq<Field>): u8 {
    FoldHalves(Register(name + Ascii(" ") + FieldsText(fs)))
  }

  // ---------- what is hashed, byte by byte ----------

  lemma {:induction false} AsciiAt(s: string, k: nat)
    requires k < |s|
    ensures |Ascii(s)| == |s| && Ascii(s)[k] == (s[k] as int) % 256
  {
    if k > 0 {
      AsciiAt(s[1..], k - 1);
    } else if |s| > 1 {
      AsciiAt(s[1..], 0);
    }
  }

  /** The name of a type as the hash has it. */
  function HashedName(f: Field): (s: string)
    ensures s != ""
  {
    NoBracket(f.ctype);
    if f.ctype.MavlinkVersion? && f.arrayLen == 0 then "uint8_t" else CName(f.ctype)
  }

  /** A field's text: type name, space, field name, space, and for an array one byte of its length. */
  lemma FieldTextByPlace(f: Field)
    ensures var t, c, n := FieldText(f), HashedName(f), |HashedName(f)|;
            && |t| == n + 2 + |f.name| + (if f.arrayLen > 0 then 1 else 0)
            && (forall k :: 0 <= k < n ==> t[k] == (c[k] as int) % 256)
            && t[n] == 32 && t[n + 1..n + 1 + |f.name|] == f.name && t[n + 1 + |f.name|] == 32
            && (f.arrayLen > 0 ==> t[n + 2 + |f.name|] == f.arrayLen % 256)
  {
    hide HashedType, TypeText, CName;
    HashedTypeIs(f);
    var c := HashedName(f);
    assert HashedType(TypeText(f)) == c;
    Space();
    forall k | 0 <= k < |c| ensures |Ascii(c)| == |c| && Ascii(c)[k] == (c[k] as int) % 256 {
      AsciiAt(c, k);
    }
    AsciiAt(c, 0);
    Laid(Ascii(c), f.name, if f.arrayLen > 0 then [LengthByte(f.arrayLen)] else []);
  }

  lemma Space()
    ensures Ascii(" ") == [32]
  {
    assert " "[1..] == "";
  }

  lemma Laid(c: seq<u8>, name: seq<u8>, len: seq<u8>)
    ensures var t := c + [32] + name + [32] + len;
            && |t| == |c| + 2 + |name| + |len| && t[..|c|] == c && t[|c|] == 32
            && (forall k :: 0 <= k < |c| ==> t[k] == c[k])
            && t[|c| + 1..|c| + 1 + |name|] == name && t[|c| + 1 + |name|] == 32
            && t[|c| + 2 + |name|..] == len && (len != [] ==> t[|c| + 2 + |name|] == len[0])
  {
  }

  /** The fields' texts follow one another in the order of the list. */
  lemma {:induction false} FieldsTextInOrder(a: seq<Field>, f: Field, b: seq<Field>)
    ensures FieldsText([]) == [] && FieldsText(a + [f] + b) == FieldsText(a) + FieldText(f) + FieldsText(b)
  {
    hide FieldText;
    if a == [] {
      assert a + [f] + b == [f] + b && ([f] + b)[1..] == b;
    } else {
      assert (a + [f] + b)[1..] == a[1..] + [f] + b;
      FieldsTextInOrder(a[1..], f, b);
    }
  }

  /** The text under the hash: the message's name, a space, and the fields. */
  function HashedText(name: seq<u8>, fs: seq<Field>): seq<u8> {
    name + [32] + FieldsText(fs)
  }

  lemma HalvesXor(c: bv16, h: byte, l: byte)
    requires h == (c >> 8) as bv8 && l == (c & 0xFF) as bv8
    ensures ((c & 0xFF) ^ (c >> 8)) as bv8 == l ^ h
  {
  }

  lemma XorBack(l: byte, h: byte)
    ensures (l ^ h) ^ h == l
  {
  }

  lemma FoldIs(c: bv16, h: byte, l: byte)
    requires h == (c >> 8) as bv8 && l == (c & 0xFF) as bv8
    ensures Bv8(FoldHalves(c)) == l ^ h
  {
    hide Bv8;
    HalvesXor(c, h, l);
    SameByte(Bv8(FoldHalves(c)), l ^ h);
  }

  lemma HalvesAre(c: bv16, h: byte, l: byte)
    requires h == (c >> 8) as bv8 && l == (c & 0xFF) as bv8
    ensures Bv8(Word(c) / 256) == h && Bv8(Word(c) % 256) == l
  {
    hide Bv8, Word;
    WordHalves(c);
    Digits(Word(c), h as int, l as int);
    SameByte(Bv8(Word(c) / 256), h);
    SameByte(Bv8(Word(c) % 256), l);
  }

  lemma Digits(v: nat, h: nat, l: nat)
    requires v == 256 * h + l && l < 256
    ensures v / 256 == h && v % 256 == l
  {
  }

  /** The extra byte is the low byte of the hash with its high byte exclusive-ored in. */
  lemma CrcExtraFolds(name: seq<u8>, fs: seq<Field>)
    ensures var sum, x := Word(Register(HashedText(name, fs))), CrcExtraOf(name, fs);
            Bv8(x) ^ Bv8(sum / 256) == Bv8(sum % 256)
  {
    hide Bv8, Word, Register, FieldsText, FoldHalves;
    Space();
    var c := Register(HashedText(name, fs));
    var h, l := (c >> 8) as bv8, (c & 0xFF) as bv8;
    FoldIs(c, h, l);
    HalvesAre(c, h, l);
    XorBack(l, h);
  }

  lemma {:induction false} FieldsTextSnoc(fs: seq<Field>, f: Field)
    ensures FieldsText(fs + [f]) == FieldsText(fs) + FieldText(f)
  {
    hide FieldText;
    if fs == [] {
      assert [f][1..] == [];
    } else {
      assert (fs + [f])[1..] == fs[1..] + [f];
      FieldsTextSnoc(fs[1..], f);
    }
  }

  class Message {
    const name: seq<u8>
    var fields: seq<Field>
    var byteOffset: seq<nat>   // one per field, once arranged

    constructor (name: seq<u8>, fields: seq<Field>)
      ensures this.name == name && this.fields == fields && byteOffset == []
    {
      this.name := name;
      this.fields := fields;
      byteOffset := [];
    }

    predicate Less(i: nat, j: nat)
      requires i < |fields| && j < |fields|
      reads this
    {
      fields[i].ctype.BitSize() < fields[j].ctype.BitSize()
    }

    method Swap(i: nat, j: nat)
      requires i < |fields| && j < |fields|
      modifies this`fields
      ensures fields == old(fields)[i := old(fields)[j]][j := old(fields)[i]]
    {
      fields := fields[i := fields[j]][j := fields[i]];
    }

    /** sort.Stable(sort.Reverse(m)): insertion by adjacent swaps under the reversed order. */
    method SortFields()
      modifies this`fields
      ensures fields == Arranged(old(fields))
    {
      hide OfWidth, InsertedFrom, Arranged;
      var n := |fields|;
      for i := 0 to n
        invariant |fields| == n
        invariant Descending(fields[..i])
        invariant SameWithinWidths(old(fields), fields)
      {
        var j := i;
        InsertionStarts(fields, i);
        while j > 0 && Less(j - 1, j)
          invariant 0 <= j <= i && |fields| == n
          invariant InsertedFrom(fields, i, j)
          invariant SameWithinWidths(old(fields), fields)
        {
          ghost var before := fields;
          Swap(j, j - 1);
          AdjacentSwap(before, j);
          InsertedSwap(before, fields, i, j);
          j := j - 1;
        }
        InsertionDone(fields, i, j);
      }
      assert fields[..n] == fields;
      StableSortUnique(old(fields), fields);
    }

    method AssignOffsets()
      modifies this`byteOffset
      ensures |byteOffset| == |fields|
      ensures forall i :: 0 <= i < |fields| ==> byteOffset[i] == Offset(fields, i)
    {
      var offset := 0;
      byteOffset := [];
      for i := 0 to |fields|
        invariant |byteOffset| == i && offset == Offset(fields, i)
        invariant forall k :: 0 <= k < i ==> byteOffset[k] == Offset(fields, k)
      {
        byteOffset := byteOffset + [offset];
        OffsetStep(fields, i);
        offset := offset + fields[i].SizeInBytes();
      }
    }

    method CRCExtra() returns (x: u8)
      ensures x == CrcExtraOf(name, fields)
      ensures var sum := Word(Register(HashedText(name, fields))); Bv8(x) ^ Bv8(sum / 256) == Bv8(sum % 256)
    {
      hide FieldText, Ascii, ByteStep, HashedType, TypeText, HashedText, Bv8, Word, FoldHalves;
      var hash := new X25();
      var _ := hash.Write(name + Ascii(" "));
      assert name + Ascii(" ") + FieldsText(fields[..0]) == name + Ascii(" ");
      for i := 0 to |fields|
        invariant fresh(hash)
        invariant hash.crc == Register(name + Ascii(" ") + FieldsText(fields[..i]))
      {
        var f := fields[i];
        ghost var done := name + Ascii(" ") + FieldsText(fields[..i]);
        var _ := hash.Write(Ascii(HashedType(TypeText(f))) + Ascii(" ") + f.name + Ascii(" "));
        if f.arrayLen > 0 {
          var _ := hash.Write([LengthByte(f.arrayLen)]);
        }
        HashedField(done, f);
        assert fields[..i + 1] == fields[..i] + [f];
        FieldsTextSnoc(fields[..i], f);
        Appended(name + Ascii(" "), FieldsText(fields[..i]), FieldText(f));
      }
      assert fields[..|fields|] == fields;
      x := FoldHalves(hash.crc);
      CrcExtraFolds(name, fields);
    }

    /** The generator's order of work: sort, lay out, then hash what was sorted. */
    method Generate() returns (crcExtra: u8)
      modifies this
      ensures fields == Arranged(old(fields)) && StablySorted(old(fields), fields)
      ensures |byteOffset| == |fields|
      ensures forall i :: 0 <= i < |fields| ==>
        byteOffset[i] == Offset(fields, i) && byteOffset[i] % fields[i].Width() == 0
      ensures crcExtra == CrcExtraOf(name, Arranged(old(fields)))
      ensures var sum := Word(Register(HashedText(name, Arranged(old(fields)))));
              Bv8(crcExtra) ^ Bv8(sum / 256) == Bv8(sum % 256)
    {
      hide Bv8, Word, Register, HashedText;
      SortFields();
      ArrangedIsStablySorted(old(fields));
      AssignOffsets();
      forall i | 0 <= i < |fields| ensures byteOffset[i] % fields[i].Width() == 0 {
        OffsetsAligned(fields, i);
      }
      crcExtra := CRCExtra();
    }
  }

  lemma Appended(a: seq<u8>, b: seq<u8>, c: seq<u8>)
    ensures a + b + c == a + (b + c)
  {
  }

  lemma HashedField(done: seq<u8>, f: Field)
    ensures var t := Ascii(HashedType(TypeText(f))) + Ascii(" ") + f.name + Ascii(" ");
            var c := Update(POLY, Register(done), Bv(t));
            Register(done + FieldText(f)) ==
              if f.arrayLen > 0 then Update(POLY, c, Bv([LengthByte(f.arrayLen)])) else c
  {
    hide ByteStep, Bv, Ascii, HashedType, TypeText;
    var t := Ascii(HashedType(TypeText(f))) + Ascii(" ") + f.name + Ascii(" ");
    UpdateConcat(POLY, INITIAL, done, t);
    if f.arrayLen > 0 {
      assert done + FieldText(f) == (done + t) + [LengthByte(f.arrayLen)];
      UpdateConcat(POLY, INITIAL, done + t, [LengthByte(f.arrayLen)]);
    } else {
      assert done + FieldText(f) == done + t;
    }
  }

  // ---------- the insertion step ----------

  /** Sorted up to i except that the element at j may still have to move left. */
  ghost predicate InsertedFrom(fs: seq<Field>, i: nat, j: nat)
    requires j <= i < |fs|
  {
    && (forall x, y :: 0 <= x < y <= i && x != j && y != j ==> fs[x].Width() >= fs[y].Width())
    && (forall y :: j < y <= i ==> fs[j].Width() > fs[y].Width())
  }

  lemma InsertionStarts(fs: seq<Field>, i: nat)
    requires i < |fs| && Descending(fs[..i])
    ensures InsertedFrom(fs, i, i)
  {
    hide Field.Width;
    forall x, y | 0 <= x < y < i ensures fs[x].Width() >= fs[y].Width() {
      assert fs[x] == fs[..i][x] && fs[y] == fs[..i][y];
    }
  }

  lemma InsertedSwap(before: seq<Field>, after: seq<Field>, i: nat, j: nat)
    requires 0 < j <= i < |before| && before[j - 1].Width() < before[j].Width()
    requires after == before[j := before[j - 1]][j - 1 := before[j]]
    requires InsertedFrom(before, i, j)
    ensures InsertedFrom(after, i, j - 1)
  {
    hide Field.Width;
  }

  lemma AdjacentSwap(before: seq<Field>, j: nat)
    requires 0 < j < |before| && before[j - 1].Width() != before[j].Width()
    ensures SameWithinWidths(before, before[j := before[j - 1]][j - 1 := before[j]])
  {
    hide Field.Width, OfWidth;
    var after := before[j := before[j - 1]][j - 1 := before[j]];
    var x, y, l, r := before[j - 1], before[j], before[..j - 1], before[j + 1..];
    assert before == l + [x, y] + r && after == l + [y, x] + r;
    forall w: nat ensures OfWidth(before, w) == OfWidth(after, w) {
      OfWidthConcat(l + [x, y], r, w);
      OfWidthConcat(l, [x, y], w);
      OfWidthConcat(l + [y, x], r, w);
      OfWidthConcat(l, [y, x], w);
      PairSwap(x, y, w);
    }
  }

  lemma PairSwap(x: Field, y: Field, w: nat)
    requires x.Width() != y.Width()
    ensures OfWidth([x, y], w) == OfWidth([y, x], w)
  {
    hide Field.Width;
    assert [x, y][1..] == [y] && [y, x][1..] == [x] && [x][1..] == [] && [y][1..] == [];
  }

  lemma InsertionDone(fs: seq<Field>, i: nat, j: nat)
    requires j <= i < |fs| && InsertedFrom(fs, i, j)
    requires j > 0 ==> fs[j - 1].Width() >= fs[j].Width()
    ensures Descending(fs[..i + 1])
  {
    hide Field.Width;
  }
}
