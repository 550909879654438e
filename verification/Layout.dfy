/**
 The message generator of src/mavlink/generator/generator.go over every field list: the stable sort by
 width, the byte offsets, and the two facts that make the order of declaration harmless.
 */
module MavlinkLayout {
  import opened Bytes

  datatype CType =
    | Char | Int8 | UInt8 | MavlinkVersion | Int16 | UInt16 | Int32 | UInt32 | Float | Int64 | UInt64 | Double
  {
    function BitSize(): (n: nat)
      ensures n == 8 || n == 16 || n == 32 || n == 64
    {
      match this
      case Char | Int8 | UInt8 | MavlinkVersion => 8
      case Int16 | UInt16 => 16
      case Int32 | UInt32 | Float => 32
      case Int64 | UInt64 | Double => 64
    }
  }

  /** A declared field; an array length of zero is a scalar. */
  datatype Field = Field(ctype: CType, arrayLen: nat, name: seq<u8>)
  {
    function Width(): (w: nat)
      ensures w == 1 || w == 2 || w == 4 || w == 8
    {
      ctype.BitSize() / 8
    }

    function Count(): (n: nat)
      ensures n > 0
    {
      if arrayLen > 0 then arrayLen else 1
    }

    function SizeInBytes(): nat {
      if arrayLen > 0 then ctype.BitSize() / 8 * arrayLen else ctype.BitSize() / 8
    }
  }

  function Size(fs: seq<Field>): nat {
    if fs == [] then 0 else fs[0].SizeInBytes() + Size(fs[1..])
  }

  // ---------- the stable sort ----------

  function OfWidth(fs: seq<Field>, w: nat): seq<Field> {
    if fs == [] then []
    else if fs[0].Width() == w then [fs[0]] + OfWidth(fs[1..], w)
    else OfWidth(fs[1..], w)
  }

  predicate Descending(fs: seq<Field>) {
    forall i, j :: 0 <= i < j < |fs| ==> fs[i].Width() >= fs[j].Width()
  }

  /** Wider fields first; fields of one width in the order they were declared. */
  ghost predicate StablySorted(declared: seq<Field>, fs: seq<Field>) {
    Descending(fs) && forall w: nat :: OfWidth(fs, w) == OfWidth(declared, w)
  }

  function Arranged(fs: seq<Field>): seq<Field> {
    OfWidth(fs, 8) + OfWidth(fs, 4) + OfWidth(fs, 2) + OfWidth(fs, 1)
  }

  lemma {:induction false} OfWidthConcat(a: seq<Field>, b: seq<Field>, w: nat)
    ensures OfWidth(a + b, w) == OfWidth(a, w) + OfWidth(b, w)
  {
    if a == [] {
      assert a + b == b;
    } else {
      assert (a + b)[1..] == a[1..] + b;
      OfWidthConcat(a[1..], b, w);
    }
  }

  lemma {:induction false} DescendingIsArranged(fs: seq<Field>)
    requires Descending(fs)
    ensures fs == Arranged(fs)
  {
    hide Field.Width;
    if fs != [] {
      var f, rest := fs[0], fs[1..];
      DescendingIsArranged(rest);
      NoneWider(rest, f.Width());
      WidestFirst(f, rest, fs);
    }
  }

  lemma WidestFirst(f: Field, rest: seq<Field>, fs: seq<Field>)
    requires fs == [f] + rest
    requires forall v: nat :: v > f.Width() ==> OfWidth(rest, v) == []
    ensures Arranged(fs) == [f] + Arranged(rest)
  {
    hide Field.Width;
    assert fs[1..] == rest;
    var a, b, c, d := OfWidth(rest, 8), OfWidth(rest, 4), OfWidth(rest, 2), OfWidth(rest, 1);
    if f.Width() == 8 {
      assert Arranged(fs) == ([f] + a) + b + c + d;
    } else if f.Width() == 4 {
      assert Arranged(fs) == a + ([f] + b) + c + d;
    } else if f.Width() == 2 {
      assert Arranged(fs) == a + b + ([f] + c) + d;
    } else {
      assert Arranged(fs) == a + b + c + ([f] + d);
    }
  }

  lemma {:induction false} NoneWider(fs: seq<Field>, w: nat)
    requires forall f <- fs :: f.Width() <= w
    ensures forall v: nat :: v > w ==> OfWidth(fs, v) == []
  {
    if fs != [] {
      NoneWider(fs[1..], w);
    }
  }

  /** A stable sort has one possible outcome, so the library's algorithm does not matter. */
  lemma StableSortUnique(declared: seq<Field>, fs: seq<Field>)
    requires StablySorted(declared, fs)
    ensures fs == Arranged(declared)
  {
    DescendingIsArranged(fs);
  }

  lemma {:induction false} OfWidthOnly(fs: seq<Field>, w: nat)
    ensures forall f <- OfWidth(fs, w) :: f.Width() == w
  {
    hide Field.Width;
    if fs != [] {
      OfWidthOnly(fs[1..], w);
    }
  }

  lemma {:induction false} OfWidthTwice(fs: seq<Field>, w: nat, v: nat)
    ensures OfWidth(OfWidth(fs, w), v) == if v == w then OfWidth(fs, w) else []
  {
    hide Field.Width;
    if fs != [] {
      OfWidthTwice(fs[1..], w, v);
      if fs[0].Width() == w {
        assert OfWidth(fs, w)[1..] == OfWidth(fs[1..], w);
      }
    }
  }

  lemma ArrangedKeepsWidth(fs: seq<Field>, w: nat)
    ensures OfWidth(Arranged(fs), w) == OfWidth(fs, w)
  {
    hide OfWidth;
    var a, b, c, d := OfWidth(fs, 8), OfWidth(fs, 4), OfWidth(fs, 2), OfWidth(fs, 1);
    OfWidthConcat(a + b + c, d, w);
    OfWidthConcat(a + b, c, w);
    OfWidthConcat(a, b, w);
    OfWidthTwice(fs, 8, w);
    OfWidthTwice(fs, 4, w);
    OfWidthTwice(fs, 2, w);
    OfWidthTwice(fs, 1, w);
    OfWidthElsewhere(fs, w);
  }

  lemma ArrangedIsDescending(fs: seq<Field>)
    ensures Descending(Arranged(fs))
  {
    hide OfWidth, Field.Width;
    var a, b, c := OfWidth(fs, 8), OfWidth(fs, 4), OfWidth(fs, 2);
    OfWidthOnly(fs, 8);
    OfWidthOnly(fs, 4);
    OfWidthOnly(fs, 2);
    OfWidthOnly(fs, 1);
    assert forall i :: 0 <= i < |Arranged(fs)| ==>
      Arranged(fs)[i].Width()
      == if i < |a| then 8 else if i < |a| + |b| then 4 else if i < |a| + |b| + |c| then 2 else 1;
  }

  lemma ArrangedIsStablySorted(fs: seq<Field>)
    ensures StablySorted(fs, Arranged(fs))
  {
    hide Arranged, OfWidth;
    ArrangedIsDescending(fs);
    forall w: nat ensures OfWidth(Arranged(fs), w) == OfWidth(fs, w) {
      ArrangedKeepsWidth(fs, w);
    }
  }

  lemma {:induction false} OfWidthElsewhere(fs: seq<Field>, w: nat)
    ensures w != 1 && w != 2 && w != 4 && w != 8 ==> OfWidth(fs, w) == []
  {
    if fs != [] {
      OfWidthElsewhere(fs[1..], w);
    }
  }

  /** Width by width, a and b list the same fields in the same order. */
  ghost predicate SameWithinWidths(a: seq<Field>, b: seq<Field>) {
    forall w: nat :: OfWidth(a, w) == OfWidth(b, w)
  }

  /** Reordering a declaration leaves its layout alone exactly when it only moves fields across widths. */
  lemma LayoutIgnoresCrossWidthOrder(a: seq<Field>, b: seq<Field>)
    ensures Arranged(a) == Arranged(b) <==> SameWithinWidths(a, b)
  {
    if Arranged(a) == Arranged(b) {
      forall w: nat ensures OfWidth(a, w) == OfWidth(b, w) {
        ArrangedKeepsWidth(a, w);
        ArrangedKeepsWidth(b, w);
      }
    }
    if SameWithinWidths(a, b) {
      assert OfWidth(a, 8) == OfWidth(b, 8) && OfWidth(a, 4) == OfWidth(b, 4);
      assert OfWidth(a, 2) == OfWidth(b, 2) && OfWidth(a, 1) == OfWidth(b, 1);
      assert Arranged(a) == Arranged(b);
    }
  }

  // ---------- offsets ----------

  function Offset(fs: seq<Field>, i: nat): nat
    requires i <= |fs|
  {
    Size(fs[..i])
  }

  lemma {:induction false} SizeConcat(a: seq<Field>, b: seq<Field>)
    ensures Size(a + b) == Size(a) + Size(b)
  {
    if a == [] {
      assert a + b == b;
    } else {
      assert (a + b)[1..] == a[1..] + b;
      SizeConcat(a[1..], b);
    }
  }

  lemma OffsetStep(fs: seq<Field>, i: nat)
    requires i < |fs|
    ensures Offset(fs, i + 1) == Offset(fs, i) + fs[i].SizeInBytes()
    ensures fs[i].SizeInBytes() > 0
  {
    assert fs[..i + 1] == fs[..i] + [fs[i]];
    SizeConcat(fs[..i], [fs[i]]);
  }

  lemma {:induction false} OffsetsIncrease(fs: seq<Field>, i: nat, j: nat)
    requires i <= j <= |fs|
    ensures Offset(fs, i) <= Offset(fs, j)
    decreases j - i
  {
    if i < j {
      OffsetStep(fs, i);
      OffsetsIncrease(fs, i + 1, j);
    }
  }

  /** Byte k of the payload belongs to field i. */
  predicate Covers(fs: seq<Field>, i: nat, k: nat)
    requires i < |fs|
  {
    Offset(fs, i) <= k < Offset(fs, i) + fs[i].SizeInBytes()
  }

  /** Every payload byte belongs to one field and to no other. */
  lemma FieldsTilePayload(fs: seq<Field>, k: nat)
    requires k < Size(fs)
    ensures exists i: nat :: i < |fs| && Covers(fs, i, k)
    ensures forall i: nat, j: nat :: i < |fs| && j < |fs| && Covers(fs, i, k) && Covers(fs, j, k) ==> i == j
  {
    assert fs[..|fs|] == fs;
    var i := FieldAt(fs, k, |fs|);
    assert Covers(fs, i, k);
    forall i: nat, j: nat | i < j < |fs| && Covers(fs, i, k) ensures !Covers(fs, j, k) {
      OffsetStep(fs, i);
      OffsetsIncrease(fs, i + 1, j);
    }
  }

  lemma {:induction false} FieldAt(fs: seq<Field>, k: nat, n: nat) returns (i: nat)
    requires n <= |fs| && k < Offset(fs, n)
    ensures i < n && Covers(fs, i, k)
  {
    OffsetStep(fs, n - 1);
    if k < Offset(fs, n - 1) {
      i := FieldAt(fs, k, n - 1);
    } else {
      i := n - 1;
    }
  }

  lemma {:induction false} SizeDivisible(fs: seq<Field>, w: nat)
    requires w == 1 || w == 2 || w == 4 || w == 8
    requires forall f <- fs :: f.Width() >= w
    ensures Size(fs) % w == 0
  {
    hide Field.SizeInBytes, Field.Width;
    if fs != [] {
      SizeDivisible(fs[1..], w);
      WiderIsMultiple(fs[0], w);
      MultiplesAdd(fs[0].SizeInBytes(), Size(fs[1..]), w);
    }
  }

  lemma MultiplesAdd(x: nat, y: nat, w: nat)
    requires w == 1 || w == 2 || w == 4 || w == 8
    requires x % w == 0 && y % w == 0
    ensures (x + y) % w == 0
  {
    if w == 8 {
      EightsAdd(x, y);
    } else if w == 4 {
      FoursAdd(x, y);
    } else if w == 2 {
      TwosAdd(x, y);
    }
  }

  lemma EightsAdd(x: nat, y: nat)
    requires x % 8 == 0 && y % 8 == 0
    ensures (x + y) % 8 == 0
  {
  }

  lemma FoursAdd(x: nat, y: nat)
    requires x % 4 == 0 && y % 4 == 0
    ensures (x + y) % 4 == 0
  {
  }

  lemma TwosAdd(x: nat, y: nat)
    requires x % 2 == 0 && y % 2 == 0
    ensures (x + y) % 2 == 0
  {
  }

  lemma FieldBytes(f: Field)
    ensures f.SizeInBytes() == f.Width() * f.Count()
  {
  }

  lemma WiderIsMultiple(f: Field, w: nat)
    requires w == 1 || w == 2 || w == 4 || w == 8
    requires f.Width() >= w
    ensures f.SizeInBytes() % w == 0
  {
    hide Field.Width, Field.Count, Field.SizeInBytes;
    FieldBytes(f);
    var n := f.Count();
    if f.Width() == 8 {
      EightTimes(n, w);
    } else if f.Width() == 4 {
      FourTimes(n, w);
    } else if f.Width() == 2 {
      TwoTimes(n, w);
    }
  }

  lemma TwoTimes(n: nat, w: nat)
    requires w == 1 || w == 2
    ensures (2 * n) % w == 0
  {
  }

  lemma FourTimes(n: nat, w: nat)
    requires w == 1 || w == 2 || w == 4
    ensures (4 * n) % w == 0
  {
    if w == 2 {
      TwoTimes(2 * n, 2);
    }
  }

  lemma EightTimes(n: nat, w: nat)
    requires w == 1 || w == 2 || w == 4 || w == 8
    ensures (8 * n) % w == 0
  {
    if w == 4 {
      FourTimes(2 * n, 4);
    } else if w == 2 {
      TwoTimes(4 * n, 2);
    }
  }

  /** Sorted widest first, every field starts at a multiple of its element width. */
  lemma OffsetsAligned(fs: seq<Field>, i: nat)
    requires Descending(fs) && i < |fs|
    ensures Offset(fs, i) % fs[i].Width() == 0
  {
    SizeDivisible(fs[..i], fs[i].Width());
  }
}
