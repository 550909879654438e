/**
 The Pack and Unpack code the generator emits, run over an arbitrary arranged field list: fields are
 written at and read from their byte offsets, little end first.  Element values, floats included, are
 bit patterns, that is numbers below 256 to the power of the element width.
 */
module MavlinkPayload {
  import opened Bytes
  import opened MavlinkLayout

  // ---------- little-endian integers ----------

  function Range(w: nat): nat
    ensures Range(w) > 0
  {
    if w == 0 then 1 else 256 * Range(w - 1)
  }

  function LittleEndian(v: nat, w: nat): (s: seq<u8>)
    ensures |s| == w
  {
    if w == 0 then [] else [v % 256] + LittleEndian(v / 256, w - 1)
  }

  function Number(s: seq<u8>): (v: nat)
    ensures v < Range(|s|)
  {
    if s == [] then 0 else s[0] + 256 * Number(s[1..])
  }

  lemma {:induction false} NumberRoundTrip(v: nat, w: nat)
    requires v < Range(w)
    ensures Number(LittleEndian(v, w)) == v
  {
    if w > 0 {
      NumberRoundTrip(v / 256, w - 1);
      assert LittleEndian(v, w)[1..] == LittleEndian(v / 256, w - 1);
    }
  }

  lemma {:induction false} LittleEndianRoundTrip(s: seq<u8>)
    ensures LittleEndian(Number(s), |s|) == s
  {
    if s != [] {
      var rest := Number(s[1..]);
      LittleEndianRoundTrip(s[1..]);
      assert (s[0] + 256 * rest) % 256 == s[0] && (s[0] + 256 * rest) / 256 == rest;
      assert s == [s[0]] + s[1..];
    }
  }

  lemma DivUnique(n: nat, d: nat, q: nat, r: nat)
    requires d > 0 && n == d * q + r && r < d
    ensures n / d == q
  {
    var p := n / d;
    assert n == d * p + n % d;
    MulSteps(d, p, q);
    MulSteps(d, q, p);
  }

  lemma {:induction false} MulSteps(d: nat, a: nat, b: nat)
    ensures a < b ==> d * a + d <= d * b
    decreases b
  {
    if a < b {
      OneMoreTime(d, b - 1);
      MulSteps(d, a, b - 1);
    }
  }

  lemma OneMoreTime(d: nat, n: nat)
    ensures d * (n + 1) == d * n + d
  {
  }

  lemma DivTwice(v: nat, b: nat)
    requires b > 0
    ensures 256 * b > 0 && v / 256 / b == v / (256 * b)
  {
    var q := v / 256;
    var p := q / b;
    assert q == b * p + q % b;
    assert v == (256 * b) * p + (256 * (q % b) + v % 256);
    DivUnique(v, 256 * b, p, 256 * (q % b) + v % 256);
  }

  /** Byte k is the k-th digit to base 256. */
  lemma {:induction false} LittleEndianDigit(v: nat, w: nat, k: nat)
    requires k < w
    ensures LittleEndian(v, w)[k] == v / Range(k) % 256
    decreases k
  {
    if k > 0 {
      LittleEndianDigit(v / 256, w - 1, k - 1);
      DivTwice(v, Range(k - 1));
    }
  }

  /** The k-th digit of the number read is byte k. */
  lemma NumberDigit(s: seq<u8>, k: nat)
    requires k < |s|
    ensures Number(s) / Range(k) % 256 == s[k]
  {
    LittleEndianRoundTrip(s);
    LittleEndianDigit(Number(s), |s|, k);
  }

  // ---------- elements, fields, messages ----------

  type Value = seq<nat>

  predicate Fits(f: Field, v: Value) {
    |v| == f.Count() && forall e <- v :: e < Range(f.Width())
  }

  predicate FitsAll(fs: seq<Field>, vs: seq<Value>) {
    |vs| == |fs| && forall i :: 0 <= i < |fs| ==> Fits(fs[i], vs[i])
  }

  /** n widths, one after another. */
  function Times(w: nat, n: nat): nat {
    if n == 0 then 0 else w + Times(w, n - 1)
  }

  lemma {:induction false} TimesIsProduct(w: nat, n: nat)
    ensures Times(w, n) == w * n
  {
    if n > 0 {
      TimesIsProduct(w, n - 1);
      assert w * n == w + w * (n - 1);
    }
  }

  function PackElems(w: nat, v: Value): (s: seq<u8>)
    ensures |s| == Times(w, |v|)
  {
    if v == [] then [] else LittleEndian(v[0], w) + PackElems(w, v[1..])
  }

  function UnpackElems(w: nat, n: nat, s: seq<u8>): (v: Value)
    requires |s| == Times(w, n)
    ensures |v| == n
  {
    if n == 0 then []
    else
      [Number(s[..w])] + UnpackElems(w, n - 1, s[w..])
  }

  /** A payload is the fields' elements one after another, in arranged order. */
  function Packed(fs: seq<Field>, vs: seq<Value>): (s: seq<u8>)
    requires FitsAll(fs, vs)
    ensures |s| == Size(fs)
  {
    if fs == [] then []
    else
      FieldTimes(fs[0]);
      PackElems(fs[0].Width(), vs[0]) + Packed(fs[1..], vs[1..])
  }

  function Unpacked(fs: seq<Field>, s: seq<u8>): (vs: seq<Value>)
    requires |s| == Size(fs)
    ensures |vs| == |fs|
  {
    if fs == [] then []
    else
      FieldTimes(fs[0]);
      [UnpackElems(fs[0].Width(), fs[0].Count(), s[..fs[0].SizeInBytes()])]
        + Unpacked(fs[1..], s[fs[0].SizeInBytes()..])
  }

  lemma FieldTimes(f: Field)
    ensures f.SizeInBytes() == Times(f.Width(), f.Count())
  {
    FieldBytes(f);
    TimesIsProduct(f.Width(), f.Count());
  }

  lemma {:induction false} ElemsUnpack(w: nat, v: Value)
    requires forall e <- v :: e < Range(w)
    ensures UnpackElems(w, |v|, PackElems(w, v)) == v
  {
    hide LittleEndian, Number, Range, UnpackElems, PackElems;
    if v == [] {
      NothingPacked(w, v);
    } else {
      var s := PackElems(w, v);
      FirstElem(w, v);
      UnpackFirst(w, |v|, s);
      assert v[0] in v && forall e <- v[1..] :: e in v;
      NumberRoundTrip(v[0], w);
      ElemsUnpack(w, v[1..]);
      assert v == [v[0]] + v[1..];
    }
  }

  lemma NothingPacked(w: nat, v: Value)
    requires v == []
    ensures UnpackElems(w, 0, PackElems(w, v)) == v
  {
  }

  lemma UnpackFirst(w: nat, n: nat, s: seq<u8>)
    requires n > 0 && |s| == Times(w, n)
    ensures |s[w..]| == Times(w, n - 1)
    ensures UnpackElems(w, n, s) == [Number(s[..w])] + UnpackElems(w, n - 1, s[w..])
  {
    hide Number;
  }

  lemma FirstElem(w: nat, v: Value)
    requires v != []
    ensures var s := PackElems(w, v);
            && |s| == w + Times(w, |v| - 1)
            && s[..w] == LittleEndian(v[0], w) && s[w..] == PackElems(w, v[1..])
  {
    hide LittleEndian;
    assert PackElems(w, v) == LittleEndian(v[0], w) + PackElems(w, v[1..]);
  }

  lemma {:induction false} ElemsPack(w: nat, n: nat, s: seq<u8>)
    requires |s| == Times(w, n)
    ensures var v := UnpackElems(w, n, s);
            (forall e <- v :: e < Range(w)) && PackElems(w, v) == s
  {
    hide LittleEndian, Number, Range;
    if n > 0 {
      ElemsPack(w, n - 1, s[w..]);
      LittleEndianRoundTrip(s[..w]);
      var v := UnpackElems(w, n, s);
      assert v[1..] == UnpackElems(w, n - 1, s[w..]);
      assert s == s[..w] + s[w..];
    }
  }

  /** Unpacking a packed message returns its values, whatever the field list. */
  lemma {:induction false} UnpackPack(fs: seq<Field>, vs: seq<Value>)
    requires FitsAll(fs, vs)
    ensures Unpacked(fs, Packed(fs, vs)) == vs
  {
    if fs != [] {
      FieldTimes(fs[0]);
      var s, k := Packed(fs, vs), fs[0].SizeInBytes();
      assert s[..k] == PackElems(fs[0].Width(), vs[0]) && s[k..] == Packed(fs[1..], vs[1..]);
      ElemsUnpack(fs[0].Width(), vs[0]);
      UnpackPack(fs[1..], vs[1..]);
      assert vs == [vs[0]] + vs[1..];
    }
  }

  /** Every payload of the right size is the packing of what it unpacks to. */
  lemma {:induction false} PackUnpack(fs: seq<Field>, s: seq<u8>)
    requires |s| == Size(fs)
    ensures FitsAll(fs, Unpacked(fs, s)) && Packed(fs, Unpacked(fs, s)) == s
  {
    hide PackElems, UnpackElems, Range, Times, Field.Width, Field.Count, Field.SizeInBytes;
    if fs != [] {
      FieldTimes(fs[0]);
      var vs, k := Unpacked(fs, s), fs[0].SizeInBytes();
      ElemsPack(fs[0].Width(), fs[0].Count(), s[..k]);
      PackUnpack(fs[1..], s[k..]);
      assert vs[1..] == Unpacked(fs[1..], s[k..]);
      assert s == s[..k] + s[k..];
    }
  }

  // ---------- growing at the far end, as the emitted loops do ----------

  lemma {:induction false} ElemsSnoc(w: nat, v: Value, e: nat)
    ensures PackElems(w, v + [e]) == PackElems(w, v) + LittleEndian(e, w)
  {
    if v == [] {
      assert [e][1..] == [];
    } else {
      assert (v + [e])[1..] == v[1..] + [e];
      ElemsSnoc(w, v[1..], e);
    }
  }

  lemma FitsAllSnoc(fs: seq<Field>, vs: seq<Value>, f: Field, v: Value)
    requires FitsAll(fs, vs) && Fits(f, v)
    ensures FitsAll(fs + [f], vs + [v])
    ensures fs != [] ==> FitsAll(fs[1..], vs[1..])
  {
    hide Fits;
  }

  lemma PackedFirst(fs: seq<Field>, vs: seq<Value>)
    requires FitsAll(fs, vs) && fs != []
    ensures FitsAll(fs[1..], vs[1..])
    ensures Packed(fs, vs) == PackElems(fs[0].Width(), vs[0]) + Packed(fs[1..], vs[1..])
  {
    hide Field.Width, Field.SizeInBytes, Fits, PackElems;
  }

  lemma {:induction false} PackedSnoc(fs: seq<Field>, vs: seq<Value>, f: Field, v: Value)
    requires FitsAll(fs, vs) && Fits(f, v)
    ensures FitsAll(fs + [f], vs + [v])
    ensures Packed(fs + [f], vs + [v]) == Packed(fs, vs) + PackElems(f.Width(), v)
    decreases |fs|
  {
    hide Field.Width, Field.SizeInBytes, Fits, PackElems;
    FitsAllSnoc(fs, vs, f, v);
    PackedFirst(fs + [f], vs + [v]);
    if fs == [] {
      assert [f][1..] == [] && [v][1..] == [];
    } else {
      assert (fs + [f])[1..] == fs[1..] + [f] && (vs + [v])[1..] == vs[1..] + [v];
      PackedFirst(fs, vs);
      PackedSnoc(fs[1..], vs[1..], f, v);
    }
  }

  /** Little-endian store of the low w bytes of v at off, as PutUint16, 32 and 64 do. */
  method PutUint(payload: array<u8>, off: nat, w: nat, v: nat)
    requires off + w <= payload.Length
    modifies payload
    ensures payload[..off] == old(payload[..off])
    ensures payload[off..off + w] == LittleEndian(v, w)
    ensures forall k :: 0 <= k < w ==> payload[off + k] == v / Range(k) % 256
    ensures payload[off + w..] == old(payload[off + w..])
  {
    hide Range;
    var rest := v;
    for k := 0 to w
      invariant payload[..off] == old(payload[..off]) && payload[off + w..] == old(payload[off + w..])
      invariant payload[off..off + k] + LittleEndian(rest, w - k) == LittleEndian(v, w)
    {
      payload[off + k] := rest % 256;
      assert payload[off..off + k + 1] == payload[off..off + k] + [rest % 256];
      rest := rest / 256;
    }
    forall k | 0 <= k < w ensures payload[off + k] == v / Range(k) % 256 {
      LittleEndianDigit(v, w, k);
      assert payload[off + k] == payload[off..off + w][k];
    }
  }

  lemma NoElems(w: nat, v: Value)
    ensures PackElems(w, v[..0]) == [] && Times(w, 0) == 0
  {
  }

  lemma TimesStep(w: nat, n: nat)
    requires n > 0
    ensures Times(w, n) == w + Times(w, n - 1)
  {
  }

  /** One field of the payload: its elements side by side from off. */
  method PackField(payload: array<u8>, off: nat, w: nat, v: Value)
    requires off + Times(w, |v|) <= payload.Length
    modifies payload
    ensures payload[..off + Times(w, |v|)] == old(payload[..off]) + PackElems(w, v)
  {
    hide LittleEndian, PackElems, Times;
    var at := off;
    NoElems(w, v);
    for e := 0 to |v|
      invariant at + Times(w, |v| - e) == off + Times(w, |v|)
      invariant off <= at <= payload.Length && payload[..at] == old(payload[..off]) + PackElems(w, v[..e])
    {
      TimesStep(w, |v| - e);
      PutUint(payload, at, w, v[e]);
      assert v[..e + 1] == v[..e] + [v[e]];
      ElemsSnoc(w, v[..e], v[e]);
      JoinAt(payload[..], at, w);
      assert payload[..at + w] == payload[..at] + payload[at..at + w];
      at := at + w;
    }
    assert v[..|v|] == v;
  }

  method Pack(fs: seq<Field>, byteOffset: seq<nat>, vs: seq<Value>) returns (payload: array<u8>)
    requires FitsAll(fs, vs) && |byteOffset| == |fs|
    requires forall i :: 0 <= i < |fs| ==> byteOffset[i] == Offset(fs, i)
    ensures fresh(payload) && payload[..] == Packed(fs, vs)
  {
    hide Field.SizeInBytes, Field.Width, Offset, PackElems, Packed;
    payload := new u8[Size(fs)](_ => 0);
    PackedNothing(fs, vs);
    for i := 0 to |fs|
      invariant payload.Length == Size(fs) && fresh(payload) && Offset(fs, i) <= payload.Length
      invariant FitsAll(fs[..i], vs[..i])
      invariant payload[..Offset(fs, i)] == Packed(fs[..i], vs[..i])
    {
      FieldRoom(fs, i);
      PackField(payload, byteOffset[i], fs[i].Width(), vs[i]);
      assert fs[..i + 1] == fs[..i] + [fs[i]] && vs[..i + 1] == vs[..i] + [vs[i]];
      PackedSnoc(fs[..i], vs[..i], fs[i], vs[i]);
    }
    assert fs[..|fs|] == fs && vs[..|fs|] == vs;
  }

  lemma PackedNothing(fs: seq<Field>, vs: seq<Value>)
    ensures Offset(fs, 0) == 0 && FitsAll(fs[..0], []) && Packed(fs[..0], []) == []
    ensures Offset(fs, |fs|) == Size(fs)
  {
    assert fs[..|fs|] == fs;
  }

  lemma JoinAt(s: seq<u8>, i: nat, w: nat)
    requires i + w <= |s|
    ensures s[..i + w] == s[..i] + s[i..i + w]
  {
  }

  lemma FieldRoom(fs: seq<Field>, i: nat)
    requires i < |fs|
    ensures Offset(fs, i) + Times(fs[i].Width(), fs[i].Count()) == Offset(fs, i + 1) <= Size(fs)
  {
    hide Field.Width, Field.Count, Field.SizeInBytes;
    OffsetStep(fs, i);
    FieldTimes(fs[i]);
    OffsetsIncrease(fs, i + 1, |fs|);
    assert fs[..|fs|] == fs;
  }

  lemma {:induction false} UnpackElemsSnoc(w: nat, n: nat, s: seq<u8>, t: seq<u8>)
    requires |s| == Times(w, n) && |t| == w
    ensures Times(w, n + 1) == Times(w, n) + w
    ensures UnpackElems(w, n + 1, s + t) == UnpackElems(w, n, s) + [Number(t)]
  {
    hide Number;
    if n == 0 {
      assert s == [] && s + t == t && t[..w] == t && t[w..] == [];
    } else {
      assert (s + t)[..w] == s[..w] && (s + t)[w..] == s[w..] + t;
      UnpackElemsSnoc(w, n - 1, s[w..], t);
    }
  }

  lemma {:induction false} UnpackedSnoc(fs: seq<Field>, s: seq<u8>, f: Field, t: seq<u8>)
    requires |s| == Size(fs) && |t| == f.SizeInBytes() == Times(f.Width(), f.Count())
    ensures Size(fs + [f]) == |s + t|
    ensures Unpacked(fs + [f], s + t) == Unpacked(fs, s) + [UnpackElems(f.Width(), f.Count(), t)]
  {
    hide Field.Width, Field.Count, Field.SizeInBytes;
    SizeConcat(fs, [f]);
    if fs == [] {
      assert [f][1..] == [] && s + t == t && t[..|t|] == t && t[|t|..] == [];
    } else {
      var k := fs[0].SizeInBytes();
      assert (fs + [f])[1..] == fs[1..] + [f];
      assert (s + t)[..k] == s[..k] && (s + t)[k..] == s[k..] + t;
      UnpackedSnoc(fs[1..], s[k..], f, t);
    }
  }

  method UnpackField(payload: seq<u8>, off: nat, w: nat, n: nat) returns (v: Value)
    requires off + Times(w, n) <= |payload|
    ensures v == UnpackElems(w, n, payload[off..off + Times(w, n)])
  {
    hide Number;
    v := [];
    var at := off;
    for e := 0 to n
      invariant off <= at == off + Times(w, e) && at + Times(w, n - e) == off + Times(w, n)
      invariant v == UnpackElems(w, e, payload[off..at])
    {
      v := v + [Number(payload[at..at + w])];
      UnpackElemsSnoc(w, e, payload[off..at], payload[at..at + w]);
      assert payload[off..at] + payload[at..at + w] == payload[off..at + w];
      at := at + w;
    }
  }

  /** Unpack fails exactly on a short payload; otherwise the bytes past the message's size play no part. */
  function UnpackedFrom(fs: seq<Field>, payload: seq<u8>): Option<seq<Value>> {
    if |payload| < Size(fs) then None else Some(Unpacked(fs, payload[..Size(fs)]))
  }

  method Unpack(fs: seq<Field>, byteOffset: seq<nat>, payload: seq<u8>) returns (r: Option<seq<Value>>)
    requires |byteOffset| == |fs|
    requires forall i :: 0 <= i < |fs| ==> byteOffset[i] == Offset(fs, i)
    ensures r == UnpackedFrom(fs, payload)
  {
    hide Field.SizeInBytes, Field.Width, Field.Count, UnpackElems;
    if |payload| < Size(fs) {
      return None;
    }
    var vs: seq<Value> := [];
    for i := 0 to |fs|
      invariant Offset(fs, i) <= Size(fs)
      invariant vs == Unpacked(fs[..i], payload[..Offset(fs, i)])
    {
      var f, off := fs[i], byteOffset[i];
      FieldRoom(fs, i);
      var v := UnpackField(payload, off, f.Width(), f.Count());
      vs := vs + [v];
      FieldTimes(f);
      var t := payload[off..Offset(fs, i + 1)];
      assert fs[..i + 1] == fs[..i] + [f] && payload[..off] + t == payload[..Offset(fs, i + 1)];
      UnpackedSnoc(fs[..i], payload[..off], f, t);
    }
    assert fs[..|fs|] == fs;
    r := Some(vs);
  }

  // ---------- every byte in its place ----------

  lemma {:induction false} ElemAt(w: nat, v: Value, j: nat, k: nat)
    requires j < |v| && k < w
    ensures Times(w, j) + k < Times(w, |v|) && PackElems(w, v)[Times(w, j) + k] == v[j] / Range(k) % 256
    decreases j
  {
    hide LittleEndian, Range;
    FirstElem(w, v);
    if j == 0 {
      LittleEndianDigit(v[0], w, k);
      assert PackElems(w, v)[k] == PackElems(w, v)[..w][k];
    } else {
      ElemAt(w, v[1..], j - 1, k);
      assert PackElems(w, v)[w + (Times(w, j - 1) + k)] == PackElems(w, v)[w..][Times(w, j - 1) + k];
    }
  }

  lemma {:induction false} PackedField(fs: seq<Field>, vs: seq<Value>, i: nat, b: nat)
    requires FitsAll(fs, vs) && i < |fs| && b < fs[i].SizeInBytes()
    ensures Offset(fs, i) + b < Size(fs)
    ensures |PackElems(fs[i].Width(), vs[i])| == fs[i].SizeInBytes()
    ensures Packed(fs, vs)[Offset(fs, i) + b] == PackElems(fs[i].Width(), vs[i])[b]
    decreases i
  {
    hide PackElems, Times, Range, Field.Width, Field.Count, Field.SizeInBytes;
    FieldTimes(fs[i]);
    PackedFirst(fs, vs);
    FieldTimes(fs[0]);
    if i == 0 {
      assert fs[..0] == [];
    } else {
      PackedField(fs[1..], vs[1..], i - 1, b);
      assert fs[..i][1..] == fs[1..][..i - 1] && fs[..i][0] == fs[0];
      assert Offset(fs, i) == fs[0].SizeInBytes() + Offset(fs[1..], i - 1);
    }
  }

  /** Where digit k of element j of field i lies. */
  function Place(fs: seq<Field>, i: nat, j: nat, k: nat): nat
    requires i < |fs|
  {
    Offset(fs, i) + j * fs[i].Width() + k
  }

  /** A packed message has every digit of every element of every field in its place, low digits first. */
  lemma PackedByte(fs: seq<Field>, vs: seq<Value>, i: nat, j: nat, k: nat)
    requires FitsAll(fs, vs) && i < |fs| && j < fs[i].Count() && k < fs[i].Width()
    ensures Place(fs, i, j, k) < Size(fs)
    ensures Packed(fs, vs)[Place(fs, i, j, k)] == vs[i][j] / Range(k) % 256
  {
    hide PackElems, Times, Range, Field.Width, Field.Count, Field.SizeInBytes, Offset, Packed;
    var w := fs[i].Width();
    assert Fits(fs[i], vs[i]);
    FieldTimes(fs[i]);
    ElemAt(w, vs[i], j, k);
    PackedField(fs, vs, i, Times(w, j) + k);
    TimesIsProduct(w, j);
  }

  /** Unpacking succeeds exactly on payloads long enough, and then reads every digit from its place. */
  lemma UnpackedByte(fs: seq<Field>, payload: seq<u8>, i: nat, j: nat, k: nat)
    requires i < |fs| && j < fs[i].Count() && k < fs[i].Width()
    ensures UnpackedFrom(fs, payload).Some? <==> |payload| >= Size(fs)
    ensures |payload| >= Size(fs) ==>
      var vs := UnpackedFrom(fs, payload).value;
      && FitsAll(fs, vs) && Place(fs, i, j, k) < |payload|
      && |vs[i]| == fs[i].Count() && vs[i][j] / Range(k) % 256 == payload[Place(fs, i, j, k)]
  {
    hide PackElems, Times, Range, Field.Width, Field.Count, Field.SizeInBytes, Offset, Packed, Unpacked;
    if |payload| >= Size(fs) {
      var s := payload[..Size(fs)];
      PackUnpack(fs, s);
      PackedByte(fs, Unpacked(fs, s), i, j, k);
    }
  }
}
