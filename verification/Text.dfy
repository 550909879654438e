/** Splitting and joining of strings on one character, as Go's strings package does. */
module Text {
  import opened Bytes

  function Split(s: string, c: char): (parts: seq<string>)
    ensures parts != []
    ensures forall p <- parts :: c !in p
  {
    if s == "" then [""]
    else
      var rest := Split(s[1..], c);
      if s[0] == c then [""] + rest else [[s[0]] + rest[0]] + rest[1..]
  }

  function Join(parts: seq<string>, c: char): string {
    if parts == [] then ""
    else if |parts| == 1 then parts[0]
    else parts[0] + [c] + Join(parts[1..], c)
  }

  lemma {:induction false} SplitPart(p: string, s: string, c: char)
    requires c !in p
    ensures Split(p, c) == [p]
    ensures Split(p + [c] + s, c) == [p] + Split(s, c)
  {
    if p == "" {
      assert p + [c] + s == [c] + s;
      assert ([c] + s)[1..] == s;
    } else {
      SplitPart(p[1..], s, c);
      assert (p + [c] + s)[1..] == p[1..] + [c] + s;
      assert p == [p[0]] + p[1..];
    }
  }

  /** Joined parts split back exactly when there is a part and none contains the separator. */
  lemma SplitJoinExactly(parts: seq<string>, c: char)
    ensures Split(Join(parts, c), c) == parts <==> parts != [] && forall p <- parts :: c !in p
  {
    if parts != [] && forall p <- parts :: c !in p {
      SplitJoin(parts, c);
    }
  }

  lemma {:induction false} SplitJoin(parts: seq<string>, c: char)
    requires parts != [] && forall p <- parts :: c !in p
    ensures Split(Join(parts, c), c) == parts
  {
    if |parts| == 1 {
      SplitPart(parts[0], "", c);
    } else {
      SplitJoin(parts[1..], c);
      SplitPart(parts[0], Join(parts[1..], c), c);
      assert parts == [parts[0]] + parts[1..];
    }
  }

  // ---------- the size of a string in bytes ----------

  function Utf8Width(c: char): (n: nat)
    ensures 1 <= n <= 4
  {
    var v := c as int;
    if v < 0x80 then 1 else if v < 0x800 then 2 else if v < 0x1_0000 then 3 else 4
  }

  function Utf8(c: char): (b: seq<nat>)
    ensures |b| == Utf8Width(c)
  {
    var v := c as int;
    if v < 0x80 then [v]
    else if v < 0x800 then [0xC0 + v / 64, 0x80 + v % 64]
    else if v < 0x1_0000 then [0xE0 + v / 64 / 64, 0x80 + v / 64 % 64, 0x80 + v % 64]
    else [0xF0 + v / 64 / 64 / 64, 0x80 + v / 64 / 64 % 64, 0x80 + v / 64 % 64, 0x80 + v % 64]
  }

  predicate Trail(b: nat) {
    0x80 <= b < 0xC0
  }

  /** The number a byte sequence of section 3 of RFC 3629 stands for, overlong or not. */
  function Decoded(b: seq<nat>): Option<nat> {
    if |b| == 1 && b[0] < 0x80 then Some(b[0])
    else if |b| == 2 && 0xC0 <= b[0] < 0xE0 && Trail(b[1]) then Some((b[0] - 0xC0) * 64 + (b[1] - 0x80))
    else if |b| == 3 && 0xE0 <= b[0] < 0xF0 && Trail(b[1]) && Trail(b[2]) then
      Some(((b[0] - 0xE0) * 64 + (b[1] - 0x80)) * 64 + (b[2] - 0x80))
    else if |b| == 4 && 0xF0 <= b[0] < 0xF8 && Trail(b[1]) && Trail(b[2]) && Trail(b[3]) then
      Some((((b[0] - 0xF0) * 64 + (b[1] - 0x80)) * 64 + (b[2] - 0x80)) * 64 + (b[3] - 0x80))
    else None
  }

  /** A character takes as many bytes as the shortest sequence that stands for it. */
  lemma Utf8WidthIsLeast(c: char)
    ensures Decoded(Utf8(c)) == Some(c as int)
    ensures forall b :: Decoded(b) == Some(c as int) ==> |b| >= Utf8Width(c)
  {
    Sixties(c as int);
    forall b | Decoded(b) == Some(c as int) ensures |b| >= Utf8Width(c) {
      RoomFor(b);
    }
  }

  lemma Sixties(v: nat)
    ensures v == v / 64 * 64 + v % 64
    ensures v / 64 == v / 64 / 64 * 64 + v / 64 % 64
    ensures v / 64 / 64 == v / 64 / 64 / 64 * 64 + v / 64 / 64 % 64
  {
  }

  lemma RoomFor(b: seq<nat>)
    requires Decoded(b).Some?
    ensures |b| == 1 ==> Decoded(b).value < 0x80
    ensures |b| == 2 ==> Decoded(b).value < 0x800
    ensures |b| == 3 ==> Decoded(b).value < 0x1_0000
  {
  }

  function Utf8Length(s: string): (n: nat)
    ensures |s| <= n <= 4 * |s|
  {
    if s == "" then 0 else Utf8Width(s[0]) + Utf8Length(s[1..])
  }

  lemma {:induction false} Utf8Concat(s: string, t: string)
    ensures Utf8Length(s + t) == Utf8Length(s) + Utf8Length(t)
  {
    if s == "" {
      assert s + t == t;
    } else {
      assert (s + t)[1..] == s[1..] + t;
      Utf8Concat(s[1..], t);
    }
  }
}
