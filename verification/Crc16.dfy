/**
 The table-driven checksum of src/cloudlink/crc16/crc16.go, proved to be the bit-serial CRC of
 polynomial 0xA001 started at zero.  The 256-entry table keeps the layout of the source file: 32 rows
 of eight, so entry i is in row i >> 3 at place i & 7.
 */
module Crc16Checksum {
  import opened Bytes
  import opened Folds
  import opened ReflectedCrc

  const POLY: bv16 := 0xA001

  const TABLE: seq<seq<bv16>> := [
    [0x0000, 0xc0c1, 0xc181, 0x0140, 0xc301, 0x03c0, 0x0280, 0xc241],
    [0xc601, 0x06c0, 0x0780, 0xc741, 0x0500, 0xc5c1, 0xc481, 0x0440],
    [0xcc01, 0x0cc0, 0x0d80, 0xcd41, 0x0f00, 0xcfc1, 0xce81, 0x0e40],
    [0x0a00, 0xcac1, 0xcb81, 0x0b40, 0xc901, 0x09c0, 0x0880, 0xc841],
    [0xd801, 0x18c0, 0x1980, 0xd941, 0x1b00, 0xdbc1, 0xda81, 0x1a40],
    [0x1e00, 0xdec1, 0xdf81, 0x1f40, 0xdd01, 0x1dc0, 0x1c80, 0xdc41],
    [0x1400, 0xd4c1, 0xd581, 0x1540, 0xd701, 0x17c0, 0x1680, 0xd641],
    [0xd201, 0x12c0, 0x1380, 0xd341, 0x1100, 0xd1c1, 0xd081, 0x1040],
    [0xf001, 0x30c0, 0x3180, 0xf141, 0x3300, 0xf3c1, 0xf281, 0x3240],
    [0x3600, 0xf6c1, 0xf781, 0x3740, 0xf501, 0x35c0, 0x3480, 0xf441],
    [0x3c00, 0xfcc1, 0xfd81, 0x3d40, 0xff01, 0x3fc0, 0x3e80, 0xfe41],
    [0xfa01, 0x3ac0, 0x3b80, 0xfb41, 0x3900, 0xf9c1, 0xf881, 0x3840],
    [0x2800, 0xe8c1, 0xe981, 0x2940, 0xeb01, 0x2bc0, 0x2a80, 0xea41],
    [0xee01, 0x2ec0, 0x2f80, 0xef41, 0x2d00, 0xedc1, 0xec81, 0x2c40],
    [0xe401, 0x24c0, 0x2580, 0xe541, 0x2700, 0xe7c1, 0xe681, 0x2640],
    [0x2200, 0xe2c1, 0xe381, 0x2340, 0xe101, 0x21c0, 0x2080, 0xe041],
    [0xa001, 0x60c0, 0x6180, 0xa141, 0x6300, 0xa3c1, 0xa281, 0x6240],
    [0x6600, 0xa6c1, 0xa781, 0x6740, 0xa501, 0x65c0, 0x6480, 0xa441],
    [0x6c00, 0xacc1, 0xad81, 0x6d40, 0xaf01, 0x6fc0, 0x6e80, 0xae41],
    [0xaa01, 0x6ac0, 0x6b80, 0xab41, 0x6900, 0xa9c1, 0xa881, 0x6840],
    [0x7800, 0xb8c1, 0xb981, 0x7940, 0xbb01, 0x7bc0, 0x7a80, 0xba41],
    [0xbe01, 0x7ec0, 0x7f80, 0xbf41, 0x7d00, 0xbdc1, 0xbc81, 0x7c40],
    [0xb401, 0x74c0, 0x7580, 0xb541, 0x7700, 0xb7c1, 0xb681, 0x7640],
    [0x7200, 0xb2c1, 0xb381, 0x7340, 0xb101, 0x71c0, 0x7080, 0xb041],
    [0x5000, 0x90c1, 0x9181, 0x5140, 0x9301, 0x53c0, 0x5280, 0x9241],
    [0x9601, 0x56c0, 0x5780, 0x9741, 0x5500, 0x95c1, 0x9481, 0x5440],
    [0x9c01, 0x5cc0, 0x5d80, 0x9d41, 0x5f00, 0x9fc1, 0x9e81, 0x5e40],
    [0x5a00, 0x9ac1, 0x9b81, 0x5b40, 0x9901, 0x59c0, 0x5880, 0x9841],
    [0x8801, 0x48c0, 0x4980, 0x8941, 0x4b00, 0x8bc1, 0x8a81, 0x4a40],
    [0x4e00, 0x8ec1, 0x8f81, 0x4f40, 0x8d01, 0x4dc0, 0x4c80, 0x8c41],
    [0x4400, 0x84c1, 0x8581, 0x4540, 0x8701, 0x47c0, 0x4680, 0x8641],
    [0x8201, 0x42c0, 0x4380, 0x8341, 0x4100, 0x81c1, 0x8081, 0x4040]]

  function Sum(s: seq<u8>): u16 {
    Word(Register(s))
  }

  function Register(s: seq<u8>): bv16 {
    Update(POLY, 0, Bv(s))
  }

  lemma EightSteps(c: bv16)
    ensures var x := BitStep(POLY, BitStep(POLY, BitStep(POLY, BitStep(POLY, c))));
            Iterate(Stepper(POLY), 8, c) == BitStep(POLY, BitStep(POLY, BitStep(POLY, BitStep(POLY, x))))
  {
    IterateAdd(Stepper(POLY), 4, 4, c);
  }

  lemma TableSteps(i: byte)
    ensures |TABLE| == 32 && (i >> 3) as int < 32 && |TABLE[i >> 3]| == 8 && (i & 7) as int < 8
    ensures var x := BitStep(POLY, BitStep(POLY, BitStep(POLY, BitStep(POLY, i as bv16))));
            TABLE[i >> 3][i & 7] == BitStep(POLY, BitStep(POLY, BitStep(POLY, BitStep(POLY, x))))
  {
  }

  /** Every one of the 256 entries is eight shift steps of its index. */
  lemma TableIsSerial(i: byte)
    ensures |TABLE| == 32 && (i >> 3) as int < 32 && |TABLE[i >> 3]| == 8 && (i & 7) as int < 8
    ensures TABLE[i >> 3][i & 7] == Iterate(Stepper(POLY), 8, i as bv16)
  {
    TableSteps(i);
    EightSteps(i as bv16);
  }

  function Entry(i: byte): (t: bv16)
    ensures t == Iterate(Stepper(POLY), 8, i as bv16)
  {
    TableIsSerial(i);
    TABLE[i >> 3][i & 7]
  }

  // ---------- the high byte of the register only moves down ----------

  /** h moved up k places. */
  function Raised(h: bv16, k: nat): bv16 {
    if k == 0 then h else Up(Raised(h, k - 1))
  }

  lemma {:induction false} RaisedFits(h: bv16, k: nat)
    requires Fits(8, h) && k <= 8
    ensures Fits(8 + k, Raised(h, k))
  {
    if k > 0 {
      RaisedFits(h, k - 1);
      FitsRaised(7 + k, Raised(h, k - 1));
    }
  }

  lemma FitsRaised(n: nat, v: bv16)
    requires n < 16 && Fits(n, v)
    ensures Fits(n + 1, Up(v))
  {
    FitsUp(n, false, v);
    assert 0 | (v << 1) == v << 1;
  }

  lemma RaisedStep(poly: bv16, n: nat, l: bv16, v: bv16, x: bv16)
    requires n < 16 && Fits(n, v) && x == Xor(l, Up(v))
    ensures BitStep(poly, x) == Xor(BitStep(poly, l), v)
  {
    FittingAbsorbed(poly, n, l, v);
  }

  lemma {:induction false} HighByteWaits(poly: bv16, l: bv16, h: bv16, k: nat, x: bv16)
    requires Fits(8, h) && k <= 8 && x == Xor(l, Raised(h, k))
    ensures Iterate(Stepper(poly), k, x) == Xor(Iterate(Stepper(poly), k, l), h)
    decreases k
  {
    hide BitStep, Xor, Fits;
    if k > 0 {
      RaisedFits(h, k - 1);
      RaisedStep(poly, 7 + k, l, Raised(h, k - 1), x);
      HighByteWaits(poly, BitStep(poly, l), h, k - 1, BitStep(poly, x));
    }
  }

  lemma RaisedEight(c: bv16, h: bv16)
    requires h == c >> 8
    ensures Fits(8, h)
    ensures Up(Up(Up(Up(Up(Up(Up(Up(h)))))))) == c & 0xFF00
    ensures Xor(c & 0xFF, c & 0xFF00) == c
  {
  }

  lemma EightRaises(h: bv16)
    ensures Raised(h, 8) == Up(Up(Up(Up(Up(Up(Up(Up(h))))))))
  {
    assert Raised(h, 1) == Up(h);
    assert Raised(h, 2) == Up(Raised(h, 1));
    assert Raised(h, 3) == Up(Raised(h, 2));
    assert Raised(h, 4) == Up(Raised(h, 3));
    assert Raised(h, 5) == Up(Raised(h, 4));
    assert Raised(h, 6) == Up(Raised(h, 5));
    assert Raised(h, 7) == Up(Raised(h, 6));
    assert Raised(h, 8) == Up(Raised(h, 7));
  }

  /** Eight steps of a register are eight steps of its low byte, with the high byte moved down beneath. */
  lemma LowByteDrives(poly: bv16, c: bv16, l: bv16, h: bv16)
    requires l == c & 0xFF && h == c >> 8
    ensures Iterate(Stepper(poly), 8, c) == Iterate(Stepper(poly), 8, l) ^ h
  {
    RaisedEight(c, h);
    EightRaises(h);
    HighByteWaits(poly, l, h, 8, c);
  }

  lemma TableStep(c: bv16, b: byte, x: bv16, i: byte, t: bv16, h: bv16)
    requires x == c ^ (b as bv16) && i == (x & 0xFF) as byte
    requires t == Iterate(Stepper(POLY), 8, i as bv16)
    requires h == c >> 8
    ensures t ^ h == ByteStep(POLY, c, b)
  {
    hide BitStep, Iterate, ByteStep, Stepper;
    HighByteKept(c, b, x, i);
    var l := i as bv16;
    LowByteDrives(POLY, x, l, h);
    ByteStepOf(c, b, x);
  }

  lemma ByteStepOf(c: bv16, b: byte, x: bv16)
    requires x == c ^ (b as bv16)
    ensures ByteStep(POLY, c, b) == Iterate(Stepper(POLY), 8, x)
  {
    hide Iterate;
  }

  lemma HighByteKept(c: bv16, b: byte, x: bv16, i: byte)
    requires x == c ^ (b as bv16) && i == (x & 0xFF) as byte
    ensures c >> 8 == x >> 8 && i as bv16 == x & 0xFF
  {
  }

  // ---------- a known answer ----------

  /** The table answers i with t. */
  predicate Answer(i: byte, t: bv16) {
    (i >> 3) as int < |TABLE| && (i & 7) as int < |TABLE[i >> 3]| && TABLE[i >> 3][i & 7] == t
  }

  lemma ThreeAnswers()
    ensures Answer(0x31, 0xd4c1)
    ensures Answer(0xf3, 0x4540)
    ensures Answer(0xa7, 0xba41)
  {
  }

  lemma SixAnswers()
    ensures Answer(0x30, 0x1400)
    ensures Answer(0x8f, 0xa441)
    ensures Answer(0x63, 0x2940)
  {
  }

  lemma NineAnswers()
    ensures Answer(0xd3, 0x9d41)
    ensures Answer(0x50, 0x3c00)
    ensures Answer(0xa4, 0xbb01)
  {
  }

  lemma AnswerIsSerial(i: byte, t: bv16)
    requires Answer(i, t)
    ensures t == Iterate(Stepper(POLY), 8, i as bv16)
  {
    hide Iterate;
    TableIsSerial(i);
  }

  /** One more byte of a message whose register is known. */
  lemma Fed(s: seq<u8>, b: u8, more: seq<u8>, c: bv16, v: byte, i: byte, t: bv16, next: bv16)
    requires Register(s) == c && v as int == b && more == s + [b]
    requires i == ((c ^ (v as bv16)) & 0xFF) as byte && Answer(i, t) && next == t ^ (c >> 8)
    ensures Register(more) == next
  {
    hide ByteStep, Bv8, Answer, Iterate, Stepper;
    SameByte(Bv8(b), v);
    AnswerIsSerial(i, t);
    TableStep(c, v, c ^ (v as bv16), i, t, c >> 8);
    UpdateGrows(POLY, 0, more, |s|);
    assert more[..|s|] == s && more[..|s| + 1] == more;
  }

  lemma OneToThree()
    ensures Register([49, 50, 51]) == 0xba04
  {
    assert Register([]) == 0;
    hide Register, Answer;
    ThreeAnswers();
    Fed([], 49, [49], 0x0000, 49, 0x31, 0xd4c1, 0xd4c1);
    Fed([49], 50, [49, 50], 0xd4c1, 50, 0xf3, 0x4540, 0x4594);
    Fed([49, 50], 51, [49, 50, 51], 0x4594, 51, 0xa7, 0xba41, 0xba04);
  }

  lemma OneToSix()
    ensures Register([49, 50, 51, 52, 53, 54]) == 0x29e4
  {
    hide Register, Answer;
    OneToThree();
    SixAnswers();
    Fed([49, 50, 51], 52, [49, 50, 51, 52], 0xba04, 52, 0x30, 0x1400, 0x14ba);
    Fed([49, 50, 51, 52], 53, [49, 50, 51, 52, 53], 0x14ba, 53, 0x8f, 0xa441, 0xa455);
    Fed([49, 50, 51, 52, 53], 54, [49, 50, 51, 52, 53, 54], 0xa455, 54, 0x63, 0x2940, 0x29e4);
  }

  /** The check value of this CRC: that of the digits 1 to 9 in ASCII. */
  lemma CheckValue()
    ensures Register([49, 50, 51, 52, 53, 54, 55, 56, 57]) == 0xbb3d
  {
    hide Register, Answer;
    OneToSix();
    NineAnswers();
    Fed([49, 50, 51, 52, 53, 54], 55, [49, 50, 51, 52, 53, 54, 55], 0x29e4, 55, 0xd3, 0x9d41, 0x9d68);
    Fed([49, 50, 51, 52, 53, 54, 55], 56, [49, 50, 51, 52, 53, 54, 55, 56], 0x9d68, 56, 0x50, 0x3c00, 0x3c9d);
    Fed([49, 50, 51, 52, 53, 54, 55, 56], 57, [49, 50, 51, 52, 53, 54, 55, 56, 57], 0x3c9d, 57, 0xa4, 0xbb01, 0xbb3d);
  }

  method Crc16(bs: seq<u8>) returns (sum: u16)
    ensures sum == Sum(bs)
  {
    var crc: bv16 := 0;
    for i := 0 to |bs|
      invariant crc == Register(bs[..i])
    {
      var c := crc;
      var b := Bv8(bs[i]);
      var x := c ^ (b as bv16);
      var index := (x & 0xFF) as bv8;
      TableIsSerial(index);
      var entry := TABLE[index >> 3][index & 7];
      var high := c >> 8;
      TableStep(c, b, x, index, entry, high);
      crc := entry ^ high;
      UpdateGrows(POLY, 0, bs, i);
    }
    assert bs[..|bs|] == bs;
    sum := Word(crc);
  }
}
