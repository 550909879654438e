/**
 The table-driven CRC-32 of scripts/px_uploader.py, proved to be the bit-serial reflected CRC of
 polynomial 0xEDB88320.  As in the source the table is 32 rows of eight: entry i is in row i >> 3 at
 place i & 7.
 */
module Crc32 {
  import opened Bytes
  import opened Folds
  import opened WideCrc

  const POLY: bv32 := 0xEDB88320

  /** The state after more bytes, bit by bit. */
  function After(c: bv32, s: seq<u8>): bv32 {
    Update(POLY, c, Bv(s))
  }

  lemma AfterConcat(c: bv32, s: seq<u8>, t: seq<u8>)
    ensures After(c, s + t) == After(After(c, s), t)
  {
    UpdateConcat(POLY, c, s, t);
  }

  const TABLE: seq<seq<bv32>> := [
    [0x00000000, 0x77073096, 0xee0e612c, 0x990951ba, 0x076dc419, 0x706af48f, 0xe963a535, 0x9e6495a3],
    [0x0edb8832, 0x79dcb8a4, 0xe0d5e91e, 0x97d2d988, 0x09b64c2b, 0x7eb17cbd, 0xe7b82d07, 0x90bf1d91],
    [0x1db71064, 0x6ab020f2, 0xf3b97148, 0x84be41de, 0x1adad47d, 0x6ddde4eb, 0xf4d4b551, 0x83d385c7],
    [0x136c9856, 0x646ba8c0, 0xfd62f97a, 0x8a65c9ec, 0x14015c4f, 0x63066cd9, 0xfa0f3d63, 0x8d080df5],
    [0x3b6e20c8, 0x4c69105e, 0xd56041e4, 0xa2677172, 0x3c03e4d1, 0x4b04d447, 0xd20d85fd, 0xa50ab56b],
    [0x35b5a8fa, 0x42b2986c, 0xdbbbc9d6, 0xacbcf940, 0x32d86ce3, 0x45df5c75, 0xdcd60dcf, 0xabd13d59],
    [0x26d930ac, 0x51de003a, 0xc8d75180, 0xbfd06116, 0x21b4f4b5, 0x56b3c423, 0xcfba9599, 0xb8bda50f],
    [0x2802b89e, 0x5f058808, 0xc60cd9b2, 0xb10be924, 0x2f6f7c87, 0x58684c11, 0xc1611dab, 0xb6662d3d],
    [0x76dc4190, 0x01db7106, 0x98d220bc, 0xefd5102a, 0x71b18589, 0x06b6b51f, 0x9fbfe4a5, 0xe8b8d433],
    [0x7807c9a2, 0x0f00f934, 0x9609a88e, 0xe10e9818, 0x7f6a0dbb, 0x086d3d2d, 0x91646c97, 0xe6635c01],
    [0x6b6b51f4, 0x1c6c6162, 0x856530d8, 0xf262004e, 0x6c0695ed, 0x1b01a57b, 0x8208f4c1, 0xf50fc457],
    [0x65b0d9c6, 0x12b7e950, 0x8bbeb8ea, 0xfcb9887c, 0x62dd1ddf, 0x15da2d49, 0x8cd37cf3, 0xfbd44c65],
    [0x4db26158, 0x3ab551ce, 0xa3bc0074, 0xd4bb30e2, 0x4adfa541, 0x3dd895d7, 0xa4d1c46d, 0xd3d6f4fb],
    [0x4369e96a, 0x346ed9fc, 0xad678846, 0xda60b8d0, 0x44042d73, 0x33031de5, 0xaa0a4c5f, 0xdd0d7cc9],
    [0x5005713c, 0x270241aa, 0xbe0b1010, 0xc90c2086, 0x5768b525, 0x206f85b3, 0xb966d409, 0xce61e49f],
    [0x5edef90e, 0x29d9c998, 0xb0d09822, 0xc7d7a8b4, 0x59b33d17, 0x2eb40d81, 0xb7bd5c3b, 0xc0ba6cad],
    [0xedb88320, 0x9abfb3b6, 0x03b6e20c, 0x74b1d29a, 0xead54739, 0x9dd277af, 0x04db2615, 0x73dc1683],
    [0xe3630b12, 0x94643b84, 0x0d6d6a3e, 0x7a6a5aa8, 0xe40ecf0b, 0x9309ff9d, 0x0a00ae27, 0x7d079eb1],
    [0xf00f9344, 0x8708a3d2, 0x1e01f268, 0x6906c2fe, 0xf762575d, 0x806567cb, 0x196c3671, 0x6e6b06e7],
    [0xfed41b76, 0x89d32be0, 0x10da7a5a, 0x67dd4acc, 0xf9b9df6f, 0x8ebeeff9, 0x17b7be43, 0x60b08ed5],
    [0xd6d6a3e8, 0xa1d1937e, 0x38d8c2c4, 0x4fdff252, 0xd1bb67f1, 0xa6bc5767, 0x3fb506dd, 0x48b2364b],
    [0xd80d2bda, 0xaf0a1b4c, 0x36034af6, 0x41047a60, 0xdf60efc3, 0xa867df55, 0x316e8eef, 0x4669be79],
    [0xcb61b38c, 0xbc66831a, 0x256fd2a0, 0x5268e236, 0xcc0c7795, 0xbb0b4703, 0x220216b9, 0x5505262f],
    [0xc5ba3bbe, 0xb2bd0b28, 0x2bb45a92, 0x5cb36a04, 0xc2d7ffa7, 0xb5d0cf31, 0x2cd99e8b, 0x5bdeae1d],
    [0x9b64c2b0, 0xec63f226, 0x756aa39c, 0x026d930a, 0x9c0906a9, 0xeb0e363f, 0x72076785, 0x05005713],
    [0x95bf4a82, 0xe2b87a14, 0x7bb12bae, 0x0cb61b38, 0x92d28e9b, 0xe5d5be0d, 0x7cdcefb7, 0x0bdbdf21],
    [0x86d3d2d4, 0xf1d4e242, 0x68ddb3f8, 0x1fda836e, 0x81be16cd, 0xf6b9265b, 0x6fb077e1, 0x18b74777],
    [0x88085ae6, 0xff0f6a70, 0x66063bca, 0x11010b5c, 0x8f659eff, 0xf862ae69, 0x616bffd3, 0x166ccf45],
    [0xa00ae278, 0xd70dd2ee, 0x4e048354, 0x3903b3c2, 0xa7672661, 0xd06016f7, 0x4969474d, 0x3e6e77db],
    [0xaed16a4a, 0xd9d65adc, 0x40df0b66, 0x37d83bf0, 0xa9bcae53, 0xdebb9ec5, 0x47b2cf7f, 0x30b5ffe9],
    [0xbdbdf21c, 0xcabac28a, 0x53b39330, 0x24b4a3a6, 0xbad03605, 0xcdd70693, 0x54de5729, 0x23d967bf],
    [0xb3667a2e, 0xc4614ab8, 0x5d681b02, 0x2a6f2b94, 0xb40bbe37, 0xc30c8ea1, 0x5a05df1b, 0x2d02ef8d]]

  lemma EightSteps(c: bv32)
    ensures var x := BitStep(POLY, BitStep(POLY, BitStep(POLY, BitStep(POLY, c))));
            Iterate(Stepper(POLY), 8, c) == BitStep(POLY, BitStep(POLY, BitStep(POLY, BitStep(POLY, x))))
  {
  }

  lemma Quarters(i: bv8)
    ensures i >> 6 == 0 || i >> 6 == 1 || i >> 6 == 2 || i >> 6 == 3
  {
  }

  lemma TableQuarter0(i: bv8)
    requires i >> 6 == 0
    ensures |TABLE| == 32 && (i >> 3) as int < 32 && |TABLE[i >> 3]| == 8 && (i & 7) as int < 8
    ensures var x := BitStep(POLY, BitStep(POLY, BitStep(POLY, BitStep(POLY, i as bv32))));
            TABLE[i >> 3][i & 7] == BitStep(POLY, BitStep(POLY, BitStep(POLY, BitStep(POLY, x))))
  {
  }

  lemma TableQuarter1(i: bv8)
    requires i >> 6 == 1
    ensures |TABLE| == 32 && (i >> 3) as int < 32 && |TABLE[i >> 3]| == 8 && (i & 7) as int < 8
    ensures var x := BitStep(POLY, BitStep(POLY, BitStep(POLY, BitStep(POLY, i as bv32))));
            TABLE[i >> 3][i & 7] == BitStep(POLY, BitStep(POLY, BitStep(POLY, BitStep(POLY, x))))
  {
  }

  lemma TableQuarter2(i: bv8)
    requires i >> 6 == 2
    ensures |TABLE| == 32 && (i >> 3) as int < 32 && |TABLE[i >> 3]| == 8 && (i & 7) as int < 8
    ensures var x := BitStep(POLY, BitStep(POLY, BitStep(POLY, BitStep(POLY, i as bv32))));
            TABLE[i >> 3][i & 7] == BitStep(POLY, BitStep(POLY, BitStep(POLY, BitStep(POLY, x))))
  {
  }

  lemma TableQuarter3(i: bv8)
    requires i >> 6 == 3
    ensures |TABLE| == 32 && (i >> 3) as int < 32 && |TABLE[i >> 3]| == 8 && (i & 7) as int < 8
    ensures var x := BitStep(POLY, BitStep(POLY, BitStep(POLY, BitStep(POLY, i as bv32))));
            TABLE[i >> 3][i & 7] == BitStep(POLY, BitStep(POLY, BitStep(POLY, BitStep(POLY, x))))
  {
  }

  /** Every one of the 256 entries is eight shift steps of its index. */
  lemma TableIsSerial(i: bv8)
    ensures |TABLE| == 32 && (i >> 3) as int < 32 && |TABLE[i >> 3]| == 8 && (i & 7) as int < 8
    ensures TABLE[i >> 3][i & 7] == Iterate(Stepper(POLY), 8, i as bv32)
  {
    hide BitStep;
    Quarters(i);
    if i >> 6 == 0 {
      TableQuarter0(i);
    } else if i >> 6 == 1 {
      TableQuarter1(i);
    } else if i >> 6 == 2 {
      TableQuarter2(i);
    } else {
      TableQuarter3(i);
    }
    EightSteps(i as bv32);
  }

  lemma StepByHalf(c: bv32, half: bv32)
    requires half == c >> 1
    ensures BitStep(POLY, c) == if Odd(c) then Xor(half, POLY) else half
  {
  }

  predicate Odd(c: bv32) { c & 1 == 1 }

  lemma LowBits(x: bv32, y: bv32, z: bv32)
    requires z == Xor(x, y)
    ensures Odd(z) <==> Odd(x) != Odd(y)
    ensures z >> 1 == Xor(x >> 1, y >> 1)
  {
  }

  lemma XorAssociates(a: bv32, b: bv32, c: bv32)
    ensures Xor(Xor(a, b), c) == Xor(a, Xor(b, c))
  {
  }

  lemma XorCommutes(a: bv32, b: bv32)
    ensures Xor(a, b) == Xor(b, a)
  {
  }

  lemma XorTwice(a: bv32, p: bv32)
    ensures Xor(Xor(a, p), p) == a
  {
  }

  lemma XorMoves(a: bv32, b: bv32, p: bv32)
    ensures Xor(Xor(a, p), Xor(b, p)) == Xor(a, b)
    ensures Xor(Xor(a, p), b) == Xor(Xor(a, b), p) && Xor(a, Xor(b, p)) == Xor(Xor(a, b), p)
  {
    hide Xor;
    XorAssociates(a, b, p);
    XorAssociates(a, p, b);
    XorCommutes(p, b);
    XorAssociates(Xor(a, p), b, p);
    XorTwice(Xor(a, b), p);
  }

  lemma StepIsLinear(x: bv32, y: bv32)
    ensures BitStep(POLY, Xor(x, y)) == Xor(BitStep(POLY, x), BitStep(POLY, y))
  {
    hide BitStep, Xor, Odd;
    var z, a, b := Xor(x, y), x >> 1, y >> 1;
    LowBits(x, y, z);
    XorMoves(a, b, POLY);
    StepByHalf(x, a);
    StepByHalf(y, b);
    StepByHalf(z, Xor(a, b));
  }

  lemma StepsAreLinear(n: nat, x: bv32, y: bv32)
    ensures Iterate(Stepper(POLY), n, Xor(x, y)) == Xor(Iterate(Stepper(POLY), n, x), Iterate(Stepper(POLY), n, y))
  {
    hide BitStep, Xor;
    forall a, b ensures Stepper(POLY)(Xor(a, b)) == Xor(Stepper(POLY)(a), Stepper(POLY)(b)) {
      StepIsLinear(a, b);
    }
    IterateHomomorphic(Stepper(POLY), Xor, n, x, y);
  }

  lemma HighBytesShift(h: bv32)
    requires h & 0xFF == 0
    ensures var x := BitStep(POLY, BitStep(POLY, BitStep(POLY, BitStep(POLY, h))));
            BitStep(POLY, BitStep(POLY, BitStep(POLY, BitStep(POLY, x)))) == h >> 8
  {
  }

  lemma LowByteSplits(c: bv32, l: bv32, h: bv32)
    requires l == c & 0xFF && h == c & 0xFFFFFF00
    ensures c == Xor(l, h) && h & 0xFF == 0 && h >> 8 == c >> 8
  {
  }

  /** Eight steps of a register are eight steps of its low bv8, with the other bytes moved down beneath. */
  lemma LowByteDrives(c: bv32, l: bv32, h: bv32)
    requires l == c & 0xFF && h == c & 0xFFFFFF00
    ensures Iterate(Stepper(POLY), 8, c) == Xor(Iterate(Stepper(POLY), 8, l), c >> 8)
  {
    hide BitStep, Xor;
    LowByteSplits(c, l, h);
    StepsAreLinear(8, l, h);
    EightSteps(h);
    HighBytesShift(h);
  }

  lemma TableStep(c: bv32, b: bv8, x: bv32, i: bv8, t: bv32, h: bv32)
    requires x == c ^ (b as bv32) && i == (x & 0xFF) as bv8
    requires t == Iterate(Stepper(POLY), 8, i as bv32)
    requires h == c >> 8
    ensures t ^ h == ByteStep(POLY, c, b)
  {
    hide BitStep, Iterate, ByteStep, Xor;
    HighBytesKept(c, b, x, i);
    var l, high := i as bv32, x & 0xFFFFFF00;
    LowByteDrives(x, l, high);
    ByteStepOf(c, b, x);
    XorIs(t, h);
  }

  lemma ByteStepOf(c: bv32, b: bv8, x: bv32)
    requires x == c ^ (b as bv32)
    ensures ByteStep(POLY, c, b) == Iterate(Stepper(POLY), 8, x)
  {
    hide Iterate;
  }

  lemma XorIs(a: bv32, b: bv32)
    ensures a ^ b == Xor(a, b)
  {
  }

  lemma HighBytesKept(c: bv32, b: bv8, x: bv32, i: bv8)
    requires x == c ^ (b as bv32) && i == (x & 0xFF) as bv8
    ensures c >> 8 == x >> 8 && i as bv32 == x & 0xFF
  {
  }

  // ---------- a known answer ----------

  /** The table answers i with t. */
  predicate Answer(i: bv8, t: bv32) {
    (i >> 3) as int < |TABLE| && (i & 7) as int < |TABLE[i >> 3]| && TABLE[i >> 3][i & 7] == t
  }

  lemma ThreeAnswers()
    ensures Answer(0x31, 0x51de003a)
    ensures Answer(0x08, 0x0edb8832)
    ensures Answer(0x01, 0x77073096)
  {
  }

  lemma SixAnswers()
    ensures Answer(0xf4, 0xbad03605)
    ensures Answer(0x8a, 0x0d6d6a3e)
    ensures Answer(0x37, 0xb8bda50f)
  {
  }

  lemma NineAnswers()
    ensures Answer(0xf5, 0xcdd70693)
    ensures Answer(0xd9, 0xff0f6a70)
    ensures Answer(0xff, 0x2d02ef8d)
  {
  }

  lemma AnswerIsSerial(i: bv8, t: bv32)
    requires Answer(i, t)
    ensures t == Iterate(Stepper(POLY), 8, i as bv32)
  {
    hide Iterate;
    TableIsSerial(i);
  }

  /** One more byte of a message whose register is known. */
  lemma Fed(s: seq<u8>, b: u8, more: seq<u8>, c: bv32, v: bv8, i: bv8, t: bv32, next: bv32)
    requires After(0, s) == c && v as int == b && more == s + [b]
    requires i == ((c ^ (v as bv32)) & 0xFF) as bv8 && Answer(i, t) && next == t ^ (c >> 8)
    ensures After(0, more) == next
  {
    hide ByteStep, Bv8, Answer, Iterate, Stepper;
    SameByte(Bv8(b), v);
    AnswerIsSerial(i, t);
    TableStep(c, v, c ^ (v as bv32), i, t, c >> 8);
    UpdateGrows(POLY, 0, more, |s|);
    assert more[..|s|] == s && more[..|s| + 1] == more;
  }

  lemma OneToThree()
    ensures After(0, [49, 50, 51]) == 0x7709bac0
  {
    assert After(0, []) == 0;
    hide After, Answer;
    ThreeAnswers();
    Fed([], 49, [49], 0x00000000, 49, 0x31, 0x51de003a, 0x51de003a);
    Fed([49], 50, [49, 50], 0x51de003a, 50, 0x08, 0x0edb8832, 0x0e8a5632);
    Fed([49, 50], 51, [49, 50, 51], 0x0e8a5632, 51, 0x01, 0x77073096, 0x7709bac0);
  }

  lemma OneToSix()
    ensures After(0, [49, 50, 51, 52, 53, 54]) == 0xb8b072c2
  {
    hide After, Answer;
    OneToThree();
    SixAnswers();
    Fed([49, 50, 51], 52, [49, 50, 51, 52], 0x7709bac0, 52, 0xf4, 0xbad03605, 0xbaa73fbf);
    Fed([49, 50, 51, 52], 53, [49, 50, 51, 52, 53], 0xbaa73fbf, 53, 0x8a, 0x0d6d6a3e, 0x0dd7cd01);
    Fed([49, 50, 51, 52, 53], 54, [49, 50, 51, 52, 53, 54], 0x0dd7cd01, 54, 0x37, 0xb8bda50f, 0xb8b072c2);
  }

  /** The check value of this CRC: that of the digits 1 to 9 in ASCII. */
  lemma CheckValue()
    ensures After(0, [49, 50, 51, 52, 53, 54, 55, 56, 57]) == 0x2dfd2d88
  {
    hide After, Answer;
    OneToSix();
    NineAnswers();
    Fed([49, 50, 51, 52, 53, 54], 55, [49, 50, 51, 52, 53, 54, 55], 0xb8b072c2, 55, 0xf5, 0xcdd70693, 0xcd6fb6e1);
    Fed([49, 50, 51, 52, 53, 54, 55], 56, [49, 50, 51, 52, 53, 54, 55, 56],
        0xcd6fb6e1, 56, 0xd9, 0xff0f6a70, 0xffc205c6);
    Fed([49, 50, 51, 52, 53, 54, 55, 56], 57, [49, 50, 51, 52, 53, 54, 55, 56, 57],
        0xffc205c6, 57, 0xff, 0x2d02ef8d, 0x2dfd2d88);
  }

  /** The table walk over more bytes from a given state. */
  method Walk(bs: seq<u8>, start: bv32) returns (state: bv32)
    ensures state == After(start, bs)
  {
    state := start;
    for i := 0 to |bs|
      invariant state == After(start, bs[..i])
    {
      var c := state;
      var b := Bv8(bs[i]);
      var x := c ^ (b as bv32);
      var index := (x & 0xFF) as bv8;
      TableIsSerial(index);
      var entry := TABLE[index >> 3][index & 7];
      var high := c >> 8;
      TableStep(c, b, x, index, entry, high);
      state := entry ^ high;
      UpdateGrows(POLY, start, bs, i);
    }
    assert bs[..|bs|] == bs;
  }
}
