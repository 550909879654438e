/**
 The firmware image of scripts/px_uploader.py: its padding, the checksum the bootloader is asked for
 over the whole flash, and the programming messages the image is cut into.
 */
module FirmwareUpload {
  import opened Bytes
  import opened Crc32
  import opened ShiftRegister
  import opened ReflectedCrc
  import WideCrc

  const PROG_MULTI: u8 := 0x27
  const EOC: u8 := 0x20
  const PROG_MULTI_MAX := 252

  function Fill(n: nat): (s: seq<u8>)
    ensures |s| == n && forall b <- s :: b == 0xFF
  {
    seq(n, _ => 0xFF)
  }

  // ---------- the checksum over the flash ----------

  /** Turns of `for i in range(size, padlen - 1, 4)`. */
  function Rounds(size: nat, padlen: int): nat {
    if padlen - 1 <= size then 0 else (padlen - 1 - size + 3) / 4
  }

  /** The padding fills up to padlen exactly when the space left is a whole number of words. */
  lemma PadsToExactly(size: nat, padlen: int)
    ensures size + 4 * Rounds(size, padlen) == padlen <==> padlen >= size && (padlen - size) % 4 == 0
  {
  }

  /** The state after the image and that many turns. */
  function PaddedCrc(image: seq<u8>, padlen: int): bv32 {
    After(0, image + Fill(4 * Rounds(|image|, padlen)))
  }

  /** For a flash of whole words the expected checksum is that of the image with every byte after it erased. */
  lemma ExpectedCrcIsFlashCrc(image: seq<u8>, flash: seq<u8>)
    requires |image| % 4 == 0 && |flash| % 4 == 0 && image <= flash
    requires forall i :: |image| <= i < |flash| ==> flash[i] == 0xFF
    ensures PaddedCrc(image, |flash|) == After(0, flash)
  {
    PadsToExactly(|image|, |flash|);
    assert flash == image + Fill(4 * Rounds(|image|, |flash|));
  }

  /**
   A flash that differs from what was programmed anywhere within thirty-two consecutive bits does not have
   the expected checksum.
   */
  lemma FlashBurstNoticed(image: seq<u8>, flash: seq<u8>, found: seq<u8>, k: nat)
    requires |image| % 4 == 0 && |flash| % 4 == 0 && image <= flash
    requires forall i :: |image| <= i < |flash| ==> flash[i] == 0xFF
    requires found != flash && Burst(Bits(Bv(flash)), Bits(Bv(found)), k, 32)
    ensures After(0, found) != PaddedCrc(image, |flash|)
  {
    hide PaddedCrc, Bits;
    ExpectedCrcIsFlashCrc(image, flash);
    if Bv(flash) == Bv(found) {
      BvInjective(flash, found);
    }
    WideCrc.BurstDetected(Crc32.POLY, 0, Bv(flash), Bv(found), k);
  }

  // ---------- programming messages ----------

  function Chunks(s: seq<u8>): seq<seq<u8>> {
    if s == [] then []
    else if |s| <= PROG_MULTI_MAX then [s]
    else [s[..PROG_MULTI_MAX]] + Chunks(s[PROG_MULTI_MAX..])
  }

  lemma NextChunk(s: seq<u8>)
    requires s != []
    ensures |s| < PROG_MULTI_MAX ==>
      Chunks(s) == [s] && s[..|s|] == s && s[|s|..] == [] && Chunks(s) == [s] + Chunks([])
    ensures |s| >= PROG_MULTI_MAX ==> Chunks(s) == [s[..PROG_MULTI_MAX]] + Chunks(s[PROG_MULTI_MAX..])
  {
    if |s| == PROG_MULTI_MAX {
      assert s[..PROG_MULTI_MAX] == s && s[PROG_MULTI_MAX..] == [];
    }
  }

  function Message(chunk: seq<u8>): seq<u8> {
    [PROG_MULTI, LengthByte(|chunk|)] + chunk + [EOC]
  }

  function Messages(chunks: seq<seq<u8>>): seq<u8> {
    if chunks == [] then [] else Message(chunks[0]) + Messages(chunks[1..])
  }

  lemma {:induction false} MessagesSnoc(chunks: seq<seq<u8>>, c: seq<u8>)
    ensures Messages(chunks + [c]) == Messages(chunks) + Message(c)
  {
    hide Message;
    if chunks == [] {
      assert [c][1..] == [];
    } else {
      assert (chunks + [c])[1..] == chunks[1..] + [c];
      MessagesSnoc(chunks[1..], c);
    }
  }

  /** What a bootloader writes that follows the length bytes, up to the first message it cannot make out. */
  function Programmed(wire: seq<u8>): seq<u8> {
    if |wire| < 3 then []
    else
      var n: nat := wire[1];
      if wire[0] != 0x27 || |wire| < n + 3 || wire[n + 2] != 0x20 then []
      else wire[2..2 + n] + Programmed(wire[n + 3..])
  }

  /** Every chunk but the last has 252 bytes; the last is nonempty, no longer, and whole words if the image is. */
  lemma {:induction false} ChunksFit(s: seq<u8>)
    ensures var chunks := Chunks(s);
            && (forall i :: 0 <= i < |chunks| - 1 ==> |chunks[i]| == 252)
            && (forall c <- chunks :: 0 < |c| <= 252 && (|s| % 4 == 0 ==> |c| % 4 == 0))
  {
    if |s| > PROG_MULTI_MAX {
      ChunksFit(s[PROG_MULTI_MAX..]);
    }
  }

  lemma MessageRead(chunk: seq<u8>, rest: seq<u8>)
    requires |chunk| <= PROG_MULTI_MAX
    ensures Programmed(Message(chunk) + rest) == chunk + Programmed(rest)
  {
    hide Programmed;
    Laid(PROG_MULTI, LengthByte(|chunk|), chunk, EOC, rest);
    ProgramsOne(Message(chunk) + rest, |chunk|);
  }

  lemma ProgramsOne(wire: seq<u8>, n: nat)
    requires |wire| >= n + 3 && wire[0] == 0x27 && wire[1] == n && wire[n + 2] == 0x20
    ensures Programmed(wire) == wire[2..2 + n] + Programmed(wire[n + 3..])
  {
  }

  lemma Laid(a: u8, b: u8, chunk: seq<u8>, c: u8, rest: seq<u8>)
    ensures var wire, n := [a, b] + chunk + [c] + rest, |chunk|;
            && |wire| == n + 3 + |rest| && wire[0] == a && wire[1] == b && wire[n + 2] == c
            && wire[2..2 + n] == chunk && wire[n + 3..] == rest
  {
  }

  /** The messages program the image, byte for byte. */
  lemma {:induction false} UploadProgramsImage(image: seq<u8>)
    ensures Programmed(Messages(Chunks(image))) == image
  {
    hide Message, Messages, Programmed, Chunks;
    NothingRead();
    if image != [] {
      var n := if |image| < PROG_MULTI_MAX then |image| else PROG_MULTI_MAX;
      var head, rest := image[..n], image[n..];
      NextChunk(image);
      UploadProgramsImage(rest);
      MessagesCons(head, Chunks(rest));
      MessageRead(head, Messages(Chunks(rest)));
      assert image == head + rest;
    }
  }

  lemma MessagesCons(c: seq<u8>, chunks: seq<seq<u8>>)
    ensures Messages([c] + chunks) == Message(c) + Messages(chunks)
  {
    assert ([c] + chunks)[1..] == chunks;
  }

  lemma NothingRead()
    ensures Chunks([]) == [] && Messages([]) == [] && Programmed([]) == []
  {
  }

  // ---------- the objects ----------

  class Firmware {
    var image: seq<u8>

    /** The decompressed image, padded to whole words. */
    constructor (raw: seq<u8>)
      ensures |image| % 4 == 0 && |image| < |raw| + 4
      ensures exists n: nat :: image == raw + Fill(n)
    {
      image := raw;
      new;
      ghost var n := 0;
      assert raw + Fill(0) == raw;
      while |image| % 4 != 0
        invariant image == raw + Fill(n) && n <= (4 - |raw| % 4) % 4
        decreases 4 - n
      {
        image := image + [0xFF];
        n := n + 1;
      }
    }

    method Crc(padlen: int) returns (state: bv32)
      ensures state == PaddedCrc(image, padlen)
    {
      hide After;
      state := Walk(image, 0);
      assert image + Fill(0) == image;
      var i := |image|;
      ghost var k := 0;
      while i < padlen - 1
        invariant i == |image| + 4 * k && k <= Rounds(|image|, padlen)
        invariant state == After(0, image + Fill(4 * k))
        decreases padlen - i
      {
        state := Walk([0xFF, 0xFF, 0xFF, 0xFF], state);
        AfterConcat(0, image + Fill(4 * k), [0xFF, 0xFF, 0xFF, 0xFF]);
        assert image + Fill(4 * k) + [0xFF, 0xFF, 0xFF, 0xFF] == image + Fill(4 * (k + 1));
        i := i + 4;
        k := k + 1;
      }
    }
  }

  class Uploader {
    var port: seq<u8>   // bytes written to the serial port

    constructor ()
      ensures port == []
    {
      port := [];
    }

    /** A longer chunk has no length byte: the conversion fails in the source. */
    method ProgramMulti(data: seq<u8>)
      requires |data| <= 255
      modifies this
      ensures port == old(port) + [0x27, |data|] + data + [0x20]
      ensures port == old(port) + Message(data)
    {
      var length := LengthByte(|data|);
      port := port + [PROG_MULTI];
      port := port + [length];
      port := port + data;
      port := port + [EOC];
    }

    method SplitLen(s: seq<u8>) returns (groups: seq<seq<u8>>)
      ensures groups == Chunks(s)
    {
      groups := [];
      var i := 0;
      assert s[0..] == s;
      while i < |s|
        invariant 0 <= i && (i > |s| ==> groups == Chunks(s))
        invariant i <= |s| ==> groups + Chunks(s[i..]) == Chunks(s)
        decreases |s| - i
      {
        var end := if i + PROG_MULTI_MAX <= |s| then i + PROG_MULTI_MAX else |s|;
        groups := groups + [s[i..end]];
        NextChunk(s[i..]);
        assert s[i..end] == if |s[i..]| <= PROG_MULTI_MAX then s[i..] else s[i..][..PROG_MULTI_MAX];
        if i + PROG_MULTI_MAX <= |s| {
          assert s[i..][PROG_MULTI_MAX..] == s[end..];
        }
        i := i + PROG_MULTI_MAX;
      }
    }

    method Program(fw: Firmware)
      modifies this
      ensures port == old(port) + Messages(Chunks(fw.image))
    {
      hide Message, Chunks;
      var groups := SplitLen(fw.image);
      ChunksFit(fw.image);
      assert groups[..0] == [] && Messages([]) == [];
      for i := 0 to |groups|
        invariant port == old(port) + Messages(groups[..i])
      {
        ProgramMulti(groups[i]);
        assert groups[..i + 1] == groups[..i] + [groups[i]];
        MessagesSnoc(groups[..i], groups[i]);
      }
      assert groups[..|groups|] == groups;
    }
  }
}
