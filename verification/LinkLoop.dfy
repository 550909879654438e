/**
 The part of the link loop of src/fmulink/fmulink.go that passes raw cloud commands on: it reads the slot,
 encodes what it finds, and clears the slot, each proved against CommandSlot.
 */
module LinkLoop {
  import opened Bytes
  import opened MavlinkFrames
  import opened MavlinkStreams
  import opened MavlinkCodec
  import opened CloudLinkObjects
  import CommandSlot

  class RawCommands {
    const cl: CloudLink
    const enc: Encoder
    var inHand: bool
    ghost var encoded: seq<seq<u8>>

    ghost function Abs(): CommandSlot.State
      reads this, cl
    {
      CommandSlot.State(cl.rawFmuCmd, inHand, encoded)
    }

    constructor (cl: CloudLink, enc: Encoder)
      ensures this.cl == cl && this.enc == enc && !inHand && encoded == []
    {
      this.cl, this.enc, inHand, encoded := cl, enc, false, [];
    }

    /** A command shorter than an empty frame is a slice fault in the source. */
    method TakeCommand() returns (fault: bool)
      requires cl.Valid() && !inHand
      modifies this, enc
      ensures cl.Valid()
      ensures fault <==> cl.rawFmuCmd.Some? && |cl.rawFmuCmd.value| < 8
      ensures !fault ==> Abs() == CommandSlot.Step(old(Abs()), CommandSlot.LinkMoves)
      ensures !fault && cl.rawFmuCmd.Some? ==>
        var (bytes, err) := EncodeBytes(enc.dialects, old(enc.currSeqId), ChunkPacket(cl.rawFmuCmd.value).value);
        && enc.bw == old(enc.bw) + bytes
        && enc.currSeqId == if err.None? then (old(enc.currSeqId) + 1) % 256 else old(enc.currSeqId)
      ensures fault || cl.rawFmuCmd.None? ==> enc.bw == old(enc.bw) && enc.currSeqId == old(enc.currSeqId)
    {
      var chunk := cl.GetRawFmuCmd();
      if chunk.None? {
        return false;
      }
      if |chunk.value| < 8 {
        return true;
      }
      var _ := enc.EncodePacket(ChunkPacket(chunk.value).value);
      inHand := true;
      encoded := encoded + [chunk.value];
      fault := false;
    }

    method ClearCommand()
      requires cl.Valid() && inHand
      modifies this, cl`rawFmuCmd
      ensures cl.Valid() && Abs() == CommandSlot.Step(old(Abs()), CommandSlot.LinkMoves)
    {
      cl.NullRawFmuCmd();
      inHand := false;
    }
  }
}
