/**
 The flight log writer of src/fmulink/flightsaver.go: at most one record of each message id between two
 wakes of its timer.  Proved against the machine of Throttles.
 */
module FlightLog {
  import opened Bytes
  import opened Throttles

  class FlightSaver {
    var isLogging: bool
    var msgSet: set<u8>
    var file: Option<seq<seq<u8>>>   // the records of the open file, each a time stamp and a packet

    constructor ()
      ensures !isLogging && msgSet == {} && file == None
    {
      isLogging, msgSet, file := false, {}, None;
    }

    /** `created`: the file system let the file be made. */
    method Start(created: bool) returns (ok: bool)
      modifies this
      ensures ok == created && msgSet == {}
      ensures if created then isLogging && file == Some([]) else isLogging == old(isLogging) && file == old(file)
    {
      msgSet := {};
      if !created {
        return false;
      }
      file := Some([]);
      isLogging := true;
      ok := true;
    }

    method Wakes()
      modifies this`msgSet
      ensures file.Some? ==> (msgSet, file.value) == Persisted((old(msgSet), file.value), Wake)
    {
      msgSet := {};
    }

    /** Fails exactly when no log is open. */
    method Persist(data: seq<u8>, hdr: u8, stamp: seq<u8>) returns (ok: bool)
      modifies this`msgSet, this`file
      ensures ok == (isLogging && old(file).Some?)
      ensures ok ==>
        file.Some? && (msgSet, file.value) == Persisted((old(msgSet), old(file).value), Seen(hdr, stamp + data))
      ensures !ok ==> msgSet == old(msgSet) && file == old(file)
    {
      if isLogging && file.Some? {
        if hdr !in msgSet {
          msgSet := msgSet + {hdr};
          file := Some(file.value + [stamp + data]);
        }
        ok := true;
      } else {
        ok := false;
      }
    }
  }
}
