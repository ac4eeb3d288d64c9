/** Where responses and frames go: a writer that can fail. */
module Sinks {
  import opened Bytes

  /** The receiving end of a connection, and how many of the calls made on it failed. */
  class ByteSink {
    var sent: bytes
    var failures: nat

    constructor ()
      ensures sent == [] && failures == 0
    {
      sent, failures := [], 0;
    }

    /** Writes and flushes. Either can fail, with some of the bytes passed on or all. */
    method Write(data: bytes) returns (ok: bool)
      modifies this
      ensures old(sent) <= sent <= old(sent) + data
      ensures ok ==> sent == old(sent) + data
      ensures failures == old(failures) + if ok then 0 else 1
    {
      ok := *;
      var n: nat :| n <= |data| && (ok ==> n == |data|);
      sent := sent + data[..n];
      if !ok {
        failures := failures + 1;
      }
    }

    /** Closes what encodes the stream: nothing of the content is left to be written, but this can fail too. */
    method Finish() returns (ok: bool)
      modifies this`failures
      ensures failures == old(failures) + if ok then 0 else 1
    {
      ok := *;
      if !ok {
        failures := failures + 1;
      }
    }
  }
}
