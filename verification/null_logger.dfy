/** The discarding logger: accepts every write and has no file behind it. */
module NullLog {
  import opened Faults

  class NullLogger {

    constructor () {
    }

    /** Every byte is reported written and dropped. */
    method Write(p: seq<bv8>) returns (n: nat, err: Option<Fault>)
      ensures n == |p| && err == None
    {
      n, err := |p|, None;
    }

    /** There is nothing to release. */
    method Close() returns (err: Option<Fault>)
      ensures err == None
    {
      err := None;
    }

    /** Range reads report that no file backs this logger. */
    method ReadLog(offset: int, length: int) returns (content: seq<bv8>, err: Option<Fault>)
      ensures content == [] && err == Some(NoFile)
    {
      content, err := [], Some(NoFile);
    }

    /** Tail reads report that no file backs this logger, with offset 0 and the end not reached. */
    method ReadTailLog(offset: int, length: int) returns (content: seq<bv8>, next: int, reachedEnd: bool, err: Option<Fault>)
      ensures content == [] && next == 0 && !reachedEnd && err == Some(NoFile)
    {
      content, next, reachedEnd, err := [], 0, false, Some(NoFile);
    }

    /** Clearing the current file fails with a plain error rather than NoFile. */
    method ClearCurLogFile() returns (err: Option<Fault>)
      ensures err == Some(Other)
    {
      err := Some(Other);
    }

    /** Clearing all files reports that no file backs this logger. */
    method ClearAllLogFile() returns (err: Option<Fault>)
      ensures err == Some(NoFile)
    {
      err := Some(NoFile);
    }
  }
}
