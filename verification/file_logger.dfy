/**
 * The rotating file logger. The filesystem is the map `disk` from slot index
 * to the bytes of file `<name>.<index>` (a slot absent from the map has no
 * file); what the operating system would decide (a failed open, stat, read,
 * write or remove, the directory listing) is passed in by the caller.
 */
module Logger {
  import opened Faults
  import Names
  import Slots
  import Windows
  import Recovery

  /** The logger's `file` field: nil, open on the active slot, or closed by Close. */
  datatype Handle = NoHandle | Open | Closed

  /** Bytes appended through a handle on `slot`; a slot whose file was removed keeps nothing visible. */
  function Appended(disk: map<int, seq<bv8>>, slot: int, bytes: seq<bv8>): map<int, seq<bv8>> {
    if slot in disk then disk[slot := disk[slot] + bytes] else disk
  }

  /** The disk with the files of slots 0 .. j-1 removed. */
  function RemovedBelow(disk: map<int, seq<bv8>>, j: int): map<int, seq<bv8>> {
    map i | i in disk && !(0 <= i < j) :: disk[i]
  }

  /**
   * The first slot in [from, backups) whose file cannot be removed (missing,
   * or refused by the operating system), or `backups` when there is none.
   */
  function FirstUnremovable(disk: map<int, seq<bv8>>, removeFails: set<int>, from: int, backups: int): (j: int)
    requires 0 <= from
    ensures from <= backups ==> from <= j <= backups
    ensures forall i :: from <= i < j ==> i in disk && i !in removeFails
    ensures from <= j < backups ==> j !in disk || j in removeFails
    decreases backups - from
  {
    if from >= backups then from
    else if from !in disk || from in removeFails then from
    else FirstUnremovable(disk, removeFails, from + 1, backups)
  }

  class FileLogger {
    const name: string
    const maxSize: int
    const backups: int
    var curRotate: int
    var fileSize: int
    var handle: Handle
    var disk: map<int, seq<bv8>>

    /** Once constructed, the active slot is one of the `backups` slots. */
    ghost predicate Valid()
      reads this
    {
      backups >= 1 && 0 <= curRotate < backups
    }

    /**
     * The state recovery leaves from the disk `disk0` and the directory
     * listing (None when the directory could not be read).
     */
    ghost predicate Recovered(disk0: map<int, seq<bv8>>, listing: Option<seq<Recovery.DirEntry>>, openFails: bool)
      reads this
      requires backups >= 1
    {
      match listing
      case None =>
        curRotate == 0 && fileSize == 0 && handle == NoHandle && disk == disk0
      case Some(files) =>
        var pick := Recovery.Newest(files, name, backups, |files|);
        var size := if pick.Some? then files[pick.value].size else 0;
        fileSize == size &&
        if pick.Some? && size < maxSize then
          // the latest slot file is reopened for appending
          var slot := Names.ParseSlot(files[pick.value].name, name, backups).value;
          curRotate == slot && disk == disk0 &&
          handle == (if slot in disk0 && !openFails then Open else NoHandle)
        else
          // no slot file, or the latest is full: the following slot starts empty
          var slot := if pick.Some? then Slots.Next(Names.ParseSlot(files[pick.value].name, name, backups).value, backups) else 0;
          curRotate == slot &&
          handle == (if openFails then NoHandle else Open) &&
          disk == (if openFails then disk0 else disk0[slot := []])
    }

    constructor (name: string, maxSize: int, backups: int, disk: map<int, seq<bv8>>,
                 listing: Option<seq<Recovery.DirEntry>>, openFails: bool)
      requires backups >= 1
      ensures this.name == name && this.maxSize == maxSize && this.backups == backups
      ensures Valid() && Recovered(disk, listing, openFails)
    {
      this.name := name;
      this.maxSize := maxSize;
      this.backups := backups;
      curRotate := -1;
      fileSize := 0;
      handle := NoHandle;
      this.disk := disk;
      new;
      UpdateLatestLog(listing, openFails);
    }

    /** Advance the active slot by one, wrapping to 0 after the last. */
    method NextLogFile()
      requires backups >= 1 && -1 <= curRotate < backups
      modifies this`curRotate
      ensures curRotate == Slots.Next(old(curRotate), backups)
      ensures 0 <= curRotate < backups
    {
      curRotate := curRotate + 1;
      if curRotate >= backups {
        curRotate := 0;
      }
    }

    /** Recover the active slot and its size from the directory listing. */
    method UpdateLatestLog(listing: Option<seq<Recovery.DirEntry>>, openFails: bool)
      requires backups >= 1 && curRotate == -1 && fileSize == 0 && handle == NoHandle
      modifies this
      ensures Valid() && Recovered(old(disk), listing, openFails)
    {
      match listing
      case None =>
        curRotate := 0;
      case Some(files) =>
        var latest, latestNum := Recovery.FindLatest(files, name, backups);
        curRotate := latestNum;
        fileSize := if latest.Some? then files[latest.value].size else 0;
        if fileSize >= maxSize || latest.None? {
          NextLogFile();
          var _ := OpenFile(true, openFails);
        } else {
          var _ := OpenFile(false, openFails);
        }
    }

    /**
     * Replace the handle with a new one on the active slot: truncate mode
     * creates or empties the file; append mode needs the file to exist.
     */
    method OpenFile(trunc: bool, openFails: bool) returns (err: Option<Fault>)
      modifies this`handle, this`disk
      ensures var ok := !openFails && (trunc || curRotate in old(disk));
              handle == (if ok then Open else NoHandle) && err == (if ok then None else Some(Other))
      ensures disk == if trunc && !openFails then old(disk)[curRotate := []] else old(disk)
    {
      if trunc {
        if openFails {
          handle, err := NoHandle, Some(Other);
        } else {
          disk := disk[curRotate := []];
          handle, err := Open, None;
        }
      } else {
        if openFails || curRotate !in disk {
          handle, err := NoHandle, Some(Other);
        } else {
          handle, err := Open, None;
        }
      }
    }

    /** Name of the active log file; recovery reads it back as the active slot. */
    function GetCurrentLogFile(): (s: string)
      reads this
      requires Valid()
      ensures Names.ParseSlot(s, name, backups) == Some(curRotate)
    {
      Names.SlotNameRoundTrip(name, backups, curRotate);
      Names.LogFileName(name, curRotate)
    }

    /** Name of the previous log file: the slot from which one rotation leads to the active one. */
    function GetPrevLogFile(): (s: string)
      reads this
      requires Valid()
      ensures exists i :: Names.ParseSlot(s, name, backups) == Some(i) && Slots.Next(i, backups) == curRotate
    {
      var i := Slots.PrevIndex(curRotate, backups);
      Names.SlotNameRoundTrip(name, backups, i);
      Slots.PrevThenNext(curRotate, backups);
      Names.LogFileName(name, i)
    }

    /** Empty the active file, keeping the active slot and the cached size. */
    method ClearCurLogFile(openFails: bool) returns (err: Option<Fault>)
      modifies this`handle, this`disk
      ensures curRotate == old(curRotate) && fileSize == old(fileSize)
      ensures err == (if openFails then Some(Other) else None)
      ensures handle == (if openFails then NoHandle else Open)
      ensures disk == if openFails then old(disk) else old(disk)[curRotate := []]
    {
      err := OpenFile(true, openFails);
    }

    /**
     * Remove the files of slots 0 .. backups-1 in order, then make slot 0
     * active with an empty file. The first removal that fails stops it with
     * Failed, the slots before it already removed and the active slot kept.
     */
    method ClearAllLogFile(removeFails: set<int>, openFails: bool) returns (err: Option<Fault>)
      requires Valid()
      modifies this
      ensures Valid() && fileSize == old(fileSize)
      ensures var j := FirstUnremovable(old(disk), removeFails, 0, backups);
              j < backups ==>
                err == Some(Failed) && disk == RemovedBelow(old(disk), j) &&
                curRotate == old(curRotate) && handle == old(handle)
      ensures var j := FirstUnremovable(old(disk), removeFails, 0, backups);
              j == backups ==>
                curRotate == 0 &&
                err == (if openFails then Some(Failed) else None) &&
                handle == (if openFails then NoHandle else Open) &&
                disk == (if openFails then RemovedBelow(old(disk), backups)
                         else RemovedBelow(old(disk), backups)[0 := []])
    {
      for i := 0 to backups
        invariant disk == RemovedBelow(old(disk), i)
        invariant forall k :: 0 <= k < i ==> k in old(disk) && k !in removeFails
        invariant curRotate == old(curRotate) && handle == old(handle) && fileSize == old(fileSize)
      {
        if i !in disk || i in removeFails {
          assert FirstUnremovable(old(disk), removeFails, 0, backups) == i by {
            FirstUnremovableIsFirst(old(disk), removeFails, 0, i, backups);
          }
          return Some(Failed);
        }
        disk := map k | k in disk && k != i :: disk[k];
      }
      FirstUnremovableIsFirst(old(disk), removeFails, 0, backups, backups);
      curRotate := 0;
      var e := OpenFile(true, openFails);
      err := if e.Some? then Some(Failed) else None;
    }

    /**
     * The bytes at a window of the active file, with the argument checks
     * done before the file is opened.
     */
    method ReadLog(offset: int, length: int, openFails: bool, statFails: bool, readFails: bool)
      returns (content: seq<bv8>, err: Option<Fault>)
      ensures Windows.BadReadArgs(offset, length) ==> content == [] && err == Some(BadArguments)
      ensures !Windows.BadReadArgs(offset, length) && (curRotate !in disk || openFails || statFails) ==>
                content == [] && err == Some(Failed)
      ensures !Windows.BadReadArgs(offset, length) && curRotate in disk && !openFails && !statFails ==>
                var data := disk[curRotate];
                // the answer is a slice of the file, or an I/O failure
                (err == None ==> exists s, e :: 0 <= s <= e <= |data| && content == data[s..e]) &&
                (err != None ==> content == [] && err == Some(Failed) && readFails) &&
                (readFails ==> content == []) &&
                // a zero-byte window reads nothing, so it cannot fail
                (offset >= 0 && length == 0 && offset == |data| ==> content == [] && err == None) &&
                (offset < 0 && |data| == 0 ==> content == [] && err == None) &&
                // a failed read of a non-empty window is reported as Failed
                (readFails && offset < 0 && |data| > 0 ==> err == Some(Failed)) &&
                (readFails && 0 <= offset < |data| && length >= 0 ==> err == Some(Failed)) &&
                // a negative offset counts back from the end
                (offset < 0 && err == None ==> content == data[|data| - Windows.Min(-offset, |data|)..]) &&
                // past the end: empty, and no error
                (offset >= 0 && length == 0 && offset > |data| ==> content == [] && err == None) &&
                (offset >= 0 && length > 0 && offset >= |data| ==> content == [] && err == None) &&
                // inside the file: from offset up to offset + length, or to the end when length is 0
                (0 <= offset <= |data| && length == 0 && err == None ==> content == data[offset..]) &&
                (0 <= offset < |data| && length > 0 && err == None ==>
                   content == data[offset..Windows.Min(offset + length, |data|)])
    {
      if Windows.BadReadArgs(offset, length) {
        return [], Some(BadArguments);
      }
      if curRotate !in disk || openFails || statFails {
        return [], Some(Failed);
      }
      var data := disk[curRotate];
      var span := Windows.ReadLogSpan(offset, length, |data|);
      match span
      case None =>
        content, err := [], None;
        assert content == data[0..0];
      case Some(s) =>
        if s.count > 0 && readFails {
          content, err := [], Some(Failed);
        } else {
          content, err := data[s.start..s.start + s.count], None;
        }
    }

    /**
     * A tail read of the active file: the bytes from `offset`, the offset to
     * resume from and whether the end was reached.
     */
    method ReadTailLog(offset: int, length: int, openFails: bool, statFails: bool, readFails: bool)
      returns (content: seq<bv8>, next: int, reachedEnd: bool, err: Option<Fault>)
      ensures content == [] || err == None
      ensures offset < 0 || length < 0 ==> next == offset && !reachedEnd && err == Some(Other)
      ensures offset >= 0 && length >= 0 && (curRotate !in disk || openFails || statFails) ==>
                next == 0 && !reachedEnd && err == Some(Other)
      ensures offset >= 0 && length >= 0 && curRotate in disk && !openFails && !statFails ==>
                var data := disk[curRotate];
                var r := Windows.TailRead(data, offset, length);
                if offset < |data| && 0 < length && readFails then
                  next == offset && !reachedEnd && err == Some(Other)
                else
                  content == r.content && next == r.next && reachedEnd == r.reachedEnd && err == None
    {
      if offset < 0 || length < 0 {
        return [], offset, false, Some(Other);
      }
      if curRotate !in disk || openFails || statFails {
        return [], 0, false, Some(Other);
      }
      var data := disk[curRotate];
      match Windows.TailSpan(offset, length, |data|)
      case None =>
        return [], |data|, true, None;
      case Some(s) =>
        if s.count > 0 && readFails {
          return [], offset, false, Some(Other);
        }
        return data[s.start..s.start + s.count], s.start + s.count, false, None;
    }

    /**
     * Append `p` to the active file. A failed append keeps the slot and the
     * cached size. Otherwise the cached size grows by |p|; once it reaches
     * maxSize the file is re-stated, and only when its real size is also at
     * least maxSize does the logger rotate to the next slot, emptying that
     * slot alone. The cached size is not reset by the rotation.
     */
    method Write(p: seq<bv8>, appendFails: bool, accepted: nat, statFails: bool, openFails: bool)
      returns (n: nat, err: Option<Fault>)
      requires Valid() && accepted <= |p|
      modifies this
      ensures Valid()
      // no usable handle: nothing is written
      ensures old(handle) != Open ==>
                n == 0 && err == Some(Other) && curRotate == old(curRotate) && fileSize == old(fileSize) &&
                handle == old(handle) && disk == old(disk)
      // the append fails after `accepted` bytes
      ensures old(handle) == Open && appendFails ==>
                n == accepted && err == Some(Other) && curRotate == old(curRotate) && fileSize == old(fileSize) &&
                handle == Open && disk == Appended(old(disk), old(curRotate), p[..accepted])
      // below the threshold: just counted
      ensures old(handle) == Open && !appendFails && old(fileSize) + |p| < maxSize ==>
                n == |p| && err == None && curRotate == old(curRotate) && fileSize == old(fileSize) + |p| &&
                handle == Open && disk == Appended(old(disk), old(curRotate), p)
      // at the threshold but the re-stat fails: the error is returned, no rotation
      ensures old(handle) == Open && !appendFails && old(fileSize) + |p| >= maxSize &&
              (old(curRotate) !in old(disk) || statFails) ==>
                n == |p| && err == Some(Other) && curRotate == old(curRotate) && fileSize == old(fileSize) + |p| &&
                handle == Open && disk == Appended(old(disk), old(curRotate), p)
      // at the threshold and re-stated: the real size decides
      ensures old(handle) == Open && !appendFails && old(fileSize) + |p| >= maxSize &&
              old(curRotate) in old(disk) && !statFails ==>
                var written := Appended(old(disk), old(curRotate), p);
                var size := |written[old(curRotate)]|;
                n == |p| && err == None && fileSize == size &&
                if size < maxSize then
                  curRotate == old(curRotate) && handle == Open && disk == written
                else
                  curRotate == Slots.Next(old(curRotate), backups) &&
                  handle == (if openFails then NoHandle else Open) &&
                  disk == (if openFails then written else written[curRotate := []])
    {
      if handle != Open {
        return 0, Some(Other);
      }
      if appendFails {
        disk := Appended(disk, curRotate, p[..accepted]);
        return accepted, Some(Other);
      }
      disk := Appended(disk, curRotate, p);
      n := |p|;
      fileSize := fileSize + n;
      if fileSize >= maxSize {
        if curRotate in disk && !statFails {
          fileSize := |disk[curRotate]|;
        } else {
          return n, Some(Other);
        }
      }
      if fileSize >= maxSize {
        NextLogFile();
        var _ := OpenFile(true, openFails);
      }
      err := None;
    }

    /** Close the handle; a nil handle closes without error, a closed one reports an error. */
    method Close(closeFails: bool) returns (err: Option<Fault>)
      modifies this`handle
      ensures handle == (if old(handle) == NoHandle then NoHandle else Closed)
      ensures err == match old(handle)
                     case NoHandle => None
                     case Open => if closeFails then Some(Other) else None
                     case Closed => Some(Other)
    {
      match handle
      case NoHandle =>
        err := None;
      case Open =>
        handle := Closed;
        err := if closeFails then Some(Other) else None;
      case Closed =>
        err := Some(Other);
    }
  }

  /** A slot whose earlier slots are all removable and which itself is not is the first unremovable one. */
  lemma FirstUnremovableIsFirst(disk: map<int, seq<bv8>>, removeFails: set<int>, from: int, j: int, backups: int)
    requires 0 <= from <= j <= backups
    requires forall i :: from <= i < j ==> i in disk && i !in removeFails
    requires j < backups ==> j !in disk || j in removeFails
    ensures FirstUnremovable(disk, removeFails, from, backups) == j
  {
  }
}
