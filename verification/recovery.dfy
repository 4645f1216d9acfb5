/**
 * The directory scan of construction: among the listed entries that name a
 * rotation slot in range, find the most recently modified one.
 */
module Recovery {
  import opened Faults
  import Names

  /** One entry of the directory listing: base name, size in bytes, modification time. */
  datatype DirEntry = DirEntry(name: string, size: nat, modTime: int)

  predicate IsSlotFile(e: DirEntry, name: string, backups: int) {
    Names.ParseSlot(e.name, name, backups).Some?
  }

  /**
   * Position of the latest slot file among the first `n` entries: an entry
   * replaces the current pick only when its modification time is strictly
   * later, so the first of equally recent entries is kept.
   */
  function Newest(files: seq<DirEntry>, name: string, backups: int, n: nat): (r: Option<nat>)
    requires n <= |files|
    ensures r.Some? ==> r.value < n && IsSlotFile(files[r.value], name, backups)
  {
    if n == 0 then None
    else
      var prev := Newest(files, name, backups, n - 1);
      if IsSlotFile(files[n - 1], name, backups) &&
         (prev.None? || files[prev.value].modTime < files[n - 1].modTime)
      then Some(n - 1)
      else prev
  }

  /** Nothing is picked exactly when no entry names a slot in range. */
  lemma {:induction false} NewestNoneIff(files: seq<DirEntry>, name: string, backups: int, n: nat)
    requires n <= |files|
    ensures Newest(files, name, backups, n).None? <==>
            forall j :: 0 <= j < n ==> !IsSlotFile(files[j], name, backups)
  {
    if n > 0 {
      NewestNoneIff(files, name, backups, n - 1);
    }
  }

  /**
   * The pick is the first entry with the latest modification time: every
   * slot file listed before it is strictly older, every one after it is not
   * newer.
   */
  lemma {:induction false} NewestIsFirstLatest(files: seq<DirEntry>, name: string, backups: int, n: nat)
    requires n <= |files| && Newest(files, name, backups, n).Some?
    ensures var k := Newest(files, name, backups, n).value;
            (forall j :: 0 <= j < k && IsSlotFile(files[j], name, backups) ==> files[j].modTime < files[k].modTime) &&
            (forall j :: k < j < n && IsSlotFile(files[j], name, backups) ==> files[j].modTime <= files[k].modTime)
  {
    var prev := Newest(files, name, backups, n - 1);
    if prev.Some? {
      NewestIsFirstLatest(files, name, backups, n - 1);
    } else {
      NewestNoneIff(files, name, backups, n - 1);
    }
  }

  /** The two properties above single the pick out: any entry that has them is the pick. */
  lemma NewestUnique(files: seq<DirEntry>, name: string, backups: int, k: nat)
    requires k < |files| && IsSlotFile(files[k], name, backups)
    requires forall j :: 0 <= j < k && IsSlotFile(files[j], name, backups) ==> files[j].modTime < files[k].modTime
    requires forall j :: k < j < |files| && IsSlotFile(files[j], name, backups) ==> files[j].modTime <= files[k].modTime
    ensures Newest(files, name, backups, |files|) == Some(k)
  {
    NewestNoneIff(files, name, backups, |files|);
    NewestIsFirstLatest(files, name, backups, |files|);
  }

  /**
   * The scanning loop of recovery: returns the position of the latest slot
   * file and its slot number, or None and -1 when the listing holds none.
   */
  method FindLatest(files: seq<DirEntry>, name: string, backups: int) returns (latest: Option<nat>, latestNum: int)
    ensures latest == Newest(files, name, backups, |files|)
    ensures latest.None? ==> latestNum == -1
    ensures latest.Some? ==> Names.ParseSlot(files[latest.value].name, name, backups) == Some(latestNum)
  {
    latest, latestNum := None, -1;
    for i := 0 to |files|
      invariant latest == Newest(files, name, backups, i)
      invariant latest.None? ==> latestNum == -1
      invariant latest.Some? ==> Names.ParseSlot(files[latest.value].name, name, backups) == Some(latestNum)
    {
      var n := Names.ParseSlot(files[i].name, name, backups);
      if n.Some? && (latest.None? || files[latest.value].modTime < files[i].modTime) {
        latest, latestNum := Some(i), n.value;
      }
    }
  }
}
