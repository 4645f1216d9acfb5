/** Client scenarios of the logger, verified against the contracts alone. */
module Scenarios {
  import opened Faults
  import Names
  import Recovery
  import Logger

  /** Recovery picks the most recently modified slot file and appends after its content. */
  method RecoveryResumesLatestSlot(old0: seq<bv8>, old2: seq<bv8>)
    requires |old0| == 10 && |old2| == 20
  {
    var files := [Recovery.DirEntry("app.0", 10, 1), Recovery.DirEntry("app.2", 20, 5),
                  Recovery.DirEntry("app.x", 1, 9)];
    Names.SlotNameRoundTrip("app", 3, 0);
    Names.SlotNameRoundTrip("app", 3, 2);
    assert Names.LogFileName("app", 0) == "app.0" && Names.LogFileName("app", 2) == "app.2";
    assert Names.ParseDecimal("x") == None;
    assert Recovery.Newest(files, "app", 3, 3) == Some(1);
    var l := new Logger.FileLogger("app", 100, 3, map[0 := old0, 2 := old2], Some(files), false);
    assert l.curRotate == 2 && l.fileSize == 20 && l.handle == Logger.Open;
    var n, err := l.Write([7], false, 0, false, false);
    assert n == 1 && err == None && l.curRotate == 2 && l.disk[2] == old2 + [7];
  }

  /**
   * maxSize 100 and three slots, starting fresh: 80 bytes stay in slot 0;
   * 30 more are appended to slot 0 too (110 bytes) and only then does the
   * logger rotate to an empty slot 1, its cached size still 110.
   */
  method RotationAfterThreshold(a: seq<bv8>, b: seq<bv8>)
    requires |a| == 80 && |b| == 30
  {
    var l := new Logger.FileLogger("app", 100, 3, map[], Some([]), false);
    assert l.curRotate == 0 && l.disk == map[0 := []] && l.handle == Logger.Open;
    var n, err := l.Write(a, false, 0, false, false);
    assert l.curRotate == 0 && l.fileSize == 80 && l.disk[0] == a;
    n, err := l.Write(b, false, 0, false, false);
    assert err == None && l.curRotate == 1 && l.fileSize == 110;
    assert l.disk == map[0 := a + b, 1 := []];
  }

  /**
   * ClearAllLogFile on a logger that has only ever used slot 0 of three:
   * removing the missing slot 1 fails, so the call reports Failed after slot 0
   * is already gone, and the following range read cannot open the active file.
   */
  method ClearAllBeforeFullCycle() {
    var l := new Logger.FileLogger("app", 100, 3, map[], Some([]), false);
    assert l.disk == map[0 := []];
    var err := l.ClearAllLogFile({}, false);
    assert Logger.FirstUnremovable(map[0 := []], {}, 0, 3) == 1 by {
      Logger.FirstUnremovableIsFirst(map[0 := []], {}, 0, 1, 3);
    }
    assert err == Some(Failed) && l.curRotate == 0 && l.disk == map[];
    var content, rerr := l.ReadLog(0, 0, false, false, false);
    assert rerr == Some(Failed);
  }

  /** A successful ClearAllLogFile leaves an empty active file, which reads back empty and without error. */
  method ClearAllThenRead(d0: seq<bv8>, d1: seq<bv8>, readFails: bool) {
    var l := new Logger.FileLogger("app", 100, 2, map[0 := d0, 1 := d1], None, false);
    var err := l.ClearAllLogFile({}, false);
    assert Logger.FirstUnremovable(map[0 := d0, 1 := d1], {}, 0, 2) == 2 by {
      Logger.FirstUnremovableIsFirst(map[0 := d0, 1 := d1], {}, 0, 2, 2);
    }
    assert err == None && l.curRotate == 0 && l.disk[0] == [];
    var content, rerr := l.ReadLog(0, 0, false, false, readFails);
    assert content == [] && rerr == None;
  }
}
