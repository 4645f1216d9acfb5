# Rotating file logger — Dafny model

A model of the rotating file logger `FileLogger` of log.go (package `core`)
and its discarding sibling `NullLogger`. The file logger appends bytes to one
of `backups` slot files named `<name>.<i>`. When the active file reaches
`maxSize` it rotates to the next slot, wrapping around, and truncates it. On
construction it recovers the active slot from a directory listing. It serves
a byte-range read (`ReadLog`) and a tail read (`ReadTailLog`) that returns
the offset to resume from.

Modules:

- `Faults`: `Option` and the error kinds (`BadArguments`, `Failed`, `NoFile`,
  and `Other` for a plain error value whose text is not modelled).
- `Names`: `%d` formatting, the slot file name `<name>.<i>`, and the digit
  parser that recovery uses to read the index back.
- `Slots`: slot arithmetic. It covers advancing with wrap-around, the previous
  slot computed with Go's truncating `%`, and how rotations cycle through the slots.
- `Windows`: the byte window `ReadLog` and `ReadTailLog` resolve from
  `(offset, length)` and the file length, and what a tail poller collects.
- `Recovery`: the directory scan of construction. `Newest` specifies it and
  the `FindLatest` loop implements it.
- `Logger`: class `FileLogger`. Its fields `curRotate`, `fileSize` and
  `handle` are updated in place by its methods. Its field `disk` is the
  filesystem: a map from slot index to the bytes of file `<name>.<index>`.
  A slot missing from the map has no file.
- `NullLog`: class `NullLogger`, whose methods return fixed results.
- `Scenarios`: client scenarios verified against the contracts alone. They cover
  recovery resuming the newest slot, a rotation at the threshold,
  `ClearAllLogFile` on a logger that has not yet used every slot, and a
  successful `ClearAllLogFile` followed by an empty, error-free range read.

Operating-system outcomes are parameters of the methods. These are the
directory listing (`None` when the directory cannot be read) and booleans
for a failed open, stat, read, append, remove or close. An append-mode open
also fails when the slot file is missing. A removal also fails on a missing
slot file.

Where the code differs from what one might expect, the model follows the
code. The one exception is the int64 overflow in the read windows (see
"## Findings"), where the reads use the corrected window:

- After a rotation, `Write` keeps the cached size at the re-stated size of
  the old file; it is not reset to 0. `ClearCurLogFile` does not reset it
  either. The next successful write re-stats the new file and corrects the size.
- The bytes of the write that crosses the threshold go to the old slot. With
  `maxSize` 100, writing 80 and then 30 bytes leaves 110 bytes in slot 0 and
  an empty slot 1 (`Scenarios.RotationAfterThreshold`).
- `ReadTailLog` at or past the end returns the file length as the next
  offset, not the caller's offset.
- A tail read with length 0 inside the file returns nothing, the same
  offset and "end not reached", so a poller using 0 never finishes
  (`Windows.TailReadZeroLength`). `ReadLog` instead reads length 0 as "to the
  end".
- When the directory cannot be read, recovery sets slot 0 and opens no file.
  Every `Write` fails until a clear opens a file.
- `ClearAllLogFile` treats a missing slot file as a removal failure. A logger
  that has not yet used every slot therefore fails to clear. The slots before
  the missing one are already removed by then, and that can include the
  active file (`Scenarios.ClearAllBeforeFullCycle`).

## Model

| member | source | states |
|---|---|---|
| `Names.FormatNat` | log.go:124 | `%d` of a non-negative index is a non-empty run of digits, with a leading zero only for 0 |
| `Names.FormatInt` | log.go:124 | `%d` of an index is all digits exactly when the index is non-negative |
| `Names.ParseFormatNat` | log.go:72 | parsing the decimal rendering of any n gives back n |
| `Names.LogFileName` | log.go:123-125 | a slot file name starts with `<name>.`, and for a non-negative index its suffix parses back to the index |
| `Names.ParseSlot` | log.go:71-73 | an entry is recognised exactly when it starts with `<name>.` and the rest parses as a decimal below `backups`, and its slot is that decimal value |
| `Names.SlotNameRoundTrip` | log.go:123-125 | recovery recognises every file the logger creates, `<name>.<i>` for 0 ≤ i < backups, as slot i |
| `Names.SlotNamesDistinct` | log.go:123-125 | distinct slots have distinct file names |
| `Slots.GoRem` | log.go:118 | Go's `%` agrees with the Euclidean remainder on non-negative operands and lies in (-b, 0] on negative ones |
| `Slots.PrevIndex` | log.go:118 | the previous-slot index is in [0, backups) for every non-negative current slot |
| `Slots.PrevThenNext` | log.go:117-121 | advancing once from the previous slot gives the current slot |
| `Slots.NextThenPrev` | log.go:53-58 | after advancing, the previous slot is the one that was active before |
| `Slots.NextStep` | log.go:53-58 | advancing moves to the following slot, or wraps to 0 from the last |
| `Slots.RotatedWithinCycle` | log.go:277-280 | k ≤ backups rotations advance the slot by k, wrapping once |
| `Slots.SlotReusedOnlyAfterFullCycle` | log.go:277-280 | rotation comes back to a slot after exactly `backups` rotations and not before, so each file survives `backups - 1` rotations |
| `Windows.ReadLogSpan` | log.go:179-202 | the window lies within [0, fileLen]. A negative offset gives the last min(-offset, fileLen) bytes. Length 0 reads to the end, and an offset past the end gives empty content. A positive length gives empty content at or past the end, else min(length, fileLen - offset) bytes |
| `Windows.ReadLogSpanAsWritten` | log.go:199-201 | with the int64 wrap-around of `offset + length`, agrees with `ReadLogSpan` whenever the sum does not overflow |
| `Windows.ReadLogSpanOverruns` | log.go:199-204 | as written, offset 1 and length MaxInt64 over a 10-byte file give a window past the end of the file |
| `Windows.TailSpan` | log.go:239-247 | the end is reached exactly when offset ≥ fileLen. Otherwise the window starts at offset, stays inside the file and holds `length` bytes or everything up to the end |
| `Windows.TailSpanAsWritten` | log.go:245-247 | with the int64 wrap-around, agrees with `TailSpan` whenever `offset + length` does not overflow |
| `Windows.TailSpanOverruns` | log.go:245-249 | as written, a tail read of MaxInt64 bytes from offset 1 of a 10-byte file gets a window past the end |
| `Windows.TailRead` | log.go:236-254 | at or past the end: empty content, next offset = file length, end reached. Otherwise the content is the file slice [offset, next), with next = offset + min(length, fileLen - offset) |
| `Windows.TailReadZeroLength` | log.go:245-254 | a zero-length tail read inside the file returns no bytes, the same offset and end not reached |
| `Windows.PollReadsRest` | log.go:212-254 | feeding each next offset back until the end is reported reads the rest of the file exactly once, in order |
| `Recovery.Newest` | log.go:68-80 | the pick, when there is one, is a listed entry that names a slot in range |
| `Recovery.NewestNoneIff` | log.go:68-86 | nothing is picked exactly when no entry names a slot in range |
| `Recovery.NewestIsFirstLatest` | log.go:74-77 | every slot file listed before the pick is strictly older, and none listed after it is newer |
| `Recovery.NewestUnique` | log.go:70-80 | any entry that is the first latest slot file is the pick |
| `Recovery.FindLatest` | log.go:68-81 | the scanning loop returns the pick of `Newest` and its slot number, or no entry and -1 |
| `Logger.FirstUnremovable` | log.go:139-145 | every slot before the result can be removed, and the result, when below `backups`, cannot |
| `Logger.FirstUnremovableIsFirst` | log.go:139-145 | a slot with every earlier slot removable and itself unremovable is the first unremovable one |
| `Logger.FileLogger.constructor` | log.go:40-50 | a new logger holds its parameters, has an in-range active slot and is in the recovered state |
| `Logger.FileLogger.UpdateLatestLog` | log.go:60-94 | if the directory cannot be read: slot 0, no file opened. If the newest slot file is below maxSize: that slot, its listed size, opened for append. Otherwise the next slot (0 if none was found), truncated, with the cached size the listed size or 0 |
| `Logger.FileLogger.NextLogFile` | log.go:53-58 | from a slot in [-1, backups) the new slot is (old + 1) mod backups, in [0, backups) |
| `Logger.FileLogger.OpenFile` | log.go:97-109 | truncate mode empties or creates the active file; append mode needs it to exist; the handle is open exactly when the open succeeds |
| `Logger.FileLogger.GetCurrentLogFile` | log.go:112-114 | the active file's name is read back by recovery as the active slot |
| `Logger.FileLogger.GetPrevLogFile` | log.go:117-121 | the previous file's name is the slot from which one rotation leads to the active slot |
| `Logger.FileLogger.ClearCurLogFile` | log.go:128-133 | only the active slot is emptied; the slot and the cached size are kept |
| `Logger.FileLogger.ClearAllLogFile` | log.go:135-152 | slots are removed in order. The first failure returns Failed with the earlier slots removed and the active slot and handle kept. Otherwise slot 0 is active and recreated empty, or Failed when it cannot be created |
| `Logger.FileLogger.ReadLog` | log.go:154-210 | bad argument shapes give BadArguments whatever the file. Open/stat failures give Failed. So does a failed read of a non-empty window, while a zero-byte window always gives empty content and no error. Otherwise the content is a slice of the file: the last min(-offset, F) bytes, empty past the end, or [offset, min(offset + length, F)) with length 0 meaning to the end |
| `Logger.FileLogger.ReadTailLog` | log.go:212-256 | a negative argument is an error echoing the offset. Open/stat failures are errors with offset 0. A failed read echoes the offset. Otherwise the result is the tail read of the active file |
| `Logger.FileLogger.Write` | log.go:259-282 | a failed append keeps slot and size. Otherwise the size grows by \|p\|. A failed re-stat returns the error without rotating. Rotation needs both the cached and the re-stated size ≥ maxSize, advances one slot, empties only that slot, and keeps the re-stated size |
| `Logger.FileLogger.Close` | log.go:284-289 | a nil handle closes without error; an open one becomes closed, reporting the close error; a closed one reports an error |
| `NullLog.NullLogger.Write` | log.go:295-297 | every byte is reported written, without error |
| `NullLog.NullLogger.Close` | log.go:299-301 | closing never fails |
| `NullLog.NullLogger.ReadLog` | log.go:303-305 | empty content and NoFile |
| `NullLog.NullLogger.ReadTailLog` | log.go:307-309 | empty content, offset 0, end not reached, NoFile |
| `NullLog.NullLogger.ClearCurLogFile` | log.go:311-313 | a plain error |
| `NullLog.NullLogger.ClearAllLogFile` | log.go:315-317 | NoFile |

## Left out

- `StdoutLogger` and `StderrLogger`: their writes are calls into the operating system's console streams. Everything else in them is constant.
- Locking (`sync.Locker`, `NullLocker`): every method is modelled as one sequential step, so the lock has nothing to do.
- Operating-system calls are replaced by the `disk` map, the listing parameter and failure booleans: `os.Create`, `os.OpenFile`, `os.Open`, `Stat`, `ReadAt`, `os.Remove`, `ioutil.ReadDir` and `path.Dir`. Size checks read the map, so a file changed by another process is not modelled. A read that succeeds returns the whole window; partial reads are not modelled.
- File handles are reduced to the three states of `Logger.Handle`; the descriptor a read opens and closes is not modelled.
- `NewFault` and the fault constants are not part of this model; error messages are opaque.
- `Names.ParseDecimal`: accepts decimal digits only. `strconv.Atoi` also accepts a leading sign, so entries like `<name>.+1` or `<name>.-0` are recognised by the source and not by the model. Its out-of-range error for numbers beyond int64 does not change which entries match, because such numbers are never below `backups`.
- The prefix test compares each listed entry name against `<name>.` as written. The listing holds base names while `name` may include a directory; the model leaves that mismatch as the source has it.
- Strings are sequences of characters, each taken as one byte.
- `Logger.FileLogger.ReadLog` uses the corrected window `Windows.ReadLogSpan` of the first "## Findings" row. When `offset + length` overflows int64 the source asks `make` for about MaxInt64 bytes and panics. The model returns the clamped window instead.
- `Logger.FileLogger.ReadTailLog` uses the corrected window `Windows.TailSpan` of the second "## Findings" row. The source panics in the same way on an overflowing `offset + length`; the model returns the clamped window.
- `Logger.FileLogger.constructor` requires `backups >= 1`. The source also accepts `backups <= 0`: no entry is recognised, every rotation lands on slot 0, the logger works as one slot, and with `backups == 0` `GetPrevLogFile` divides by zero; with negative `backups` it names slot -1 or 0.
- `ioutil.ReadDir` returns entries sorted by name, so in the source "first listed wins ties" means the smallest name wins. The model accepts the listing in any order.
- `Logger.FileLogger.Write`: the cached size is an unbounded integer; int64 overflow of `fileSize` is not modelled.
- Modification times are abstract integers. The listing does not tell files from directories.

## Findings

| source | as written | input that shows it | evidently intended | confidence | as-written member | corrected member |
|---|---|---|---|---|---|---|
| log.go:199-201 | the clamp tests `offset+length > fileLen` on int64, and the sum wraps negative for large lengths, so the length is not clamped | `ReadLog(1, MaxInt64)` on a 10-byte file: the sum wraps to MinInt64 and `make([]byte, MaxInt64)` is asked for (`Windows.ReadLogSpanOverruns`) | the window is cut at the end of the file for every length | high; not executed | `Windows.ReadLogSpanAsWritten` | `Windows.ReadLogSpan` |
| log.go:245-247 | the same wrapping test in the tail read | `ReadTailLog(1, MaxInt64)` on a 10-byte file (`Windows.TailSpanOverruns`) | a poller may ask for "everything" and get the rest of the file | high; not executed | `Windows.TailSpanAsWritten` | `Windows.TailSpan` |
