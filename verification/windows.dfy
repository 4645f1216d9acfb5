/**
 * The byte windows that ReadLog and ReadTailLog resolve from a caller's
 * (offset, length) and the active file's length, before any bytes are read.
 */
module Windows {
  import opened Faults

  const MinInt64: int := -0x8000_0000_0000_0000
  const MaxInt64: int := 0x7FFF_FFFF_FFFF_FFFF

  predicate IsInt64(x: int) {
    MinInt64 <= x <= MaxInt64
  }

  /** Two's-complement wrap-around of Go's int64 addition. */
  function Wrap64(x: int): (r: int)
    ensures IsInt64(r)
    ensures IsInt64(x) ==> r == x
    ensures x > MaxInt64 && x <= 2 * MaxInt64 + 1 ==> r == x - 0x1_0000_0000_0000_0000
  {
    (x - MinInt64) % 0x1_0000_0000_0000_0000 + MinInt64
  }

  function Min(a: int, b: int): int {
    if a <= b then a else b
  }

  /** Read `count` bytes starting at byte `start`. */
  datatype Span = Span(start: int, count: int)

  /** The argument shapes ReadLog rejects before touching the file. */
  predicate BadReadArgs(offset: int, length: int) {
    (offset < 0 && length != 0) || (offset >= 0 && length < 0)
  }

  /**
   * ReadLog's window over a file of `fileLen` bytes; None means "answer with
   * empty content and no error, without reading". The window never leaves
   * the file. A negative offset counts back from the end; length 0 means
   * "to the end"; a positive length is cut at the end of the file.
   */
  function ReadLogSpan(offset: int, length: int, fileLen: int): (r: Option<Span>)
    requires !BadReadArgs(offset, length) && fileLen >= 0
    ensures r.Some? ==> 0 <= r.value.start && 0 <= r.value.count && r.value.start + r.value.count <= fileLen
    ensures offset < 0 ==> r.Some? && r.value.count == Min(-offset, fileLen) && r.value.start + r.value.count == fileLen
    ensures offset >= 0 && length == 0 ==>
      (r.None? <==> offset > fileLen) && (r.Some? ==> r.value.start == offset && r.value.start + r.value.count == fileLen)
    ensures offset >= 0 && length > 0 ==>
      (r.None? <==> offset >= fileLen) &&
      (r.Some? ==> r.value.start == offset && 0 < r.value.count <= length &&
                   (r.value.count == length || r.value.start + r.value.count == fileLen))
  {
    if offset < 0 then
      var start := if fileLen + offset < 0 then 0 else fileLen + offset;
      Some(Span(start, fileLen - start))
    else if length == 0 then
      if offset > fileLen then None else Some(Span(offset, fileLen - offset))
    else if offset >= fileLen then None
    else Some(Span(offset, if length > fileLen - offset then fileLen - offset else length))
  }

  /**
   * ReadLog's window as the source computes it on int64 values: the clamp
   * tests `offset + length > fileLen`, and that sum wraps around.
   */
  function ReadLogSpanAsWritten(offset: int, length: int, fileLen: int): (r: Option<Span>)
    requires IsInt64(offset) && IsInt64(length) && IsInt64(fileLen)
    requires !BadReadArgs(offset, length) && fileLen >= 0
    ensures IsInt64(offset + length) ==> r == ReadLogSpan(offset, length, fileLen)
  {
    if offset < 0 then
      var start := if fileLen + offset < 0 then 0 else fileLen + offset;
      Some(Span(start, fileLen - start))
    else if length == 0 then
      if offset > fileLen then None else Some(Span(offset, fileLen - offset))
    else if offset >= fileLen then None
    else Some(Span(offset, if Wrap64(offset + length) > fileLen then fileLen - offset else length))
  }

  /** With length = MaxInt64 the sum wraps negative, the clamp is skipped and the window overruns the file. */
  lemma ReadLogSpanOverruns()
    ensures var r := ReadLogSpanAsWritten(1, MaxInt64, 10);
            r.Some? && r.value.start + r.value.count > 10
  {
  }

  /**
   * ReadTailLog's window for non-negative arguments; None means "reached the
   * end". Otherwise it starts at `offset` and reads as much of `length` as the
   * file holds.
   */
  function TailSpan(offset: int, length: int, fileLen: int): (r: Option<Span>)
    requires offset >= 0 && length >= 0 && fileLen >= 0
    ensures r.None? <==> offset >= fileLen
    ensures r.Some? ==> r.value.start == offset && 0 <= r.value.count <= length &&
                        offset + r.value.count <= fileLen &&
                        (r.value.count == length || offset + r.value.count == fileLen)
  {
    if offset >= fileLen then None
    else Some(Span(offset, if length > fileLen - offset then fileLen - offset else length))
  }

  /** ReadTailLog's window as the source computes it, with the wrapping int64 sum. */
  function TailSpanAsWritten(offset: int, length: int, fileLen: int): (r: Option<Span>)
    requires IsInt64(offset) && IsInt64(length) && IsInt64(fileLen)
    requires offset >= 0 && length >= 0 && fileLen >= 0
    ensures IsInt64(offset + length) ==> r == TailSpan(offset, length, fileLen)
  {
    if offset >= fileLen then None
    else Some(Span(offset, if Wrap64(offset + length) > fileLen then fileLen - offset else length))
  }

  /** A poller asking for MaxInt64 bytes from offset 1 gets a window past the end of the file. */
  lemma TailSpanOverruns()
    ensures var r := TailSpanAsWritten(1, MaxInt64, 10);
            r.Some? && r.value.start + r.value.count > 10
  {
  }

  /** What a tail read that meets no I/O failure returns. */
  datatype TailResult = TailResult(content: seq<bv8>, next: int, reachedEnd: bool)

  /**
   * A tail read of `data`: at or past the end it reports the end with the
   * file's length as the next offset; otherwise the bytes read and the offset
   * just after them.
   */
  function TailRead(data: seq<bv8>, offset: int, length: int): (r: TailResult)
    requires offset >= 0 && length >= 0
    ensures r.reachedEnd <==> offset >= |data|
    ensures r.reachedEnd ==> r.content == [] && r.next == |data|
    ensures !r.reachedEnd ==> offset <= r.next <= |data| && r.content == data[offset..r.next] &&
                              r.next == offset + Min(length, |data| - offset) &&
                              (length > 0 ==> offset < r.next)
  {
    match TailSpan(offset, length, |data|)
    case None => TailResult([], |data|, true)
    case Some(s) => TailResult(data[s.start..s.start + s.count], s.start + s.count, false)
  }

  /**
   * A zero length inside the file reads nothing and reports neither progress
   * nor the end, so a poller must ask for a positive length to finish.
   */
  lemma TailReadZeroLength(data: seq<bv8>, offset: int)
    requires 0 <= offset < |data|
    ensures var r := TailRead(data, offset, 0);
            r.content == [] && r.next == offset && !r.reachedEnd
  {
  }

  /** What a caller polls together by feeding each next offset back until the end is reported. */
  function Poll(data: seq<bv8>, offset: int, length: int): seq<bv8>
    requires offset >= 0 && length > 0
    decreases |data| - offset
  {
    var r := TailRead(data, offset, length);
    if r.reachedEnd then [] else r.content + Poll(data, r.next, length)
  }

  /** Polling from any offset inside the file reads the rest of the file exactly once, in order. */
  lemma {:induction false} PollReadsRest(data: seq<bv8>, offset: int, length: int)
    requires 0 <= offset <= |data| && length > 0
    ensures Poll(data, offset, length) == data[offset..]
    decreases |data| - offset
  {
    var r := TailRead(data, offset, length);
    if !r.reachedEnd {
      PollReadsRest(data, r.next, length);
      assert data[offset..] == data[offset..r.next] + data[r.next..];
    }
  }
}
