/** Extraction of JPEG frames from the unframed camera byte stream.

    The camera link delivers bytes in chunks with no length prefix. The
    receiving loop keeps one growing buffer; after each chunk it looks for
    the first start-of-image marker and the first end-of-image marker and
    takes at most one action: drop a stale prefix, cut out one frame, or wait.
    The markers are the two-byte JPEG markers SOI (FF D8) and EOI (FF D9) of
    ITU-T T.81, Annex B. */
module Frames {
  import opened Optional

  newtype byte = b: int | 0 <= b < 0x100

  /** A JPEG marker: the 0xFF prefix byte followed by a marker code byte. */
  datatype Marker = Marker(prefix: byte, code: byte)

  const SOI: Marker := Marker(0xFF, 0xD8)
  const EOI: Marker := Marker(0xFF, 0xD9)

  /** `m` occurs in `b` starting at index `i`. */
  predicate MarkerAt(b: seq<byte>, i: int, m: Marker) {
    0 <= i && i + 1 < |b| && b[i] == m.prefix && b[i + 1] == m.code
  }

  /** No occurrence of `m` in `b` starts before index `n`. */
  predicate NoMarkerBefore(b: seq<byte>, m: Marker, n: int) {
    forall i :: 0 <= i < n ==> !MarkerAt(b, i, m)
  }

  /** `m` does not occur anywhere in `b`. */
  predicate Free(b: seq<byte>, m: Marker) {
    NoMarkerBefore(b, m, |b|)
  }

  /** A prefix of `b` ending before the first occurrence of `m` is free of `m`. */
  lemma PrefixFree(b: seq<byte>, m: Marker, n: int)
    requires 0 <= n <= |b| && NoMarkerBefore(b, m, n)
    ensures Free(b[..n], m)
  {
    forall i | 0 <= i < n
      ensures !MarkerAt(b[..n], i, m)
    {
      if MarkerAt(b[..n], i, m) {
        assert MarkerAt(b, i, m);
      }
    }
  }

  /** The first occurrence of `m` in `b` at or after `k`, or -1. */
  function FindFrom(b: seq<byte>, m: Marker, k: nat): (r: int)
    ensures r == -1 || (k <= r && MarkerAt(b, r, m))
    ensures r == -1 ==> forall i :: k <= i ==> !MarkerAt(b, i, m)
    ensures r != -1 ==> forall i :: k <= i < r ==> !MarkerAt(b, i, m)
    decreases |b| - k
  {
    if k + 1 >= |b| then -1
    else if b[k] == m.prefix && b[k + 1] == m.code then k
    else FindFrom(b, m, k + 1)
  }

  /** Index of the first occurrence of `m` in `b`, or -1 when there is none,
      as the byte-string search of the receiving loop returns it. */
  function Find(b: seq<byte>, m: Marker): (r: int)
    ensures -1 <= r < |b|
    ensures r >= 0 ==> MarkerAt(b, r, m) && NoMarkerBefore(b, m, r)
    ensures r == -1 <==> Free(b, m)
  {
    FindFrom(b, m, 0)
  }

  /** A complete frame: starts with SOI, ends with EOI, and holds no EOI
      before its last two bytes. */
  predicate IsFrame(f: seq<byte>) {
    |f| >= 4 && MarkerAt(f, 0, SOI) && MarkerAt(f, |f| - 2, EOI) && NoMarkerBefore(f, EOI, |f| - 2)
  }

  /** The bytes of an optional frame; none when no frame was cut out. */
  function FrameBytes(f: Option<seq<byte>>): seq<byte> {
    if f.Some? then f.value else []
  }

  /** The range from an SOI at `s` to the first EOI, at `e > s`, is a frame. */
  lemma CutIsFrame(b: seq<byte>, s: int, e: int)
    requires MarkerAt(b, s, SOI) && MarkerAt(b, e, EOI) && NoMarkerBefore(b, EOI, e) && s < e
    ensures IsFrame(b[s..e + 2])
  {
    assert e != s + 1 by { assert b[s + 1] == 0xD8; }
    var f := b[s..e + 2];
    forall i | 0 <= i < |f| - 2
      ensures !MarkerAt(f, i, EOI)
    {
      if MarkerAt(f, i, EOI) {
        assert MarkerAt(b, s + i, EOI);
      }
    }
    assert MarkerAt(f, 0, SOI);
    assert MarkerAt(f, |f| - 2, EOI);
  }

  /** What one received chunk does: the bytes thrown away, the frame cut
      out (if any), and the buffer kept for the next chunk. */
  datatype StepResult = StepResult(dropped: seq<byte>, frame: Option<seq<byte>>, buffer: seq<byte>)

  /** Cutting `b` at `i` and `j` loses and repeats nothing. */
  lemma SplitAt(b: seq<byte>, i: int, j: int)
    requires 0 <= i <= j <= |b|
    ensures b == b[..i] + b[i..j] + b[j..]
  {
  }

  /** The single action the receiving loop takes on its buffer `data`, the
      latest chunk already appended. Both marker positions are searched once;
      a stale end marker is detected only when a start marker follows it. */
  function Scan(data: seq<byte>): (r: StepResult)
    ensures data == r.dropped + FrameBytes(r.frame) + r.buffer
    ensures Free(r.dropped, SOI)
    ensures r.frame.Some? ==> IsFrame(r.frame.value)
    ensures r.frame.None? && r.dropped != [] ==> MarkerAt(r.buffer, 0, SOI)
  {
    var start := Find(data, SOI);
    var end := Find(data, EOI);
    if end > -1 && end < start then
      PrefixFree(data, SOI, start);
      SplitAt(data, start, start);
      StepResult(data[..start], None, data[start..])
    else if start > -1 && end > -1 && end > start then
      PrefixFree(data, SOI, start);
      CutIsFrame(data, start, end);
      SplitAt(data, start, end + 2);
      StepResult(data[..start], Some(data[start..end + 2]), data[end + 2..])
    else
      StepResult([], None, data)
  }

  /** Appends `chunk` to `buffer` and scans: the new buffer is what is left
      of the old one and the chunk once the dropped bytes and the frame are
      taken from its front. */
  function Step(buffer: seq<byte>, chunk: seq<byte>): (r: StepResult)
    ensures buffer + chunk == r.dropped + FrameBytes(r.frame) + r.buffer
    ensures Free(r.dropped, SOI)
    ensures r.frame.Some? ==> IsFrame(r.frame.value)
    ensures r.frame.None? && r.dropped != [] ==> MarkerAt(r.buffer, 0, SOI)
  {
    Scan(buffer + chunk)
  }

  /** When either marker is missing from the buffer, the chunk is only
      appended. In particular an end marker with no start marker is kept. */
  lemma StepWaits(buffer: seq<byte>, chunk: seq<byte>)
    requires Free(buffer + chunk, SOI) || Free(buffer + chunk, EOI)
    ensures Step(buffer, chunk) == StepResult([], None, buffer + chunk)
  {
  }

  /** An end marker before the first start marker `s` is stale: everything
      before `s` is dropped and no frame comes out. */
  lemma StepDropsStalePrefix(buffer: seq<byte>, chunk: seq<byte>, e: int, s: int)
    requires MarkerAt(buffer + chunk, e, EOI) && e < s
    requires MarkerAt(buffer + chunk, s, SOI) && NoMarkerBefore(buffer + chunk, SOI, s)
    ensures Step(buffer, chunk) == StepResult((buffer + chunk)[..s], None, (buffer + chunk)[s..])
  {
  }

  /** With the first start marker at `s` and the first end marker at `e > s`,
      the frame is the inclusive range from `s` to the end marker, and the
      bytes after it stay buffered. */
  lemma StepCutsFrame(buffer: seq<byte>, chunk: seq<byte>, s: int, e: int)
    requires MarkerAt(buffer + chunk, s, SOI) && NoMarkerBefore(buffer + chunk, SOI, s)
    requires MarkerAt(buffer + chunk, e, EOI) && NoMarkerBefore(buffer + chunk, EOI, e)
    requires s < e
    ensures Step(buffer, chunk) ==
      StepResult((buffer + chunk)[..s], Some((buffer + chunk)[s..e + 2]), (buffer + chunk)[e + 2..])
  {
  }

  /** A chunk holding two whole frames yields only the first; the second
      stays in the buffer until another chunk arrives. */
  lemma TwoFramesInOneChunk()
    ensures var frame: seq<byte> := [0xFF, 0xD8, 0xFF, 0xD9];
      Step([], frame + frame) == StepResult([], Some(frame), frame)
  {
    var frame: seq<byte> := [0xFF, 0xD8, 0xFF, 0xD9];
    var data := [] + (frame + frame);
    assert MarkerAt(data, 0, SOI) && MarkerAt(data, 2, EOI);
    assert !MarkerAt(data, 0, EOI) && !MarkerAt(data, 1, EOI);
    StepCutsFrame([], frame + frame, 0, 2);
  }

  /** The concatenation of the chunks, in arrival order. */
  function Flatten(chunks: seq<seq<byte>>): seq<byte> {
    if |chunks| == 0 then [] else Flatten(chunks[..|chunks| - 1]) + chunks[|chunks| - 1]
  }

  /** Concatenation is associative. */
  lemma ConcatAssoc<T>(a: seq<T>, b: seq<T>, c: seq<T>)
    ensures a + (b + c) == (a + b) + c
  {
  }

  /** The frames cut by a run of steps, in order. */
  function FramesOf(pieces: seq<StepResult>): seq<seq<byte>> {
    if |pieces| == 0 then []
    else FramesOf(pieces[..|pieces| - 1]) + ToSeq(pieces[|pieces| - 1].frame)
  }

  /** The bytes that left the buffer in a run of steps: for each step in
      order, its dropped prefix and then its frame. */
  function ConsumedOf(pieces: seq<StepResult>): seq<byte> {
    if |pieces| == 0 then []
    else ConsumedOf(pieces[..|pieces| - 1]) + (pieces[|pieces| - 1].dropped + FrameBytes(pieces[|pieces| - 1].frame))
  }

  /** The state of the receiving loop after a sequence of chunks: the
      result of the step for each chunk, the frames handed on so far, every
      byte that has left the buffer (dropped or framed) in order, and the
      buffer itself. */
  datatype Extraction = Extraction(pieces: seq<StepResult>, frames: seq<seq<byte>>, consumed: seq<byte>, buffer: seq<byte>)

  /** Runs the receiving loop on `chunks`, starting from `buffer`. There is
      one step per chunk; the frames are exactly those the steps cut, in
      order; the bytes that left the buffer are exactly each step's dropped
      prefix and frame, in order, and together with the buffer they are the
      input, so bytes are never reordered, duplicated or invented. Every
      frame is complete, and no chunk produces more than one frame. */
  function Extract(buffer: seq<byte>, chunks: seq<seq<byte>>): (r: Extraction)
    ensures |r.pieces| == |chunks|
    ensures r.frames == FramesOf(r.pieces)
    ensures r.consumed == ConsumedOf(r.pieces)
    ensures buffer + Flatten(chunks) == r.consumed + r.buffer
    ensures |r.frames| <= |chunks|
    ensures forall i :: 0 <= i < |r.frames| ==> IsFrame(r.frames[i])
  {
    if |chunks| == 0 then Extraction([], [], [], buffer)
    else
      var prev := Extract(buffer, chunks[..|chunks| - 1]);
      var s := Step(prev.buffer, chunks[|chunks| - 1]);
      var next := Extraction(prev.pieces + [s], prev.frames + ToSeq(s.frame),
                             prev.consumed + (s.dropped + FrameBytes(s.frame)), s.buffer);
      ExtractStep(buffer, chunks, prev, s, next);
      next
  }

  /** One more chunk keeps the invariants of `Extract`. */
  lemma ExtractStep(buffer: seq<byte>, chunks: seq<seq<byte>>, prev: Extraction, s: StepResult, next: Extraction)
    requires |chunks| > 0
    requires |prev.pieces| == |chunks| - 1
    requires prev.frames == FramesOf(prev.pieces)
    requires prev.consumed == ConsumedOf(prev.pieces)
    requires buffer + Flatten(chunks[..|chunks| - 1]) == prev.consumed + prev.buffer
    requires |prev.frames| <= |chunks| - 1
    requires forall i :: 0 <= i < |prev.frames| ==> IsFrame(prev.frames[i])
    requires s == Step(prev.buffer, chunks[|chunks| - 1])
    requires next == Extraction(prev.pieces + [s], prev.frames + ToSeq(s.frame),
                                prev.consumed + (s.dropped + FrameBytes(s.frame)), s.buffer)
    ensures |next.pieces| == |chunks|
    ensures next.frames == FramesOf(next.pieces)
    ensures next.consumed == ConsumedOf(next.pieces)
    ensures buffer + Flatten(chunks) == next.consumed + next.buffer
    ensures |next.frames| <= |chunks|
    ensures forall i :: 0 <= i < |next.frames| ==> IsFrame(next.frames[i])
  {
    ExtractBytes(buffer, chunks, prev.consumed, prev.buffer, s.dropped + FrameBytes(s.frame), s.buffer);
    ExtractFrames(prev.frames, s.frame);
    ExtractPieces(prev.pieces, s);
  }

  /** One more step extends the frames and the consumed bytes of a run of
      steps by its own. */
  lemma ExtractPieces(pieces: seq<StepResult>, s: StepResult)
    ensures FramesOf(pieces + [s]) == FramesOf(pieces) + ToSeq(s.frame)
    ensures ConsumedOf(pieces + [s]) == ConsumedOf(pieces) + (s.dropped + FrameBytes(s.frame))
  {
    assert (pieces + [s])[..|pieces|] == pieces;
  }

  /** The run over one more chunk is the run over the earlier chunks
      followed by one step on the buffer they left and that chunk: its
      result is appended to the pieces, its frame (if any) to the frames,
      and its buffer becomes the buffer. With the contract of `Extract`,
      this pins every piece, frame and byte of a run. */
  lemma ExtractLast(buffer: seq<byte>, chunks: seq<seq<byte>>)
    requires |chunks| > 0
    ensures var prev := Extract(buffer, chunks[..|chunks| - 1]);
      var s := Step(prev.buffer, chunks[|chunks| - 1]);
      && Extract(buffer, chunks).pieces == prev.pieces + [s]
      && Extract(buffer, chunks).frames == prev.frames + ToSeq(s.frame)
      && Extract(buffer, chunks).buffer == s.buffer
  {
  }

  /** Every step of a run dropped only bytes before the first start marker:
      no dropped prefix holds one. */
  lemma {:induction false} ExtractDropsNoStart(buffer: seq<byte>, chunks: seq<seq<byte>>, i: int)
    requires 0 <= i < |chunks|
    ensures Free(Extract(buffer, chunks).pieces[i].dropped, SOI)
    decreases |chunks|
  {
    var n := |chunks|;
    var prev := Extract(buffer, chunks[..n - 1]);
    var s := Step(prev.buffer, chunks[n - 1]);
    assert Extract(buffer, chunks).pieces == prev.pieces + [s];
    if i < n - 1 {
      ExtractDropsNoStart(buffer, chunks[..n - 1], i);
      assert Extract(buffer, chunks).pieces[i] == prev.pieces[i];
    }
  }

  /** The input so far is what left the buffer followed by the buffer. */
  lemma ExtractBytes(buffer: seq<byte>, chunks: seq<seq<byte>>, consumed: seq<byte>, kept: seq<byte>,
                     left: seq<byte>, rest: seq<byte>)
    requires |chunks| > 0
    requires buffer + Flatten(chunks[..|chunks| - 1]) == consumed + kept
    requires kept + chunks[|chunks| - 1] == left + rest
    ensures buffer + Flatten(chunks) == (consumed + left) + rest
  {
    var chunk := chunks[|chunks| - 1];
    var earlier := Flatten(chunks[..|chunks| - 1]);
    assert Flatten(chunks) == earlier + chunk;
    ConcatAssoc(buffer, earlier, chunk);
    ConcatAssoc(consumed, kept, chunk);
    ConcatAssoc(consumed, left, rest);
  }

  /** Appending at most one complete frame keeps every frame complete. */
  lemma ExtractFrames(frames: seq<seq<byte>>, frame: Option<seq<byte>>)
    requires forall i :: 0 <= i < |frames| ==> IsFrame(frames[i])
    requires frame.Some? ==> IsFrame(frame.value)
    ensures |frames + ToSeq(frame)| <= |frames| + 1
    ensures forall i :: 0 <= i < |frames + ToSeq(frame)| ==> IsFrame((frames + ToSeq(frame))[i])
  {
    var all := frames + ToSeq(frame);
    forall i | 0 <= i < |all|
      ensures IsFrame(all[i])
    {
      if i >= |frames| {
        assert all[i] == frame.value;
      } else {
        assert all[i] == frames[i];
      }
    }
  }
}
