/**
 * The video side of the client: the `Buffer` window type with its content-based equality and
 * hash, the header strip in `feed`, and the reassembly of decoder output chunks into
 * fixed-size frames (`getFrames960x720RGB888`).
 */
module Video {
  import opened KotlinText

  // ---------------------------------------------------------------- Buffer

  /** `Buffer(data, offset, length)`: the contents of a byte array and a window on it. */
  datatype Buffer = Buffer(data: seq<int8>, offset: int32, length: int32)

  /** The window lies inside the array. */
  predicate WellFormed(b: Buffer)
  {
    0 <= b.offset as int && 0 <= b.length as int && b.offset as int + b.length as int <= |b.data|
  }

  /** The bytes the window selects. */
  function Window(b: Buffer): seq<int8>
    requires WellFormed(b)
  {
    b.data[b.offset..b.offset as int + b.length as int]
  }

  /**
   * `Buffer.equals`: the same array contents (`contentEquals`), offset and length. It
   * coincides with equality of the values.
   */
  function BufferEquals(a: Buffer, b: Buffer): (r: bool)
    ensures r <==> a == b
  {
    a.data == b.data && a.offset == b.offset && a.length == b.length
  }

  /** `ByteArray.contentHashCode()`: start at 1, then `31 * h + byte` per byte, in `Int` arithmetic. */
  function ContentHash(data: seq<int8>): int32
    decreases |data|
  {
    if data == [] then 1
    else Wrap32(31 * ContentHash(data[..|data| - 1]) as int + data[|data| - 1] as int)
  }

  /** `Buffer.hashCode`: the content hash, then the offset and the length folded in. */
  function HashCode(b: Buffer): int32
  {
    Wrap32(31 * Wrap32(31 * ContentHash(b.data) as int + b.offset as int) as int + b.length as int)
  }

  /** `Buffer.hashCode` as the Kotlin code computes it, one step at a time. */
  method ComputeHashCode(b: Buffer) returns (result: int32)
    ensures result == HashCode(b)
  {
    result := 1;
    for i := 0 to |b.data|
      invariant result == ContentHash(b.data[..i])
    {
      assert b.data[..i + 1][..i] == b.data[..i];
      result := Wrap32(31 * result as int + b.data[i] as int);
    }
    assert b.data[..|b.data|] == b.data;
    result := Wrap32(31 * result as int + b.offset as int);
    result := Wrap32(31 * result as int + b.length as int);
  }

  /** Equal buffers have equal hash codes, as `hashCode` must agree with `equals`. */
  lemma EqualBuffersEqualHashes(a: Buffer, b: Buffer)
    requires BufferEquals(a, b)
    ensures HashCode(a) == HashCode(b)
  {
  }

  // ---------------------------------------------------------------- feed

  /**
   * `feed`: the packet's bytes as a `Buffer` whose window skips the 2-byte header. A packet
   * shorter than 2 bytes gives a window of negative length.
   */
  function Feed(packet: seq<int8>): (b: Buffer)
    requires |packet| <= INT32_MAX
    ensures b.data == packet
    ensures |packet| >= 2 ==> WellFormed(b) && Window(b) == packet[2..]
    ensures |packet| >= 2 ==> packet[..2] + Window(b) == packet
    ensures |packet| < 2 ==> !WellFormed(b) && b.length < 0
  {
    Buffer(packet, 2, (|packet| - 2) as int32)
  }

  // ---------------------------------------------------------------- frame reassembly

  /** The frame size of `getFrames960x720RGB888`: 960 x 720 pixels of 3 bytes. */
  const FULL_FRAME_SIZE: nat := 960 * 720 * 3

  /** Where each copy takes its bytes from in the chunk. */
  datatype CopySource =
    | FromStart   // `copyInto(buffer, offset, 0, copiedLength)`, as the Kotlin code is written
    | FromCursor  // from the chunk cursor `itOffset`, as the loop evidently intends

  /** The frame buffer's contents, its fill offset and the frames emitted. */
  datatype Progress = Progress(buf: seq<int8>, off: nat, frames: seq<seq<int8>>)

  /** The loop state after one copy: buffer, fill offset, chunk cursor, and the frame completed, if any. */
  datatype Step = Step(buf: seq<int8>, off: nat, it: nat, emitted: seq<seq<int8>>)

  function Min(a: int, b: int): int { if a <= b then a else b }

  /** `copiedLength`: what is left of the chunk, at most what is left of the frame. */
  function CopyLength(frameSize: nat, off: nat, chunkSize: nat, it: nat): int
  {
    Min(chunkSize - it, frameSize - off)
  }

  /** The bytes one copy takes from the chunk. */
  function CopiedBytes(data: seq<int8>, it: nat, n: nat, source: CopySource): (s: seq<int8>)
    requires it + n <= |data|
    ensures |s| == n
  {
    match source
    case FromStart => data[..n]
    case FromCursor => data[it..it + n]
  }

  /**
   * One pass of the do-while loop: copy `copiedLength` bytes to the fill offset, advance the
   * offset and the cursor, and, when the buffer is full, emit it and go back to offset 0.
   */
  function CopyStep(buf: seq<int8>, off: nat, data: seq<int8>, it: nat, source: CopySource): (s: Step)
    requires off < |buf| && it <= |data| && CopyLength(|buf|, off, |data|, it) > 0
    ensures |s.buf| == |buf| && s.off < |buf| && it < s.it <= |data|
    ensures s.emitted == [] ==> s.off == off + (s.it - it)
    ensures s.emitted != [] ==> s.emitted == [s.buf] && s.off == 0 && off + (s.it - it) == |buf|
  {
    var n := CopyLength(|buf|, off, |data|, it);
    var filled := buf[..off] + CopiedBytes(data, it, n, source) + buf[off + n..];
    if off + n == |buf| then Step(filled, 0, it + n, [filled])
    else Step(filled, off + n, it + n, [])
  }

  /** The do-while loop over the chunk `data` from cursor `it` on, until the chunk is used up. */
  function Fill(buf: seq<int8>, off: nat, data: seq<int8>, it: nat, source: CopySource): Progress
    requires off < |buf| && it <= |data|
    decreases |data| - it
  {
    if CopyLength(|buf|, off, |data|, it) <= 0 then Progress(buf, off, [])
    else
      var s := CopyStep(buf, off, data, it, source);
      var rest := Fill(s.buf, s.off, data, s.it, source);
      Progress(rest.buf, rest.off, s.emitted + rest.frames)
  }

  /** The buffer keeps its size and the offset stays inside it. */
  lemma {:induction false} FillSizes(buf: seq<int8>, off: nat, data: seq<int8>, it: nat, source: CopySource)
    requires off < |buf| && it <= |data|
    ensures var r := Fill(buf, off, data, it, source); |r.buf| == |buf| && r.off < |buf|
    decreases |data| - it
  {
    if CopyLength(|buf|, off, |data|, it) > 0 {
      var s := CopyStep(buf, off, data, it, source);
      FillSizes(s.buf, s.off, data, s.it, source);
    }
  }

  /** Every frame holds exactly `size` bytes. */
  predicate FullFrames(frames: seq<seq<int8>>, size: nat)
  {
    forall k :: 0 <= k < |frames| ==> |frames[k]| == size
  }

  /**
   * Every chunk byte is consumed: the frames emitted and the new offset account for the old
   * offset plus the bytes left in the chunk.
   */
  lemma {:induction false} FillConsumesChunk(buf: seq<int8>, off: nat, data: seq<int8>, it: nat, source: CopySource)
    requires off < |buf| && it <= |data|
    ensures var r := Fill(buf, off, data, it, source);
      |Flatten(r.frames)| + r.off == off + |data| - it
    decreases |data| - it
  {
    if CopyLength(|buf|, off, |data|, it) > 0 {
      var s := CopyStep(buf, off, data, it, source);
      var rest := Fill(s.buf, s.off, data, s.it, source);
      FillConsumesChunk(s.buf, s.off, data, s.it, source);
      FlattenAppend(s.emitted, rest.frames);
      if s.emitted != [] {
        FlattenCons(s.buf, []);
      }
    }
  }

  /** Every frame emitted is a full buffer. */
  lemma {:induction false} FillFrameSizes(buf: seq<int8>, off: nat, data: seq<int8>, it: nat, source: CopySource)
    requires off < |buf| && it <= |data|
    ensures FullFrames(Fill(buf, off, data, it, source).frames, |buf|)
    decreases |data| - it
  {
    if CopyLength(|buf|, off, |data|, it) > 0 {
      var s := CopyStep(buf, off, data, it, source);
      var rest := Fill(s.buf, s.off, data, s.it, source);
      FillFrameSizes(s.buf, s.off, data, s.it, source);
      assert FullFrames(s.emitted, |buf|);
      FullFramesAppend(s.emitted, rest.frames, |buf|);
    }
  }

  /** Quotient and remainder are unique. */
  lemma DivModUnique(a: nat, q: nat, r: nat, d: nat)
    requires 0 <= r < d && a == q * d + r
    ensures a / d == q && a % d == r
  {
    var q0, r0 := a / d, a % d;
    if q0 < q {
      MulDifference(q, q0, d);
    } else if q < q0 {
      MulDifference(q0, q, d);
    }
  }

  /** A larger multiple of `d` is at least `d` larger. */
  lemma {:induction false} MulDifference(x: nat, y: nat, d: nat)
    requires y < x
    ensures x * d >= y * d + d
    decreases x
  {
    if y < x - 1 {
      MulDifference(x - 1, y, d);
    }
    assert x * d == (x - 1) * d + d;
  }

  /** From offset `o`, a chunk of `n` bytes emits `(o + n) / F` frames and leaves the offset at `(o + n) % F`. */
  lemma FillCounts(buf: seq<int8>, off: nat, data: seq<int8>, source: CopySource)
    requires off < |buf|
    ensures var r := Fill(buf, off, data, 0, source);
      |r.frames| == (off + |data|) / |buf| && r.off == (off + |data|) % |buf|
  {
    var r := Fill(buf, off, data, 0, source);
    FillConsumesChunk(buf, off, data, 0, source);
    FillFrameSizes(buf, off, data, 0, source);
    FillSizes(buf, off, data, 0, source);
    FlattenLength(r.frames, |buf|);
    DivModUnique(off + |data|, |r.frames|, r.off, |buf|);
  }

  /**
   * A chunk that does not reach the end of the frame lands at `[o, o + n)` of the buffer,
   * leaves every other position alone and emits nothing, whichever copy source is used.
   */
  lemma FillWithinFrame(buf: seq<int8>, off: nat, data: seq<int8>, source: CopySource)
    requires off + |data| < |buf|
    ensures Fill(buf, off, data, 0, source) == Progress(buf[..off] + data + buf[off + |data|..], off + |data|, [])
  {
    if |data| > 0 {
      var s := CopyStep(buf, off, data, 0, source);
      assert CopiedBytes(data, 0, |data|, source) == data;
      assert s == Step(buf[..off] + data + buf[off + |data|..], off + |data|, |data|, []);
    } else {
      assert buf[..off] + data + buf[off..] == buf;
    }
  }

  /**
   * Copying from index 0 is harmless as long as the chunk needs one copy only: up to the end
   * of the current frame, both copy sources give the same result.
   */
  lemma SourcesAgreeWithinFrame(buf: seq<int8>, off: nat, data: seq<int8>)
    requires off < |buf| && off + |data| <= |buf|
    ensures Fill(buf, off, data, 0, FromStart) == Fill(buf, off, data, 0, FromCursor)
  {
    if |data| > 0 {
      assert CopiedBytes(data, 0, |data|, FromStart) == CopiedBytes(data, 0, |data|, FromCursor);
      assert CopyStep(buf, off, data, 0, FromStart) == CopyStep(buf, off, data, 0, FromCursor);
    }
  }

  /**
   * A chunk of two frames' worth of bytes, from an empty buffer: as written, both frames
   * repeat the chunk's first frame; copying from the cursor gives the two halves.
   */
  lemma AsWrittenRepeatsChunkStart(buf: seq<int8>, data: seq<int8>)
    requires |buf| > 0 && |data| == 2 * |buf|
    ensures Fill(buf, 0, data, 0, FromStart).frames == [data[..|buf|], data[..|buf|]]
    ensures Fill(buf, 0, data, 0, FromCursor).frames == [data[..|buf|], data[|buf|..]]
  {
    var f := |buf|;
    TwoFrames(buf, data, FromStart);
    TwoFrames(buf, data, FromCursor);
    assert CopiedBytes(data, 0, f, FromStart) == data[..f];
    assert CopiedBytes(data, f, f, FromStart) == data[..f];
    assert CopiedBytes(data, 0, f, FromCursor) == data[..f];
    assert CopiedBytes(data, f, f, FromCursor) == data[f..];
  }

  /**
   * A chunk whose window is shorter than its array: as written, the whole array goes into the
   * frame, so the bytes after the window count as video and move the fill offset; reading the
   * window moves it by the window's length only.
   */
  lemma AsWrittenCopiesWholeArray(buf: seq<int8>, off: nat, chunk: Buffer)
    requires WellFormed(chunk) && off + |chunk.data| < |buf|
    ensures Fill(buf, off, chunk.data, 0, FromStart)
      == Progress(buf[..off] + chunk.data + buf[off + |chunk.data|..], off + |chunk.data|, [])
    ensures Fill(buf, off, Window(chunk), 0, FromCursor)
      == Progress(buf[..off] + Window(chunk) + buf[off + chunk.length as int..], off + chunk.length as int, [])
  {
    FillWithinFrame(buf, off, chunk.data, FromStart);
    FillWithinFrame(buf, off, Window(chunk), FromCursor);
  }

  /** A chunk of exactly two frames, from an empty buffer, emits the two copies it makes. */
  lemma TwoFrames(buf: seq<int8>, data: seq<int8>, source: CopySource)
    requires |buf| > 0 && |data| == 2 * |buf|
    ensures Fill(buf, 0, data, 0, source).frames
      == [CopiedBytes(data, 0, |buf|, source), CopiedBytes(data, |buf|, |buf|, source)]
  {
    var f := |buf|;
    var first := CopiedBytes(data, 0, f, source);
    var second := CopiedBytes(data, f, f, source);
    FullFrameFromStart(buf, data, 0, source);
    FullFrameFromStart(first, data, f, source);
    assert Fill(second, 0, data, 2 * f, source) == Progress(second, 0, []);
  }

  /** From an empty buffer, a copy that fills a whole frame emits it and starts the next one. */
  lemma FullFrameFromStart(buf: seq<int8>, data: seq<int8>, it: nat, source: CopySource)
    requires 0 < |buf| && it + |buf| <= |data|
    ensures var filled := CopiedBytes(data, it, |buf|, source);
      var rest := Fill(filled, 0, data, it + |buf|, source);
      Fill(buf, 0, data, it, source) == Progress(rest.buf, rest.off, [filled] + rest.frames)
  {
    var filled := CopiedBytes(data, it, |buf|, source);
    assert buf[..0] + filled + buf[|buf|..] == filled;
    assert CopyStep(buf, 0, data, it, source) == Step(filled, 0, it + |buf|, [filled]);
  }

  /** All frames, one after the other. */
  function Flatten(frames: seq<seq<int8>>): seq<int8>
    decreases |frames|
  {
    if frames == [] then [] else frames[0] + Flatten(frames[1..])
  }

  lemma {:induction false} FlattenAppend(a: seq<seq<int8>>, b: seq<seq<int8>>)
    ensures Flatten(a + b) == Flatten(a) + Flatten(b)
    decreases |a|
  {
    if a != [] {
      assert (a + b)[1..] == a[1..] + b;
      FlattenAppend(a[1..], b);
    } else {
      assert a + b == b;
    }
  }

  /** Frames of size `f` each add up to `f` bytes per frame. */
  lemma {:induction false} FlattenLength(frames: seq<seq<int8>>, f: nat)
    requires FullFrames(frames, f)
    ensures |Flatten(frames)| == |frames| * f
    decreases |frames|
  {
    if frames != [] {
      FlattenLength(frames[1..], f);
      assert |frames| * f == f + (|frames| - 1) * f;
    }
  }

  /** Frames of size `f` each are the consecutive `f`-byte slices of their concatenation. */
  lemma {:induction false} FlattenSlices(frames: seq<seq<int8>>, f: nat, k: nat)
    requires FullFrames(frames, f)
    requires k < |frames|
    ensures (k + 1) * f <= |Flatten(frames)| && frames[k] == Flatten(frames)[k * f..(k + 1) * f]
    decreases |frames|
  {
    FlattenLength(frames, f);
    assert Flatten(frames) == frames[0] + Flatten(frames[1..]);
    assert (k + 1) * f == k * f + f;
    if k == 0 {
      assert Flatten(frames)[..f] == frames[0];
    } else {
      FlattenSlices(frames[1..], f, k - 1);
      assert frames[1..][k - 1] == frames[k];
      assert k * f == f + (k - 1) * f;
      SliceAfter(frames[0], Flatten(frames[1..]), (k - 1) * f, k * f);
    }
  }

  /** A slice beyond the first part of a concatenation is a slice of the second part. */
  lemma SliceAfter(a: seq<int8>, b: seq<int8>, i: nat, j: nat)
    requires i <= j <= |b|
    ensures (a + b)[|a| + i..|a| + j] == b[i..j]
  {
  }

  /** One copy from the cursor moves chunk bytes, in order, to the pending bytes and the frame emitted. */
  lemma CopyStepKeepsBytes(buf: seq<int8>, off: nat, data: seq<int8>, it: nat)
    requires off < |buf| && it <= |data| && CopyLength(|buf|, off, |data|, it) > 0
    ensures var s := CopyStep(buf, off, data, it, FromCursor);
      Flatten(s.emitted) + s.buf[..s.off] == buf[..off] + data[it..s.it]
  {
    var s := CopyStep(buf, off, data, it, FromCursor);
    var n := CopyLength(|buf|, off, |data|, it);
    var filled := buf[..off] + data[it..it + n] + buf[off + n..];
    if off + n == |buf| {
      assert buf[off + n..] == [];
      assert filled == buf[..off] + data[it..it + n];
      FlattenCons(filled, []);
    } else {
      assert filled[..off + n] == buf[..off] + data[it..it + n];
    }
  }

  lemma FlattenCons(frame: seq<int8>, frames: seq<seq<int8>>)
    ensures Flatten([frame] + frames) == frame + Flatten(frames)
  {
    assert ([frame] + frames)[1..] == frames;
  }

  /**
   * Copying from the cursor loses and invents nothing: the frames emitted, followed by the
   * bytes left pending in the buffer, are the old pending bytes followed by the rest of the chunk.
   */
  lemma {:induction false} FillFromCursorKeepsBytes(buf: seq<int8>, off: nat, data: seq<int8>, it: nat)
    requires off < |buf| && it <= |data|
    ensures var r := Fill(buf, off, data, it, FromCursor);
      r.off <= |r.buf| && Flatten(r.frames) + r.buf[..r.off] == buf[..off] + data[it..]
    decreases |data| - it
  {
    FillSizes(buf, off, data, it, FromCursor);
    if CopyLength(|buf|, off, |data|, it) <= 0 {
      assert data[it..] == [];
    } else {
      var s := CopyStep(buf, off, data, it, FromCursor);
      var rest := Fill(s.buf, s.off, data, s.it, FromCursor);
      FillSizes(s.buf, s.off, data, s.it, FromCursor);
      CopyStepKeepsBytes(buf, off, data, it);
      FillFromCursorKeepsBytes(s.buf, s.off, data, s.it);
      FlattenAppend(s.emitted, rest.frames);
      Regroup(Flatten(s.emitted), Flatten(rest.frames), rest.buf[..rest.off], s.buf[..s.off],
              buf[..off], data[it..s.it], data[s.it..]);
      assert data[it..s.it] + data[s.it..] == data[it..];
    }
  }

  /** Bytes handed on from one stage to the next, regrouped. */
  lemma Regroup(e: seq<int8>, f: seq<int8>, p: seq<int8>, mid: seq<int8>, a: seq<int8>, b: seq<int8>, c: seq<int8>)
    requires e + mid == a + b && f + p == mid + c
    ensures (e + f) + p == a + (b + c)
  {
    calc {
      (e + f) + p;
      e + (f + p);
      e + (mid + c);
      (e + mid) + c;
      (a + b) + c;
    }
  }

  /** Successive chunks through one buffer, the state carried from each chunk to the next. */
  function FillAll(buf: seq<int8>, off: nat, chunks: seq<seq<int8>>, source: CopySource): (r: Progress)
    requires off < |buf|
    ensures |r.buf| == |buf| && r.off < |buf|
    decreases |chunks|
  {
    if chunks == [] then Progress(buf, off, [])
    else
      var first := Fill(buf, off, chunks[0], 0, source);
      FillSizes(buf, off, chunks[0], 0, source);
      var rest := FillAll(first.buf, first.off, chunks[1..], source);
      Progress(rest.buf, rest.off, first.frames + rest.frames)
  }

  /** All chunks, one after the other. */
  function Concat(chunks: seq<seq<int8>>): seq<int8>
    decreases |chunks|
  {
    if chunks == [] then [] else chunks[0] + Concat(chunks[1..])
  }

  /** Over any number of chunks, copying from the cursor keeps every byte in order. */
  lemma {:induction false} FillAllKeepsBytes(buf: seq<int8>, off: nat, chunks: seq<seq<int8>>)
    requires off < |buf|
    ensures var r := FillAll(buf, off, chunks, FromCursor);
      Flatten(r.frames) + r.buf[..r.off] == buf[..off] + Concat(chunks)
    decreases |chunks|
  {
    if chunks == [] {
      assert FillAll(buf, off, chunks, FromCursor) == Progress(buf, off, []);
    } else {
      var first := Fill(buf, off, chunks[0], 0, FromCursor);
      FillSizes(buf, off, chunks[0], 0, FromCursor);
      var rest := FillAll(first.buf, first.off, chunks[1..], FromCursor);
      FillFromCursorKeepsBytes(buf, off, chunks[0], 0);
      assert chunks[0][0..] == chunks[0];
      FillAllKeepsBytes(first.buf, first.off, chunks[1..]);
      FlattenAppend(first.frames, rest.frames);
      Regroup(Flatten(first.frames), Flatten(rest.frames), rest.buf[..rest.off], first.buf[..first.off],
              buf[..off], chunks[0], Concat(chunks[1..]));
    }
  }

  /** Over any number of chunks, every frame emitted is a full buffer. */
  lemma {:induction false} FillAllFrameSizes(buf: seq<int8>, off: nat, chunks: seq<seq<int8>>, source: CopySource)
    requires off < |buf|
    ensures FullFrames(FillAll(buf, off, chunks, source).frames, |buf|)
    decreases |chunks|
  {
    if chunks != [] {
      var first := Fill(buf, off, chunks[0], 0, source);
      FillSizes(buf, off, chunks[0], 0, source);
      var rest := FillAll(first.buf, first.off, chunks[1..], source);
      FillFrameSizes(buf, off, chunks[0], 0, source);
      FillAllFrameSizes(first.buf, first.off, chunks[1..], source);
      FullFramesAppend(first.frames, rest.frames, |buf|);
    }
  }

  lemma FullFramesAppend(a: seq<seq<int8>>, b: seq<seq<int8>>, size: nat)
    requires FullFrames(a, size) && FullFrames(b, size)
    ensures FullFrames(a + b, size)
  {
    forall k | 0 <= k < |a + b|
      ensures |(a + b)[k]| == size
    {
      if k >= |a| {
        assert (a + b)[k] == b[k - |a|];
      }
    }
  }

  /**
   * Chunk-boundary independence, for the loop that copies from the cursor: however a byte
   * stream whose length is a multiple of the frame size is cut into chunks, starting from an
   * empty buffer it yields exactly `total / F` frames, frame `k` being bytes `[k F, (k + 1) F)`
   * of the stream, and leaves the buffer empty.
   */
  lemma ChunkBoundaryIndependence(buf: seq<int8>, chunks: seq<seq<int8>>, k: nat)
    requires |buf| > 0 && |Concat(chunks)| % |buf| == 0
    ensures var r := FillAll(buf, 0, chunks, FromCursor);
      |r.frames| == |Concat(chunks)| / |buf| && r.off == 0
      && (k < |r.frames| ==> (k + 1) * |buf| <= |Concat(chunks)|
                             && r.frames[k] == Concat(chunks)[k * |buf|..(k + 1) * |buf|])
  {
    var f := |buf|;
    var r := FillAll(buf, 0, chunks, FromCursor);
    FillAllKeepsBytes(buf, 0, chunks);
    FillAllFrameSizes(buf, 0, chunks, FromCursor);
    assert buf[..0] + Concat(chunks) == Concat(chunks);
    var q := |r.frames|;
    FlattenLength(r.frames, f);
    DivModUnique(|Concat(chunks)|, q, r.off, f);
    DivModUnique(|Concat(chunks)|, |Concat(chunks)| / f, 0, f);
    assert r.off == 0;
    assert Flatten(r.frames) == Concat(chunks);
    if k < q {
      FlattenSlices(r.frames, f, k);
    }
  }

  /**
   * Every chunk ends within the frame it starts in: from the running offset, no chunk
   * reaches past the end of the buffer.
   */
  predicate ChunksFitFrames(size: nat, off: nat, chunks: seq<seq<int8>>)
    requires size > 0
    decreases |chunks|
  {
    chunks == [] || (off + |chunks[0]| <= size && ChunksFitFrames(size, (off + |chunks[0]|) % size, chunks[1..]))
  }

  /** While every chunk ends within its frame, copying from index 0 gives what copying from the cursor gives. */
  lemma {:induction false} SourcesAgreeAcrossChunks(buf: seq<int8>, off: nat, chunks: seq<seq<int8>>)
    requires off < |buf| && ChunksFitFrames(|buf|, off, chunks)
    ensures FillAll(buf, off, chunks, FromStart) == FillAll(buf, off, chunks, FromCursor)
    decreases |chunks|
  {
    if chunks != [] {
      var first := Fill(buf, off, chunks[0], 0, FromCursor);
      SourcesAgreeWithinFrame(buf, off, chunks[0]);
      FillCounts(buf, off, chunks[0], FromCursor);
      SourcesAgreeAcrossChunks(first.buf, first.off, chunks[1..]);
    }
  }

  /**
   * As written, a stream whose chunks each end within their frame still yields its consecutive
   * frame-sized slices: only a chunk that crosses a frame boundary goes wrong.
   */
  lemma AsWrittenKeepsSlicesWhenChunksFitFrames(buf: seq<int8>, chunks: seq<seq<int8>>, k: nat)
    requires |buf| > 0 && |Concat(chunks)| % |buf| == 0 && ChunksFitFrames(|buf|, 0, chunks)
    ensures var r := FillAll(buf, 0, chunks, FromStart);
      |r.frames| == |Concat(chunks)| / |buf| && r.off == 0
      && (k < |r.frames| ==> (k + 1) * |buf| <= |Concat(chunks)|
                             && r.frames[k] == Concat(chunks)[k * |buf|..(k + 1) * |buf|])
  {
    SourcesAgreeAcrossChunks(buf, 0, chunks);
    ChunkBoundaryIndependence(buf, chunks, k);
  }

  /**
   * The reassembly state of `getFrames960x720RGB888`: the reused frame buffer
   * (`fullFrameBuffer`) and its fill offset (`fullFrameBufferOffset`), both carried from
   * chunk to chunk.
   */
  class FrameAssembler {
    const buf: array<int8>
    var off: nat

    ghost predicate Valid()
      reads this
    {
      buf.Length > 0 && off < buf.Length
    }

    /** `ByteArray(960 * 720 * 3)`, zeroed, and offset 0. */
    constructor ()
      ensures Valid() && fresh(buf) && buf.Length == FULL_FRAME_SIZE && off == 0
      ensures forall i :: 0 <= i < FULL_FRAME_SIZE ==> buf[i] == 0
    {
      buf := new int8[FULL_FRAME_SIZE](_ => 0);
      off := 0;
    }

    /**
     * The do-while loop for one decoder output chunk, as written: the chunk size is
     * `it.data.size` (the whole array, whatever the window) and each copy reads from index 0.
     * Returns the frames in the order emitted, with their contents at emission time, and the
     * arrays emitted, which are all the one reused buffer.
     */
    method ProcessChunk(chunk: Buffer) returns (frames: seq<seq<int8>>, emitted: seq<array<int8>>)
      requires Valid()
      modifies this`off, buf
      ensures Valid()
      ensures Fill(old(buf[..]), old(off), chunk.data, 0, FromStart) == Progress(buf[..], off, frames)
      ensures |frames| == (old(off) + |chunk.data|) / buf.Length
      ensures off == (old(off) + |chunk.data|) % buf.Length
      ensures |emitted| == |frames| && forall a :: a in emitted ==> a == buf
    {
      ghost var start, startOff := buf[..], off;
      FillCounts(start, startOff, chunk.data, FromStart);
      frames, emitted := Run(chunk.data, FromStart);
    }

    /**
     * The loop as evidently intended: it reads the chunk's window (`offset`, `length`) and
     * copies from the cursor, so no byte is lost or repeated.
     */
    method ProcessChunkFixed(chunk: Buffer) returns (frames: seq<seq<int8>>, emitted: seq<array<int8>>)
      requires Valid() && WellFormed(chunk)
      modifies this`off, buf
      ensures Valid()
      ensures Fill(old(buf[..]), old(off), Window(chunk), 0, FromCursor) == Progress(buf[..], off, frames)
      ensures |frames| == (old(off) + chunk.length as int) / buf.Length
      ensures off == (old(off) + chunk.length as int) % buf.Length
      ensures Flatten(frames) + buf[..off] == old(buf[..off]) + Window(chunk)
      ensures |emitted| == |frames| && forall a :: a in emitted ==> a == buf
    {
      ghost var start, startOff := buf[..], off;
      var data := Window(chunk);
      FillCounts(start, startOff, data, FromCursor);
      FillFromCursorKeepsBytes(start, startOff, data, 0);
      assert data[0..] == data;
      frames, emitted := Run(data, FromCursor);
    }

    /** The do-while loop over the bytes `data`, taking each copy from where `source` says. */
    method Run(data: seq<int8>, source: CopySource) returns (frames: seq<seq<int8>>, emitted: seq<array<int8>>)
      requires Valid()
      modifies this`off, buf
      ensures Valid()
      ensures Fill(old(buf[..]), old(off), data, 0, source) == Progress(buf[..], off, frames)
      ensures |emitted| == |frames| && forall k :: 0 <= k < |emitted| ==> emitted[k] == buf
    {
      ghost var total := Fill(buf[..], off, data, 0, source);
      ResumesFromStart(buf[..], off, data, source);
      var itOffset := 0;
      frames, emitted := [], [];
      while CopyLength(buf.Length, off, |data|, itOffset) > 0
        invariant 0 <= itOffset <= |data| && off < buf.Length
        invariant Resumes(total, frames, buf[..], off, data, itOffset, source)
        invariant |emitted| == |frames| && forall k :: 0 <= k < |emitted| ==> emitted[k] == buf
        decreases |data| - itOffset
      {
        var copiedLength, full := Pass(data, itOffset, source, total, frames);
        itOffset := itOffset + copiedLength;
        if full {
          frames, emitted := frames + [buf[..]], emitted + [buf];
        }
      }
      ResumesAtEnd(total, frames, buf[..], off, data, itOffset, source);
    }

    /** One pass of the loop body, seen from the whole loop: the state it leaves still runs on to `total`. */
    method Pass(data: seq<int8>, itOffset: nat, source: CopySource, ghost total: Progress, ghost frames: seq<seq<int8>>)
      returns (copiedLength: nat, full: bool)
      requires Valid() && CopyLength(buf.Length, off, |data|, itOffset) > 0
      requires Resumes(total, frames, buf[..], off, data, itOffset, source)
      modifies this`off, buf
      ensures Valid() && itOffset < itOffset + copiedLength <= |data|
      ensures Resumes(total, if full then frames + [buf[..]] else frames, buf[..], off, data, itOffset + copiedLength, source)
    {
      ResumesStep(total, frames, buf[..], off, data, itOffset, source);
      copiedLength, full := CopyPass(data, itOffset, source);
    }

    /**
     * One pass of the loop body: copy `copiedLength` bytes to the fill offset and advance it;
     * when the buffer is full (`full`), the caller emits it and the offset is back at 0.
     */
    method CopyPass(data: seq<int8>, itOffset: nat, source: CopySource) returns (copiedLength: nat, full: bool)
      requires Valid() && itOffset <= |data| && CopyLength(buf.Length, off, |data|, itOffset) > 0
      modifies this`off, buf
      ensures Valid()
      ensures var s := CopyStep(old(buf[..]), old(off), data, itOffset, source);
        buf[..] == s.buf && off == s.off && itOffset + copiedLength == s.it
        && (if full then s.emitted == [buf[..]] else s.emitted == [])
    {
      copiedLength := CopyLength(buf.Length, off, |data|, itOffset);
      var bytes := CopiedBytes(data, itOffset, copiedLength, source);
      CopyInto(bytes, buf, off);
      off := off + copiedLength;
      full := off == buf.Length;
      if full {
        off := 0;
      }
    }
  }

  /** The loop state `(buf, off, it)`, with `frames` already emitted, runs on to the result `total`. */
  ghost predicate Resumes(total: Progress, frames: seq<seq<int8>>, buf: seq<int8>, off: nat, data: seq<int8>, it: nat, source: CopySource)
  {
    off < |buf| && it <= |data|
    && var rest := Fill(buf, off, data, it, source);
    total == Progress(rest.buf, rest.off, frames + rest.frames)
  }

  /** Before the first pass, nothing is emitted and the whole chunk is still to run. */
  lemma ResumesFromStart(buf: seq<int8>, off: nat, data: seq<int8>, source: CopySource)
    requires off < |buf|
    ensures Resumes(Fill(buf, off, data, 0, source), [], buf, off, data, 0, source)
  {
    var rest := Fill(buf, off, data, 0, source);
    assert [] + rest.frames == rest.frames;
  }

  /** When the loop condition fails, the loop state is the result. */
  lemma ResumesAtEnd(total: Progress, frames: seq<seq<int8>>, buf: seq<int8>, off: nat, data: seq<int8>, it: nat, source: CopySource)
    requires Resumes(total, frames, buf, off, data, it, source)
    requires CopyLength(|buf|, off, |data|, it) <= 0
    ensures total == Progress(buf, off, frames)
  {
    assert frames + [] == frames;
  }

  /** One pass of the loop keeps `Resumes`. */
  lemma ResumesStep(total: Progress, frames: seq<seq<int8>>, buf: seq<int8>, off: nat, data: seq<int8>, it: nat, source: CopySource)
    requires Resumes(total, frames, buf, off, data, it, source)
    requires CopyLength(|buf|, off, |data|, it) > 0
    ensures var s := CopyStep(buf, off, data, it, source);
      Resumes(total, frames + s.emitted, s.buf, s.off, data, s.it, source)
  {
    var s := CopyStep(buf, off, data, it, source);
    var rest := Fill(s.buf, s.off, data, s.it, source);
    assert frames + (s.emitted + rest.frames) == (frames + s.emitted) + rest.frames;
  }

  /** `src.copyInto(dst, dstOffset, ...)`: the bytes `src` go to `dst` from `dstOffset` on. */
  method CopyInto(src: seq<int8>, dst: array<int8>, dstOffset: nat)
    requires dstOffset + |src| <= dst.Length
    modifies dst
    ensures dst[..] == old(dst[..])[..dstOffset] + src + old(dst[..])[dstOffset + |src|..]
  {
    for i := 0 to |src|
      invariant dst[..] == old(dst[..])[..dstOffset] + src[..i] + old(dst[..])[dstOffset + i..]
    {
      dst[dstOffset + i] := src[i];
      assert src[..i + 1] == src[..i] + [src[i]];
    }
    assert src[..|src|] == src;
  }
}
