/** The rendering pipelines of graphics/graphics.go: `EncodeGPU`, which
    cuts the events into batches, renders one frame per batch on top of
    the previous frame and streams the raw frames to the encoder, and
    `GeneratePhotoLocal`, which deduplicates the events and composes one
    still image. The encoder process is replaced by inputs: whether it
    has exited before a given frame, the error it ends with, and what
    becomes of each write to its input pipe. */
module Pipeline {
  import opened Common
  import opened Text
  import opened Raster
  import opened Textures
  import opened Compositor
  import opened Encoder
  import opened Dedup

  // ---------------------------------------------------------------
  // Scaling decision and encoder input

  /** Hardware encoders have size limits; the software one does not. */
  predicate NeedsScaling(width: int, height: int, encoderName: string)
  {
    (width > 3840 || height > 2160) && encoderName != "libx264"
  }

  /** An integrated GPU is only given a hardware encoder for frames it
      can take, so its output is never scaled. */
  lemma IntegratedNeverScales(width: int, height: int, p: GpuProbes, available: string -> bool)
    requires Classification(p).1
    ensures !NeedsScaling(width, height, EncoderChoice(width, height, p, available).0.name)
  {
    var (gpuType, integrated) := Classification(p);
    if !TooLargeForIntegrated(width, height) {
      var c := Chosen(Candidates(gpuType), available);
      assert c == Software || c in Candidates(gpuType) by {
        match FirstAvailable(Candidates(gpuType), available)
        case None =>
        case Some(i) =>
      }
    }
  }

  /** The start of `EncodeGPU`: the encoder is chosen, scaling is
      decided, and the output options are those of `getEncoderArgs` for
      that choice; the scale filter is there exactly when scaling is. */
  method OutputArgs(width: nat, height: nat, probes: GpuProbes, available: string -> bool)
    returns (outputArgs: map<string, string>)
    ensures var (c, gpuType) := EncoderChoice(width, height, probes, available);
            && EncoderArgsFor(outputArgs, c.codec, c.name, gpuType, width, height, NeedsScaling(width, height, c.name))
            && ("vf" in outputArgs <==> NeedsScaling(width, height, c.name))
  {
    var encoder, encoderName, gpuType;
    ghost var probed;
    encoder, encoderName, gpuType, probed := GetGPUEncoder(width, height, probes, available);
    var needsScaling := (width > 3840 || height > 2160) && encoderName != "libx264";
    outputArgs := GetEncoderArgs(encoder, encoderName, gpuType, width, height, needsScaling);
    assert needsScaling ==> encoderName in HardwareNames by {
      var (c, g) := EncoderChoice(width, height, probes, available);
      if c != Software {
        assert c in Candidates(g) by {
          match FirstAvailable(Candidates(g), available)
          case None =>
          case Some(i) =>
        }
      }
    }
  }

  /** The options of the raw-video input: RGB24 frames of the canvas
      size at the given rate. */
  function InputArgs(width: int, height: int, framerate: int): (args: map<string, string>)
    ensures args.Keys == {"f", "pix_fmt", "s", "r"}
    ensures args["pix_fmt"] == "rgb24" && args["f"] == "rawvideo"
  {
    map["f" := "rawvideo", "pix_fmt" := "rgb24",
        "s" := IntToString(width) + "x" + IntToString(height), "r" := IntToString(framerate)]
  }

  // ---------------------------------------------------------------
  // Batches

  /** `dest` cut into consecutive batches of `n` events, the last one
      possibly shorter. */
  function Batches(dest: seq<VisualData>, n: nat): seq<seq<VisualData>>
    requires n > 0
    decreases |dest|
  {
    if dest == [] then []
    else
      var end := if n < |dest| then n else |dest|;
      [dest[..end]] + Batches(dest[end..], n)
  }

  /** No batch is empty and none holds more than `n` events. */
  lemma {:induction false} BatchSizes(dest: seq<VisualData>, n: nat, k: nat)
    requires n > 0 && k < |Batches(dest, n)|
    ensures 1 <= |Batches(dest, n)[k]| <= n
    decreases |dest|
  {
    var end := if n < |dest| then n else |dest|;
    if k > 0 {
      BatchSizes(dest[end..], n, k - 1);
    }
  }

  /** The batches laid end to end. */
  function Concat(bs: seq<seq<VisualData>>): seq<VisualData>
  {
    if bs == [] then [] else Concat(bs[..|bs| - 1]) + bs[|bs| - 1]
  }

  lemma {:induction false} ConcatCons(b: seq<VisualData>, bs: seq<seq<VisualData>>)
    ensures Concat([b] + bs) == b + Concat(bs)
    decreases |bs|
  {
    if bs != [] {
      var init := bs[..|bs| - 1];
      assert ([b] + bs)[..|bs|] == [b] + init;
      ConcatCons(b, init);
    } else {
      assert [b][..0] == [];
    }
  }

  /** The batches cover `dest` exactly, in order. */
  lemma {:induction false} BatchesCover(dest: seq<VisualData>, n: nat)
    requires n > 0
    ensures Concat(Batches(dest, n)) == dest
    decreases |dest|
  {
    if dest != [] {
      var end := if n < |dest| then n else |dest|;
      BatchesCover(dest[end..], n);
      ConcatCons(dest[..end], Batches(dest[end..], n));
      assert dest[..end] + dest[end..] == dest;
    }
  }

  /** There are `(len(dest) + n - 1) / n` batches, the `totalFrames`
      of the writer. */
  lemma {:induction false} BatchesCount(dest: seq<VisualData>, n: nat)
    requires n > 0
    ensures |Batches(dest, n)| == (|dest| + n - 1) / n
    decreases |dest|
  {
    if dest == [] {
      CellOf(0, n, n - 1);
    } else if |dest| <= n {
      CellOf(1, n, |dest| + n - 1);
    } else {
      BatchesCount(dest[n..], n);
      DivAddOne(|dest| - 1, n);
    }
  }

  /** Batch `k` is the run of events from offset `k * n`, cut at the
      end of `dest`. */
  lemma {:induction false} BatchAt(dest: seq<VisualData>, n: nat, k: nat, start: nat, end: nat)
    requires n > 0 && start == k * n && start < |dest|
    requires end == if start + n < |dest| then start + n else |dest|
    ensures k < |Batches(dest, n)| && Batches(dest, n)[k] == dest[start..end]
    decreases k
  {
    if k > 0 {
      NextOffset(k - 1, n);
      var rest := dest[n..];
      BatchAt(rest, n, k - 1, start - n, end - n);
      assert Batches(dest, n) == [dest[..n]] + Batches(rest, n);
      DropSlice(dest, n, start - n, end - n);
    }
  }

  /** Once the offset `k * n` passes the end of `dest`, with the offset
      before it still inside, `k` is the number of batches. */
  lemma {:induction false} BatchesEnd(dest: seq<VisualData>, n: nat, k: nat)
    requires n > 0 && |dest| <= k * n
    requires k == 0 || (k - 1) * n < |dest|
    ensures k == |Batches(dest, n)|
    decreases k
  {
    if k > 0 {
      NextOffset(k - 1, n);
      if |dest| <= n {
        if k > 1 {
          MulMono(n, 1, k - 1);
          assert false;
        }
        assert Batches(dest, n) == [dest[..|dest|]] + Batches(dest[|dest|..], n);
        assert dest[|dest|..] == [];
      } else {
        var rest := dest[n..];
        if k > 1 {
          NextOffset(k - 2, n);
          BatchesEnd(rest, n, k - 1);
        }
        assert Batches(dest, n) == [dest[..n]] + Batches(rest, n);
      }
    }
  }

  // ---------------------------------------------------------------
  // The encoder's input pipe

  /** What the encoder side makes of one write: all of it is taken, or
      the write fails after `written` bytes. */
  datatype WriteResult = Accepted | Refused(written: nat, cause: string)

  /** The writing end of the pipe to the encoder. The `k`-th write has
      the outcome `outcome(k)`; accepted frames are recorded. */
  class Pipe {
    const outcome: nat -> WriteResult
    var frames: seq<seq<Byte>>
    var closed: bool

    constructor(outcome: nat -> WriteResult)
      ensures this.outcome == outcome && frames == [] && !closed
    {
      this.outcome := outcome;
      frames := [];
      closed := false;
    }

    /** `pw.Write`: the number of bytes taken and the error, if any. */
    method Write(data: seq<Byte>) returns (n: nat, err: Option<string>)
      requires !closed
      modifies this
      ensures !closed
      ensures outcome(|old(frames)|).Accepted? ==> frames == old(frames) + [data] && n == |data| && err.None?
      ensures outcome(|old(frames)|).Refused? ==>
                frames == old(frames) && n == outcome(|old(frames)|).written
                && err == Some(outcome(|old(frames)|).cause)
    {
      match outcome(|frames|)
      case Accepted =>
        frames := frames + [data];
        return |data|, None;
      case Refused(written, cause) =>
        return written, Some(cause);
    }

    method Close()
      modifies this
      ensures closed && frames == old(frames)
    {
      closed := true;
    }
  }

  // ---------------------------------------------------------------
  // Errors

  /** The errors of the writer. */
  datatype WriteError =
    | EncoderExited(frame: nat, exitCause: Option<string>)
    | PipeWriteFailed(written: nat, frame: nat, cause: string)
  {
    function Message(): string
    {
      match this
      case EncoderExited(k, None) => "ffmpeg exited before frame " + IntToString(k)
      case EncoderExited(k, Some(e)) => "ffmpeg exited before frame " + IntToString(k) + ": " + e
      case PipeWriteFailed(n, k, e) =>
        "writing to ffmpeg pipe failed after " + IntToString(n) + " bytes at frame " + IntToString(k) + ": " + e
    }
  }

  /** The error `EncodeGPU` returns. */
  datatype EncodeError =
    | EncoderFailed(ff: string, write: Option<WriteError>)
    | WriteFailed(writeErr: WriteError)
  {
    function Message(): string
    {
      match this
      case EncoderFailed(ff, None) => "ffmpeg error: " + ff
      case EncoderFailed(ff, Some(w)) => "ffmpeg error: " + ff + "; write error: " + w.Message()
      case WriteFailed(w) => "write error: " + w.Message()
    }
  }

  /** The result of `EncodeGPU` from the two errors: success only when
      there is neither, the encoder's error first when there is one. */
  function Combine(ffErr: Option<string>, writeErr: Option<WriteError>): (r: Option<EncodeError>)
    ensures r.None? <==> ffErr.None? && writeErr.None?
    ensures ffErr.Some? ==> r == Some(EncoderFailed(ffErr.value, writeErr))
    ensures ffErr.None? && writeErr.Some? ==> r == Some(WriteFailed(writeErr.value))
  {
    if ffErr.Some? then Some(EncoderFailed(ffErr.value, writeErr))
    else if writeErr.Some? then Some(WriteFailed(writeErr.value))
    else None
  }

  /** The combined message starts with the encoder's error whenever there
      is one, and carries the writer's message after it. */
  lemma CombinedMessage(ff: string, writeErr: Option<WriteError>)
    ensures var m := Combine(Some(ff), writeErr).value.Message();
            m[..|"ffmpeg error: " + ff|] == "ffmpeg error: " + ff
            && (writeErr.Some? ==> m[|m| - |writeErr.value.Message()|..] == writeErr.value.Message())
  {
  }

  // ---------------------------------------------------------------
  // The writer loop

  /** The course of the writer from frame `k` of `total`: it stops with
      an error naming the frame when the encoder has exited before it or
      the write of it fails; otherwise it writes the frame and goes on.
      The result is the number of frames written and the error. */
  function WriterRun(k: nat, total: nat, exitedBefore: nat -> bool, ffErr: Option<string>,
                     outcome: nat -> WriteResult): (r: (nat, Option<WriteError>))
    requires k <= total
    ensures k <= r.0 <= total
    ensures r.1.None? ==> r.0 == total
    ensures r.1.Some? ==> r.0 < total && r.1.value.frame == r.0
    decreases total - k
  {
    if k == total then (k, None)
    else if exitedBefore(k) then (k, Some(EncoderExited(k, ffErr)))
    else match outcome(k)
      case Refused(n, e) => (k, Some(PipeWriteFailed(n, k, e)))
      case Accepted => WriterRun(k + 1, total, exitedBefore, ffErr, outcome)
  }

  /** Why the writer stopped where it did: every frame before the stop
      was accepted with the encoder still running; an exit error means
      the encoder had exited before the failing frame and carries its
      error; a write error is the refusal of that frame's write. */
  lemma {:induction false} WriterRunStops(k: nat, total: nat, exitedBefore: nat -> bool, ffErr: Option<string>,
                                          outcome: nat -> WriteResult)
    requires k <= total
    ensures var r := WriterRun(k, total, exitedBefore, ffErr, outcome);
            && (forall j :: k <= j < r.0 ==> !exitedBefore(j) && outcome(j).Accepted?)
            && (r.1.Some? && r.1.value.EncoderExited? ==> exitedBefore(r.0) && r.1.value.exitCause == ffErr)
            && (r.1.Some? && r.1.value.PipeWriteFailed? ==>
                  !exitedBefore(r.0) && outcome(r.0) == Refused(r.1.value.written, r.1.value.cause))
    decreases total - k
  {
    if k < total && !exitedBefore(k) && outcome(k).Accepted? {
      WriterRunStops(k + 1, total, exitedBefore, ffErr, outcome);
    }
  }

  /** The number of frames rendered: the ones written, and the one whose
      write failed. */
  function Rendered(run: (nat, Option<WriteError>)): nat
  {
    if run.1.Some? && run.1.value.PipeWriteFailed? then run.0 + 1 else run.0
  }

  /** The canvas after the first `k` batches: every event of those
      batches drawn over the starting canvas. */
  function FrameAfter(base: Grid, batches: seq<seq<VisualData>>, k: nat, load: string -> Option<Texture>, ts: int): Grid
    requires k <= |batches|
  {
    PaintGrid(base, BlockDraws(Concat(batches[..k]), load, ts))
  }

  /** The canvas after the first `k` batches, `base` before any. */
  function Current(base: Grid, batches: seq<seq<VisualData>>, k: nat, load: string -> Option<Texture>, ts: int): Grid
    requires k <= |batches|
  {
    if k == 0 then base else FrameAfter(base, batches, k, load, ts)
  }

  /** The canvases of the stream: `base`, then one per batch. */
  function Canvases(base: Grid, batches: seq<seq<VisualData>>, k: nat, load: string -> Option<Texture>, ts: int): (r: seq<Grid>)
    requires k <= |batches|
    ensures |r| == k + 1
  {
    if k == 0 then [base] else Canvases(base, batches, k - 1, load, ts) + [FrameAfter(base, batches, k, load, ts)]
  }

  /** Canvas `j` of the stream is the canvas after the first `j` batches. */
  lemma {:induction false} CanvasesAt(base: Grid, batches: seq<seq<VisualData>>, k: nat, load: string -> Option<Texture>, ts: int, j: nat)
    requires j <= k <= |batches|
    ensures Canvases(base, batches, k, load, ts)[j] == Current(base, batches, j, load, ts)
  {
    if j < k {
      CanvasesAt(base, batches, k - 1, load, ts, j);
    }
  }

  /** The bytes of the first `k` frames, one RGB24 serialisation each. */
  function FrameBytes(base: Grid, batches: seq<seq<VisualData>>, k: nat, load: string -> Option<Texture>, ts: int): (r: seq<seq<Byte>>)
    requires k <= |batches|
    ensures |r| == k
  {
    if k == 0 then [] else FrameBytes(base, batches, k - 1, load, ts) + [Serialize(Flatten(FrameAfter(base, batches, k, load, ts)), false)]
  }

  /** Frame `j` of the stream is the canvas after batch `j`, serialised. */
  lemma {:induction false} FrameBytesAt(base: Grid, batches: seq<seq<VisualData>>, k: nat, load: string -> Option<Texture>, ts: int, j: nat)
    requires j < k <= |batches|
    ensures FrameBytes(base, batches, k, load, ts)[j] == Serialize(Flatten(FrameAfter(base, batches, j + 1, load, ts)), false)
  {
    if j < k - 1 {
      FrameBytesAt(base, batches, k - 1, load, ts, j);
    }
  }

  /** The package-level state of the renderer: the last frame
      (`imgTmp`), the raw frame buffer (`frameBuffer`) and the texture
      cache. */
  class Session {
    var imgTmp: Option<array2<Pixel>>
    var frameBuffer: array<Byte>
    const store: TextureStore

    /** The buffer is empty until a frame is rendered and then holds
        exactly one RGB24 frame of the last frame's size. */
    ghost predicate Valid()
      reads this, store
    {
      && store.Valid()
      && (imgTmp.None? ==> frameBuffer.Length == 0)
      && (imgTmp.Some? ==> frameBuffer.Length == 3 * (imgTmp.value.Length0 * imgTmp.value.Length1))
    }

    constructor(store: TextureStore)
      requires store.Valid()
      ensures Valid() && this.store == store && imgTmp.None?
    {
      this.store := store;
      imgTmp := None;
      frameBuffer := new Byte[0];
    }

    /** The canvas the next frame starts from. */
    ghost function Base(width: nat, height: nat, ts: int): Grid
      requires imgTmp.None? ==> TilingEnds(store.load, width, ts)
      reads this, if imgTmp.Some? then {imgTmp.value} else {}
    {
      if imgTmp.Some? then Snapshot(imgTmp.value) else Background(store.load, width, height, ts)
    }

    /** After a frame has been rendered, `imgTmp` holds it and the
        package buffer holds its RGB24 bytes. */
    ghost predicate HoldsFrame()
      reads this, frameBuffer, if imgTmp.Some? then {imgTmp.value} else {}
    {
      imgTmp.Some? && frameBuffer[..] == Serialize(Flatten(Snapshot(imgTmp.value)), false)
    }

    /** What the writer leaves for the next call after `run` over the
        stream from `base`: the next frame starts from the canvas of
        the last frame rendered, which `imgTmp` and the buffer hold;
        with no frame rendered, `imgTmp` and the buffer are still `img`
        and `buf`, the buffer holding `bytes`. */
    ghost predicate LeavesFrame(width: nat, height: nat, ts: int, base: Grid, batches: seq<seq<VisualData>>,
                                run: (nat, Option<WriteError>), img: Option<array2<Pixel>>, buf: array<Byte>,
                                bytes: seq<Byte>)
      reads this, frameBuffer, if imgTmp.Some? then {imgTmp.value} else {}
    {
      && (imgTmp.None? ==> TilingEnds(store.load, width, ts))
      && Rendered(run) <= |batches|
      && Base(width, height, ts) == Canvases(base, batches, |batches|, store.load, ts)[Rendered(run)]
      && Carries(Rendered(run), img, buf, bytes)
    }

    /** The writer has stopped after `run` over the stream from `base`:
        the pipe is closed and holds the frames before the stop, and
        the frame state is left as `LeavesFrame` says. */
    ghost predicate Stopped(width: nat, height: nat, ts: int, pipe: Pipe, base: Grid, batches: seq<seq<VisualData>>,
                            run: (nat, Option<WriteError>), img: Option<array2<Pixel>>, buf: array<Byte>,
                            bytes: seq<Byte>)
      reads this, frameBuffer, pipe, if imgTmp.Some? then {imgTmp.value} else {}
    {
      && pipe.closed && run.0 <= |batches|
      && pipe.frames == FrameBytes(base, batches, |batches|, store.load, ts)[..run.0]
      && LeavesFrame(width, height, ts, base, batches, run, img, buf, bytes)
    }

    /** After `k` frames, `imgTmp` and the buffer hold the last of them;
        before the first, they are still `img` and `buf` holding `bytes`. */
    ghost predicate Carries(k: nat, img: Option<array2<Pixel>>, buf: array<Byte>, bytes: seq<Byte>)
      reads this, frameBuffer, if imgTmp.Some? then {imgTmp.value} else {}
    {
      && (k > 0 ==> HoldsFrame())
      && (k == 0 ==> imgTmp == img && frameBuffer == buf && frameBuffer[..] == bytes)
    }

    /** One frame: `frameCreate` on the last frame with the package
        buffer, after which the new frame and its bytes replace them. */
    method RenderBatch(batch: seq<VisualData>, width: nat, height: nat, ts: int)
      requires Valid()
      requires imgTmp.None? ==> TilingEnds(store.load, width, ts)
      modifies this, store, frameBuffer
      ensures Valid() && imgTmp.Some? && fresh(imgTmp.value)
      ensures frameBuffer == old(frameBuffer) || fresh(frameBuffer)
      ensures Snapshot(imgTmp.value) == PaintGrid(old(Base(width, height, ts)), BlockDraws(batch, store.load, ts))
      ensures frameBuffer[..] == Serialize(Flatten(Snapshot(imgTmp.value)), false)
    {
      var img, out := RenderOver(store, batch, imgTmp, frameBuffer, width, height, ts);
      imgTmp, frameBuffer := Some(img), out;
    }

    /** The writer is on course before frame `k` of the stream from
        `base`: the pipe is open and holds the first `k` frames, the
        next frame is drawn over canvas `k`, and the run from frame `k`
        ends as `run`. */
    ghost predicate OnCourse(k: nat, width: nat, height: nat, ts: int, exitedBefore: nat -> bool,
                             ffErr: Option<string>, pipe: Pipe, base: Grid, batches: seq<seq<VisualData>>,
                             run: (nat, Option<WriteError>))
      reads this, store, pipe, if imgTmp.Some? then {imgTmp.value} else {}
    {
      && k <= |batches| && Valid() && !pipe.closed
      && (imgTmp.None? ==> TilingEnds(store.load, width, ts))
      && WriterRun(k, |batches|, exitedBefore, ffErr, pipe.outcome) == run
      && pipe.frames == FrameBytes(base, batches, |batches|, store.load, ts)[..k]
      && Base(width, height, ts) == Canvases(base, batches, |batches|, store.load, ts)[k]
    }

    /** The writer of `EncodeGPU`: one frame per batch of `iterations`
        events, each drawn over the previous frame, each written whole
        to the pipe; it stops at the first batch before which the
        encoder has exited and at the first failed write, and closes
        the pipe on every path. */
    method WriteFrames(dest: seq<VisualData>, width: nat, height: nat, iterations: int, ts: int,
                       exitedBefore: nat -> bool, ffErr: Option<string>, pipe: Pipe)
      returns (writeErr: Option<WriteError>)
      requires Valid() && iterations > 0
      requires imgTmp.None? ==> TilingEnds(store.load, width, ts)
      requires !pipe.closed && pipe.frames == []
      modifies this, store, frameBuffer, pipe
      ensures Valid()
      ensures var batches := Batches(dest, iterations);
              var run := WriterRun(0, |batches|, exitedBefore, ffErr, pipe.outcome);
              && writeErr == run.1
              && Stopped(width, height, ts, pipe, old(Base(width, height, ts)), batches, run,
                         old(imgTmp), old(frameBuffer), old(frameBuffer[..]))
    {
      ghost var batches := Batches(dest, iterations);
      ghost var base := Base(width, height, ts);
      ghost var run := WriterRun(0, |batches|, exitedBefore, ffErr, pipe.outcome);
      ghost var img0, buf0, bytes0 := imgTmp, frameBuffer, frameBuffer[..];
      var batchSize := iterations;
      var frameIndex := 0;
      var i := 0;
      CanvasesAt(base, batches, |batches|, store.load, ts, 0);
      while i < |dest|
        invariant i == frameIndex * batchSize
        invariant frameIndex == 0 || (frameIndex - 1) * batchSize < |dest|
        invariant OnCourse(frameIndex, width, height, ts, exitedBefore, ffErr, pipe, base, batches, run)
        invariant frameBuffer == old(frameBuffer) || fresh(frameBuffer)
        invariant Carries(frameIndex, img0, buf0, bytes0)
        decreases |dest| - i
      {
        writeErr := WriteBatch(dest, batchSize, i, width, height, ts, exitedBefore, ffErr, pipe, base, batches, run,
                              img0, buf0, bytes0, frameIndex);
        if writeErr.Some? {
          return;
        }
        frameIndex := frameIndex + 1;
        i := i + batchSize;
      }
      writeErr := FinishWriting(dest, batchSize, width, height, ts, exitedBefore, ffErr, pipe, base, run,
                                img0, buf0, bytes0, frameIndex);
    }

    /** The end of the writer once every batch is written: the deferred
        close of the pipe, with no error. */
    method FinishWriting(dest: seq<VisualData>, batchSize: nat, width: nat, height: nat, ts: int,
                         exitedBefore: nat -> bool, ffErr: Option<string>, pipe: Pipe,
                         ghost base: Grid, ghost run: (nat, Option<WriteError>),
                         ghost img0: Option<array2<Pixel>>, ghost buf0: array<Byte>, ghost bytes0: seq<Byte>, k: nat)
      returns (writeErr: Option<WriteError>)
      requires batchSize > 0 && |dest| <= k * batchSize && (k == 0 || (k - 1) * batchSize < |dest|)
      requires OnCourse(k, width, height, ts, exitedBefore, ffErr, pipe, base, Batches(dest, batchSize), run)
      requires Carries(k, img0, buf0, bytes0)
      modifies pipe
      ensures Valid() && writeErr == None
      ensures writeErr == run.1 && Stopped(width, height, ts, pipe, base, Batches(dest, batchSize), run, img0, buf0, bytes0)
    {
      ghost var batches := Batches(dest, batchSize);
      BatchesEnd(dest, batchSize, k);
      pipe.Close();
      return None;
    }

    /** One turn of the writer loop for frame `k`, whose batch starts
        at offset `i`: stop if the encoder has exited, otherwise render
        the batch and write the frame, closing the pipe on every
        error. */
    method WriteBatch(dest: seq<VisualData>, batchSize: nat, i: nat, width: nat, height: nat, ts: int,
                      exitedBefore: nat -> bool, ffErr: Option<string>, pipe: Pipe,
                      ghost base: Grid, ghost batches: seq<seq<VisualData>>, ghost run: (nat, Option<WriteError>),
                      ghost img0: Option<array2<Pixel>>, ghost buf0: array<Byte>, ghost bytes0: seq<Byte>, k: nat)
      returns (writeErr: Option<WriteError>)
      requires batchSize > 0 && i == k * batchSize && i < |dest| && batches == Batches(dest, batchSize)
      requires OnCourse(k, width, height, ts, exitedBefore, ffErr, pipe, base, batches, run)
      requires Carries(k, img0, buf0, bytes0)
      modifies this, store, frameBuffer, pipe
      ensures Valid()
      ensures frameBuffer == old(frameBuffer) || fresh(frameBuffer)
      ensures i + batchSize == (k + 1) * batchSize
      ensures writeErr.None? ==>
                OnCourse(k + 1, width, height, ts, exitedBefore, ffErr, pipe, base, batches, run)
      ensures writeErr.Some? ==>
                writeErr == run.1 && Stopped(width, height, ts, pipe, base, batches, run, img0, buf0, bytes0)
      ensures writeErr.None? ==> HoldsFrame()
    {
      var end := i + batchSize;
      if end > |dest| {
        end := |dest|;
      }
      BatchAt(dest, batchSize, k, i, end);
      NextOffset(k, batchSize);
      if exitedBefore(k) {
        writeErr := StopOnExit(k, width, height, ts, exitedBefore, ffErr, pipe, base, batches, run, img0, buf0, bytes0);
        return;
      }
      var n, err := RenderAndSend(dest[i..end], width, height, ts, pipe, base, batches, k);
      if err.Some? {
        writeErr := StopOnRefusal(k, width, height, ts, exitedBefore, ffErr, pipe, base, batches, run, n, err.value,
                                  img0, buf0, bytes0);
        return;
      }
      return None;
    }

    /** The encoder exited before frame `k`: the pipe is closed, and the
        canvas of frame `k` is left behind. */
    method StopOnExit(k: nat, width: nat, height: nat, ts: int, exitedBefore: nat -> bool, ffErr: Option<string>,
                      pipe: Pipe, ghost base: Grid, ghost batches: seq<seq<VisualData>>,
                      ghost run: (nat, Option<WriteError>),
                      ghost img0: Option<array2<Pixel>>, ghost buf0: array<Byte>, ghost bytes0: seq<Byte>)
      returns (writeErr: Option<WriteError>)
      requires OnCourse(k, width, height, ts, exitedBefore, ffErr, pipe, base, batches, run)
      requires k < |batches| && exitedBefore(k)
      requires Carries(k, img0, buf0, bytes0)
      modifies pipe
      ensures writeErr == Some(EncoderExited(k, ffErr)) == run.1
      ensures Stopped(width, height, ts, pipe, base, batches, run, img0, buf0, bytes0)
    {
      pipe.Close();
      return Some(EncoderExited(k, ffErr));
    }

    /** The write of frame `k` was refused after `n` bytes: the pipe is
        closed, and frame `k`'s canvas, which was rendered, is left
        behind. */
    method StopOnRefusal(k: nat, width: nat, height: nat, ts: int, exitedBefore: nat -> bool, ffErr: Option<string>,
                         pipe: Pipe, ghost base: Grid, ghost batches: seq<seq<VisualData>>,
                         ghost run: (nat, Option<WriteError>), n: nat, cause: string,
                         ghost img0: Option<array2<Pixel>>, ghost buf0: array<Byte>, ghost bytes0: seq<Byte>)
      returns (writeErr: Option<WriteError>)
      requires k < |batches| && WriterRun(k, |batches|, exitedBefore, ffErr, pipe.outcome) == run
      requires !exitedBefore(k) && pipe.outcome(k) == Refused(n, cause)
      requires Valid() && HoldsFrame()
      requires Base(width, height, ts) == Canvases(base, batches, |batches|, store.load, ts)[k + 1]
      requires pipe.frames == FrameBytes(base, batches, |batches|, store.load, ts)[..k]
      modifies pipe
      ensures writeErr == Some(PipeWriteFailed(n, k, cause)) == run.1
      ensures Stopped(width, height, ts, pipe, base, batches, run, img0, buf0, bytes0)
    {
      pipe.Close();
      return Some(PipeWriteFailed(n, k, cause));
    }

    /** One turn of the writer: frame `k` rendered from batch `k` and
        written to the pipe. */
    method RenderAndSend(batch: seq<VisualData>, width: nat, height: nat, ts: int, pipe: Pipe,
                         ghost base: Grid, ghost batches: seq<seq<VisualData>>, k: nat)
      returns (n: nat, err: Option<string>)
      requires Valid() && !pipe.closed
      requires imgTmp.None? ==> TilingEnds(store.load, width, ts)
      requires k < |batches| && batch == batches[k]
      requires Base(width, height, ts) == Canvases(base, batches, |batches|, store.load, ts)[k]
      requires pipe.frames == FrameBytes(base, batches, |batches|, store.load, ts)[..k]
      modifies this, store, frameBuffer, pipe
      ensures Valid() && !pipe.closed && HoldsFrame()
      ensures frameBuffer == old(frameBuffer) || fresh(frameBuffer)
      ensures Base(width, height, ts) == Canvases(base, batches, |batches|, store.load, ts)[k + 1]
      ensures pipe.outcome(k).Accepted? ==>
                pipe.frames == FrameBytes(base, batches, |batches|, store.load, ts)[..k + 1] && err.None?
      ensures pipe.outcome(k).Refused? ==>
                pipe.frames == old(pipe.frames) && n == pipe.outcome(k).written && err == Some(pipe.outcome(k).cause)
    {
      ghost var expected := FrameBytes(base, batches, |batches|, store.load, ts);
      StreamStep(base, batches, store.load, ts, k);
      RenderBatch(batch, width, height, ts);
      n, err := pipe.Write(frameBuffer[..]);
      assert expected[..k] + [expected[k]] == expected[..k + 1];
    }

    /** `EncodeGPU`: chooses the encoder, decides on scaling, starts the
        encoder with the raw-video input options and the output options
        for `filename`, runs the writer and combines the two errors.
        `sent` is what reached the encoder. */
    method EncodeGPU(dest: seq<VisualData>, width: nat, height: nat, iterations: int, ts: int, framerate: int,
                     filename: string, probes: GpuProbes, available: string -> bool,
                     exitedBefore: nat -> bool, ffErr: Option<string>, outcome: nat -> WriteResult)
      returns (err: Option<EncodeError>, inputArgs: map<string, string>, outputArgs: map<string, string>,
               sent: seq<seq<Byte>>)
      requires Valid() && iterations > 0
      requires imgTmp.None? ==> TilingEnds(store.load, width, ts)
      modifies this, store, frameBuffer
      ensures Valid()
      ensures var batches := Batches(dest, iterations);
              var run := WriterRun(0, |batches|, exitedBefore, ffErr, outcome);
              && err == Combine(ffErr, run.1)
              && sent == FrameBytes(old(Base(width, height, ts)), batches, |batches|, store.load, ts)[..run.0]
              && LeavesFrame(width, height, ts, old(Base(width, height, ts)), batches, run,
                             old(imgTmp), old(frameBuffer), old(frameBuffer[..]))
      ensures inputArgs == InputArgs(width, height, framerate)
      ensures var (c, gpuType) := EncoderChoice(width, height, probes, available);
              && EncoderArgsFor(outputArgs, c.codec, c.name, gpuType, width, height, NeedsScaling(width, height, c.name))
              && ("vf" in outputArgs <==> NeedsScaling(width, height, c.name))
    {
      outputArgs := OutputArgs(width, height, probes, available);
      var pipe := new Pipe(outcome);
      inputArgs := InputArgs(width, height, framerate);
      var writeErr := WriteFrames(dest, width, height, iterations, ts, exitedBefore, ffErr, pipe);
      sent := pipe.frames;
      err := Combine(ffErr, writeErr);
    }

    /** `GeneratePhotoLocal` without the file output: the events are
        deduplicated in place and composed over a fresh background. */
    method GeneratePhotoLocal(dest: array<VisualData>, width: nat, height: nat, ts: int)
      returns (photo: array2<Pixel>, n: nat)
      requires store.Valid() && TilingEnds(store.load, width, ts)
      modifies store, dest
      ensures store.Valid() && n <= dest.Length
      ensures dest[..n] == Deduplicated(old(dest[..]))
      ensures Snapshot(photo) ==
                PaintGrid(Background(store.load, width, height, ts), BlockDraws(Deduplicated(old(dest[..])), store.load, ts))
    {
      n := RemoveOldData(dest);
      var out;
      photo, out := FrameCreate(store, dest[..n], None, width, height, ts, None);
    }
  }

  /** `frameCreate` over the previous frame `im` (the background when
      there is none) with the package buffer, which is empty before the
      first frame and one RGB24 frame long after it: the new frame is
      the batch drawn over the previous one, and the buffer returned
      holds exactly its bytes. */
  method RenderOver(store: TextureStore, batch: seq<VisualData>, im: Option<array2<Pixel>>, buffer: array<Byte>,
                    width: nat, height: nat, ts: int)
    returns (img: array2<Pixel>, out: array<Byte>)
    requires store.Valid()
    requires im.None? ==> TilingEnds(store.load, width, ts) && buffer.Length == 0
    requires im.Some? ==> buffer.Length == 3 * (im.value.Length0 * im.value.Length1)
    modifies store, buffer
    ensures store.Valid() && fresh(img) && (out == buffer || fresh(out))
    ensures Snapshot(img) ==
              PaintGrid(if im.Some? then Snapshot(im.value) else Background(store.load, width, height, ts),
                        BlockDraws(batch, store.load, ts))
    ensures out.Length == 3 * (img.Length0 * img.Length1)
    ensures out[..] == Serialize(Flatten(Snapshot(img)), false)
  {
    var outBuffer;
    img, outBuffer := FrameCreate(store, batch, im, width, height, ts, Some(buffer));
    ghost var bytes := Serialize(Flatten(Snapshot(img)), false);
    assert |bytes| == 3 * (img.Length0 * img.Length1) by {
      SerializeLength(Flatten(Snapshot(img)), false);
      FlattenLength(Snapshot(img), img.Length1, img.Length0);
    }
    out := outBuffer.value;
    if buffer.Length != 0 {
      assert buffer[..] == buffer[..|bytes|];
    }
  }

  /** The frame after batch `k` is batch `k` drawn over the frame before. */
  lemma NextFrame(base: Grid, batches: seq<seq<VisualData>>, k: nat, load: string -> Option<Texture>, ts: int, prior: Grid)
    requires k < |batches|
    requires k == 0 ==> prior == base
    requires k > 0 ==> prior == FrameAfter(base, batches, k, load, ts)
    ensures PaintGrid(prior, BlockDraws(batches[k], load, ts)) == FrameAfter(base, batches, k + 1, load, ts)
  {
    assert batches[..k + 1][..k] == batches[..k];
    BlockDrawsAppend(Concat(batches[..k]), batches[k], load, ts);
    PaintGridAppend(base, BlockDraws(Concat(batches[..k]), load, ts), BlockDraws(batches[k], load, ts));
    if k == 0 {
      assert batches[..0] == [];
      PaintGridNone(base);
    }
  }

  /** Drawing batch `k` over canvas `k` of the stream gives canvas
      `k + 1`, whose serialisation is frame `k` of the stream. */
  lemma StreamStep(base: Grid, batches: seq<seq<VisualData>>, load: string -> Option<Texture>, ts: int, k: nat)
    requires k < |batches|
    ensures var canvases := Canvases(base, batches, |batches|, load, ts);
            && PaintGrid(canvases[k], BlockDraws(batches[k], load, ts)) == canvases[k + 1]
            && FrameBytes(base, batches, |batches|, load, ts)[k] == Serialize(Flatten(canvases[k + 1]), false)
  {
    CanvasesAt(base, batches, |batches|, load, ts, k);
    CanvasesAt(base, batches, |batches|, load, ts, k + 1);
    NextFrame(base, batches, k, load, ts, Canvases(base, batches, |batches|, load, ts)[k]);
    FrameBytesAt(base, batches, |batches|, load, ts, k);
  }

  // ---------------------------------------------------------------
  // The still image

  lemma {:induction false} FirstLatestUpToHas(s: seq<VisualData>, n: nat, k: nat)
    requires k < n <= |s| && FirstLatest(s, k)
    ensures s[k] in FirstLatestUpTo(s, n)
  {
    if k < n - 1 {
      FirstLatestUpToHas(s, n - 1, k);
    }
  }

  /** In the still image, a pixel of a cell some event touched shows the
      texture of the surviving event there (the latest, the first among
      equals) when it loads, and the background otherwise; a pixel of an
      untouched cell shows the background. */
  lemma PhotoPixel(s: seq<VisualData>, load: string -> Option<Texture>, ts: int, under: Pixel, x: int, y: int, k: nat)
    requires ts > 0 && SquareTextures(s, load, ts)
    requires k < |s| && FirstLatest(s, k) && s[k].Cell() == (x / ts, y / ts)
    ensures Painted(BlockDraws(Deduplicated(s), load, ts), under, x, y) ==
              match load(TexturePath(s[k].blockTexture))
              case None => under
              case Some(t) => t.rows[y % ts][x % ts]
  {
    var d := Deduplicated(s);
    var c := (x / ts, y / ts);
    DeduplicatedSquare(s, load, ts);
    DeduplicatedIsFirstLatest(s);
    FirstLatestUpToHas(s, |s|, k);
    DeduplicatedOnePerCell(s);
    BlockPixel(d, load, ts, under, x, y);
    var last := LastAt(d, load, c);
    if last.Some? {
      var e := last.value.0;
      assert e == s[k] by {
        var i :| 0 <= i < |d| && d[i] == e;
        var j :| 0 <= j < |d| && d[j] == s[k];
        assert d[i].Cell() == d[j].Cell();
      }
    }
  }

  /** A pixel of a cell no event touched keeps the background. */
  lemma PhotoUntouched(s: seq<VisualData>, load: string -> Option<Texture>, ts: int, under: Pixel, x: int, y: int)
    requires ts > 0 && SquareTextures(s, load, ts)
    requires (x / ts, y / ts) !in Cells(s)
    ensures Painted(BlockDraws(Deduplicated(s), load, ts), under, x, y) == under
  {
    DeduplicatedSquare(s, load, ts);
    DeduplicatedOnePerCell(s);
    BlockPixel(Deduplicated(s), load, ts, under, x, y);
  }

  lemma DeduplicatedSquare(s: seq<VisualData>, load: string -> Option<Texture>, ts: int)
    requires SquareTextures(s, load, ts)
    ensures SquareTextures(Deduplicated(s), load, ts)
  {
    DeduplicatedKeepsFirstLatest(s);
  }

  // ---------------------------------------------------------------
  // Arithmetic and slicing helpers: proof steps used above, not
  // properties of the program.

  lemma DivAddOne(x: nat, n: nat)
    requires n > 0
    ensures (x + n) / n == x / n + 1
  {
    CellOf(x / n, n, x);
    CellOf(x / n + 1, n, x + n);
  }

  lemma NextOffset(k: nat, n: nat)
    ensures (k + 1) * n == k * n + n
  {
  }

  lemma DropSlice<T>(s: seq<T>, n: nat, a: nat, e: nat)
    requires n <= |s| && a <= e <= |s| - n
    ensures s[n..][a..e] == s[n + a..n + e]
  {
  }
}
