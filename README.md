# Timelapse-PixelBattle rendering core in Dafny

This project models the rendering core of Timelapse-PixelBattle. The
program turns a log of Minecraft "pixel battle" block placements into a
timelapse video or a single picture. Each placement is a `VisualData`
event: a timestamp, a cell `(X, Y)` and a block texture name. The
modelled core has these parts.

- **Texture cache** (`Textures`). `getCachedImage` loads a PNG file on
  first use and returns the cached copy afterwards.
- **Compositor** (`Raster`, `Compositor`). `frameCreate` starts from the
  previous frame, or from the background texture tiled over a fresh
  canvas, or from plain white when the background is missing. It draws
  every block's texture at `(X * textureSize, Y * textureSize)`, in
  order. `imageToRGB` then serialises the canvas into a raw RGB24 (or
  RGBA) buffer, reusing the caller's buffer when it is non-empty.
- **Deduplication** (`Dedup`). `removeOldData` keeps, for each cell, the
  first event that carries the cell's latest timestamp. It keeps the
  original order and compacts the slice in place.
- **Encoder selection** (`Encoder`). This covers the GPU classification
  from the `lspci` probes, the per-class resolution ceilings, and the
  downscaling to even dimensions. It also covers the ordered fallback
  through hardware encoders to `libx264`, and the ffmpeg output
  arguments for each encoder family.
- **Pipelines** (`Pipeline`).
  - `EncodeGPU` cuts the events into batches of `iterations` events. It
    renders one frame per batch on top of the previous frame and writes
    each frame's bytes to the encoder's input pipe. It stops at the
    first frame before which the encoder has exited, or whose write
    fails. The result combines the encoder's error with the writer's.
  - `GeneratePhotoLocal` deduplicates the events and composes one
    picture.
- **Local-mode reader** (`LocalMode`, with the string and `strconv`
  pieces in `Text`). It models the loop of `localModeSetup`, which turns
  an SQL dump into events. The dump is split into lines and empty lines
  are skipped. On every other line the characters `( ) ' ; ,` are
  removed, the `INSERT INTO default.PB timestamp x y c VALUES ` head is
  cut off, and the rest is split on spaces into timestamp, x, y and
  block name. The loop is proved to invert a dump written in the same
  statement form: every readable row comes back as its event.

External effects are inputs of the model:
- the shell probes, as probe outputs and an availability predicate;
- PNG decoding, as a pure `load` function from path to texture;
- `time.Parse`, as a function from text to an optional instant;
- the ffmpeg process, as whether it has exited before each frame, its
  final error, and the outcome of each pipe write.

Three behaviours of the code are easy to misread; the model follows the
code:
- `imageToRGB` reuses the caller's buffer whenever it is non-empty, not
  only when its length matches.
- A short pipe write counts as a failure only through the error that
  `Write` returns.
- `strconv.ParseInt` errors are dropped, so a syntax error gives 0 and
  an out-of-range value gives the nearest int64 bound.

## Model

| member | source | states |
|---|---|---|
| Dedup.RemoveOldData | graphics/imageManager.go:150-177 | the slice is cut to `n` elements, which are exactly `Deduplicated` of the old contents; the cells past `n` are untouched |
| Dedup.LatestTimes | graphics/imageManager.go:155-161 | the first pass builds exactly `LatestOf` the data: per cell, the first event with the greatest timestamp |
| Dedup.LatestOfDomain | graphics/imageManager.go:155-161 | the latest map has a key for exactly the cells that occur in the data |
| Dedup.LatestOfMembers | graphics/imageManager.go:155-161 | each entry of the latest map is an event of the data at that entry's cell |
| Dedup.LatestOfGreatest | graphics/imageManager.go:158-160 | no event at a cell is later than the cell's entry in the latest map |
| Dedup.SurvivorsStep | graphics/imageManager.go:165-175 | one step of the second pass appends the event exactly when its cell is unseen and its time equals the latest time |
| Dedup.SurvivorsSubsequence | graphics/imageManager.go:163-176 | the second pass keeps a subsequence of its input |
| Dedup.SurvivorsDistinct | graphics/imageManager.go:167-173 | the second pass keeps at most one event per cell, and each kept event has its cell's latest time |
| Dedup.ReachedStep | graphics/imageManager.go:165-175 | a cell and time pair has been met before line `n` iff it was met before `n - 1` or event `n - 1` has them |
| Dedup.SurvivorsCells | graphics/imageManager.go:167-173 | a cell has been kept iff its latest time has already occurred at that cell |
| Dedup.KeptIffFirstLatest | graphics/imageManager.go:167-173 | the second pass's test keeps event `k` iff it is the first event at its cell with the cell's greatest time |
| Dedup.SurvivorsAreFirstLatest | graphics/imageManager.go:163-175 | the second pass over any prefix yields, in order, the events that are first-latest for their cell |
| Dedup.KeptAt | graphics/imageManager.go:167-173 | with the real latest map, the second pass keeps event `k` iff it is first-latest |
| Dedup.DeduplicatedIsFirstLatest | graphics/imageManager.go:150-177 | the result is, in input order, the events that are first among those with their cell's greatest timestamp |
| Dedup.DeduplicatedIsSubsequence | graphics/imageManager.go:150-177 | the result is an order-preserving subsequence no longer than the input; empty input is returned unchanged |
| Dedup.SubsequenceNoLonger | graphics/imageManager.go:176 | a subsequence is never longer than the sequence, so the final reslice fits |
| Dedup.DeduplicatedOnePerCell | graphics/imageManager.go:163-176 | the result covers exactly the input's cells, one event per cell |
| Dedup.DeduplicatedKeepsFirstLatest | graphics/imageManager.go:170-174 | every kept event is at a position where it is first-latest for its cell |
| Dedup.FirstLatestUpToMembers | graphics/imageManager.go:170-174 | every event kept from a prefix is first-latest at a position inside that prefix |
| Dedup.DistinctCellsFixed | graphics/imageManager.go:150-177 | data with one event per cell is left unchanged |
| Dedup.DistinctCellsFirstLatest | graphics/imageManager.go:150-177 | with one event per cell, every prefix keeps all its events |
| Dedup.DeduplicatedIdempotent | graphics/imageManager.go:150-177 | deduplicating twice gives the same result as once |
| Dedup.CellsAppend | graphics/imageManager.go:157 | appending an event adds exactly its `"%d:%d"` cell to the set of cells |
| Raster.DrawImage | graphics/imageManager.go:127 | drawing a texture at an offset replaces exactly the covered canvas pixels with the texture's pixels (clipped to the canvas) and leaves the others unchanged |
| Raster.PaintedAppend | graphics/imageManager.go:134-141 | drawing two runs of draws one after the other equals drawing their concatenation |
| Raster.PaintedUncovered | graphics/imageManager.go:134-141 | a pixel no draw covers keeps its colour |
| Raster.PaintedSoleCover | graphics/imageManager.go:140 | a pixel covered by a single draw shows that draw's texture pixel |
| Raster.PaintGridAppend | graphics/imageManager.go:134-141 | painting a grid with `a` and then `b` equals painting it with `a + b` |
| Raster.Solid | graphics/imageManager.go:120-122 | a solid fill is a grid of the canvas's width and height |
| Raster.PaintGrid | graphics/imageManager.go:134-141 | painting keeps the grid's dimensions |
| Raster.PixelBytes | graphics/imageManager.go:49-53 | one pixel is 3 bytes in RGB24 and 4 bytes with alpha |
| Raster.SerializeLength | graphics/imageManager.go:61 | the serialised frame of `n` pixels has `3n` bytes, or `4n` with alpha |
| Raster.SerializeAppend | graphics/imageManager.go:47-55 | serialisation distributes over concatenation of pixel runs |
| Raster.SerializeAt | graphics/imageManager.go:49-53 | pixel `k` occupies bytes `[stride * k, stride * (k + 1))` and they are its high channel bytes |
| Raster.FlattenLength | graphics/imageManager.go:61 | a width x height grid flattens to `height * width` pixels |
| Raster.FlattenAt | graphics/imageManager.go:47-48 | pixel `(x, y)` is at row-major position `y * width + x` |
| Raster.FrameByteLayout | graphics/imageManager.go:47-54 | the bytes of pixel `(x, y)` start at offset `stride * (y * width + x)` |
| Raster.FlattenPrefix | graphics/imageManager.go:47-55 | the first `n` rows flatten to a prefix of the whole flattening |
| Raster.WritePixel | graphics/imageManager.go:49-53 | the pixel's bytes are written at `index` and nothing else changes |
| Raster.WriteRow | graphics/imageManager.go:48-54 | one row's bytes are appended after `index`; the bytes before `index` and after the row are unchanged |
| Raster.WriteFrame | graphics/imageManager.go:43-58 | the buffer's prefix becomes the row-major serialisation of the canvas and its tail is unchanged |
| Raster.FrameLength | graphics/imageManager.go:61 | a frame's byte length is the stride times `height * width` |
| Raster.ImageToRGB | graphics/imageManager.go:39-91 | a non-empty buffer is reused: its prefix receives the RGB24 frame and its tail is untouched. An empty buffer is replaced by a fresh one holding exactly the RGB24 frame, or the RGBA frame when `imType == 24` |
| Raster.Snapshot | graphics/imageManager.go:142 | the value of a canvas is a grid of its size holding its pixels |
| Textures.TextureStore.GetCachedImage | graphics/imageManager.go:94-110 | the result is always what the loader gives for the path. A hit leaves the cache and load log alone. A miss calls the loader once, caches a success and leaves the cache unchanged on failure |
| Textures.TextureStore.constructor | graphics/imageManager.go:16 | the cache starts empty and valid |
| Compositor.FrameCreate | graphics/imageManager.go:112-148 | the frame is the base (a copy of the previous frame, or the background) with every block's texture drawn in order. With a buffer, the buffer is reused or replaced as `imageToRGB` does and holds the frame's RGB24 bytes |
| Compositor.Background | graphics/imageManager.go:116-130 | the fresh canvas is a width x height grid; when the background texture cannot be loaded it is plain white |
| Compositor.TileBackground | graphics/imageManager.go:125-129 | tiling paints the canvas with a draw of the texture at every multiple of `textureSize` inside the canvas |
| Compositor.ColumnTilesMembers | graphics/imageManager.go:126-128 | the inner loop draws exactly at the multiples of `textureSize` below `height` |
| Compositor.GridTilesMembers | graphics/imageManager.go:125-129 | the nested loops draw exactly at the points of the `textureSize` lattice inside the canvas |
| Compositor.TilingPoints | graphics/imageManager.go:125-129 | the tiles are exactly the lattice points `(i * ts, j * ts)` inside `width x height` |
| Compositor.NewCanvas | graphics/imageManager.go:120-124 | a new context is a fresh width x height canvas of one colour |
| Compositor.CopyCanvas | graphics/imageManager.go:115 | `NewContextForImage` gives a fresh canvas equal to the image |
| Compositor.DrawAll | graphics/imageManager.go:134-141 | drawing a list of draws paints the canvas with them in order |
| Compositor.DrawBlocks | graphics/imageManager.go:133-141 | every block whose texture loads is drawn at `(X * ts, Y * ts)`, in order; blocks whose texture fails are skipped |
| Compositor.BlockDrawsAppend | graphics/imageManager.go:134-141 | the draws of two runs of blocks are the concatenation of their draws |
| Compositor.LastAt | graphics/imageManager.go:134-141 | the last loadable block at a cell is a block of the batch at that cell; when there is none, every block there fails to load |
| Compositor.CellOf | graphics/imageManager.go:140 | pixel `x` lies in the tile of cell `cx` iff `cx == x / ts`, at offset `x % ts` |
| Compositor.BlockPixel | graphics/imageManager.go:134-141 | with square textures, a pixel shows the texture of the last loadable block at its cell, or the base colour when there is none |
| Encoder.Classification | graphics/ffmpegEncoding.go:14-51 | the class is integrated exactly when the flag is set; an Intel hit is always `intel_integrated`; no hit gives `("unknown", false)` |
| Encoder.GetGPUInfo | graphics/ffmpegEncoding.go:14-51 | the probes are run in order and their outcome is the class above |
| Encoder.MaxResolution | graphics/ffmpegEncoding.go:54-67 | every ceiling is even and at least 1920x1080, landscape; both integrated classes get 3840x2160 |
| Encoder.MinFloat | graphics/ffmpegEncoding.go:98-103 | the result is one of the arguments and no greater than either; on a tie it is the second |
| Encoder.EvenDown | graphics/ffmpegEncoding.go:84-89 | an odd value is lowered by one; the result is even and at most one below |
| Encoder.ScaledDimensions | graphics/ffmpegEncoding.go:70-95 | for any non-negative dimensions: dimensions within the ceiling are returned unchanged; otherwise both are even, within the ceiling and no larger than the input |
| Encoder.ScaledDimensionsExact | graphics/ffmpegEncoding.go:77-89 | the exact integer computation equals the source's `int(float64(w) * min(maxW/w, maxH/h))` computed over the reals, then forced even |
| Encoder.ExactOnWidth | graphics/ffmpegEncoding.go:77-89 | the equality above when the height ratio is the smaller one |
| Encoder.ExactOnHeight | graphics/ffmpegEncoding.go:77-89 | the equality above when the width ratio is the smaller one or they tie |
| Encoder.ScaledOnRatio | graphics/ffmpegEncoding.go:77-81 | scaling by the smaller ratio lands the limiting side exactly on its ceiling and the other on `b * maxA / a` |
| Encoder.ScaledBy | graphics/ffmpegEncoding.go:77-81 | the other side scaled by the limiting ratio stays within its ceiling and does not grow |
| Encoder.RealScaledIs | graphics/ffmpegEncoding.go:80-89 | the source's real result is the two truncations, each forced even |
| Encoder.FloorOfScaled | graphics/ffmpegEncoding.go:80-81 | truncating `x * (n / d)` gives the integer quotient `x * n / d` |
| Encoder.CrossCompare | graphics/ffmpegEncoding.go:99 | comparing two ratios is comparing their cross products |
| Encoder.ScaleFactor | graphics/ffmpegEncoding.go:77-79 | the scale factor of positive dimensions is positive |
| Encoder.ScaledAspect | graphics/ffmpegEncoding.go:77-89 | scaling keeps the aspect ratio up to the truncation and evening error: the cross-product difference is within `2 * (w + h)` |
| Encoder.TruncatedCross | graphics/ffmpegEncoding.go:80-89 | the truncated, evened pair differs from the exact ratio by a cross product in `[-b, 2a)` |
| Encoder.Candidates | graphics/ffmpegEncoding.go:115-150 | each class tries a non-empty list of hardware encoders, each with codec `h264_<name>` |
| Encoder.FirstAvailable | graphics/ffmpegEncoding.go:152-158 | the chosen position is available and every earlier one is not; no position means none is available |
| Encoder.EncoderChoice | graphics/ffmpegEncoding.go:106-162 | a too-large frame on an integrated GPU gets `libx264`. Otherwise the encoder is the first available candidate of the class, and `libx264` iff none is available |
| Encoder.GetGPUEncoder | graphics/ffmpegEncoding.go:106-162 | returns the codec, name and class of the choice above; probes nothing on the integrated override; every probe before the last failed, and a hardware choice was the last one probed |
| Encoder.GetEncoderArgs | graphics/ffmpegEncoding.go:164-212 | sets `yuv420p`, `faststart` and the codec for every encoder, plus each family's exact option set. A `vf` scale filter with the scaled dimensions is set iff scaling is on and the encoder is a hardware one. `vaapi_device` is set iff vaapi runs on an integrated class |
| Pipeline.IntegratedNeverScales | graphics/graphics.go:33 | on an integrated GPU the selected encoder never needs scaling: frames past 3840x2160 fall back to `libx264` |
| Pipeline.OutputArgs | graphics/graphics.go:30-49 | the output options are exactly those `getEncoderArgs` gives for the selected encoder and its GPU class (codec, each family's option set, `vaapi_device`), with the lanczos scale filter to `ScaledDimensions` present iff the frame is larger than 3840x2160 and the encoder is not `libx264` |
| Pipeline.InputArgs | graphics/graphics.go:42-47 | the encoder's input is `rawvideo` in `rgb24` with a size and a rate |
| Pipeline.BatchSizes | graphics/graphics.go:95-110 | every batch has between 1 and `iterations` events |
| Pipeline.BatchesCover | graphics/graphics.go:95-110 | the batches, concatenated in order, are exactly the events |
| Pipeline.BatchesCount | graphics/graphics.go:93 | there are `(len + iterations - 1) / iterations` batches, the source's `totalFrames` |
| Pipeline.BatchAt | graphics/graphics.go:106-110 | at offset `k * iterations`, the slice `dest[i:end]` is batch `k` |
| Pipeline.BatchesEnd | graphics/graphics.go:95 | the loop ends after exactly as many rounds as there are batches |
| Pipeline.ConcatCons | graphics/graphics.go:95-110 | concatenating batches distributes over their list |
| Pipeline.Pipe.Write | graphics/graphics.go:121-124 | an accepted write records the frame and reports all its bytes; a refused write records nothing and reports the byte count and cause |
| Pipeline.Pipe.Close | graphics/graphics.go:87-89 | closing keeps the frames written |
| Pipeline.Combine | graphics/graphics.go:138-146 | the run succeeds iff neither side failed; the encoder's error wins and carries the write error; otherwise the write error is returned |
| Pipeline.CombinedMessage | graphics/graphics.go:138-142 | the combined message starts with `ffmpeg error: ` and the encoder's error and ends with the writer's message |
| Pipeline.WriterRun | graphics/graphics.go:95-134 | the writer stops at a frame within range and names it in its error, or runs to the last frame without error |
| Pipeline.WriterRunStops | graphics/graphics.go:96-124 | every frame before the stop passed both checks; an exit error stops where the encoder had exited and carries its error; a write error stops at the refused write with its byte count and cause |
| Pipeline.Canvases | graphics/graphics.go:112-117 | the canvases from frame 0 to `k` are `k + 1` grids |
| Pipeline.CanvasesAt | graphics/graphics.go:112-117 | canvas `j` is the base with batches `0..j` painted in order |
| Pipeline.FrameBytes | graphics/graphics.go:112-121 | there is one byte string per rendered frame |
| Pipeline.FrameBytesAt | graphics/graphics.go:112-121 | frame `j`'s bytes are the RGB24 serialisation of the canvas after batch `j` |
| Pipeline.NextFrame | graphics/graphics.go:112-117 | painting batch `k` over the previous frame gives the next frame |
| Pipeline.StreamStep | graphics/graphics.go:112-121 | canvas `k + 1` is canvas `k` with batch `k` drawn, and frame `k`'s bytes are its serialisation |
| Pipeline.RenderOver | graphics/imageManager.go:112-148 | the frame over the previous one (or over the background) with the buffer reused or replaced; the buffer holds exactly its RGB24 bytes |
| Pipeline.Session.constructor | graphics/graphics.go:19-22 | a session starts with no previous frame and an empty buffer |
| Pipeline.Session.RenderBatch | graphics/graphics.go:112-117 | the new `imgTmp` is the previous frame (or the background) with the batch drawn, and `frameBuffer` holds exactly its bytes |
| Pipeline.Session.WriteFrames | graphics/graphics.go:86-134 | the pipe is closed; the writer's error is the one `WriterRun` predicts; the pipe received exactly the frames before the stop, each the serialisation of the cumulative canvas; `imgTmp` is left holding the canvas of the last frame rendered (a refused frame included) and the package buffer its bytes, or both are untouched when no frame was rendered |
| Pipeline.Session.WriteBatch | graphics/graphics.go:96-126 | one loop round: an exited encoder or a refused write ends the run with `WriterRun`'s error and frames; otherwise the next frame is sent and the loop's invariant holds for `k + 1` |
| Pipeline.Session.StopOnExit | graphics/graphics.go:87-101 | an encoder that exited before frame `k` ends the run with `WriterRun`'s exit error: the pipe is closed, it holds the frames before `k`, and `imgTmp` and the buffer are left with frame `k - 1` (untouched when `k` is 0) |
| Pipeline.Session.StopOnRefusal | graphics/graphics.go:112-124 | a refused write of frame `k` ends the run with `WriterRun`'s write error: the pipe is closed, it holds the frames before `k`, and `imgTmp` and the buffer hold frame `k`, which was rendered |
| Pipeline.Session.FinishWriting | graphics/graphics.go:126-133 | once every batch is written the writer returns no error with the pipe closed, holding every frame, and `imgTmp` and the buffer hold the last frame (untouched when there were no events) |
| Pipeline.Session.RenderAndSend | graphics/graphics.go:110-124 | renders batch `k` over the canvas so far, leaving it in `imgTmp` and its bytes in the buffer, and writes it; an accepted write extends the frames sent by frame `k`, a refused one leaves them as they were |
| Pipeline.Session.EncodeGPU | graphics/graphics.go:25-152 | the error is `Combine` of the encoder's error and the writer's; the frames sent are the cumulative frames up to the stop; the next call starts from the canvas of the last frame rendered, which `imgTmp` and the package buffer hold, or from the untouched state when none was; the input arguments are the raw RGB24 ones; the output options are those `GetEncoderArgs` promises for the selected encoder (codec, each family's option set, the `vaapi_device`), with the lanczos scale filter to `ScaledDimensions` present iff scaling is needed |
| Pipeline.Session.GeneratePhotoLocal | graphics/graphics.go:154-175 | the events are deduplicated in place and the picture is the background with the surviving blocks drawn |
| Pipeline.PhotoPixel | graphics/graphics.go:159-161 | in the picture, a pixel in a cell shows the texture of the cell's first-latest block (or the background when it cannot load) |
| Pipeline.PhotoUntouched | graphics/graphics.go:159-161 | a pixel in a cell without events keeps the background |
| Pipeline.DeduplicatedSquare | graphics/graphics.go:159-161 | deduplication keeps the textures square |
| Pipeline.FirstLatestUpToHas | graphics/graphics.go:159 | a first-latest event within a prefix is kept in that prefix's result |
| Text.LowerChar | main.go:99 | the result is not upper case, and a non-upper-case character is unchanged |
| Text.ToLower | main.go:99 | lower-casing keeps the length, leaves no upper-case letter and changes nothing else |
| Text.ToLowerIdempotent | main.go:99 | lower-casing twice equals lower-casing once |
| Text.ToLowerAppend | main.go:99 | lower-casing distributes over concatenation |
| Text.IndexOf | main.go:94 | the first occurrence of the separator, or none when it does not occur |
| Text.Cut | main.go:94 | when found, `before + sep + after` is the input and `before` has no earlier occurrence; otherwise the input comes back whole with an empty rest |
| Text.CutPrefix | main.go:94 | cutting a text that starts with the separator leaves the rest |
| Text.IndexOfChar | main.go:85 | the first position of a character, or none when it is absent |
| Text.Split | main.go:85 | splitting yields at least one field; joining the fields with the separator gives the input; no field holds the separator |
| Text.SplitUnique | main.go:95 | splitting the join of separator-free fields gives the fields back |
| Text.RemoveCharAbsent | main.go:89-93 | removing a character that does not occur leaves the text unchanged |
| Text.RemoveCharAppend | main.go:89-93 | removal distributes over concatenation |
| Text.NatToString | main.go:97-98 | the decimal rendering is non-empty digits |
| Text.ScanDigits | main.go:97-98 | the digit loop accepts values up to 2^64 - 1 only |
| Text.ParseInt | main.go:97-98 | the result is always an int64 |
| Text.ScanNatToString | main.go:97-98 | scanning the decimal rendering of a uint64 gives the value back |
| Text.ParseIntToString | main.go:97-98 | `ParseInt` inverts the decimal rendering of every int64 |
| LocalMode.KeepUnstripped | main.go:89-93 | the filtered text has none of `( ) ' ; ,` |
| LocalMode.StripKeepsUnstripped | main.go:89-93 | the five replacements in a row remove exactly the five characters and keep everything else in order |
| LocalMode.StripAppend | main.go:89-93 | the replacements distribute over concatenation |
| LocalMode.StripChar | main.go:89-93 | a single character is removed iff it is one of the five |
| LocalMode.StripPlain | main.go:89-93 | a text without the five characters is left unchanged |
| LocalMode.StripQuoted | main.go:91 | a quoted plain value loses exactly its quotes |
| LocalMode.StripSqlList | main.go:89-93 | a comma-separated SQL list loses its commas: the items are joined by single spaces |
| LocalMode.StripPlainList | main.go:89-93 | a list of plain items strips to the items joined by spaces |
| LocalMode.StripColumns | main.go:94 | the stripped column list is `timestamp x y c`, the one in the cut prefix |
| LocalMode.StripStatement | main.go:89-94 | a stripped statement is the cut prefix followed by the four values joined by spaces |
| LocalMode.Fields | main.go:94-95 | the fields after the cut number at least one |
| LocalMode.ParseLine | main.go:89-99 | a line yields an event iff it has at least four fields. x and y are int64. A time that does not parse gives the zero time. The texture is lower case and ends in `.png` |
| LocalMode.MissingHeadPanics | main.go:94-97 | a line without the statement head leaves one empty field, so the source panics on it |
| LocalMode.LineRoundTrip | main.go:89-99 | parsing the statement of a readable row gives exactly its event |
| LocalMode.ParseLines | main.go:85-100 | the loop yields no more events than lines; a failure names a non-empty line the parser rejects |
| LocalMode.ParseEach | main.go:85-100 | the loop over the lines computes `ParseLines` |
| LocalMode.ParseDump | main.go:85-100 | the text is split on newlines and the loop computes `ParseLines` with the source's line parser |
| LocalMode.FirstFailure | main.go:96-99 | a rejected non-empty line after good lines ends the loop there, whatever follows |
| LocalMode.ParseLinesFailure | main.go:85-100 | the loop fails exactly at the first non-empty line the parser rejects, and succeeds iff there is none |
| LocalMode.ParseLinesAppend | main.go:85-100 | two runs of lines parse to the concatenation of their events; a failure in the first run stops there, one in the second is shifted by the first run's length |
| LocalMode.EventsOf | main.go:99 | one event per row |
| LocalMode.Statements | main.go:85 | one statement per row, in order |
| LocalMode.StatementOneLine | main.go:85 | a statement of plain values holds no newline |
| LocalMode.SqlListOneLine | main.go:85 | a list of newline-free items holds no newline |
| LocalMode.IntToStringPlain | main.go:97-98 | a rendered integer holds none of the stripped characters, spaces or newlines |
| LocalMode.JoinTerminated | main.go:85 | newline-terminated lines are their join with an empty last field |
| LocalMode.DumpLines | main.go:85 | splitting a dump on newlines gives its statements followed by one empty line |
| LocalMode.StatementsParse | main.go:85-100 | the loop over the statements of readable rows yields their events in order |
| LocalMode.DumpRoundTrip | main.go:85-100 | reading a dump of readable rows gives back exactly their events, in order |

## Left out

- PNG decoding and file opening are not modelled: the texture loader is a pure function from path to optional texture, and a failure of either is `None`.
- `png.Encode`, `os.Create` and the file close in `GeneratePhotoLocal` are not modelled: the picture is returned as a canvas.
- `os.ReadFile` of the dump file is not modelled; `LocalMode.ParseDump` takes the file's text.
- Drawing: `gg`'s `DrawImage` is modelled as an opaque copy clipped to the canvas. Alpha blending of translucent texture pixels is not modelled.
- The ffmpeg subprocess, the goroutine, the `WaitGroup`, the `ffmpegDone` channel and the two-second sleep are replaced by inputs: whether the encoder has exited before frame `k`, its final error, and the outcome of each pipe write. The `debug` flag only routes ffmpeg's output, so it is dropped.
- The `lspci` and `ffmpeg -encoders` shell probes are inputs: the three probe outputs, and a predicate saying whether a codec is available.
- Encoder.ScaledDimensions: the float64 arithmetic is exact integer arithmetic; `Encoder.ScaledDimensionsExact` proves it equal to the same formula over the reals, so float rounding is not modelled.
- Go's `int` and `int64` are unbounded integers. Overflow of `width*height`, of `block.X*textureSize64` and of the buffer sizes is not modelled.
- The error wrapping with `%w` and `fmt.Errorf` keeps only the message text and the error's parts; unwrapping is not modelled.
- Logging (`log.Info`, `log.Warn`, progress percentages, timers) is not modelled.
- `verifyVideoFile` is not modelled; its result is only logged.
- The `img == nil` branch of the writer is left out because `frameCreate` never returns nil.
- Pipeline.Session.EncodeGPU: requires a positive batch size (`iterations`), which main.go:33 reads unchecked. With zero the source divides by zero at graphics/graphics.go:93. With a negative size and a non-empty `dest`, the slice `dest[i:end]` at graphics/graphics.go:110 panics because `end` is negative.
- Widths and heights are naturals throughout (`Compositor.FrameCreate`, `Compositor.Background`, `Pipeline.Session.EncodeGPU`, `Pipeline.Session.GeneratePhotoLocal`). main.go:31-32 reads them as unchecked ints, and negative values are not modelled.
- Encoder.ScaledDimensionsExact: requires both dimensions positive. The reals have no +Inf, so the source's `maxW/0` is not expressible; for a zero side the source's `minFloat` picks the other, finite ratio, which `Encoder.ScaledDimensions` computes for non-negative dimensions.
- Compositor.FrameCreate: requires a positive `textureSize` when the background texture loads and the width is positive (`Compositor.TilingEnds`; also required by `Pipeline.RenderOver`, `Pipeline.Session.EncodeGPU` and `Pipeline.Session.GeneratePhotoLocal`). On those inputs the tiling loops of graphics/imageManager.go:125-126 never end, and main.go:34 accepts `--texture-size 0` or a negative size unchecked.
- Raster.ImageToRGB: requires a non-empty reused buffer to hold the whole frame. The source panics with an index out of range otherwise.
- Text.ToLower: folds only ASCII letters; Go's `strings.ToLower` also lowers other Unicode letters.
- LocalMode.ParseLine: `time.Parse` with the layout `2006-01-02T15:04:05.000000` is the parameter `parseTime`, and the zero `time.Time` is the instant 0.
- LocalMode.ParseDump: the panic on a line with fewer than four fields is a `Failure` carrying the line's index.
- The database reader (`db/db.go`) that pages events for normal mode and the command-line handling of `main.go` are not part of this model.
- Concurrent first loads of one path through `sync.Map` are not modelled: the model's cache is used by one caller, so each successful path is loaded once.
