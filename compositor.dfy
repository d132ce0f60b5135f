/** `frameCreate` (graphics/imageManager.go): a frame is a base canvas
    (a copy of the previous frame, or the background texture tiled
    over a fresh canvas, or plain white when the background cannot be
    loaded) with the texture of every block drawn over it, in order,
    at `(X * textureSize, Y * textureSize)`. */
module Compositor {
  import opened Common
  import opened Raster
  import opened Textures

  const BackgroundPath: string := "assets/white_concrete.png"

  /** The file a block's texture is loaded from. */
  function TexturePath(name: string): string
  {
    "assets/" + name
  }

  // ---------------------------------------------------------------
  // Background tiling

  /** The tiles of one column, top to bottom: `tex` at `(x, y)`,
      `(x, y + ts)`, … while the row is above `height`. */
  function ColumnTiles(tex: Texture, x: int, y: int, height: int, ts: int): seq<Draw>
    requires ts > 0 || y >= height
    decreases height - y
  {
    if y >= height then [] else [Draw(tex, x, y)] + ColumnTiles(tex, x, y + ts, height, ts)
  }

  /** The tiles of the columns from `x` on, left to right, each column
      top to bottom: the order of the tiling loops. */
  function GridTiles(tex: Texture, x: int, width: int, height: int, ts: int): seq<Draw>
    requires ts > 0 || x >= width
    decreases width - x
  {
    if x >= width then [] else ColumnTiles(tex, x, 0, height, ts) + GridTiles(tex, x + ts, width, height, ts)
  }

  lemma {:induction false} ColumnTilesMembers(tex: Texture, x: int, y: int, height: int, ts: int, d: Draw)
    requires ts > 0 && y % ts == 0
    ensures d in ColumnTiles(tex, x, y, height, ts) <==>
              d.tex == tex && d.ox == x && y <= d.oy < height && d.oy % ts == 0
    decreases height - y
  {
    if y < height {
      NextMultiple(y, ts);
      ColumnTilesMembers(tex, x, y + ts, height, ts, d);
      if d.tex == tex && d.ox == x && y <= d.oy < y + ts && d.oy % ts == 0 {
        SameMultiple(y, d.oy, ts);
      }
    }
  }

  lemma {:induction false} GridTilesMembers(tex: Texture, x: int, width: int, height: int, ts: int, d: Draw)
    requires ts > 0 && x % ts == 0
    ensures d in GridTiles(tex, x, width, height, ts) <==>
              d.tex == tex && x <= d.ox < width && 0 <= d.oy < height && d.ox % ts == 0 && d.oy % ts == 0
    decreases width - x
  {
    if x < width {
      NextMultiple(x, ts);
      ColumnTilesMembers(tex, x, 0, height, ts, d);
      GridTilesMembers(tex, x + ts, width, height, ts, d);
      if d.tex == tex && x <= d.ox < x + ts && d.ox % ts == 0 {
        SameMultiple(x, d.ox, ts);
      }
    }
  }

  /** The background tiling draws the texture exactly at the points
      `(x, y)` with `0 <= x < width`, `0 <= y < height`, both multiples
      of the texture size. */
  lemma TilingPoints(tex: Texture, width: int, height: int, ts: int, d: Draw)
    requires ts > 0
    ensures d in GridTiles(tex, 0, width, height, ts) <==>
              d.tex == tex && 0 <= d.ox < width && 0 <= d.oy < height && d.ox % ts == 0 && d.oy % ts == 0
  {
    GridTilesMembers(tex, 0, width, height, ts, d);
  }

  /** Whether `frameCreate` can build the background with the tiling
      loops, which do not end for a non-positive step. */
  predicate TilingEnds(load: string -> Option<Texture>, width: nat, ts: int)
  {
    load(BackgroundPath).Some? && width > 0 ==> ts > 0
  }

  /** The canvas `frameCreate` starts from when it has no base image. */
  function Background(load: string -> Option<Texture>, width: nat, height: nat, ts: int): (g: Grid)
    requires TilingEnds(load, width, ts)
    ensures IsGrid(g, width, height)
    ensures load(BackgroundPath).None? ==> g == Solid(width, height, White)
  {
    match load(BackgroundPath)
    case None => Solid(width, height, White)
    case Some(tex) => PaintGrid(Solid(width, height, Transparent), GridTiles(tex, 0, width, height, ts))
  }

  // ---------------------------------------------------------------
  // Blocks

  /** The draws of the blocks, in order; a block whose texture does not
      load draws nothing. */
  function BlockDraws(blocks: seq<VisualData>, load: string -> Option<Texture>, ts: int): (r: seq<Draw>)
  {
    if blocks == [] then []
    else
      var prior := BlockDraws(blocks[..|blocks| - 1], load, ts);
      var b := blocks[|blocks| - 1];
      match load(TexturePath(b.blockTexture))
      case None => prior
      case Some(t) => prior + [Draw(t, b.x * ts, b.y * ts)]
  }

  lemma {:induction false} BlockDrawsAppend(a: seq<VisualData>, b: seq<VisualData>, load: string -> Option<Texture>, ts: int)
    ensures BlockDraws(a + b, load, ts) == BlockDraws(a, load, ts) + BlockDraws(b, load, ts)
    decreases |b|
  {
    if b == [] {
      assert a + b == a;
    } else {
      assert (a + b)[..|a + b| - 1] == a + b[..|b| - 1];
      BlockDrawsAppend(a, b[..|b| - 1], load, ts);
    }
  }

  /** Every texture a block loads is a `ts`-by-`ts` square, the shape
      the drawing positions assume. */
  predicate SquareTextures(blocks: seq<VisualData>, load: string -> Option<Texture>, ts: int)
  {
    forall b :: b in blocks && load(TexturePath(b.blockTexture)).Some? ==>
      var t := load(TexturePath(b.blockTexture)).value;
      t.width == ts && t.height == ts
  }

  /** The last block at `cell` whose texture loads, with that texture. */
  function LastAt(blocks: seq<VisualData>, load: string -> Option<Texture>, cell: Coord): (r: Option<(VisualData, Texture)>)
    ensures r.Some? ==> r.value.0 in blocks && r.value.0.Cell() == cell
                        && load(TexturePath(r.value.0.blockTexture)) == Some(r.value.1)
    ensures r.None? ==> forall b :: b in blocks && b.Cell() == cell ==> load(TexturePath(b.blockTexture)).None?
  {
    if blocks == [] then None
    else
      var b := blocks[|blocks| - 1];
      var prior := blocks[..|blocks| - 1];
      assert blocks == prior + [b];
      var t := load(TexturePath(b.blockTexture));
      if b.Cell() == cell && t.Some? then Some((b, t.value)) else LastAt(prior, load, cell)
  }

  /** `X * ts <= x < X * ts + ts` exactly when `X` is `x / ts`, and
      then `x` is `x % ts` into the cell. */
  lemma CellOf(cx: int, ts: int, x: int)
    requires ts > 0
    ensures cx * ts <= x < cx * ts + ts <==> cx == x / ts
    ensures cx == x / ts ==> x - cx * ts == x % ts
  {
    var q := x / ts;
    assert x == q * ts + x % ts;
    if cx * ts <= x < cx * ts + ts && cx != q {
      if cx < q {
        MulLeft(cx + 1, q, ts);
      } else {
        MulLeft(q + 1, cx, ts);
      }
    }
  }

  /** After the blocks are drawn over a pixel, it shows the last block at
      its cell whose texture loads, or keeps its colour if there is none:
      a later block at a cell hides every earlier one. */
  lemma {:induction false} BlockPixel(blocks: seq<VisualData>, load: string -> Option<Texture>, ts: int, under: Pixel, x: int, y: int)
    requires ts > 0 && SquareTextures(blocks, load, ts)
    ensures Painted(BlockDraws(blocks, load, ts), under, x, y) ==
              match LastAt(blocks, load, (x / ts, y / ts))
              case None => under
              case Some(bt) => bt.1.rows[y % ts][x % ts]
  {
    if blocks != [] {
      var b := blocks[|blocks| - 1];
      var prior := blocks[..|blocks| - 1];
      assert SquareTextures(prior, load, ts) by {
        forall e | e in prior ensures e in blocks {
          assert blocks == prior + [b];
        }
      }
      BlockPixel(prior, load, ts, under, x, y);
      assert b in blocks;
      CellOf(b.x, ts, x);
      CellOf(b.y, ts, y);
    }
  }

  // ---------------------------------------------------------------
  // The frame

  /** The number of pixels of the canvas `frameCreate` draws on. */
  function CanvasArea(im: Option<array2<Pixel>>, width: nat, height: nat): nat
  {
    if im.Some? then im.value.Length0 * im.value.Length1 else height * width
  }

  /** A fresh canvas of the given size filled with `p`. */
  method NewCanvas(width: nat, height: nat, p: Pixel) returns (c: array2<Pixel>)
    ensures fresh(c) && c.Length0 == height && c.Length1 == width
    ensures Snapshot(c) == Solid(width, height, p)
  {
    c := new Pixel[height, width]((y, x) => p);
    ghost var g := Snapshot(c);
    ghost var s := Solid(width, height, p);
    forall y | 0 <= y < height ensures g[y] == s[y] {
      assert forall x :: 0 <= x < width ==> g[y][x] == s[y][x];
    }
  }

  /** A fresh canvas holding a copy of `im` (`gg.NewContextForImage`). */
  method CopyCanvas(im: array2<Pixel>) returns (c: array2<Pixel>)
    ensures fresh(c) && c.Length0 == im.Length0 && c.Length1 == im.Length1
    ensures Snapshot(c) == Snapshot(im)
  {
    c := new Pixel[im.Length0, im.Length1]((y, x) reads im => if 0 <= y < im.Length0 && 0 <= x < im.Length1 then im[y, x] else White);
    ghost var g := Snapshot(c);
    ghost var s := Snapshot(im);
    forall y | 0 <= y < im.Length0 ensures g[y] == s[y] {
      assert forall x :: 0 <= x < im.Length1 ==> g[y][x] == s[y][x];
    }
  }

  lemma PaintGridNone(g: Grid)
    ensures PaintGrid(g, []) == g
  {
    var p := PaintGrid(g, []);
    forall y | 0 <= y < |g| ensures p[y] == g[y] {
      assert forall x :: 0 <= x < |g[y]| ==> p[y][x] == g[y][x];
    }
  }

  /** Draws `draws` one by one onto `canvas`. */
  method DrawAll(canvas: array2<Pixel>, draws: seq<Draw>)
    modifies canvas
    ensures Snapshot(canvas) == PaintGrid(old(Snapshot(canvas)), draws)
  {
    ghost var start := Snapshot(canvas);
    PaintGridNone(start);
    var i := 0;
    while i < |draws|
      invariant 0 <= i <= |draws|
      invariant Snapshot(canvas) == PaintGrid(start, draws[..i])
    {
      DrawImage(canvas, draws[i]);
      PaintGridAppend(start, draws[..i], [draws[i]]);
      assert draws[..i + 1] == draws[..i] + [draws[i]];
      i := i + 1;
    }
    assert draws[..i] == draws;
  }

  /** The tiling loops: `tex` drawn at every `(x, y)` with both
      coordinates multiples of `ts`, column by column. */
  method TileBackground(canvas: array2<Pixel>, tex: Texture, width: nat, height: nat, ts: int)
    requires width > 0 ==> ts > 0
    modifies canvas
    ensures Snapshot(canvas) == PaintGrid(old(Snapshot(canvas)), GridTiles(tex, 0, width, height, ts))
  {
    ghost var start := Snapshot(canvas);
    PaintGridNone(start);
    ghost var done: seq<Draw> := [];
    var x := 0;
    while x < width
      invariant ts > 0 || x >= width
      invariant done + GridTiles(tex, x, width, height, ts) == GridTiles(tex, 0, width, height, ts)
      invariant Snapshot(canvas) == PaintGrid(start, done)
      decreases width - x
    {
      ghost var columnStart := done;
      assert GridTiles(tex, x, width, height, ts) ==
             ColumnTiles(tex, x, 0, height, ts) + GridTiles(tex, x + ts, width, height, ts);
      var y := 0;
      while y < height
        invariant done + ColumnTiles(tex, x, y, height, ts) == columnStart + ColumnTiles(tex, x, 0, height, ts)
        invariant Snapshot(canvas) == PaintGrid(start, done)
        decreases height - y
      {
        var d := Draw(tex, x, y);
        DrawImage(canvas, d);
        PaintGridAppend(start, done, [d]);
        assert ColumnTiles(tex, x, y, height, ts) == [d] + ColumnTiles(tex, x, y + ts, height, ts);
        done := done + [d];
        y := y + ts;
      }
      assert done == columnStart + ColumnTiles(tex, x, 0, height, ts);
      x := x + ts;
    }
    assert done + GridTiles(tex, x, width, height, ts) == done;
  }

  /** Draws the blocks in order, each with its texture from `store` at
      `(X * ts, Y * ts)`, skipping those whose texture does not load. */
  method DrawBlocks(store: TextureStore, canvas: array2<Pixel>, blocks: seq<VisualData>, ts: int)
    requires store.Valid()
    modifies store, canvas
    ensures store.Valid()
    ensures Snapshot(canvas) == PaintGrid(old(Snapshot(canvas)), BlockDraws(blocks, store.load, ts))
  {
    ghost var base := Snapshot(canvas);
    PaintGridNone(base);
    var i := 0;
    while i < |blocks|
      invariant 0 <= i <= |blocks|
      invariant store.Valid()
      invariant Snapshot(canvas) == PaintGrid(base, BlockDraws(blocks[..i], store.load, ts))
    {
      var block := blocks[i];
      assert blocks[..i + 1][..i] == blocks[..i];
      var texture := store.GetCachedImage(TexturePath(block.blockTexture));
      if texture.Some? {
        var d := Draw(texture.value, block.x * ts, block.y * ts);
        DrawImage(canvas, d);
        PaintGridAppend(base, BlockDraws(blocks[..i], store.load, ts), [d]);
      }
      i := i + 1;
    }
    assert blocks[..i] == blocks;
  }

  /** `frameCreate`. The canvas is a copy of `im` when there is one and
      otherwise the background of `width` by `height`; the blocks are
      drawn over it in order. With a frame buffer, the buffer afterwards
      holds the RGB24 bytes of the frame (`imageToRGB` with type 0): in
      place when it was non-empty, freshly allocated when it was empty. */
  method FrameCreate(store: TextureStore, blocks: seq<VisualData>, im: Option<array2<Pixel>>,
                     width: nat, height: nat, ts: int, frameBuffer: Option<array<Byte>>)
    returns (img: array2<Pixel>, outBuffer: Option<array<Byte>>)
    requires store.Valid()
    requires im.None? ==> TilingEnds(store.load, width, ts)
    requires frameBuffer.Some? && frameBuffer.value.Length != 0 ==>
               3 * CanvasArea(im, width, height) <= frameBuffer.value.Length
    modifies store, if frameBuffer.Some? then {frameBuffer.value} else {}
    ensures store.Valid() && fresh(img)
    ensures im.Some? ==> img.Length0 == im.value.Length0 && img.Length1 == im.value.Length1
    ensures im.None? ==> img.Length0 == height && img.Length1 == width
    ensures Snapshot(img) ==
              PaintGrid(if im.Some? then Snapshot(im.value) else Background(store.load, width, height, ts),
                        BlockDraws(blocks, store.load, ts))
    ensures frameBuffer.None? ==> outBuffer.None?
    ensures frameBuffer.Some? && frameBuffer.value.Length != 0 ==>
              var n := 3 * (img.Length0 * img.Length1);
              outBuffer == frameBuffer && frameBuffer.value[..n] == Serialize(Flatten(Snapshot(img)), false)
              && forall k :: n <= k < frameBuffer.value.Length ==> frameBuffer.value[k] == old(frameBuffer.value[k])
    ensures frameBuffer.Some? && frameBuffer.value.Length == 0 ==>
              outBuffer.Some? && fresh(outBuffer.value)
              && outBuffer.value[..] == Serialize(Flatten(Snapshot(img)), false)
  {
    ghost var base: Grid;
    if im.Some? {
      img := CopyCanvas(im.value);
      base := Snapshot(im.value);
    } else {
      var background := store.GetCachedImage(BackgroundPath);
      if background.None? {
        img := NewCanvas(width, height, White);
      } else {
        img := NewCanvas(width, height, Transparent);
        TileBackground(img, background.value, width, height, ts);
      }
      base := Background(store.load, width, height, ts);
    }
    assert Snapshot(img) == base;
    DrawBlocks(store, img, blocks, ts);

    if frameBuffer.None? {
      return img, None;
    }
    var out := ImageToRGB(img, 0, frameBuffer.value);
    outBuffer := Some(out);
  }

  // ---------------------------------------------------------------
  // Arithmetic and slicing helpers: proof steps used above, not
  // properties of the program.

  lemma MulLeft(a: int, b: int, ts: int)
    requires a <= b && ts > 0
    ensures a * ts <= b * ts
  {
  }

  /** Two multiples of `ts` less than `ts` apart are equal. */
  lemma SameMultiple(a: int, b: int, ts: int)
    requires ts > 0 && a % ts == 0 && b % ts == 0 && a <= b < a + ts
    ensures a == b
  {
    CellOf(a / ts, ts, b);
  }

  lemma NextMultiple(a: int, ts: int)
    requires ts > 0 && a % ts == 0
    ensures (a + ts) % ts == 0
  {
    CellOf(a / ts + 1, ts, a + ts);
  }
}
