/** Pixels, textures, the drawing primitive and the raw frame layout
    (graphics/imageManager.go). A canvas is an `array2<Pixel>` indexed
    `[y, x]`: `Length0` is the height and `Length1` the width. */
module Raster {
  import opened Common

  /** A decoded image as rows of pixels: `rows[y][x]`. */
  datatype Image = Image(width: nat, height: nat, rows: seq<seq<Pixel>>)
  {
    predicate Rectangular()
    {
      |rows| == height && forall y :: 0 <= y < height ==> |rows[y]| == width
    }
  }

  /** A texture is a rectangular decoded image; it is never changed
      after it has been decoded. */
  type Texture = t: Image | t.Rectangular() witness Image(0, 0, [])

  /** A grid of pixels, the value of a canvas: `g[y][x]`. */
  type Grid = seq<seq<Pixel>>

  predicate IsGrid(g: Grid, width: nat, height: nat)
  {
    |g| == height && forall y :: 0 <= y < height ==> |g[y]| == width
  }

  // ---------------------------------------------------------------
  // Drawing

  /** One call of the drawing primitive: `tex` with its top-left
      corner at canvas pixel `(ox, oy)`. */
  datatype Draw = Draw(tex: Texture, ox: int, oy: int)

  predicate Covers(d: Draw, x: int, y: int)
  {
    d.ox <= x < d.ox + d.tex.width && d.oy <= y < d.oy + d.tex.height
  }

  /** The texture pixel a covering draw leaves at `(x, y)`. */
  function DrawnPixel(d: Draw, x: int, y: int): Pixel
    requires Covers(d, x, y)
  {
    d.tex.rows[y - d.oy][x - d.ox]
  }

  /** The colour at `(x, y)` after the draws, in order, over `under`:
      the last draw covering the pixel decides it. */
  function Painted(draws: seq<Draw>, under: Pixel, x: int, y: int): Pixel
  {
    if draws == [] then under
    else
      var d := draws[|draws| - 1];
      if Covers(d, x, y) then DrawnPixel(d, x, y) else Painted(draws[..|draws| - 1], under, x, y)
  }

  /** Drawing `a` then `b` is drawing `b` over the result of `a`. */
  lemma {:induction false} PaintedAppend(a: seq<Draw>, b: seq<Draw>, under: Pixel, x: int, y: int)
    ensures Painted(a + b, under, x, y) == Painted(b, Painted(a, under, x, y), x, y)
  {
    if b == [] {
      assert a + b == a;
    } else {
      assert (a + b)[..|a + b| - 1] == a + b[..|b| - 1];
      PaintedAppend(a, b[..|b| - 1], under, x, y);
    }
  }

  /** A pixel that no draw covers keeps its colour. */
  lemma {:induction false} PaintedUncovered(draws: seq<Draw>, under: Pixel, x: int, y: int)
    requires forall d :: d in draws ==> !Covers(d, x, y)
    ensures Painted(draws, under, x, y) == under
  {
    if draws != [] {
      assert draws[|draws| - 1] in draws;
      PaintedUncovered(draws[..|draws| - 1], under, x, y);
    }
  }

  /** A pixel covered by exactly one draw shows that draw's texture. */
  lemma {:induction false} PaintedSoleCover(draws: seq<Draw>, d: Draw, under: Pixel, x: int, y: int)
    requires d in draws && Covers(d, x, y)
    requires forall e :: e in draws && Covers(e, x, y) ==> e == d
    ensures Painted(draws, under, x, y) == DrawnPixel(d, x, y)
  {
    var last := draws[|draws| - 1];
    if last != d {
      var p := draws[..|draws| - 1];
      assert draws == p + [last];
      assert d in p;
      PaintedSoleCover(p, d, under, x, y);
    }
  }

  /** The grid after the draws over `base`, pixel by pixel. */
  function PaintGrid(base: Grid, draws: seq<Draw>): (g: Grid)
    ensures |g| == |base| && forall y :: 0 <= y < |base| ==> |g[y]| == |base[y]|
  {
    seq(|base|, y requires 0 <= y < |base| =>
      seq(|base[y]|, x requires 0 <= x < |base[y]| => Painted(draws, base[y][x], x, y)))
  }

  /** Painting in two rounds is painting all draws in one. */
  lemma PaintGridAppend(base: Grid, a: seq<Draw>, b: seq<Draw>)
    ensures PaintGrid(PaintGrid(base, a), b) == PaintGrid(base, a + b)
  {
    var l := PaintGrid(PaintGrid(base, a), b);
    var r := PaintGrid(base, a + b);
    forall y | 0 <= y < |base| ensures l[y] == r[y] {
      forall x | 0 <= x < |base[y]| ensures l[y][x] == r[y][x] {
        PaintedAppend(a, b, base[y][x], x, y);
      }
    }
  }

  /** A grid of one colour. */
  function Solid(width: nat, height: nat, p: Pixel): (g: Grid)
    ensures IsGrid(g, width, height)
  {
    seq(height, y => seq(width, x => p))
  }

  /** The value of a canvas. */
  ghost function Snapshot(canvas: array2<Pixel>): (g: Grid)
    reads canvas
    ensures IsGrid(g, canvas.Length1, canvas.Length0)
    ensures forall y, x :: 0 <= y < canvas.Length0 && 0 <= x < canvas.Length1 ==> g[y][x] == canvas[y, x]
  {
    seq(canvas.Length0, y requires 0 <= y < canvas.Length0 reads canvas =>
      seq(canvas.Length1, x requires 0 <= x < canvas.Length1 reads canvas => canvas[y, x]))
  }

  /** gg's `DrawImage`, for an opaque texture: copies the texture onto
      the canvas with its corner at `(d.ox, d.oy)`, clipped to the
      canvas; every other pixel keeps its colour. */
  method DrawImage(canvas: array2<Pixel>, d: Draw)
    modifies canvas
    ensures forall y, x :: 0 <= y < canvas.Length0 && 0 <= x < canvas.Length1 ==>
              canvas[y, x] == Painted([d], old(canvas[y, x]), x, y)
    ensures Snapshot(canvas) == PaintGrid(old(Snapshot(canvas)), [d])
  {
    ghost var before := Snapshot(canvas);
    var y0 := if d.oy < 0 then 0 else d.oy;
    var y1 := if d.oy + d.tex.height < canvas.Length0 then d.oy + d.tex.height else canvas.Length0;
    var x0 := if d.ox < 0 then 0 else d.ox;
    var x1 := if d.ox + d.tex.width < canvas.Length1 then d.ox + d.tex.width else canvas.Length1;
    if y1 < y0 {
      y1 := y0;
    }
    if x1 < x0 {
      x1 := x0;
    }
    var y := y0;
    while y < y1
      invariant y0 <= y <= y1
      invariant forall yy, xx :: 0 <= yy < canvas.Length0 && 0 <= xx < canvas.Length1 ==>
                  canvas[yy, xx] == if y0 <= yy < y && x0 <= xx < x1 then DrawnPixel(d, xx, yy) else old(canvas[yy, xx])
    {
      var x := x0;
      while x < x1
        invariant x0 <= x <= x1
        invariant forall yy, xx :: 0 <= yy < canvas.Length0 && 0 <= xx < canvas.Length1 ==>
                    canvas[yy, xx] ==
                      if (y0 <= yy < y && x0 <= xx < x1) || (yy == y && x0 <= xx < x) then DrawnPixel(d, xx, yy)
                      else old(canvas[yy, xx])
      {
        canvas[y, x] := d.tex.rows[y - d.oy][x - d.ox];
        x := x + 1;
      }
      y := y + 1;
    }
    ghost var after := Snapshot(canvas);
    ghost var painted := PaintGrid(before, [d]);
    forall yy | 0 <= yy < canvas.Length0 ensures after[yy] == painted[yy] {
      forall xx | 0 <= xx < canvas.Length1 ensures after[yy][xx] == painted[yy][xx] {
        assert before[yy][xx] == old(canvas[yy, xx]);
        assert after[yy][xx] == canvas[yy, xx] == Painted([d], old(canvas[yy, xx]), xx, yy);
        assert painted[yy][xx] == Painted([d], before[yy][xx], xx, yy);
      }
    }
  }

  // ---------------------------------------------------------------
  // Raw frame layout

  /** `uint8(c >> 8)`: the high byte of a 16-bit channel. */
  function High(c: Channel): Byte
  {
    c / 0x100
  }

  /** Bytes per pixel: RGBA when `alpha`, RGB24 otherwise. */
  function Stride(alpha: bool): nat
  {
    if alpha then 4 else 3
  }

  function PixelBytes(p: Pixel, alpha: bool): (r: seq<Byte>)
    ensures |r| == Stride(alpha)
  {
    [High(p.r), High(p.g), High(p.b)] + (if alpha then [High(p.a)] else [])
  }

  /** The pixels in the order given, `Stride(alpha)` bytes each. */
  function Serialize(pixels: seq<Pixel>, alpha: bool): seq<Byte>
  {
    if pixels == [] then []
    else Serialize(pixels[..|pixels| - 1], alpha) + PixelBytes(pixels[|pixels| - 1], alpha)
  }

  /** Rows concatenated: the row-major order of a grid. */
  function Flatten(g: Grid): seq<Pixel>
  {
    if g == [] then [] else Flatten(g[..|g| - 1]) + g[|g| - 1]
  }

  lemma {:induction false} SerializeLength(pixels: seq<Pixel>, alpha: bool)
    ensures |Serialize(pixels, alpha)| == Stride(alpha) * |pixels|
  {
    if pixels != [] {
      SerializeLength(pixels[..|pixels| - 1], alpha);
    }
  }

  lemma {:induction false} SerializeAppend(a: seq<Pixel>, b: seq<Pixel>, alpha: bool)
    ensures Serialize(a + b, alpha) == Serialize(a, alpha) + Serialize(b, alpha)
    decreases |b|
  {
    if b == [] {
      assert a + b == a;
    } else {
      assert (a + b)[..|a + b| - 1] == a + b[..|b| - 1];
      SerializeAppend(a, b[..|b| - 1], alpha);
    }
  }

  /** Byte `Stride * k + c` of a serialisation is channel `c` of pixel
      `k`, shifted right by 8. */
  lemma {:induction false} SerializeAt(pixels: seq<Pixel>, alpha: bool, k: nat)
    requires k < |pixels|
    ensures |Serialize(pixels, alpha)| == Stride(alpha) * |pixels|
    ensures Serialize(pixels, alpha)[Stride(alpha) * k..Stride(alpha) * (k + 1)] == PixelBytes(pixels[k], alpha)
  {
    SerializeLength(pixels, alpha);
    var p := pixels[..|pixels| - 1];
    SerializeLength(p, alpha);
    if k < |pixels| - 1 {
      SerializeAt(p, alpha, k);
    }
  }

  lemma {:induction false} FlattenLength(g: Grid, width: nat, height: nat)
    requires IsGrid(g, width, height)
    ensures |Flatten(g)| == height * width
  {
    if g != [] {
      var p := g[..|g| - 1];
      FlattenLength(p, width, height - 1);
      assert |Flatten(g)| == (height - 1) * width + width;
    }
  }

  /** Flattening the first `n` rows gives a prefix of the flattening. */
  lemma {:induction false} FlattenPrefix(g: Grid, n: nat)
    requires n <= |g|
    ensures |Flatten(g[..n])| <= |Flatten(g)|
    ensures Flatten(g)[..|Flatten(g[..n])|] == Flatten(g[..n])
    decreases |g|
  {
    if n < |g| {
      var p := g[..|g| - 1];
      assert p[..n] == g[..n];
      FlattenPrefix(p, n);
    } else {
      assert g[..n] == g;
    }
  }

  /** Pixel `(x, y)` sits at row-major position `y * width + x`. */
  lemma FlattenAt(g: Grid, width: nat, height: nat, y: nat, x: nat)
    requires IsGrid(g, width, height) && y < height && x < width
    ensures |Flatten(g)| == height * width
    ensures y * width + x < |Flatten(g)|
    ensures Flatten(g)[y * width + x] == g[y][x]
  {
    FlattenLength(g, width, height);
    FlattenLength(g[..y], width, y);
    FlattenPrefix(g, y + 1);
    assert g[..y + 1][..y] == g[..y];
    assert Flatten(g[..y + 1]) == Flatten(g[..y]) + g[y];
  }

  /** The bytes of the pixel at `(x, y)` of a frame are found at
      `(y * width + x) * Stride(alpha)`: the buffer is row-major. */
  lemma FrameByteLayout(g: Grid, width: nat, height: nat, alpha: bool, y: nat, x: nat)
    requires IsGrid(g, width, height) && y < height && x < width
    ensures |Serialize(Flatten(g), alpha)| == Stride(alpha) * (height * width)
    ensures var i := Stride(alpha) * (y * width + x);
            Serialize(Flatten(g), alpha)[i..i + Stride(alpha)] == PixelBytes(g[y][x], alpha)
  {
    FlattenAt(g, width, height, y, x);
    var k := y * width + x;
    SerializeAt(Flatten(g), alpha, k);
    MulSucc(Stride(alpha), k);
  }

  /** Stores the bytes of one pixel at `buf[index..]`. */
  method WritePixel(buf: array<Byte>, index: nat, p: Pixel, alpha: bool)
    requires index + Stride(alpha) <= buf.Length
    modifies buf
    ensures buf[..index + Stride(alpha)] == old(buf[..index]) + PixelBytes(p, alpha)
    ensures forall k :: index + Stride(alpha) <= k < buf.Length ==> buf[k] == old(buf[k])
  {
    buf[index] := High(p.r);
    buf[index + 1] := High(p.g);
    buf[index + 2] := High(p.b);
    if alpha {
      buf[index + 3] := High(p.a);
    }
  }

  /** Serialising one more pixel appends its bytes, and the bytes of a
      prefix are no more than the bytes of the whole. */
  lemma SerializeSnoc(pixels: seq<Pixel>, x: nat, alpha: bool)
    requires x < |pixels|
    ensures Serialize(pixels[..x + 1], alpha) == Serialize(pixels[..x], alpha) + PixelBytes(pixels[x], alpha)
    ensures |Serialize(pixels[..x + 1], alpha)| <= |Serialize(pixels, alpha)|
  {
    assert pixels[..x + 1][..x] == pixels[..x];
    SerializePrefix(pixels, x + 1, alpha);
  }

  lemma SerializePrefix(pixels: seq<Pixel>, m: nat, alpha: bool)
    requires m <= |pixels|
    ensures |Serialize(pixels[..m], alpha)| <= |Serialize(pixels, alpha)|
  {
    assert pixels == pixels[..m] + pixels[m..];
    SerializeAppend(pixels[..m], pixels[m..], alpha);
  }

  /** Serialises row `y` of `img`, whose pixels are `row`, into `buf`
      from `index` on and returns the index just past it. */
  method WriteRow(img: array2<Pixel>, buf: array<Byte>, y: nat, index: nat, alpha: bool, ghost row: seq<Pixel>)
    returns (next: nat)
    requires y < img.Length0
    requires |row| == img.Length1 && forall x :: 0 <= x < img.Length1 ==> row[x] == img[y, x]
    requires index + |Serialize(row, alpha)| <= buf.Length
    modifies buf
    ensures next == index + |Serialize(row, alpha)|
    ensures buf[..next] == old(buf[..index]) + Serialize(row, alpha)
    ensures forall k :: next <= k < buf.Length ==> buf[k] == old(buf[k])
  {
    ghost var prefix := buf[..index];
    next := index;
    var x := 0;
    while x < img.Length1
      invariant 0 <= x <= img.Length1
      invariant next == index + |Serialize(row[..x], alpha)| <= buf.Length
      invariant buf[..next] == prefix + Serialize(row[..x], alpha)
      invariant forall k :: next <= k < buf.Length ==> buf[k] == old(buf[k])
    {
      SerializeSnoc(row, x, alpha);
      WritePixel(buf, next, img[y, x], alpha);
      AppendAssoc(prefix, Serialize(row[..x], alpha), PixelBytes(row[x], alpha));
      next := next + Stride(alpha);
      x := x + 1;
    }
    assert row[..x] == row;
  }

  /** Row `y` follows the rows before it in the row-major order, and the
      bytes of the rows up to it are no more than those of the grid. */
  lemma FlattenStep(g: Grid, alpha: bool, y: nat)
    requires y < |g|
    ensures Flatten(g[..y + 1]) == Flatten(g[..y]) + g[y]
    ensures |Serialize(Flatten(g[..y + 1]), alpha)| <= |Serialize(Flatten(g), alpha)|
  {
    assert g[..y + 1][..y] == g[..y];
    FlattenPrefix(g, y + 1);
    SerializePrefix(Flatten(g), |Flatten(g[..y + 1])|, alpha);
  }

  /** Serialises `img`, whose value is `g`, into `buf` from index 0,
      `Stride(alpha)` bytes per pixel, leaving the bytes after the frame
      as they were. */
  method WriteFrame(img: array2<Pixel>, buf: array<Byte>, alpha: bool, ghost g: Grid)
    requires IsGrid(g, img.Length1, img.Length0)
    requires forall y, x :: 0 <= y < img.Length0 && 0 <= x < img.Length1 ==> g[y][x] == img[y, x]
    requires |Serialize(Flatten(g), alpha)| <= buf.Length
    modifies buf
    ensures buf[..|Serialize(Flatten(g), alpha)|] == Serialize(Flatten(g), alpha)
    ensures forall k :: |Serialize(Flatten(g), alpha)| <= k < buf.Length ==> buf[k] == old(buf[k])
  {
    var index := 0;
    var y := 0;
    while y < img.Length0
      invariant 0 <= y <= img.Length0
      invariant index == |Serialize(Flatten(g[..y]), alpha)| <= buf.Length
      invariant buf[..index] == Serialize(Flatten(g[..y]), alpha)
      invariant forall k :: index <= k < buf.Length ==> buf[k] == old(buf[k])
    {
      FlattenStep(g, alpha, y);
      SerializeAppend(Flatten(g[..y]), g[y], alpha);
      index := WriteRow(img, buf, y, index, alpha, g[y]);
      y := y + 1;
    }
    assert g[..y] == g;
  }

  /** A frame of `width` by `height` pixels takes `Stride(alpha)` bytes
      per pixel. */
  lemma FrameLength(g: Grid, width: nat, height: nat, alpha: bool)
    requires IsGrid(g, width, height)
    ensures |Serialize(Flatten(g), alpha)| == Stride(alpha) * (height * width)
  {
    FlattenLength(g, width, height);
    SerializeLength(Flatten(g), alpha);
  }

  /** `imageToRGB`: with a non-empty buffer, overwrites its first
      W·H·3 bytes in place (RGB24 whatever `imType` says) and returns
      the same buffer; with an empty one, returns a fresh buffer of
      W·H·4 bytes (RGBA) when `imType == 24` and W·H·3 bytes (RGB24)
      otherwise. */
  method ImageToRGB(img: array2<Pixel>, imType: int, buffer: array<Byte>) returns (out: array<Byte>)
    requires buffer.Length != 0 ==> 3 * (img.Length0 * img.Length1) <= buffer.Length
    modifies buffer
    ensures buffer.Length != 0 ==>
              var n := 3 * (img.Length0 * img.Length1);
              out == buffer && out[..n] == Serialize(Flatten(Snapshot(img)), false)
              && forall k :: n <= k < out.Length ==> out[k] == old(buffer[k])
    ensures buffer.Length == 0 ==>
              fresh(out) && out[..] == Serialize(Flatten(Snapshot(img)), imType == 24)
  {
    ghost var g := Snapshot(img);
    if buffer.Length != 0 {
      FrameLength(g, img.Length1, img.Length0, false);
      WriteFrame(img, buffer, false, g);
      return buffer;
    }
    var alpha := imType == 24;
    FrameLength(g, img.Length1, img.Length0, alpha);
    out := new Byte[Stride(alpha) * (img.Length0 * img.Length1)];
    WriteFrame(img, out, alpha, g);
    assert out[..] == out[..Stride(alpha) * (img.Length0 * img.Length1)];
  }

  // ---------------------------------------------------------------
  // Arithmetic and slicing helpers: proof steps used above, not
  // properties of the program.

  lemma MulSucc(a: nat, b: nat)
    ensures a * (b + 1) == a * b + a
  {
  }

  lemma MulAdd(a: nat, b: nat, c: nat)
    ensures a * (b + c) == a * b + a * c
  {
  }

  lemma MulMono(a: nat, b: nat, c: nat)
    requires b <= c
    ensures a * b <= a * c
  {
  }

  lemma AppendAssoc<T>(a: seq<T>, b: seq<T>, c: seq<T>)
    ensures (a + b) + c == a + (b + c)
  {
  }
}
