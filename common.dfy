/** Shared data model: the placement event record, pixels and the
    Option/Result wrappers used for the Go error returns. */
module Common {

  datatype Option<+T> = None | Some(value: T)

  datatype Result<+T, +E> = Success(value: T) | Failure(error: E)

  /** An 8-bit value, as Go's `byte`. */
  type Byte = b: int | 0 <= b < 0x100

  /** A 16-bit colour channel as returned by Go's `color.RGBA()`. */
  type Channel = c: int | 0 <= c < 0x1_0000

  /** A decoded pixel with alpha-premultiplied 16-bit channels. */
  datatype Pixel = Pixel(r: Channel, g: Channel, b: Channel, a: Channel)

  /** Opaque white, what `SetRGB(1, 1, 1)` followed by `Clear()` paints. */
  const White: Pixel := Pixel(0xffff, 0xffff, 0xffff, 0xffff)

  /** The zero colour of a freshly created drawing context. */
  const Transparent: Pixel := Pixel(0, 0, 0, 0)

  /** One placement record (common/visualData.go). The timestamp is
      an instant reduced to an integer: only its order and equality
      matter to the core. */
  datatype VisualData = VisualData(time: int, x: int, y: int, blockTexture: string)
  {
    /** The cell the event paints. */
    function Cell(): Coord { (x, y) }
  }

  /** A cell of the canvas grid. The source keys its maps with the
      string "%d:%d" of the two coordinates, which is injective, so the
      pair is the same key. */
  type Coord = (int, int)
}
