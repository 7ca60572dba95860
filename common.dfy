/** Shared value types used by every component: 8-bit samples, RGBA pixels
    and an Option type for lookups that may miss. */
module Common {

  /** An 8-bit channel sample (Go's uint8). */
  newtype byte = x: int | 0 <= x < 256

  /** One pixel of an RGBA raster, each channel 8 bits. */
  datatype Rgba = Rgba(r: byte, g: byte, b: byte, a: byte)

  datatype Option<+T> = None | Some(value: T)

  function Min(a: int, b: int): int { if a < b then a else b }

  function Max(a: int, b: int): int { if a > b then a else b }

  function Abs(a: int): nat { if a < 0 then -a else a }
}
