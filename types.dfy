/** Machine integers, the opaque floating-point values and the small value types
    (points, lines, colours) that the renderer passes between its stages. */
module Types {

  type u8 = x: int | 0 <= x < 0x100
  type u16 = x: int | 0 <= x < 0x1_0000
  type u32 = x: int | 0 <= x < 0x1_0000_0000

  type i32 = x: int | -0x8000_0000 <= x < 0x8000_0000

  const U16_MAX: u16 := 0xFFFF
  const U32_MAX: u32 := 0xFFFF_FFFF

  /** An `f32`, kept as its bit pattern. The model never computes with it: every
      floating-point operation of the renderer is either left out or passed in as a
      function parameter. */
  datatype F32 = F32(bits: bv32)

  const ZERO_F32 := F32(0)

  /** `Point` of point.rs: two `f32` coordinates, compared by equality only. */
  datatype Point = Point(x: F32, y: F32)

  const ORIGIN := Point(ZERO_F32, ZERO_F32)

  /** `Line` of line.rs: a directed segment from `p0` to `p1`. */
  datatype Line = Line(p0: Point, p1: Point)

  /** A straight-alpha colour with `f32` components (`AlphaColor<Srgb>`). */
  datatype AlphaColor = AlphaColor(r: F32, g: F32, b: F32, a: F32)

  /** Premultiplied 8-bit RGBA colour (`PremulRgba8`). */
  datatype Rgba8 = Rgba8(r: u8, g: u8, b: u8, a: u8)

  /** Which reading of an operation a definition follows: the code as it stands, or the
      behaviour its surroundings evidently intend. */
  datatype Variant = AsWritten | Corrected

  /** The last element of a nonempty sequence. */
  function Last<T>(s: seq<T>): T
    requires s != []
  {
    s[|s| - 1]
  }

  /** Rust's `u16::div_ceil`/`u32::div_ceil` for a positive divisor. */
  function DivCeil(n: nat, d: nat): (q: nat)
    requires d > 0
    ensures q * d >= n
    ensures n == 0 ==> q == 0
    ensures n > 0 ==> (q - 1) * d < n
  {
    (n + d - 1) / d
  }
}
