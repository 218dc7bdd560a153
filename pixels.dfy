/** Pixel values shared by the dithering engine and the LSB embedder:
    8-bit channel values, RGB triples, and the choice of one channel. */
module Pixels {

  /** One 8-bit channel value, as an image of mode RGB stores it. */
  type Byte = x: int | 0 <= x < 256

  /** An RGB pixel `(r, g, b)`. */
  datatype Rgb = Rgb(r: Byte, g: Byte, b: Byte)

  /** The channel selector `'r'`, `'g'` or `'b'`. */
  datatype Channel = R | G | B

  /** The component of `p` that channel `c` selects. */
  function Component(p: Rgb, c: Channel): Byte
  {
    match c
    case R => p.r
    case G => p.g
    case B => p.b
  }

  /** The grey pixel `(v, v, v)`. */
  function Grey3(v: Byte): (p: Rgb)
    ensures forall c :: Component(p, c) == v
  {
    Rgb(v, v, v)
  }
}
