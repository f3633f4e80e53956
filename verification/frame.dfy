/** Colours, pixel coordinates and the flat frame buffer shared by both renderers. */
module Frame {
  import Arith

  /** One colour channel, an unsigned 8-bit value. */
  type Channel = c: int | 0 <= c < 256

  /** An RGBA colour as the ray tracer returns it. Its packed form (`abgr`) is
      not modelled: a cell holds the colour it was written with. */
  datatype Color = Color(r: Channel, g: Channel, b: Channel, a: Channel)

  /** A pixel coordinate `(x, y)`: column `x`, row `y`. */
  datatype Pixel = Pixel(x: int, y: int)

  datatype Option<T> = None | Some(value: T)

  /** A frame buffer of `width * height` cells. The buffer comes from `malloc`,
      so a cell nobody wrote holds no colour: `None`. */
  type Buffer = seq<Option<Color>>

  /** The shading function `hitColorAt(x, y)`, which this model does not see into. */
  type Shader = (int, int) -> Color

  predicate InGrid(w: int, h: int, p: Pixel)
  {
    0 <= p.x < w && 0 <= p.y < h
  }

  /** Row-major cell of a pixel in a grid `w` columns wide: `x + y * WIDTH`. */
  function Index(w: int, p: Pixel): int
  {
    p.x + p.y * w
  }

  /** The pixel whose row-major cell is `i`. */
  function PixelAt(w: int, i: int): Pixel
    requires w > 0
  {
    Pixel(i % w, i / w)
  }

  /** `Index` sends the grid into the buffer, and `PixelAt` undoes it. */
  lemma IndexInBounds(w: int, h: int, p: Pixel)
    requires InGrid(w, h, p)
    ensures 0 <= Index(w, p) < w * h
    ensures PixelAt(w, Index(w, p)) == p
  {
    Arith.MulMonotone(p.y + 1, h, w);
    Arith.MulMonotone(0, p.y, w);
    assert (p.y + 1) * w == p.y * w + w;
    Arith.DivModUnique(Index(w, p), w, p.y, p.x);
  }

  /** Every cell of the buffer is the cell of exactly one grid pixel. */
  lemma PixelAtInGrid(w: int, h: int, i: int)
    requires w > 0 && 0 <= i < w * h
    ensures InGrid(w, h, PixelAt(w, i))
    ensures Index(w, PixelAt(w, i)) == i
  {
    var p := PixelAt(w, i);
    assert i == p.y * w + p.x;
    Arith.MulMonotone(p.y, h, w);
    Arith.MulMonotone(-1, p.y, w);
  }

  /** Distinct pixels of the grid have distinct cells, so no write to one
      pixel overwrites another. */
  lemma IndexInjective(w: int, h: int, p: Pixel, q: Pixel)
    requires InGrid(w, h, p) && InGrid(w, h, q) && p != q
    ensures Index(w, p) != Index(w, q)
  {
    IndexInBounds(w, h, p);
    IndexInBounds(w, h, q);
  }

  /** `frag.a = 255`: the colour with its alpha forced opaque. */
  function Opaque(c: Color): (o: Color)
    ensures o.a == 255
    ensures o.r == c.r && o.g == c.g && o.b == c.b
  {
    c.(a := 255)
  }

  /** The colour a worker stores for pixel `p`. */
  function Fragment(shade: Shader, p: Pixel): Color
  {
    Opaque(shade(p.x, p.y))
  }

  /** A freshly allocated buffer of `n` cells. */
  function Blank(n: nat): (f: Buffer)
    ensures |f| == n
    ensures forall i | 0 <= i < n :: f[i] == None
  {
    seq(n, _ => None)
  }

  /** `frame[x + y * WIDTH] = frag.abgr()`: store the fragment of `p` in its cell. */
  function Store(f: Buffer, w: int, shade: Shader, p: Pixel): (g: Buffer)
    requires 0 <= Index(w, p) < |f|
    ensures |g| == |f|
    ensures g[Index(w, p)] == Some(Fragment(shade, p))
    ensures forall i | 0 <= i < |f| && i != Index(w, p) :: g[i] == f[i]
  {
    f[Index(w, p) := Some(Fragment(shade, p))]
  }
}
