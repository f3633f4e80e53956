/** The single-threaded renderer `tracer::render`: a nested loop over the
    camera's pixels, columns outside and rows inside, that stores each
    pixel's opaque fragment in its row-major cell before the frame is encoded. */
module SerialRender {
  import Arith
  import opened Frame

  /** The cells of the pixels before `(x, y)` in visiting order hold their
      fragments; every other cell is still unwritten. */
  ghost predicate PaintedBefore(frame: Buffer, w: int, h: int, shade: Shader, x: int, y: int)
    requires |frame| == w * h
  {
    forall p | InGrid(w, h, p) ::
      0 <= Index(w, p) < |frame| &&
      frame[Index(w, p)] == (if p.x < x || (p.x == x && p.y < y) then Some(Fragment(shade, p)) else None)
  }

  /** The `k`-th visited pixel is column `k / h`, row `k % h`. */
  ghost predicate ColumnMajor(visits: seq<Pixel>, h: int)
  {
    forall k | 0 <= k < |visits| :: h != 0 && visits[k] == Pixel(k / h, k % h)
  }

  /** The inner loop: visits column `x` from the top, storing each fragment. */
  method RenderColumn(w: nat, h: nat, shade: Shader, x: nat, frame0: Buffer, visits0: seq<Pixel>)
    returns (frame: Buffer, visits: seq<Pixel>)
    requires x < w && |frame0| == w * h && |visits0| == x * h
    requires PaintedBefore(frame0, w, h, shade, x, 0) && ColumnMajor(visits0, h)
    ensures |frame| == w * h && |visits| == (x + 1) * h
    ensures PaintedBefore(frame, w, h, shade, x + 1, 0) && ColumnMajor(visits, h)
  {
    frame, visits := frame0, visits0;
    var y := 0;
    while y < h
      invariant 0 <= y <= h
      invariant |frame| == w * h
      invariant |visits| == x * h + y
      invariant ColumnMajor(visits, h)
      invariant PaintedBefore(frame, w, h, shade, x, y)
    {
      var p := Pixel(x, y);
      IndexInBounds(w, h, p);
      // The cell is still unwritten: no pixel overwrites another.
      assert frame[Index(w, p)] == None;
      forall q | InGrid(w, h, q) && q != p
        ensures Index(w, q) != Index(w, p)
      {
        IndexInjective(w, h, q, p);
      }
      frame := Store(frame, w, shade, p);
      Arith.DivModUnique(x * h + y, h, x, y);
      visits := visits + [p];
      y := y + 1;
    }
    assert x * h + h == (x + 1) * h;
  }

  /** A visit order that is column-major over the whole grid reaches every
      pixel, at position `x * h + y`, and never reaches one twice. */
  lemma ColumnMajorCoversGrid(visits: seq<Pixel>, w: nat, h: nat)
    requires |visits| == w * h && ColumnMajor(visits, h)
    ensures forall p | InGrid(w, h, p) :: 0 <= p.x * h + p.y < |visits| && visits[p.x * h + p.y] == p
    ensures forall j, k | 0 <= j < k < |visits| :: visits[j] != visits[k]
  {
    forall p | InGrid(w, h, p)
      ensures 0 <= p.x * h + p.y < |visits| && visits[p.x * h + p.y] == p
    {
      IndexInBounds(h, w, Pixel(p.y, p.x));
      assert w * h == h * w;
      Arith.DivModUnique(p.x * h + p.y, h, p.x, p.y);
    }
    forall j, k | 0 <= j < k < |visits|
      ensures visits[j] != visits[k]
    {
      assert j == (j / h) * h + j % h;
      assert k == (k / h) * h + k % h;
    }
  }

  /** A buffer painted past the last column holds every pixel's fragment, so
      every cell is written and opaque. */
  lemma PaintedAll(frame: Buffer, w: nat, h: nat, shade: Shader)
    requires |frame| == w * h && PaintedBefore(frame, w, h, shade, w, 0)
    ensures forall p | InGrid(w, h, p) ::
      0 <= Index(w, p) < |frame| && frame[Index(w, p)] == Some(Fragment(shade, p))
    ensures forall i | 0 <= i < |frame| :: frame[i].Some? && frame[i].value.a == 255
  {
    forall i | 0 <= i < |frame|
      ensures frame[i].Some? && frame[i].value.a == 255
    {
      PixelAtInGrid(w, h, i);
    }
  }

  /** Renders a `w` by `h` camera with `shade` as `hitColorAt` and returns the
      buffer handed to the encoder, together with the pixels in the order the
      loop visits them. */
  method Render(w: nat, h: nat, shade: Shader) returns (frame: Buffer, visits: seq<Pixel>)
    ensures |frame| == w * h
    ensures forall p | InGrid(w, h, p) ::
      0 <= Index(w, p) < |frame| && frame[Index(w, p)] == Some(Fragment(shade, p))
    ensures forall i | 0 <= i < |frame| :: frame[i].Some? && frame[i].value.a == 255
    ensures |visits| == w * h
    ensures forall k | 0 <= k < |visits| :: visits[k] == Pixel(k / h, k % h)
    ensures forall p | InGrid(w, h, p) :: 0 <= p.x * h + p.y < |visits| && visits[p.x * h + p.y] == p
    ensures forall j, k | 0 <= j < k < |visits| :: visits[j] != visits[k]
  {
    forall p | InGrid(w, h, p)
      ensures 0 <= Index(w, p) < w * h
    {
      IndexInBounds(w, h, p);
    }
    frame := Blank(w * h);
    visits := [];
    var x := 0;
    while x < w
      invariant 0 <= x <= w
      invariant |frame| == w * h
      invariant |visits| == x * h
      invariant ColumnMajor(visits, h)
      invariant PaintedBefore(frame, w, h, shade, x, 0)
    {
      frame, visits := RenderColumn(w, h, shade, x, frame, visits);
      x := x + 1;
    }
    PaintedAll(frame, w, h, shade);
    ColumnMajorCoversGrid(visits, w, h);
  }
}
