/** The shared pixel cursor of the multithreaded renderer: the block each worker
    runs while holding `index_access`. The mutex makes every pass through that
    block atomic, so the cursor is a sequential state machine and a run of the
    renderer is a sequence of its steps, in whatever order the workers win the
    lock. */
module Cursor {
  import Arith
  import opened Frame

  /** The fields of `tracer` the block reads and writes. */
  datatype State = State(x: int, y: int, written: bool, finished: int)

  /** The outcome of one pass: the worker is handed a pixel to shade, or it
      stops; `encode` says whether this is the worker that encodes the frame. */
  datatype Action = Claim(pixel: Pixel) | Stop(encode: bool)

  datatype Transition = Transition(next: State, action: Action)

  /** The cursor as the `tracer` constructor leaves it. */
  const Start := State(0, 0, false, 0)

  /** One pass through the locked block, with the row wrap taken when the cursor
      reaches column `rowLen`. The wrap test comes first; then, past the last
      row, the worker stops, counting itself finished and setting `written`
      if it was not set yet; otherwise it takes the cursor's pixel and moves the
      cursor one column right. */
  function Advance(rowLen: int, h: int, s: State): (t: Transition)
    ensures t.action.Claim? ==> t.next.written == s.written && t.next.finished == s.finished
    ensures t.action.Stop? ==> t.next.written && t.next.finished == s.finished + 1
    ensures t.action.Stop? ==> (t.action.encode <==> !s.written)
  {
    var c := if s.x == rowLen then s.(x := 0, y := s.y + 1) else s;
    if c.y >= h then
      Transition(c.(written := true, finished := c.finished + 1), Stop(!c.written))
    else
      Transition(c.(x := c.x + 1), Claim(Pixel(c.x, c.y)))
  }

  /** The cursor's row-major position in rows of `rowLen` pixels. The wrap
      moves the cursor without changing its position. */
  function Rank(rowLen: int, s: State): int
  {
    Index(rowLen, Pixel(s.x, s.y))
  }

  /** How many pixels a grid of `h` rows of `rowLen` pixels holds. */
  function Total(rowLen: int, h: int): int
  {
    if h > 0 then h * rowLen else 0
  }

  /** The cursor states a run can reach: the column is at most the wrap column
      and the position has not passed the end of the grid. */
  predicate Valid(rowLen: int, h: int, s: State)
  {
    0 <= s.x <= rowLen && 0 <= s.y && Rank(rowLen, s) <= Total(rowLen, h)
  }

  /** The state and the actions of `n` passes through the block, from the start. */
  function Run(rowLen: int, h: int, n: nat): (r: (State, seq<Action>))
    ensures |r.1| == n
  {
    if n == 0 then (Start, [])
    else
      var (s, acts) := Run(rowLen, h, n - 1);
      var t := Advance(rowLen, h, s);
      (t.next, acts + [t.action])
  }

  /** Whatever the wrap column and the grid, `written` records whether some
      worker has stopped, and a stop encodes exactly when no stop came before
      it: one worker at most encodes. */
  lemma {:induction false} WrittenAfterFirstStop(rowLen: int, h: int, n: nat)
    ensures var (s, acts) := Run(rowLen, h, n);
      && (s.written <==> exists k | 0 <= k < n :: acts[k].Stop?)
      && (forall k | 0 <= k < n && acts[k].Stop? ::
            acts[k].encode <==> forall j | 0 <= j < k :: !acts[j].Stop?)
  {
    if n > 0 {
      WrittenAfterFirstStop(rowLen, h, n - 1);
      var (s0, acts0) := Run(rowLen, h, n - 1);
      var acts := Run(rowLen, h, n).1;
      assert acts == acts0 + [Advance(rowLen, h, s0).action];
      assert forall k | 0 <= k < n - 1 :: acts[k] == acts0[k];
      if acts[n - 1].Stop? {
        assert exists k | 0 <= k < n :: acts[k].Stop?;
      } else if exists k | 0 <= k < n :: acts[k].Stop? {
        var k :| 0 <= k < n && acts[k].Stop?;
        assert acts0[k].Stop?;
      }
    }
  }

  /** The action a run takes at its `k`-th pass: the `k`-th pixel in row-major
      order while pixels remain, then stops, the first of which encodes. */
  function Expected(rowLen: int, h: int, k: int): Action
    requires rowLen > 0
  {
    var total := Total(rowLen, h);
    if k < total then Claim(PixelAt(rowLen, k)) else Stop(k == total)
  }

  function Min(a: int, b: int): int
  {
    if a <= b then a else b
  }

  /** One pass from a reachable state: before the end of the grid it claims the
      pixel at the cursor's position and moves one position on; at the end it
      stops without moving, leaving the cursor past the last row. Either way
      the next state is reachable. */
  lemma AdvanceFromValid(rowLen: int, h: int, s: State)
    requires rowLen >= 1 && Valid(rowLen, h, s)
    ensures var t := Advance(rowLen, h, s);
      && Valid(rowLen, h, t.next)
      && (Rank(rowLen, s) < Total(rowLen, h) ==>
            t.action == Claim(PixelAt(rowLen, Rank(rowLen, s)))
            && Rank(rowLen, t.next) == Rank(rowLen, s) + 1)
      && (Rank(rowLen, s) == Total(rowLen, h) ==>
            t.action.Stop? && Rank(rowLen, t.next) == Rank(rowLen, s) && t.next.y >= h)
  {
    var c := if s.x == rowLen then s.(x := 0, y := s.y + 1) else s;
    var r := Rank(rowLen, s);
    assert Rank(rowLen, c) == r by {
      if s.x == rowLen {
        assert (s.y + 1) * rowLen == s.y * rowLen + rowLen;
      }
    }
    assert 0 <= c.x < rowLen;
    Arith.DivModUnique(r, rowLen, c.y, c.x);
    Arith.MulMonotone(c.y, h, rowLen);
    Arith.MulMonotone(0, c.y, rowLen);
    if r == Total(rowLen, h) && h > 0 {
      Arith.DivModUnique(r, rowLen, h, 0);
    }
  }

  /** The cursor after `n` passes: reachable, at position `min(n, total)`,
      with `written` set exactly when a worker has stopped and one more
      finished worker for every pass after the last claim. */
  lemma {:induction false} RunState(rowLen: int, h: int, n: nat)
    requires rowLen >= 1
    ensures var s := Run(rowLen, h, n).0;
      var total := Total(rowLen, h);
      && Valid(rowLen, h, s)
      && Rank(rowLen, s) == Min(n, total)
      && (s.written <==> n > total)
      && s.finished == (if n > total then n - total else 0)
  {
    if n > 0 {
      RunState(rowLen, h, n - 1);
      AdvanceFromValid(rowLen, h, Run(rowLen, h, n - 1).0);
    }
  }

  /** The whole run, pass by pass: the `k`-th action is `Expected(k)`. */
  lemma {:induction false} RunShape(rowLen: int, h: int, n: nat)
    requires rowLen >= 1
    ensures var acts := Run(rowLen, h, n).1;
      forall k | 0 <= k < n :: acts[k] == Expected(rowLen, h, k)
  {
    if n > 0 {
      RunShape(rowLen, h, n - 1);
      var (s, acts) := Run(rowLen, h, n - 1);
      RunState(rowLen, h, n - 1);
      AdvanceFromValid(rowLen, h, s);
      var t := Advance(rowLen, h, s);
      assert t.action == Expected(rowLen, h, n - 1);
      assert Run(rowLen, h, n).1 == acts + [t.action];
    }
  }

  /** Rows of `rowLen` pixels are visited in row-major order: a smaller
      position is an earlier row, or the same row and an earlier column. */
  predicate Before(p: Pixel, q: Pixel)
  {
    p.y < q.y || (p.y == q.y && p.x < q.x)
  }

  lemma RankOrder(rowLen: int, p: Pixel, q: Pixel)
    requires rowLen > 0 && 0 <= p.x < rowLen && 0 <= q.x < rowLen
    requires Index(rowLen, p) < Index(rowLen, q)
    ensures Before(p, q)
  {
    Arith.MulMonotone(q.y + 1, p.y, rowLen);
    Arith.MulMonotone(p.y, q.y, rowLen);
    assert (q.y + 1) * rowLen == q.y * rowLen + rowLen;
  }

  /** The pixel handed out at the `k`-th pass lies in the grid of `h` rows of
      `rowLen` pixels, at position `k`. */
  lemma ClaimAt(rowLen: int, h: int, n: nat, k: int)
    requires rowLen >= 1 && 0 <= k < n && Run(rowLen, h, n).1[k].Claim?
    ensures var p := Run(rowLen, h, n).1[k].pixel;
      InGrid(rowLen, h, p) && Index(rowLen, p) == k && k < Total(rowLen, h)
  {
    RunShape(rowLen, h, n);
    PixelAtInGrid(rowLen, h, k);
  }

  /** Every pixel a run hands out lies in the grid of `h` rows of `rowLen`
      pixels, and the `k`-th pass hands out the pixel at position `k`. */
  lemma ClaimsInGrid(rowLen: int, h: int, n: nat)
    requires rowLen >= 1
    ensures var acts := Run(rowLen, h, n).1;
      forall k | 0 <= k < n && acts[k].Claim? ::
        InGrid(rowLen, h, acts[k].pixel) && Index(rowLen, acts[k].pixel) == k
  {
    var acts := Run(rowLen, h, n).1;
    forall k | 0 <= k < n && acts[k].Claim?
      ensures InGrid(rowLen, h, acts[k].pixel) && Index(rowLen, acts[k].pixel) == k
    {
      ClaimAt(rowLen, h, n, k);
    }
  }

  /** Successive claims move strictly forward in row-major order, so no pixel
      is handed out twice. */
  lemma ClaimsStrictlyIncrease(rowLen: int, h: int, n: nat)
    requires rowLen >= 1
    ensures var acts := Run(rowLen, h, n).1;
      forall i, j | 0 <= i < j < n && acts[i].Claim? && acts[j].Claim? ::
        Before(acts[i].pixel, acts[j].pixel) && acts[i].pixel != acts[j].pixel
  {
    var acts := Run(rowLen, h, n).1;
    forall i, j | 0 <= i < j < n && acts[i].Claim? && acts[j].Claim?
      ensures Before(acts[i].pixel, acts[j].pixel)
    {
      ClaimAt(rowLen, h, n, i);
      ClaimAt(rowLen, h, n, j);
      RankOrder(rowLen, acts[i].pixel, acts[j].pixel);
    }
  }

  /** Once the grid is exhausted, the pixels handed out are exactly the grid of
      `h` rows of `rowLen` pixels, each at the pass numbered by its position. */
  lemma ClaimsCoverGrid(rowLen: int, h: int, n: nat)
    requires rowLen >= 1 && n >= Total(rowLen, h)
    ensures var acts := Run(rowLen, h, n).1;
      forall p :: (exists k | 0 <= k < n :: acts[k] == Claim(p)) <==> InGrid(rowLen, h, p)
  {
    ClaimsInGrid(rowLen, h, n);
    RunShape(rowLen, h, n);
    var acts := Run(rowLen, h, n).1;
    forall p | InGrid(rowLen, h, p)
      ensures exists k | 0 <= k < n :: acts[k] == Claim(p)
    {
      IndexInBounds(rowLen, h, p);
      var k := Index(rowLen, p);
      assert acts[k] == Expected(rowLen, h, k);
    }
  }

  /** Workers stop exactly from the pass after the last claim on; the first
      of them, and only it, encodes, so every claim precedes the encode. */
  lemma EncodesOnceAfterClaims(rowLen: int, h: int, n: nat)
    requires rowLen >= 1
    ensures var acts := Run(rowLen, h, n).1;
      && (forall k | 0 <= k < n :: acts[k].Stop? <==> k >= Total(rowLen, h))
      && (forall k | 0 <= k < n :: acts[k] == Stop(true) <==> k == Total(rowLen, h))
      && (forall i, k | 0 <= i < n && 0 <= k < n && acts[i].Claim? && acts[k].Stop? :: i < k)
  {
    RunShape(rowLen, h, n);
  }

  /** Past the last row the block only stops workers: it leaves the cursor
      where it is, so the row never decreases and every later pass stops too. */
  lemma StopsOnceExhausted(rowLen: int, h: int, s: State)
    requires rowLen >= 1 && Valid(rowLen, h, s) && s.y >= h
    ensures var t := Advance(rowLen, h, s);
      t.action.Stop? && t.next.x == s.x && t.next.y == s.y && Valid(rowLen, h, t.next)
  {
    Arith.MulMonotone(h, s.y, rowLen);
    Arith.MulMonotone(0, s.y, rowLen);
    AdvanceFromValid(rowLen, h, s);
  }

  /** The claim loop terminates: the number of pixels left, `Total - Rank`,
      is never negative, a claim lowers it by one, and the block stops a
      worker exactly when it is zero. */
  lemma ClaimsLeftDecreases(rowLen: int, h: int, s: State)
    requires rowLen >= 1 && Valid(rowLen, h, s)
    ensures var t := Advance(rowLen, h, s);
      && 0 <= Total(rowLen, h) - Rank(rowLen, t.next)
      && (t.action.Stop? <==> Rank(rowLen, s) == Total(rowLen, h))
      && (t.action.Claim? ==>
            Total(rowLen, h) - Rank(rowLen, t.next) == Total(rowLen, h) - Rank(rowLen, s) - 1)
  {
    AdvanceFromValid(rowLen, h, s);
  }

  /** The run of the block as written, which wraps at `rt.get_width() - 1`. */
  function SourceRun(w: int, h: int, n: nat): (State, seq<Action>)
  {
    Run(w - 1, h, n)
  }

  /** The run of the block as evidently intended, wrapping at `rt.get_width()`. */
  function FixedRun(w: int, h: int, n: nat): (State, seq<Action>)
  {
    Run(w, h, n)
  }

  /** As written, for a grid at least two pixels wide: every claim lies inside
      the `w` by `h` grid, so `x + y * WIDTH` is a cell of the frame, but the
      last column `w - 1` is never handed out; once the grid is exhausted the
      claims are exactly the pixels of the other columns. */
  lemma SourceSkipsLastColumn(w: int, h: int, n: nat)
    requires w >= 2
    ensures var acts := SourceRun(w, h, n).1;
      && (forall k | 0 <= k < n && acts[k].Claim? ::
            InGrid(w, h, acts[k].pixel) && acts[k].pixel.x != w - 1
            && 0 <= Index(w, acts[k].pixel) < w * h)
      && (n >= Total(w - 1, h) ==>
            forall p :: (exists k | 0 <= k < n :: acts[k] == Claim(p)) <==> InGrid(w - 1, h, p))
  {
    var acts := SourceRun(w, h, n).1;
    forall k | 0 <= k < n && acts[k].Claim?
      ensures InGrid(w, h, acts[k].pixel) && acts[k].pixel.x != w - 1
      ensures 0 <= Index(w, acts[k].pixel) < w * h
    {
      ClaimAt(w - 1, h, n, k);
      IndexInBounds(w, h, acts[k].pixel);
    }
    if n >= Total(w - 1, h) {
      ClaimsCoverGrid(w - 1, h, n);
    }
  }

  /** As written, a 3 by 1 image: two claims and the encode; pixel `(2, 0)`
      is never rendered. */
  lemma SourceThreeByOneExample()
    ensures SourceRun(3, 1, 3).1 == [Claim(Pixel(0, 0)), Claim(Pixel(1, 0)), Stop(true)]
  {
  }

  /** As written, an image one pixel wide and at least two rows high: the
      first pass wraps at once (the wrap column is 0), and from then on the
      column only grows, so the run never stops and hands out `(k, 1)` at
      its `k`-th pass, leaving the grid from the second pass on. */
  lemma {:induction false} SourceSingleColumnRunsAway(h: int, n: nat)
    requires h >= 2
    ensures var (s, acts) := SourceRun(1, h, n);
      && |acts| == n
      && (n > 0 ==> s == State(n, 1, false, 0))
      && forall k | 0 <= k < n :: acts[k] == Claim(Pixel(k, 1))
  {
    if n > 0 {
      SourceSingleColumnRunsAway(h, n - 1);
    }
  }

  /** Corrected, for any grid at least one pixel wide: the claims are exactly
      the `w` by `h` grid, the `k`-th claim is the pixel in cell `k` of the
      frame, and the one encode follows them all. */
  lemma FixedCoversGrid(w: int, h: int, n: nat)
    requires w >= 1 && n > Total(w, h)
    ensures var acts := FixedRun(w, h, n).1;
      && (forall k | 0 <= k < Total(w, h) :: acts[k] == Claim(PixelAt(w, k)))
      && (forall p :: (exists k | 0 <= k < n :: acts[k] == Claim(p)) <==> InGrid(w, h, p))
      && (forall k | 0 <= k < n :: acts[k] == Stop(true) <==> k == Total(w, h))
  {
    RunShape(w, h, n);
    ClaimsCoverGrid(w, h, n);
  }
}
