/** The workers of the multithreaded renderer around the cursor. A worker
    claims a pixel under the lock, then shades and stores it after releasing
    the lock; the stop that ends the run hands the frame to the encoder. A run
    is any interleaving of these events. */
module Dispatch {
  import opened Frame
  import opened Cursor

  /** A worker between passes through the locked block, holding a claimed
      pixel it has not stored yet, or returned from `worker_function`. */
  datatype Worker = Ready | Holding(pixel: Pixel) | Stopped

  /** Which stop hands the frame to the encoder: the first one, as written
      (the worker that sets `written` encodes and calls `exit(0)`), or the one
      that brings `finshed_threads` up to the number of workers, as the
      commented-out block after it intends. */
  datatype Policy = FirstToStop | LastToStop

  /** The shared state. `output` is the frame as the encoder received it;
      once it is set the run is over. */
  datatype Sys = Sys(cursor: State, workers: seq<Worker>, frame: Buffer, output: Option<Buffer>)

  /** Worker `t` passes through the locked block, or stores the pixel it holds. */
  datatype Event = Lock(t: int) | Write(t: int)

  /** The state when `render` releases the workers: a fresh buffer, every
      worker ready. */
  function Init(w: nat, h: nat, threads: nat): (sys: Sys)
    ensures sys.cursor == State(0, 0, false, 0) && sys.output.None?
    ensures |sys.workers| == threads && forall t | 0 <= t < threads :: sys.workers[t] == Ready
    ensures |sys.frame| == w * h && forall i | 0 <= i < w * h :: sys.frame[i] == None
  {
    Sys(Start, seq(threads, _ => Ready), Blank(w * h), None)
  }

  /** One event, or `None` when it cannot happen in `sys`: nothing happens
      after the encode, only a ready worker takes the lock, and only a worker
      holding a pixel stores it, in that pixel's cell. */
  function Fire(rowLen: int, policy: Policy, w: int, h: int, shade: Shader, sys: Sys, e: Event): (r: Option<Sys>)
    ensures r.Some? ==>
      && sys.output.None? && 0 <= e.t < |sys.workers|
      && |r.value.workers| == |sys.workers| && |r.value.frame| == |sys.frame|
    ensures r.Some? && e.Lock? ==>
      sys.workers[e.t] == Ready && r.value.workers[e.t] != Ready && r.value.frame == sys.frame
    ensures r.Some? && e.Write? ==>
      && sys.workers[e.t].Holding? && r.value.workers[e.t] == Ready
      && r.value.cursor == sys.cursor && r.value.output.None?
      && 0 <= Index(w, sys.workers[e.t].pixel) < |r.value.frame|
      && r.value.frame[Index(w, sys.workers[e.t].pixel)] == Some(Fragment(shade, sys.workers[e.t].pixel))
    ensures r.Some? && r.value.output.Some? ==> e.Lock? && r.value.output == Some(r.value.frame)
  {
    if sys.output.Some? then None
    else
      match e
      case Lock(t) =>
        if 0 <= t < |sys.workers| && sys.workers[t] == Ready then
          var tr := Advance(rowLen, h, sys.cursor);
          match tr.action
          case Claim(p) =>
            Some(sys.(cursor := tr.next, workers := sys.workers[t := Holding(p)]))
          case Stop(encode) =>
            var after := sys.(cursor := tr.next, workers := sys.workers[t := Stopped]);
            var fires := if policy == FirstToStop then encode else tr.next.finished == |sys.workers|;
            Some(if fires then after.(output := Some(after.frame)) else after)
        else None
      case Write(t) =>
        if 0 <= t < |sys.workers| && sys.workers[t].Holding?
           && 0 <= Index(w, sys.workers[t].pixel) < |sys.frame| then
          Some(sys.(frame := Store(sys.frame, w, shade, sys.workers[t].pixel),
                    workers := sys.workers[t := Ready]))
        else None
  }

  /** A schedule of events from `sys`, or `None` if one of them cannot happen.
      A schedule keeps the number of workers and the size of the buffer, and
      no event follows the encode. */
  function Execute(rowLen: int, policy: Policy, w: int, h: int, shade: Shader, sys: Sys, events: seq<Event>): (r: Option<Sys>)
    ensures r.Some? ==> |r.value.workers| == |sys.workers| && |r.value.frame| == |sys.frame|
    ensures r.Some? && sys.output.Some? ==> events == []
  {
    if events == [] then Some(sys)
    else
      match Execute(rowLen, policy, w, h, shade, sys, events[..|events| - 1])
      case None => None
      case Some(s) => Fire(rowLen, policy, w, h, shade, s, events[|events| - 1])
  }

  /** The number of workers that have returned. */
  function CountStopped(ws: seq<Worker>): (n: nat)
    ensures n <= |ws|
  {
    if ws == [] then 0 else CountStopped(ws[..|ws| - 1]) + (if ws[|ws| - 1].Stopped? then 1 else 0)
  }

  lemma {:induction false} CountStoppedUpdate(ws: seq<Worker>, t: int, v: Worker)
    requires 0 <= t < |ws|
    ensures CountStopped(ws[t := v]) ==
      CountStopped(ws) - (if ws[t].Stopped? then 1 else 0) + (if v.Stopped? then 1 else 0)
  {
    var last := |ws| - 1;
    if t < last {
      assert ws[t := v][..last] == ws[..last][t := v];
      CountStoppedUpdate(ws[..last], t, v);
    } else {
      assert ws[t := v][..last] == ws[..last];
    }
  }

  lemma {:induction false} AllStopped(ws: seq<Worker>)
    requires CountStopped(ws) == |ws|
    ensures forall t | 0 <= t < |ws| :: ws[t].Stopped?
  {
    if ws != [] {
      AllStopped(ws[..|ws| - 1]);
      assert forall t | 0 <= t < |ws| - 1 :: ws[t] == ws[..|ws| - 1][t];
    }
  }

  lemma {:induction false} NoneStopped(n: nat)
    ensures CountStopped(seq(n, _ => Ready)) == 0
  {
    if n > 0 {
      assert seq(n, _ => Ready)[..n - 1] == seq(n - 1, _ => Ready);
      NoneStopped(n - 1);
    }
  }

  /** What holds of every state the corrected dispatcher reaches: the cursor
      is reachable; each held pixel is a claimed, distinct, still unwritten
      pixel; each written cell holds its pixel's fragment and was claimed;
      each claimed but unwritten cell is held by some worker; the finished
      count is the number of returned workers; workers only return once the
      grid is exhausted; and the encoder got the frame once all returned. */
  ghost predicate Consistent(w: int, h: nat, shade: Shader, threads: nat, sys: Sys)
    requires w >= 1
  {
    var r := Rank(w, sys.cursor);
    && |sys.workers| == threads
    && |sys.frame| == w * h
    && Valid(w, h, sys.cursor)
    && (forall t | 0 <= t < threads && sys.workers[t].Holding? ::
          InGrid(w, h, sys.workers[t].pixel) && Index(w, sys.workers[t].pixel) < r
          && sys.frame[Index(w, sys.workers[t].pixel)] == None)
    && (forall t1, t2 | 0 <= t1 < t2 < threads && sys.workers[t1].Holding? && sys.workers[t2].Holding? ::
          sys.workers[t1].pixel != sys.workers[t2].pixel)
    && (forall i | 0 <= i < |sys.frame| && sys.frame[i].Some? ::
          sys.frame[i] == Some(Fragment(shade, PixelAt(w, i))) && i < r)
    && (forall i | 0 <= i < r && i < |sys.frame| && sys.frame[i] == None ::
          exists t | 0 <= t < threads :: sys.workers[t] == Holding(PixelAt(w, i)))
    && sys.cursor.finished == CountStopped(sys.workers)
    && (sys.cursor.finished > 0 ==> r == Total(w, h))
    && (sys.output.Some? ==> sys.output.value == sys.frame && sys.cursor.finished == threads)
  }

  lemma InitConsistent(w: int, h: nat, shade: Shader, threads: nat)
    requires w >= 1
    ensures Consistent(w, h, shade, threads, Init(w, h, threads))
  {
    NoneStopped(threads);
  }

  /** A pass through the locked block that claims a pixel keeps the
      dispatcher consistent. */
  lemma ClaimConsistent(w: int, h: nat, shade: Shader, threads: nat, sys: Sys, t: int)
    requires w >= 1 && Consistent(w, h, shade, threads, sys)
    requires Fire(w, LastToStop, w, h, shade, sys, Lock(t)).Some?
    requires Advance(w, h, sys.cursor).action.Claim?
    ensures Consistent(w, h, shade, threads, Fire(w, LastToStop, w, h, shade, sys, Lock(t)).value)
  {
    var next := Fire(w, LastToStop, w, h, shade, sys, Lock(t)).value;
    var r := Rank(w, sys.cursor);
    AdvanceFromValid(w, h, sys.cursor);
    CountStoppedUpdate(sys.workers, t, next.workers[t]);
    PixelAtInGrid(w, h, r);
    assert next.frame[r] == None;
    forall i | 0 <= i < r + 1 && i < |next.frame| && next.frame[i] == None
      ensures exists t' | 0 <= t' < threads :: next.workers[t'] == Holding(PixelAt(w, i))
    {
      if i < r {
        var t' :| 0 <= t' < threads && sys.workers[t'] == Holding(PixelAt(w, i));
        assert next.workers[t'] == Holding(PixelAt(w, i));
      } else {
        assert next.workers[t] == Holding(PixelAt(w, i));
      }
    }
  }

  /** A pass through the locked block that stops the worker keeps the
      dispatcher consistent. */
  lemma StopConsistent(w: int, h: nat, shade: Shader, threads: nat, sys: Sys, t: int)
    requires w >= 1 && Consistent(w, h, shade, threads, sys)
    requires Fire(w, LastToStop, w, h, shade, sys, Lock(t)).Some?
    requires Advance(w, h, sys.cursor).action.Stop?
    ensures Consistent(w, h, shade, threads, Fire(w, LastToStop, w, h, shade, sys, Lock(t)).value)
  {
    var next := Fire(w, LastToStop, w, h, shade, sys, Lock(t)).value;
    var r := Rank(w, sys.cursor);
    AdvanceFromValid(w, h, sys.cursor);
    CountStoppedUpdate(sys.workers, t, next.workers[t]);
    forall i | 0 <= i < r && i < |next.frame| && next.frame[i] == None
      ensures exists t' | 0 <= t' < threads :: next.workers[t'] == Holding(PixelAt(w, i))
    {
      var t' :| 0 <= t' < threads && sys.workers[t'] == Holding(PixelAt(w, i));
      assert next.workers[t'] == Holding(PixelAt(w, i));
    }
  }

  /** A pass through the locked block keeps the dispatcher consistent. */
  lemma LockConsistent(w: int, h: nat, shade: Shader, threads: nat, sys: Sys, t: int)
    requires w >= 1 && Consistent(w, h, shade, threads, sys)
    requires Fire(w, LastToStop, w, h, shade, sys, Lock(t)).Some?
    ensures Consistent(w, h, shade, threads, Fire(w, LastToStop, w, h, shade, sys, Lock(t)).value)
  {
    if Advance(w, h, sys.cursor).action.Claim? {
      ClaimConsistent(w, h, shade, threads, sys, t);
    } else {
      StopConsistent(w, h, shade, threads, sys, t);
    }
  }

  /** Storing a held pixel keeps the dispatcher consistent. */
  lemma WriteConsistent(w: int, h: nat, shade: Shader, threads: nat, sys: Sys, t: int)
    requires w >= 1 && Consistent(w, h, shade, threads, sys)
    requires Fire(w, LastToStop, w, h, shade, sys, Write(t)).Some?
    ensures Consistent(w, h, shade, threads, Fire(w, LastToStop, w, h, shade, sys, Write(t)).value)
  {
    var next := Fire(w, LastToStop, w, h, shade, sys, Write(t)).value;
    var p := sys.workers[t].pixel;
    var r := Rank(w, sys.cursor);
    IndexInBounds(w, h, p);
    CountStoppedUpdate(sys.workers, t, Ready);
    forall t' | 0 <= t' < threads && next.workers[t'].Holding?
      ensures next.frame[Index(w, next.workers[t'].pixel)] == None
    {
      IndexInjective(w, h, p, next.workers[t'].pixel);
    }
    forall i | 0 <= i < r && i < |next.frame| && next.frame[i] == None
      ensures exists t' | 0 <= t' < threads :: next.workers[t'] == Holding(PixelAt(w, i))
    {
      var t' :| 0 <= t' < threads && sys.workers[t'] == Holding(PixelAt(w, i));
      PixelAtInGrid(w, h, i);
      assert t' != t;
      assert next.workers[t'] == Holding(PixelAt(w, i));
    }
  }

  /** Every state a schedule of the corrected dispatcher reaches is consistent. */
  lemma {:induction false} FixedScheduleConsistent(w: int, h: nat, shade: Shader, threads: nat, events: seq<Event>)
    requires w >= 1
    ensures var r := Execute(w, LastToStop, w, h, shade, Init(w, h, threads), events);
      r.Some? ==> Consistent(w, h, shade, threads, r.value)
  {
    if events == [] {
      InitConsistent(w, h, shade, threads);
    } else {
      var prefix := events[..|events| - 1];
      FixedScheduleConsistent(w, h, shade, threads, prefix);
      var r := Execute(w, LastToStop, w, h, shade, Init(w, h, threads), prefix);
      if r.Some? && Fire(w, LastToStop, w, h, shade, r.value, events[|events| - 1]).Some? {
        assert Execute(w, LastToStop, w, h, shade, Init(w, h, threads), events)
          == Fire(w, LastToStop, w, h, shade, r.value, events[|events| - 1]);
        match events[|events| - 1]
        case Lock(t) => LockConsistent(w, h, shade, threads, r.value, t);
        case Write(t) => WriteConsistent(w, h, shade, threads, r.value, t);
      }
    }
  }

  /** Corrected (wrap at `w`, encode when the last worker returns): whatever
      the interleaving, the frame the encoder receives has every one of its
      `w * h` cells written with the opaque fragment of its pixel. */
  lemma FixedEncodesCompleteFrame(w: int, h: nat, shade: Shader, threads: nat, events: seq<Event>)
    requires w >= 1 && threads >= 1
    ensures var r := Execute(w, LastToStop, w, h, shade, Init(w, h, threads), events);
      r.Some? && r.value.output.Some? ==>
        && |r.value.output.value| == w * h
        && forall i | 0 <= i < w * h :: r.value.output.value[i] == Some(Fragment(shade, PixelAt(w, i)))
  {
    FixedScheduleConsistent(w, h, shade, threads, events);
    var r := Execute(w, LastToStop, w, h, shade, Init(w, h, threads), events);
    if r.Some? && r.value.output.Some? {
      var sys := r.value;
      AllStopped(sys.workers);
      assert Rank(w, sys.cursor) == w * h;
      forall i | 0 <= i < w * h
        ensures sys.frame[i] == Some(Fragment(shade, PixelAt(w, i)))
      {
        assert sys.frame[i] != None;
      }
    }
  }

  /** As written, one possible interleaving on a 2 by 1 image with two
      workers: worker 0 claims pixel `(0, 0)`; before it stores it, worker 1
      finds the grid exhausted (the wrap column is 1) and hands the frame to
      the encoder with cell 0 still unwritten, and then the process exits. */
  lemma SourceEncodesBeforeWrite(shade: Shader)
    ensures var r := Execute(1, FirstToStop, 2, 1, shade, Init(2, 1, 2), [Lock(0), Lock(1)]);
      && r.Some?
      && r.value.workers[0] == Holding(Pixel(0, 0))
      && r.value.output == Some([None, None])
  {
    var s0 := Init(2, 1, 2);
    assert s0.workers == [Ready, Ready];
    assert s0.frame == [None, None];
    var s1 := Fire(1, FirstToStop, 2, 1, shade, s0, Lock(0));
    assert [Lock(0), Lock(1)][..1] == [Lock(0)];
    assert Execute(1, FirstToStop, 2, 1, shade, s0, [Lock(0)]) == s1;
  }

  /** A single worker claiming and storing `k` pixels in turn. */
  function Rounds(k: nat): seq<Event>
  {
    if k == 0 then [] else Rounds(k - 1) + [Lock(0), Write(0)]
  }

  /** The state of a single worker between rounds, `k` pixels in. */
  predicate Between(w: int, h: nat, k: int, s: Sys)
  {
    && s.workers == [Ready] && s.output.None?
    && Valid(w, h, s.cursor) && Rank(w, s.cursor) == k
    && |s.frame| == w * h && s.cursor.finished == 0
  }

  /** One round from between rounds: the claim and the store are both
      possible, and they leave the worker between rounds one pixel further. */
  lemma Round(w: int, h: nat, shade: Shader, k: nat, s: Sys)
    requires w >= 1 && k < Total(w, h) && Between(w, h, k, s)
    ensures Fire(w, LastToStop, w, h, shade, s, Lock(0)).Some?
    ensures var s1 := Fire(w, LastToStop, w, h, shade, s, Lock(0)).value;
      && Fire(w, LastToStop, w, h, shade, s1, Write(0)).Some?
      && Between(w, h, k + 1, Fire(w, LastToStop, w, h, shade, s1, Write(0)).value)
  {
    AdvanceFromValid(w, h, s.cursor);
    PixelAtInGrid(w, h, k);
    var p := PixelAt(w, k);
    var s1 := s.(cursor := Advance(w, h, s.cursor).next, workers := [Holding(p)]);
    assert s.workers[0 := Holding(p)] == [Holding(p)];
    assert Fire(w, LastToStop, w, h, shade, s, Lock(0)) == Some(s1);
    assert s1.workers[0 := Ready] == [Ready];
  }

  lemma {:induction false} RoundsProceed(w: int, h: nat, shade: Shader, k: nat)
    requires w >= 1 && k <= Total(w, h)
    ensures var r := Execute(w, LastToStop, w, h, shade, Init(w, h, 1), Rounds(k));
      r.Some? && Between(w, h, k, r.value)
  {
    var init := Init(w, h, 1);
    if k == 0 {
      assert init.workers == [Ready];
    } else {
      RoundsProceed(w, h, shade, k - 1);
      var before := Rounds(k - 1);
      var s := Execute(w, LastToStop, w, h, shade, init, before).value;
      Round(w, h, shade, k - 1, s);
      assert (before + [Lock(0)])[..|before|] == before;
      assert Rounds(k)[..|Rounds(k)| - 1] == before + [Lock(0)];
    }
  }

  /** Corrected, liveness: one worker that claims and stores every pixel in
      turn and then passes through the block once more hands the frame to the
      encoder. */
  lemma FixedSingleWorkerFinishes(w: int, h: nat, shade: Shader)
    requires w >= 1
    ensures var r := Execute(w, LastToStop, w, h, shade, Init(w, h, 1), Rounds(Total(w, h)) + [Lock(0)]);
      r.Some? && r.value.output.Some?
  {
    var k := Total(w, h);
    RoundsProceed(w, h, shade, k);
    var init := Init(w, h, 1);
    var s := Execute(w, LastToStop, w, h, shade, init, Rounds(k)).value;
    AdvanceFromValid(w, h, s.cursor);
    CountStoppedUpdate(s.workers, 0, Stopped);
    assert (Rounds(k) + [Lock(0)])[..|Rounds(k)|] == Rounds(k);
  }
}
