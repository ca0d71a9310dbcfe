/** The search of the target-size tool: a quality bisection on one canvas,
    then a fallback that shrinks the canvas. The codec is an injected oracle. */
module TargetSearch {
  import opened Wrappers
  import opened Geometry

  /** A rendered canvas: its dimensions and how many times it has been drawn
      from the previous canvas (0 for the one drawn from the image; the
      fallback draws each smaller canvas from the last one). */
  datatype Canvas = Canvas(width: nat, height: nat, passes: nat)

  /** `canvasToBlob` for one MIME type: the byte size of the blob encoded at
      the given quality, or `None` when `toBlob` yields no blob. */
  type Codec = (Canvas, real) -> Option<nat>

  /** One encode: what was encoded, at which quality, and what came back. */
  datatype Trial = Trial(canvas: Canvas, quality: real, size: Option<nat>)

  /** The encode produced a blob within the target. */
  predicate Fits(t: Trial, targetBytes: real)
  {
    t.size.Some? && t.size.value as real <= targetBytes
  }

  /** The encode produced a blob larger than the target. */
  predicate Oversized(t: Trial, targetBytes: real)
  {
    t.size.Some? && t.size.value as real > targetBytes
  }

  /** Every trial records what the codec returns for its canvas and quality. */
  predicate Recorded(codec: Codec, log: seq<Trial>)
  {
    forall k :: 0 <= k < |log| ==> log[k].size == codec(log[k].canvas, log[k].quality)
  }

  /** The codec never makes a blob smaller at a higher quality on this canvas.
      The source never checks this; lemmas that need it say so. */
  ghost predicate Monotone(codec: Codec, canvas: Canvas)
  {
    forall q1: real, q2: real ::
      q1 <= q2 && codec(canvas, q1).Some? && codec(canvas, q2).Some? ==>
      codec(canvas, q1).value <= codec(canvas, q2).value
  }

  // ----- The quality bisection -----

  const SEARCH_STEPS: nat := 12
  const LOW_QUALITY: real := 0.05
  const HIGH_QUALITY: real := 0.95

  /** `low` after the trials `p`: the quality of the last trial that fit, or 0.05. */
  function Low(p: seq<Trial>, targetBytes: real): real
  {
    if p == [] then LOW_QUALITY
    else if Fits(p[|p| - 1], targetBytes) then p[|p| - 1].quality
    else Low(p[..|p| - 1], targetBytes)
  }

  /** `high` after the trials `p`: the quality of the last oversized trial, or 0.95. */
  function High(p: seq<Trial>, targetBytes: real): real
  {
    if p == [] then HIGH_QUALITY
    else if Oversized(p[|p| - 1], targetBytes) then p[|p| - 1].quality
    else High(p[..|p| - 1], targetBytes)
  }

  /** The quality tried after the trials `p`: the midpoint of the window. */
  function Mid(p: seq<Trial>, targetBytes: real): real
  {
    (Low(p, targetBytes) + High(p, targetBytes)) / 2.0
  }

  /** The index of the last trial in `p` that fit, or -1 if none did. */
  function LastFit(p: seq<Trial>, targetBytes: real): (i: int)
    ensures -1 <= i < |p|
    ensures i >= 0 ==> Fits(p[i], targetBytes)
    ensures forall j :: i < j < |p| ==> !Fits(p[j], targetBytes)
  {
    if p == [] then -1
    else if Fits(p[|p| - 1], targetBytes) then |p| - 1
    else LastFit(p[..|p| - 1], targetBytes)
  }

  /** `best` after the trials `p`: the last blob that fit, if any. */
  function BestOf(p: seq<Trial>, targetBytes: real): Option<Trial>
  {
    var i := LastFit(p, targetBytes);
    if i < 0 then None else Some(p[i])
  }

  /** The trials of a bisection so far: each on `canvas` at the midpoint of
      the window the earlier ones left, and a failed encode only as the last. */
  predicate IsBisection(log: seq<Trial>, canvas: Canvas, targetBytes: real)
  {
    forall k :: 0 <= k < |log| ==>
      log[k].canvas == canvas &&
      log[k].quality == Mid(log[..k], targetBytes) &&
      (log[k].size.None? ==> k == |log| - 1)
  }

  /** A finished bisection: at most 12 trials, fewer only when the last failed. */
  predicate IsCompleteBisection(log: seq<Trial>, canvas: Canvas, targetBytes: real)
  {
    IsBisection(log, canvas, targetBytes) &&
    |log| <= SEARCH_STEPS &&
    (|log| < SEARCH_STEPS ==> |log| > 0 && log[|log| - 1].size.None?)
  }

  /** The 12-step quality search of the handler (its `for` loop): the trials
      it makes form a finished bisection, each as the codec answers it, and
      `best` is the last one that fit. */
  method QualitySearch(codec: Codec, canvas: Canvas, targetBytes: real)
    returns (best: Option<Trial>, log: seq<Trial>)
    ensures IsCompleteBisection(log, canvas, targetBytes)
    ensures Recorded(codec, log)
    ensures best == BestOf(log, targetBytes)
  {
    var low, high := LOW_QUALITY, HIGH_QUALITY;
    best := None;
    log := [];
    var i := 0;
    while i < SEARCH_STEPS
      invariant i == |log| <= SEARCH_STEPS
      invariant IsBisection(log, canvas, targetBytes)
      invariant forall k :: 0 <= k < |log| ==> log[k].size.Some?
      invariant Recorded(codec, log)
      invariant low == Low(log, targetBytes) && high == High(log, targetBytes)
      invariant best == BestOf(log, targetBytes)
    {
      var mid := (low + high) / 2.0;
      var b := codec(canvas, mid);
      var t := Trial(canvas, mid, b);
      AppendBisection(log, t, canvas, targetBytes);
      log := log + [t];
      if b.None? {
        break;
      }
      if b.value as real <= targetBytes {
        best := Some(t);
        low := mid;
      } else {
        high := mid;
      }
      i := i + 1;
    }
  }

  /** Appending the trial at the next midpoint keeps a bisection (as long as
      no earlier trial failed), and `low`, `high` and `best` follow it. */
  lemma AppendBisection(log: seq<Trial>, t: Trial, canvas: Canvas, targetBytes: real)
    requires IsBisection(log, canvas, targetBytes)
    requires forall k :: 0 <= k < |log| ==> log[k].size.Some?
    requires t.canvas == canvas && t.quality == Mid(log, targetBytes)
    ensures IsBisection(log + [t], canvas, targetBytes)
    ensures Low(log + [t], targetBytes) == if Fits(t, targetBytes) then t.quality else Low(log, targetBytes)
    ensures High(log + [t], targetBytes) == if Oversized(t, targetBytes) then t.quality else High(log, targetBytes)
    ensures BestOf(log + [t], targetBytes) == if Fits(t, targetBytes) then Some(t) else BestOf(log, targetBytes)
  {
    var l := log + [t];
    assert l[..|log|] == log;
    forall k | 0 <= k < |l|
      ensures l[k].canvas == canvas && l[k].quality == Mid(l[..k], targetBytes)
      ensures l[k].size.None? ==> k == |l| - 1
    {
      if k < |log| {
        assert l[..k] == log[..k];
      }
    }
  }

  /** Every prefix of a bisection is one. */
  lemma BisectionPrefix(log: seq<Trial>, n: nat, canvas: Canvas, targetBytes: real)
    requires IsBisection(log, canvas, targetBytes)
    requires n <= |log|
    ensures IsBisection(log[..n], canvas, targetBytes)
  {
    forall k | 0 <= k < n
      ensures log[..n][k].quality == Mid(log[..n][..k], targetBytes)
    {
      assert log[..n][..k] == log[..k];
    }
  }

  /** The search window stays inside [0.05, 0.95] and never closes:
      0.05 <= low < high <= 0.95 after every trial. */
  lemma {:induction false} WindowInvariant(log: seq<Trial>, canvas: Canvas, targetBytes: real)
    requires IsBisection(log, canvas, targetBytes)
    ensures LOW_QUALITY <= Low(log, targetBytes) < High(log, targetBytes) <= HIGH_QUALITY
  {
    if log != [] {
      var p := log[..|log| - 1];
      BisectionPrefix(log, |log| - 1, canvas, targetBytes);
      WindowInvariant(p, canvas, targetBytes);
      assert log[|log| - 1].quality == Mid(p, targetBytes);
    }
  }

  /** Each trial's quality lies strictly inside the window of the trials
      before it, and so strictly between 0.05 and 0.95. */
  lemma QualityInsideWindow(log: seq<Trial>, k: nat, canvas: Canvas, targetBytes: real)
    requires IsBisection(log, canvas, targetBytes)
    requires k < |log|
    ensures Low(log[..k], targetBytes) < log[k].quality < High(log[..k], targetBytes)
    ensures LOW_QUALITY < log[k].quality < HIGH_QUALITY
  {
    BisectionPrefix(log, k, canvas, targetBytes);
    WindowInvariant(log[..k], canvas, targetBytes);
  }

  /** `low` only rises and `high` only falls as trials accumulate. */
  lemma {:induction false} WindowNarrows(log: seq<Trial>, i: nat, j: nat, canvas: Canvas, targetBytes: real)
    requires IsBisection(log, canvas, targetBytes)
    requires i <= j <= |log|
    ensures Low(log[..i], targetBytes) <= Low(log[..j], targetBytes)
    ensures High(log[..j], targetBytes) <= High(log[..i], targetBytes)
  {
    if i < j {
      WindowNarrows(log, i, j - 1, canvas, targetBytes);
      QualityInsideWindow(log, j - 1, canvas, targetBytes);
      assert log[..j][..j - 1] == log[..j - 1];
    }
  }

  /** The bisection order: every trial after one that fit is at a strictly
      higher quality, every trial after an oversized one at a strictly lower
      quality. In particular each accepted quality exceeds the one before. */
  lemma BisectionOrder(log: seq<Trial>, j: nat, k: nat, canvas: Canvas, targetBytes: real)
    requires IsBisection(log, canvas, targetBytes)
    requires j < k < |log|
    ensures Fits(log[j], targetBytes) ==> log[j].quality < log[k].quality
    ensures Oversized(log[j], targetBytes) ==> log[k].quality < log[j].quality
  {
    assert log[..j + 1][..j] == log[..j];
    WindowNarrows(log, j + 1, k, canvas, targetBytes);
    QualityInsideWindow(log, k, canvas, targetBytes);
  }

  /** `best` is the highest-quality trial that fit; there is one exactly when
      some trial fit. */
  lemma BestIsHighestFit(log: seq<Trial>, canvas: Canvas, targetBytes: real)
    requires IsBisection(log, canvas, targetBytes)
    ensures BestOf(log, targetBytes).Some? <==> exists k :: 0 <= k < |log| && Fits(log[k], targetBytes)
    ensures BestOf(log, targetBytes).Some? ==>
      BestOf(log, targetBytes).value in log &&
      Fits(BestOf(log, targetBytes).value, targetBytes) &&
      forall k :: 0 <= k < |log| && Fits(log[k], targetBytes) ==>
        log[k].quality <= BestOf(log, targetBytes).value.quality
  {
    var m := LastFit(log, targetBytes);
    if m >= 0 {
      forall k | 0 <= k < |log| && Fits(log[k], targetBytes)
        ensures log[k].quality <= log[m].quality
      {
        if k < m {
          BisectionOrder(log, k, m, canvas, targetBytes);
        }
      }
    }
  }

  /** If the codec is monotone in quality, `best` is also the largest blob
      within the target among all trials. */
  lemma BestIsLargestFitWhenMonotone(codec: Codec, log: seq<Trial>, canvas: Canvas, targetBytes: real)
    requires IsBisection(log, canvas, targetBytes)
    requires Recorded(codec, log)
    requires Monotone(codec, canvas)
    ensures BestOf(log, targetBytes).Some? ==>
      forall k :: 0 <= k < |log| && Fits(log[k], targetBytes) ==>
        log[k].size.value <= BestOf(log, targetBytes).value.size.value
  {
    BestIsHighestFit(log, canvas, targetBytes);
    var m := LastFit(log, targetBytes);
    if m >= 0 {
      forall k | 0 <= k < |log| && Fits(log[k], targetBytes)
        ensures log[k].size.value <= log[m].size.value
      {
        assert log[k].canvas == canvas && log[m].canvas == canvas;
      }
    }
  }

  /** A deterministic codec gives one finished bisection only: re-running the
      search on the same canvas and target makes the same trials. */
  lemma BisectionDeterministic(codec: Codec, l1: seq<Trial>, l2: seq<Trial>, canvas: Canvas, targetBytes: real)
    requires IsCompleteBisection(l1, canvas, targetBytes) && Recorded(codec, l1)
    requires IsCompleteBisection(l2, canvas, targetBytes) && Recorded(codec, l2)
    ensures l1 == l2
  {
    var n := if |l1| <= |l2| then |l1| else |l2|;
    SamePrefix(codec, l1, l2, n, canvas, targetBytes);
    assert n > 0 ==> l1[n - 1] == l1[..n][n - 1] == l2[..n][n - 1] == l2[n - 1];
    assert |l1| == |l2|;
    assert l1 == l1[..n] && l2 == l2[..n];
  }

  /** Two bisections recorded from the same codec agree on their common prefix. */
  lemma {:induction false} SamePrefix(codec: Codec, l1: seq<Trial>, l2: seq<Trial>, n: nat, canvas: Canvas, targetBytes: real)
    requires IsBisection(l1, canvas, targetBytes) && Recorded(codec, l1)
    requires IsBisection(l2, canvas, targetBytes) && Recorded(codec, l2)
    requires n <= |l1| && n <= |l2|
    ensures l1[..n] == l2[..n]
  {
    if n > 0 {
      SamePrefix(codec, l1, l2, n - 1, canvas, targetBytes);
      assert l1[n - 1].quality == l2[n - 1].quality;
      assert l1[..n] == l1[..n - 1] + [l1[n - 1]];
      assert l2[..n] == l2[..n - 1] + [l2[n - 1]];
    }
  }

  // ----- The shrink fallback -----

  const SHRINK_STEPS: nat := 6
  const SHRINK_QUALITY: real := 0.7

  /** One shrink step: a new canvas of `round(0.9 * x)` in each dimension,
      drawn from the previous one. */
  function Step(c: Canvas): (s: Canvas)
    ensures s.width <= c.width && s.height <= c.height
    ensures s.passes == c.passes + 1
  {
    Canvas(ShrinkDim(c.width), ShrinkDim(c.height), c.passes + 1)
  }

  /** The canvas after `n` shrink steps. */
  function Shrunk(c: Canvas, n: nat): Canvas
  {
    if n == 0 then c else Step(Shrunk(c, n - 1))
  }

  /** Shrinking further never enlarges a canvas, and a canvas at least one
      pixel wide and high stays so. */
  lemma {:induction false} ShrunkNarrows(c: Canvas, i: nat, j: nat)
    requires i <= j
    ensures Shrunk(c, j).width <= Shrunk(c, i).width
    ensures Shrunk(c, j).height <= Shrunk(c, i).height
    ensures Shrunk(c, j).passes == Shrunk(c, i).passes + (j - i)
    ensures c.width >= 1 ==> Shrunk(c, j).width >= 1
    ensures c.height >= 1 ==> Shrunk(c, j).height >= 1
  {
    if i < j {
      ShrunkNarrows(c, i, j - 1);
    } else if j > 0 {
      ShrunkNarrows(c, 0, j - 1);
    }
  }

  /** The trials of the fallback: the k-th on the canvas shrunk k+1 times, at
      quality 0.7; every one but the last missed the target, and it stops
      before its sixth step only when the last one fit. */
  predicate IsShrinkRun(log: seq<Trial>, canvas: Canvas, targetBytes: real)
  {
    1 <= |log| <= SHRINK_STEPS &&
    (forall k :: 0 <= k < |log| ==>
      log[k].canvas == Shrunk(canvas, k + 1) && log[k].quality == SHRINK_QUALITY &&
      (k < |log| - 1 ==> !Fits(log[k], targetBytes))) &&
    (|log| < SHRINK_STEPS ==> Fits(log[|log| - 1], targetBytes))
  }

  /** The fallback of the handler (its second `for` loop): it shrinks the canvas
      up to six times, encodes each at quality 0.7, and keeps the first blob
      that fits together with the canvas that made it. */
  method ShrinkFallback(codec: Codec, canvas: Canvas, targetBytes: real)
    returns (best: Option<Trial>, log: seq<Trial>)
    ensures IsShrinkRun(log, canvas, targetBytes)
    ensures Recorded(codec, log)
    ensures best == if Fits(log[|log| - 1], targetBytes) then Some(log[|log| - 1]) else None
  {
    var cw, ch := canvas.width, canvas.height;
    var tmp := canvas;
    best := None;
    log := [];
    var s := 0;
    while s < SHRINK_STEPS
      invariant s == |log| <= SHRINK_STEPS
      invariant tmp == Shrunk(canvas, s) && cw == tmp.width && ch == tmp.height
      invariant forall k :: 0 <= k < |log| ==>
        log[k].canvas == Shrunk(canvas, k + 1) && log[k].quality == SHRINK_QUALITY &&
        !Fits(log[k], targetBytes)
      invariant Recorded(codec, log)
      invariant best == None
    {
      cw := ShrinkDim(cw);
      ch := ShrinkDim(ch);
      tmp := Canvas(cw, ch, tmp.passes + 1);
      assert tmp == Shrunk(canvas, s + 1);
      var b := codec(tmp, SHRINK_QUALITY);
      var t := Trial(tmp, SHRINK_QUALITY, b);
      log := log + [t];
      if b.Some? && b.value as real <= targetBytes {
        best := Some(t);
        assert IsShrinkRun(log, canvas, targetBytes);
        return;
      }
      s := s + 1;
    }
  }

  /** In a fallback run the canvases only get smaller, and at most the last
      trial fits: the fallback stops at the first blob within the target. */
  lemma ShrinkRunStopsAtFirstFit(log: seq<Trial>, canvas: Canvas, targetBytes: real, j: nat, k: nat)
    requires IsShrinkRun(log, canvas, targetBytes)
    requires j <= k < |log|
    ensures log[k].canvas.width <= log[j].canvas.width <= canvas.width
    ensures log[k].canvas.height <= log[j].canvas.height <= canvas.height
    ensures canvas.width >= 1 ==> log[k].canvas.width >= 1
    ensures canvas.height >= 1 ==> log[k].canvas.height >= 1
    ensures Fits(log[j], targetBytes) ==> j == |log| - 1
  {
    assert log[j].canvas == Shrunk(canvas, j + 1) && log[k].canvas == Shrunk(canvas, k + 1);
    ShrunkNarrows(canvas, j + 1, k + 1);
    ShrunkNarrows(canvas, 0, j + 1);
  }

  /** A deterministic codec gives one fallback run only. */
  lemma ShrinkDeterministic(codec: Codec, l1: seq<Trial>, l2: seq<Trial>, canvas: Canvas, targetBytes: real)
    requires IsShrinkRun(l1, canvas, targetBytes) && Recorded(codec, l1)
    requires IsShrinkRun(l2, canvas, targetBytes) && Recorded(codec, l2)
    ensures l1 == l2
  {
    var n := if |l1| <= |l2| then |l1| else |l2|;
    forall k | 0 <= k < n ensures l1[k] == l2[k] { }
    assert l1[n - 1] == l2[n - 1];
    assert |l1| == |l2|;
  }
}
