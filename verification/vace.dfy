/**
 * The VACE context manager node: from the number of keyframes `n` and the
 * interpolation multiplier `m` it lays out a sequence of `(n - 1) * m + 1`
 * frames with a keyframe every `m` frames, chooses a context-window size that
 * fits the keyframe spacing, cuts the sequence into overlapping windows,
 * rates how many window boundaries fall on keyframes, and builds the 0/1
 * mask that marks the keyframes.
 *
 * The keyframe images, the VAE and the encoder the node calls are not part
 * of this model: only the number of keyframes enters it.
 */
module VaceContext {
  import opened Wrappers

  /** A context window `(start, end)`: frames `start` up to but excluding `end`. */
  datatype Window = Window(start: int, end: int)

  /** One window-size candidate with its distance `score` from the requested size.
      `multiplier` is the `j` of a candidate `spacing * j`, and 0 for the requested size itself. */
  datatype Candidate = Candidate(size: int, score: int, multiplier: int)

  /** The schedule dictionary `calculate_optimal_alignment` returns. */
  datatype Schedule = Schedule(
    totalFrames: int,
    keyframePositions: seq<int>,
    interpolationMultiplier: int,
    optimalWindowSize: int,
    windows: seq<Window>,
    alignmentQuality: real)

  /** What `process` hands on besides the encoder's embeddings: the schedule and the mask. */
  datatype Output = Output(schedule: Schedule, masks: seq<real>)

  const NeedTwoKeyframes := "Need at least 2 keyframes for interpolation"
  const MinimumMultiplier := "Minimum interpolation multiplier is 6x"
  /** The error `masks[pos]` raises for a position before the start of the mask. */
  const MaskIndexError := "index out of range"

  /** Smallest window size the search considers. */
  const MinWindow := 16

  function Min(a: int, b: int): int {
    if a <= b then a else b
  }

  function Abs(x: int): int {
    if x < 0 then -x else x
  }

  // ---------------------------------------------------------------------------
  // Frames and keyframes
  // ---------------------------------------------------------------------------

  /** Length of the interpolated sequence: `m` frames per keyframe gap plus the last keyframe. */
  function TotalFrames(n: int, m: int): int {
    (n - 1) * m + 1
  }

  /** `[i * m for i in range(n)]`. */
  function KeyframePositions(n: nat, m: int): seq<int> {
    seq(n, i => i * m)
  }

  /** The keyframes start at frame 0, are `m` apart, and the last one is the
      last frame of the sequence; with `m >= 1` they all lie inside it. */
  lemma KeyframesSpanSequence(n: nat, m: int)
    requires n >= 1
    ensures var k := KeyframePositions(n, m);
      && k[0] == 0
      && k[n - 1] == TotalFrames(n, m) - 1
      && (forall i :: 0 <= i < n - 1 ==> k[i + 1] == k[i] + m)
      && (m >= 1 ==> forall i :: 0 <= i < n ==> 0 <= k[i] < TotalFrames(n, m))
  {
    var k := KeyframePositions(n, m);
    if m >= 1 {
      forall i | 0 <= i < n
        ensures 0 <= k[i] < TotalFrames(n, m)
      {
        assert k[i] == i * m;
        assert i * m <= (n - 1) * m by { MulMono(i, n - 1, m); }
      }
    }
  }

  lemma MulMono(a: int, b: int, m: int)
    requires 0 <= a <= b && m >= 0
    ensures 0 <= a * m <= b * m
  {
  }

  /** With a positive spacing, a frame is a keyframe exactly when it is a
      multiple of the spacing inside the sequence. */
  lemma KeyframeMembership(n: nat, m: int, f: int)
    requires m >= 1
    ensures f in KeyframePositions(n, m) <==> 0 <= f && f % m == 0 && f / m < n
  {
    var k := KeyframePositions(n, m);
    if f in k {
      var i :| 0 <= i < n && k[i] == f;
      MultipleDiv(m, i);
    }
    if 0 <= f && f % m == 0 && f / m < n {
      var i := f / m;
      assert k[i] == f;
    }
  }

  lemma MultipleDiv(m: int, i: int)
    requires m >= 1
    ensures (i * m) % m == 0 && (i * m) / m == i
  {
    var q, r := (i * m) / m, (i * m) % m;
    assert (i - q) * m == r;
    if i - q >= 1 {
      assert false;
    } else if i - q <= -1 {
      assert false;
    }
  }

  // ---------------------------------------------------------------------------
  // Window size
  // ---------------------------------------------------------------------------

  /** The candidates `spacing * j` for `j` from `j` to 9 that are at least `MinWindow`. */
  function MultipleCandidates(desired: int, spacing: int, j: int): seq<Candidate>
    requires j >= 1
    decreases 10 - j
  {
    if j > 9 then []
    else
      var c := spacing * j;
      (if c >= MinWindow then [Candidate(c, Abs(c - desired), j)] else [])
        + MultipleCandidates(desired, spacing, j + 1)
  }

  /** All candidates, in the order they are appended: the multiples, then the requested size. */
  function Candidates(desired: int, spacing: int): seq<Candidate> {
    MultipleCandidates(desired, spacing, 1) + [Candidate(desired, 0, 0)]
  }

  /** The candidates that do not exceed the sequence, in order. */
  function Fitting(cs: seq<Candidate>, total: int): (r: seq<Candidate>)
    ensures forall i :: 0 <= i < |r| ==> r[i] in cs && r[i].size <= total
    ensures forall c :: c in cs && c.size <= total ==> c in r
  {
    if |cs| == 0 then []
    else (if cs[0].size <= total then [cs[0]] else []) + Fitting(cs[1..], total)
  }

  /** `min(candidates, key=score)`: Python's `min` keeps the first of equal scores. */
  function FirstMinIndex(cs: seq<Candidate>): (i: nat)
    requires |cs| > 0
    ensures i < |cs|
    ensures forall k :: 0 <= k < |cs| ==> cs[i].score <= cs[k].score
    ensures forall k :: 0 <= k < i ==> cs[k].score > cs[i].score
  {
    if |cs| == 1 then 0
    else
      var j := FirstMinIndex(cs[1..]) + 1;
      if cs[0].score <= cs[j].score then 0 else j
  }

  /** The candidate `min` picks: one of the list with the lowest score. */
  function Best(cs: seq<Candidate>): (c: Candidate)
    requires |cs| > 0
    ensures c in cs && forall c' :: c' in cs ==> c.score <= c'.score
  {
    cs[FirstMinIndex(cs)]
  }

  /** `_find_optimal_window_size`. */
  function FindOptimalWindowSize(desired: int, spacing: int, total: int): int {
    var fitting := Fitting(Candidates(desired, spacing), total);
    if |fitting| > 0 then Best(fitting).size
    else Min(desired, total)
  }

  /** `spacing * j` is one of the multiples the search tries and it fits the sequence. */
  predicate ValidMultiple(j: int, spacing: int, total: int) {
    1 <= j <= 9 && MinWindow <= spacing * j <= total
  }

  /** Every candidate scores its distance from the requested size; a multiple
      candidate is `spacing * j` for its `j`, at least `MinWindow`. */
  predicate WellScored(c: Candidate, desired: int, spacing: int) {
    c.score == Abs(c.size - desired)
    && (c.multiplier == 0 ==> c.size == desired)
    && (c.multiplier != 0 ==> 1 <= c.multiplier <= 9 && c.size == spacing * c.multiplier && c.size >= MinWindow)
  }

  /** The candidate for `spacing * j`. */
  function MultipleCandidate(desired: int, spacing: int, j: int): Candidate {
    Candidate(spacing * j, Abs(spacing * j - desired), j)
  }

  lemma {:induction false} MultipleCandidatesFacts(desired: int, spacing: int, j: int)
    requires j >= 1
    ensures var cs := MultipleCandidates(desired, spacing, j);
      && (forall c :: c in cs ==> WellScored(c, desired, spacing) && j <= c.multiplier)
      && (forall j' :: j <= j' <= 9 && spacing * j' >= MinWindow ==> MultipleCandidate(desired, spacing, j') in cs)
    decreases 10 - j
  {
    if j <= 9 {
      MultipleCandidatesFacts(desired, spacing, j + 1);
    }
  }

  /** The fitting candidates are well scored, and hold the requested size when it
      fits and every multiple that fits. */
  lemma FittingFacts(desired: int, spacing: int, total: int)
    ensures var fitting := Fitting(Candidates(desired, spacing), total);
      && (forall c :: c in fitting ==> WellScored(c, desired, spacing) && c.size <= total)
      && (desired <= total ==> Candidate(desired, 0, 0) in fitting)
      && (forall j :: ValidMultiple(j, spacing, total) ==> MultipleCandidate(desired, spacing, j) in fitting)
  {
    var cs := Candidates(desired, spacing);
    var fitting := Fitting(cs, total);
    MultipleCandidatesFacts(desired, spacing, 1);
    forall c | c in fitting
      ensures WellScored(c, desired, spacing) && c.size <= total
    {
      var i :| 0 <= i < |fitting| && fitting[i] == c;
    }
  }

  /** The window size never exceeds the sequence, and the requested size wins
      whenever it fits, since its score is 0. */
  lemma FindOptimalWindowSizeFits(desired: int, spacing: int, total: int)
    ensures FindOptimalWindowSize(desired, spacing, total) <= total
    ensures desired <= total ==> FindOptimalWindowSize(desired, spacing, total) == desired
  {
    var fitting := Fitting(Candidates(desired, spacing), total);
    FittingFacts(desired, spacing, total);
    if |fitting| > 0 {
      var c := Best(fitting);
      assert WellScored(c, desired, spacing);
      if desired <= total {
        assert c.score <= Candidate(desired, 0, 0).score;
      }
    }
  }

  /** When the requested size does not fit, the result is the fitting multiple
      of the spacing closest to it, or the whole sequence when no multiple fits. */
  lemma FindOptimalWindowSizeTooLarge(desired: int, spacing: int, total: int)
    requires desired > total
    ensures var r := FindOptimalWindowSize(desired, spacing, total);
      r == total || MinWindow <= r
    ensures var r := FindOptimalWindowSize(desired, spacing, total);
      || (r == total && forall j :: !ValidMultiple(j, spacing, total))
      || exists j :: ValidMultiple(j, spacing, total) && r == spacing * j
           && forall j' :: ValidMultiple(j', spacing, total) ==> Abs(r - desired) <= Abs(spacing * j' - desired)
  {
    var fitting := Fitting(Candidates(desired, spacing), total);
    FittingFacts(desired, spacing, total);
    if |fitting| > 0 {
      var c := Best(fitting);
      assert WellScored(c, desired, spacing);
      var j := c.multiplier;
      assert ValidMultiple(j, spacing, total);
      forall j' | ValidMultiple(j', spacing, total)
        ensures Abs(c.size - desired) <= Abs(spacing * j' - desired)
      {
        assert c.score <= MultipleCandidate(desired, spacing, j').score;
      }
    }
  }

  // ---------------------------------------------------------------------------
  // Windows
  // ---------------------------------------------------------------------------

  /** The loop of `_calculate_window_boundaries` terminates: either the
      window is longer than the overlap, so every step advances, or one
      window covers the whole sequence. */
  predicate Advances(total: int, windowSize: int, overlap: int) {
    overlap < windowSize || windowSize >= total
  }

  /** `_calculate_window_boundaries`, from the window starting at `start` on. */
  function Windows(start: int, total: int, windowSize: int, overlap: int): seq<Window>
    requires start >= 0 && Advances(total, windowSize, overlap)
    decreases total - start
  {
    if start >= total then []
    else
      var end := Min(start + windowSize, total);
      if end >= total then [Window(start, end)]
      else [Window(start, end)] + Windows(end - overlap, total, windowSize, overlap)
  }

  /** Consecutive windows: each full-sized, ending before the sequence does, and the next starting `overlap` frames before its end. */
  predicate Chained(w: seq<Window>, total: int, windowSize: int, overlap: int) {
    forall i :: 0 <= i < |w| - 1 ==>
      w[i].end - w[i].start == windowSize && w[i].end < total && w[i + 1].start == w[i].end - overlap
  }

  /** Every window is a non-empty range inside the sequence, no longer than the window size. */
  predicate InRange(w: seq<Window>, from: int, total: int, windowSize: int) {
    forall i :: 0 <= i < |w| ==> from <= w[i].start < w[i].end <= total && w[i].end - w[i].start <= windowSize
  }

  /** The windows start at `start`, the last one ends at the last frame, and
      all but the last have the full window size and overlap their successor. */
  lemma {:induction false} WindowsShape(start: int, total: int, windowSize: int, overlap: int)
    requires start >= 0 && Advances(total, windowSize, overlap) && windowSize >= 1 && overlap >= 0
    ensures var w := Windows(start, total, windowSize, overlap);
      && (start >= total <==> w == [])
      && (start < total ==> w[0].start == start && w[|w| - 1].end == total)
      && InRange(w, start, total, windowSize)
      && Chained(w, total, windowSize, overlap)
    decreases total - start
  {
    var w := Windows(start, total, windowSize, overlap);
    if start < total {
      var end := Min(start + windowSize, total);
      if end < total {
        var next := end - overlap;
        var rest := Windows(next, total, windowSize, overlap);
        WindowsShape(next, total, windowSize, overlap);
        assert w == [Window(start, end)] + rest;
        WindowsCons(Window(start, end), rest, total, windowSize, overlap);
      }
    }
  }

  /** A full-sized window before a chain that starts `overlap` frames before
      its end extends the chain. */
  lemma WindowsCons(first: Window, rest: seq<Window>, total: int, windowSize: int, overlap: int)
    requires first.end - first.start == windowSize && first.end < total && 0 <= overlap < windowSize
    requires rest != [] && rest[0].start == first.end - overlap
    requires InRange(rest, first.end - overlap, total, windowSize) && Chained(rest, total, windowSize, overlap)
    ensures InRange([first] + rest, first.start, total, windowSize) && Chained([first] + rest, total, windowSize, overlap)
  {
    var w := [first] + rest;
    forall i | 0 <= i < |w| - 1
      ensures w[i].end - w[i].start == windowSize && w[i].end < total && w[i + 1].start == w[i].end - overlap
    {
      if i > 0 {
        assert w[i] == rest[i - 1] && w[i + 1] == rest[i];
      }
    }
    forall i | 0 <= i < |w|
      ensures first.start <= w[i].start < w[i].end <= total && w[i].end - w[i].start <= windowSize
    {
      if i > 0 {
        assert w[i] == rest[i - 1];
      }
    }
  }

  // ---------------------------------------------------------------------------
  // Alignment quality
  // ---------------------------------------------------------------------------

  /** How many of the windows' starts and ends are keyframe positions. */
  function Hits(windows: seq<Window>, keys: seq<int>): nat {
    if |windows| == 0 then 0
    else
      (if windows[0].start in keys then 1 else 0) + (if windows[0].end in keys then 1 else 0)
        + Hits(windows[1..], keys)
  }

  /** Every start and every end of the windows is a keyframe position. */
  predicate AllAligned(windows: seq<Window>, keys: seq<int>) {
    forall i :: 0 <= i < |windows| ==> windows[i].start in keys && windows[i].end in keys
  }

  /** No start and no end of the windows is a keyframe position. */
  predicate NoneAligned(windows: seq<Window>, keys: seq<int>) {
    forall i :: 0 <= i < |windows| ==> windows[i].start !in keys && windows[i].end !in keys
  }

  /** Each window contributes at most two hits, and exactly two (or none)
      for every window exactly when all (or none) of the boundaries align. */
  lemma {:induction false} HitsBounds(windows: seq<Window>, keys: seq<int>)
    ensures Hits(windows, keys) <= 2 * |windows|
    ensures Hits(windows, keys) == 2 * |windows| <==> AllAligned(windows, keys)
    ensures Hits(windows, keys) == 0 <==> NoneAligned(windows, keys)
  {
    if |windows| > 0 {
      var rest := windows[1..];
      HitsBounds(rest, keys);
      assert forall i :: 0 < i < |windows| ==> windows[i] == rest[i - 1];
      if AllAligned(rest, keys) && windows[0].start in keys && windows[0].end in keys {
        forall i | 0 <= i < |windows|
          ensures windows[i].start in keys && windows[i].end in keys
        {
          if i > 0 {
            assert windows[i] == rest[i - 1];
          }
        }
      }
      if NoneAligned(rest, keys) && windows[0].start !in keys && windows[0].end !in keys {
        forall i | 0 <= i < |windows|
          ensures windows[i].start !in keys && windows[i].end !in keys
        {
          if i > 0 {
            assert windows[i] == rest[i - 1];
          }
        }
      }
    }
  }

  /** `_assess_alignment_quality`. */
  function AlignmentQuality(windows: seq<Window>, keys: seq<int>): real {
    if |windows| == 0 || |keys| == 0 then 0.0
    else (Hits(windows, keys) as real) / ((2 * |windows|) as real)
  }

  /** The quality lies in [0, 1]. */
  lemma AlignmentQualityRange(windows: seq<Window>, keys: seq<int>)
    ensures 0.0 <= AlignmentQuality(windows, keys) <= 1.0
  {
    if |windows| > 0 && |keys| > 0 {
      HitsBounds(windows, keys);
      RatioBounds(Hits(windows, keys) as real, (2 * |windows|) as real);
    }
  }

  /** With windows and keyframes, the quality is 1 exactly when every
      boundary is a keyframe. */
  lemma AlignmentQualityPerfect(windows: seq<Window>, keys: seq<int>)
    requires |windows| > 0 && |keys| > 0
    ensures AlignmentQuality(windows, keys) == 1.0 <==> AllAligned(windows, keys)
  {
    HitsBounds(windows, keys);
    RatioBounds(Hits(windows, keys) as real, (2 * |windows|) as real);
  }

  /** With windows and keyframes, the quality is 0 exactly when no boundary
      is a keyframe. */
  lemma AlignmentQualityNone(windows: seq<Window>, keys: seq<int>)
    requires |windows| > 0 && |keys| > 0
    ensures AlignmentQuality(windows, keys) == 0.0 <==> NoneAligned(windows, keys)
  {
    HitsBounds(windows, keys);
    RatioBounds(Hits(windows, keys) as real, (2 * |windows|) as real);
  }

  lemma RatioBounds(h: real, d: real)
    requires 0.0 <= h <= d && d > 0.0
    ensures 0.0 <= h / d <= 1.0
    ensures h / d == 1.0 <==> h == d
    ensures h / d == 0.0 <==> h == 0.0
  {
    var q := h / d;
    assert q * d == h;
  }

  // ---------------------------------------------------------------------------
  // Alignment
  // ---------------------------------------------------------------------------

  /** The window size the schedule uses. */
  function ChosenWindowSize(totalFrames: int, multiplier: int, contextWindowSize: int, forceAlignment: bool): int {
    if forceAlignment then FindOptimalWindowSize(contextWindowSize, multiplier, totalFrames)
    else contextWindowSize
  }

  /** `calculate_optimal_alignment`; the window loop must advance. */
  function CalculateOptimalAlignment(n: nat, m: int, contextWindowSize: int, overlap: int, forceAlignment: bool): Schedule
    requires Advances(TotalFrames(n, m), ChosenWindowSize(TotalFrames(n, m), m, contextWindowSize, forceAlignment), overlap)
  {
    var total := TotalFrames(n, m);
    var keys := KeyframePositions(n, m);
    var size := ChosenWindowSize(total, m, contextWindowSize, forceAlignment);
    var windows := Windows(0, total, size, overlap);
    Schedule(total, keys, m, size, windows, AlignmentQuality(windows, keys))
  }

  // ---------------------------------------------------------------------------
  // Mask
  // ---------------------------------------------------------------------------

  /** The mask index a keyframe position writes: Python counts a negative
      position from the end. */
  predicate Marks(pos: int, f: int, len: int) {
    -len <= pos < len && (if pos >= 0 then pos else pos + len) == f
  }

  /** Some position of `keys` marks frame `f` of a mask of length `len`. */
  predicate Marked(keys: seq<int>, f: int, len: int) {
    exists i :: 0 <= i < |keys| && Marks(keys[i], f, len)
  }

  /** The loop of `create_interpolation_masks` over the remaining positions:
      a position at or past the end is skipped, one before `-len` raises. */
  function MarkKeyframes(mask: seq<real>, keys: seq<int>): Option<seq<real>>
    decreases |keys|
  {
    if |keys| == 0 then Some(mask)
    else
      var pos := keys[0];
      if pos >= |mask| then MarkKeyframes(mask, keys[1..])
      else if pos < -|mask| then None
      else MarkKeyframes(mask[if pos >= 0 then pos else pos + |mask| := 0.0], keys[1..])
  }

  /** Marking fails exactly when some position lies before `-len`; otherwise
      it zeroes exactly the frames some position marks and keeps the rest. */
  lemma {:induction false} MarkKeyframesSpec(mask: seq<real>, keys: seq<int>)
    ensures MarkKeyframes(mask, keys).Some? <==> forall i :: 0 <= i < |keys| ==> keys[i] >= -|mask|
    ensures MarkKeyframes(mask, keys).Some? ==>
      var r := MarkKeyframes(mask, keys).value;
      && |r| == |mask|
      && forall f :: 0 <= f < |r| ==> r[f] == if Marked(keys, f, |mask|) then 0.0 else mask[f]
    decreases |keys|
  {
    if |keys| > 0 {
      var pos := keys[0];
      var rest := keys[1..];
      assert forall i :: 0 < i < |keys| ==> keys[i] == rest[i - 1];
      MarkedCons(keys, |mask|);
      if pos >= |mask| {
        MarkKeyframesSpec(mask, rest);
      } else if pos >= -|mask| {
        var idx := if pos >= 0 then pos else pos + |mask|;
        var mask' := mask[idx := 0.0];
        MarkKeyframesSpec(mask', rest);
      }
    }
  }

  /** Frame `f` is marked by the first position or by one of the rest. */
  lemma MarkedCons(keys: seq<int>, len: int)
    requires |keys| > 0
    ensures forall f :: Marked(keys, f, len) <==> Marks(keys[0], f, len) || Marked(keys[1..], f, len)
  {
    var rest := keys[1..];
    forall f | Marked(keys, f, len)
      ensures Marks(keys[0], f, len) || Marked(rest, f, len)
    {
      var i :| 0 <= i < |keys| && Marks(keys[i], f, len);
      if i > 0 {
        assert rest[i - 1] == keys[i];
      }
    }
    forall f | Marked(rest, f, len)
      ensures Marked(keys, f, len)
    {
      var i :| 0 <= i < |rest| && Marks(rest[i], f, len);
      assert keys[i + 1] == rest[i];
    }
  }

  /** `create_interpolation_masks`: `torch.ones(total_frames)` refuses a negative length. */
  function InterpolationMask(total: int, keys: seq<int>): Option<seq<real>> {
    if total < 0 then None
    else MarkKeyframes(seq(total, _ => 1.0), keys)
  }

  /** For the keyframes of a schedule the mask exists, has one entry per frame,
      and is 0 exactly on the multiples of the spacing, 1 elsewhere. */
  lemma KeyframeMask(n: nat, m: int)
    requires n >= 1 && m >= 1
    ensures var total := TotalFrames(n, m);
      var r := InterpolationMask(total, KeyframePositions(n, m));
      && r.Some? && |r.value| == total
      && forall f :: 0 <= f < total ==> r.value[f] == if f % m == 0 then 0.0 else 1.0
  {
    var total := TotalFrames(n, m);
    var keys := KeyframePositions(n, m);
    assert total >= 1 by { MulMono(0, n - 1, m); }
    var ones := seq(total, _ => 1.0);
    KeyframesSpanSequence(n, m);
    MarkKeyframesSpec(ones, keys);
    var r := MarkKeyframes(ones, keys).value;
    forall f | 0 <= f < total
      ensures r[f] == if f % m == 0 then 0.0 else 1.0
    {
      KeyframeMembership(n, m, f);
      if f % m == 0 {
        assert f / m < n by { DivBelow(f, m, n); }
        var i :| 0 <= i < n && keys[i] == f;
        assert Marks(keys[i], f, total);
        assert Marked(keys, f, total);
      } else {
      }
    }
  }

  lemma DivBelow(f: int, m: int, n: int)
    requires m >= 1 && n >= 1 && 0 <= f < (n - 1) * m + 1
    ensures f / m < n
  {
    assert f < n * m;
  }

  // ---------------------------------------------------------------------------
  // Processing
  // ---------------------------------------------------------------------------

  /** `process` without the encoder call: the two input checks, in order, then
      the schedule and the mask. The declared input ranges give a window size
      of at least `MinWindow` and an overlap below it. */
  function Process(n: nat, m: int, contextWindowSize: int, overlap: int, forceAlignment: bool): Result<Output, string>
    requires MinWindow <= contextWindowSize && 0 <= overlap < MinWindow
  {
    if n < 2 then Failure(NeedTwoKeyframes)
    else if m < 6 then Failure(MinimumMultiplier)
    else
      ChosenSizeAdvances(n, m, contextWindowSize, overlap, forceAlignment);
      var schedule := CalculateOptimalAlignment(n, m, contextWindowSize, overlap, forceAlignment);
      match InterpolationMask(schedule.totalFrames, schedule.keyframePositions)
      case None => Failure(MaskIndexError)
      case Some(masks) => Success(Output(schedule, masks))
  }

  /** Under the declared input ranges the chosen window size lets the window loop advance. */
  lemma ChosenSizeAdvances(n: nat, m: int, contextWindowSize: int, overlap: int, forceAlignment: bool)
    requires n >= 1 && m >= 1
    requires MinWindow <= contextWindowSize && 0 <= overlap < MinWindow
    ensures var total := TotalFrames(n, m);
      && Advances(total, ChosenWindowSize(total, m, contextWindowSize, forceAlignment), overlap)
      && ChosenWindowSize(total, m, contextWindowSize, forceAlignment) >= 1
  {
    var total := TotalFrames(n, m);
    assert total >= 1 by { MulMono(0, n - 1, m); }
    if forceAlignment {
      FindOptimalWindowSizeFits(contextWindowSize, m, total);
      if contextWindowSize > total {
        FindOptimalWindowSizeTooLarge(contextWindowSize, m, total);
      }
    }
  }

  /** The schedule covers the whole sequence: its windows run from frame 0
      to the last frame, each inside it and no longer than the window size,
      all but the last full-sized and overlapping the next; the quality
      lies in [0, 1]. */
  lemma ScheduleShape(n: nat, m: int, contextWindowSize: int, overlap: int, forceAlignment: bool)
    requires n >= 1 && m >= 1
    requires MinWindow <= contextWindowSize && 0 <= overlap < MinWindow
    ensures Advances(TotalFrames(n, m), ChosenWindowSize(TotalFrames(n, m), m, contextWindowSize, forceAlignment), overlap)
    ensures var s := CalculateOptimalAlignment(n, m, contextWindowSize, overlap, forceAlignment);
      && s.totalFrames == (n - 1) * m + 1
      && s.keyframePositions[n - 1] == s.totalFrames - 1
      && |s.windows| >= 1
      && s.windows[0].start == 0
      && s.windows[|s.windows| - 1].end == s.totalFrames
      && InRange(s.windows, 0, s.totalFrames, s.optimalWindowSize)
      && Chained(s.windows, s.totalFrames, s.optimalWindowSize, overlap)
      && 0.0 <= s.alignmentQuality <= 1.0
  {
    ChosenSizeAdvances(n, m, contextWindowSize, overlap, forceAlignment);
    var s := CalculateOptimalAlignment(n, m, contextWindowSize, overlap, forceAlignment);
    KeyframesSpanSequence(n, m);
    assert s.totalFrames >= 1 by { MulMono(0, n - 1, m); }
    WindowsShape(0, s.totalFrames, s.optimalWindowSize, overlap);
    AlignmentQualityRange(s.windows, s.keyframePositions);
  }

  /** The mask of a schedule is 0 exactly on its keyframes. */
  lemma KeyframeMaskMembership(n: nat, m: int)
    requires n >= 1 && m >= 1
    ensures var total := TotalFrames(n, m);
      var r := InterpolationMask(total, KeyframePositions(n, m));
      && r.Some? && |r.value| == total
      && forall f :: 0 <= f < total ==> (r.value[f] == 0.0 <==> f in KeyframePositions(n, m))
  {
    var total := TotalFrames(n, m);
    KeyframeMask(n, m);
    var r := InterpolationMask(total, KeyframePositions(n, m)).value;
    forall f | 0 <= f < total
      ensures r[f] == 0.0 <==> f in KeyframePositions(n, m)
    {
      KeyframeMembership(n, m, f);
      if f % m == 0 {
        DivBelow(f, m, n);
      }
    }
  }

  /** `process` rejects fewer than two keyframes first, then a multiplier
      below 6, and otherwise never fails: it returns the optimal alignment
      of the whole sequence and a mask that is 0 exactly on the keyframes. */
  lemma ProcessOutcome(n: nat, m: int, contextWindowSize: int, overlap: int, forceAlignment: bool)
    requires MinWindow <= contextWindowSize && 0 <= overlap < MinWindow
    ensures n >= 2 && m >= 6 ==>
      var total := TotalFrames(n, m);
      Advances(total, ChosenWindowSize(total, m, contextWindowSize, forceAlignment), overlap)
    ensures var r := Process(n, m, contextWindowSize, overlap, forceAlignment);
      && (n < 2 <==> r == Failure(NeedTwoKeyframes))
      && (n >= 2 && m < 6 <==> r == Failure(MinimumMultiplier))
      && (n >= 2 && m >= 6 ==>
            && r.Success?
            && r.value.schedule == CalculateOptimalAlignment(n, m, contextWindowSize, overlap, forceAlignment)
            && r.value.schedule.totalFrames == (n - 1) * m + 1
            && r.value.schedule.keyframePositions == KeyframePositions(n, m)
            && |r.value.masks| == r.value.schedule.totalFrames
            && forall f :: 0 <= f < r.value.schedule.totalFrames ==>
                 (r.value.masks[f] == 0.0 <==> f in r.value.schedule.keyframePositions))
  {
    if n >= 2 && m >= 6 {
      ChosenSizeAdvances(n, m, contextWindowSize, overlap, forceAlignment);
      KeyframeMaskMembership(n, m);
    }
  }
}
