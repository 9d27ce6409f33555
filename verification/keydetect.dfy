/**
 * Key detection of the audio analyser (the Krumhansl-Schmuckler rule): the
 * average chroma vector is rotated to each of the 12 tonics and correlated
 * with the major and the minor key profile; the first best of the 24
 * candidates names the key, and a chroma whose correlations are all NaN
 * gives C major.
 *
 * The Pearson correlation is an input: a function that returns `None` where
 * NumPy returns NaN. The chroma extraction and the tempo estimate are not
 * part of this model.
 */
module KeyDetection {
  import opened Wrappers
  import opened Text

  /** `PITCH_CLASSES`. */
  const PitchClasses: seq<string> := ["C", "C#", "D", "D#", "E", "F", "F#", "G", "G#", "A", "A#", "B"]

  /** `MAJOR_PROFILE`. */
  const MajorProfile: seq<real> := [6.35, 2.23, 3.48, 2.33, 4.38, 4.09, 2.52, 5.19, 2.39, 3.66, 2.29, 2.88]

  /** `MINOR_PROFILE`. */
  const MinorProfile: seq<real> := [6.33, 2.68, 3.52, 5.38, 2.60, 3.53, 2.54, 4.75, 3.98, 2.69, 3.34, 3.17]

  /** The length of a chroma vector and of each profile. */
  const PitchCount := 12

  /** The number of (tonic, scale) candidates the scan visits. */
  const CandidateCount := 24

  /** A key name and a scale, as `detect_key` returns them. */
  datatype Key = Key(name: string, scale: string)

  /** What `analyze_audio` reports about the key. */
  datatype KeyAnalysis = KeyAnalysis(key: string, scale: string, keyscale: string)

  /** The correlation of two vectors; `None` stands for NaN. */
  type Correlation = (seq<real>, seq<real>) -> Option<real>

  // ---------------------------------------------------------------------------
  // Rotation
  // ---------------------------------------------------------------------------

  /** `np.roll(v, k)` on a chroma vector: element `i` moves to position
      `(i + k) mod 12`, so the result starts with element `(-k) mod 12`. */
  function Roll(v: seq<real>, k: int): (r: seq<real>)
    requires |v| == PitchCount
  {
    var s := (-k) % PitchCount;
    v[s..] + v[..s]
  }

  lemma RollIndex(v: seq<real>, k: int, j: int)
    requires |v| == PitchCount && 0 <= j < PitchCount
    ensures |Roll(v, k)| == PitchCount && Roll(v, k)[j] == v[(j - k) % PitchCount]
  {
    var s := (-k) % PitchCount;
    RollOffset(k, j);
    if j < PitchCount - s {
      assert Roll(v, k)[j] == v[s + j];
    } else {
      assert Roll(v, k)[j] == v[s + j - PitchCount];
    }
  }

  /** Where position `j` of a roll by `k` reads from. */
  lemma RollOffset(k: int, j: int)
    requires 0 <= j < PitchCount
    ensures var s := (-k) % PitchCount;
      && (j < PitchCount - s ==> (j - k) % PitchCount == s + j)
      && (j >= PitchCount - s ==> (j - k) % PitchCount == s + j - PitchCount)
  {
  }

  /** Rolling back by `shift` reads the vector from position `shift` on:
      element `i` of the result is element `(i + shift) mod 12` of the input. */
  lemma RollBack(v: seq<real>, shift: int)
    requires |v| == PitchCount
    ensures var r := Roll(v, -shift);
      |r| == PitchCount && forall i :: 0 <= i < PitchCount ==> r[i] == v[(i + shift) % PitchCount]
  {
    var r := Roll(v, -shift);
    forall i | 0 <= i < PitchCount
      ensures r[i] == v[(i + shift) % PitchCount]
    {
      RollIndex(v, -shift, i);
    }
  }

  lemma ModCompose(a: int, b: int, j: int)
    ensures ((j - b) % PitchCount - a) % PitchCount == (j - (a + b)) % PitchCount
  {
  }

  /** Rolling by `a` and then by `b` rolls by `a + b`. */
  lemma RollCompose(v: seq<real>, a: int, b: int)
    requires |v| == PitchCount
    ensures |Roll(v, a)| == PitchCount && Roll(Roll(v, a), b) == Roll(v, a + b)
  {
    forall j | 0 <= j < PitchCount
      ensures Roll(Roll(v, a), b)[j] == Roll(v, a + b)[j]
    {
      RollIndex(v, a, (j - b) % PitchCount);
      RollIndex(Roll(v, a), b, j);
      RollIndex(v, a + b, j);
      ModCompose(a, b, j);
    }
  }

  /** Rolling back undoes a roll, and a roll by 0 changes nothing. */
  lemma RollInverse(v: seq<real>, k: int)
    requires |v| == PitchCount
    ensures Roll(v, 0) == v
    ensures |Roll(v, k)| == PitchCount && Roll(Roll(v, k), -k) == v
  {
    RollCompose(v, k, -k);
    assert Roll(v, 0) == v;
  }

  // ---------------------------------------------------------------------------
  // Candidates
  // ---------------------------------------------------------------------------

  /** The profile candidate `k` is correlated with: even candidates use the
      major profile, odd ones the minor. */
  function Profile(k: int): seq<real> {
    if k % 2 == 0 then MajorProfile else MinorProfile
  }

  /** The scores of the 24 candidates in scan order: candidate `2 * shift`
      is (shift, major) and `2 * shift + 1` is (shift, minor). */
  function Scores(chroma: seq<real>, corr: Correlation): (r: seq<Option<real>>)
    requires |chroma| == PitchCount
    ensures |r| == CandidateCount
  {
    seq(CandidateCount, k => corr(Roll(chroma, -(k / 2)), Profile(k)))
  }

  /** The key candidate `k` stands for. */
  function Label(k: int): Key
    requires 0 <= k < CandidateCount
  {
    Key(PitchClasses[k / 2], if k % 2 == 0 then "major" else "minor")
  }

  /** The running best of the scan over the first `n` scores: a score
      replaces the best only when it is greater; NaN never does, and
      anything beats the initial minus infinity. */
  function BestUpTo(scores: seq<Option<real>>, n: nat): (b: Option<nat>)
    requires n <= |scores|
    ensures b.Some? ==> b.value < n && scores[b.value].Some?
  {
    if n == 0 then None
    else
      var b := BestUpTo(scores, n - 1);
      if scores[n - 1].Some? && (b.None? || scores[n - 1].value > scores[b.value].value) then Some(n - 1)
      else b
  }

  /** `k` is the first of the highest non-NaN scores among the first `n`. */
  predicate IsFirstMax(scores: seq<Option<real>>, n: nat, k: nat)
    requires n <= |scores|
  {
    && k < n
    && scores[k].Some?
    && (forall j :: 0 <= j < n && scores[j].Some? ==> scores[j].value <= scores[k].value)
    && (forall j :: 0 <= j < k && scores[j].Some? ==> scores[j].value < scores[k].value)
  }

  /** The scan finds nothing exactly when every score is NaN, and otherwise
      finds exactly the first of the highest scores. */
  lemma {:induction false} BestUpToSpec(scores: seq<Option<real>>, n: nat)
    requires n <= |scores|
    ensures BestUpTo(scores, n).None? <==> forall j :: 0 <= j < n ==> scores[j].None?
    ensures forall k: nat :: BestUpTo(scores, n) == Some(k) <==> IsFirstMax(scores, n, k)
  {
    if n > 0 {
      BestUpToSpec(scores, n - 1);
      var b := BestUpTo(scores, n - 1);
      if b.Some? {
        assert IsFirstMax(scores, n - 1, b.value);
      }
      forall k: nat | IsFirstMax(scores, n, k)
        ensures BestUpTo(scores, n) == Some(k)
      {
        FirstMaxUnique(scores, n, k, BestUpTo(scores, n));
      }
    }
  }

  /** The first of the highest scores is unique, and the scan's answer after
      one more score is one. */
  lemma FirstMaxUnique(scores: seq<Option<real>>, n: nat, k: nat, b: Option<nat>)
    requires 0 < n <= |scores| && IsFirstMax(scores, n, k)
    requires b == BestUpTo(scores, n)
    requires forall k': nat :: BestUpTo(scores, n - 1) == Some(k') <==> IsFirstMax(scores, n - 1, k')
    requires BestUpTo(scores, n - 1).None? <==> forall j :: 0 <= j < n - 1 ==> scores[j].None?
    ensures b == Some(k)
  {
    var prev := BestUpTo(scores, n - 1);
    if k == n - 1 {
      if prev.Some? {
        assert IsFirstMax(scores, n - 1, prev.value);
      }
    } else {
      assert IsFirstMax(scores, n - 1, k);
    }
  }

  /** `detect_key`'s answer for a scan result. */
  function Selected(b: Option<nat>): Key
    requires b.Some? ==> b.value < CandidateCount
  {
    match b
    case None => Key("C", "major")
    case Some(k) => Label(k)
  }

  // ---------------------------------------------------------------------------
  // Detection
  // ---------------------------------------------------------------------------

  /** The scan state after `n` scores: nothing found yet means minus
      infinity and C major, otherwise the best score and its label. */
  predicate Tracks(scores: seq<Option<real>>, n: nat, bestCorr: Option<real>, key: Key)
    requires n <= |scores| <= CandidateCount
  {
    var b := BestUpTo(scores, n);
    && (b.None? ==> bestCorr.None? && key == Key("C", "major"))
    && (b.Some? ==> bestCorr == scores[b.value] && key == Label(b.value))
  }

  /** One comparison of the scan keeps the state in step with `BestUpTo`. */
  lemma TracksStep(scores: seq<Option<real>>, n: nat, bestCorr: Option<real>, key: Key)
    requires n < |scores| <= CandidateCount && Tracks(scores, n, bestCorr, key)
    ensures var c := scores[n];
      var better := c.Some? && (bestCorr.None? || c.value > bestCorr.value);
      Tracks(scores, n + 1, if better then c else bestCorr, if better then Label(n) else key)
  {
  }

  /** The two scores and labels of one shift. */
  lemma ShiftCandidates(chroma: seq<real>, corr: Correlation, shift: int)
    requires |chroma| == PitchCount && 0 <= shift < PitchCount
    ensures Scores(chroma, corr)[2 * shift] == corr(Roll(chroma, -shift), MajorProfile)
    ensures Scores(chroma, corr)[2 * shift + 1] == corr(Roll(chroma, -shift), MinorProfile)
    ensures Label(2 * shift) == Key(PitchClasses[shift], "major")
    ensures Label(2 * shift + 1) == Key(PitchClasses[shift], "minor")
  {
  }

  /** No two pitch class names coincide. */
  lemma PitchClassesDistinct()
    ensures forall a, b :: 0 <= a < b < PitchCount ==> PitchClasses[a] != PitchClasses[b]
  {
    forall a, b | 0 <= a < b < PitchCount
      ensures PitchClasses[a] != PitchClasses[b]
    {
      if PitchClasses[a] == PitchClasses[b] {
        assert false;
      }
    }
  }

  /** The scan visits each of the 24 keys exactly once: the major and minor
      keys of pitch class `p` are candidates `2 * p` and `2 * p + 1`, and no
      two candidates carry the same key. */
  lemma {:induction false} ScanVisitsEveryKeyOnce()
    ensures forall p :: 0 <= p < PitchCount ==>
      Label(2 * p) == Key(PitchClasses[p], "major") && Label(2 * p + 1) == Key(PitchClasses[p], "minor")
    ensures forall i, j :: 0 <= i < j < CandidateCount ==> Label(i) != Label(j)
  {
    PitchClassesDistinct();
    forall p | 0 <= p < PitchCount
      ensures Label(2 * p) == Key(PitchClasses[p], "major") && Label(2 * p + 1) == Key(PitchClasses[p], "minor")
    {
      assert (2 * p) / 2 == p && (2 * p) % 2 == 0;
      assert (2 * p + 1) / 2 == p && (2 * p + 1) % 2 == 1;
    }
    forall i, j | 0 <= i < j < CandidateCount
      ensures Label(i) != Label(j)
    {
      var a, b := i / 2, j / 2;
      assert i == 2 * a + i % 2 && j == 2 * b + j % 2;
      if a == b {
        assert i % 2 != j % 2;
      } else {
        assert a < b && PitchClasses[a] != PitchClasses[b];
      }
    }
  }

  /** `detect_key`: for each shift, the major then the minor profile, each
      replacing the best only with a strictly greater correlation. The
      profiles have 12 entries, and `np.corrcoef` refuses vectors of
      different lengths. */
  method DetectKey(chroma: seq<real>, corr: Correlation) returns (key: Key)
    requires |chroma| == PitchCount
    ensures key == Selected(BestUpTo(Scores(chroma, corr), CandidateCount))
  {
    ghost var scores := Scores(chroma, corr);
    var bestCorr: Option<real> := None;
    key := Key("C", "major");
    var shift := 0;
    while shift < PitchCount
      invariant 0 <= shift <= PitchCount
      invariant Tracks(scores, 2 * shift, bestCorr, key)
    {
      ShiftCandidates(chroma, corr, shift);
      var rotated := Roll(chroma, -shift);
      var corrMajor := corr(rotated, MajorProfile);
      TracksStep(scores, 2 * shift, bestCorr, key);
      if corrMajor.Some? && (bestCorr.None? || corrMajor.value > bestCorr.value) {
        bestCorr := corrMajor;
        key := Key(PitchClasses[shift], "major");
      }
      var corrMinor := corr(rotated, MinorProfile);
      TracksStep(scores, 2 * shift + 1, bestCorr, key);
      if corrMinor.Some? && (bestCorr.None? || corrMinor.value > bestCorr.value) {
        bestCorr := corrMinor;
        key := Key(PitchClasses[shift], "minor");
      }
      shift := shift + 1;
    }
  }

  /** `detect_key` answers C major exactly when every correlation is NaN or
      a best candidate is itself C major; otherwise its answer is the label
      of the first highest-scoring candidate, a pitch class with `major` or
      `minor`. */
  lemma SelectedKey(scores: seq<Option<real>>)
    requires |scores| == CandidateCount
    ensures var key := Selected(BestUpTo(scores, CandidateCount));
      && key.name in PitchClasses
      && (key.scale == "major" || key.scale == "minor")
      && ((forall j :: 0 <= j < CandidateCount ==> scores[j].None?) ==> key == Key("C", "major"))
      && ((exists j :: 0 <= j < CandidateCount && scores[j].Some?) ==>
            exists k: nat :: IsFirstMax(scores, CandidateCount, k) && key == Label(k))
  {
    BestUpToSpec(scores, CandidateCount);
    var b := BestUpTo(scores, CandidateCount);
    if b.Some? {
      assert IsFirstMax(scores, CandidateCount, b.value);
    }
  }

  // ---------------------------------------------------------------------------
  // Key and scale text
  // ---------------------------------------------------------------------------

  /** `f"{key} {scale}"`. */
  function Keyscale(key: Key): string {
    key.name + " " + key.scale
  }

  /** No pitch-class name holds a space. */
  lemma PitchClassesHaveNoSpace()
    ensures forall i :: 0 <= i < |PitchClasses| ==> ' ' !in PitchClasses[i]
  {
  }

  /** The key text splits at its one space back into key and scale. */
  lemma KeyscaleSplits(key: Key)
    requires ' ' !in key.name && ' ' !in key.scale
    ensures Split(Keyscale(key), ' ') == [key.name, key.scale]
  {
    assert Keyscale(key) == key.name + [' '] + key.scale;
    SplitAround(key.name, key.scale, ' ');
    SplitNoSeparator(key.name, ' ');
    SplitNoSeparator(key.scale, ' ');
  }

  /** The key part of `analyze_audio`. */
  method AnalyzeKey(chroma: seq<real>, corr: Correlation) returns (r: KeyAnalysis)
    requires |chroma| == PitchCount
    ensures var key := Selected(BestUpTo(Scores(chroma, corr), CandidateCount));
      && r.key == key.name && r.scale == key.scale
      && Split(r.keyscale, ' ') == [r.key, r.scale]
  {
    var key := DetectKey(chroma, corr);
    SelectedKey(Scores(chroma, corr));
    PitchClassesHaveNoSpace();
    KeyscaleSplits(key);
    r := KeyAnalysis(key.name, key.scale, Keyscale(key));
  }
}
