/**
 * The path sanitiser of `allergic_utils.sanitize_path` and the Master
 * Batcher's near-copy of it.  The two differ only in the characters they
 * delete, so both are one pipeline, `Sanitize`, parameterised by that string:
 *
 *   strip, unquote one layer, keep a drive letter, delete forbidden and
 *   control characters, collapse spaces, strip, turn `/` into `\`, collapse
 *   backslashes, right-strip `.` and space from each component, drop empty
 *   components, join, and return "" when the result is blank.
 */
module PathSanitizer {
  import opened Text

  /** The characters `allergic_utils.sanitize_path` deletes. */
  const UtilsForbidden: string := "<>\"|?*"

  /** The characters the Master Batcher's copy deletes. */
  const BatcherForbidden: string := "<>\"|?*`!@#$%^&+={}[];,~"

  /** Code points 0-31 and 127-159, which both sanitisers drop. */
  predicate IsControl(c: char) {
    c as int <= 31 || 127 <= c as int <= 159
  }

  predicate IsAsciiLetter(c: char) {
    'A' <= c <= 'Z' || 'a' <= c <= 'z'
  }

  lemma LetterNotWhitespace(c: char)
    requires IsAsciiLetter(c)
    ensures !IsPyWhitespace(c)
  {
  }

  predicate IsDotOrSpace(c: char) {
    c == '.' || c == ' '
  }

  /** A forbidden set that leaves the drive prefix `X:\` intact. */
  predicate ForbiddenIsSafe(forbidden: string) {
    forall i :: 0 <= i < |forbidden| ==> !IsAsciiLetter(forbidden[i]) && forbidden[i] != ':' && forbidden[i] != '\\'
  }

  lemma UtilsForbiddenIsSafe()
    ensures ForbiddenIsSafe(UtilsForbidden)
  {
  }

  lemma BatcherForbiddenIsSafe()
    ensures ForbiddenIsSafe(BatcherForbidden)
  {
  }

  // ---------------------------------------------------------------------------
  // Quotes and the drive letter

  /** Starts and ends with the same quote character (one character counts). */
  predicate IsQuoted(s: string) {
    |s| >= 1 && ((s[0] == '"' && s[|s| - 1] == '"') || (s[0] == '\'' && s[|s| - 1] == '\''))
  }

  /** `s[1:-1]` when `s` is quoted, `s` otherwise. */
  function Unquote(s: string): string {
    if !IsQuoted(s) then s
    else if |s| == 1 then []
    else s[1..|s| - 1]
  }

  /** Unquoting only removes characters. */
  lemma UnquoteChars(s: string)
    ensures Chars(Unquote(s)) <= Chars(s)
  {
    var r := Unquote(s);
    forall c | c in r ensures c in s {
      var i :| 0 <= i < |r| && r[i] == c;
      if IsQuoted(s) {
        assert s[i + 1] == c;
      }
    }
  }

  /** Quoting with either quote character and unquoting is the identity, so
      exactly one layer is removed. */
  lemma UnquoteQuoted(q: char, x: string)
    requires q == '"' || q == '\''
    ensures Unquote([q] + x + [q]) == x
  {
    var s := [q] + x + [q];
    assert s[1..|s| - 1] == x;
  }

  /** The text the drive pattern is matched against. */
  function Prepared(path: string): string {
    Unquote(Strip(path))
  }

  /** `re.match(r'^([A-Za-z]):\\?', u)` succeeds. */
  predicate HasDrive(u: string) {
    |u| >= 2 && IsAsciiLetter(u[0]) && u[1] == ':'
  }

  /** Length of the match of `^([A-Za-z]):\\?`, 0 when there is none. */
  function DriveMatchLength(u: string): (n: nat)
    ensures n <= |u|
    ensures n > 0 <==> HasDrive(u)
    ensures n > 0 ==> n == 2 || (n == 3 && u[2] == '\\')
    ensures n == 2 ==> |u| == 2 || u[2] != '\\'
  {
    if !HasDrive(u) then 0 else if |u| >= 3 && u[2] == '\\' then 3 else 2
  }

  /** `p` is a whole match of `[A-Za-z]:\\?`: a letter, a colon and an
      optional backslash. */
  predicate DrivePattern(p: string) {
    (|p| == 2 || (|p| == 3 && p[2] == '\\')) && IsAsciiLetter(p[0]) && p[1] == ':'
  }

  /** `re.match` anchors the pattern at the start and its optional backslash
      is greedy: the match is the longest prefix of `u` the pattern accepts,
      and it is empty exactly when no prefix is accepted. */
  lemma DriveMatchIsLongestPrefix(u: string)
    ensures var n := DriveMatchLength(u);
      && (n == 0 <==> forall k :: 0 <= k <= |u| ==> !DrivePattern(u[..k]))
      && (n > 0 ==> DrivePattern(u[..n]) && forall k :: n < k <= |u| ==> !DrivePattern(u[..k]))
  {
    var n := DriveMatchLength(u);
    if n > 0 {
      assert u[..n][0] == u[0] && u[..n][1] == u[1];
      assert n == 3 ==> u[..n][2] == u[2];
    }
  }

  // ---------------------------------------------------------------------------
  // Character deletion

  /** `s` with every character of `bad` deleted, order kept. */
  function Without(s: string, bad: string): string {
    if |s| == 0 then []
    else (if s[0] in bad then [] else [s[0]]) + Without(s[1..], bad)
  }

  /** Deletion keeps exactly the characters not in `bad`. */
  lemma {:induction false} WithoutChars(s: string, bad: string)
    ensures Chars(Without(s, bad)) == Chars(s) - Chars(bad)
  {
    if |s| > 0 {
      var head := if s[0] in bad then [] else [s[0]];
      WithoutChars(s[1..], bad);
      assert s == [s[0]] + s[1..];
      CharsAppend([s[0]], s[1..]);
      CharsAppend(head, Without(s[1..], bad));
    }
  }

  lemma {:induction false} WithoutTwice(s: string, a: string, b: string)
    ensures Without(Without(s, a), b) == Without(s, a + b)
  {
    if |s| > 0 {
      WithoutTwice(s[1..], a, b);
      assert s[0] in a + b <==> s[0] in a || s[0] in b;
      if s[0] !in a {
        var w := [s[0]] + Without(s[1..], a);
        assert Without(s, a) == w;
        assert w[0] == s[0] && w[1..] == Without(s[1..], a);
        if s[0] in b {
          assert Without(w, b) == Without(w[1..], b);
          assert Without(s, a + b) == Without(s[1..], a + b);
        } else {
          assert Without(w, b) == [s[0]] + Without(w[1..], b);
          assert Without(s, a + b) == [s[0]] + Without(s[1..], a + b);
        }
      } else {
        assert Without(s, a) == [] + Without(s[1..], a) == Without(s[1..], a);
        assert Without(s, a + b) == [] + Without(s[1..], a + b);
      }
    }
  }

  /** The loop `for ch in chars: s = s.replace(ch, '')`. */
  function RemoveEach(s: string, chars: string): (r: string)
    ensures r == Without(s, chars)
    decreases |chars|
  {
    if |chars| == 0 then
      assert Without(s, chars) == s by { WithoutNothing(s, chars); }
      s
    else
      WithoutTwice(s, [chars[0]], chars[1..]);
      assert [chars[0]] + chars[1..] == chars;
      RemoveEach(Without(s, [chars[0]]), chars[1..])
  }

  lemma {:induction false} WithoutNothing(s: string, bad: string)
    requires |bad| == 0
    ensures Without(s, bad) == s
  {
    if |s| > 0 {
      WithoutNothing(s[1..], bad);
      assert s == [s[0]] + s[1..];
    }
  }

  /** Keeps the characters with `31 < ord < 127` or `ord > 159`. */
  function DropControls(s: string): string {
    if |s| == 0 then []
    else (if IsControl(s[0]) then [] else [s[0]]) + DropControls(s[1..])
  }

  /** The filter keeps exactly the characters that are not control characters. */
  lemma {:induction false} DropControlsChars(s: string)
    ensures Chars(DropControls(s)) == Chars(s) - set c | c in s && IsControl(c)
  {
    if |s| > 0 {
      var head := if IsControl(s[0]) then [] else [s[0]];
      DropControlsChars(s[1..]);
      assert s == [s[0]] + s[1..];
      CharsAppend([s[0]], s[1..]);
      CharsAppend(head, DropControls(s[1..]));
    }
  }

  // ---------------------------------------------------------------------------
  // Collapsing runs: `while cc in s: s = s.replace(cc, c)`

  /** No two adjacent copies of `c`. */
  predicate NoPair(s: string, c: char) {
    forall i :: 0 <= i < |s| - 1 ==> !(s[i] == c && s[i + 1] == c)
  }

  /** One `s.replace(cc, c)`: non-overlapping pairs, left to right. */
  function ReplacePairs(s: string, c: char): (r: string)
    ensures |r| <= |s|
    ensures |s| > 0 ==> |r| > 0 && r[0] == s[0]
  {
    if |s| < 2 then s
    else if s[0] == c && s[1] == c then [c] + ReplacePairs(s[2..], c)
    else [s[0]] + ReplacePairs(s[1..], c)
  }

  /** A replace pass neither loses nor adds a character. */
  lemma {:induction false} ReplacePairsChars(s: string, c: char)
    ensures Chars(ReplacePairs(s, c)) == Chars(s)
    decreases |s|
  {
    if |s| >= 2 {
      if s[0] == c && s[1] == c {
        var t := ReplacePairs(s[2..], c);
        ReplacePairsChars(s[2..], c);
        assert s == [c] + ([c] + s[2..]);
        CharsAppend([c], [c] + s[2..]);
        CharsAppend([c], s[2..]);
        CharsAppend([c], t);
      } else {
        var t := ReplacePairs(s[1..], c);
        ReplacePairsChars(s[1..], c);
        assert s == [s[0]] + s[1..];
        CharsAppend([s[0]], s[1..]);
        CharsAppend([s[0]], t);
      }
    }
  }

  /** A string holding a pair gets strictly shorter under one replace pass. */
  lemma {:induction false} ReplacePairsShrinks(s: string, c: char)
    requires !NoPair(s, c)
    ensures |ReplacePairs(s, c)| < |s|
  {
    if !(s[0] == c && s[1] == c) {
      var i :| 0 <= i < |s| - 1 && s[i] == c && s[i + 1] == c;
      assert s[1..][i - 1] == c && s[1..][i] == c;
      ReplacePairsShrinks(s[1..], c);
    }
  }

  /** The `while` loop repeating the replace until no pair is left. */
  function CollapseRuns(s: string, c: char): string
    decreases |s|
  {
    if NoPair(s, c) then s
    else
      ReplacePairsShrinks(s, c);
      CollapseRuns(ReplacePairs(s, c), c)
  }

  /** The loop ends with no pair left and with the same characters. */
  lemma {:induction false} CollapseRunsFacts(s: string, c: char)
    ensures NoPair(CollapseRuns(s, c), c)
    ensures Chars(CollapseRuns(s, c)) == Chars(s)
    decreases |s|
  {
    if !NoPair(s, c) {
      ReplacePairsShrinks(s, c);
      ReplacePairsChars(s, c);
      CollapseRunsFacts(ReplacePairs(s, c), c);
    }
  }

  /** Reference definition: every maximal run of `c` becomes a single `c`. */
  function Squeeze(s: string, c: char): string {
    if |s| < 2 then s
    else if s[0] == c && s[1] == c then Squeeze(s[1..], c)
    else [s[0]] + Squeeze(s[1..], c)
  }

  lemma {:induction false} SqueezeHead(s: string, c: char)
    requires |s| > 0
    ensures |Squeeze(s, c)| > 0 && Squeeze(s, c)[0] == s[0]
  {
    if |s| >= 2 && s[0] == c && s[1] == c {
      SqueezeHead(s[1..], c);
    }
  }

  lemma {:induction false} SqueezeReplacePairs(s: string, c: char)
    ensures Squeeze(ReplacePairs(s, c), c) == Squeeze(s, c)
    decreases |s|
  {
    if |s| >= 2 {
      if s[0] == c && s[1] == c {
        var t := s[2..];
        SqueezeReplacePairs(t, c);
        assert s[1..] == [c] + t;
        var rt := ReplacePairs(t, c);
        if |t| > 0 {
          assert ([c] + rt)[1..] == rt;
          assert ([c] + t)[1..] == t;
        }
      } else {
        var t := s[1..];
        SqueezeReplacePairs(t, c);
        var rt := ReplacePairs(t, c);
        assert ([s[0]] + rt)[1..] == rt;
      }
    }
  }

  lemma {:induction false} SqueezeNoPair(s: string, c: char)
    requires NoPair(s, c)
    ensures Squeeze(s, c) == s
  {
    if |s| >= 2 {
      SqueezeNoPair(s[1..], c);
      assert s == [s[0]] + s[1..];
    }
  }

  /** The replace loop turns every run of `c` into a single `c`, nothing else. */
  lemma {:induction false} CollapseRunsIsSqueeze(s: string, c: char)
    ensures CollapseRuns(s, c) == Squeeze(s, c)
    decreases |s|
  {
    if NoPair(s, c) {
      SqueezeNoPair(s, c);
    } else {
      ReplacePairsShrinks(s, c);
      CollapseRunsIsSqueeze(ReplacePairs(s, c), c);
      SqueezeReplacePairs(s, c);
    }
  }

  // ---------------------------------------------------------------------------
  // Separators and components

  /** `s.replace('/', '\\')`. */
  function ToBackslashes(s: string): string {
    seq(|s|, i requires 0 <= i < |s| => if s[i] == '/' then '\\' else s[i])
  }

  /** After the replace no `/` is left and the only new character is `\`. */
  lemma ToBackslashesChars(s: string)
    ensures Chars(ToBackslashes(s)) <= (Chars(s) - {'/'}) + {'\\'}
  {
    var r := ToBackslashes(s);
    forall x | x in r ensures x in (Chars(s) - {'/'}) + {'\\'} {
      var i :| 0 <= i < |r| && r[i] == x;
    }
  }

  /** `part.rstrip('. ')` for every component, keeping the non-empty results. */
  function CleanComponents(parts: seq<string>): seq<string> {
    if |parts| == 0 then []
    else
      var p := TrimEnd(parts[0], IsDotOrSpace);
      (if p == [] then [] else [p]) + CleanComponents(parts[1..])
  }

  /** Non-empty and ending in neither `.` nor space. */
  predicate WellFormedComponent(p: string) {
    p != [] && !IsDotOrSpace(p[|p| - 1])
  }

  /** The kept components are non-empty and end in neither `.` nor space. */
  lemma {:induction false} CleanComponentsShape(parts: seq<string>)
    ensures forall i :: 0 <= i < |CleanComponents(parts)| ==> WellFormedComponent(CleanComponents(parts)[i])
  {
    if |parts| > 0 {
      var p := TrimEnd(parts[0], IsDotOrSpace);
      TrimEndFacts(parts[0], IsDotOrSpace);
      var head := if p == [] then [] else [p];
      var tail := CleanComponents(parts[1..]);
      CleanComponentsShape(parts[1..]);
      var r := head + tail;
      assert CleanComponents(parts) == r;
      forall i | 0 <= i < |r| ensures WellFormedComponent(r[i]) {
        if i >= |head| {
          var j := i - |head|;
          assert 0 <= j < |tail| && r[i] == tail[j];
          assert WellFormedComponent(tail[j]);
        } else {
          assert r[i] == p;
          assert !IsDotOrSpace(p[|p| - 1]);
        }
      }
    }
  }

  /** The kept components hold only characters of the original components. */
  lemma {:induction false} CleanComponentsChars(parts: seq<string>)
    ensures CharsOfAll(CleanComponents(parts)) <= CharsOfAll(parts)
  {
    if |parts| > 0 {
      var p := TrimEnd(parts[0], IsDotOrSpace);
      TrimEndFacts(parts[0], IsDotOrSpace);
      var head := if p == [] then [] else [p];
      var tail := CleanComponents(parts[1..]);
      CleanComponentsChars(parts[1..]);
      assert Chars(p) <= Chars(parts[0]) by {
        forall x | x in p ensures x in parts[0] {
          var i :| 0 <= i < |p| && p[i] == x;
          assert parts[0][i] == x;
        }
      }
      CharsOfAllAppend(head, tail);
      assert CharsOfAll(head) <= Chars(parts[0]);
      assert CleanComponents(parts) == head + tail;
    }
  }

  /** Every `\`-separated component is non-empty and ends in neither `.` nor space. */
  predicate WellFormedBody(body: string) {
    body == [] || forall p :: p in Split(body, '\\') ==> WellFormedComponent(p)
  }

  /** The clean-up steps the sanitiser applies, in order, to the text after
      the drive prefix. */
  datatype Step =
    | DeleteEach(chars: string)
    | DeleteControls
    | CollapseSpaces
    | StripText
    | SlashesToBackslashes
    | CollapseBackslashes
    | TrimComponents

  function ApplyStep(step: Step, s: string): string {
    match step
    case DeleteEach(chars) => RemoveEach(s, chars)
    case DeleteControls => DropControls(s)
    case CollapseSpaces => CollapseRuns(s, ' ')
    case StripText => Strip(s)
    case SlashesToBackslashes => ToBackslashes(s)
    case CollapseBackslashes => CollapseRuns(s, '\\')
    case TrimComponents => Join(CleanComponents(Split(s, '\\')), '\\')
  }

  /** Applies `steps` from first to last. */
  function RunSteps(steps: seq<Step>, s: string): string
    decreases |steps|
  {
    if |steps| == 0 then s else RunSteps(steps[1..], ApplyStep(steps[0], s))
  }

  function CleanSteps(forbidden: string): seq<Step> {
    [DeleteEach(forbidden), DeleteControls, CollapseSpaces, StripText,
     SlashesToBackslashes, CollapseBackslashes, TrimComponents]
  }

  /** Everything after the drive prefix: deletion, collapsing, normalising and
      component clean-up. */
  function CleanBody(rest: string, forbidden: string): string {
    RunSteps(CleanSteps(forbidden), rest)
  }

  lemma RunStepsCons(step: Step, steps: seq<Step>, s: string)
    ensures RunSteps([step] + steps, s) == RunSteps(steps, ApplyStep(step, s))
  {
    assert ([step] + steps)[1..] == steps;
  }

  /** The clean-up written out as one composition of the stage functions. */
  lemma CleanBodyStages(rest: string, forbidden: string)
    ensures CleanBody(rest, forbidden) ==
      Join(CleanComponents(Split(CollapseRuns(ToBackslashes(
        Strip(CollapseRuns(DropControls(RemoveEach(rest, forbidden)), ' '))), '\\'), '\\')), '\\')
  {
    var t6: seq<Step> := [TrimComponents];
    var t5 := [CollapseBackslashes] + t6;
    var t4 := [SlashesToBackslashes] + t5;
    var t3 := [StripText] + t4;
    var t2 := [CollapseSpaces] + t3;
    var t1 := [DeleteControls] + t2;
    assert CleanSteps(forbidden) == [DeleteEach(forbidden)] + t1;
    var s1 := RemoveEach(rest, forbidden);
    var s2 := DropControls(s1);
    var s3 := CollapseRuns(s2, ' ');
    var s4 := Strip(s3);
    var s5 := ToBackslashes(s4);
    var s6 := CollapseRuns(s5, '\\');
    RunStepsCons(DeleteEach(forbidden), t1, rest);
    RunStepsCons(DeleteControls, t2, s1);
    RunStepsCons(CollapseSpaces, t3, s2);
    RunStepsCons(StripText, t4, s3);
    RunStepsCons(SlashesToBackslashes, t5, s4);
    RunStepsCons(CollapseBackslashes, t6, s5);
    RunStepsCons(TrimComponents, [], s6);
    assert [TrimComponents] + [] == t6;
  }

  /** The cleaned body holds only `\` and characters of the input that are
      neither forbidden, control characters nor `/`. */
  lemma CleanBodyChars(rest: string, forbidden: string)
    ensures forall c :: c in CleanBody(rest, forbidden) ==>
      c == '\\' || (c in rest && c !in forbidden && !IsControl(c) && c != '/')
  {
    var s1 := RemoveEach(rest, forbidden);
    var s2 := DropControls(s1);
    var s3 := Strip(CollapseRuns(s2, ' '));
    var s4 := CollapseRuns(ToBackslashes(s3), '\\');
    var split := Split(s4, '\\');
    var parts := CleanComponents(split);
    WithoutChars(rest, forbidden);
    DropControlsChars(s1);
    CollapseRunsFacts(s2, ' ');
    StripFacts(CollapseRuns(s2, ' '));
    ToBackslashesChars(s3);
    CollapseRunsFacts(ToBackslashes(s3), '\\');
    SplitChars(s4, '\\');
    CleanComponentsChars(split);
    JoinChars(parts, '\\');
    CleanBodyStages(rest, forbidden);
    CharChain(rest, forbidden, s1, s2, s3, s4, parts, Join(parts, '\\'));
  }

  lemma CharChain(rest: string, forbidden: string, s1: string, s2: string, s3: string,
                  s4: string, parts: seq<string>, body: string)
    requires Chars(s1) == Chars(rest) - Chars(forbidden)
    requires Chars(s2) == Chars(s1) - set c | c in s1 && IsControl(c)
    requires Chars(s3) <= Chars(s2)
    requires Chars(s4) <= (Chars(s3) - {'/'}) + {'\\'}
    requires CharsOfAll(parts) <= Chars(s4) - {'\\'}
    requires Chars(body) <= CharsOfAll(parts) + {'\\'}
    ensures forall c :: c in body ==> c == '\\' || (c in rest && c !in forbidden && !IsControl(c) && c != '/')
  {
    forall c | c in body
      ensures c == '\\' || (c in rest && c !in forbidden && !IsControl(c) && c != '/')
    {
      assert c in Chars(body);
    }
  }

  /** The cleaned body neither starts nor ends with `\`, has no `\\` pair, and
      every component is well formed. */
  lemma CleanBodyShape(rest: string, forbidden: string)
    ensures var body := CleanBody(rest, forbidden);
      && (body == [] || (body[0] != '\\' && body[|body| - 1] != '\\'))
      && NoPair(body, '\\')
      && WellFormedBody(body)
  {
    var s3 := Strip(CollapseRuns(DropControls(RemoveEach(rest, forbidden)), ' '));
    CleanBodyStages(rest, forbidden);
    JoinedComponentsShape(CollapseRuns(ToBackslashes(s3), '\\'));
  }

  lemma JoinedComponentsShape(s: string)
    ensures var body := Join(CleanComponents(Split(s, '\\')), '\\');
      && (body == [] || (body[0] != '\\' && body[|body| - 1] != '\\'))
      && NoPair(body, '\\')
      && WellFormedBody(body)
  {
    var split := Split(s, '\\');
    var parts := CleanComponents(split);
    SplitChars(s, '\\');
    CleanComponentsChars(split);
    CleanComponentsShape(split);
    assert '\\' !in CharsOfAll(parts);
    forall i | 0 <= i < |parts|
      ensures parts[i] != [] && '\\' !in parts[i]
    {
      CharsOfAllMember(parts, i);
    }
    JoinSeparatorsIsolated(parts, '\\');
    if |parts| >= 1 {
      SplitJoin(parts, '\\');
    }
  }

  /** A character no clean-up step deletes or rewrites. */
  predicate CleanChar(c: char, forbidden: string) {
    c !in forbidden && !IsControl(c) && c != '/'
  }

  /** Every `\` separates two components the component clean-up keeps: no
      `\` at either end, and the character before each `\` is neither `\`,
      `.` nor space. */
  predicate CleanSeparators(s: string) {
    s == [] ||
      (&& s[0] != '\\' && s[|s| - 1] != '\\'
       && forall i :: 0 <= i < |s| - 1 && s[i + 1] == '\\' ==> s[i] != '\\' && !IsDotOrSpace(s[i]))
  }

  /** A text the clean-up stage has nothing to remove from: a relative path
      of one or more components. */
  predicate AlreadyClean(s: string, forbidden: string) {
    && (forall i :: 0 <= i < |s| ==> CleanChar(s[i], forbidden))
    && NoPair(s, ' ')
    && CleanSeparators(s)
    && (s == [] || (!IsPyWhitespace(s[0]) && !IsPyWhitespace(s[|s| - 1]) && !IsDotOrSpace(s[|s| - 1])))
  }

  lemma {:induction false} WithoutUntouched(s: string, bad: string)
    requires forall i :: 0 <= i < |s| ==> s[i] !in bad
    ensures Without(s, bad) == s
  {
    if |s| > 0 {
      WithoutUntouched(s[1..], bad);
      assert s == [s[0]] + s[1..];
    }
  }

  lemma {:induction false} DropControlsUntouched(s: string)
    requires forall i :: 0 <= i < |s| ==> !IsControl(s[i])
    ensures DropControls(s) == s
  {
    if |s| > 0 {
      DropControlsUntouched(s[1..]);
      assert s == [s[0]] + s[1..];
    }
  }

  lemma StripUntouched(s: string)
    requires s == [] || (!IsPyWhitespace(s[0]) && !IsPyWhitespace(s[|s| - 1]))
    ensures Strip(s) == s
  {
  }

  lemma ToBackslashesUntouched(s: string)
    requires '/' !in s
    ensures ToBackslashes(s) == s
  {
    forall i | 0 <= i < |s| ensures ToBackslashes(s)[i] == s[i] {
      assert s[i] in s;
    }
  }

  lemma CleanComponentsSingle(s: string)
    requires s == [] || !IsDotOrSpace(s[|s| - 1])
    ensures CleanComponents([s]) == if s == [] then [] else [s]
  {
    assert [s][1..] == [];
  }

  /** A text the clean-up stage has nothing to remove from passes it unchanged. */
  lemma CleanBodyKeepsCleanText(s: string, forbidden: string)
    requires AlreadyClean(s, forbidden)
    ensures CleanBody(s, forbidden) == s
  {
    WithoutUntouched(s, forbidden);
    DropControlsUntouched(s);
    assert CollapseRuns(s, ' ') == s;
    StripUntouched(s);
    BackslashStagesKeep(s);
    CleanBodyStages(s, forbidden);
  }

  lemma BackslashStagesKeep(s: string)
    requires '/' !in s && CleanSeparators(s)
    requires s == [] || !IsDotOrSpace(s[|s| - 1])
    ensures Join(CleanComponents(Split(CollapseRuns(ToBackslashes(s), '\\'), '\\')), '\\') == s
  {
    ToBackslashesUntouched(s);
    assert NoPair(s, '\\');
    assert CollapseRuns(s, '\\') == s;
    if s == [] {
      CleanComponentsSingle(s);
    } else {
      CleanComponentsKeep(s);
      JoinSplit(s, '\\');
    }
  }

  /** The components of a text with clean separators survive `rstrip('. ')`
      and the dropping of empty components. */
  lemma {:induction false} CleanComponentsKeep(s: string)
    requires s != [] && CleanSeparators(s) && !IsDotOrSpace(s[|s| - 1])
    ensures CleanComponents(Split(s, '\\')) == Split(s, '\\')
    decreases |s|
  {
    var parts := Split(s, '\\');
    var a := parts[0];
    FirstComponent(s);
    SplitNoSeparator(a, '\\');
    if |a| == |s| {
      assert a == s;
      CleanComponentsSingle(s);
    } else {
      var k := |a|;
      var b := s[k + 1..];
      SeparatorSplitsClean(s, k);
      assert s == a + ['\\'] + b;
      SplitAround(a, b, '\\');
      assert TrimEnd(a, IsDotOrSpace) == a;
      CleanComponentsKeep(b);
      assert parts == [a] + Split(b, '\\');
      assert ([a] + Split(b, '\\'))[1..] == Split(b, '\\');
    }
  }

  /** The first piece of a split is the separator-free prefix before the
      first separator. */
  lemma FirstComponent(s: string)
    ensures var a := Split(s, '\\')[0];
      && '\\' !in a && |a| <= |s| && a == s[..|a|]
      && (|a| < |s| ==> s[|a|] == '\\')
  {
    var parts := Split(s, '\\');
    SplitHead(s, '\\');
    SplitChars(s, '\\');
    assert Chars(parts[0]) <= CharsOfAll(parts);
  }

  /** A separator of a text with clean separators follows a component that
      ends in neither `.` nor space, and what follows it again has clean
      separators. */
  lemma SeparatorSplitsClean(s: string, k: nat)
    requires k < |s| && s[k] == '\\' && CleanSeparators(s)
    ensures 1 <= k < |s| - 1 && !IsDotOrSpace(s[k - 1])
    ensures s[k + 1..] != [] && CleanSeparators(s[k + 1..])
  {
    var b := s[k + 1..];
    assert s[k + 1] == b[0];
    forall i | 0 <= i < |b| - 1 && b[i + 1] == '\\'
      ensures b[i] != '\\' && !IsDotOrSpace(b[i])
    {
      assert b[i] == s[k + 1 + i] && b[i + 1] == s[k + 2 + i];
    }
  }

  // ---------------------------------------------------------------------------
  // The whole sanitiser

  /** The drive prefix the sanitiser emits, `X:\`, or nothing. */
  function DrivePrefix(path: string): string {
    var u := Prepared(path);
    if HasDrive(u) then [u[0], ':', '\\'] else []
  }

  /** The cleaned text after the drive prefix. */
  function Body(path: string, forbidden: string): string {
    var u := Prepared(path);
    CleanBody(u[DriveMatchLength(u)..], forbidden)
  }

  function Sanitize(path: string, forbidden: string): string {
    Finish(DrivePrefix(path) + Body(path, forbidden))
  }

  /** The final check: a blank result becomes "". */
  function Finish(final: string): string {
    if Blank(final) then [] else final
  }

  /** Only characters of the input survive, apart from the `\` separators,
      and none of them is forbidden, a control character or `/`. */
  lemma SanitizeChars(path: string, forbidden: string)
    requires ForbiddenIsSafe(forbidden)
    ensures forall c :: c in Sanitize(path, forbidden) ==>
      c !in forbidden && !IsControl(c) && c != '/' && (c in path || c == '\\')
  {
    var u := Prepared(path);
    var rest := u[DriveMatchLength(u)..];
    var prefix := DrivePrefix(path);
    var body := Body(path, forbidden);
    StripFacts(path);
    UnquoteChars(Strip(path));
    assert Chars(u) <= Chars(path);
    CleanBodyChars(rest, forbidden);
    SuffixChars(u, DriveMatchLength(u));
    FinalChars(path, forbidden, u, rest, prefix, body);
    var r := Sanitize(path, forbidden);
    assert r == [] || r == prefix + body;
  }

  lemma SuffixChars(u: string, n: nat)
    requires n <= |u|
    ensures forall c :: c in u[n..] ==> c in u
  {
    forall c | c in u[n..] ensures c in u {
      var i :| 0 <= i < |u[n..]| && u[n..][i] == c;
      assert u[n + i] == c;
    }
  }

  lemma FinalChars(path: string, forbidden: string, u: string, rest: string, prefix: string, body: string)
    requires ForbiddenIsSafe(forbidden)
    requires Chars(u) <= Chars(path)
    requires forall c :: c in rest ==> c in u
    requires forall c :: c in body ==> c == '\\' || (c in rest && c !in forbidden && !IsControl(c) && c != '/')
    requires prefix == [] || (HasDrive(u) && prefix == [u[0], ':', '\\'])
    ensures forall c :: c in prefix + body ==> c !in forbidden && !IsControl(c) && c != '/' && (c in path || c == '\\')
  {
    forall c | c in prefix + body
      ensures c !in forbidden && !IsControl(c) && c != '/' && (c in path || c == '\\')
    {
      CharsAppend(prefix, body);
      assert c in Chars(prefix) || c in Chars(body);
      if c in Chars(prefix) {
        assert c == u[0] || c == ':' || c == '\\';
        assert u[0] in Chars(u) && u[1] in Chars(u);
      } else if c != '\\' {
        assert c in u;
        assert c in Chars(u);
      }
    }
  }

  /** The result is the drive prefix `X:\` (when the input has a drive) followed
      by the cleaned body; it has no `\\` pair and well-formed components. */
  lemma SanitizeShape(path: string, forbidden: string)
    ensures var r := Sanitize(path, forbidden);
      && NoPair(r, '\\')
      && (HasDrive(Prepared(path)) ==>
            r == [Prepared(path)[0], ':', '\\'] + Body(path, forbidden) && WellFormedBody(r[3..]))
      && (!HasDrive(Prepared(path)) ==> (r == [] || r == Body(path, forbidden)) && WellFormedBody(r))
  {
    var u := Prepared(path);
    var prefix := DrivePrefix(path);
    var body := Body(path, forbidden);
    CleanBodyShape(u[DriveMatchLength(u)..], forbidden);
    FinalShape(prefix, body);
  }

  lemma FinalShape(prefix: string, body: string)
    requires prefix == [] || (|prefix| == 3 && IsAsciiLetter(prefix[0]) && prefix[2] == '\\' && prefix[1] == ':')
    requires body == [] || body[0] != '\\'
    requires NoPair(body, '\\')
    ensures NoPair(prefix + body, '\\')
    ensures prefix != [] ==> !Blank(prefix + body) && (prefix + body)[3..] == body
  {
    var final := prefix + body;
    if prefix != [] {
      assert !IsPyWhitespace(final[0]);
      assert final[3..] == body;
      forall i | 0 <= i < |final| - 1 ensures !(final[i] == '\\' && final[i + 1] == '\\') {
        if i >= 3 {
          assert final[i] == body[i - 3] && final[i + 1] == body[i - 2];
        } else if i == 2 {
          assert final[i + 1] == body[0];
        }
      }
    } else {
      assert final == body;
    }
  }

  /** The result is "" exactly when there is no drive and the cleaned body is
      blank; otherwise it is not blank. */
  lemma SanitizeEmpty(path: string, forbidden: string)
    ensures var r := Sanitize(path, forbidden);
      && (r == [] <==> !HasDrive(Prepared(path)) && Blank(Body(path, forbidden)))
      && (r != [] ==> !Blank(r))
  {
    var prefix := DrivePrefix(path);
    var body := Body(path, forbidden);
    if prefix != [] {
      assert (prefix + body)[0] == Prepared(path)[0];
      LetterNotWhitespace(Prepared(path)[0]);
    } else {
      assert prefix + body == body;
    }
  }

  /** Sanitising a quoted text whose inside is already clean returns that inside. */
  lemma SanitizeUnwrapsCleanText(path: string, x: string, forbidden: string)
    requires AlreadyClean(x, forbidden) && !HasDrive(x)
    requires Strip(path) == path && Unquote(path) == x
    ensures Sanitize(path, forbidden) == x
  {
    BodyOfCleanText(path, x, forbidden);
    CleanNotBlank(x, forbidden);
    SanitizeWithoutDrive(path, forbidden, x);
  }

  lemma BodyOfCleanText(path: string, x: string, forbidden: string)
    requires AlreadyClean(x, forbidden) && !HasDrive(x)
    requires Strip(path) == path && Unquote(path) == x
    ensures DrivePrefix(path) == [] && Body(path, forbidden) == x
  {
    assert Prepared(path) == x;
    assert x[DriveMatchLength(x)..] == x;
    CleanBodyKeepsCleanText(x, forbidden);
  }

  lemma SanitizeWithoutDrive(path: string, forbidden: string, x: string)
    requires DrivePrefix(path) == [] && Body(path, forbidden) == x
    requires x == [] || !Blank(x)
    ensures Sanitize(path, forbidden) == x
  {
    assert DrivePrefix(path) + Body(path, forbidden) == x;
    assert Finish(x) == x;
  }

  lemma CleanNotBlank(x: string, forbidden: string)
    requires AlreadyClean(x, forbidden)
    ensures x == [] || !Blank(x)
  {
  }

  /** A clean relative path that is not quoted is its own sanitised form. */
  lemma SanitizeKeepsCleanPath(x: string, forbidden: string)
    requires AlreadyClean(x, forbidden) && !HasDrive(x) && !IsQuoted(x)
    ensures Sanitize(x, forbidden) == x
  {
    StripUntouched(x);
    SanitizeUnwrapsCleanText(x, x, forbidden);
  }

  /** A clean path after a drive prefix `X:\` is its own sanitised form. */
  lemma SanitizeKeepsCleanDrivePath(d: char, y: string, forbidden: string)
    requires IsAsciiLetter(d) && AlreadyClean(y, forbidden)
    ensures Sanitize([d, ':', '\\'] + y, forbidden) == [d, ':', '\\'] + y
  {
    var x := [d, ':', '\\'] + y;
    LetterNotWhitespace(d);
    assert x[0] == d && x[1] == ':' && x[2] == '\\';
    assert x[|x| - 1] == if y == [] then '\\' else y[|y| - 1];
    StripUntouched(x);
    assert Prepared(x) == x;
    assert DriveMatchLength(x) == 3 && x[3..] == y;
    CleanBodyKeepsCleanText(y, forbidden);
    assert DrivePrefix(x) + Body(x, forbidden) == x;
    assert !Blank(x);
  }

  /** A relative path of two components is kept as it is. */
  lemma CleanRelativeExample()
    ensures SanitizePath("a\\b") == "a\\b"
  {
    var x := "a\\b";
    assert x == ['a', '\\', 'b'];
    assert AlreadyClean(x, UtilsForbidden);
    SanitizeKeepsCleanPath(x, UtilsForbidden);
  }

  /** A drive path of two components is kept as it is. */
  lemma CleanDriveExample()
    ensures SanitizePath("C:\\a\\b") == "C:\\a\\b"
  {
    var y := "a\\b";
    assert y == ['a', '\\', 'b'];
    assert AlreadyClean(y, UtilsForbidden);
    assert "C:\\a\\b" == ['C', ':', '\\'] + y;
    SanitizeKeepsCleanDrivePath('C', y, UtilsForbidden);
  }

  /** Single quotes around clean text leave it clean when the quote is allowed. */
  lemma QuotedStaysClean(x: string, forbidden: string)
    requires AlreadyClean(x, forbidden) && '\'' !in forbidden
    ensures AlreadyClean(['\''] + x + ['\''], forbidden)
  {
    var q := '\'';
    var inner := [q] + x + [q];
    forall i | 0 <= i < |inner| ensures CleanChar(inner[i], forbidden) {
      if 0 < i < |inner| - 1 {
        assert inner[i] == x[i - 1];
      }
    }
    forall i | 0 <= i < |inner| - 1 ensures !(inner[i] == ' ' && inner[i + 1] == ' ') {
      if 0 < i < |inner| - 2 {
        assert inner[i] == x[i - 1] && inner[i + 1] == x[i];
      }
    }
  }

  /** One layer of single quotes around a clean text is removed. */
  lemma UnwrapOneLayer(x: string, forbidden: string)
    requires AlreadyClean(x, forbidden) && !HasDrive(x)
    ensures Sanitize(['\''] + x + ['\''], forbidden) == x
  {
    var q := '\'';
    var inner := [q] + x + [q];
    assert !IsPyWhitespace(q);
    assert inner[1..|inner| - 1] == x;
    StripUntouched(inner);
    SanitizeUnwrapsCleanText(inner, x, forbidden);
  }

  /** Sanitising is not idempotent: of two layers of single quotes around a
      clean text the first pass removes one and the second pass the other. */
  lemma SanitizeNotIdempotent(x: string)
    requires AlreadyClean(x, UtilsForbidden) && !HasDrive(x)
    ensures SanitizePath(['\'', '\''] + x + ['\'', '\'']) == ['\''] + x + ['\'']
    ensures SanitizePath(['\''] + x + ['\'']) == x
  {
    var inner := ['\''] + x + ['\''];
    QuotedInner(x);
    UnwrapOneLayer(inner, UtilsForbidden);
    UnwrapOneLayer(x, UtilsForbidden);
  }

  /** A clean text in single quotes is itself clean, has no drive, and quoting it again adds two quotes per side. */
  lemma QuotedInner(x: string)
    requires AlreadyClean(x, UtilsForbidden) && !HasDrive(x)
    ensures var inner := ['\''] + x + ['\''];
      && AlreadyClean(inner, UtilsForbidden) && !HasDrive(inner)
      && ['\'', '\''] + x + ['\'', '\''] == ['\''] + inner + ['\'']
  {
    var q := '\'';
    var inner := [q] + x + [q];
    assert [q, q] + x + [q, q] == [q] + inner + [q];
    QuotedStaysClean(x, UtilsForbidden);
    assert !IsAsciiLetter(inner[0]);
  }

  /** `allergic_utils.sanitize_path` on a string argument. */
  function SanitizePath(path: string): string {
    Sanitize(path, UtilsForbidden)
  }

  /** `MasterBatcher.sanitize_path` on a string argument. */
  function BatcherSanitizePath(path: string): string {
    Sanitize(path, BatcherForbidden)
  }

  /** The utilities' sanitiser never emits a deleted, control or `/` character,
      nor a `\\` pair. */
  lemma SanitizePathClean(path: string)
    ensures var r := SanitizePath(path);
      (forall c :: c in r ==> c !in UtilsForbidden && !IsControl(c) && c != '/') && NoPair(r, '\\')
  {
    UtilsForbiddenIsSafe();
    SanitizeChars(path, UtilsForbidden);
    SanitizeShape(path, UtilsForbidden);
  }

  /** The same for the Master Batcher's copy and its longer deletion list. */
  lemma BatcherSanitizePathClean(path: string)
    ensures var r := BatcherSanitizePath(path);
      (forall c :: c in r ==> c !in BatcherForbidden && !IsControl(c) && c != '/') && NoPair(r, '\\')
  {
    BatcherForbiddenIsSafe();
    SanitizeChars(path, BatcherForbidden);
    SanitizeShape(path, BatcherForbidden);
  }
}
