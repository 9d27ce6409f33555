/**
 * The text helpers of the environment-snapshot node: stripping the local
 * part of a version number, grouping the command-line arguments into
 * `--flag value ...` lines, and the comparison key that leaves out the
 * timestamp line so that two snapshots of the same environment compare
 * equal.
 *
 * `sys.argv` and the snapshot text are inputs; the package, Python and
 * PyTorch probing that fills the snapshot is not part of this model.
 */
module EnvironmentSnapshot {
  import opened Text

  // ---------------------------------------------------------------------------
  // Versions
  // ---------------------------------------------------------------------------

  /** `_strip_local_version`: the text before the first `+`; an empty version is returned as it is. */
  function StripLocalVersion(version: string): string {
    if version == [] then version else Split(version, '+')[0]
  }

  /** The result is the part of the version before its first `+`: a prefix
      without `+`, followed in the version by `+` unless it is all of it. */
  lemma StripLocalVersionPrefix(version: string)
    ensures var r := StripLocalVersion(version);
      && |r| <= |version| && r == version[..|r|]
      && '+' !in r
      && (|r| < |version| ==> version[|r|] == '+')
  {
    if version != [] {
      var parts := Split(version, '+');
      SplitHead(version, '+');
      SplitChars(version, '+');
      CharsOfAllMember(parts, 0);
    }
  }

  /** A version without a local part is returned unchanged. */
  lemma StripLocalVersionPlain(version: string)
    requires '+' !in version
    ensures StripLocalVersion(version) == version
  {
    if version != [] {
      SplitNoSeparator(version, '+');
    }
  }

  /** Stripping twice strips no more than stripping once. */
  lemma StripLocalVersionIdempotent(version: string)
    ensures StripLocalVersion(StripLocalVersion(version)) == StripLocalVersion(version)
  {
    StripLocalVersionPrefix(version);
    StripLocalVersionPlain(StripLocalVersion(version));
  }

  // ---------------------------------------------------------------------------
  // Command-line arguments
  // ---------------------------------------------------------------------------

  /** An argument that starts a new group. */
  predicate IsFlag(arg: string) {
    StartsWith(arg, "--")
  }

  /** `any(arg.startswith('--') for arg in args)`. */
  predicate HasFlag(args: seq<string>) {
    exists i :: 0 <= i < |args| && IsFlag(args[i])
  }

  /** The loop over the arguments: `current` is the group being built and
      `emitted` the groups already written out. */
  function GroupArgs(args: seq<string>, current: seq<string>, emitted: seq<seq<string>>): seq<seq<string>>
    decreases |args|
  {
    if |args| == 0 then (if current != [] then emitted + [current] else emitted)
    else
      var arg := args[0];
      if IsFlag(arg) then
        GroupArgs(args[1..], [arg], if current != [] then emitted + [current] else emitted)
      else if current != [] then GroupArgs(args[1..], current + [arg], emitted)
      else GroupArgs(args[1..], [], emitted + [[arg]])
  }

  /** The groups written for `sys.argv[1:]`, one line each. */
  function Groups(args: seq<string>): seq<seq<string>> {
    GroupArgs(args, [], [])
  }

  /** A flag followed only by arguments that are not flags. */
  predicate FlagGroup(g: seq<string>) {
    |g| >= 1 && IsFlag(g[0]) && forall j :: 1 <= j < |g| ==> !IsFlag(g[j])
  }

  /** A single argument that is not a flag. */
  predicate LoneGroup(g: seq<string>) {
    |g| == 1 && !IsFlag(g[0])
  }

  /** Every group is a flag group or a lone argument, and no lone argument
      follows a flag group. */
  predicate WellGrouped(gs: seq<seq<string>>) {
    && (forall i :: 0 <= i < |gs| ==> FlagGroup(gs[i]) || LoneGroup(gs[i]))
    && (forall i, j :: 0 <= i < j < |gs| && FlagGroup(gs[i]) ==> FlagGroup(gs[j]))
  }

  /** All groups are lone arguments. */
  predicate AllLone(gs: seq<seq<string>>) {
    forall i :: 0 <= i < |gs| ==> LoneGroup(gs[i])
  }

  /** The loop's state: before the first flag nothing is being built and
      every emitted group is a lone argument; after it a flag group is being
      built. */
  predicate GroupingState(current: seq<string>, emitted: seq<seq<string>>) {
    && WellGrouped(emitted)
    && (current == [] ==> AllLone(emitted))
    && (current != [] ==> FlagGroup(current))
  }

  lemma FlattenAppend(a: seq<seq<string>>, b: seq<seq<string>>)
    ensures Flatten(a + b) == Flatten(a) + Flatten(b)
  {
    if |a| > 0 {
      assert (a + b)[1..] == a[1..] + b;
      FlattenAppend(a[1..], b);
    } else {
      assert a + b == b;
    }
  }

  /** Emitting a group appends its arguments. */
  lemma FlattenEmit(emitted: seq<seq<string>>, g: seq<string>)
    ensures Flatten(emitted + [g]) == Flatten(emitted) + g
  {
    FlattenAppend(emitted, [g]);
    assert Flatten([g]) == g + Flatten([]);
  }

  /** Flattening the groups gives back the arguments, in order. */
  lemma {:induction false} GroupArgsFlatten(args: seq<string>, current: seq<string>, emitted: seq<seq<string>>)
    ensures Flatten(GroupArgs(args, current, emitted)) == Flatten(emitted) + current + args
    decreases |args|
  {
    if |args| == 0 {
      if current != [] {
        FlattenEmit(emitted, current);
      }
    } else {
      var arg := args[0];
      var rest := args[1..];
      assert args == [arg] + rest;
      if IsFlag(arg) {
        var emitted' := if current != [] then emitted + [current] else emitted;
        GroupArgsFlatten(rest, [arg], emitted');
        if current != [] {
          FlattenEmit(emitted, current);
        }
        AppendAssoc(Flatten(emitted) + current, [arg], rest);
      } else if current != [] {
        GroupArgsFlatten(rest, current + [arg], emitted);
        AppendAssoc(current, [arg], rest);
        AppendAssoc(Flatten(emitted), current + [arg], rest);
        AppendAssoc(Flatten(emitted), current, [arg] + rest);
      } else {
        GroupArgsFlatten(rest, [], emitted + [[arg]]);
        FlattenEmit(emitted, [arg]);
        AppendAssoc(Flatten(emitted), [arg], rest);
      }
    }
  }

  /** A flag group may follow any well-grouped sequence. */
  lemma EmitFlagGroup(gs: seq<seq<string>>, g: seq<string>)
    requires WellGrouped(gs) && FlagGroup(g)
    ensures WellGrouped(gs + [g])
  {
    var r := gs + [g];
    assert forall i :: 0 <= i < |gs| ==> r[i] == gs[i];
  }

  /** A lone argument may follow lone arguments. */
  lemma EmitLone(gs: seq<seq<string>>, g: seq<string>)
    requires AllLone(gs) && LoneGroup(g)
    ensures AllLone(gs + [g]) && WellGrouped(gs + [g])
  {
    var r := gs + [g];
    assert forall i :: 0 <= i < |gs| ==> r[i] == gs[i];
  }

  /** A non-flag argument extends the flag group being built. */
  lemma ExtendFlagGroup(g: seq<string>, arg: string)
    requires FlagGroup(g) && !IsFlag(arg)
    ensures FlagGroup(g + [arg])
  {
    var r := g + [arg];
    assert forall j :: 1 <= j < |g| ==> r[j] == g[j];
  }

  /** The loop emits well-grouped lines from every state it can be in. */
  lemma {:induction false} GroupArgsShape(args: seq<string>, current: seq<string>, emitted: seq<seq<string>>)
    requires GroupingState(current, emitted)
    ensures WellGrouped(GroupArgs(args, current, emitted))
    decreases |args|
  {
    if |args| == 0 {
      if current != [] {
        EmitFlagGroup(emitted, current);
      }
    } else {
      var arg := args[0];
      var rest := args[1..];
      if IsFlag(arg) {
        var emitted' := if current != [] then emitted + [current] else emitted;
        if current != [] {
          EmitFlagGroup(emitted, current);
        }
        assert FlagGroup([arg]);
        GroupArgsShape(rest, [arg], emitted');
      } else if current != [] {
        ExtendFlagGroup(current, arg);
        GroupArgsShape(rest, current + [arg], emitted);
      } else {
        EmitLone(emitted, [arg]);
        GroupArgsShape(rest, [], emitted + [[arg]]);
      }
    }
  }

  /** The groups hold exactly the arguments, in order; each flag opens a
      group that takes the following non-flag arguments, and each argument
      before the first flag is a group of its own. */
  lemma GroupsSpec(args: seq<string>)
    ensures Flatten(Groups(args)) == args
    ensures WellGrouped(Groups(args))
  {
    GroupArgsFlatten(args, [], []);
    GroupArgsShape(args, [], []);
  }

  /** One line per group: two spaces, then its arguments joined by spaces. */
  function GroupLines(gs: seq<seq<string>>): (lines: seq<string>)
    ensures |lines| == |gs|
  {
    if |gs| == 0 then [] else ["  " + Join(gs[0], ' ')] + GroupLines(gs[1..])
  }

  /** Each line is two spaces followed by its group's arguments; splitting
      the rest at spaces gives the group back when no argument holds a space. */
  lemma {:induction false} GroupLinesSplit(gs: seq<seq<string>>, i: nat)
    requires i < |gs| && |gs[i]| >= 1
    requires forall j :: 0 <= j < |gs[i]| ==> ' ' !in gs[i][j]
    ensures |GroupLines(gs)[i]| >= 2 && GroupLines(gs)[i][..2] == "  "
    ensures Split(GroupLines(gs)[i][2..], ' ') == gs[i]
  {
    if i == 0 {
      var line := "  " + Join(gs[0], ' ');
      assert GroupLines(gs)[0] == line;
      assert line[2..] == Join(gs[0], ' ');
      SplitJoin(gs[0], ' ');
    } else {
      GroupLinesSplit(gs[1..], i - 1);
      assert GroupLines(gs)[i] == GroupLines(gs[1..])[i - 1];
    }
  }

  /** The command-line section of the snapshot for `sys.argv`: shown only
      when there is an argument after the program name and one of them is
      a flag. */
  function CliSection(argv: seq<string>): seq<string> {
    if |argv| > 1 && HasFlag(argv[1..]) then ["", "CLI Args:"] + GroupLines(Groups(argv[1..]))
    else []
  }

  /** The section appears exactly when some argument after the program name
      starts with `--`, and then it has a line for every group. */
  lemma CliSectionShown(argv: seq<string>)
    ensures CliSection(argv) != [] <==> exists i :: 1 <= i < |argv| && IsFlag(argv[i])
    ensures CliSection(argv) != [] ==>
      && |CliSection(argv)| == 2 + |Groups(argv[1..])|
      && CliSection(argv)[..2] == ["", "CLI Args:"]
      && CliSection(argv)[2..] == GroupLines(Groups(argv[1..]))
  {
    if exists i :: 1 <= i < |argv| && IsFlag(argv[i]) {
      var i :| 1 <= i < |argv| && IsFlag(argv[i]);
      assert argv[1..][i - 1] == argv[i];
    }
    if |argv| > 1 && HasFlag(argv[1..]) {
      var i :| 0 <= i < |argv[1..]| && IsFlag(argv[1..][i]);
      assert argv[i + 1] == argv[1..][i];
    }
  }

  // ---------------------------------------------------------------------------
  // Comparison key
  // ---------------------------------------------------------------------------

  /** The prefix of the timestamp line. */
  const TimestampPrefix := "Captured:"

  /** The lines that do not start with the timestamp prefix, in order. */
  function KeepLines(lines: seq<string>): seq<string> {
    if |lines| == 0 then []
    else (if StartsWith(lines[0], TimestampPrefix) then [] else [lines[0]]) + KeepLines(lines[1..])
  }

  /** A line is kept exactly when it is one of the lines and is not a timestamp line. */
  lemma {:induction false} KeepLinesMembers(lines: seq<string>)
    ensures forall l :: l in KeepLines(lines) <==> l in lines && !StartsWith(l, TimestampPrefix)
  {
    if |lines| > 0 {
      KeepLinesMembers(lines[1..]);
      assert lines == [lines[0]] + lines[1..];
    }
  }

  /** Keeping lines of two parts keeps each part in order. */
  lemma {:induction false} KeepLinesAppend(a: seq<string>, b: seq<string>)
    ensures KeepLines(a + b) == KeepLines(a) + KeepLines(b)
  {
    if |a| > 0 {
      HeadOfAppend(a, b);
      KeepLinesAppend(a[1..], b);
      var h := if StartsWith(a[0], TimestampPrefix) then [] else [a[0]];
      AppendAssoc(h, KeepLines(a[1..]), KeepLines(b));
    } else {
      assert a + b == b;
    }
  }

  /** Lines without a timestamp line are all kept. */
  lemma {:induction false} KeepLinesUntouched(lines: seq<string>)
    requires forall i :: 0 <= i < |lines| ==> !StartsWith(lines[i], TimestampPrefix)
    ensures KeepLines(lines) == lines
  {
    if |lines| > 0 {
      KeepLinesUntouched(lines[1..]);
      assert lines == [lines[0]] + lines[1..];
    }
  }

  /** The comparison key `capture_environment` stores: the snapshot without its timestamp lines. */
  function ComparisonKey(snapshot: string): string {
    Join(KeepLines(Split(snapshot, '\n')), '\n')
  }

  /** No kept line holds a line break. */
  lemma KeptLinesSingle(snapshot: string)
    ensures forall i :: 0 <= i < |KeepLines(Split(snapshot, '\n'))| ==> '\n' !in KeepLines(Split(snapshot, '\n'))[i]
  {
    var lines := Split(snapshot, '\n');
    var kept := KeepLines(lines);
    SplitChars(snapshot, '\n');
    KeepLinesMembers(lines);
    forall i | 0 <= i < |kept|
      ensures '\n' !in kept[i]
    {
      assert kept[i] in lines;
      var j :| 0 <= j < |lines| && lines[j] == kept[i];
      CharsOfAllMember(lines, j);
    }
  }

  /** The lines of the key are exactly the snapshot's lines that do not start
      with the timestamp prefix, unless there are none, when the key is empty. */
  lemma ComparisonKeyLines(snapshot: string)
    ensures var kept := KeepLines(Split(snapshot, '\n'));
      && (kept != [] ==> Split(ComparisonKey(snapshot), '\n') == kept)
      && (kept == [] ==> ComparisonKey(snapshot) == [])
  {
    var kept := KeepLines(Split(snapshot, '\n'));
    if kept != [] {
      KeptLinesSingle(snapshot);
      SplitJoin(kept, '\n');
    }
  }

  /** Taking the key of a key changes nothing. */
  lemma ComparisonKeyIdempotent(snapshot: string)
    ensures ComparisonKey(ComparisonKey(snapshot)) == ComparisonKey(snapshot)
  {
    var kept := KeepLines(Split(snapshot, '\n'));
    var key := ComparisonKey(snapshot);
    ComparisonKeyLines(snapshot);
    KeepLinesMembers(Split(snapshot, '\n'));
    if kept != [] {
      forall i | 0 <= i < |kept|
        ensures !StartsWith(kept[i], TimestampPrefix)
      {
        assert kept[i] in kept;
      }
      KeepLinesUntouched(kept);
    } else {
      assert Split(key, '\n') == [[]];
      assert !StartsWith([], TimestampPrefix);
      assert KeepLines([[]]) == [[]];
    }
  }
}
