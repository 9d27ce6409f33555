/**
 * The Python string primitives the nodes are built from: `str.strip()`,
 * `str.split(sep)` on one character, `sep.join(parts)`, `str.startswith`,
 * ASCII `str.lower()` and Python's ordering of strings.
 */
module Text {

  /** Python's `str.isspace()` for one character. */
  predicate IsPyWhitespace(c: char) {
    var n := c as int;
    (9 <= n <= 13) || (0x1C <= n <= 0x20) || n == 0x85 || n == 0xA0 || n == 0x1680
    || (0x2000 <= n <= 0x200A) || n == 0x2028 || n == 0x2029 || n == 0x202F
    || n == 0x205F || n == 0x3000
  }

  /** True of a string that `str.strip()` reduces to the empty string. */
  predicate Blank(s: string) {
    forall i :: 0 <= i < |s| ==> IsPyWhitespace(s[i])
  }

  /** The set of characters occurring in `s`. */
  function Chars(s: string): set<char> {
    set c | c in s
  }

  /** The characters occurring in any of `parts`. */
  function CharsOfAll(parts: seq<string>): set<char> {
    if |parts| == 0 then {} else Chars(parts[0]) + CharsOfAll(parts[1..])
  }

  lemma CharsAppend(a: string, b: string)
    ensures Chars(a + b) == Chars(a) + Chars(b)
  {
    forall c | c in a + b ensures c in a || c in b {
      var i :| 0 <= i < |a + b| && (a + b)[i] == c;
      if i >= |a| { assert b[i - |a|] == c; }
    }
  }

  lemma CharsOfAllAppend(a: seq<string>, b: seq<string>)
    ensures CharsOfAll(a + b) == CharsOfAll(a) + CharsOfAll(b)
  {
    if |a| > 0 {
      assert (a + b)[1..] == a[1..] + b;
      CharsOfAllAppend(a[1..], b);
    } else {
      assert a + b == b;
    }
  }

  lemma CharsOfAllMember(parts: seq<string>, i: nat)
    requires i < |parts|
    ensures Chars(parts[i]) <= CharsOfAll(parts)
  {
    if i > 0 {
      CharsOfAllMember(parts[1..], i - 1);
    }
  }

  /** Drops the longest prefix whose characters all satisfy `p`. */
  function TrimStart(s: string, p: char -> bool): string {
    if |s| > 0 && p(s[0]) then TrimStart(s[1..], p) else s
  }

  /** What is left is a suffix that does not start with a `p` character, and
      every dropped character satisfies `p`. */
  lemma {:induction false} TrimStartFacts(s: string, p: char -> bool)
    ensures var r := TrimStart(s, p);
      && |r| <= |s| && r == s[|s| - |r|..]
      && (forall i :: 0 <= i < |s| - |r| ==> p(s[i]))
      && (r == [] || !p(r[0]))
  {
    if |s| > 0 && p(s[0]) {
      TrimStartFacts(s[1..], p);
    }
  }

  /** Drops the longest suffix whose characters all satisfy `p` (`str.rstrip(chars)`). */
  function TrimEnd(s: string, p: char -> bool): string {
    if |s| > 0 && p(s[|s| - 1]) then TrimEnd(s[..|s| - 1], p) else s
  }

  /** What is left is a prefix that does not end with a `p` character, and
      every dropped character satisfies `p`. */
  lemma {:induction false} TrimEndFacts(s: string, p: char -> bool)
    ensures var r := TrimEnd(s, p);
      && |r| <= |s| && r == s[..|r|]
      && (forall i :: |r| <= i < |s| ==> p(s[i]))
      && (r == [] || !p(r[|r| - 1]))
  {
    if |s| > 0 && p(s[|s| - 1]) {
      TrimEndFacts(s[..|s| - 1], p);
    }
  }

  /** `str.strip()` with no argument. */
  function Strip(s: string): string {
    TrimEnd(TrimStart(s, IsPyWhitespace), IsPyWhitespace)
  }

  /** `strip()` gives "" exactly for blank text, leaves no whitespace at
      either end and introduces no character. */
  lemma StripFacts(s: string)
    ensures var r := Strip(s);
      && (r == [] <==> Blank(s))
      && (r == [] || (!IsPyWhitespace(r[0]) && !IsPyWhitespace(r[|r| - 1])))
      && Chars(r) <= Chars(s)
  {
    var t := TrimStart(s, IsPyWhitespace);
    var r := TrimEnd(t, IsPyWhitespace);
    TrimStartFacts(s, IsPyWhitespace);
    TrimEndFacts(t, IsPyWhitespace);
    assert Chars(t) <= Chars(s) by {
      forall c | c in t ensures c in s {
        var i :| 0 <= i < |t| && t[i] == c;
        assert s[|s| - |t| + i] == c;
      }
    }
    assert Chars(r) <= Chars(t) by {
      forall c | c in r ensures c in t {
        var i :| 0 <= i < |r| && r[i] == c;
        assert t[i] == c;
      }
    }
    if r == [] {
      assert t == [];
    }
  }

  /** `s.split(sep)`: the pieces between occurrences of `sep`, always at least one. */
  function Split(s: string, sep: char): (parts: seq<string>)
    ensures |parts| >= 1
  {
    if |s| == 0 then [[]]
    else
      var rest := Split(s[1..], sep);
      if s[0] == sep then [[]] + rest
      else [[s[0]] + rest[0]] + rest[1..]
  }

  /** The pieces of a split hold only characters of the string, never the separator. */
  lemma {:induction false} SplitChars(s: string, sep: char)
    ensures CharsOfAll(Split(s, sep)) <= Chars(s) - {sep}
  {
    if |s| > 0 {
      var rest := Split(s[1..], sep);
      SplitChars(s[1..], sep);
      assert s == [s[0]] + s[1..];
      CharsAppend([s[0]], s[1..]);
      assert CharsOfAll(rest) == Chars(rest[0]) + CharsOfAll(rest[1..]);
      if s[0] == sep {
        assert CharsOfAll([[]] + rest) == Chars([]) + CharsOfAll(rest);
      } else {
        var parts := [[s[0]] + rest[0]] + rest[1..];
        assert parts[1..] == rest[1..];
        CharsAppend([s[0]], rest[0]);
      }
    }
  }

  /** `sep.join(parts)`. */
  function Join(parts: seq<string>, sep: char): (r: string)
    ensures |parts| == 1 ==> r == parts[0]
  {
    if |parts| == 0 then []
    else if |parts| == 1 then parts[0]
    else parts[0] + [sep] + Join(parts[1..], sep)
  }

  /** Concatenation of a sequence of lists, in order. */
  function Flatten(ss: seq<seq<string>>): seq<string>
  {
    if |ss| == 0 then [] else ss[0] + Flatten(ss[1..])
  }

  /** A join holds only characters of the pieces and the separator. */
  lemma {:induction false} JoinChars(parts: seq<string>, sep: char)
    ensures Chars(Join(parts, sep)) <= CharsOfAll(parts) + {sep}
  {
    if |parts| > 1 {
      var rest := Join(parts[1..], sep);
      JoinChars(parts[1..], sep);
      CharsAppend(parts[0] + [sep], rest);
      CharsAppend(parts[0], [sep]);
      assert CharsOfAll(parts) == Chars(parts[0]) + CharsOfAll(parts[1..]);
    } else if |parts| == 1 {
      assert CharsOfAll(parts) == Chars(parts[0]) + CharsOfAll(parts[1..]);
    }
  }

  /** Joining non-empty, separator-free pieces never puts the separator at
      either end or two separators side by side. */
  lemma {:induction false} JoinSeparatorsIsolated(parts: seq<string>, sep: char)
    requires forall i :: 0 <= i < |parts| ==> parts[i] != [] && sep !in parts[i]
    ensures var r := Join(parts, sep);
      (r == [] <==> parts == []) &&
      (r == [] || (r[0] != sep && r[|r| - 1] != sep)) &&
      forall i :: 0 <= i < |r| - 1 ==> !(r[i] == sep && r[i + 1] == sep)
  {
    if |parts| > 1 {
      var p := parts[0];
      var rest := Join(parts[1..], sep);
      JoinSeparatorsIsolated(parts[1..], sep);
      var r := p + [sep] + rest;
      assert r[0] == p[0];
      assert r[|r| - 1] == rest[|rest| - 1];
      forall i | 0 <= i < |r| - 1 ensures !(r[i] == sep && r[i + 1] == sep) {
        if i < |p| {
          assert r[i] == p[i];
        } else if i == |p| {
          assert r[i + 1] == rest[0];
        } else {
          assert r[i] == rest[i - |p| - 1] && r[i + 1] == rest[i - |p|];
        }
      }
    } else if |parts| == 1 {
      assert parts[0][|parts[0]| - 1] in parts[0];
      forall i | 0 <= i < |parts[0]| - 1 ensures parts[0][i] != sep {
        assert parts[0][i] in parts[0];
      }
    }
  }

  /** Splitting at a separator splits the two sides independently. */
  lemma {:induction false} SplitAround(a: string, b: string, sep: char)
    ensures Split(a + [sep] + b, sep) == Split(a, sep) + Split(b, sep)
  {
    if |a| == 0 {
      SplitCons(sep, b, sep);
      assert a + [sep] + b == [sep] + b;
    } else {
      SplitAround(a[1..], b, sep);
      SplitAroundStep(a[0], a[1..], b, sep);
      assert a == [a[0]] + a[1..];
    }
  }

  lemma SplitAroundStep(c: char, x: string, b: string, sep: char)
    requires Split(x + [sep] + b, sep) == Split(x, sep) + Split(b, sep)
    ensures Split([c] + x + [sep] + b, sep) == Split([c] + x, sep) + Split(b, sep)
  {
    ConsAppend(c, x + [sep], b);
    ConsAppend(c, x, [sep]);
    SplitCons(c, x + [sep] + b, sep);
    SplitCons(c, x, sep);
    var rx := Split(x, sep);
    var rb := Split(b, sep);
    if c == sep {
      ConsAppend([], rx, rb);
    } else {
      HeadOfAppend(rx, rb);
      ConsAppend([c] + rx[0], rx[1..], rb);
    }
  }

  lemma HeadOfAppend<T>(x: seq<T>, y: seq<T>)
    requires |x| > 0
    ensures (x + y)[0] == x[0] && (x + y)[1..] == x[1..] + y
  {
  }

  lemma ConsAppend<T>(h: T, x: seq<T>, y: seq<T>)
    ensures [h] + (x + y) == ([h] + x) + y
  {
  }

  lemma AppendAssoc<T>(x: seq<T>, y: seq<T>, z: seq<T>)
    ensures x + (y + z) == (x + y) + z
  {
  }

  /** One step of `Split`: the first character either ends the first piece or joins it. */
  lemma SplitCons(c: char, t: string, sep: char)
    ensures Split([c] + t, sep) ==
      if c == sep then [[]] + Split(t, sep)
      else [[c] + Split(t, sep)[0]] + Split(t, sep)[1..]
  {
    assert ([c] + t)[0] == c && ([c] + t)[1..] == t;
  }

  /** Joining the pieces of a split gives back the original string. */
  lemma {:induction false} JoinSplit(s: string, sep: char)
    ensures Join(Split(s, sep), sep) == s
  {
    if |s| > 0 {
      var rest := Split(s[1..], sep);
      JoinSplit(s[1..], sep);
      assert s == [s[0]] + s[1..];
      if s[0] == sep {
        JoinSepCons(rest, sep);
      } else {
        JoinHeadCons(s[0], rest, sep);
      }
    }
  }

  lemma JoinSepCons(rest: seq<string>, sep: char)
    requires |rest| >= 1
    ensures Join([[]] + rest, sep) == [sep] + Join(rest, sep)
  {
    var parts := [[]] + rest;
    assert parts[0] == [] && parts[1..] == rest;
  }

  lemma JoinHeadCons(c: char, rest: seq<string>, sep: char)
    requires |rest| >= 1
    ensures Join([[c] + rest[0]] + rest[1..], sep) == [c] + Join(rest, sep)
  {
    var parts := [[c] + rest[0]] + rest[1..];
    assert parts[0] == [c] + rest[0] && parts[1..] == rest[1..];
    if |rest| > 1 {
      var tail := Join(rest[1..], sep);
      assert Join(rest, sep) == rest[0] + [sep] + tail;
      assert Join(parts, sep) == [c] + rest[0] + [sep] + tail;
    }
  }

  /** A string without the separator is one piece. */
  lemma {:induction false} SplitNoSeparator(s: string, sep: char)
    requires sep !in s
    ensures Split(s, sep) == [s]
  {
    if |s| > 0 {
      SplitNoSeparator(s[1..], sep);
      assert s == [s[0]] + s[1..];
    }
  }

  /** The first piece is the text before the first separator. */
  lemma {:induction false} SplitHead(s: string, sep: char)
    ensures |Split(s, sep)[0]| <= |s|
    ensures Split(s, sep)[0] == s[..|Split(s, sep)[0]|]
    ensures |Split(s, sep)[0]| < |s| ==> s[|Split(s, sep)[0]|] == sep
  {
    if |s| > 0 && s[0] != sep {
      SplitHead(s[1..], sep);
    }
  }

  /** Splitting a join of separator-free pieces gives back the pieces. */
  lemma {:induction false} SplitJoin(parts: seq<string>, sep: char)
    requires |parts| >= 1
    requires forall i :: 0 <= i < |parts| ==> sep !in parts[i]
    ensures Split(Join(parts, sep), sep) == parts
  {
    if |parts| == 1 {
      SplitNoSeparator(parts[0], sep);
    } else {
      SplitJoin(parts[1..], sep);
      SplitNoSeparator(parts[0], sep);
      SplitAround(parts[0], Join(parts[1..], sep), sep);
      assert parts == [parts[0]] + parts[1..];
    }
  }

  /** `s.startswith(prefix)`. */
  predicate StartsWith(s: string, prefix: string) {
    |prefix| <= |s| && s[..|prefix|] == prefix
  }

  /** ASCII case folding of one character. */
  function LowerChar(c: char): (r: char)
    ensures 'A' <= c <= 'Z' ==> 'a' <= r <= 'z' && r as int == c as int + 32
    ensures !('A' <= c <= 'Z') ==> r == c
  {
    if 'A' <= c <= 'Z' then (c as int + 32) as char else c
  }

  /** `s.lower()` restricted to ASCII letters. */
  function Lower(s: string): (r: string)
    ensures |r| == |s|
    ensures forall i :: 0 <= i < |s| ==> r[i] == LowerChar(s[i])
  {
    if |s| == 0 then [] else [LowerChar(s[0])] + Lower(s[1..])
  }

  /** Python's `a <= b` on strings: lexicographic by code point. */
  predicate LexLe(a: string, b: string) {
    if |a| == 0 then true
    else if |b| == 0 then false
    else if a[0] != b[0] then a[0] < b[0]
    else LexLe(a[1..], b[1..])
  }

  lemma {:induction false} LexLeTotal(a: string, b: string)
    ensures LexLe(a, b) || LexLe(b, a)
  {
    if |a| > 0 && |b| > 0 && a[0] == b[0] {
      LexLeTotal(a[1..], b[1..]);
    }
  }

  lemma {:induction false} LexLeTransitive(a: string, b: string, c: string)
    requires LexLe(a, b) && LexLe(b, c)
    ensures LexLe(a, c)
  {
    if |a| > 0 && |b| > 0 && |c| > 0 && a[0] == b[0] && b[0] == c[0] {
      LexLeTransitive(a[1..], b[1..], c[1..]);
    }
  }
}
