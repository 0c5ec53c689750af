/**
 * The Python string primitives the record store is built from, on `seq<char>`:
 * `str.isspace`/`str.strip`, `str.split(sep)`, `sep.join(parts)`, `str.lower`,
 * the substring test `q in s`, `str.splitlines` and a text file's `readlines`.
 */
module Text {

  /** Python's `str.isspace` for one character: the characters `strip()` removes. */
  predicate IsSpace(c: char) {
    var n := c as int;
    (9 <= n <= 13) || (28 <= n <= 32) || n == 0x85 || n == 0xA0 || n == 0x1680
    || (0x2000 <= n <= 0x200A) || n == 0x2028 || n == 0x2029 || n == 0x202F
    || n == 0x205F || n == 0x3000
  }

  /** Neither end of `s` is whitespace: the strings `strip()` leaves alone. */
  predicate Unpadded(s: string) {
    s == [] || (!IsSpace(s[0]) && !IsSpace(s[|s| - 1]))
  }

  /** `s.lstrip()`: whitespace removed from the front. */
  function StripLeft(s: string): string
    decreases |s|
  {
    if |s| > 0 && IsSpace(s[0]) then StripLeft(s[1..]) else s
  }

  /** `lstrip` keeps the longest suffix of `s` that does not start with whitespace. */
  lemma {:induction false} StripLeftSuffix(s: string)
    ensures |StripLeft(s)| <= |s| && StripLeft(s) == s[|s| - |StripLeft(s)|..]
    ensures forall i :: 0 <= i < |s| - |StripLeft(s)| ==> IsSpace(s[i])
    ensures StripLeft(s) == [] || !IsSpace(StripLeft(s)[0])
    decreases |s|
  {
    if |s| > 0 && IsSpace(s[0]) {
      StripLeftSuffix(s[1..]);
    }
  }

  /** `s.rstrip()`: whitespace removed from the end. */
  function StripRight(s: string): string
    decreases |s|
  {
    if |s| > 0 && IsSpace(s[|s| - 1]) then StripRight(s[..|s| - 1]) else s
  }

  /** `rstrip` keeps the longest prefix of `s` that does not end with whitespace. */
  lemma {:induction false} StripRightPrefix(s: string)
    ensures |StripRight(s)| <= |s| && StripRight(s) == s[..|StripRight(s)|]
    ensures forall i :: |StripRight(s)| <= i < |s| ==> IsSpace(s[i])
    ensures StripRight(s) == [] || !IsSpace(StripRight(s)[|StripRight(s)| - 1])
    decreases |s|
  {
    if |s| > 0 && IsSpace(s[|s| - 1]) {
      StripRightPrefix(s[..|s| - 1]);
    }
  }

  /** `s.strip()`: whitespace removed from both ends. */
  function Strip(s: string): string {
    StripRight(StripLeft(s))
  }

  /** A stripped string is unpadded, and `strip` is the identity exactly on unpadded strings. */
  lemma StripUnpads(s: string)
    ensures |Strip(s)| <= |s|
    ensures Unpadded(Strip(s))
    ensures Strip(s) == s <==> Unpadded(s)
  {
    var l := StripLeft(s);
    StripLeftSuffix(s);
    StripRightPrefix(l);
    var r := StripRight(l);
    assert r != [] ==> r[0] == l[0];
  }

  /** `s.split(sep)` for a one-character separator: never empty, and "" gives [""]. */
  function Split(s: string, sep: char): (parts: seq<string>)
    ensures |parts| >= 1
    decreases |s|
  {
    if |s| == 0 then [""]
    else
      var rest := Split(s[1..], sep);
      if s[0] == sep then [""] + rest
      else [[s[0]] + rest[0]] + rest[1..]
  }

  /** No piece of a split holds the separator. */
  lemma {:induction false} SplitPieces(s: string, sep: char)
    ensures forall i :: 0 <= i < |Split(s, sep)| ==> sep !in Split(s, sep)[i]
    decreases |s|
  {
    if |s| > 0 {
      SplitPieces(s[1..], sep);
    }
  }

  /** `sep.join(parts)`. */
  function Join(parts: seq<string>, sep: string): string
    decreases |parts|
  {
    if |parts| == 0 then ""
    else if |parts| == 1 then parts[0]
    else parts[0] + sep + Join(parts[1..], sep)
  }

  /** A join of two or more pieces ends with the separator and the last piece. */
  lemma {:induction false} JoinSnoc(parts: seq<string>, sep: string)
    requires |parts| >= 2
    ensures Join(parts, sep) == Join(parts[..|parts| - 1], sep) + sep + parts[|parts| - 1]
    decreases |parts|
  {
    if |parts| > 2 {
      JoinSnoc(parts[1..], sep);
      assert parts[..|parts| - 1][1..] == parts[1..][..|parts| - 2];
    }
  }

  /** Joining the pieces of a split on the same separator gives the string back. */
  lemma {:induction false} JoinSplit(s: string, sep: char)
    ensures Join(Split(s, sep), [sep]) == s
    decreases |s|
  {
    if |s| > 0 {
      var rest := Split(s[1..], sep);
      JoinSplit(s[1..], sep);
      if s[0] == sep {
        assert Join(Split(s, sep), [sep]) == "" + [sep] + Join(rest, [sep]);
      } else if |rest| == 1 {
        assert Split(s, sep) == [[s[0]] + rest[0]];
      } else {
        var parts := Split(s, sep);
        assert parts[1..] == rest[1..];
        assert Join(rest, [sep]) == rest[0] + [sep] + Join(rest[1..], [sep]);
        assert Join(parts, [sep]) == [s[0]] + rest[0] + [sep] + Join(rest[1..], [sep]);
      }
    }
  }

  /** A string without the separator splits into itself alone. */
  lemma {:induction false} SplitWithout(a: string, sep: char)
    requires sep !in a
    ensures Split(a, sep) == [a]
    decreases |a|
  {
    if |a| > 0 {
      SplitWithout(a[1..], sep);
      assert a[0] != sep;
      assert [a[0]] + a[1..] == a;
    }
  }

  /** A separator-free prefix followed by the separator is split off as the first piece. */
  lemma {:induction false} SplitAfter(a: string, t: string, sep: char)
    requires sep !in a
    ensures Split(a + [sep] + t, sep) == [a] + Split(t, sep)
    decreases |a|
  {
    if |a| == 0 {
      assert (a + [sep] + t)[1..] == t;
    } else {
      assert (a + [sep] + t)[1..] == a[1..] + [sep] + t;
      assert (a + [sep] + t)[0] == a[0] != sep;
      SplitAfter(a[1..], t, sep);
      assert [a[0]] + a[1..] == a;
    }
  }

  /** A separator followed by a separator-free suffix splits that suffix off as the last piece. */
  lemma {:induction false} SplitBefore(t: string, b: string, sep: char)
    requires sep !in b
    ensures |Split(t + [sep] + b, sep)| >= 2
    ensures Split(t + [sep] + b, sep)[|Split(t + [sep] + b, sep)| - 1] == b
    decreases |t|
  {
    var s := t + [sep] + b;
    if |t| == 0 {
      assert s[1..] == b;
      SplitWithout(b, sep);
    } else {
      assert s[1..] == t[1..] + [sep] + b;
      SplitBefore(t[1..], b, sep);
    }
  }

  /** Splitting a join of separator-free pieces gives the pieces back. */
  lemma {:induction false} SplitJoin(parts: seq<string>, sep: char)
    requires |parts| >= 1
    requires forall i :: 0 <= i < |parts| ==> sep !in parts[i]
    ensures Split(Join(parts, [sep]), sep) == parts
    decreases |parts|
  {
    if |parts| == 1 {
      SplitWithout(parts[0], sep);
    } else {
      SplitJoin(parts[1..], sep);
      SplitAfter(parts[0], Join(parts[1..], [sep]), sep);
    }
  }

  /** A character absent from every piece and from the separator is absent from the join. */
  lemma {:induction false} JoinWithout(parts: seq<string>, sep: string, c: char)
    requires c !in sep
    requires forall i :: 0 <= i < |parts| ==> c !in parts[i]
    ensures c !in Join(parts, sep)
    decreases |parts|
  {
    if |parts| > 1 {
      JoinWithout(parts[1..], sep, c);
    }
  }

  /** `c.lower()` for the ASCII letters. */
  function LowerChar(c: char): char {
    if 'A' <= c <= 'Z' then (c as int + 32) as char else c
  }

  /** `s.lower()`, letter by letter (ASCII case mapping). */
  function Lower(s: string): string {
    seq(|s|, i requires 0 <= i < |s| => LowerChar(s[i]))
  }

  /** Python's `q in s`: `q` occurs in `s` as a contiguous substring. */
  predicate Contains(s: string, q: string)
    decreases |s|
  {
    q <= s || (|s| > 0 && Contains(s[1..], q))
  }

  /** A string contains whatever sits inside it. */
  lemma {:induction false} ContainsInfix(a: string, q: string, b: string)
    ensures Contains(a + q + b, q)
    decreases |a|
  {
    if |a| == 0 {
      assert a + q + b == q + b;
      assert q <= q + b;
    } else {
      assert (a + q + b)[1..] == a[1..] + q + b;
      ContainsInfix(a[1..], q, b);
    }
  }

  /** Whatever a string contains, a longer string ending with it contains too. */
  lemma {:induction false} ContainsAfter(a: string, s: string, q: string)
    requires Contains(s, q)
    ensures Contains(a + s, q)
    decreases |a|
  {
    if |a| > 0 {
      assert (a + s)[1..] == a[1..] + s;
      ContainsAfter(a[1..], s, q);
    } else {
      assert a + s == s;
    }
  }

  /** Two adjacent pieces with the separator between them occur in the join. */
  lemma {:induction false} JoinContainsAdjacent(parts: seq<string>, sep: string, k: nat)
    requires k + 1 < |parts|
    ensures Contains(Join(parts, sep), parts[k] + sep + parts[k + 1])
    decreases k
  {
    var q := parts[k] + sep + parts[k + 1];
    if k == 0 {
      var tail := if |parts| > 2 then sep + Join(parts[2..], sep) else "";
      assert parts[1..][1..] == parts[2..];
      assert Join(parts[1..], sep) == parts[1] + tail;
      assert Join(parts, sep) == "" + q + tail;
      ContainsInfix("", q, tail);
    } else {
      assert parts[1..][k - 1] == parts[k] && parts[1..][k] == parts[k + 1];
      JoinContainsAdjacent(parts[1..], sep, k - 1);
      ContainsAfter(parts[0] + sep, Join(parts[1..], sep), q);
    }
  }

  /** The search is case-insensitive: a substring stays one after lowering both sides. */
  lemma {:induction false} ContainsLower(s: string, q: string)
    requires Contains(s, q)
    ensures Contains(Lower(s), Lower(q))
    decreases |s|
  {
    if q <= s {
      assert Lower(q) <= Lower(s);
    } else {
      ContainsLower(s[1..], q);
      assert Lower(s)[1..] == Lower(s[1..]);
    }
  }

  /** The characters `str.splitlines` treats as line boundaries. */
  predicate IsLineBreak(c: char) {
    var n := c as int;
    (10 <= n <= 13) || (28 <= n <= 30) || n == 0x85 || n == 0x2028 || n == 0x2029
  }

  /** No character of `s` ends a line. */
  predicate SingleLine(s: string) {
    forall i :: 0 <= i < |s| ==> !IsLineBreak(s[i])
  }

  /**
   * `s.splitlines()`: the lines of `s` without their terminators, "\r\n" counting
   * as one terminator; a terminator at the very end opens no further line.
   */
  function SplitLines(s: string): seq<string>
    decreases |s|
  {
    if |s| == 0 then []
    else if IsLineBreak(s[0]) then
      [""] + SplitLines(if s[0] == '\r' && |s| > 1 && s[1] == '\n' then s[2..] else s[1..])
    else
      var rest := SplitLines(s[1..]);
      if rest == [] then [[s[0]]] else [[s[0]] + rest[0]] + rest[1..]
  }

  /** A non-empty string without line breaks is one line. */
  lemma {:induction false} SplitLinesSingle(a: string)
    requires a != [] && SingleLine(a)
    ensures SplitLines(a) == [a]
    decreases |a|
  {
    assert !IsLineBreak(a[0]);
    if |a| == 1 {
      assert SplitLines(a[1..]) == [] && a == [a[0]];
    } else {
      SplitLinesSingle(a[1..]);
      assert [a[0]] + a[1..] == a;
    }
  }

  /** A line-break-free prefix followed by "\n" is split off as the first line. */
  lemma {:induction false} SplitLinesAfter(a: string, t: string)
    requires SingleLine(a)
    ensures SplitLines(a + "\n" + t) == [a] + SplitLines(t)
    decreases |a|
  {
    if |a| == 0 {
      assert (a + "\n" + t)[1..] == t;
    } else {
      assert (a + "\n" + t)[1..] == a[1..] + "\n" + t;
      assert (a + "\n" + t)[0] == a[0] && !IsLineBreak(a[0]);
      SplitLinesAfter(a[1..], t);
      assert [a[0]] + a[1..] == a;
    }
  }

  /** `"\n".join` is undone by `splitlines` when no name holds a line break and the last is not empty. */
  lemma {:induction false} SplitLinesJoin(names: seq<string>)
    requires forall i :: 0 <= i < |names| ==> SingleLine(names[i])
    requires names == [] || names[|names| - 1] != ""
    ensures SplitLines(Join(names, "\n")) == names
    decreases |names|
  {
    if |names| == 1 {
      SplitLinesSingle(names[0]);
    } else if |names| > 1 {
      SplitLinesJoin(names[1..]);
      SplitLinesAfter(names[0], Join(names[1..], "\n"));
    }
  }

  /** `l` ends with a newline. */
  predicate EndsLine(l: string) {
    |l| > 0 && l[|l| - 1] == '\n'
  }

  /** `l` is one line as `readlines` returns it: non-empty, a newline at most at its end. */
  predicate IsLine(l: string) {
    |l| > 0 && forall j :: 0 <= j < |l| - 1 ==> l[j] != '\n'
  }

  /** A sequence `readlines` can return: lines, each but the last ending with a newline. */
  predicate LinesShape(ls: seq<string>) {
    forall i :: 0 <= i < |ls| ==> IsLine(ls[i]) && (i < |ls| - 1 ==> EndsLine(ls[i]))
  }

  /** The text written by writing every line of `ls` in order. */
  function Concat(ls: seq<string>): string
    decreases |ls|
  {
    if |ls| == 0 then "" else ls[0] + Concat(ls[1..])
  }

  /** A text file's `readlines()`: the content cut after every newline, nothing lost. */
  function ReadLines(c: string): (ls: seq<string>)
    ensures Concat(ls) == c
    decreases |c|
  {
    if |c| == 0 then []
    else
      var rest := ReadLines(c[1..]);
      if c[0] == '\n' || rest == [] then [[c[0]]] + rest
      else
        var ls := [[c[0]] + rest[0]] + rest[1..];
        assert ls[1..] == rest[1..];
        ls
  }

  /** Every sequence `readlines` returns has the `readlines` shape. */
  lemma {:induction false} ReadLinesShape(c: string)
    ensures LinesShape(ReadLines(c))
    decreases |c|
  {
    if |c| > 0 {
      ReadLinesShape(c[1..]);
      var rest := ReadLines(c[1..]);
      var ls := ReadLines(c);
      if c[0] == '\n' || rest == [] {
        assert ls == [[c[0]]] + rest;
        assert forall i :: 1 <= i < |ls| ==> ls[i] == rest[i - 1];
      } else {
        assert ls == [[c[0]] + rest[0]] + rest[1..];
        assert forall i :: 1 <= i < |ls| ==> ls[i] == rest[i];
      }
    }
  }

  /** One line reads back as itself. */
  lemma {:induction false} ReadLinesLine(l: string)
    requires IsLine(l)
    ensures ReadLines(l) == [l]
    decreases |l|
  {
    if |l| == 1 {
      assert ReadLines(l[1..]) == [] && l == [l[0]];
    } else {
      ReadLinesLine(l[1..]);
      assert l[0] != '\n';
      assert [l[0]] + l[1..] == l;
    }
  }

  /** Text ending with a newline reads independently of what follows it. */
  lemma {:induction false} ReadLinesAppend(a: string, b: string)
    requires a == [] || EndsLine(a)
    ensures ReadLines(a + b) == ReadLines(a) + ReadLines(b)
    decreases |a|
  {
    if a == [] {
      assert a + b == b;
    } else if |a| == 1 {
      assert ReadLines(a[1..]) == [] && (a + b)[1..] == b && a[0] == '\n';
      assert a == [a[0]];
    } else {
      assert (a + b)[1..] == a[1..] + b;
      ReadLinesAppend(a[1..], b);
      var ra := ReadLines(a[1..]);
      assert ra != [];
      assert (a + b)[0] == a[0];
      if a[0] != '\n' {
        assert (ra + ReadLines(b))[0] == ra[0];
        assert (ra + ReadLines(b))[1..] == ra[1..] + ReadLines(b);
      }
    }
  }

  /** Writing lines of the `readlines` shape and reading them back gives the same lines. */
  lemma {:induction false} ReadLinesConcat(ls: seq<string>)
    requires LinesShape(ls)
    ensures ReadLines(Concat(ls)) == ls
    decreases |ls|
  {
    if |ls| == 1 {
      ReadLinesLine(ls[0]);
      assert Concat(ls) == ls[0];
    } else if |ls| > 1 {
      assert LinesShape(ls[1..]) by {
        forall i | 0 <= i < |ls[1..]|
          ensures IsLine(ls[1..][i]) && (i < |ls[1..]| - 1 ==> EndsLine(ls[1..][i]))
        {
          assert ls[1..][i] == ls[i + 1];
        }
      }
      ReadLinesConcat(ls[1..]);
      ReadLinesLine(ls[0]);
      ReadLinesAppend(ls[0], Concat(ls[1..]));
    }
  }
}
