/** Line handling of the tab-separated input: trailing-newline removal and
    splitting on the tab character, as Python's `str.rstrip("\n")` and
    `str.split("\t")` do. */
module Tsv {

  const Tab: char := '\t'
  const Newline: char := '\n'

  /** Number of occurrences of `c` in `s`. */
  function Count(s: string, c: char): nat
  {
    if s == [] then 0 else (if s[0] == c then 1 else 0) + Count(s[1..], c)
  }

  /** Removes every trailing newline character (`rstrip("\n")`). */
  function StripNewlines(s: string): (r: string)
    ensures |r| <= |s| && r == s[..|r|]
    ensures forall k :: |r| <= k < |s| ==> s[k] == Newline
    ensures r == [] || r[|r| - 1] != Newline
  {
    if s != [] && s[|s| - 1] == Newline then StripNewlines(s[..|s| - 1]) else s
  }

  /** Splits `s` at every tab. Like Python's `split("\t")`, an empty string
      gives one empty field and `k` tabs always give `k + 1` fields. */
  function Split(s: string): (parts: seq<string>)
    ensures |parts| >= 1
    ensures forall i :: 0 <= i < |parts| ==> Tab !in parts[i]
  {
    if s == [] then [[]]
    else
      var rest := Split(s[1..]);
      if s[0] == Tab then [[]] + rest
      else [[s[0]] + rest[0]] + rest[1..]
  }

  /** Concatenates the fields with a tab between neighbours. */
  function Join(parts: seq<string>): string
    requires |parts| >= 1
  {
    if |parts| == 1 then parts[0] else parts[0] + [Tab] + Join(parts[1..])
  }

  /** Joining the fields of a line gives the line back. */
  lemma {:induction false} JoinSplit(s: string)
    ensures Join(Split(s)) == s
  {
    if s != [] {
      var rest := Split(s[1..]);
      JoinSplit(s[1..]);
      if s[0] != Tab {
        var parts := Split(s);
        if |rest| == 1 {
          assert parts == [[s[0]] + rest[0]];
        } else {
          assert parts[1..] == rest[1..];
          assert Join(parts) == [s[0]] + rest[0] + [Tab] + Join(rest[1..]);
        }
      }
    }
  }

  /** Splitting a tab-joined list of tab-free fields recovers the fields. */
  lemma {:induction false} SplitJoin(parts: seq<string>)
    requires |parts| >= 1
    requires forall i :: 0 <= i < |parts| ==> Tab !in parts[i]
    ensures Split(Join(parts)) == parts
  {
    if |parts| == 1 {
      SplitField(parts[0]);
    } else {
      SplitJoin(parts[1..]);
      SplitPrefix(parts[0], Join(parts[1..]));
      assert [parts[0]] + parts[1..] == parts;
    }
  }

  /** A string without tabs is a single field. */
  lemma {:induction false} SplitField(f: string)
    requires Tab !in f
    ensures Split(f) == [f]
  {
    if f != [] {
      SplitField(f[1..]);
      assert [f[0]] + f[1..] == f;
    }
  }

  /** A tab-free field followed by a tab splits off as the first field. */
  lemma {:induction false} SplitPrefix(f: string, tail: string)
    requires Tab !in f
    ensures Split(f + [Tab] + tail) == [f] + Split(tail)
  {
    if f == [] {
      assert f + [Tab] + tail == [Tab] + tail;
      assert ([Tab] + tail)[1..] == tail;
    } else {
      assert (f + [Tab] + tail)[1..] == f[1..] + [Tab] + tail;
      SplitPrefix(f[1..], tail);
      assert [f[0]] + f[1..] == f;
    }
  }

  /** The number of fields is one more than the number of tabs, so a line has
      exactly four fields precisely when it holds exactly three tabs. */
  lemma {:induction false} SplitCount(s: string)
    ensures |Split(s)| == Count(s, Tab) + 1
  {
    if s != [] {
      SplitCount(s[1..]);
    }
  }

  /** A joined line ends with the last character of its last field. */
  lemma {:induction false} JoinLast(parts: seq<string>)
    requires |parts| >= 1 && |parts[|parts| - 1]| > 0
    ensures var s := Join(parts); |s| > 0 && s[|s| - 1] == parts[|parts| - 1][|parts[|parts| - 1]| - 1]
  {
    if |parts| > 1 {
      JoinLast(parts[1..]);
    }
  }
}
