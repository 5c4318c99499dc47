/** Pieces joined by single spaces, as the format strings `"{} {} {} {}"`
    and `"{} {}"` lay them out, and the split that takes such a line apart. */
module Spaced {

  /** The pieces with one space between neighbours, none before the first
      or after the last. */
  function Join(parts: seq<string>): (s: string)
    requires |parts| >= 1
    decreases |parts|
  {
    if |parts| == 1 then parts[0] else parts[0] + " " + Join(parts[1..])
  }

  /** The two-piece line of `"{} {}"`. */
  lemma JoinTwo(a: string, b: string)
    ensures Join([a, b]) == a + " " + b
  {
    var p := [a, b];
    assert p[1..] == [b];
    assert Join(p) == p[0] + " " + Join(p[1..]);
  }

  /** The four-piece line of `"{} {} {} {}"`. */
  lemma JoinFour(a: string, b: string, c: string, d: string)
    ensures Join([a, b, c, d]) == a + " " + b + " " + c + " " + d
  {
    var p := [a, b, c, d];
    assert p[1..] == [b, c, d];
    assert [b, c, d][1..] == [c, d];
    JoinTwo(c, d);
    assert Join([b, c, d]) == b + " " + (c + " " + d);
    assert Join(p) == a + " " + (b + " " + (c + " " + d));
  }

  /** The text between spaces, left to right; `n` spaces give `n + 1` pieces. */
  function Split(s: string): (parts: seq<string>)
    ensures |parts| >= 1
    ensures forall i :: 0 <= i < |parts| ==> ' ' !in parts[i]
    decreases |s|
  {
    if |s| == 0 then [""]
    else
      var rest := Split(s[1..]);
      if s[0] == ' ' then [""] + rest
      else [[s[0]] + rest[0]] + rest[1..]
  }

  /** Joining a first piece that has no spaces: the split finds it first. */
  lemma {:induction false} SplitFirst(a: string, b: string)
    requires ' ' !in a
    ensures Split(a + " " + b) == [a] + Split(b)
    decreases |a|
  {
    if |a| > 0 {
      SplitFirst(a[1..], b);
      assert (a + " " + b)[1..] == a[1..] + " " + b;
      assert [a[0]] + a[1..] == a;
    } else {
      assert (a + " " + b)[1..] == b;
    }
  }

  /** A piece with no spaces splits to itself. */
  lemma {:induction false} SplitNoSpace(a: string)
    requires ' ' !in a
    ensures Split(a) == [a]
    decreases |a|
  {
    if |a| > 0 {
      SplitNoSpace(a[1..]);
      assert [a[0]] + a[1..] == a;
    }
  }

  /** Splitting undoes joining, when no piece has a space in it. */
  lemma {:induction false} SplitJoin(parts: seq<string>)
    requires |parts| >= 1
    requires forall i :: 0 <= i < |parts| ==> ' ' !in parts[i]
    ensures Split(Join(parts)) == parts
    decreases |parts|
  {
    if |parts| == 1 {
      SplitNoSpace(parts[0]);
    } else {
      SplitJoin(parts[1..]);
      SplitFirst(parts[0], Join(parts[1..]));
      assert [parts[0]] + parts[1..] == parts;
    }
  }

  /** Joining a piece with what follows it on the same line. */
  lemma {:induction false} JoinCons(c: char, parts: seq<string>)
    requires |parts| >= 1
    ensures Join([[c] + parts[0]] + parts[1..]) == [c] + Join(parts)
  {
    var q := [[c] + parts[0]] + parts[1..];
    assert q[1..] == parts[1..];
  }

  /** Joining undoes splitting: every text is the join of its pieces. */
  lemma {:induction false} JoinSplit(s: string)
    ensures Join(Split(s)) == s
    decreases |s|
  {
    if |s| > 0 {
      var rest := Split(s[1..]);
      JoinSplit(s[1..]);
      if s[0] == ' ' {
        assert ([""] + rest)[1..] == rest;
      } else {
        JoinCons(s[0], rest);
      }
      assert s == [s[0]] + s[1..];
    }
  }
}
