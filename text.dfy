/**
 * The parts of Python's `str` that the converter relies on, for a
 * one-character separator: `rfind`, `split`, the inverse `join`, and
 * indexing a list with -1.
 */
module Text {

  /** `s.rfind(c)`: the index of the last `c` in `s`, or -1 when there is none. */
  function LastIndexOf(s: string, c: char): (r: int)
    ensures -1 <= r < |s|
    ensures r >= 0 ==> s[r] == c
    ensures forall k :: r < k < |s| ==> s[k] != c
  {
    if |s| == 0 then -1
    else if s[|s| - 1] == c then |s| - 1
    else LastIndexOf(s[..|s| - 1], c)
  }

  /** The three facts in LastIndexOf's contract pick out exactly one index. */
  lemma LastIndexOfUnique(s: string, c: char, r: int)
    requires -1 <= r < |s|
    requires r >= 0 ==> s[r] == c
    requires forall k :: r < k < |s| ==> s[k] != c
    ensures LastIndexOf(s, c) == r
  {
  }

  /** Where the last `c` of a concatenation lies. */
  lemma LastIndexOfConcat(s: string, t: string, c: char)
    ensures LastIndexOf(s + t, c) == if c in t then |s| + LastIndexOf(t, c) else LastIndexOf(s, c)
  {
    var st := s + t;
    if c in t {
      var q := LastIndexOf(t, c);
      assert q >= 0;
      forall k | |s| + q < k < |st| ensures st[k] != c {
        assert st[k] == t[k - |s|];
      }
      LastIndexOfUnique(st, c, |s| + q);
    } else {
      var q := LastIndexOf(s, c);
      forall k | q < k < |st| ensures st[k] != c {
        if k >= |s| {
          assert st[k] == t[k - |s|];
        }
      }
      LastIndexOfUnique(st, c, q);
    }
  }

  /** `lst[-1]`. */
  function Last<T>(xs: seq<T>): T
    requires |xs| >= 1
  {
    xs[|xs| - 1]
  }

  lemma FrontAndLast<T>(xs: seq<T>)
    requires |xs| >= 1
    ensures xs[..|xs| - 1] + [xs[|xs| - 1]] == xs
  {
  }

  lemma DropOne<T>(xs: seq<T>, k: int)
    requires 0 <= k < |xs|
    ensures xs[k..] == [xs[k]] + xs[k + 1..]
  {
  }

  /** `c.join(parts)`. */
  function Join(parts: seq<string>, c: char): string
    requires |parts| >= 1
  {
    if |parts| == 1 then parts[0]
    else Join(parts[..|parts| - 1], c) + [c] + parts[|parts| - 1]
  }

  lemma JoinPair(x: string, y: string, c: char)
    ensures Join([x, y], c) == x + [c] + y
  {
    assert [x, y][..1] == [x];
  }

  lemma JoinTriple(x: string, y: string, z: string, c: char)
    ensures Join([x, y, z], c) == x + [c] + y + [c] + z
  {
    assert [x, y, z][..2] == [x, y];
    JoinPair(x, y, c);
  }

  /**
   * `s.split(c)`: the maximal pieces of `s` between its `c`s, empty ones
   * included; never an empty list. Built from the right, as the converter
   * only ever looks at the last two pieces.
   */
  function Split(s: string, c: char): (r: seq<string>)
    ensures |r| >= 1
    ensures |r| >= 2 <==> c in s
    ensures forall i :: 0 <= i < |r| ==> c !in r[i]
    ensures Join(r, c) == s
    decreases |s|
  {
    var k := LastIndexOf(s, c);
    if k < 0 then [s]
    else
      var front := Split(s[..k], c);
      var r := front + [s[k + 1..]];
      assert r[..|r| - 1] == front;
      assert s == s[..k] + [c] + s[k + 1..];
      assert forall i :: 0 <= i < |front| ==> r[i] == front[i];
      r
  }

  /** One step of Split: the pieces before the last separator, then the rest. */
  lemma SplitAtLast(s: string, c: char)
    requires c in s
    ensures Split(s, c) == Split(s[..LastIndexOf(s, c)], c) + [s[LastIndexOf(s, c) + 1..]]
  {
  }

  /** The last piece of a split is everything after the last separator. */
  lemma SplitLast(s: string, c: char)
    ensures Last(Split(s, c)) == s[LastIndexOf(s, c) + 1..]
  {
    if LastIndexOf(s, c) < 0 {
      assert s[0..] == s;
    }
  }

  /**
   * The last two pieces of a split, by index: the text between the last
   * two separators (or from the start), and the text after the last one.
   */
  lemma SplitLastTwo(s: string, c: char)
    requires c in s
    ensures var r, k := Split(s, c), LastIndexOf(s, c);
            var k2 := LastIndexOf(s[..k], c);
            && -1 <= k2 < k
            && (k2 >= 0 ==> s[k2] == c)
            && r[|r| - 2] == s[k2 + 1..k]
            && r[|r| - 1] == s[k + 1..]
            && c !in s[k2 + 1..k] && c !in s[k + 1..]
  {
    var k := LastIndexOf(s, c);
    var front := s[..k];
    SplitAtLast(s, c);
    SplitLast(s, c);
    SplitLast(front, c);
    var k2 := LastIndexOf(front, c);
    if k2 >= 0 {
      assert s[k2] == front[k2];
    }
    assert front[k2 + 1..] == s[k2 + 1..k];
    var r := Split(s, c);
    assert c !in r[|r| - 2] && c !in r[|r| - 1];
  }

  /** Splitting undoes joining c-free pieces: the two are inverse. */
  lemma {:induction false} SplitJoin(parts: seq<string>, c: char)
    requires |parts| >= 1
    requires forall i :: 0 <= i < |parts| ==> c !in parts[i]
    ensures Split(Join(parts, c), c) == parts
  {
    var s := Join(parts, c);
    if |parts| == 1 {
      LastIndexOfUnique(s, c, -1);
    } else {
      var front := parts[..|parts| - 1];
      var last := parts[|parts| - 1];
      var j := Join(front, c);
      var tail := [c] + last;
      assert s == j + tail;
      LastIndexOfConcat(j, tail, c);
      LastIndexOfUnique(tail, c, 0);
      var k := LastIndexOf(s, c);
      assert k == |j|;
      assert s[..k] == j;
      assert s[k + 1..] == last;
      SplitJoin(front, c);
      SplitAtLast(s, c);
      assert Split(s, c) == front + [last];
      FrontAndLast(parts);
    }
  }
}
