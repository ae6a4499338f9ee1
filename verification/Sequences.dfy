/** Small facts about sequences, and splitting them at a separator. */
module Sequences {
  import opened Wrappers

  lemma SliceOfSlice<T>(s: seq<T>, lo: nat, hi: nat, from: nat, to: nat)
    requires lo <= hi <= |s| && from <= to <= hi - lo
    ensures s[lo..hi][from..to] == s[lo + from..lo + to]
  {
    var whole, part := s[lo..hi], s[lo + from..lo + to];
    assert |whole[from..to]| == |part|;
    assert forall i | 0 <= i < |part| :: whole[from..to][i] == part[i];
  }

  lemma Regroup<T>(a: seq<T>, b: seq<T>, c: seq<T>)
    ensures a + b + c == a + (b + c)
  {
  }

  lemma Snoc<T>(s: seq<T>)
    requires s != []
    ensures s == s[..|s| - 1] + [s[|s| - 1]]
  {
  }

  lemma Nil<T>(s: seq<T>)
    ensures s + [] == s && [] + s == s
  {
  }

  lemma JoinSlices<T>(s: seq<T>, a: nat, b: nat, c: nat)
    requires a <= b <= c <= |s|
    ensures s[a..b] + s[b..c] == s[a..c] && s[a..a] == []
  {
  }

  /** What is before the first `c`, and what is after it if there is one. */
  function SplitOnce<T(==)>(s: seq<T>, c: T): (seq<T>, Option<seq<T>>) {
    if s == [] then ([], None)
    else if s[0] == c then ([], Some(s[1..]))
    else
      var (before, after) := SplitOnce(s[1..], c);
      ([s[0]] + before, after)
  }

  lemma {:induction false} SplitOnceAt<T>(a: seq<T>, c: T, b: seq<T>)
    requires c !in a
    ensures SplitOnce(a + [c] + b, c) == (a, Some(b))
    ensures SplitOnce(a, c) == (a, None)
    decreases |a|
  {
    var s := a + [c] + b;
    if a == [] {
      assert s[1..] == b;
    } else {
      assert s[1..] == a[1..] + [c] + b;
      assert a == [a[0]] + a[1..];
      SplitOnceAt(a[1..], c, b);
    }
  }

  /** A split that finds its separator can be undone. */
  lemma {:induction false} SplitOnceJoins<T>(s: seq<T>, c: T)
    requires SplitOnce(s, c).1.Some?
    ensures var (before, after) := SplitOnce(s, c); s == before + [c] + after.value && c !in before
    decreases |s|
  {
    if s[0] == c {
      assert s == [c] + s[1..];
    } else {
      SplitOnceJoins(s[1..], c);
      assert s == [s[0]] + s[1..];
    }
  }
}
