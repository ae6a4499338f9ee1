/** Object keys in code-point order, which agrees with the byte order of their UTF-8 encodings. */
module KeyOrder {

  type Key = string

  predicate Less(a: Key, b: Key)
    decreases |a|
  {
    b != [] && (a == [] || a[0] < b[0] || (a[0] == b[0] && Less(a[1..], b[1..])))
  }

  /** Strictly ascending, so without duplicates. */
  ghost predicate Ascending(keys: seq<Key>) {
    forall i, j | 0 <= i < j < |keys| :: Less(keys[i], keys[j])
  }

  /** The two keys agree up to `i`, where the first has the smaller character. */
  ghost predicate SmallerAt(a: Key, b: Key, i: nat) {
    i < |a| && i < |b| && a[..i] == b[..i] && a[i] < b[i]
  }

  /** A key is less than another if it is a proper prefix of it, or has the smaller character where they first
      differ. */
  lemma {:induction false} LessIff(a: Key, b: Key)
    ensures Less(a, b) <==> (a <= b && a != b) || exists i :: SmallerAt(a, b, i)
    decreases |a|
  {
    if a != [] && b != [] {
      assert a == [a[0]] + a[1..] && b == [b[0]] + b[1..];
      if a[0] < b[0] {
        assert SmallerAt(a, b, 0);
      } else if a[0] == b[0] {
        LessIff(a[1..], b[1..]);
        forall i: nat ensures SmallerAt(a[1..], b[1..], i) <==> SmallerAt(a, b, i + 1) {
          SmallerInTail(a, b, i);
        }
        if i: nat :| SmallerAt(a, b, i) {
          assert i != 0 && SmallerAt(a[1..], b[1..], i - 1);
        }
      } else {
        forall i: nat ensures SmallerAt(a, b, i) ==> a[0] <= b[0] {
          FirstCharacters(a, b, i);
        }
      }
    }
  }

  lemma FirstCharacters(a: Key, b: Key, i: nat)
    requires a != [] && b != []
    ensures SmallerAt(a, b, i) ==> a[0] <= b[0]
  {
    if SmallerAt(a, b, i) && i != 0 {
      assert a[..i][0] == a[0] && b[..i][0] == b[0];
    }
  }

  lemma SmallerInTail(a: Key, b: Key, i: nat)
    requires a != [] && b != [] && a[0] == b[0]
    ensures SmallerAt(a[1..], b[1..], i) <==> SmallerAt(a, b, i + 1)
  {
    if i + 1 <= |a| && i + 1 <= |b| {
      assert a[..i + 1] == [a[0]] + a[1..][..i] && b[..i + 1] == [b[0]] + b[1..][..i];
      assert a[..i + 1][1..] == a[1..][..i] && b[..i + 1][1..] == b[1..][..i];
    }
  }

  lemma {:induction false} LessIrreflexive(a: Key)
    ensures !Less(a, a)
    decreases |a|
  {
    if a != [] {
      LessIrreflexive(a[1..]);
    }
  }

  lemma {:induction false} LessTransitive(a: Key, b: Key, c: Key)
    requires Less(a, b) && Less(b, c)
    ensures Less(a, c)
    decreases |a|
  {
    if a != [] && a[0] == b[0] == c[0] {
      LessTransitive(a[1..], b[1..], c[1..]);
    }
  }

  lemma {:induction false} LessTotal(a: Key, b: Key)
    ensures a == b || Less(a, b) || Less(b, a)
    decreases |a|
  {
    if a != [] && b != [] && a[0] == b[0] {
      LessTotal(a[1..], b[1..]);
      assert a == [a[0]] + a[1..] && b == [b[0]] + b[1..];
    }
  }

  lemma Heads(p: Key, k: Key)
    requires p <= k && p != []
    ensures k != [] && k[0] == p[0] && p[1..] <= k[1..]
  {
  }

  /** Keys that share a prefix stand together. */
  lemma {:induction false} PrefixConvex(p: Key, a: Key, b: Key, c: Key)
    requires p <= a && p <= c
    requires Less(a, b) && Less(b, c)
    ensures p <= b
    decreases |p|
  {
    if p != [] {
      Heads(p, a);
      Heads(p, c);
      PrefixConvex(p[1..], a[1..], b[1..], c[1..]);
      assert p == [p[0]] + p[1..] && b == [b[0]] + b[1..];
    }
  }

  /** The first `n` characters of a key, or all of it. */
  function Truncated(k: Key, n: nat): Key {
    if n <= |k| then k[..n] else k
  }

  /** Cutting keys to a common length keeps their order. */
  lemma {:induction false} TruncatedMonotone(a: Key, b: Key, n: nat)
    requires Less(a, b)
    ensures !Less(Truncated(b, n), Truncated(a, n))
    decreases n
  {
    if n != 0 && a != [] && b != [] {
      assert Truncated(a, n) == [a[0]] + Truncated(a[1..], n - 1);
      assert Truncated(b, n) == [b[0]] + Truncated(b[1..], n - 1);
      if a[0] == b[0] {
        TruncatedMonotone(a[1..], b[1..], n - 1);
      }
    }
  }

  /** If neither of two prefixes extends the other, they are ordered as the keys they come from. */
  lemma {:induction false} PrefixesOrdered(p: Key, a: Key, q: Key, b: Key)
    requires p <= a && q <= b && Less(a, b)
    requires !(p <= b)
    requires !(q <= a)
    ensures Less(p, q)
    decreases |p|
  {
    Heads(p, a);
    Heads(q, b);
    if a[0] == b[0] {
      PrefixesOrdered(p[1..], a[1..], q[1..], b[1..]);
    }
  }
}
