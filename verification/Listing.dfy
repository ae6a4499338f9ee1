/** ListObjectsV2 with prefix, delimiter roll-up, page size and continuation tokens.

    The listing of a bucket is specified in one shot over its ascending keys. Paging through it with
    continuation tokens is then proved to cut that listing into consecutive pages.
  */
module Listing {
  import opened KeyOrder
  import opened Wrappers
  import opened Sequences

  // ----- The one-shot listing -----

  ghost predicate OccursAt(s: string, d: string, i: nat) {
    i + |d| <= |s| && s[i..i + |d|] == d
  }

  /** Where `d` first occurs in `s`. */
  function FirstMatch(s: string, d: string): (r: Option<nat>)
    ensures r.Some? ==> OccursAt(s, d, r.value) && forall i: nat | i < r.value :: !OccursAt(s, d, i)
    ensures r.None? ==> forall i: nat :: !OccursAt(s, d, i)
    decreases |s|
  {
    if |s| < |d| then None
    else if d <= s then
      assert OccursAt(s, d, 0);
      Some(0)
    else
      var rest := FirstMatch(s[1..], d);
      OccursInTail(s, d);
      if rest.None? then None else Some(rest.value + 1)
  }

  lemma OccursInTail(s: string, d: string)
    requires s != [] && !(d <= s)
    ensures forall i: nat :: OccursAt(s, d, i) <==> i != 0 && OccursAt(s[1..], d, i - 1)
  {
    forall i: nat ensures OccursAt(s, d, i) <==> i != 0 && OccursAt(s[1..], d, i - 1) {
      if i != 0 && i + |d| <= |s| {
        SliceOfSlice(s, 1, |s|, i - 1, i - 1 + |d|);
      }
    }
  }

  /** What a key contributes to a listing: itself, or the common prefix it is rolled up into. */
  datatype Entry = Object(key: Key) | Common(prefix: Key)

  function EntryOf(key: Key, prefix: Key, delimiter: string): (e: Entry)
    requires prefix <= key
    ensures e.Object? ==> e.key == key
  {
    var rest := key[|prefix|..];
    var at := if delimiter == [] then None else FirstMatch(rest, delimiter);
    if at.Some? then Common(RolledUp(prefix, rest[..at.value], delimiter)) else Object(key)
  }

  function RolledUp(prefix: Key, pre: string, delimiter: string): Key {
    prefix + pre + delimiter
  }

  /** The listing: each entry that some key with the prefix contributes, at its first appearance. */
  function Entries(keys: seq<Key>, prefix: Key, delimiter: string): seq<Entry>
    decreases |keys|
  {
    if keys == [] then []
    else
      var before, key := Entries(keys[..|keys| - 1], prefix, delimiter), keys[|keys| - 1];
      if !(prefix <= key) || EntryOf(key, prefix, delimiter) in before then before
      else before + [EntryOf(key, prefix, delimiter)]
  }

  function Objects(es: seq<Entry>): seq<Key> {
    if es == [] then []
    else
      var before, e := Objects(es[..|es| - 1]), es[|es| - 1];
      if e.Object? then before + [e.key] else before
  }

  function Prefixes(es: seq<Entry>): seq<Key> {
    if es == [] then []
    else
      var before, e := Prefixes(es[..|es| - 1]), es[|es| - 1];
      if e.Common? then before + [e.prefix] else before
  }

  // ----- Roll-up -----

  lemma OccursInBoth(s: string, t: string, d: string, n: nat, i: nat)
    requires i + |d| <= n <= |s| && s[..n] <= t
    ensures OccursAt(s, d, i) <==> OccursAt(t, d, i)
  {
    assert s[..n] == t[..n];
    SliceOfSlice(s, 0, n, i, i + |d|);
    SliceOfSlice(t, 0, n, i, i + |d|);
  }

  /** The first match depends only on the text up to its end. */
  lemma FirstMatchStable(s: string, t: string, d: string)
    requires FirstMatch(s, d).Some?
    requires s[..FirstMatch(s, d).value + |d|] <= t
    ensures FirstMatch(t, d) == FirstMatch(s, d)
  {
    hide FirstMatch;
    var p := FirstMatch(s, d).value;
    forall i: nat | i <= p ensures OccursAt(t, d, i) <==> OccursAt(s, d, i) {
      OccursInBoth(s, t, d, p + |d|, i);
    }
    assert OccursAt(t, d, p);
  }

  /** The text up to the end of the first match is the text before it and the match. */
  lemma FirstMatchEnds(s: string, d: string)
    requires FirstMatch(s, d).Some?
    ensures var p := FirstMatch(s, d).value; p + |d| <= |s| && s[..p] + d == s[..p + |d|]
  {
    hide FirstMatch;
    var p := FirstMatch(s, d).value;
    assert OccursAt(s, d, p);
  }

  lemma Reassemble(key: Key, prefix: Key, p: nat, d: string)
    requires prefix <= key && p + |d| <= |key[|prefix|..]|
    requires key[|prefix|..][..p] + d == key[|prefix|..][..p + |d|]
    ensures RolledUp(prefix, key[|prefix|..][..p], d) == key[..|prefix| + p + |d|]
  {
    var n := |prefix|;
    assert key[..n] == prefix;
    Regroup(prefix, key[n..][..p], d);
    SliceOfSlice(key, n, |key|, 0, p + |d|);
    assert key[..n] + key[n..n + p + |d|] == key[..n + p + |d|];
  }

  /** A common prefix is the part of its key up to the end of the first delimiter after the prefix. */
  lemma CommonPrefixOfKey(key: Key, prefix: Key, delimiter: string)
    requires prefix <= key && EntryOf(key, prefix, delimiter).Common?
    ensures var at := FirstMatch(key[|prefix|..], delimiter);
            && delimiter != [] && at.Some? && |prefix| + at.value + |delimiter| <= |key|
            && EntryOf(key, prefix, delimiter).prefix == key[..|prefix| + at.value + |delimiter|]
  {
    hide FirstMatch, OccursAt, RolledUp;
    var rest := key[|prefix|..];
    FirstMatchEnds(rest, delimiter);
    Reassemble(key, prefix, FirstMatch(rest, delimiter).value, delimiter);
  }

  /** A common prefix extends the listed prefix, and EVERY key that starts with it is rolled up into it:
      no earlier delimiter can appear in a longer key. */
  lemma RollUpClosed(key: Key, other: Key, prefix: Key, delimiter: string)
    requires prefix <= key && EntryOf(key, prefix, delimiter).Common?
    ensures var c := EntryOf(key, prefix, delimiter).prefix;
            && prefix <= c <= key
            && (c <= other ==> prefix <= other && EntryOf(other, prefix, delimiter) == Common(c))
  {
    CommonPrefixOfKey(key, prefix, delimiter);
    if EntryOf(key, prefix, delimiter).prefix <= other {
      RollsUpAlike(key, other, prefix, delimiter);
    }
  }

  lemma RollsUpAlike(key: Key, other: Key, prefix: Key, delimiter: string)
    requires prefix <= key && EntryOf(key, prefix, delimiter).Common?
    requires EntryOf(key, prefix, delimiter).prefix <= other
    ensures prefix <= other && EntryOf(other, prefix, delimiter) == EntryOf(key, prefix, delimiter)
  {
    hide FirstMatch, OccursAt, RolledUp;
    CommonPrefixOfKey(key, prefix, delimiter);
    var n, end := |prefix|, FirstMatch(key[|prefix|..], delimiter).value + |delimiter|;
    assert other[..n + end] == key[..n + end];
    SliceOfSlice(other, 0, n + end, n, n + end);
    SliceOfSlice(key, 0, n + end, n, n + end);
    SliceOfSlice(other, n, |other|, 0, end);
    SliceOfSlice(key, n, |key|, 0, end);
    FirstMatchStable(key[n..], other[n..], delimiter);
    SliceOfSlice(other, 0, n + end, 0, n);
    SliceOfSlice(key, 0, n + end, 0, n);
    assert EntryOf(other, prefix, delimiter).Common?;
    CommonPrefixOfKey(other, prefix, delimiter);
  }

  /** Along ascending keys, the keys of one entry stand together: once another entry has come in
      between, the first cannot come back. */
  lemma EntriesStandTogether(a: Key, b: Key, c: Key, prefix: Key, delimiter: string)
    requires Less(a, b) && Less(b, c)
    requires prefix <= a && prefix <= b && prefix <= c
    requires EntryOf(a, prefix, delimiter) == EntryOf(c, prefix, delimiter)
    ensures EntryOf(b, prefix, delimiter) == EntryOf(a, prefix, delimiter)
  {
    if EntryOf(a, prefix, delimiter).Common? {
      RollUpClosed(a, b, prefix, delimiter);
      RollUpClosed(c, b, prefix, delimiter);
      PrefixConvex(EntryOf(a, prefix, delimiter).prefix, a, b, c);
    } else {
      LessTransitive(a, b, c);
      LessIrreflexive(a);
    }
  }

  /** Distinct common prefixes are ordered as the keys they come from. */
  lemma CommonPrefixesOrdered(a: Key, b: Key, prefix: Key, delimiter: string)
    requires Less(a, b) && prefix <= a && prefix <= b
    requires EntryOf(a, prefix, delimiter).Common? && EntryOf(b, prefix, delimiter).Common?
    requires EntryOf(a, prefix, delimiter) != EntryOf(b, prefix, delimiter)
    ensures Less(EntryOf(a, prefix, delimiter).prefix, EntryOf(b, prefix, delimiter).prefix)
  {
    RollUpClosed(a, b, prefix, delimiter);
    RollUpClosed(b, a, prefix, delimiter);
    PrefixesOrdered(EntryOf(a, prefix, delimiter).prefix, a, EntryOf(b, prefix, delimiter).prefix, b);
  }

  // ----- The listing, characterised -----

  ghost predicate Contributes(keys: seq<Key>, prefix: Key, delimiter: string, e: Entry) {
    exists i :: 0 <= i < |keys| && prefix <= keys[i] && EntryOf(keys[i], prefix, delimiter) == e
  }

  /** The listing holds exactly the entries that keys with the prefix contribute, each once. */
  lemma {:induction false} EntriesExact(keys: seq<Key>, prefix: Key, delimiter: string)
    ensures var es := Entries(keys, prefix, delimiter);
            && (forall e :: e in es <==> Contributes(keys, prefix, delimiter, e))
            && Distinct(es)
    decreases |keys|
  {
    hide EntryOf, Entries;
    if keys == [] {
      NoneMatching(keys, prefix, delimiter);
    } else {
      var n := |keys| - 1;
      EntriesExact(keys[..n], prefix, delimiter);
      EntriesStep(keys, n, prefix, delimiter);
      assert keys[..n + 1] == keys;
      forall e {
        ContributesStep(keys, prefix, delimiter, e);
      }
      var es := Entries(keys[..n], prefix, delimiter);
      if prefix <= keys[n] && EntryOf(keys[n], prefix, delimiter) !in es {
        DistinctSnoc(es, EntryOf(keys[n], prefix, delimiter));
      }
    }
  }

  // ----- The listing by the text of the keys alone -----

  /** `d` occurs in `s` at `i` and nowhere before. */
  ghost predicate FirstOccursAt(s: string, d: string, i: nat) {
    OccursAt(s, d, i) && forall j: nat | j < i :: !OccursAt(s, d, j)
  }

  /** A key under the prefix with no delimiter after it, or any key under it if there is no delimiter to look for. */
  ghost predicate ListedWhole(key: Key, prefix: Key, delimiter: string) {
    prefix <= key && (delimiter == "" || forall i: nat :: !OccursAt(key[|prefix|..], delimiter, i))
  }

  /** A key under the prefix whose text up to the end of the first delimiter after the prefix is `p`. */
  ghost predicate ListedUnder(key: Key, prefix: Key, delimiter: string, p: Key) {
    && prefix <= key && delimiter != ""
    && exists i: nat ::
         FirstOccursAt(key[|prefix|..], delimiter, i) && |prefix| + i + |delimiter| <= |key|
         && p == key[..|prefix| + i + |delimiter|]
  }

  lemma EntryIff(key: Key, prefix: Key, delimiter: string, p: Key)
    requires prefix <= key
    ensures EntryOf(key, prefix, delimiter) == Object(key) <==> ListedWhole(key, prefix, delimiter)
    ensures EntryOf(key, prefix, delimiter) == Common(p) <==> ListedUnder(key, prefix, delimiter, p)
  {
    hide FirstMatch, RolledUp;
    var rest := key[|prefix|..];
    var at := FirstMatch(rest, delimiter);
    if EntryOf(key, prefix, delimiter).Common? {
      CommonPrefixOfKey(key, prefix, delimiter);
      assert FirstOccursAt(rest, delimiter, at.value);
      forall i: nat | FirstOccursAt(rest, delimiter, i) ensures i == at.value {
      }
    }
  }

  /** Exactly the keys listed whole are the objects of a listing. */
  lemma ObjectsIff(keys: seq<Key>, prefix: Key, delimiter: string, key: Key)
    ensures key in Objects(Entries(keys, prefix, delimiter)) <==> key in keys && ListedWhole(key, prefix, delimiter)
  {
    hide Entries, Objects, EntryOf, ListedWhole;
    var es := Entries(keys, prefix, delimiter);
    ObjectsMember(es, key);
    EntriesExact(keys, prefix, delimiter);
    ContributesObject(keys, prefix, delimiter, key);
  }

  lemma ContributesObject(keys: seq<Key>, prefix: Key, delimiter: string, key: Key)
    ensures Contributes(keys, prefix, delimiter, Object(key)) <==> key in keys && ListedWhole(key, prefix, delimiter)
  {
    if Contributes(keys, prefix, delimiter, Object(key)) {
      var i :| 0 <= i < |keys| && prefix <= keys[i] && EntryOf(keys[i], prefix, delimiter) == Object(key);
      EntryIff(key, prefix, delimiter, key);
    } else if key in keys && prefix <= key {
      var i :| 0 <= i < |keys| && keys[i] == key;
      EntryIff(key, prefix, delimiter, key);
    }
  }

  ghost predicate SomeListedUnder(keys: seq<Key>, prefix: Key, delimiter: string, p: Key) {
    exists i :: 0 <= i < |keys| && ListedUnder(keys[i], prefix, delimiter, p)
  }

  /** Exactly the texts that some key is listed under are the common prefixes of a listing. */
  lemma PrefixesIff(keys: seq<Key>, prefix: Key, delimiter: string, p: Key)
    ensures p in Prefixes(Entries(keys, prefix, delimiter)) <==> SomeListedUnder(keys, prefix, delimiter, p)
  {
    hide Entries, Prefixes, EntryOf, ListedUnder;
    PrefixesMember(Entries(keys, prefix, delimiter), p);
    EntriesExact(keys, prefix, delimiter);
    ContributesPrefix(keys, prefix, delimiter, p);
  }

  lemma ContributesPrefix(keys: seq<Key>, prefix: Key, delimiter: string, p: Key)
    ensures Contributes(keys, prefix, delimiter, Common(p)) <==> SomeListedUnder(keys, prefix, delimiter, p)
  {
    hide EntryOf;
    if Contributes(keys, prefix, delimiter, Common(p)) {
      var i :| 0 <= i < |keys| && prefix <= keys[i] && EntryOf(keys[i], prefix, delimiter) == Common(p);
      EntryIff(keys[i], prefix, delimiter, p);
    }
    if SomeListedUnder(keys, prefix, delimiter, p) {
      var i :| 0 <= i < |keys| && ListedUnder(keys[i], prefix, delimiter, p);
      EntryIff(keys[i], prefix, delimiter, p);
    }
  }

  /** What a complete listing of a bucket is, by the text of the keys alone. */
  ghost predicate IsListing(objects: seq<Key>, prefixes: seq<Key>, keys: seq<Key>, prefix: Key, delimiter: string) {
    && (forall k :: k in objects <==> k in keys && ListedWhole(k, prefix, delimiter))
    && (forall p :: p in prefixes <==> SomeListedUnder(keys, prefix, delimiter, p))
  }

  /** The one-shot listing is that. */
  lemma EntriesAreListing(keys: seq<Key>, prefix: Key, delimiter: string)
    ensures IsListing(Objects(Entries(keys, prefix, delimiter)), Prefixes(Entries(keys, prefix, delimiter)),
                      keys, prefix, delimiter)
  {
    hide Entries, Objects, Prefixes, ListedWhole, SomeListedUnder;
    var es := Entries(keys, prefix, delimiter);
    forall k ensures k in Objects(es) <==> k in keys && ListedWhole(k, prefix, delimiter) {
      ObjectsIff(keys, prefix, delimiter, k);
    }
    forall p ensures p in Prefixes(es) <==> SomeListedUnder(keys, prefix, delimiter, p) {
      PrefixesIff(keys, prefix, delimiter, p);
    }
  }

  ghost predicate Distinct<T>(s: seq<T>) {
    forall i, j | 0 <= i < j < |s| :: s[i] != s[j]
  }

  lemma DistinctSnoc<T>(s: seq<T>, x: T)
    requires Distinct(s) && x !in s
    ensures Distinct(s + [x])
  {
  }

  lemma ContributesStep(keys: seq<Key>, prefix: Key, delimiter: string, e: Entry)
    requires keys != []
    ensures var init, key := keys[..|keys| - 1], keys[|keys| - 1];
            Contributes(keys, prefix, delimiter, e) <==>
            Contributes(init, prefix, delimiter, e) || (prefix <= key && EntryOf(key, prefix, delimiter) == e)
  {
    hide EntryOf;
    var init := keys[..|keys| - 1];
    if Contributes(init, prefix, delimiter, e) {
      var i :| 0 <= i < |init| && prefix <= init[i] && EntryOf(init[i], prefix, delimiter) == e;
      assert keys[i] == init[i];
    }
    if Contributes(keys, prefix, delimiter, e) {
      var i :| 0 <= i < |keys| && prefix <= keys[i] && EntryOf(keys[i], prefix, delimiter) == e;
      assert i < |init| ==> init[i] == keys[i];
    }
  }

  lemma EntriesStep(rest: seq<Key>, i: nat, prefix: Key, delimiter: string)
    requires i < |rest|
    ensures var es := Entries(rest[..i], prefix, delimiter);
            Entries(rest[..i + 1], prefix, delimiter) ==
            if !(prefix <= rest[i]) || EntryOf(rest[i], prefix, delimiter) in es then es
            else es + [EntryOf(rest[i], prefix, delimiter)]
  {
    assert rest[..i + 1][..i] == rest[..i];
  }

  lemma ProjectStep(es: seq<Entry>, e: Entry)
    ensures Objects(es + [e]) == if e.Object? then Objects(es) + [e.key] else Objects(es)
    ensures Prefixes(es + [e]) == if e.Common? then Prefixes(es) + [e.prefix] else Prefixes(es)
  {
    assert (es + [e])[..|es|] == es;
  }

  lemma {:induction false} ProjectAppend(a: seq<Entry>, b: seq<Entry>)
    ensures Objects(a + b) == Objects(a) + Objects(b)
    ensures Prefixes(a + b) == Prefixes(a) + Prefixes(b)
    decreases |b|
  {
    hide Objects, Prefixes;
    if b == [] {
      Nil(a);
      ProjectNothing();
    } else {
      var init, e := b[..|b| - 1], b[|b| - 1];
      ProjectAppend(a, init);
      ProjectStep(a + init, e);
      ProjectStep(init, e);
      Snoc(b);
      Regroup(a, init, [e]);
    }
  }

  lemma ProjectNothing()
    ensures Objects([]) == [] && Prefixes([]) == []
  {
  }

  /** Both halves of the listing come out in ascending order. */
  lemma {:induction false} EntriesAscend(keys: seq<Key>, prefix: Key, delimiter: string)
    requires Ascending(keys)
    ensures Ascending(Objects(Entries(keys, prefix, delimiter)))
    ensures Ascending(Prefixes(Entries(keys, prefix, delimiter)))
    decreases |keys|
  {
    if keys == [] {
      assert Entries(keys, prefix, delimiter) == [];
    } else {
      var n, key := |keys| - 1, keys[|keys| - 1];
      EntriesAscend(keys[..n], prefix, delimiter);
      AscendStep(keys, n, prefix, delimiter);
      assert keys[..n + 1] == keys;
    }
  }

  lemma AscendStep(keys: seq<Key>, n: nat, prefix: Key, delimiter: string)
    requires Ascending(keys) && n < |keys|
    requires Ascending(Objects(Entries(keys[..n], prefix, delimiter)))
    requires Ascending(Prefixes(Entries(keys[..n], prefix, delimiter)))
    ensures Ascending(Objects(Entries(keys[..n + 1], prefix, delimiter)))
    ensures Ascending(Prefixes(Entries(keys[..n + 1], prefix, delimiter)))
  {
    hide Entries, EntryOf, Objects, Prefixes, Less;
    EntriesStep(keys, n, prefix, delimiter);
    if prefix <= keys[n] {
      var es, e := Entries(keys[..n], prefix, delimiter), EntryOf(keys[n], prefix, delimiter);
      if e !in es {
        NextEntryIsLast(keys[..n], keys[n], prefix, delimiter);
        ProjectStep(es, e);
      }
    }
  }

  lemma {:induction false} ObjectsMember(es: seq<Entry>, key: Key)
    ensures key in Objects(es) <==> Object(key) in es
    decreases |es|
  {
    if es != [] {
      ObjectsMember(es[..|es| - 1], key);
      assert es == es[..|es| - 1] + [es[|es| - 1]];
    }
  }

  lemma {:induction false} PrefixesMember(es: seq<Entry>, p: Key)
    ensures p in Prefixes(es) <==> Common(p) in es
    decreases |es|
  {
    if es != [] {
      PrefixesMember(es[..|es| - 1], p);
      assert es == es[..|es| - 1] + [es[|es| - 1]];
    }
  }

  /** A key after all others contributes an object or common prefix after all others. */
  lemma NextEntryIsLast(keys: seq<Key>, key: Key, prefix: Key, delimiter: string)
    requires Ascending(keys) && prefix <= key
    requires forall i | 0 <= i < |keys| :: Less(keys[i], key)
    requires EntryOf(key, prefix, delimiter) !in Entries(keys, prefix, delimiter)
    ensures var e, es := EntryOf(key, prefix, delimiter), Entries(keys, prefix, delimiter);
            match e
            case Object(k) => forall o <- Objects(es) :: Less(o, k)
            case Common(c) => forall p <- Prefixes(es) :: Less(p, c)
  {
    var e, es := EntryOf(key, prefix, delimiter), Entries(keys, prefix, delimiter);
    EntriesExact(keys, prefix, delimiter);
    match e
    case Object(k) =>
      forall o <- Objects(es) ensures Less(o, k) {
        ObjectsMember(es, o);
        assert Contributes(keys, prefix, delimiter, Object(o));
      }
    case Common(c) =>
      forall p <- Prefixes(es) ensures Less(p, c) {
        PrefixesMember(es, p);
        assert Contributes(keys, prefix, delimiter, Common(p));
        var i :| 0 <= i < |keys| && prefix <= keys[i] && EntryOf(keys[i], prefix, delimiter) == Common(p);
        CommonPrefixesOrdered(keys[i], key, prefix, delimiter);
      }
  }

  // ----- Cutting the listing -----

  ghost predicate Separate(a: seq<Key>, b: seq<Key>, prefix: Key, delimiter: string) {
    forall k <- b | prefix <= k :: EntryOf(k, prefix, delimiter) !in Entries(a, prefix, delimiter)
  }

  lemma {:induction false} EntriesAppend(a: seq<Key>, b: seq<Key>, prefix: Key, delimiter: string)
    requires Separate(a, b, prefix, delimiter)
    ensures Entries(a + b, prefix, delimiter) == Entries(a, prefix, delimiter) + Entries(b, prefix, delimiter)
    decreases |b|
  {
    hide Entries, EntryOf;
    if b == [] {
      Nil(a);
      NoneMatching(b, prefix, delimiter);
    } else {
      var n, key := |b| - 1, b[|b| - 1];
      EntriesAppend(a, b[..n], prefix, delimiter);
      EntriesStep(b, n, prefix, delimiter);
      EntriesStep(a + b, |a| + n, prefix, delimiter);
      assert (a + b)[..|a| + n] == a + b[..n] && (a + b)[..|a| + n + 1] == a + b && b[..n + 1] == b;
    }
  }

  /** If the key at `i` starts a new entry, no later key goes back to an earlier one. */
  lemma NewEntrySeparates(keys: seq<Key>, i: nat, prefix: Key, delimiter: string)
    requires Ascending(keys) && i < |keys| && prefix <= keys[i]
    requires EntryOf(keys[i], prefix, delimiter) !in Entries(keys[..i], prefix, delimiter)
    ensures Separate(keys[..i], keys[i..], prefix, delimiter)
  {
    EntriesExact(keys[..i], prefix, delimiter);
    forall k <- keys[i..] | prefix <= k
      ensures EntryOf(k, prefix, delimiter) !in Entries(keys[..i], prefix, delimiter)
    {
      if Contributes(keys[..i], prefix, delimiter, EntryOf(k, prefix, delimiter)) {
        var h :| 0 <= h < i && prefix <= keys[..i][h]
                 && EntryOf(keys[..i][h], prefix, delimiter) == EntryOf(k, prefix, delimiter);
        if k != keys[i] {
          EntriesStandTogether(keys[h], keys[i], k, prefix, delimiter);
        }
      }
    }
  }

  /** Once a key's first characters are above the prefix, no later key can start with the prefix. */
  lemma NothingAfter(keys: seq<Key>, i: nat, prefix: Key, delimiter: string)
    requires Ascending(keys) && i < |keys|
    requires Less(prefix, Truncated(keys[i], |prefix|))
    ensures Entries(keys, prefix, delimiter) == Entries(keys[..i], prefix, delimiter)
  {
    LessIrreflexive(prefix);
    forall j | i <= j < |keys| ensures !(prefix <= keys[j]) {
      if prefix <= keys[j] {
        assert Truncated(keys[j], |prefix|) == prefix;
        if i < j {
          TruncatedMonotone(keys[i], keys[j], |prefix|);
        }
      }
    }
    NoneMatching(keys[i..], prefix, delimiter);
    assert keys[..i] + keys[i..] == keys;
    EntriesAppend(keys[..i], keys[i..], prefix, delimiter);
  }

  lemma {:induction false} NoneMatching(keys: seq<Key>, prefix: Key, delimiter: string)
    requires forall i | 0 <= i < |keys| :: !(prefix <= keys[i])
    ensures Entries(keys, prefix, delimiter) == []
    decreases |keys|
  {
    if keys != [] {
      NoneMatching(keys[..|keys| - 1], prefix, delimiter);
    }
  }

  // ----- Pages -----

  /** One page of a listing, with the token to resume at if there is more. */
  datatype Page<+T> = Page(objects: seq<Key>, commonPrefixes: seq<Key>, next: Option<T>)

  function AllObjects<T>(pages: seq<Page<T>>): seq<Key> {
    if pages == [] then [] else AllObjects(pages[..|pages| - 1]) + pages[|pages| - 1].objects
  }

  function AllPrefixes<T>(pages: seq<Page<T>>): seq<Key> {
    if pages == [] then [] else AllPrefixes(pages[..|pages| - 1]) + pages[|pages| - 1].commonPrefixes
  }

  lemma AllStep<T>(pages: seq<Page<T>>, page: Page<T>)
    ensures AllObjects(pages + [page]) == AllObjects(pages) + page.objects
    ensures AllPrefixes(pages + [page]) == AllPrefixes(pages) + page.commonPrefixes
  {
    assert (pages + [page])[..|pages|] == pages;
  }
}
