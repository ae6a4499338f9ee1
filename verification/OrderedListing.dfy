/** Paging through a listing with continuation tokens that are keys (ListObjectsV2 in key order). */
module OrderedListing {
  import opened Arithmetic
  import opened KeyOrder
  import opened Listing
  import opened Sequences
  import opened Wrappers

  /** Insertion into a set kept in ascending order. */
  function Inserted(s: seq<Key>, x: Key): (r: seq<Key>)
    ensures |r| == |s| + 1
  {
    if s == [] || Less(x, s[0]) then [x] + s else [s[0]] + Inserted(s[1..], x)
  }

  lemma {:induction false} InsertedLast(s: seq<Key>, x: Key)
    requires forall k <- s :: Less(k, x)
    ensures Inserted(s, x) == s + [x]
    decreases |s|
  {
    if s != [] {
      assert Less(s[0], x);
      if Less(x, s[0]) {
        LessTransitive(x, s[0], x);
        LessIrreflexive(x);
      }
      InsertedLast(s[1..], x);
    }
  }

  /** Position of the first key not below the token: where iteration over the keys starts. */
  function Start(keys: seq<Key>, token: Option<Key>): (n: nat)
    ensures n <= |keys|
  {
    if token.None? || keys == [] || !Less(keys[0], token.value) then 0 else Start(keys[1..], token) + 1
  }

  /** Iteration takes exactly the keys not below the token. */
  lemma {:induction false} StartIff(keys: seq<Key>, token: Key, i: nat)
    requires Ascending(keys) && i < |keys|
    ensures Start(keys, Some(token)) <= i <==> !Less(keys[i], token)
    decreases |keys|
  {
    if Less(keys[0], token) {
      if i != 0 {
        StartIff(keys[1..], token, i - 1);
      }
    } else if i != 0 && Less(keys[i], token) {
      LessTransitive(keys[0], keys[i], token);
    }
  }

  /** What is left to list when resuming at a token. */
  ghost function Remaining(keys: seq<Key>, token: Option<Key>, prefix: Key, delimiter: string): seq<Entry> {
    Entries(keys[Start(keys, token)..], prefix, delimiter)
  }

  /** Resuming at a key of the bucket starts at that very key. */
  lemma {:induction false} StartAtKey(keys: seq<Key>, i: nat)
    requires Ascending(keys) && i < |keys|
    ensures Start(keys, Some(keys[i])) == i
    decreases |keys|
  {
    LessIrreflexive(keys[i]);
    if i != 0 {
      assert keys[1..][i - 1] == keys[i];
      StartAtKey(keys[1..], i - 1);
    }
  }

  lemma {:induction false} StartNotBelow(keys: seq<Key>, token: Key)
    ensures Start(keys, Some(token)) < |keys| ==> !Less(keys[Start(keys, Some(token))], token)
    decreases |keys|
  {
    if keys != [] && Less(keys[0], token) {
      StartNotBelow(keys[1..], token);
    }
  }

  ghost predicate LastOf(s: seq<Key>, last: Option<Key>) {
    if s == [] then last.None? else last == Some(s[|s| - 1])
  }

  // ----- One step of the loop over the keys -----

  /** A key that starts with a common prefix already listed adds nothing. */
  lemma RolledUpAlready(done: seq<Key>, c: Key, key: Key, prefix: Key, delimiter: string)
    requires c in Prefixes(Entries(done, prefix, delimiter)) && c <= key && prefix <= key
    ensures EntryOf(key, prefix, delimiter) in Entries(done, prefix, delimiter)
  {
    var es := Entries(done, prefix, delimiter);
    PrefixesMember(es, c);
    EntriesExact(done, prefix, delimiter);
    assert Contributes(done, prefix, delimiter, Common(c));
    var i :| 0 <= i < |done| && prefix <= done[i] && EntryOf(done[i], prefix, delimiter) == Common(c);
    RollUpClosed(done[i], key, prefix, delimiter);
  }

  /** A key's own name can only be listed once. */
  lemma ObjectIsNew(keys: seq<Key>, i: nat, prefix: Key, delimiter: string)
    requires Ascending(keys) && i < |keys| && prefix <= keys[i]
    requires EntryOf(keys[i], prefix, delimiter).Object?
    ensures EntryOf(keys[i], prefix, delimiter) !in Entries(keys[..i], prefix, delimiter)
  {
    EntriesExact(keys[..i], prefix, delimiter);
    LessIrreflexive(keys[i]);
  }

  /** If a later key returns to the common prefix of key `h`, every other common prefix up to there is
      a smaller one. */
  lemma ReturnsOnlyToLargest(keys: seq<Key>, h: nat, m: nat, i: nat, prefix: Key, delimiter: string)
    requires Ascending(keys) && h < i && m < i < |keys|
    requires prefix <= keys[h] && prefix <= keys[m] && prefix <= keys[i]
    requires EntryOf(keys[h], prefix, delimiter) == EntryOf(keys[i], prefix, delimiter)
    requires EntryOf(keys[i], prefix, delimiter).Common? && EntryOf(keys[m], prefix, delimiter).Common?
    requires EntryOf(keys[m], prefix, delimiter) != EntryOf(keys[i], prefix, delimiter)
    ensures Less(EntryOf(keys[m], prefix, delimiter).prefix, EntryOf(keys[i], prefix, delimiter).prefix)
  {
    hide EntryOf, Less;
    if h < m {
      EntriesStandTogether(keys[h], keys[m], keys[i], prefix, delimiter);
    } else {
      CommonPrefixesOrdered(keys[m], keys[h], prefix, delimiter);
    }
  }

  /** A key that does not start with the LAST common prefix listed is not covered by any of them. */
  lemma NotYetListed(keys: seq<Key>, i: nat, last: Option<Key>, prefix: Key, delimiter: string)
    requires Ascending(keys) && i < |keys| && prefix <= keys[i]
    requires LastOf(Prefixes(Entries(keys[..i], prefix, delimiter)), last)
    requires last.None? || !(last.value <= keys[i])
    ensures EntryOf(keys[i], prefix, delimiter) !in Entries(keys[..i], prefix, delimiter)
  {
    hide EntryOf, Entries, Prefixes, Less;
    var done, key := keys[..i], keys[i];
    var es, e := Entries(done, prefix, delimiter), EntryOf(key, prefix, delimiter);
    if e.Object? {
      ObjectIsNew(keys, i, prefix, delimiter);
    } else if e in es {
      PrefixesMember(es, e.prefix);
      PrefixesMember(es, last.value);
      RollUpClosed(key, key, prefix, delimiter);
      EntriesAscend(done, prefix, delimiter);
      EntriesExact(done, prefix, delimiter);
      assert Contributes(done, prefix, delimiter, e) && Contributes(done, prefix, delimiter, Common(last.value));
      var h :| 0 <= h < i && prefix <= done[h] && EntryOf(done[h], prefix, delimiter) == e;
      var m :| 0 <= m < i && prefix <= done[m] && EntryOf(done[m], prefix, delimiter) == Common(last.value);
      ReturnsOnlyToLargest(keys, h, m, i, prefix, delimiter);
      LessTransitive(e.prefix, last.value, e.prefix);
      LessIrreflexive(e.prefix);
    }
  }

  /** The page so far: exactly the listing of the first `i` of the remaining keys. */
  ghost predicate Listed(rest: seq<Key>, i: nat, prefix: Key, delimiter: string,
                         objects: seq<Key>, commonPrefixes: seq<Key>, current: Option<Key>)
  {
    && i <= |rest|
    && objects == Objects(Entries(rest[..i], prefix, delimiter))
    && commonPrefixes == Prefixes(Entries(rest[..i], prefix, delimiter))
    && LastOf(commonPrefixes, current)
    && |Entries(rest[..i], prefix, delimiter)| == |objects| + |commonPrefixes|
  }

  lemma NothingListed(rest: seq<Key>, prefix: Key, delimiter: string)
    ensures Listed(rest, 0, prefix, delimiter, [], [], None)
  {
  }

  lemma NonEmptyAdvances(rest: seq<Key>, i: nat, prefix: Key, delimiter: string,
                         objects: seq<Key>, commonPrefixes: seq<Key>, current: Option<Key>)
    requires Listed(rest, i, prefix, delimiter, objects, commonPrefixes, current)
    requires |commonPrefixes| + |objects| != 0
    ensures i != 0
  {
  }

  lemma AscendingSuffix(keys: seq<Key>, start: nat)
    requires Ascending(keys) && start <= |keys|
    ensures Ascending(keys[start..])
  {
  }

  lemma SkipKey(rest: seq<Key>, i: nat, prefix: Key, delimiter: string,
                objects: seq<Key>, commonPrefixes: seq<Key>, current: Option<Key>)
    requires Listed(rest, i, prefix, delimiter, objects, commonPrefixes, current) && i < |rest|
    requires prefix <= rest[i] ==> current.Some? && current.value <= rest[i]
    ensures Listed(rest, i + 1, prefix, delimiter, objects, commonPrefixes, current)
  {
    hide Entries, Objects, Prefixes, EntryOf;
    EntriesStep(rest, i, prefix, delimiter);
    if prefix <= rest[i] {
      RolledUpAlready(rest[..i], current.value, rest[i], prefix, delimiter);
    }
  }

  lemma AddObject(rest: seq<Key>, i: nat, prefix: Key, delimiter: string,
                  objects: seq<Key>, commonPrefixes: seq<Key>, current: Option<Key>)
    requires Listed(rest, i, prefix, delimiter, objects, commonPrefixes, current) && i < |rest|
    requires Ascending(rest) && prefix <= rest[i] && EntryOf(rest[i], prefix, delimiter) == Object(rest[i])
    ensures Listed(rest, i + 1, prefix, delimiter, objects + [rest[i]], commonPrefixes, current)
  {
    hide Entries, Objects, Prefixes, EntryOf;
    EntriesStep(rest, i, prefix, delimiter);
    ObjectIsNew(rest, i, prefix, delimiter);
    ProjectStep(Entries(rest[..i], prefix, delimiter), Object(rest[i]));
  }

  lemma AddCommonPrefix(rest: seq<Key>, i: nat, prefix: Key, delimiter: string, c: Key,
                        objects: seq<Key>, commonPrefixes: seq<Key>, current: Option<Key>)
    requires Listed(rest, i, prefix, delimiter, objects, commonPrefixes, current) && i < |rest|
    requires Ascending(rest) && prefix <= rest[i] && EntryOf(rest[i], prefix, delimiter) == Common(c)
    ensures if c in commonPrefixes then Listed(rest, i + 1, prefix, delimiter, objects, commonPrefixes, current)
            else Listed(rest, i + 1, prefix, delimiter, objects, Inserted(commonPrefixes, c), Some(c))
  {
    hide Entries, Objects, Prefixes, EntryOf;
    var es := Entries(rest[..i], prefix, delimiter);
    EntriesStep(rest, i, prefix, delimiter);
    PrefixesMember(es, c);
    if c !in commonPrefixes {
      NextEntryIsLast(rest[..i], rest[i], prefix, delimiter);
      InsertedLast(commonPrefixes, c);
      ProjectStep(es, Common(c));
    }
  }

  /** The token starts a new entry, so the listing splits there. */
  lemma TokenSplits(keys: seq<Key>, start: nat, i: nat, prefix: Key, delimiter: string,
                    objects: seq<Key>, commonPrefixes: seq<Key>, current: Option<Key>)
    requires Ascending(keys) && start + i < |keys| && prefix <= keys[start + i]
    requires Listed(keys[start..], i, prefix, delimiter, objects, commonPrefixes, current)
    requires current.None? || !(current.value <= keys[start + i])
    ensures var listed, left := Entries(keys[start..][..i], prefix, delimiter),
                                Remaining(keys, Some(keys[start + i]), prefix, delimiter);
            Entries(keys[start..], prefix, delimiter) == listed + left && left != []
  {
    hide Entries, Objects, Prefixes, EntryOf;
    var rest := keys[start..];
    assert rest[i..] == keys[start + i..] && rest[..i] + rest[i..] == rest;
    NotYetListed(rest, i, current, prefix, delimiter);
    NewEntrySeparates(rest, i, prefix, delimiter);
    EntriesAppend(rest[..i], rest[i..], prefix, delimiter);
    StartAtKey(keys, start + i);
    EntriesExact(rest[i..], prefix, delimiter);
    assert rest[i..][0] == rest[i];
    assert Contributes(rest[i..], prefix, delimiter, EntryOf(rest[i], prefix, delimiter));
  }

  lemma TokenAdvances(keys: seq<Key>, token: Key, i: nat)
    requires Ascending(keys) && Start(keys, Some(token)) < i < |keys|
    ensures Less(token, keys[i])
  {
    var s := Start(keys, Some(token));
    StartNotBelow(keys, token);
    LessTotal(token, keys[s]);
    if Less(token, keys[s]) {
      LessTransitive(token, keys[s], keys[i]);
    }
  }

  /** The page is a cut of the listing. */
  lemma PageCut(keys: seq<Key>, start: nat, i: nat, prefix: Key, delimiter: string, current: Option<Key>,
                maxKeys: nat, page: Page<Key>)
    requires start <= |keys| && Listed(keys[start..], i, prefix, delimiter, page.objects, page.commonPrefixes, current)
    requires |page.commonPrefixes| + |page.objects| <= maxKeys
    requires var all := Entries(keys[start..], prefix, delimiter);
             var listed := Entries(keys[start..][..i], prefix, delimiter);
             if page.next.None? then all == listed
             else var left := Remaining(keys, page.next, prefix, delimiter);
               all == listed + left && left != [] && |page.commonPrefixes| + |page.objects| >= maxKeys
    ensures var all := Entries(keys[start..], prefix, delimiter);
            var n := Min(maxKeys, |all|);
            && page.objects == Objects(all[..n])
            && page.commonPrefixes == Prefixes(all[..n])
            && (page.next.Some? <==> maxKeys < |all|)
            && (page.next.Some? ==> Remaining(keys, page.next, prefix, delimiter) == all[n..])
  {
    hide Entries, Objects, Prefixes;
    var all, listed := Entries(keys[start..], prefix, delimiter), Entries(keys[start..][..i], prefix, delimiter);
    assert all[..|listed|] == listed;
  }

  /** One page: at most `maxKeys` entries of what remains, in order, and a token exactly when entries are
      left over; resuming at the token leaves exactly those. */
  method ListObjects(keys: seq<Key>, token: Option<Key>, delimiter: string, maxKeys: nat, prefix: Key)
    returns (page: Page<Key>)
    requires Ascending(keys)
    ensures var all := Remaining(keys, token, prefix, delimiter);
            var n := Min(maxKeys, |all|);
            && page.objects == Objects(all[..n])
            && page.commonPrefixes == Prefixes(all[..n])
            && (page.next.Some? <==> maxKeys < |all|)
            && (page.next.Some? ==> page.next.value in keys)
            && (page.next.Some? ==> Remaining(keys, page.next, prefix, delimiter) == all[n..])
    ensures page.next.Some? && token.Some? && maxKeys != 0 ==> Less(token.value, page.next.value)
  {
    hide Ascending, Listed, LastOf, Entries, Objects, Prefixes, EntryOf, Less, Truncated, Inserted, Start;
    var commonPrefixes: seq<Key> := [];
    var objects: seq<Key> := [];
    var next: Option<Key> := None;
    var current: Option<Key> := None;
    var start := Start(keys, token);
    var rest, i := keys[start..], 0;
    ghost var all := Entries(rest, prefix, delimiter);
    NothingListed(rest, prefix, delimiter);
    assert Ascending(rest) by {
      AscendingSuffix(keys, start);
    }
    while i < |rest|
      invariant 0 <= i <= |rest|
      invariant next.None?
      invariant Listed(rest, i, prefix, delimiter, objects, commonPrefixes, current)
      invariant |commonPrefixes| + |objects| <= maxKeys
    {
      var key := rest[i];
      if Less(prefix, Truncated(key, |prefix|)) {
        NothingAfter(rest, i, prefix, delimiter);
        break;
      }
      if !(prefix <= key) {
        SkipKey(rest, i, prefix, delimiter, objects, commonPrefixes, current);
        i := i + 1;
        continue;
      }
      if |commonPrefixes| + |objects| >= maxKeys {
        if current.Some? && current.value <= key {
          SkipKey(rest, i, prefix, delimiter, objects, commonPrefixes, current);
          i := i + 1;
          continue;
        }
        next := Some(key);
        TokenSplits(keys, start, i, prefix, delimiter, objects, commonPrefixes, current);
        break;
      }
      var entry := EntryOf(key, prefix, delimiter);
      if entry.Common? {
        AddCommonPrefix(rest, i, prefix, delimiter, entry.prefix, objects, commonPrefixes, current);
        if entry.prefix !in commonPrefixes {
          commonPrefixes := Inserted(commonPrefixes, entry.prefix);
          current := Some(entry.prefix);
        }
      } else {
        AddObject(rest, i, prefix, delimiter, objects, commonPrefixes, current);
        objects := objects + [key];
      }
      i := i + 1;
    }
    page := Page(objects, commonPrefixes, next);
    assert rest[..|rest|] == rest;
    PageCut(keys, start, i, prefix, delimiter, current, maxKeys, page);
    if next.Some? && token.Some? && maxKeys != 0 {
      NonEmptyAdvances(rest, i, prefix, delimiter, objects, commonPrefixes, current);
      TokenAdvances(keys, token.value, start + i);
    }
  }

  // ----- Following the tokens -----

  function Size(page: Page<Key>): nat {
    |page.objects| + |page.commonPrefixes|
  }

  lemma {:induction false} ProjectSize(es: seq<Entry>)
    ensures |Objects(es)| + |Prefixes(es)| == |es|
    decreases |es|
  {
    if es != [] {
      ProjectSize(es[..|es| - 1]);
    }
  }

  /** Paging is complete and free of duplicates: the pages from no token to no token, put together, are the
      one-shot listing of the whole bucket, in ascending order, and only the last page is not full. */
  method ListAll(keys: seq<Key>, delimiter: string, maxKeys: nat, prefix: Key) returns (pages: seq<Page<Key>>)
    requires Ascending(keys)
    requires maxKeys != 0
    ensures AllObjects(pages) == Objects(Entries(keys, prefix, delimiter))
    ensures AllPrefixes(pages) == Prefixes(Entries(keys, prefix, delimiter))
    ensures Ascending(AllObjects(pages)) && Ascending(AllPrefixes(pages))
    ensures IsListing(AllObjects(pages), AllPrefixes(pages), keys, prefix, delimiter)
    ensures pages != [] && Size(pages[|pages| - 1]) <= maxKeys
    ensures forall i | 0 <= i < |pages| - 1 :: Size(pages[i]) == maxKeys
  {
    hide Entries, Objects, Prefixes, Start, Remaining, Ascending, AllObjects, AllPrefixes, Size, Min, IsListing;
    ghost var all := Entries(keys, prefix, delimiter);
    EntriesAscend(keys, prefix, delimiter);
    EntriesAreListing(keys, prefix, delimiter);
    pages := [];
    var token: Option<Key> := None;
    ghost var listed, left: seq<Entry> := [], all;
    NoPages(keys, prefix, delimiter);
    while true
      invariant left == Remaining(keys, token, prefix, delimiter) && all == listed + left
      invariant AllObjects(pages) == Objects(listed) && AllPrefixes(pages) == Prefixes(listed)
      invariant forall i | 0 <= i < |pages| :: Size(pages[i]) == maxKeys
      decreases |left|
    {
      var page := ListObjects(keys, token, delimiter, maxKeys, prefix);
      AddPage(pages, page, listed, left, maxKeys);
      ghost var n := Min(maxKeys, |left|);
      pages := pages + [page];
      listed, left := listed + left[..n], left[n..];
      if page.next.None? {
        break;
      }
      token := page.next;
    }
  }

  lemma NoPages(keys: seq<Key>, prefix: Key, delimiter: string)
    ensures Remaining(keys, None, prefix, delimiter) == Entries(keys, prefix, delimiter)
    ensures AllObjects<Key>([]) == Objects([]) && AllPrefixes<Key>([]) == Prefixes([])
  {
    assert keys[Start(keys, None)..] == keys;
  }

  lemma AddPage(pages: seq<Page<Key>>, page: Page<Key>, listed: seq<Entry>, left: seq<Entry>, maxKeys: nat)
    requires AllObjects(pages) == Objects(listed) && AllPrefixes(pages) == Prefixes(listed)
    requires var n := Min(maxKeys, |left|);
             page.objects == Objects(left[..n]) && page.commonPrefixes == Prefixes(left[..n])
    ensures var n := Min(maxKeys, |left|);
            && n <= |left|
            && AllObjects(pages + [page]) == Objects(listed + left[..n])
            && AllPrefixes(pages + [page]) == Prefixes(listed + left[..n])
            && Size(page) == n
            && listed + left == listed + left[..n] + left[n..]
            && (maxKeys < |left| ==> n == maxKeys)
            && (maxKeys >= |left| ==> listed + left[..n] == listed + left && n <= maxKeys)
  {
    hide Objects, Prefixes, AllObjects, AllPrefixes;
    var n := Min(maxKeys, |left|);
    ProjectAppend(listed, left[..n]);
    ProjectSize(left[..n]);
    AllStep(pages, page);
    assert left[..n] + left[n..] == left;
    Regroup(listed, left[..n], left[n..]);
    Nil(left[..n]);
  }
}
