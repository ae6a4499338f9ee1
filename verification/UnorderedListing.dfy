/** Listing in an arbitrary fixed order, as directory buckets do: tokens are positions in that order. */
module UnorderedListing {
  import opened KeyOrder
  import opened Listing
  import opened Wrappers

  /** The keys with the prefix, each once, in any order. */
  ghost predicate Arrangement(order: seq<Key>, keys: seq<Key>, prefix: Key) {
    Distinct(order) && forall k :: k in order <==> k in keys && prefix <= k
  }

  ghost predicate Matching(keys: seq<Key>, prefix: Key) {
    forall i | 0 <= i < |keys| :: prefix <= keys[i]
  }

  ghost function PageKeys(order: seq<Key>, index: nat, maxKeys: nat): seq<Key> {
    if index >= |order| then []
    else if index + maxKeys < |order| then order[index..index + maxKeys]
    else order[index..]
  }

  /** Listing one more key of a page. */
  lemma ListKey(keys: seq<Key>, n: nat, prefix: Key, delimiter: string)
    requires Distinct(keys) && n < |keys| && prefix <= keys[n]
    ensures var es, e := Entries(keys[..n], prefix, delimiter), EntryOf(keys[n], prefix, delimiter);
            && (e.Object? ==> Entries(keys[..n + 1], prefix, delimiter) == es + [e])
            && (e.Common? && e.prefix in Prefixes(es) ==> Entries(keys[..n + 1], prefix, delimiter) == es)
            && (e.Common? && e.prefix !in Prefixes(es) ==> Entries(keys[..n + 1], prefix, delimiter) == es + [e])
            && Objects(es + [e]) == (if e.Object? then Objects(es) + [e.key] else Objects(es))
            && Prefixes(es + [e]) == (if e.Common? then Prefixes(es) + [e.prefix] else Prefixes(es))
  {
    hide Entries, EntryOf, Objects, Prefixes;
    var es, e := Entries(keys[..n], prefix, delimiter), EntryOf(keys[n], prefix, delimiter);
    EntriesStep(keys, n, prefix, delimiter);
    ProjectStep(es, e);
    if e.Common? {
      PrefixesMember(es, e.prefix);
    } else {
      EntriesExact(keys[..n], prefix, delimiter);
    }
  }

  /** One page: the listing of the next `maxKeys` keys of the order, in which no common prefix is repeated,
      and a token as long as the page was full. */
  method ListObjects(order: seq<Key>, token: Option<nat>, delimiter: string, maxKeys: nat, prefix: Key)
    returns (page: Page<nat>)
    requires Distinct(order) && Matching(order, prefix)
    ensures var index := if token.Some? then token.value else 0;
            var es := Entries(PageKeys(order, index, maxKeys), prefix, delimiter);
            && page.objects == Objects(es)
            && page.commonPrefixes == Prefixes(es)
            && (page.next.Some? <==> index + maxKeys <= |order| || maxKeys == 0)
            && (page.next.Some? ==> page.next.value == index + maxKeys)
  {
    hide Entries, EntryOf, Objects, Prefixes;
    var index := if token.Some? then token.value else 0;
    var next := index;
    var commonPrefixes: seq<Key>, objects: seq<Key> := [], [];
    ghost var keys := PageKeys(order, index, maxKeys);
    NothingListed(prefix, delimiter);
    while next < |order| && next < index + maxKeys
      invariant index <= next <= index + |keys|
      invariant objects == Objects(Entries(keys[..next - index], prefix, delimiter))
      invariant commonPrefixes == Prefixes(Entries(keys[..next - index], prefix, delimiter))
    {
      var key := order[next];
      assert key == keys[next - index];
      ListKey(keys, next - index, prefix, delimiter);
      var entry := EntryOf(key, prefix, delimiter);
      if entry.Common? {
        if entry.prefix !in commonPrefixes {
          commonPrefixes := commonPrefixes + [entry.prefix];
        }
      } else {
        objects := objects + [key];
      }
      next := next + 1;
    }
    assert keys[..|keys|] == keys;
    page := Page(objects, commonPrefixes, if next == index + maxKeys then Some(next) else None);
  }

  lemma NothingListed(prefix: Key, delimiter: string)
    ensures Objects(Entries([], prefix, delimiter)) == [] && Prefixes(Entries([], prefix, delimiter)) == []
  {
  }

  // ----- All pages together -----

  /** Of distinct keys listed in two lots, the objects are those of the lots in turn, and the common
      prefixes those of either lot. */
  lemma {:induction false} ListInLots(order: seq<Key>, i: nat, j: nat, prefix: Key, delimiter: string)
    requires Distinct(order) && Matching(order, prefix) && i <= j <= |order|
    ensures Objects(Entries(order[..j], prefix, delimiter)) ==
            Objects(Entries(order[..i], prefix, delimiter)) + Objects(Entries(order[i..j], prefix, delimiter))
    ensures forall p :: p in Prefixes(Entries(order[..j], prefix, delimiter)) <==>
                        p in Prefixes(Entries(order[..i], prefix, delimiter))
                        || p in Prefixes(Entries(order[i..j], prefix, delimiter))
    decreases j
  {
    hide Entries, EntryOf, Objects, Prefixes;
    if i == j {
      assert order[i..j] == [];
      NothingListed(prefix, delimiter);
    } else {
      ListInLots(order, i, j - 1, prefix, delimiter);
      ListKey(order, j - 1, prefix, delimiter);
      var lot := order[i..j];
      assert lot[..j - 1 - i] == order[i..j - 1] && lot[..j - i] == lot && lot[j - 1 - i] == order[j - 1];
      ListKey(lot, j - 1 - i, prefix, delimiter);
    }
  }

  lemma {:induction false} ObjectsDistinct(es: seq<Entry>)
    requires Distinct(es)
    ensures Distinct(Objects(es)) && Distinct(Prefixes(es))
    decreases |es|
  {
    if es != [] {
      var init, e := es[..|es| - 1], es[|es| - 1];
      ObjectsDistinct(init);
      if e.Object? {
        ObjectsMember(init, e.key);
        DistinctSnoc(Objects(init), e.key);
      } else {
        PrefixesMember(init, e.prefix);
        DistinctSnoc(Prefixes(init), e.prefix);
      }
    }
  }

  /** Two collections with the same keys under the prefix list the same objects and common prefixes. */
  lemma SameKeysSameListing(a: seq<Key>, b: seq<Key>, prefix: Key, delimiter: string)
    requires forall k | prefix <= k :: k in a <==> k in b
    ensures forall k :: k in Objects(Entries(a, prefix, delimiter)) <==> k in Objects(Entries(b, prefix, delimiter))
    ensures forall p :: p in Prefixes(Entries(a, prefix, delimiter)) <==> p in Prefixes(Entries(b, prefix, delimiter))
  {
    hide Entries, EntryOf, Objects, Prefixes;
    var ea, eb := Entries(a, prefix, delimiter), Entries(b, prefix, delimiter);
    EntriesExact(a, prefix, delimiter);
    EntriesExact(b, prefix, delimiter);
    forall e ensures e in ea <==> e in eb {
      SameKeysContribute(a, b, prefix, delimiter, e);
      SameKeysContribute(b, a, prefix, delimiter, e);
    }
    forall k ensures k in Objects(ea) <==> k in Objects(eb) {
      ObjectsMember(ea, k);
      ObjectsMember(eb, k);
    }
    forall p ensures p in Prefixes(ea) <==> p in Prefixes(eb) {
      PrefixesMember(ea, p);
      PrefixesMember(eb, p);
    }
  }

  lemma SameKeysContribute(a: seq<Key>, b: seq<Key>, prefix: Key, delimiter: string, e: Entry)
    requires forall k | prefix <= k :: k in a <==> k in b
    ensures Contributes(a, prefix, delimiter, e) ==> Contributes(b, prefix, delimiter, e)
  {
    hide EntryOf;
    if Contributes(a, prefix, delimiter, e) {
      var i :| 0 <= i < |a| && prefix <= a[i] && EntryOf(a[i], prefix, delimiter) == e;
      assert a[i] in b;
      var j :| 0 <= j < |b| && b[j] == a[i];
    }
  }

  /** The pages so far list exactly the first `index` keys of the order. */
  ghost predicate Listed(pages: seq<Page<nat>>, order: seq<Key>, index: nat, prefix: Key, delimiter: string) {
    && index <= |order|
    && AllObjects(pages) == Objects(Entries(order[..index], prefix, delimiter))
    && (forall p :: p in AllPrefixes(pages) <==> p in Prefixes(Entries(order[..index], prefix, delimiter)))
    && (forall i | 0 <= i < |pages| :: Distinct(pages[i].commonPrefixes))
  }

  lemma NoPages(order: seq<Key>, prefix: Key, delimiter: string)
    ensures Listed([], order, 0, prefix, delimiter)
  {
    assert order[..0] == [];
    NothingListed(prefix, delimiter);
  }

  lemma AddPage(pages: seq<Page<nat>>, page: Page<nat>, order: seq<Key>, index: nat, maxKeys: nat,
                prefix: Key, delimiter: string)
    requires Distinct(order) && Matching(order, prefix)
    requires Listed(pages, order, index, prefix, delimiter)
    requires var es := Entries(PageKeys(order, index, maxKeys), prefix, delimiter);
             page.objects == Objects(es) && page.commonPrefixes == Prefixes(es)
    ensures Listed(pages + [page], order, index + |PageKeys(order, index, maxKeys)|, prefix, delimiter)
  {
    hide Entries, Objects, Prefixes, AllObjects, AllPrefixes;
    var lot := PageKeys(order, index, maxKeys);
    assert lot == order[index..index + |lot|];
    ListInLots(order, index, index + |lot|, prefix, delimiter);
    EntriesExact(lot, prefix, delimiter);
    ObjectsDistinct(Entries(lot, prefix, delimiter));
    AllStep(pages, page);
  }

  /** The order and the bucket list alike. */
  lemma ListedAll(pages: seq<Page<nat>>, order: seq<Key>, keys: seq<Key>, prefix: Key, delimiter: string)
    requires Arrangement(order, keys, prefix)
    requires Listed(pages, order, |order|, prefix, delimiter)
    ensures Distinct(AllObjects(pages))
    ensures forall k :: k in AllObjects(pages) <==> k in Objects(Entries(keys, prefix, delimiter))
    ensures forall p :: p in AllPrefixes(pages) <==> p in Prefixes(Entries(keys, prefix, delimiter))
  {
    hide Entries, Objects, Prefixes, AllObjects, AllPrefixes;
    assert order[..|order|] == order;
    SameKeysSameListing(order, keys, prefix, delimiter);
    EntriesExact(order, prefix, delimiter);
    ObjectsDistinct(Entries(order, prefix, delimiter));
  }

  /** The pages in any fixed order denote the same listing as the ordered one: the same objects, each once
      over all pages, and the same common prefixes, each at most once per page. */
  method ListAll(order: seq<Key>, ghost keys: seq<Key>, delimiter: string, maxKeys: nat, prefix: Key)
    returns (pages: seq<Page<nat>>)
    requires Arrangement(order, keys, prefix)
    requires maxKeys != 0
    ensures Distinct(AllObjects(pages))
    ensures forall k :: k in AllObjects(pages) <==> k in Objects(Entries(keys, prefix, delimiter))
    ensures forall p :: p in AllPrefixes(pages) <==> p in Prefixes(Entries(keys, prefix, delimiter))
    ensures IsListing(AllObjects(pages), AllPrefixes(pages), keys, prefix, delimiter)
    ensures forall i | 0 <= i < |pages| :: Distinct(pages[i].commonPrefixes)
  {
    hide Entries, Objects, Prefixes, AllObjects, AllPrefixes, Listed, Distinct, PageKeys, ListedWhole, SomeListedUnder;
    pages := [];
    var token: Option<nat> := None;
    ghost var index := 0;
    NoPages(order, prefix, delimiter);
    ArrangementMatches(order, keys, prefix);
    while true
      invariant index == (if token.Some? then token.value else 0) <= |order|
      invariant Listed(pages, order, index, prefix, delimiter)
      decreases |order| - index
    {
      var page := ListObjects(order, token, delimiter, maxKeys, prefix);
      AddPage(pages, page, order, index, maxKeys, prefix, delimiter);
      PageKeysLength(order, index, maxKeys);
      index := index + |PageKeys(order, index, maxKeys)|;
      pages := pages + [page];
      if page.next.None? {
        break;
      }
      token := page.next;
    }
    ListedAll(pages, order, keys, prefix, delimiter);
    EntriesAreListing(keys, prefix, delimiter);
    ListedDistinct(pages, order, index, prefix, delimiter);
  }

  lemma ArrangementMatches(order: seq<Key>, keys: seq<Key>, prefix: Key)
    requires Arrangement(order, keys, prefix)
    ensures Matching(order, prefix)
  {
    forall i | 0 <= i < |order| ensures prefix <= order[i] {
      assert order[i] in order;
    }
  }

  lemma PageKeysLength(order: seq<Key>, index: nat, maxKeys: nat)
    requires index <= |order|
    ensures |PageKeys(order, index, maxKeys)| == if index + maxKeys <= |order| then maxKeys else |order| - index
  {
  }

  lemma ListedDistinct(pages: seq<Page<nat>>, order: seq<Key>, index: nat, prefix: Key, delimiter: string)
    requires Listed(pages, order, index, prefix, delimiter)
    ensures forall i | 0 <= i < |pages| :: Distinct(pages[i].commonPrefixes)
  {
  }
}
