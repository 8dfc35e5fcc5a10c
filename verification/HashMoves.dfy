/** What the operations of the hash table do to the map it stands for. */
module HashMoves {
  import opened Options
  import opened HashShape

  ghost predicate Keyed<K(!new), V>(links: Links<K, V>, hash: K -> nat, equal: (K, K) -> bool) {
    Compatible(hash, equal) && Hashed(links, hash) && OnePerKey(links, equal)
  }

  /** A key that no entry of its chain has, no entry has. */
  lemma NotInChain<K(!new), V>(links: Links<K, V>, tab: seq<Entry?<K, V>>, chains: seq<Chain<K, V>>, hash: K -> nat,
      equal: (K, K) -> bool, k: K)
    requires Laid(links, tab, chains) && Keyed(links, hash, equal)
    requires var chain := chains[hash(k) % |tab|];
      forall m :: 0 <= m < |chain| ==> !Holds(links, equal, chain[m], k)
    ensures forall n :: n in links ==> !Holds(links, equal, n, k)
  {
    forall n | n in links ensures !Holds(links, equal, n, k) {
      if equal(k, links[n].key) {
        Back(hash, equal, k, links[n].key);
        assert InPlace(links, chains, n) && links[n].hashKey == hash(k);
      }
    }
  }

  lemma LookupNone<K(!new), V>(links: Links<K, V>, equal: (K, K) -> bool, k: K)
    requires forall n :: n in links ==> !Holds(links, equal, n, k)
    ensures Lookup(links, equal, k) == None
  {
  }

  /** The same entries have a key, with the same values. */
  lemma LookupKept<K(!new), V>(links: Links<K, V>, links': Links<K, V>, hash: K -> nat, equal: (K, K) -> bool, k: K)
    requires Keyed(links, hash, equal) && Keyed(links', hash, equal)
    requires forall n :: n in links && Holds(links, equal, n, k) ==>
               Holds(links', equal, n, k) && links'[n].value == links[n].value
    requires forall n :: n in links' && Holds(links', equal, n, k) ==> Holds(links, equal, n, k)
    ensures Lookup(links', equal, k) == Lookup(links, equal, k)
  {
    if n :| n in links && Holds(links, equal, n, k) {
      LookupIs(links, hash, equal, n, k);
      LookupIs(links', hash, equal, n, k);
    }
  }

  /** links' is the map links with v under k. */
  ghost predicate PutIn<K(!new), V>(links: Links<K, V>, links': Links<K, V>, equal: (K, K) -> bool, k: K, v: V) {
    forall j :: Lookup(links', equal, j) == if equal(k, j) then Some(v) else Lookup(links, equal, j)
  }

  lemma PutFresh<K(!new), V>(links: Links<K, V>, hash: K -> nat, equal: (K, K) -> bool, chain: Chain<K, V>,
      p: Entry<K, V>, k: K, v: V)
    requires Keyed(links, hash, equal) && p !in links && (chain != [] ==> chain[0] in links)
    requires forall n :: n in links ==> !Holds(links, equal, n, k)
    ensures var links' := Prepended(links, chain, p, hash(k), k, v);
      Keyed(links', hash, equal) && |links'| == |links| + 1 && PutIn(links, links', equal, k, v)
  {
    var links' := Prepended(links, chain, p, hash(k), k, v);
    assert links'.Keys == links.Keys + {p} && |links'.Keys| == |links.Keys| + 1;
    FreshKeyed(links, hash, equal, chain, p, k, v);
    forall j ensures Lookup(links', equal, j) == if equal(k, j) then Some(v) else Lookup(links, equal, j) {
      FreshLookup(links, hash, equal, chain, p, k, v, j);
    }
  }

  lemma FreshLookup<K(!new), V>(links: Links<K, V>, hash: K -> nat, equal: (K, K) -> bool, chain: Chain<K, V>,
      p: Entry<K, V>, k: K, v: V, j: K)
    requires Keyed(links, hash, equal) && p !in links && (chain != [] ==> chain[0] in links)
    requires Keyed(Prepended(links, chain, p, hash(k), k, v), hash, equal)
    ensures var links' := Prepended(links, chain, p, hash(k), k, v);
      Lookup(links', equal, j) == if equal(k, j) then Some(v) else Lookup(links, equal, j)
  {
    var links' := Prepended(links, chain, p, hash(k), k, v);
    Same(hash, equal, k);
    UnderIff(links', hash, equal, p, k, j);
    if equal(k, j) {
      LookupIs(links', hash, equal, p, j);
    } else {
      LookupKept(links, links', hash, equal, j);
    }
  }

  /** What is under two keys is under both only if they are equal. */
  lemma UnderIff<K(!new), V>(links: Links<K, V>, hash: K -> nat, equal: (K, K) -> bool, p: Entry<K, V>, k: K, j: K)
    requires Keyed(links, hash, equal) && Holds(links, equal, p, k)
    ensures Holds(links, equal, p, j) <==> equal(k, j)
  {
    if equal(k, j) {
      Back(hash, equal, k, j);
      Through(hash, equal, j, k, links[p].key);
    }
    if equal(j, links[p].key) {
      Back(hash, equal, j, links[p].key);
      Through(hash, equal, k, links[p].key, j);
    }
  }

  lemma OneHolder<K(!new), V>(links: Links<K, V>, hash: K -> nat, equal: (K, K) -> bool, p: Entry<K, V>,
      n: Entry<K, V>, k: K)
    requires Keyed(links, hash, equal) && Holds(links, equal, p, k) && Holds(links, equal, n, k)
    ensures p == n
  {
    Back(hash, equal, k, links[p].key);
    Through(hash, equal, links[p].key, k, links[n].key);
  }

  lemma FreshKeyed<K(!new), V>(links: Links<K, V>, hash: K -> nat, equal: (K, K) -> bool, chain: Chain<K, V>,
      p: Entry<K, V>, k: K, v: V)
    requires Keyed(links, hash, equal) && p !in links && (chain != [] ==> chain[0] in links)
    requires forall n :: n in links ==> !Holds(links, equal, n, k)
    ensures Keyed(Prepended(links, chain, p, hash(k), k, v), hash, equal)
  {
    var links' := Prepended(links, chain, p, hash(k), k, v);
    forall m, n | m in links' && n in links' && equal(links'[m].key, links'[n].key) ensures m == n {
      Back(hash, equal, links'[m].key, links'[n].key);
      assert m in links ==> !Holds(links, equal, m, k);
      assert n in links ==> !Holds(links, equal, n, k);
    }
  }

  lemma OneHolderBack<K(!new), V>(links: Links<K, V>, hash: K -> nat, equal: (K, K) -> bool, p: Entry<K, V>,
      n: Entry<K, V>, k: K)
    requires Keyed(links, hash, equal) && Holds(links, equal, p, k) && n in links && equal(links[n].key, k)
    ensures p == n
  {
    Back(hash, equal, links[n].key, k);
    OneHolder(links, hash, equal, p, n, k);
  }

  lemma PutOver<K(!new), V>(links: Links<K, V>, tab: seq<Entry?<K, V>>, chains: seq<Chain<K, V>>, hash: K -> nat,
      equal: (K, K) -> bool, p: Entry<K, V>, k: K, v: V)
    requires Laid(links, tab, chains) && Keyed(links, hash, equal) && Holds(links, equal, p, k)
    ensures var links' := links[p := links[p].(key := k, value := v)];
      && Laid(links', tab, chains) && Keyed(links', hash, equal) && |links'| == |links|
      && PutIn(links, links', equal, k, v)
  {
    var links' := links[p := links[p].(key := k, value := v)];
    OverLaid(links, tab, chains, p, k, v);
    OverKeyed(links, hash, equal, p, k, v);
    forall j ensures Lookup(links', equal, j) == if equal(k, j) then Some(v) else Lookup(links, equal, j) {
      OverLookup(links, hash, equal, p, k, v, j);
    }
  }

  lemma OverLaid<K, V>(links: Links<K, V>, tab: seq<Entry?<K, V>>, chains: seq<Chain<K, V>>, p: Entry<K, V>, k: K, v: V)
    requires Laid(links, tab, chains) && p in links
    ensures var links' := links[p := links[p].(key := k, value := v)]; Laid(links', tab, chains) && |links'| == |links|
  {
    var links' := links[p := links[p].(key := k, value := v)];
    assert links'.Keys == links.Keys && |links'.Keys| == |links.Keys|;
    forall b | 0 <= b < |chains| ensures Bucket(links', tab[b], chains[b], b, |tab|) {
      assert Bucket(links, tab[b], chains[b], b, |tab|);
      OnlyKeysDiffer(links, links', tab[b], chains[b], b, |tab|);
    }
    forall n | n in links' ensures InPlace(links', chains, n) {
      assert InPlace(links, chains, n);
    }
  }

  lemma OverLookup<K(!new), V>(links: Links<K, V>, hash: K -> nat, equal: (K, K) -> bool, p: Entry<K, V>, k: K, v: V,
      j: K)
    requires Keyed(links, hash, equal) && Holds(links, equal, p, k)
             && Keyed(links[p := links[p].(key := k, value := v)], hash, equal)
    ensures var links' := links[p := links[p].(key := k, value := v)];
      Lookup(links', equal, j) == if equal(k, j) then Some(v) else Lookup(links, equal, j)
  {
    var links' := links[p := links[p].(key := k, value := v)];
    Same(hash, equal, k);
    UnderIff(links, hash, equal, p, k, j);
    UnderIff(links', hash, equal, p, k, j);
    if equal(k, j) {
      LookupIs(links', hash, equal, p, j);
    } else {
      LookupKept(links, links', hash, equal, j);
    }
  }

  lemma OverKeyed<K(!new), V>(links: Links<K, V>, hash: K -> nat, equal: (K, K) -> bool, p: Entry<K, V>, k: K, v: V)
    requires Keyed(links, hash, equal) && Holds(links, equal, p, k)
    ensures Keyed(links[p := links[p].(key := k, value := v)], hash, equal)
  {
    var links' := links[p := links[p].(key := k, value := v)];
    Back(hash, equal, k, links[p].key);
    forall m, n | m in links' && n in links' && equal(links'[m].key, links'[n].key) ensures m == n {
      if m == p {
        OneHolder(links, hash, equal, p, n, k);
      } else if n == p {
        OneHolderBack(links, hash, equal, p, m, k);
      }
    }
  }

  lemma OnlyKeysDiffer<K, V>(links: Links<K, V>, links': Links<K, V>, head: Entry?<K, V>, chain: Chain<K, V>, b: nat,
      size: nat)
    requires size > 0 && Bucket(links, head, chain, b, size) && links'.Keys == links.Keys
    requires forall n :: n in links ==>
               links'[n].hashKey == links[n].hashKey && links'[n].next == links[n].next
               && links'[n].prev == links[n].prev
    ensures Bucket(links', head, chain, b, size)
  {
    forall i | 0 <= i < |chain| ensures LinkedAt(links', chain, i) {
      assert LinkedAt(links, chain, i);
    }
  }

  /** links' is the map links with nothing under k. */
  ghost predicate TakenOut<K(!new), V>(links: Links<K, V>, links': Links<K, V>, equal: (K, K) -> bool, k: K) {
    forall j :: Lookup(links', equal, j) == if equal(k, j) then None else Lookup(links, equal, j)
  }

  lemma CutOut<K(!new), V>(links: Links<K, V>, hash: K -> nat, equal: (K, K) -> bool, p: Entry<K, V>, k: K)
    requires Keyed(links, hash, equal) && Holds(links, equal, p, k) && Cuttable(links, p)
    ensures var links' := Without(links, p);
      Keyed(links', hash, equal) && |links'| + 1 == |links| && TakenOut(links, links', equal, k)
  {
    var links' := Without(links, p);
    CutKeyed(links, hash, equal, p);
    CutCount(links, p);
    forall j ensures Lookup(links', equal, j) == if equal(k, j) then None else Lookup(links, equal, j) {
      CutLookup(links, hash, equal, p, k, j);
    }
  }

  lemma CutCount<K, V>(links: Links<K, V>, p: Entry<K, V>)
    requires Cuttable(links, p)
    ensures |Without(links, p)| + 1 == |links|
  {
    var links' := Without(links, p);
    assert links'.Keys == links.Keys - {p} && links.Keys == links'.Keys + {p};
    assert |links'.Keys| + 1 == |links.Keys|;
  }

  lemma CutKeyed<K(!new), V>(links: Links<K, V>, hash: K -> nat, equal: (K, K) -> bool, p: Entry<K, V>)
    requires Keyed(links, hash, equal) && Cuttable(links, p)
    ensures Keyed(Without(links, p), hash, equal)
    ensures forall n :: n in Without(links, p) <==> n in links && n != p
    ensures forall n :: n in Without(links, p) ==>
              Without(links, p)[n].key == links[n].key && Without(links, p)[n].value == links[n].value
  {
  }

  lemma CutLookup<K(!new), V>(links: Links<K, V>, hash: K -> nat, equal: (K, K) -> bool, p: Entry<K, V>, k: K, j: K)
    requires Keyed(links, hash, equal) && Holds(links, equal, p, k) && Cuttable(links, p)
    ensures Lookup(Without(links, p), equal, j) == if equal(k, j) then None else Lookup(links, equal, j)
  {
    var links' := Without(links, p);
    CutKeyed(links, hash, equal, p);
    UnderIff(links, hash, equal, p, k, j);
    if equal(k, j) {
      forall n | n in links' && equal(j, links[n].key) ensures n == p {
        OneHolder(links, hash, equal, p, n, j);
      }
    } else {
      LookupKept(links, links', hash, equal, j);
    }
  }

  // ----- rehashing -----

  /** The entries, with what they hold, are those still to come and those in the new table. */
  ghost predicate Parted<K, V>(links: Links<K, V>, rest: Links<K, V>, done: Links<K, V>) {
    && rest.Keys !! done.Keys && rest.Keys + done.Keys == links.Keys
    && (forall n :: n in rest ==> rest[n] == links[n])
    && forall n :: n in done ==>
         done[n].hashKey == links[n].hashKey && done[n].key == links[n].key && done[n].value == links[n].value
  }

  ghost predicate Pending<K, V>(links: Links<K, V>, chains: seq<Chain<K, V>>, i: nat, j: nat, rest: Links<K, V>) {
    && chains != [] && i <= |chains| && (i < |chains| ==> j <= |chains[i]|) && (i == |chains| ==> j == 0)
    && forall n :: n in links ==> (n in rest <==> ToCome(links, chains, i, j, n))
  }

  /** Entry j of chain i is the next to be moved; rest is still to come, and done is in the new table. */
  ghost predicate Halfway<K, V>(links: Links<K, V>, chains: seq<Chain<K, V>>, i: nat, j: nat, rest: Links<K, V>,
      done: Links<K, V>, to: seq<Entry?<K, V>>, new_: seq<Chain<K, V>>) {
    Pending(links, chains, i, j, rest) && Parted(links, rest, done) && Laid(done, to, new_)
  }

  ghost predicate ToCome<K, V>(links: Links<K, V>, chains: seq<Chain<K, V>>, i: nat, j: nat, n: Entry<K, V>)
    requires n in links && chains != [] && i <= |chains| && (i < |chains| ==> j <= |chains[i]|)
  {
    var b := links[n].hashKey % |chains|;
    b > i || (b == i && n in chains[i][j..])
  }

  lemma NothingMoved<K, V>(links: Links<K, V>, tab: seq<Entry?<K, V>>, chains: seq<Chain<K, V>>, to: seq<Entry?<K, V>>,
      new_: seq<Chain<K, V>>)
    requires Laid(links, tab, chains) && |to| == |new_| > 0
    requires forall b :: 0 <= b < |to| ==> to[b] == null && new_[b] == []
    ensures Halfway(links, chains, 0, 0, links, map[], to, new_)
  {
    forall n | n in links ensures ToCome(links, chains, 0, 0, n) {
      assert InPlace(links, chains, n) && chains[0][0..] == chains[0];
    }
  }

  lemma NextToMove<K, V>(links: Links<K, V>, tab: seq<Entry?<K, V>>, chains: seq<Chain<K, V>>, i: nat, j: nat,
      rest: Links<K, V>, done: Links<K, V>, to: seq<Entry?<K, V>>, new_: seq<Chain<K, V>>)
    requires Laid(links, tab, chains) && Halfway(links, chains, i, j, rest, done, to, new_) && i < |chains|
             && j < |chains[i]|
    ensures var p := chains[i][j]; p in rest && rest[p].next == After(chains[i], j) && p !in done
  {
    var p := chains[i][j];
    assert Bucket(links, tab[i], chains[i], i, |tab|) && p in chains[i];
    assert LinkedAt(links, chains[i], j);
    assert p == chains[i][j..][0];
  }

  lemma OneLess<K, V>(links: Links<K, V>, tab: seq<Entry?<K, V>>, chains: seq<Chain<K, V>>, i: nat, j: nat,
      rest: Links<K, V>, n: Entry<K, V>)
    requires Laid(links, tab, chains) && i < |chains| && j < |chains[i]| && n in links
             && (n in rest <==> ToCome(links, chains, i, j, n))
    ensures n in rest - {chains[i][j]} <==> ToCome(links, chains, i, j + 1, n)
  {
    var p := chains[i][j];
    assert Bucket(links, tab[i], chains[i], i, |tab|) && p in chains[i];
    assert chains[i][j..] == [p] + chains[i][j + 1..];
    assert p !in chains[i][j + 1..];
  }

  lemma PendingOn<K, V>(links: Links<K, V>, tab: seq<Entry?<K, V>>, chains: seq<Chain<K, V>>, i: nat, j: nat,
      rest: Links<K, V>)
    requires Laid(links, tab, chains) && Pending(links, chains, i, j, rest) && i < |chains| && j < |chains[i]|
    ensures Pending(links, chains, i, j + 1, rest - {chains[i][j]})
  {
    forall n | n in links ensures n in rest - {chains[i][j]} <==> ToCome(links, chains, i, j + 1, n) {
      OneLess(links, tab, chains, i, j, rest, n);
    }
  }

  lemma PartedOn<K, V>(links: Links<K, V>, rest: Links<K, V>, done: Links<K, V>, chain: Chain<K, V>, p: Entry<K, V>)
    requires Parted(links, rest, done) && p in rest && (chain != [] ==> chain[0] in done)
    ensures Parted(links, rest - {p}, Prepended(done, chain, p, rest[p].hashKey, rest[p].key, rest[p].value))
  {
    var done' := Prepended(done, chain, p, rest[p].hashKey, rest[p].key, rest[p].value);
    assert done'.Keys == done.Keys + {p} && (rest - {p}).Keys == rest.Keys - {p};
  }

  lemma ChainOver<K, V>(links: Links<K, V>, chains: seq<Chain<K, V>>, i: nat, n: Entry<K, V>)
    requires i < |chains| && n in links && n in chains[links[n].hashKey % |chains|]
    ensures ToCome(links, chains, i, |chains[i]|, n) <==> ToCome(links, chains, i + 1, 0, n)
  {
    if i + 1 < |chains| {
      assert chains[i + 1][0..] == chains[i + 1];
    }
  }

  lemma ChainMoved<K, V>(links: Links<K, V>, tab: seq<Entry?<K, V>>, chains: seq<Chain<K, V>>, i: nat,
      rest: Links<K, V>, done: Links<K, V>, to: seq<Entry?<K, V>>, new_: seq<Chain<K, V>>)
    requires Laid(links, tab, chains) && i < |chains|
             && Halfway(links, chains, i, |chains[i]|, rest, done, to, new_)
    ensures Halfway(links, chains, i + 1, 0, rest, done, to, new_)
  {
    forall n | n in links ensures n in rest <==> ToCome(links, chains, i + 1, 0, n) {
      assert InPlace(links, chains, n);
      ChainOver(links, chains, i, n);
    }
  }

  lemma NoneLeft<K, V>(links: Links<K, V>, chains: seq<Chain<K, V>>, rest: Links<K, V>, done: Links<K, V>,
      to: seq<Entry?<K, V>>, new_: seq<Chain<K, V>>)
    requires Halfway(links, chains, |chains|, 0, rest, done, to, new_)
    ensures rest.Keys == {} && SameEntries(links, done) && |done| == |links|
  {
    forall n | n in links ensures n !in rest {
      assert links[n].hashKey % |chains| < |chains|;
    }
    assert done.Keys == links.Keys && |done.Keys| == |links.Keys|;
  }

  lemma AllMoved<K(!new), V>(links: Links<K, V>, chains: seq<Chain<K, V>>, hash: K -> nat, equal: (K, K) -> bool,
      rest: Links<K, V>, done: Links<K, V>, to: seq<Entry?<K, V>>, new_: seq<Chain<K, V>>)
    requires Halfway(links, chains, |chains|, 0, rest, done, to, new_) && Keyed(links, hash, equal)
    ensures rest.Keys == {} && SameEntries(links, done) && |done| == |links|
    ensures Keyed(done, hash, equal) && forall k :: Lookup(done, equal, k) == Lookup(links, equal, k)
  {
    NoneLeft(links, chains, rest, done, to, new_);
    SameMap(links, done, hash, equal);
  }

  lemma SameMap<K(!new), V>(links: Links<K, V>, done: Links<K, V>, hash: K -> nat, equal: (K, K) -> bool)
    requires Keyed(links, hash, equal) && SameEntries(links, done)
    ensures Keyed(done, hash, equal) && forall k :: Lookup(done, equal, k) == Lookup(links, equal, k)
  {
    forall k ensures Lookup(done, equal, k) == Lookup(links, equal, k) && OnePerKey(done, equal) {
      SameLookup(links, done, hash, equal, k);
    }
  }

}
