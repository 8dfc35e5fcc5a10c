/** The chains of the hash table of zlog, as values: where each entry lies and how it is linked. */
module HashShape {
  import opened Options

  class Entry<K, V> {
    var hashKey: nat
    var key: K
    var value: V
    var prev: Entry?<K, V>
    var next: Entry?<K, V>

    constructor (hashKey: nat, key: K, value: V)
      ensures this.hashKey == hashKey && this.key == key && this.value == value && prev == null && next == null
    {
      this.hashKey, this.key, this.value, prev, next := hashKey, key, value, null, null;
    }
  }

  /** An entry's fields. */
  datatype Link<K, V> = Link(hashKey: nat, key: K, value: V, prev: Entry?<K, V>, next: Entry?<K, V>)

  type Links<K, V> = map<Entry<K, V>, Link<K, V>>

  type Chain<K, V> = seq<Entry<K, V>>

  function First<K, V>(chain: Chain<K, V>): Entry?<K, V> {
    if chain == [] then null else chain[0]
  }

  function After<K, V>(chain: Chain<K, V>, i: nat): Entry?<K, V> {
    if i + 1 < |chain| then chain[i + 1] else null
  }

  function Before<K, V>(chain: Chain<K, V>, i: nat): Entry?<K, V> {
    if 0 < i <= |chain| then chain[i - 1] else null
  }

  ghost predicate LinkedAt<K, V>(links: Links<K, V>, chain: Chain<K, V>, i: nat)
    requires i < |chain|
  {
    chain[i] in links && links[chain[i]].next == After(chain, i) && links[chain[i]].prev == Before(chain, i)
  }

  ghost predicate Distinct<K, V>(chain: Chain<K, V>) {
    forall i, j :: 0 <= i < j < |chain| ==> chain[i] != chain[j]
  }

  /** One bucket: the entries of its chain are doubly linked in order and belong there. */
  ghost predicate Bucket<K, V>(links: Links<K, V>, head: Entry?<K, V>, chain: Chain<K, V>, b: nat, size: nat)
    requires size > 0
  {
    && head == First(chain) && Distinct(chain)
    && (forall i {:trigger LinkedAt(links, chain, i)} :: 0 <= i < |chain| ==> LinkedAt(links, chain, i))
    && forall n :: n in chain ==> n in links && links[n].hashKey % size == b
  }

  /** Every bucket is laid out, and every entry is in the bucket of its hash. */
  ghost predicate Laid<K, V>(links: Links<K, V>, tab: seq<Entry?<K, V>>, chains: seq<Chain<K, V>>) {
    && |tab| == |chains| > 0
    && (forall b {:trigger Bucket(links, tab[b], chains[b], b, |tab|)} :: 0 <= b < |chains| ==>
          Bucket(links, tab[b], chains[b], b, |tab|))
    && forall n {:trigger InPlace(links, chains, n)} :: n in links ==> InPlace(links, chains, n)
  }

  ghost predicate InPlace<K, V>(links: Links<K, V>, chains: seq<Chain<K, V>>, n: Entry<K, V>)
    requires |chains| > 0 && n in links
  {
    n in chains[links[n].hashKey % |chains|]
  }

  // ----- keys -----

  /** What the table asks of its two functions: keys that are equal have the same hash. */
  ghost predicate Compatible<K(!new)>(hash: K -> nat, equal: (K, K) -> bool) {
    && (forall k {:trigger Alike(hash, equal, k, k)} :: equal(k, k))
    && (forall j, k {:trigger Alike(hash, equal, j, k)} :: Alike(hash, equal, j, k))
    && forall i, j, k {:trigger Alike(hash, equal, i, j), Alike(hash, equal, j, k)} ::
         equal(i, j) && equal(j, k) ==> equal(i, k)
  }

  ghost predicate Alike<K>(hash: K -> nat, equal: (K, K) -> bool, j: K, k: K) {
    equal(j, k) ==> equal(k, j) && hash(j) == hash(k)
  }

  lemma Same<K(!new)>(hash: K -> nat, equal: (K, K) -> bool, k: K)
    requires Compatible(hash, equal)
    ensures equal(k, k)
  {
    assert Alike(hash, equal, k, k);
  }

  lemma Back<K(!new)>(hash: K -> nat, equal: (K, K) -> bool, j: K, k: K)
    requires Compatible(hash, equal) && equal(j, k)
    ensures equal(k, j) && hash(j) == hash(k)
  {
    assert Alike(hash, equal, j, k);
  }

  lemma Through<K(!new)>(hash: K -> nat, equal: (K, K) -> bool, i: K, j: K, k: K)
    requires Compatible(hash, equal) && equal(i, j) && equal(j, k)
    ensures equal(i, k)
  {
    assert Alike(hash, equal, i, j) && Alike(hash, equal, j, k);
  }

  ghost predicate Hashed<K, V>(links: Links<K, V>, hash: K -> nat) {
    forall n {:trigger links[n].hashKey} :: n in links ==> links[n].hashKey == hash(links[n].key)
  }

  ghost predicate OnePerKey<K, V>(links: Links<K, V>, equal: (K, K) -> bool) {
    forall m, n {:trigger equal(links[m].key, links[n].key)} ::
      m in links && n in links && equal(links[m].key, links[n].key) ==> m == n
  }

  ghost predicate Holds<K, V>(links: Links<K, V>, equal: (K, K) -> bool, n: Entry<K, V>, k: K) {
    n in links && equal(k, links[n].key)
  }

  /** The map that the entries are: the value under a key, if there is one. */
  ghost function Lookup<K, V>(links: Links<K, V>, equal: (K, K) -> bool, k: K): Option<V> {
    if exists n :: n in links && Holds(links, equal, n, k) then
      var n :| n in links && Holds(links, equal, n, k);
      Some(links[n].value)
    else None
  }

  lemma LookupIs<K(!new), V>(links: Links<K, V>, hash: K -> nat, equal: (K, K) -> bool, n: Entry<K, V>, k: K)
    requires Compatible(hash, equal) && OnePerKey(links, equal) && Holds(links, equal, n, k)
    ensures Lookup(links, equal, k) == Some(links[n].value)
  {
    forall m | Holds(links, equal, m, k) ensures m == n {
      Back(hash, equal, k, links[m].key);
      Through(hash, equal, links[m].key, k, links[n].key);
    }
  }

  /** Entries with the same keys and values are the same map. */
  ghost predicate SameEntries<K, V>(links: Links<K, V>, links': Links<K, V>) {
    && links.Keys == links'.Keys
    && forall n :: n in links ==>
         links'[n].hashKey == links[n].hashKey && links'[n].key == links[n].key && links'[n].value == links[n].value
  }

  lemma SameLookup<K(!new), V>(links: Links<K, V>, links': Links<K, V>, hash: K -> nat, equal: (K, K) -> bool, k: K)
    requires Compatible(hash, equal) && OnePerKey(links, equal) && SameEntries(links, links')
    ensures OnePerKey(links', equal) && Lookup(links', equal, k) == Lookup(links, equal, k)
  {
    if n :| n in links && Holds(links, equal, n, k) {
      assert Holds(links', equal, n, k);
      LookupIs(links, hash, equal, n, k);
      LookupIs(links', hash, equal, n, k);
    } else {
      forall n | n in links' ensures !Holds(links', equal, n, k) {
        assert !Holds(links, equal, n, k);
      }
    }
  }

  // ----- a new first entry of a chain -----

  ghost function Prepended<K, V>(links: Links<K, V>, chain: Chain<K, V>, e: Entry<K, V>, hashKey: nat, key: K,
      value: V): Links<K, V>
    requires chain != [] ==> chain[0] in links
  {
    var l := links[e := Link(hashKey, key, value, null, First(chain))];
    if chain == [] then l else l[chain[0] := l[chain[0]].(prev := e)]
  }

  lemma PrependedBucket<K, V>(links: Links<K, V>, head: Entry?<K, V>, chain: Chain<K, V>, b: nat, size: nat,
      e: Entry<K, V>, hashKey: nat, key: K, value: V)
    requires size > 0 && Bucket(links, head, chain, b, size) && e !in links && hashKey % size == b
    ensures (chain != [] ==> chain[0] in links)
            && Bucket(Prepended(links, chain, e, hashKey, key, value), e, [e] + chain, b, size)
  {
    if chain != [] {
      assert LinkedAt(links, chain, 0);
    }
    var links' := Prepended(links, chain, e, hashKey, key, value);
    var c := [e] + chain;
    forall i | 0 <= i < |c| ensures LinkedAt(links', c, i) {
      if i > 0 {
        assert LinkedAt(links, chain, i - 1) && c[i] == chain[i - 1];
      }
    }
    assert Distinct(c);
  }

  lemma OtherBucket<K, V>(links: Links<K, V>, links': Links<K, V>, head: Entry?<K, V>, chain: Chain<K, V>, b: nat,
      size: nat)
    requires size > 0 && Bucket(links, head, chain, b, size)
    requires forall n :: n in chain && n in links ==> n in links' && links'[n] == links[n]
    ensures Bucket(links', head, chain, b, size)
  {
    forall i | 0 <= i < |chain| ensures LinkedAt(links', chain, i) {
      assert LinkedAt(links, chain, i) && chain[i] in chain;
    }
  }

  lemma FirstIn<K, V>(links: Links<K, V>, tab: seq<Entry?<K, V>>, chains: seq<Chain<K, V>>, b: nat)
    requires Laid(links, tab, chains) && b < |tab|
    ensures tab[b] == First(chains[b]) && (chains[b] != [] ==> chains[b][0] in links)
  {
    assert Bucket(links, tab[b], chains[b], b, |tab|);
  }

  lemma PrependedLaid<K, V>(links: Links<K, V>, tab: seq<Entry?<K, V>>, chains: seq<Chain<K, V>>, e: Entry<K, V>,
      hashKey: nat, key: K, value: V)
    requires Laid(links, tab, chains) && e !in links
    ensures var b := hashKey % |tab|;
      && (chains[b] != [] ==> chains[b][0] in links)
      && Laid(Prepended(links, chains[b], e, hashKey, key, value), tab[b := e], chains[b := [e] + chains[b]])
  {
    var b := hashKey % |tab|;
    PrependedBucket(links, tab[b], chains[b], b, |tab|, e, hashKey, key, value);
    var links' := Prepended(links, chains[b], e, hashKey, key, value);
    var tab', chains' := tab[b := e], chains[b := [e] + chains[b]];
    forall c | 0 <= c < |chains'| ensures Bucket(links', tab'[c], chains'[c], c, |tab'|) {
      if c != b {
        assert Bucket(links, tab[c], chains[c], c, |tab|);
        OtherBucket(links, links', tab[c], chains[c], c, |tab|);
      }
    }
    forall n | n in links' ensures InPlace(links', chains', n) {
      assert n in links ==> InPlace(links, chains, n);
    }
  }

  // ----- an entry taken out of its chain -----

  ghost function Without<K, V>(links: Links<K, V>, e: Entry<K, V>): Links<K, V>
    requires e in links
    requires links[e].next != null ==> links[e].next in links
    requires links[e].prev != null ==> links[e].prev in links
  {
    var l := links[e];
    var l1 := if l.next == null then links else links[l.next := links[l.next].(prev := l.prev)];
    var l2 := if l.prev == null then l1 else l1[l.prev := l1[l.prev].(next := l.next)];
    l2 - {e}
  }

  function Cut<K, V>(chain: Chain<K, V>, i: nat): Chain<K, V>
    requires i < |chain|
  {
    chain[..i] + chain[i + 1..]
  }

  lemma Neighbours<K, V>(links: Links<K, V>, head: Entry?<K, V>, chain: Chain<K, V>, b: nat, size: nat, i: nat)
    requires size > 0 && Bucket(links, head, chain, b, size) && i < |chain|
    ensures chain[i] in links && links[chain[i]].next == After(chain, i) && links[chain[i]].prev == Before(chain, i)
    ensures links[chain[i]].next != null ==> links[chain[i]].next in links
    ensures links[chain[i]].prev != null ==> links[chain[i]].prev in links
  {
    assert LinkedAt(links, chain, i);
    if i + 1 < |chain| {
      assert LinkedAt(links, chain, i + 1);
    }
    if i > 0 {
      assert LinkedAt(links, chain, i - 1);
    }
  }

  lemma CutBucket<K, V>(links: Links<K, V>, head: Entry?<K, V>, chain: Chain<K, V>, b: nat, size: nat, i: nat)
    requires size > 0 && Bucket(links, head, chain, b, size) && i < |chain|
    ensures var e := chain[i];
      && e in links && (links[e].next != null ==> links[e].next in links)
      && (links[e].prev != null ==> links[e].prev in links)
      && Bucket(Without(links, e), if i == 0 then links[e].next else head, Cut(chain, i), b, size)
  {
    Neighbours(links, head, chain, b, size, i);
    var links', c := Without(links, chain[i]), Cut(chain, i);
    forall j | 0 <= j < |c| ensures LinkedAt(links', c, j) {
      CutLinked(links, head, chain, b, size, i, j);
    }
    assert forall n :: n in c ==> n in chain;
  }

  lemma CutLinked<K, V>(links: Links<K, V>, head: Entry?<K, V>, chain: Chain<K, V>, b: nat, size: nat, i: nat, j: nat)
    requires size > 0 && Bucket(links, head, chain, b, size) && i < |chain| && j < |Cut(chain, i)|
    requires var e := chain[i];
      && e in links && (links[e].next != null ==> links[e].next in links)
      && (links[e].prev != null ==> links[e].prev in links)
    ensures LinkedAt(Without(links, chain[i]), Cut(chain, i), j)
  {
    var at := if j < i then j else j + 1;
    Neighbours(links, head, chain, b, size, i);
    Neighbours(links, head, chain, b, size, at);
  }

  /** An entry of a chain, with its neighbours. */
  ghost predicate Cuttable<K, V>(links: Links<K, V>, e: Entry<K, V>) {
    && e in links && (links[e].next != null ==> links[e].next in links)
    && (links[e].prev != null ==> links[e].prev in links)
  }

  lemma CutOthers<K, V>(links: Links<K, V>, tab: seq<Entry?<K, V>>, chains: seq<Chain<K, V>>, b: nat, i: nat,
      links': Links<K, V>, tab': seq<Entry?<K, V>>, chains': seq<Chain<K, V>>, c: nat)
    requires Laid(links, tab, chains) && b < |tab| && i < |chains[b]| && Cuttable(links, chains[b][i])
             && links' == Without(links, chains[b][i])
    requires c < |tab| == |tab'| == |chains'| && c != b && tab'[c] == tab[c] && chains'[c] == chains[c]
    ensures Bucket(links', tab'[c], chains'[c], c, |tab'|)
  {
    assert Bucket(links, tab[c], chains[c], c, |tab|);
    Apart(links, tab, chains, b, c, i);
    OtherBucket(links, links', tab[c], chains[c], c, |tab|);
  }

  lemma CutHas<K, V>(links: Links<K, V>, e: Entry<K, V>, n: Entry<K, V>, chain: Chain<K, V>, i: nat)
    requires Cuttable(links, e) && n in Without(links, e) && i < |chain| && chain[i] == e
    ensures n in links && Without(links, e)[n].hashKey == links[n].hashKey && (n in chain ==> n in Cut(chain, i))
  {
  }

  lemma CutHere<K, V>(links: Links<K, V>, tab: seq<Entry?<K, V>>, chains: seq<Chain<K, V>>, b: nat, i: nat)
    requires Laid(links, tab, chains) && b < |tab| && i < |chains[b]|
    ensures var e := chains[b][i];
      && Cuttable(links, e) && links[e].hashKey % |tab| == b && (links[e].prev == null <==> i == 0)
      && Bucket(Without(links, e), if i == 0 then links[e].next else tab[b], Cut(chains[b], i), b, |tab|)
  {
    assert Bucket(links, tab[b], chains[b], b, |tab|);
    Neighbours(links, tab[b], chains[b], b, |tab|, i);
    CutBucket(links, tab[b], chains[b], b, |tab|, i);
  }

  lemma CutLaid<K, V>(links: Links<K, V>, tab: seq<Entry?<K, V>>, chains: seq<Chain<K, V>>, b: nat, i: nat)
    requires Laid(links, tab, chains) && b < |tab| && i < |chains[b]|
    ensures var e := chains[b][i];
      && Cuttable(links, e) && links[e].hashKey % |tab| == b && (links[e].prev == null <==> i == 0)
      && Laid(Without(links, e), if i == 0 then tab[b := links[e].next] else tab, chains[b := Cut(chains[b], i)])
  {
    var e := chains[b][i];
    CutHere(links, tab, chains, b, i);
    var links' := Without(links, e);
    var tab', chains' := if i == 0 then tab[b := links[e].next] else tab, chains[b := Cut(chains[b], i)];
    forall c | 0 <= c < |chains'| ensures Bucket(links', tab'[c], chains'[c], c, |tab'|) {
      if c != b {
        CutOthers(links, tab, chains, b, i, links', tab', chains', c);
      }
    }
    forall n | n in links' ensures InPlace(links', chains', n) {
      CutHas(links, e, n, chains[b], i);
      assert InPlace(links, chains, n);
    }
  }

  /** Taking an entry out of one chain does not touch another. */
  lemma Apart<K, V>(links: Links<K, V>, tab: seq<Entry?<K, V>>, chains: seq<Chain<K, V>>, b: nat, c: nat, i: nat)
    requires Laid(links, tab, chains) && b < |tab| && c < |tab| && b != c && i < |chains[b]|
    requires var e := chains[b][i];
      && e in links && (links[e].next != null ==> links[e].next in links)
      && (links[e].prev != null ==> links[e].prev in links)
    ensures var links' := Without(links, chains[b][i]);
      forall n :: n in chains[c] && n in links ==> n in links' && links'[n] == links[n]
  {
    assert Bucket(links, tab[b], chains[b], b, |tab|) && Bucket(links, tab[c], chains[c], c, |tab|);
    Neighbours(links, tab[b], chains[b], b, |tab|, i);
    var e := chains[b][i];
    assert links[e].next != null ==> links[e].next in chains[b];
    assert links[e].prev != null ==> links[e].prev in chains[b];
  }
}
