/** The chained hash table of zlog: deps/zlog/src/zc_hashtable.c. */
module HashTable {
  import opened Options
  import opened HashShape
  import opened HashMoves
  import opened HashOrder

  ghost predicate Tracked<K, V>(links: Links<K, V>)
    reads links.Keys
  {
    forall n {:trigger links[n]} :: n in links ==> links[n] == Link(n.hashKey, n.key, n.value, n.prev, n.next)
  }

  /** The entry goes to the front of its chain. */
  method LinkFirst<K, V>(p: Entry<K, V>, b: nat, tab: array<Entry?<K, V>>, ghost links: Links<K, V>,
      ghost chain: Chain<K, V>) returns (ghost links': Links<K, V>)
    requires Tracked(links) && p !in links && b < tab.Length
    requires tab[b] == First(chain) && (chain != [] ==> chain[0] in links)
    modifies p, tab, links.Keys
    ensures links' == Prepended(links, chain, p, old(p.hashKey), old(p.key), old(p.value)) && Tracked(links')
    ensures tab[..] == old(tab[..])[b := p]
  {
    p.next, p.prev := null, null;
    links' := Prepended(links, chain, p, p.hashKey, p.key, p.value);
    if tab[b] != null {
      tab[b].prev := p;
      p.next := tab[b];
    }
    tab[b] := p;
  }

  /** The same for all chains. */
  method LinkIn<K, V>(p: Entry<K, V>, b: nat, tab: array<Entry?<K, V>>, ghost links: Links<K, V>,
      ghost chains: seq<Chain<K, V>>) returns (ghost links': Links<K, V>, ghost chains': seq<Chain<K, V>>)
    requires Tracked(links) && Laid(links, tab[..], chains) && p !in links && b < tab.Length
             && b == p.hashKey % tab.Length
    modifies p, tab, links.Keys
    ensures (chains[b] != [] ==> chains[b][0] in links)
            && links' == Prepended(links, chains[b], p, old(p.hashKey), old(p.key), old(p.value))
            && tab[..] == old(tab[..])[b := p] && chains' == chains[b := [p] + chains[b]]
    ensures Tracked(links') && Laid(links', tab[..], chains')
  {
    PrependedLaid(links, tab[..], chains, p, p.hashKey, p.key, p.value);
    FirstIn(links, tab[..], chains, b);
    chains' := chains[b := [p] + chains[b]];
    links' := LinkFirst(p, b, tab, links, chains[b]);
  }

  class Table<K(!new), V(!new)> {
    var nelem: nat
    var tab: array<Entry?<K, V>>
    const hash: K -> nat
    const equal: (K, K) -> bool
    ghost var links: Links<K, V>
    ghost var chains: seq<Chain<K, V>>

    ghost predicate Valid()
      reads this, tab, links.Keys
    {
      && Tracked(links) && Laid(links, tab[..], chains) && Keyed(links, hash, equal) && nelem == |links|
    }

    method Become(n: nat, ghost l: Links<K, V>, ghost c: seq<Chain<K, V>>)
      requires Tracked(l)
      modifies this`nelem, this`links, this`chains
      ensures nelem == n && links == l && chains == c && Tracked(l) && tab[..] == old(tab[..])
    {
      nelem, links, chains := n, l, c;
    }

    /** The value under a key. */
    ghost function At(k: K): Option<V>
      reads this
    {
      Lookup(links, equal, k)
    }

    /** zc_hashtable_new, for a size that is not 0. */
    constructor (size: nat, hash: K -> nat, equal: (K, K) -> bool)
      requires size > 0 && Compatible(hash, equal)
      ensures Valid() && fresh(tab) && links == map[] && tab.Length == size
      ensures this.hash == hash && this.equal == equal && forall k :: At(k) == None
    {
      nelem, tab, this.hash, this.equal := 0, new Entry?<K, V>[size](_ => null), hash, equal;
      links, chains := map[], seq(size, _ => []);
    }

    /** zc_hashtable_get_entry: the loop along one chain. */
    method GetEntry(k: K) returns (p: Entry?<K, V>)
      requires Valid()
      ensures if p == null then forall n :: n in links ==> !Holds(links, equal, n, k) else Holds(links, equal, p, k)
    {
      var i := hash(k) % tab.Length;
      ghost var chain := chains[i];
      assert Bucket(links, tab[..][i], chain, i, tab.Length);
      p := tab[i];
      ghost var j := 0;
      while p != null
        invariant j <= |chain| && p == if j < |chain| then chain[j] else null
        invariant forall m :: 0 <= m < j ==> !Holds(links, equal, chain[m], k)
        decreases |chain| - j
      {
        assert LinkedAt(links, chain, j);
        if equal(k, p.key) {
          return;
        }
        p := p.next;
        j := j + 1;
      }
      NotInChain(links, tab[..], chains, hash, equal, k);
    }

    /** zc_hashtable_get. */
    method Get(k: K) returns (r: Option<V>)
      requires Valid()
      ensures r == At(k)
    {
      var p := GetEntry(k);
      if p != null {
        LookupIs(links, hash, equal, p, k);
        r := Some(p.value);
      } else {
        r := None;
      }
    }

    /** No more than thirteen entries for ten buckets, and one. */
    predicate Loaded()
      reads this
    {
      10 * nelem <= 13 * tab.Length + 10
    }

    /** zc_hashtable_put, where memory does not run out. */
    method Put(k: K, v: V)
      requires Valid()
      modifies this, tab, links.Keys
      ensures Valid() && (tab == old(tab) || fresh(tab)) && forall n :: n in links ==> n in old(links) || fresh(n)
      ensures forall j :: At(j) == if equal(k, j) then Some(v) else old(At(j))
      ensures nelem == old(nelem) + if old(At(k)) == None then 1 else 0
      ensures old(Loaded()) ==> Loaded()
      ensures tab.Length in {old(tab.Length), 2 * old(tab.Length)}
    {
      var p := GetEntry(k);
      if p != null {
        Replace(p, k, v);
      } else {
        if nelem as real > tab.Length as real * 1.3 {
          Rehash();
        }
        Add(k, v);
      }
    }

    method Replace(p: Entry<K, V>, k: K, v: V)
      requires Valid() && Holds(links, equal, p, k)
      modifies this`links, p
      ensures Valid() && links.Keys == old(links.Keys) && PutIn(old(links), links, equal, k, v)
      ensures old(At(k)) != None
    {
      PutOver(links, tab[..], chains, hash, equal, p, k, v);
      LookupIs(links, hash, equal, p, k);
      p.key, p.value := k, v;
      links := links[p := links[p].(key := k, value := v)];
    }

    method Add(k: K, v: V)
      requires Valid() && forall n :: n in links ==> !Holds(links, equal, n, k)
      modifies this, tab, links.Keys
      ensures Valid() && tab == old(tab) && forall n :: n in links ==> n in old(links) || fresh(n)
      ensures PutIn(old(links), links, equal, k, v) && nelem == old(nelem) + 1 && old(At(k)) == None
    {
      LookupNone(links, equal, k);
      var p := new Entry<K, V>(hash(k), k, v);
      AddEntry(p);
    }

    method AddEntry(p: Entry<K, V>)
      requires Valid() && p !in links && p.hashKey == hash(p.key)
               && forall n :: n in links ==> !Holds(links, equal, n, p.key)
      modifies this, tab, p, links.Keys
      ensures Valid() && tab == old(tab) && links.Keys == old(links.Keys) + {p}
      ensures PutIn(old(links), links, equal, old(p.key), old(p.value)) && nelem == old(nelem) + 1
    {
      var b := p.hashKey % tab.Length;
      ghost var after := Prepared(b, p);
      ghost var links', chains' := LinkIn(p, b, tab, links, chains);
      assert links' == after;
      Become(nelem + 1, links', chains');
    }

    lemma Prepared(b: nat, p: Entry<K, V>) returns (after: Links<K, V>)
      requires Valid() && p !in links && p.hashKey == hash(p.key) && b == p.hashKey % tab.Length
               && forall n :: n in links ==> !Holds(links, equal, n, p.key)
      ensures chains[b] != [] ==> chains[b][0] in links
      ensures after == Prepended(links, chains[b], p, p.hashKey, p.key, p.value)
      ensures Keyed(after, hash, equal) && |after| == nelem + 1 && PutIn(links, after, equal, p.key, p.value)
      ensures after.Keys == links.Keys + {p}
    {
      FirstIn(links, tab[..], chains, b);
      after := Prepended(links, chains[b], p, p.hashKey, p.key, p.value);
      PutFresh(links, hash, equal, chains[b], p, p.key, p.value);
    }

    /** zc_hashtable_rehash: every entry moves to a table twice as large. */
    method Rehash()
      requires Valid()
      modifies this, links.Keys
      ensures Valid() && fresh(tab) && SameEntries(old(links), links) && nelem == old(nelem)
      ensures tab.Length == 2 * old(tab.Length)
      ensures forall k :: Lookup(links, equal, k) == Lookup(old(links), equal, k)
    {
      var to := new Entry?<K, V>[2 * tab.Length](_ => null);
      ghost var done, new_ := MoveAll(to);
      tab, links, chains := to, done, new_;
    }

    method MoveAll(to: array<Entry?<K, V>>) returns (ghost done: Links<K, V>, ghost new_: seq<Chain<K, V>>)
      requires Valid() && to != tab && to.Length > 0 && forall b :: 0 <= b < to.Length ==> to[b] == null
      modifies to, links.Keys
      ensures Tracked(done) && Laid(done, to[..], new_) && SameEntries(links, done) && |done| == |links|
      ensures Keyed(done, hash, equal) && forall k :: Lookup(done, equal, k) == Lookup(links, equal, k)
    {
      ghost var rest := links;
      done, new_ := map[], seq(to.Length, _ => []);
      NothingMoved(links, tab[..], chains, to[..], new_);
      var i := 0;
      while i < tab.Length
        invariant 0 <= i <= tab.Length && Halfway(links, chains, i, 0, rest, done, to[..], new_)
        invariant Tracked(rest) && Tracked(done)
      {
        rest, done, new_ := MoveChain(i, to, rest, done, new_);
        i := i + 1;
      }
      AllMoved(links, chains, hash, equal, rest, done, to[..], new_);
    }

    method MoveChain(i: nat, to: array<Entry?<K, V>>, ghost rest0: Links<K, V>, ghost done0: Links<K, V>,
        ghost new0: seq<Chain<K, V>>)
      returns (ghost rest: Links<K, V>, ghost done: Links<K, V>, ghost new_: seq<Chain<K, V>>)
      requires Laid(links, tab[..], chains) && i < tab.Length && to != tab
               && Halfway(links, chains, i, 0, rest0, done0, to[..], new0)
      requires Tracked(rest0) && Tracked(done0)
      modifies to, links.Keys
      ensures Halfway(links, chains, i + 1, 0, rest, done, to[..], new_) && Tracked(rest) && Tracked(done)
    {
      rest, done, new_ := rest0, done0, new0;
      var p := tab[i];
      ghost var j := 0;
      assert Bucket(links, tab[..][i], chains[i], i, tab.Length);
      while p != null
        invariant j <= |chains[i]| && p == if j < |chains[i]| then chains[i][j] else null
        invariant Halfway(links, chains, i, j, rest, done, to[..], new_) && Tracked(rest) && Tracked(done)
        decreases |chains[i]| - j
      {
        NextToMove(links, tab[..], chains, i, j, rest, done, to[..], new_);
        var q := p.next;
        rest, done, new_ := MoveEntry(i, j, p, to, rest, done, new_);
        p := q;
        j := j + 1;
      }
      ChainMoved(links, tab[..], chains, i, rest, done, to[..], new_);
    }

    method MoveEntry(ghost i: nat, ghost j: nat, p: Entry<K, V>, to: array<Entry?<K, V>>, ghost rest: Links<K, V>,
        ghost done: Links<K, V>, ghost new_: seq<Chain<K, V>>)
      returns (ghost rest': Links<K, V>, ghost done': Links<K, V>, ghost new': seq<Chain<K, V>>)
      requires Laid(links, tab[..], chains) && i < tab.Length && j < |chains[i]| && to != tab && p == chains[i][j]
               && p in rest && Halfway(links, chains, i, j, rest, done, to[..], new_)
      requires Tracked(rest) && Tracked(done)
      modifies to, links.Keys
      ensures Halfway(links, chains, i, j + 1, rest', done', to[..], new') && Tracked(rest') && Tracked(done')
    {
      PendingOn(links, tab[..], chains, i, j, rest);
      var b := p.hashKey % to.Length;
      ghost var chain := new_[b];
      rest' := rest - {p};
      done', new' := LinkIn(p, b, to, done, new_);
      PartedOn(links, rest, done, chain, p);
    }

    /** zc_hashtable_remove. */
    method Remove(k: K)
      requires Valid()
      modifies this, tab, links.Keys
      ensures Valid() && tab == old(tab) && links.Keys <= old(links.Keys)
      ensures forall j :: At(j) == if equal(k, j) then None else old(At(j))
      ensures nelem + (if old(At(k)) == None then 0 else 1) == old(nelem)
    {
      var p := GetEntry(k);
      if p == null {
        NothingUnder(k);
        return;
      }
      ghost var b, i := Found(p);
      CutLaid(links, tab[..], chains, b, i);
      CutOut(links, hash, equal, p, k);
      LookupIs(links, hash, equal, p, k);
      ghost var l := Unlink(p);
      Become(nelem - 1, l, chains[b := Cut(chains[b], i)]);
    }

    lemma NothingUnder(k: K)
      requires Valid() && forall n :: n in links ==> !Holds(links, equal, n, k)
      ensures forall j :: At(j) == if equal(k, j) then None else At(j)
      ensures At(k) == None
    {
      forall j | equal(k, j) ensures At(j) == None {
        forall n | n in links ensures !Holds(links, equal, n, j) {
          if equal(j, links[n].key) {
            Through(hash, equal, k, j, links[n].key);
          }
        }
      }
    }

    lemma Found(p: Entry<K, V>) returns (b: nat, i: nat)
      requires Laid(links, tab[..], chains) && p in links
      ensures b < |chains| && i < |chains[b]| && chains[b][i] == p && b == links[p].hashKey % tab.Length
    {
      b := links[p].hashKey % tab.Length;
      assert InPlace(links, chains, p);
      i :| 0 <= i < |chains[b]| && chains[b][i] == p;
    }

    method Unlink(p: Entry<K, V>) returns (ghost l: Links<K, V>)
      requires Tracked(links) && Cuttable(links, p) && tab.Length > 0
      modifies tab, links.Keys
      ensures l == Without(links, p) && Tracked(l)
      ensures var was := links[p];
        tab[..] == if was.prev == null then old(tab[..])[was.hashKey % tab.Length := was.next] else old(tab[..])
    {
      if p.next != null {
        p.next.prev := p.prev;
      }
      if p.prev != null {
        p.prev.next := p.next;
      } else {
        tab[p.hashKey % tab.Length] := p.next;
      }
      l := Without(links, p);
    }

    /** The entries of one chain are given back. */
    method Free(b: nat, ghost was: seq<Entry?<K, V>>) returns (ghost freed: Chain<K, V>)
      requires Tracked(links) && Laid(links, was, chains) && b < |was| == tab.Length && tab[b] == was[b]
      ensures freed == chains[b]
    {
      freed := [];
      assert Bucket(links, was[b], chains[b], b, |was|);
      var p := tab[b];
      while p != null
        invariant |freed| <= |chains[b]| && freed == chains[b][..|freed|]
        invariant p == if |freed| < |chains[b]| then chains[b][|freed|] else null
        decreases |chains[b]| - |freed|
      {
        assert LinkedAt(links, chains[b], |freed|);
        var q := p.next;
        freed := freed + [p];
        p := q;
      }
    }

    /** zc_hashtable_clean: every entry is given back once, and nothing is left. */
    method Clean() returns (ghost freed: Chain<K, V>)
      requires Valid()
      modifies this`nelem, this`links, this`chains, tab
      ensures Valid() && nelem == 0 && forall k :: At(k) == None
      ensures freed == old(Order()) && Once(freed, old(links))
    {
      AllOnce(links, tab[..], chains);
      freed := FreeAll();
      nelem := 0;
      links, chains := map[], seq(tab.Length, _ => []);
    }

    method FreeAll() returns (ghost freed: Chain<K, V>)
      requires Tracked(links) && Laid(links, tab[..], chains)
      modifies tab
      ensures freed == Flat(chains) && forall b :: 0 <= b < tab.Length ==> tab[b] == null
    {
      freed := [];
      ghost var was := tab[..];
      var i := 0;
      while i < tab.Length
        invariant 0 <= i <= tab.Length && freed == Flat(chains[..i]) && Laid(links, was, chains)
        invariant forall b :: 0 <= b < tab.Length ==> tab[b] == if b < i then null else was[b]
      {
        ghost var one := Free(i, was);
        FlatOn(chains, i);
        freed := freed + one;
        tab[i] := null;
        i := i + 1;
      }
      assert chains[..i] == chains;
    }

    ghost function Order(): Chain<K, V>
      reads this
    {
      Flat(chains)
    }

    lemma Heads(b: nat)
      requires Laid(links, tab[..], chains) && b < tab.Length
      ensures tab[b] == First(chains[b])
    {
      assert Bucket(links, tab[..][b], chains[b], b, tab.Length);
    }

    /** The first bucket from b on that is not empty. */
    method FirstFrom(b: nat) returns (p: Entry?<K, V>)
      requires Valid() && b <= tab.Length
      ensures p == First(Flat(chains[b..]))
    {
      var j := b;
      while j < tab.Length
        invariant b <= j <= tab.Length && forall a :: b <= a < j ==> chains[a] == []
      {
        Heads(j);
        if tab[j] != null {
          FirstFlat(chains, b, j);
          return tab[j];
        }
        j := j + 1;
      }
      FirstFlat(chains, b, j);
      p := null;
    }

    /** zc_hashtable_begin. */
    method Begin() returns (p: Entry?<K, V>)
      requires Valid()
      ensures p == First(Order())
    {
      assert chains[0..] == chains;
      p := FirstFrom(0);
    }

    /** zc_hashtable_next. */
    method Next(e: Entry<K, V>, ghost at: nat) returns (p: Entry?<K, V>)
      requires Valid() && at < |Order()| && Order()[at] == e
      ensures p == After(Order(), at)
    {
      AllOnce(links, tab[..], chains);
      ghost var b, i := Found(e);
      AtPlace(chains, b, i);
      assert Bucket(links, tab[..][b], chains[b], b, tab.Length) && LinkedAt(links, chains[b], i);
      if e.next != null {
        return e.next;
      }
      p := FirstFrom(e.hashKey % tab.Length + 1);
    }

    /** zc_hashtable_foreach: every entry is visited once. */
    method Foreach() returns (visited: seq<Entry<K, V>>)
      requires Valid()
      ensures visited == Order() && Once(visited, links)
    {
      AllOnce(links, tab[..], chains);
      visited := [];
      var p := Begin();
      while p != null
        invariant |visited| <= |Order()| && visited == Order()[..|visited|]
        invariant p == if |visited| < |Order()| then Order()[|visited|] else null
        decreases |Order()| - |visited|
      {
        ghost var at := |visited|;
        visited := visited + [p];
        p := Next(p, at);
      }
    }
  }
}
