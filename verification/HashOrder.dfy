/** The order in which the hash table is gone through: bucket after bucket, each along its chain. */
module HashOrder {
  import opened HashShape

  function Flat<K, V>(chains: seq<Chain<K, V>>): Chain<K, V> {
    if chains == [] then [] else chains[0] + Flat(chains[1..])
  }

  lemma {:induction false} FlatParts<K, V>(chains: seq<Chain<K, V>>, b: nat)
    requires b <= |chains|
    ensures Flat(chains) == Flat(chains[..b]) + Flat(chains[b..])
  {
    if b > 0 {
      assert chains[..b][1..] == chains[1..][..b - 1] && chains[1..][b - 1..] == chains[b..];
      FlatParts(chains[1..], b - 1);
    }
  }

  lemma FlatAt<K, V>(chains: seq<Chain<K, V>>, b: nat)
    requires b < |chains|
    ensures Flat(chains) == Flat(chains[..b]) + (chains[b] + Flat(chains[b + 1..]))
  {
    FlatParts(chains, b);
    assert chains[b..][1..] == chains[b + 1..];
  }

  lemma FlatOn<K, V>(chains: seq<Chain<K, V>>, b: nat)
    requires b < |chains|
    ensures Flat(chains[..b + 1]) == Flat(chains[..b]) + chains[b]
  {
    FlatParts(chains[..b + 1], b);
    assert chains[..b + 1][..b] == chains[..b] && chains[..b + 1][b..] == [chains[b]];
    assert Flat([chains[b]]) == chains[b];
  }

  /** Where entry i of chain b comes. */
  function Place<K, V>(chains: seq<Chain<K, V>>, b: nat, i: nat): nat
    requires b < |chains|
  {
    |Flat(chains[..b])| + i
  }

  lemma AtPlace<K, V>(chains: seq<Chain<K, V>>, b: nat, i: nat)
    requires b < |chains| && i < |chains[b]|
    ensures Place(chains, b, i) < |Flat(chains)| && Flat(chains)[Place(chains, b, i)] == chains[b][i]
    ensures i + 1 < |chains[b]| ==> After(Flat(chains), Place(chains, b, i)) == chains[b][i + 1]
    ensures i + 1 == |chains[b]| ==> After(Flat(chains), Place(chains, b, i)) == First(Flat(chains[b + 1..]))
  {
    FlatAt(chains, b);
  }

  /** Empty chains are passed over. */
  lemma {:induction false} FirstFlat<K, V>(chains: seq<Chain<K, V>>, b: nat, c: nat)
    requires b <= c <= |chains| && forall a :: b <= a < c ==> chains[a] == []
    ensures First(Flat(chains[b..])) ==
      if c == |chains| then null else if chains[c] == [] then First(Flat(chains[c + 1..])) else chains[c][0]
    decreases c - b
  {
    if b < c {
      assert chains[b..][1..] == chains[b + 1..];
      FirstFlat(chains, b + 1, c);
    } else if c < |chains| {
      assert chains[c..][1..] == chains[c + 1..];
    }
  }

  lemma {:induction false} FlatHas<K, V>(chains: seq<Chain<K, V>>, b: nat, n: Entry<K, V>)
    requires b < |chains| && n in chains[b]
    ensures n in Flat(chains)
  {
    FlatAt(chains, b);
  }

  lemma {:induction false} FlatFrom<K, V>(chains: seq<Chain<K, V>>, n: Entry<K, V>) returns (b: nat)
    requires n in Flat(chains)
    ensures b < |chains| && n in chains[b]
  {
    if n in chains[0] {
      b := 0;
    } else {
      b := FlatFrom(chains[1..], n);
      b := b + 1;
    }
  }

  /** Chains without an entry in common, each of distinct entries. */
  ghost predicate Separate<K, V>(chains: seq<Chain<K, V>>) {
    && (forall b :: 0 <= b < |chains| ==> Distinct(chains[b]))
    && forall b, c, n {:trigger n in chains[b], n in chains[c]} ::
         0 <= b < |chains| && 0 <= c < |chains| && n in chains[b] && n in chains[c] ==> b == c
  }

  lemma {:induction false} FlatDistinct<K, V>(chains: seq<Chain<K, V>>)
    requires Separate(chains)
    ensures Distinct(Flat(chains))
  {
    if chains != [] {
      var rest := chains[1..];
      forall b, c, n | 0 <= b < |rest| && 0 <= c < |rest| && n in rest[b] && n in rest[c] ensures b == c {
        assert n in chains[b + 1] && n in chains[c + 1];
      }
      FlatDistinct(rest);
      forall n | n in chains[0] ensures n !in Flat(rest) {
        if n in Flat(rest) {
          var b := FlatFrom(rest, n);
          assert false;
        }
      }
      JoinedDistinct(chains[0], Flat(rest));
    }
  }

  lemma JoinedDistinct<K, V>(a: Chain<K, V>, b: Chain<K, V>)
    requires Distinct(a) && Distinct(b) && forall n :: n in a ==> n !in b
    ensures Distinct(a + b)
  {
    forall i, j | 0 <= i < j < |a + b| ensures (a + b)[i] != (a + b)[j] {
      assert (a + b)[j] in a || (a + b)[j] in b;
      assert i < |a| ==> (a + b)[i] == a[i];
    }
  }

  /** Every entry, once. */
  ghost predicate Once<K, V>(order: Chain<K, V>, links: Links<K, V>) {
    && Distinct(order) && |order| == |links| && (forall n :: n in order ==> n in links)
    && forall n :: n in links ==> n in order
  }

  /** Going through the chains comes to every entry of the table once. */
  lemma AllOnce<K, V>(links: Links<K, V>, tab: seq<Entry?<K, V>>, chains: seq<Chain<K, V>>)
    requires Laid(links, tab, chains)
    ensures Once(Flat(chains), links)
  {
    forall b | 0 <= b < |chains| ensures Distinct(chains[b]) {
      assert Bucket(links, tab[b], chains[b], b, |tab|);
    }
    forall b, c, n | 0 <= b < |chains| && 0 <= c < |chains| && n in chains[b] && n in chains[c] ensures b == c {
      assert Bucket(links, tab[b], chains[b], b, |tab|) && Bucket(links, tab[c], chains[c], c, |tab|);
    }
    FlatDistinct(chains);
    forall n | n in Flat(chains) ensures n in links {
      FlatIsLinks(links, tab, chains, n);
    }
    forall n | n in links ensures n in Flat(chains) {
      FlatIsLinks(links, tab, chains, n);
    }
    CountDistinct(Flat(chains), links.Keys);
  }

  lemma FlatIsLinks<K, V>(links: Links<K, V>, tab: seq<Entry?<K, V>>, chains: seq<Chain<K, V>>, n: Entry<K, V>)
    requires Laid(links, tab, chains)
    ensures n in Flat(chains) <==> n in links
  {
    if n in Flat(chains) {
      var b := FlatFrom(chains, n);
      assert Bucket(links, tab[b], chains[b], b, |tab|);
    }
    if n in links {
      assert InPlace(links, chains, n);
      FlatHas(chains, links[n].hashKey % |chains|, n);
    }
  }

  lemma {:induction false} CountDistinct<K, V>(s: Chain<K, V>, all: set<Entry<K, V>>)
    requires Distinct(s) && (forall n :: n in s ==> n in all) && forall n :: n in all ==> n in s
    ensures |s| == |all|
  {
    if s == [] {
      assert all == {};
    } else {
      var last, init := s[|s| - 1], s[..|s| - 1];
      forall n | n in init ensures n in all && n != last {
        var i :| 0 <= i < |init| && init[i] == n;
        assert s[i] == n;
      }
      forall n | n in all - {last} ensures n in init {
        assert n in s;
      }
      CountDistinct(init, all - {last});
    }
  }
}
