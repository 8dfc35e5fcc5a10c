/** The pointer-based binary heap of heap-inl.h, ordered as timer.c orders its timers. The node with number n, counting
    row by row from 1, is reached from the root by the bits of n after the first. */
module TimerHeap {
  /** uv_timer_t, with its heap node embedded. */
  class Timer {
    var timeout: int
    var startId: int
    var repeat: int
    var active: bool
    var closing: bool
    var callback: bool      // timer_cb is not NULL
    var left: Timer?
    var right: Timer?
    var parent: Timer?

    constructor ()
      ensures timeout == 0 && startId == 0 && repeat == 0 && !active && !closing && !callback
    {
      timeout, startId, repeat, active, closing, callback, left, right, parent := 0, 0, 0, false, false, false, null,
          null, null;
    }
  }

  datatype Key = Key(timeout: int, startId: int)

  /** timer_less_than */
  predicate Less(a: Key, b: Key) {
    if a.timeout < b.timeout then true
    else if b.timeout < a.timeout then false
    else a.startId < b.startId
  }

  lemma NotLessTransitive(a: Key, b: Key, c: Key)
    requires !Less(a, b) && !Less(b, c)
    ensures !Less(a, c)
  {
  }

  // ----- the shape, as values -----

  /** A node's pointers and, for the proof, its place in level order. */
  datatype Link = Link(left: Timer?, right: Timer?, parent: Timer?)
  type Links = map<Timer, Link>

  function Up(i: int): int {
    (i - 1) / 2
  }

  function Place(order: seq<Timer>, i: int): Timer? {
    if 0 <= i < |order| then order[i] else null
  }

  ghost predicate Local(order: seq<Timer>, links: Links, at: map<Timer, int>, i: int)
    requires 0 <= i < |order|
  {
    && order[i] in links && order[i] in at && at[order[i]] == i
    && links[order[i]]
         == Link(Place(order, 2 * i + 1), Place(order, 2 * i + 2), if i == 0 then null else Place(order, Up(i)))
  }

  /** A complete binary tree: every row full but the last, which is filled from the left. */
  ghost predicate Complete(root: Timer?, order: seq<Timer>, links: Links, at: map<Timer, int>) {
    && root == Place(order, 0)
    && forall i {:trigger Local(order, links, at, i)} :: 0 <= i < |order| ==> Local(order, links, at, i)
  }

  lemma Distinct(root: Timer?, order: seq<Timer>, links: Links, at: map<Timer, int>, i: int, j: int)
    requires Complete(root, order, links, at) && 0 <= i < |order| && 0 <= j < |order| && order[i] == order[j]
    ensures i == j
  {
    assert Local(order, links, at, i) && Local(order, links, at, j);
  }

  /** What heap_node_swap makes of the pointers of n. */
  function Swapped(links: Links, p: Timer, c: Timer, n: Timer): Link
    requires p in links && c in links && n in links
  {
    if n == c then
      Link(if links[p].left == c then p else links[p].left, if links[p].left == c then links[p].right else p,
           links[p].parent)
    else if n == p then
      Link(links[c].left, links[c].right, c)
    else
      Link(if links[n].left == p then c else links[n].left, if links[n].right == p then c else links[n].right,
           if links[n].parent == p then c else if links[n].parent == c then p else links[n].parent)
  }

  lemma SwapPlace(order: seq<Timer>, pi: int, ci: int, k: int)
    requires 0 <= pi < ci < |order|
    ensures var o := order[pi := order[ci]][ci := order[pi]];
            Place(o, k) == if k == pi then order[ci] else if k == ci then order[pi] else Place(order, k)
  {
  }

  /** Swapping the pointers of a parent and a child swaps their numbers. */
  lemma SwapComplete(root: Timer?, order: seq<Timer>, links: Links, at: map<Timer, int>, pi: int, ci: int,
      links': Links)
    requires Complete(root, order, links, at) && 0 < ci < |order| && pi == Up(ci)
    requires links'.Keys == links.Keys
             && forall n ::
                  n in links ==>
                    order[pi] in links && order[ci] in links && links'[n] == Swapped(links, order[pi], order[ci], n)
    ensures var p, c := order[pi], order[ci];
            Complete(if pi == 0 then c else root, order[pi := c][ci := p], links', at[c := pi][p := ci])
  {
    var p, c := order[pi], order[ci];
    var o, at' := order[pi := c][ci := p], at[c := pi][p := ci];
    assert Local(order, links, at, pi) && Local(order, links, at, ci);
    forall i | 0 <= i < |o| ensures Local(o, links', at', i) {
      SwapPlace(order, pi, ci, i);
      SwapPlace(order, pi, ci, 2 * i + 1);
      SwapPlace(order, pi, ci, 2 * i + 2);
      SwapPlace(order, pi, ci, Up(i));
      assert Local(order, links, at, i);
      SwapAt(root, order, links, at, pi, ci, i);
    }
  }

  /** Which pointers of the i-th node point to the two that are swapped. */
  lemma SwapAt(root: Timer?, order: seq<Timer>, links: Links, at: map<Timer, int>, pi: int, ci: int, i: int)
    requires Complete(root, order, links, at) && 0 < ci < |order| && pi == Up(ci) && 0 <= i < |order|
    ensures order[i] in links
    ensures var p, c, l := order[pi], order[ci], links[order[i]];
            (l.left == p <==> 2 * i + 1 == pi) && (l.right == p <==> 2 * i + 2 == pi)
            && (l.left == c <==> 2 * i + 1 == ci) && (l.right == c <==> 2 * i + 2 == ci)
    ensures var p, c, l := order[pi], order[ci], links[order[i]];
            (l.parent == p <==> i > 0 && Up(i) == pi) && (l.parent == c <==> i > 0 && Up(i) == ci)
            && (order[i] == p <==> i == pi) && (order[i] == c <==> i == ci)
  {
    assert Local(order, links, at, i) && Local(order, links, at, pi) && Local(order, links, at, ci);
    if 2 * i + 1 < |order| { assert Local(order, links, at, 2 * i + 1); }
    if 2 * i + 2 < |order| { assert Local(order, links, at, 2 * i + 2); }
    if i > 0 { assert Local(order, links, at, Up(i)); }
  }

  // ----- the order, as values -----

  /** The node with index i is not before its parent. */
  predicate Edge(ks: seq<Key>, i: int)
    requires 0 < i < |ks|
  {
    !Less(ks[i], ks[Up(i)])
  }

  ghost predicate Ordered(ks: seq<Key>) {
    forall i {:trigger Edge(ks, i)} :: 0 < i < |ks| ==> Edge(ks, i)
  }

  /** Only the node at c may be out of order, with its parent or with its children; its parent is in order with
      those children. */
  ghost predicate OrderedBut(ks: seq<Key>, c: int) {
    && (forall i {:trigger Edge(ks, i)} :: 0 < i < |ks| && i != c && Up(i) != c ==> Edge(ks, i))
    && (0 < c < |ks| ==> forall j {:trigger Bridge(ks, c, j)} :: 0 < j < |ks| && Up(j) == c ==> Bridge(ks, c, j))
  }

  predicate Bridge(ks: seq<Key>, c: int, j: int)
    requires 0 < c < |ks| && 0 < j < |ks|
  {
    !Less(ks[j], ks[Up(c)])
  }

  /** Only the node at c may be out of order, and only with its parent. */
  ghost predicate OrderedBelow(ks: seq<Key>, c: int) {
    OrderedBut(ks, c) && forall i {:trigger Edge(ks, i)} :: 0 < i < |ks| && Up(i) == c ==> Edge(ks, i)
  }

  lemma {:induction false} RootLeast(ks: seq<Key>, i: int)
    requires Ordered(ks) && 0 <= i < |ks|
    ensures !Less(ks[i], ks[0])
  {
    if i > 0 {
      assert Edge(ks, i);
      RootLeast(ks, Up(i));
      NotLessTransitive(ks[i], ks[Up(i)], ks[0]);
    }
  }

  function Exchanged(ks: seq<Key>, i: int, j: int): seq<Key>
    requires 0 <= i < |ks| && 0 <= j < |ks|
  {
    ks[i := ks[j]][j := ks[i]]
  }

  /** A node before its parent moves up. */
  lemma MovedUp(ks: seq<Key>, c: int)
    requires 0 < c < |ks| && OrderedBelow(ks, c) && Less(ks[c], ks[Up(c)])
    ensures OrderedBelow(Exchanged(ks, Up(c), c), Up(c))
  {
    var p, s := Up(c), Exchanged(ks, Up(c), c);
    forall i | 0 < i < |s| && i != p ensures Edge(s, i) {
      if i != c { assert Edge(ks, i); }
      if Up(i) == c { assert Bridge(ks, c, i); }
      if p > 0 { assert Edge(ks, p); }
    }
    if 0 < p {
      forall j | 0 < j < |s| && Up(j) == p ensures Bridge(s, p, j) {
        assert Edge(ks, p);
        if j != c { assert Edge(ks, j); }
      }
    }
  }

  /** A node behind its lesser child d moves down. */
  lemma MovedDown(ks: seq<Key>, c: int, d: int)
    requires 0 <= c < d < |ks| && Up(d) == c && OrderedBut(ks, c) && Less(ks[d], ks[c])
    requires forall j {:trigger Up(j)} :: 0 < j < |ks| && Up(j) == c ==> !Less(ks[j], ks[d])
    ensures OrderedBut(Exchanged(ks, c, d), d)
    ensures d > 0 && Edge(Exchanged(ks, c, d), d)
  {
    var s := Exchanged(ks, c, d);
    forall i | 0 < i < |s| && i != d && Up(i) != d ensures Edge(s, i) {
      if i == c { assert Bridge(ks, c, d); }
      else if Up(i) != c { assert Edge(ks, i); }
    }
    forall j | 0 < j < |s| && Up(j) == d ensures Bridge(s, d, j) {
      assert Edge(ks, j);
    }
  }

  function KeyIn(key: map<Timer, Key>, t: Timer): Key {
    if t in key then key[t] else Key(0, 0)
  }

  function KeysOf(order: seq<Timer>, key: map<Timer, Key>): seq<Key> {
    seq(|order|, i requires 0 <= i < |order| => KeyIn(key, order[i]))
  }

  /** Every node has its number. */
  ghost predicate Placed(nodes: set<Timer>, order: seq<Timer>, at: map<Timer, int>) {
    forall n {:trigger PlacedAt(order, at, n)} :: n in nodes ==> PlacedAt(order, at, n)
  }

  function Num(at: map<Timer, int>, n: Timer): int {
    if n in at then at[n] else -1
  }

  predicate PlacedAt(order: seq<Timer>, at: map<Timer, int>, n: Timer) {
    n in at && 0 <= at[n] < |order| && order[at[n]] == n
  }

  lemma SwapPlaced(nodes: set<Timer>, order: seq<Timer>, at: map<Timer, int>, pi: int, ci: int)
    requires Placed(nodes, order, at) && 0 <= pi < ci < |order| && order[pi] in nodes && order[ci] in nodes
             && Num(at, order[pi]) == pi && Num(at, order[ci]) == ci
    ensures Placed(nodes, order[pi := order[ci]][ci := order[pi]], at[order[ci] := pi][order[pi] := ci])
  {
    forall n | n in nodes
      ensures PlacedAt(order[pi := order[ci]][ci := order[pi]], at[order[ci] := pi][order[pi] := ci], n)
    {
      assert PlacedAt(order, at, n);
    }
  }

  /** Every pointer to a node has one pointing back. */
  lemma Family(root: Timer?, order: seq<Timer>, links: Links, at: map<Timer, int>, i: int, j: int)
    requires Complete(root, order, links, at) && 0 <= i < |order| && 0 <= j < |order|
    ensures order[i] in links && order[j] in links
    ensures var p, n, l := order[i], order[j], links[order[j]];
            (l.parent == p <==> links[p].left == n || links[p].right == n) && l.parent != n
            && (l.left != null ==> l.left != l.right)
    ensures var l := links[order[j]];
            (l.left != null ==> l.left in links) && (l.right != null ==> l.right in links)
            && (l.parent != null ==> l.parent in links)
  {
    Beside(root, order, links, at, i);
    Beside(root, order, links, at, j);
    assert Local(order, links, at, i) && Local(order, links, at, j);
  }

  /** The numbers of a node's neighbours. */
  lemma Beside(root: Timer?, order: seq<Timer>, links: Links, at: map<Timer, int>, i: int)
    requires Complete(root, order, links, at) && 0 <= i < |order|
    ensures order[i] in links && order[i] in at && at[order[i]] == i
    ensures 2 * i + 1 < |order| ==>
              order[2 * i + 1] in links && order[2 * i + 1] in at && at[order[2 * i + 1]] == 2 * i + 1
    ensures 2 * i + 2 < |order| ==>
              order[2 * i + 2] in links && order[2 * i + 2] in at && at[order[2 * i + 2]] == 2 * i + 2
    ensures i > 0 ==> order[Up(i)] in links && order[Up(i)] in at && at[order[Up(i)]] == Up(i)
  {
    assert Local(order, links, at, i);
    if 2 * i + 1 < |order| { assert Local(order, links, at, 2 * i + 1); }
    if 2 * i + 2 < |order| { assert Local(order, links, at, 2 * i + 2); }
    if i > 0 { assert Local(order, links, at, Up(i)); }
  }

  // ----- growing, shrinking and replacing, as values -----

  lemma PlaceAppended(order: seq<Timer>, t: Timer, k: int)
    ensures Place(order + [t], k) == if k == |order| then t else Place(order, k)
  {
  }

  /** A new node in the first free place of the bottom row. */
  lemma AppendComplete(root: Timer?, order: seq<Timer>, links: Links, at: map<Timer, int>, t: Timer, links': Links)
    requires Complete(root, order, links, at) && t !in links && t in links'
    requires links'[t] == Link(null, null, if |order| == 0 then null else Place(order, Up(|order|)))
    requires forall i {:trigger order[i]} ::
               0 <= i < |order| && order[i] in links ==>
                 order[i] in links'
                 && links'[order[i]] ==
                      links[order[i]].(left := if 2 * i + 1 == |order| then t else links[order[i]].left,
                                       right := if 2 * i + 2 == |order| then t else links[order[i]].right)
    ensures Complete(if |order| == 0 then t else root, order + [t], links', at[t := |order|])
  {
    var o, at' := order + [t], at[t := |order|];
    forall i | 0 <= i < |o| ensures Local(o, links', at', i) {
      PlaceAppended(order, t, 2 * i + 1);
      PlaceAppended(order, t, 2 * i + 2);
      PlaceAppended(order, t, Up(i));
      if i < |order| {
        assert Local(order, links, at, i);
      }
    }
  }

  lemma PlaceDropped(order: seq<Timer>, k: int)
    requires order != []
    ensures Place(order[..|order| - 1], k) == if k == |order| - 1 then null else Place(order, k)
  {
  }

  /** The last node of the bottom row unlinked. */
  lemma DropComplete(root: Timer?, order: seq<Timer>, links: Links, at: map<Timer, int>, links': Links)
    requires Complete(root, order, links, at) && order != []
    requires forall i {:trigger order[i]} ::
               0 <= i < |order| - 1 && order[i] in links ==>
                 order[i] in links'
                 && links'[order[i]] ==
                      links[order[i]].(left := if 2 * i + 1 == |order| - 1 then null else links[order[i]].left,
                                       right := if 2 * i + 2 == |order| - 1 then null else links[order[i]].right)
    ensures Complete(if |order| == 1 then null else root, order[..|order| - 1], links', at)
  {
    var o := order[..|order| - 1];
    forall i | 0 <= i < |o| ensures Local(o, links', at, i) {
      PlaceDropped(order, 2 * i + 1);
      PlaceDropped(order, 2 * i + 2);
      PlaceDropped(order, Up(i));
      assert Local(order, links, at, i);
    }
  }

  /** What replacing the node old by x makes of the pointers of n. */
  function Replaced(l: Link, was: Timer, x: Timer): Link {
    Link(if l.left == was then x else l.left, if l.right == was then x else l.right,
         if l.parent == was then x else l.parent)
  }

  lemma ReplaceComplete(root: Timer?, order: seq<Timer>, links: Links, at: map<Timer, int>, p: int, x: Timer,
      links': Links)
    requires Complete(root, order, links, at) && 0 <= p < |order| && x !in links && x in links' && order[p] in links
    requires links'[x] == links[order[p]]
    requires forall n :: n in links && n != order[p] ==> n in links' && links'[n] == Replaced(links[n], order[p], x)
    ensures Complete(if p == 0 then x else root, order[p := x], links', at[x := p])
  {
    var o, at' := order[p := x], at[x := p];
    forall i | 0 <= i < |o| ensures Local(o, links', at', i) {
      Beside(root, order, links, at, p);
      Beside(root, order, links, at, i);
      assert Local(order, links, at, i);
    }
  }

  // ----- paths -----

  /** The number reached from the node with the given number by the last k bits of path, lowest first. */
  function Walk(path: nat, k: nat, number: nat): nat {
    if k == 0 then number else Walk(path / 2, k - 1, 2 * number + path % 2)
  }

  lemma {:induction false} WalkDescends(path: nat, k: nat, number: nat)
    ensures Walk(path, k, number) >= number && (k > 0 ==> Walk(path, k, number) >= 2 * number)
  {
    if k > 0 {
      WalkDescends(path / 2, k - 1, 2 * number + path % 2);
    }
  }

  /** The loop of heap_insert and heap_remove that turns a number into a path. */
  method PathTo(number: nat) returns (path: nat, k: nat)
    requires number >= 1
    ensures Walk(path, k, 1) == number
  {
    var n := number;
    path, k := 0, 0;
    while n >= 2
      invariant n >= 1 && Walk(path, k, n) == number
    {
      assert (path * 2 + n % 2) / 2 == path && (path * 2 + n % 2) % 2 == n % 2;
      assert Walk(path * 2 + n % 2, k + 1, n / 2) == Walk(path, k, 2 * (n / 2) + n % 2);
      path, k, n := path * 2 + n % 2, k + 1, n / 2;
    }
  }

  /** A struct heap_node**: the root pointer, or a pointer inside a node. */
  datatype Slot = Root | LeftOf(t: Timer) | RightOf(t: Timer)

  /** The slot is where the node with index i hangs. */
  predicate SlotFor(order: seq<Timer>, s: Slot, i: int) {
    match s
    case Root => i == 0
    case LeftOf(t) => 0 < i && 0 <= Up(i) < |order| && order[Up(i)] == t && i == 2 * Up(i) + 1
    case RightOf(t) => 0 < i && 0 <= Up(i) < |order| && order[Up(i)] == t && i == 2 * Up(i) + 2
  }

  class Heap {
    var min: Timer?
    var nelts: nat
    ghost var order: seq<Timer>    // the nodes row by row
    ghost var nodes: set<Timer>
    ghost var at: map<Timer, int>
    ghost var key: map<Timer, Key>

    /** key is what the nodes' own fields say. */
    ghost predicate Keyed()
      reads this`nodes, this`key, nodes`timeout, nodes`startId
    {
      forall n {:trigger n in key} {:trigger n.timeout} ::
        n in nodes ==> n in key && key[n] == Key(n.timeout, n.startId)
    }

    ghost function LinksNow(): Links
      reads this`nodes, nodes`left, nodes`right, nodes`parent
    {
      map n | n in nodes :: Link(n.left, n.right, n.parent)
    }

    ghost predicate Shaped()
      reads this, nodes`left, nodes`right, nodes`parent
    {
      && Complete(min, order, LinksNow(), at) && nelts == |order|
      && Placed(nodes, order, at)
    }

    ghost predicate Valid()
      reads this, nodes
    {
      Shaped() && Keyed() && Ordered(KeysOf(order, key))
    }

    /** heap_init */
    constructor ()
      ensures Valid() && nodes == {} && min == null
    {
      min, nelts, order, nodes, at, key := null, 0, [], {}, map[], map[];
    }

    lemma Here(i: int)
      requires Shaped() && 0 <= i < |order|
      ensures order[i] in nodes && Num(at, order[i]) == i
      ensures order[i].left == Place(order, 2 * i + 1) && order[i].right == Place(order, 2 * i + 2)
              && order[i].parent == if i == 0 then null else Place(order, Up(i))
    {
      assert Local(order, LinksNow(), at, i);
    }

    lemma KeyHere(i: int)
      requires Shaped() && Keyed() && 0 <= i < |order|
      ensures KeysOf(order, key)[i] == Key(order[i].timeout, order[i].startId)
    {
      Here(i);
    }

    lemma There(n: Timer)
      requires Shaped() && n in nodes
      ensures 0 <= Num(at, n) < |order| && order[Num(at, n)] == n
      ensures n.left == Place(order, 2 * Num(at, n) + 1) && n.right == Place(order, 2 * Num(at, n) + 2)
              && n.parent == if Num(at, n) == 0 then null else Place(order, Up(Num(at, n)))
    {
      assert PlacedAt(order, at, n);
      Here(Num(at, n));
    }

    /** heap_min is the least element. */
    lemma MinIsLeast(n: Timer)
      requires Valid() && n in nodes
      ensures min != null && min in nodes && !Less(Key(n.timeout, n.startId), Key(min.timeout, min.startId))
    {
      There(n);
      Here(0);
      RootLeast(KeysOf(order, key), Num(at, n));
    }

    /** heap_node_swap, on the nodes with indices pi and ci. */
    method Swap(parent: Timer, child: Timer, ghost pi: int, ghost ci: int)
      requires Shaped() && 0 < ci < |order| && pi == Up(ci) && order[pi] == parent && order[ci] == child
      modifies this`min, this`order, this`at, nodes`left, nodes`right, nodes`parent
      ensures Shaped() && order == old(order[pi := child][ci := parent])
    {
      ghost var was := LinksNow();
      Here(pi);
      Here(ci);
      Near(pi, ci);
      SwapPair(parent, child);
      SwapAround(parent, child, was);
      Renumber(was, old(min), pi, ci);
    }

    /** The numbers after a swap. */
    ghost method Renumber(was: Links, root: Timer?, pi: int, ci: int)
      requires Complete(root, order, was, at) && Placed(nodes, order, at) && nelts == |order| && 0 < ci < |order|
               && pi == Up(ci)
      requires was.Keys == nodes && order[pi] in was && order[ci] in was
               && min == if root == order[pi] then order[ci] else root
      requires forall n :: n in nodes ==> Link(n.left, n.right, n.parent) == Swapped(was, order[pi], order[ci], n)
      modifies this`order, this`at
      ensures Shaped() && order == old(order[pi := order[ci]][ci := order[pi]])
    {
      assert Local(order, was, at, pi) && Local(order, was, at, ci) && Local(order, was, at, 0);
      SwapComplete(root, order, was, at, pi, ci, LinksNow());
      SwapPlaced(nodes, order, at, pi, ci);
      order, at := order[pi := order[ci]][ci := order[pi]], at[order[ci] := pi][order[pi] := ci];
    }

    lemma Near(pi: int, ci: int)
      requires Shaped() && 0 < ci < |order| && pi == Up(ci)
      ensures Close(LinksNow(), order[pi], order[ci]) && (order[pi].parent == null <==> min == order[pi])
    {
      Here(pi);
      Here(ci);
      if pi > 0 { Here(Up(pi)); }
      Here(0);
      forall n | n in nodes ensures Kin(LinksNow(), order[pi], order[ci], n) {
        There(n);
        KinHolds(min, order, LinksNow(), at, pi, ci, Num(at, n));
      }
    }

    /** The first assignments of heap_node_swap: the pair and its sibling. */
    method SwapPair(parent: Timer, child: Timer)
      requires Close(LinksNow(), parent, child)
      modifies nodes`left, nodes`right, nodes`parent
      ensures forall n :: n in nodes && n != parent && n != child ==> n.left == old(n.left) && n.right == old(n.right)
      ensures forall n ::
                n in nodes && n != parent && n != child ==>
                  n.parent == if old(n.parent) == parent then child else old(n.parent)
      ensures Link(parent.left, parent.right, parent.parent) == old(Link(child.left, child.right, child))
      ensures Link(child.left, child.right, child.parent) == Swapped(old(LinksNow()), parent, child, child)
    {
      ghost var was := LinksNow();
      assert Kin(was, parent, child, parent) && Kin(was, parent, child, child);
      parent.left, parent.right, parent.parent, child.left, child.right, child.parent :=
        child.left, child.right, child.parent, parent.left, parent.right, parent.parent;
      parent.parent := child;
      var sibling;
      if child.left == child {
        child.left := parent;
        sibling := child.right;
      } else {
        child.right := parent;
        sibling := child.left;
      }
      if sibling != null {
        sibling.parent := child;
      }
      forall n | n in nodes && n != parent && n != child
        ensures n.parent == if old(n.parent) == parent then child else old(n.parent)
      {
        assert Kin(was, parent, child, n);
      }
    }

    /** The child's old children, which are the parent's now. */
    method SwapChildren(parent: Timer, child: Timer, ghost was: Links)
      requires Close(was, parent, child) && was.Keys == nodes
      requires forall n ::
                 n in nodes && n != parent && n != child ==>
                   n.parent == if was[n].parent == parent then child else was[n].parent
      requires parent.left == was[child].left && parent.right == was[child].right
      modifies nodes`parent
      ensures parent.parent == old(parent.parent) && child.parent == old(child.parent)
      ensures forall n :: n in nodes && n != parent && n != child ==> n.parent == Swapped(was, parent, child, n).parent
    {
      assert Kin(was, parent, child, parent) && Kin(was, parent, child, child);
      if parent.left != null {
        parent.left.parent := parent;
      }
      if parent.right != null {
        parent.right.parent := parent;
      }
      forall n | n in nodes && n != parent && n != child ensures n.parent == Swapped(was, parent, child, n).parent {
        assert Kin(was, parent, child, n);
      }
    }

    /** The rest: the child's old children and the pointer to the pair from above. */
    method SwapAround(parent: Timer, child: Timer, ghost was: Links)
      requires Close(was, parent, child) && was.Keys == nodes && (was[parent].parent == null <==> min == parent)
      requires forall n :: n in nodes && n != parent && n != child ==> n.left == was[n].left && n.right == was[n].right
      requires forall n ::
                 n in nodes && n != parent && n != child ==>
                   n.parent == if was[n].parent == parent then child else was[n].parent
      requires Link(parent.left, parent.right, parent.parent) == Link(was[child].left, was[child].right, child)
      requires Link(child.left, child.right, child.parent) == Swapped(was, parent, child, child)
      modifies this`min, nodes`left, nodes`right, nodes`parent
      ensures min == if old(min) == parent then child else old(min)
      ensures forall n :: n in nodes ==> Link(n.left, n.right, n.parent) == Swapped(was, parent, child, n)
    {
      assert Kin(was, parent, child, parent) && Kin(was, parent, child, child);
      SwapChildren(parent, child, was);
      if child.parent == null {
        min := child;
      } else if child.parent.left == parent {
        child.parent.left := child;
      } else {
        child.parent.right := child;
      }
      forall n | n in nodes ensures Link(n.left, n.right, n.parent) == Swapped(was, parent, child, n) {
        assert Kin(was, parent, child, n);
      }
    }

    method Follow(s: Slot) returns (t: Timer?)
      requires s.Root? || s.t in nodes
      ensures t == match s case Root => min case LeftOf(u) => u.left case RightOf(u) => u.right
    {
      match s
      case Root => t := min;
      case LeftOf(u) => t := u.left;
      case RightOf(u) => t := u.right;
    }

    method Store(s: Slot, t: Timer?)
      requires s.Root? || s.t in nodes
      modifies this`min, nodes`left, nodes`right
      ensures min == if s.Root? then t else old(min)
      ensures forall n ::
                n in nodes ==>
                  n.left == (if s == LeftOf(n) then t else old(n.left))
                  && n.right == (if s == RightOf(n) then t else old(n.right))
    {
      match s
      case Root => min := t;
      case LeftOf(u) => u.left := t;
      case RightOf(u) => u.right := t;
    }

    /** The walk down a path: the slot of the node, or free place, with that number, and of its parent. */
    method Descend(path: nat, k: nat, ghost number: nat) returns (parent: Slot, child: Slot)
      requires Shaped() && Walk(path, k, 1) == number && 1 <= number <= nelts + 1
      ensures SlotFor(order, child, number - 1) && (child.Root? || child.t in nodes)
      ensures if number == 1 then parent == Root
              else SlotFor(order, parent, Up(number - 1)) && (parent.Root? || parent.t in nodes)
    {
      parent, child := Root, Root;
      var path', k' := path, k;
      ghost var here := 1;
      while k' > 0
        invariant Walk(path', k', here) == number && here >= 1 && (here == 1 <==> child == Root)
        invariant SlotFor(order, child, here - 1) && (child.Root? || child.t in nodes)
        invariant if here == 1 then parent == Root
                  else SlotFor(order, parent, Up(here - 1)) && (parent.Root? || parent.t in nodes)
      {
        WalkDescends(path', k', here);
        Here(here - 1);
        if here > 1 { Here(Up(here - 1)); }
        parent := child;
        var t := Follow(child);
        child := if path' % 2 == 1 then RightOf(t) else LeftOf(t);
        here := 2 * here + path' % 2;
        path', k' := path' / 2, k' - 1;
      }
    }

    /** The keys after a swap. */
    static lemma KeysSwapped(before: seq<Timer>, key: map<Timer, Key>, pi: int, ci: int)
      requires 0 <= pi < |before| && 0 <= ci < |before|
      ensures KeysOf(before[pi := before[ci]][ci := before[pi]], key) == Exchanged(KeysOf(before, key), pi, ci)
    {
    }

    lemma OrderedAtRoot(ks: seq<Key>)
      requires OrderedBelow(ks, 0)
      ensures Ordered(ks)
    {
      forall i | 0 < i < |ks| ensures Edge(ks, i) {
      }
    }

    lemma OrderedWithParent(ks: seq<Key>, c: int)
      requires OrderedBelow(ks, c) && 0 < c < |ks| && Edge(ks, c)
      ensures Ordered(ks)
    {
      forall i | 0 < i < |ks| ensures Edge(ks, i) {
      }
    }

    /** The loop that walks a node up while it is before its parent. */
    method SiftUp(t: Timer, ghost c: int)
      requires Shaped() && Keyed() && 0 <= c < |order| && order[c] == t && OrderedBelow(KeysOf(order, key), c)
      modifies this`min, this`order, this`at, nodes`left, nodes`right, nodes`parent
      ensures Valid() && |order| == old(|order|)
    {
      ghost var i := c;
      Here(i);
      if i == 0 { OrderedAtRoot(KeysOf(order, key)); }
      while t.parent != null && Less(Key(t.timeout, t.startId), Key(t.parent.timeout, t.parent.startId))
        invariant Shaped() && Keyed() && |order| == old(|order|) && 0 <= i < |order| && order[i] == t
                  && OrderedBelow(KeysOf(order, key), i)
        invariant t.parent == if i == 0 then null else Place(order, Up(i))
        decreases i
      {
        KeyHere(i);
        KeyHere(Up(i));
        MovedUp(KeysOf(order, key), i);
        KeysSwapped(order, key, Up(i), i);
        Swap(t.parent, t, Up(i), i);
        i := Up(i);
        Here(i);
      }
      if i == 0 {
        OrderedAtRoot(KeysOf(order, key));
      } else {
        KeyHere(i);
        KeyHere(Up(i));
        OrderedWithParent(KeysOf(order, key), i);
      }
    }

    /** The lesser of a node and its children. */
    method Smallest(t: Timer, ghost c: int) returns (smallest: Timer, ghost d: int)
      requires Shaped() && Keyed() && 0 <= c < |order| && order[c] == t
      ensures 0 <= d < |order| && order[d] == smallest
              && (d == c || (d > c && Up(d) == c && Less(KeysOf(order, key)[d], KeysOf(order, key)[c])))
      ensures forall j {:trigger Up(j)} ::
                0 < j < |order| && Up(j) == c ==> !Less(KeysOf(order, key)[j], KeysOf(order, key)[d])
    {
      Here(c);
      KeyHere(c);
      if 2 * c + 1 < |order| { KeyHere(2 * c + 1); }
      if 2 * c + 2 < |order| { KeyHere(2 * c + 2); }
      smallest, d := t, c;
      if t.left != null && Less(Key(t.left.timeout, t.left.startId), Key(smallest.timeout, smallest.startId)) {
        smallest, d := t.left, 2 * c + 1;
      }
      if t.right != null && Less(Key(t.right.timeout, t.right.startId), Key(smallest.timeout, smallest.startId)) {
        smallest, d := t.right, 2 * c + 2;
      }
      forall j | 0 < j < |order| && Up(j) == c ensures !Less(KeysOf(order, key)[j], KeysOf(order, key)[d]) {
        assert j == 2 * c + 1 || j == 2 * c + 2;
      }
    }

    /** The loop that walks a node down while a child is before it. */
    method SiftDown(t: Timer, ghost c: int) returns (ghost e: int)
      requires Shaped() && Keyed() && 0 <= c < |order| && order[c] == t && OrderedBut(KeysOf(order, key), c)
      modifies this`min, this`order, this`at, nodes`left, nodes`right, nodes`parent
      ensures Shaped() && Keyed() && |order| == old(|order|) && c <= e < |order| && order[e] == t
              && OrderedBelow(KeysOf(order, key), e)
    {
      e := c;
      var smallest;
      ghost var d;
      smallest, d := Smallest(t, e);
      while smallest != t
        invariant Shaped() && Keyed() && |order| == old(|order|) && c <= e < |order| && order[e] == t
                  && OrderedBut(KeysOf(order, key), e)
        invariant 0 <= d < |order| && order[d] == smallest
                  && (d == e || (d > e && Up(d) == e && Less(KeysOf(order, key)[d], KeysOf(order, key)[e])))
        invariant forall j {:trigger Up(j)} ::
                    0 < j < |order| && Up(j) == e ==> !Less(KeysOf(order, key)[j], KeysOf(order, key)[d])
        decreases |order| - e
      {
        MovedDown(KeysOf(order, key), e, d);
        KeysSwapped(order, key, e, d);
        Swap(t, smallest, e, d);
        e := d;
        smallest, d := Smallest(t, e);
      }
      Here(e);
      Here(d);
      forall i | 0 < i < |order| && Up(i) == e ensures Edge(KeysOf(order, key), i) {
      }
    }

    static lemma KeysAppended(order: seq<Timer>, key: map<Timer, Key>, t: Timer, k: Key)
      requires t !in order && Ordered(KeysOf(order, key))
      ensures OrderedBelow(KeysOf(order + [t], key[t := k]), |order|)
    {
      var ks, ls := KeysOf(order, key), KeysOf(order + [t], key[t := k]);
      forall i | 0 < i < |ls| && i != |order| && Up(i) != |order| ensures Edge(ls, i) {
        assert Edge(ks, i);
      }
    }

    static lemma PlacedAppended(nodes: set<Timer>, order: seq<Timer>, at: map<Timer, int>, t: Timer)
      requires Placed(nodes, order, at)
      ensures Placed(nodes + {t}, order + [t], at[t := |order|])
    {
      var o, at' := order + [t], at[t := |order|];
      forall n | n in nodes + {t} ensures PlacedAt(o, at', n) {
        if n != t { assert PlacedAt(order, at, n); }
      }
    }

    /** The new node linked into the first free place. */
    method Attach(t: Timer)
      requires Shaped() && t !in nodes
      modifies this`min, this`nelts, this`order, this`nodes, this`at, nodes`left, nodes`right, t`left, t`right, t`parent
      ensures Shaped() && nodes == old(nodes) + {t} && order == old(order) + [t]
    {
      ghost var was, n := LinksNow(), |order|;
      t.left := null;
      t.right := null;
      t.parent := null;
      var above, child := FreeSlot();
      t.parent := above;
      Store(child, t);
      nelts := nelts + 1;
      Grown(was, old(min), t, child);
    }

    /** The first free place of the bottom row, and the node above it. */
    method FreeSlot() returns (above: Timer?, child: Slot)
      requires Shaped()
      ensures above == (if |order| == 0 then null else Place(order, Up(|order|)))
      ensures SlotFor(order, child, |order|) && (child.Root? || child.t in nodes)
    {
      var path, k := PathTo(1 + nelts);
      var parent;
      parent, child := Descend(path, k, 1 + nelts);
      SlotHolds(parent, if |order| == 0 then 0 else Up(|order|));
      above := Follow(parent);
    }

    /** What a slot points to. */
    lemma SlotHolds(s: Slot, i: int)
      requires Shaped() && SlotFor(order, s, i) && (s.Root? || s.t in nodes)
      ensures (match s case Root => min case LeftOf(u) => u.left case RightOf(u) => u.right) == Place(order, i)
    {
      if i > 0 { Here(Up(i)); }
    }

    ghost method Grown(was: Links, root: Timer?, t: Timer, child: Slot)
      requires Complete(root, order, was, at) && Placed(nodes, order, at) && nelts == |order| + 1 && was.Keys == nodes
               && t !in nodes
      requires SlotFor(order, child, |order|) && min == (if child.Root? then t else root)
      requires forall n ::
                 n in nodes ==>
                   n.left == (if child == LeftOf(n) then t else was[n].left)
                   && n.right == (if child == RightOf(n) then t else was[n].right) && n.parent == was[n].parent
      requires t.left == null && t.right == null && t.parent == if |order| == 0 then null else Place(order, Up(|order|))
      modifies this`order, this`nodes, this`at
      ensures Shaped() && nodes == old(nodes) + {t} && order == old(order) + [t]
    {
      nodes := nodes + {t};
      ghost var now := LinksNow();
      forall i | 0 <= i < |order| && order[i] in was
        ensures order[i] in now
        ensures now[order[i]] == was[order[i]].(left := if 2 * i + 1 == |order| then t else was[order[i]].left,
                                                right := if 2 * i + 2 == |order| then t else was[order[i]].right)
      {
        assert Local(order, was, at, i);
        if |order| > 0 { assert Local(order, was, at, Up(|order|)); }
      }
      AppendComplete(root, order, was, at, t, now);
      PlacedAppended(old(nodes), order, at, t);
      order, at := order + [t], at[t := |order|];
    }

    /** heap_insert */
    method Insert(t: Timer)
      requires Valid() && t !in nodes && nelts + 1 < 0x1_0000_0000
      modifies this, nodes`left, nodes`right, nodes`parent, t`left, t`right, t`parent
      ensures Valid() && nodes == old(nodes) + {t} && nelts == old(nelts) + 1
    {
      ghost var c := |order|;
      NotIn(t);
      KeysAppended(order, key, t, Key(t.timeout, t.startId));
      Attach(t);
      key := key[t := Key(t.timeout, t.startId)];
      SiftUp(t, c);
    }

    lemma NotIn(t: Timer)
      requires Shaped() && t !in nodes
      ensures t !in order
    {
      forall i | 0 <= i < |order| ensures order[i] != t {
        Here(i);
      }
    }

    static lemma PlacedDropped(nodes: set<Timer>, order: seq<Timer>, at: map<Timer, int>, t: Timer)
      requires Placed(nodes, order, at) && order != [] && t == order[|order| - 1]
      ensures Placed(nodes - {t}, order[..|order| - 1], at)
    {
      var o := order[..|order| - 1];
      forall n | n in nodes - {t} ensures PlacedAt(o, at, n) {
        assert PlacedAt(order, at, n);
      }
    }

    static lemma KeysDropped(order: seq<Timer>, key: map<Timer, Key>)
      requires order != [] && Ordered(KeysOf(order, key))
      ensures Ordered(KeysOf(order[..|order| - 1], key))
    {
      var ks, ls := KeysOf(order, key), KeysOf(order[..|order| - 1], key);
      forall i | 0 < i < |ls| ensures Edge(ls, i) {
        assert Edge(ks, i);
      }
    }

    /** The last node of the bottom row unlinked. */
    method Detach() returns (child: Timer)
      requires Shaped() && nelts > 0
      modifies this`min, this`nelts, this`order, this`nodes, this`at, nodes`left, nodes`right
      ensures Shaped() && child == old(order)[|old(order)| - 1] && child in old(nodes) && nodes == old(nodes) - {child}
              && order == old(order)[..|old(order)| - 1]
    {
      ghost var was, n := LinksNow(), |order|;
      Here(n - 1);
      var path, k := PathTo(nelts);
      var _, max := Descend(path, k, nelts);
      SlotHolds(max, n - 1);
      child := Follow(max);
      nelts := nelts - 1;
      Store(max, null);
      Shrunk(was, old(min), child, max);
    }

    ghost method Shrunk(was: Links, root: Timer?, t: Timer, max: Slot)
      requires Complete(root, order, was, at) && Placed(nodes, order, at) && nelts == |order| - 1 && was.Keys == nodes
               && t == order[|order| - 1]
      requires SlotFor(order, max, |order| - 1) && min == (if max.Root? then null else root)
      requires forall n ::
                 n in nodes ==>
                   n.left == (if max == LeftOf(n) then null else was[n].left)
                   && n.right == (if max == RightOf(n) then null else was[n].right) && n.parent == was[n].parent
      modifies this`order, this`nodes, this`at
      ensures Shaped() && nodes == old(nodes) - {t} && order == old(order)[..|old(order)| - 1]
    {
      nodes := nodes - {t};
      ghost var now := LinksNow();
      forall i | 0 <= i < |order| - 1 && order[i] in was
        ensures order[i] in now
        ensures now[order[i]] == was[order[i]].(left := if 2 * i + 1 == |order| - 1 then null else was[order[i]].left,
                                                right := if 2 * i + 2 == |order| - 1 then null else was[order[i]].right)
      {
        assert Local(order, was, at, i) && Local(order, was, at, |order| - 1);
        if |order| > 1 { assert Local(order, was, at, Up(|order| - 1)); }
      }
      DropComplete(root, order, was, at, now);
      PlacedDropped(old(nodes), order, at, t);
      order := order[..|order| - 1];
    }

    // ----- replacing -----

    static lemma PlacedReplaced(nodes: set<Timer>, order: seq<Timer>, at: map<Timer, int>, p: int, x: Timer)
      requires Placed(nodes, order, at) && 0 <= p < |order| && x !in nodes
      ensures Placed(nodes - {order[p]} + {x}, order[p := x], at[x := p])
    {
      var o, at' := order[p := x], at[x := p];
      forall n | n in nodes - {order[p]} + {x} ensures PlacedAt(o, at', n) {
        if n != x { assert PlacedAt(order, at, n); }
      }
    }

    static lemma KeysReplaced(order: seq<Timer>, key: map<Timer, Key>, p: int, x: Timer)
      requires Ordered(KeysOf(order, key)) && 0 <= p < |order|
      ensures OrderedBut(KeysOf(order[p := x], key), p)
    {
      var ks, ls := KeysOf(order, key), KeysOf(order[p := x], key);
      forall i | 0 < i < |ls| && i != p && Up(i) != p ensures Edge(ls, i) {
        assert Edge(ks, i);
      }
      if p > 0 {
        forall j | 0 < j < |ls| && Up(j) == p ensures Bridge(ls, p, j) {
          assert Edge(ks, j) && Edge(ks, p);
          NotLessTransitive(ks[j], ks[p], ks[Up(p)]);
        }
      }
    }

    /** The replacing node takes over the pointers of the one it replaces. */
    method TakeOver(node: Timer, child: Timer, ghost was: Links)
      requires node in nodes && child !in nodes && was == LinksNow() && Surrounded(was, node)
               && (node.parent == null <==> min == node)
      modifies this`min, nodes`left, nodes`right, nodes`parent, child`left, child`right, child`parent
      ensures Link(child.left, child.right, child.parent) == was[node]
              && min == if old(min) == node then child else old(min)
      ensures forall n :: n in nodes && n != node ==> Link(n.left, n.right, n.parent) == Replaced(was[n], node, child)
    {
      assert Around(was, node, node);
      child.left := node.left;
      child.right := node.right;
      child.parent := node.parent;
      if child.left != null {
        child.left.parent := child;
      }
      if child.right != null {
        child.right.parent := child;
      }
      if node.parent == null {
        min := child;
      } else if node.parent.left == node {
        node.parent.left := child;
      } else {
        node.parent.right := child;
      }
      forall n | n in nodes && n != node ensures Link(n.left, n.right, n.parent) == Replaced(was[n], node, child) {
        assert Around(was, node, n);
      }
    }

    method Replace(node: Timer, child: Timer, ghost p: int)
      requires Shaped() && child !in nodes && 0 <= p < |order| && order[p] == node
      modifies this`min, this`order, this`nodes, this`at, nodes`left, nodes`right, nodes`parent, child`left,
          child`right, child`parent
      ensures Shaped() && nodes == old(nodes) - {node} + {child} && order == old(order)[p := child]
    {
      ghost var was := LinksNow();
      Here(p);
      Here(0);
      if p > 0 { Here(Up(p)); }
      forall n | n in nodes ensures Around(was, node, n) {
        There(n);
        Family(min, order, was, at, p, Num(at, n));
        Family(min, order, was, at, Num(at, n), p);
      }
      TakeOver(node, child, was);
      Substitute(was, old(min), node, child, p);
    }

    ghost method Substitute(was: Links, root: Timer?, node: Timer, child: Timer, p: int)
      requires Complete(root, order, was, at) && Placed(nodes, order, at) && nelts == |order| && was.Keys == nodes
               && child !in nodes
      requires 0 <= p < |order| && order[p] == node && node in nodes && min == if root == node then child else root
      requires Link(child.left, child.right, child.parent) == was[node]
      requires forall n :: n in nodes && n != node ==> Link(n.left, n.right, n.parent) == Replaced(was[n], node, child)
      modifies this`order, this`nodes, this`at
      ensures Shaped() && nodes == old(nodes) - {node} + {child} && order == old(order)[p := child]
    {
      nodes := nodes - {node} + {child};
      assert Local(order, was, at, 0) && Local(order, was, at, p);
      ReplaceComplete(root, order, was, at, p, child, LinksNow());
      PlacedReplaced(old(nodes), order, at, p, child);
      order, at := order[p := child], at[child := p];
    }

    /** heap_remove */
    method Remove(node: Timer)
      requires Valid() && (nelts > 0 ==> node in nodes)
      modifies this, nodes`left, nodes`right, nodes`parent
      ensures Valid() && nodes == old(nodes) - {node} && nelts == if old(nelts) > 0 then old(nelts) - 1 else 0
    {
      if nelts == 0 {
        Empty();
        return;
      }
      There(node);
      ghost var p := Num(at, node);
      KeysDropped(order, key);
      Last(p);
      var child := Detach();
      if child == node {
        Here0();
        if child == min {
          // the root pointer was cleared with the slot, or is still the root
          assert false;
        }
        return;
      }
      KeysReplaced(order, key, p, child);
      Replace(node, child, p);
      ghost var e := SiftDown(child, p);
      SiftUp(child, e);
    }

    /** heap_dequeue */
    method Dequeue()
      requires Valid()
      modifies this, nodes`left, nodes`right, nodes`parent
      ensures Valid() && old(min != null ==> min in nodes)
              && nodes == if old(min) == null then {} else old(nodes) - {old(min)}
    {
      Here0();
      if nelts > 0 { Here(0); }
      if min != null {
        Remove(min);
      }
    }

    lemma Here0()
      requires Shaped()
      ensures (min == null <==> nelts == 0) && (min != null ==> min in nodes) && (nelts == 0 ==> nodes == {})
    {
      if nelts > 0 { Here(0); } else { Empty(); }
    }

    lemma Empty()
      requires Shaped() && nelts == 0
      ensures nodes == {} && min == null
    {
      forall n | n in nodes ensures false {
        There(n);
      }
    }

    lemma Last(p: int)
      requires Shaped() && 0 <= p < |order|
      ensures p < |order| - 1 <==> order[p] != order[|order| - 1]
    {
      Here(p);
      Here(|order| - 1);
    }
  }

  /** How the pointers of n and of node meet. */
  predicate Around(links: Links, node: Timer, n: Timer)
    requires node in links && n in links
  {
    && (links[n].parent == node <==> links[node].left == n || links[node].right == n)
    && (links[node].parent == n <==> links[n].left == node || links[n].right == node)
    && (links[n].left != null ==> links[n].left != links[n].right && links[n].left in links)
    && (links[n].right != null ==> links[n].right in links)
    && (links[n].parent != null ==> links[n].parent in links) && links[n].parent != n
  }

  ghost predicate Surrounded(links: Links, node: Timer) {
    node in links && forall n {:trigger Around(links, node, n)} :: n in links ==> Around(links, node, n)
  }

  /** What the pointers of n and of a parent p and its child c have to do with each other. */
  predicate Kin(links: Links, p: Timer, c: Timer, n: Timer)
    requires p in links && c in links && n in links
  {
    && (links[n].parent == p <==> links[p].left == n || links[p].right == n)
    && (links[n].parent == c <==> links[c].left == n || links[c].right == n)
    && (links[p].parent == n <==> links[n].left == p || links[n].right == p) && links[n].parent != n
    && (links[n].left != null ==> links[n].left != links[n].right)
    && (links[n].left != null ==> links[n].left in links) && (links[n].right != null ==> links[n].right in links)
    && (links[n].parent != null ==> links[n].parent in links)
  }

  lemma KinHolds(root: Timer?, order: seq<Timer>, links: Links, at: map<Timer, int>, i: int, j: int, k: int)
    requires Complete(root, order, links, at) && 0 <= i < |order| && 0 <= j < |order| && 0 <= k < |order|
    ensures order[i] in links && order[j] in links && order[k] in links && Kin(links, order[i], order[j], order[k])
  {
    Family(root, order, links, at, i, k);
    Family(root, order, links, at, j, k);
    Family(root, order, links, at, k, i);
  }

  ghost predicate Close(links: Links, p: Timer, c: Timer) {
    && p in links && c in links && p != c && links[c].parent == p && links[p].parent != c
    && forall n {:trigger Kin(links, p, c, n)} :: n in links ==> Kin(links, p, c, n)
  }
}
