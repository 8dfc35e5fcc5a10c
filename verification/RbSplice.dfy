/** Attaching, unlinking and replacing one node of a linked tree, on values. */
module RbSplice {
  import opened RbShape

  ghost predicate Sorted(order: seq<Node>) {
    forall i, j :: 0 <= i < j < |order| ==> order[i].key < order[j].key
  }

  lemma SortedInsert(order: seq<Node>, i: int, x: Node)
    requires Sorted(order) && 0 <= i <= |order|
    requires forall j :: 0 <= j < i ==> order[j].key < x.key
    requires forall j :: i <= j < |order| ==> x.key < order[j].key
    ensures Sorted(order[..i] + [x] + order[i..])
  {
  }

  /** order lists the nodes of s at their in-order positions. */
  ghost predicate OrderedBy(order: seq<Node>, s: Links) {
    && (forall i :: 0 <= i < |order| ==> order[i] in s && s[order[i]].at.pos == i)
    && (forall n {:trigger s[n]} {:trigger n in s} :: n in s ==> 0 <= s[n].at.pos < |order| && order[s[n].at.pos] == n)
  }

  ghost predicate SamePositions(s: Links, t: Links) {
    s.Keys == t.Keys && forall n {:trigger t[n]} :: n in s ==> t[n].at.pos == s[n].at.pos
  }

  lemma KeepOrdered(order: seq<Node>, s: Links, t: Links)
    requires OrderedBy(order, s) && SamePositions(s, t)
    ensures OrderedBy(order, t)
  {
  }

  ghost function Opened(at: Place, i: int): Place {
    Place(if at.pos >= i then at.pos + 1 else at.pos,
          if at.lo > i then at.lo + 1 else at.lo,
          if at.hi >= i then at.hi + 1 else at.hi)
  }

  ghost function Closed(at: Place, i: int): Place {
    Place(if at.pos > i then at.pos - 1 else at.pos,
          if at.lo > i then at.lo - 1 else at.lo,
          if at.hi > i then at.hi - 1 else at.hi)
  }

  /** t is s with the leaf x hung into the empty slot of p that lies before in-order position i. */
  ghost predicate Attached(s: Links, t: Links, x: Node, p: Node?, i: int, asLeft: bool)
  {
    && x !in s && t.Keys == s.Keys + {x}
    && t[x] == Link(null, null, p, Place(i, i, i + 1))
    && (forall n {:trigger t[n]} :: n in s ==>
          t[n] == Link(if n == p && asLeft then x else s[n].left, if n == p && !asLeft then x else s[n].right,
                       s[n].parent, Opened(s[n].at, i)))
  }

  ghost function Attach(s: Links, x: Node, p: Node?, i: int, asLeft: bool): (t: Links)
    requires x !in s
    ensures Attached(s, t, x, p, i, asLeft)
  {
    map n | n in s.Keys + {x} ::
      if n == x then Link(null, null, p, Place(i, i, i + 1))
      else Link(if n == p && asLeft then x else s[n].left, if n == p && !asLeft then x else s[n].right,
                s[n].parent, Opened(s[n].at, i))
  }

  /** The slot of p is the only empty one at position i. */
  ghost predicate Slot(root: Node?, s: Links, p: Node?, i: int, asLeft: bool)
  {
    && (p == null ==> root == null && i == 0)
    && (p != null ==> p in s)
    && (p != null && asLeft ==> s[p].left == null && i == s[p].at.pos)
    && (p != null && !asLeft ==> s[p].right == null && i == s[p].at.pos + 1)
    && (forall n {:trigger s[n]} :: n in s && s[n].left == null && s[n].at.pos == i ==> n == p && asLeft)
    && (forall n {:trigger s[n]} :: n in s && s[n].right == null && s[n].at.pos + 1 == i ==> n == p && !asLeft)
  }

  /** Of two neighbouring nodes, at most one has an empty slot between them. */
  lemma {:induction false} NeighbourSlots(root: Node?, s: Links, N: int, order: seq<Node>, n: Node, i: int)
    requires Linked(root, s, 0, N) && OrderedBy(order, s) && |order| == N
    requires n in s && s[n].at.lo < i < s[n].at.hi
    ensures 0 < i < N && (s[order[i]].left != null || s[order[i - 1]].right != null)
    decreases s[n].at.hi - s[n].at.lo
  {
    assert Local(root, s, 0, N, n) && order[s[n].at.pos] == n;
    if i < s[n].at.pos {
      NeighbourSlots(root, s, N, order, s[n].left, i);
    } else if i > s[n].at.pos + 1 {
      NeighbourSlots(root, s, N, order, s[n].right, i);
    }
  }

  /** An empty left or right slot of p is the only empty slot at its position. */
  lemma EmptySlot(root: Node?, s: Links, N: int, order: seq<Node>, p: Node, asLeft: bool)
    requires Linked(root, s, 0, N) && OrderedBy(order, s) && |order| == N && p in s
    requires if asLeft then s[p].left == null else s[p].right == null
    ensures Slot(root, s, p, if asLeft then s[p].at.pos else s[p].at.pos + 1, asLeft)
  {
    var i := if asLeft then s[p].at.pos else s[p].at.pos + 1;
    assert order[s[p].at.pos] == p && Local(root, s, 0, N, root);
    if 0 < i < N {
      NeighbourSlots(root, s, N, order, root, i);
    }
    forall n | n in s
      ensures s[n].left == null && s[n].at.pos == i ==> n == p && asLeft
      ensures s[n].right == null && s[n].at.pos + 1 == i ==> n == p && !asLeft
    {
      assert order[s[n].at.pos] == n;
    }
  }

  lemma AttachedAt(root: Node?, s: Links, t: Links, N: int, x: Node, p: Node?, i: int, asLeft: bool, n: Node)
    requires Linked(root, s, 0, N) && Attached(s, t, x, p, i, asLeft) && Slot(root, s, p, i, asLeft) && 0 <= i <= N
    requires n in s
    ensures Local(if p == null then x else root, t, 0, N + 1, n)
  {
    var root' := if p == null then x else root;
    assert Local(root, s, 0, N, n);
    assert LeftOk(t, n);
    assert RightOk(t, n);
  }

  lemma AttachedLinked(root: Node?, s: Links, t: Links, N: int, x: Node, p: Node?, i: int, asLeft: bool)
    requires Linked(root, s, 0, N) && Attached(s, t, x, p, i, asLeft) && Slot(root, s, p, i, asLeft) && 0 <= i <= N
    ensures Linked(if p == null then x else root, t, 0, N + 1)
  {
    var root' := if p == null then x else root;
    if p != null {
      assert Local(root, s, 0, N, p);
      assert Local(root, s, 0, N, root);
    }
    assert Local(root', t, 0, N + 1, x);
    forall n | n in s ensures Local(root', t, 0, N + 1, n) {
      AttachedAt(root, s, t, N, x, p, i, asLeft, n);
    }
  }

  lemma AttachedOrdered(s: Links, t: Links, x: Node, p: Node?, i: int, asLeft: bool, order: seq<Node>)
    requires OrderedBy(order, s) && Attached(s, t, x, p, i, asLeft) && 0 <= i <= |order|
    ensures OrderedBy(order[..i] + [x] + order[i..], t)
  {
    var order' := order[..i] + [x] + order[i..];
    forall j | 0 <= j < |order'| ensures order'[j] in t && t[order'[j]].at.pos == j {
      if j < i {
        assert order'[j] == order[j];
      } else if j > i {
        assert order'[j] == order[j - 1];
      }
    }
    forall n | n in t ensures 0 <= t[n].at.pos < |order'| && order'[t[n].at.pos] == n {
      if n != x {
        assert order[s[n].at.pos] == n;
      }
    }
  }

  lemma AttachedPaint(root: Node?, s: Links, t: Links, N: int, x: Node, p: Node?, i: int, asLeft: bool, col: Paint,
      bh: Heights, col': Paint)
    requires Linked(root, s, 0, N) && Attached(s, t, x, p, i, asLeft) && Slot(root, s, p, i, asLeft)
    requires Balanced(s, col, bh, null) && NoRedRed(s, col, null)
    requires col' == col[x := Red]
    ensures Balanced(t, col', bh[x := 0], null) && NoRedRed(t, col', x)
  {
    assert BhAt(t, col', bh[x := 0], x);
    forall n | n in s ensures BhAt(t, col', bh[x := 0], n) && RedAt(t, col', n) {
      assert Local(root, s, 0, N, n) && BhAt(s, col, bh, n) && RedAt(s, col, n);
    }
  }

  ghost function OnlyChild(s: Links, x: Node): Node?
    requires x in s
  {
    if s[x].left == null then s[x].right else s[x].left
  }

  /** t is s without x, whose only child (or null) takes its slot. */
  ghost predicate Unlinked(s: Links, t: Links, x: Node)
  {
    && x in s && (s[x].left == null || s[x].right == null)
    && t.Keys == s.Keys - {x}
    && (forall n {:trigger t[n]} :: n in t ==>
          t[n] == Link(if s[n].left == x then OnlyChild(s, x) else s[n].left,
                       if s[n].right == x then OnlyChild(s, x) else s[n].right,
                       if n == OnlyChild(s, x) then s[x].parent else s[n].parent, Closed(s[n].at, s[x].at.pos)))
  }

  ghost function Unlink(s: Links, x: Node): (t: Links)
    requires x in s && (s[x].left == null || s[x].right == null)
    ensures Unlinked(s, t, x)
  {
    map n | n in s.Keys - {x} ::
      Link(if s[n].left == x then OnlyChild(s, x) else s[n].left,
           if s[n].right == x then OnlyChild(s, x) else s[n].right,
           if n == OnlyChild(s, x) then s[x].parent else s[n].parent, Closed(s[n].at, s[x].at.pos))
  }

  lemma SortedRemove(order: seq<Node>, k: int)
    requires Sorted(order) && 0 <= k < |order|
    ensures Sorted(order[..k] + order[k + 1..])
  {
  }

  lemma UnlinkedAt(root: Node?, s: Links, t: Links, N: int, x: Node, n: Node)
    requires Linked(root, s, 0, N) && Unlinked(s, t, x) && 0 <= s[x].at.pos < N
    requires n in t && s[n].at.pos != s[x].at.pos
    ensures Local(if root == x then OnlyChild(s, x) else root, t, 0, N - 1, n)
  {
    assert Local(root, s, 0, N, x) && Local(root, s, 0, N, n);
    assert LeftOk(t, n);
    assert RightOk(t, n);
  }

  lemma UnlinkedLinked(root: Node?, s: Links, t: Links, N: int, x: Node)
    requires Linked(root, s, 0, N) && Unlinked(s, t, x) && 0 <= s[x].at.pos < N
    requires forall n {:trigger n in t} :: n in t ==> 0 <= s[n].at.pos < N && s[n].at.pos != s[x].at.pos
    ensures Linked(if root == x then OnlyChild(s, x) else root, t, 0, N - 1)
  {
    var c := OnlyChild(s, x);
    var root' := if root == x then c else root;
    assert Local(root, s, 0, N, x) && Local(root, s, 0, N, root);
    forall n | n in t ensures Local(root', t, 0, N - 1, n) {
      UnlinkedAt(root, s, t, N, x, n);
    }
  }

  lemma UnlinkedOrdered(s: Links, t: Links, x: Node, order: seq<Node>)
    requires OrderedBy(order, s) && Unlinked(s, t, x)
    ensures 0 <= s[x].at.pos < |order|
    ensures OrderedBy(order[..s[x].at.pos] + order[s[x].at.pos + 1..], t)
  {
    var k := s[x].at.pos;
    var order' := order[..k] + order[k + 1..];
    forall j | 0 <= j < |order'| ensures order'[j] in t && t[order'[j]].at.pos == j {
      var j0 := if j < k then j else j + 1;
      assert order'[j] == order[j0] && s[order[j0]].at.pos == j0;
    }
    forall n | n in t ensures 0 <= t[n].at.pos < |order'| && order'[t[n].at.pos] == n {
      assert order[s[n].at.pos] == n;
    }
  }

  lemma UnlinkedPaint(root: Node?, s: Links, t: Links, N: int, x: Node, col: Paint, bh: Heights)
    requires Linked(root, s, 0, N) && Unlinked(s, t, x)
    requires Balanced(s, col, bh, null) && NoRedRed(s, col, null)
    ensures IsRed(col, x) ==> Balanced(t, col, bh, null) && NoRedRed(t, col, null)
    ensures !IsRed(col, x) ==> Short(t, col, bh, s[x].parent, OnlyChild(s, x)) && NoRedRed(t, col, OnlyChild(s, x))
  {
    var c := OnlyChild(s, x);
    var p := s[x].parent;
    assert Local(root, s, 0, N, x) && BhAt(s, col, bh, x) && RedAt(s, col, x);
    assert c != null ==> BhAt(s, col, bh, c) && RedAt(s, col, c);
    assert p != null ==> BhAt(s, col, bh, p) && Local(root, s, 0, N, p);
    forall n | n in t ensures (n != p || IsRed(col, x) ==> BhAt(t, col, bh, n)) && (n != c ==> RedAt(t, col, n)) {
      assert Local(root, s, 0, N, n) && BhAt(s, col, bh, n) && RedAt(s, col, n);
    }
  }

  /** Where the only child of the unlinked node x now hangs. */
  lemma UnlinkedChild(root: Node?, s: Links, t: Links, N: int, x: Node, col: Paint, bh: Heights)
    requires Linked(root, s, 0, N) && Unlinked(s, t, x) && Balanced(s, col, bh, null) && !IsRed(col, root)
    ensures var c, p := OnlyChild(s, x), s[x].parent;
      && (c != null ==> c in t && t[c].parent == p)
      && (p == null ==> root == x) && (p != null ==> p in t)
      && (c == null && p != null && !IsRed(col, x) ==> t[p].left != t[p].right)
  {
    var c, p := OnlyChild(s, x), s[x].parent;
    assert Local(root, s, 0, N, x) && BhAt(s, col, bh, x);
    if p != null {
      assert BhAt(s, col, bh, p) && Local(root, s, 0, N, p);
    }
  }

  /** t is s with e standing where old stood. */
  ghost predicate Replaced(s: Links, t: Links, old_: Node, e: Node)
  {
    && old_ in s && e !in s && t.Keys == s.Keys - {old_} + {e}
    && t[e] == s[old_]
    && (forall n {:trigger t[n]} :: n in s && n != old_ ==>
          t[n] == Link(if s[n].left == old_ then e else s[n].left, if s[n].right == old_ then e else s[n].right,
                       if s[n].parent == old_ then e else s[n].parent, s[n].at))
  }

  ghost function Replace(s: Links, old_: Node, e: Node): (t: Links)
    requires old_ in s && e !in s
    ensures Replaced(s, t, old_, e)
  {
    map n | n in s.Keys - {old_} + {e} ::
      if n == e then s[old_]
      else Link(if s[n].left == old_ then e else s[n].left, if s[n].right == old_ then e else s[n].right,
                if s[n].parent == old_ then e else s[n].parent, s[n].at)
  }

  lemma ReplacedLinked(root: Node?, s: Links, t: Links, a: int, b: int, old_: Node, e: Node)
    requires Linked(root, s, a, b) && Replaced(s, t, old_, e)
    ensures Linked(NewRoot(root, old_, e), t, a, b)
  {
    assert Local(root, s, a, b, old_) && Local(root, s, a, b, root);
    assert Local(NewRoot(root, old_, e), t, a, b, e);
    forall n | n in s && n != old_ ensures Local(NewRoot(root, old_, e), t, a, b, n) {
      assert Local(root, s, a, b, n);
    }
  }

  /** Taking out position k + 1 and putting its node at position k takes out the node at k. */
  lemma SuccessorMoves(order: seq<Node>, k: int)
    requires 0 <= k < |order| - 1
    ensures (order[..k + 1] + order[k + 2..])[k := order[k + 1]] == order[..k] + order[k + 1..]
  {
  }

  lemma SuccessorStays(all: set<Node>, gone: Node, e: Node)
    requires e in all && e != gone
    ensures all - {e} - {gone} + {e} == all - {gone}
  {
  }

  lemma ReplacedOrdered(s: Links, t: Links, old_: Node, e: Node, order: seq<Node>)
    requires OrderedBy(order, s) && Replaced(s, t, old_, e)
    ensures 0 <= s[old_].at.pos < |order| && OrderedBy(order[s[old_].at.pos := e], t)
  {
  }

  ghost predicate SamePaint(s: Links, old_: Node, e: Node, col: Paint, bh: Heights, col': Paint, bh': Heights)
  {
    && old_ in col && old_ in bh && e in col' && e in bh' && col'[e] == col[old_] && bh'[e] == bh[old_]
    && (forall n {:trigger n in col'} :: n in s && n != old_ ==> n in col && n in col' && col'[n] == col[n])
    && (forall n {:trigger n in bh'} :: n in s && n != old_ ==> n in bh && n in bh' && bh'[n] == bh[n])
  }

  ghost function Renamed(n: Node?, old_: Node, e: Node): Node? {
    if n == old_ then e else n
  }

  lemma RenamedShort(s: Links, t: Links, old_: Node, e: Node, col: Paint, bh: Heights, col': Paint, bh': Heights,
      p: Node, c: Node?)
    requires AllTied(s) && Replaced(s, t, old_, e) && SamePaint(s, old_, e, col, bh, col', bh')
    requires c != old_ && c != e && p != e && p in s && ShortAt(s, col, bh, p, c)
    ensures var q := Renamed(p, old_, e); q in t && ShortAt(t, col', bh', q, c)
  {
    assert Tied(s, p);
    assert forall m :: m == s[p].left || m == s[p].right ==> Bh(bh', Renamed(m, old_, e)) == Bh(bh, m);
  }

  /** Giving e the colour and height of old_ keeps every height and colour condition. */
  lemma ReplacedPaint(s: Links, t: Links, old_: Node, e: Node, col: Paint, bh: Heights, col': Paint, bh': Heights,
      p: Node?, c: Node?)
    requires AllTied(s) && Replaced(s, t, old_, e) && SamePaint(s, old_, e, col, bh, col', bh')
    requires c != old_ && c != e && p != e && (p != null ==> p in s)
    ensures Balanced(s, col, bh, p) ==> Balanced(t, col', bh', Renamed(p, old_, e))
    ensures Short(s, col, bh, p, c) ==> Short(t, col', bh', Renamed(p, old_, e), c)
    ensures NoRedRed(s, col, c) ==> NoRedRed(t, col', c)
  {
    forall n | n in t ensures
      var m := if n == e then old_ else n;
      (BhAt(s, col, bh, m) ==> BhAt(t, col', bh', n)) && (RedAt(s, col, m) ==> RedAt(t, col', n))
    {
      assert Tied(s, if n == e then old_ else n);
    }
    if p != null && Short(s, col, bh, p, c) {
      RenamedShort(s, t, old_, e, col, bh, col', bh', p, c);
    }
  }

  /** x is the child of p (or the root, or absent) on whose side a black node may be missing. */
  ghost predicate Shortage(root: Node?, s: Links, col: Paint, bh: Heights, p: Node?, x: Node?)
  {
    && Short(s, col, bh, p, x) && CleanBut(s, col, x)
    && (x == null ==> if p == null then root == null else p in s && s[p].left != s[p].right)
    && (x != null ==> x in s && s[x].parent == p)
    && (IsRed(col, root) ==> root == x)
  }

  /** What RB_REMOVE_COLOR is owed once a node of the given colour has been taken out above x. */
  ghost predicate Owed(color: Color, root: Node?, s: Links, col: Paint, bh: Heights, p: Node?, x: Node?)
  {
    if color == Black then Shortage(root, s, col, bh, p, x)
    else Balanced(s, col, bh, null) && NoRedRed(s, col, null) && !IsRed(col, root)
  }

  lemma UnlinkedOwed(root: Node?, s: Links, t: Links, N: int, x: Node, col: Paint, bh: Heights)
    requires Linked(root, s, 0, N) && Unlinked(s, t, x)
    requires Balanced(s, col, bh, null) && NoRedRed(s, col, null) && !IsRed(col, root) && x in col
    ensures Owed(col[x], if root == x then OnlyChild(s, x) else root, t, col, bh, s[x].parent, OnlyChild(s, x))
    ensures s[x].parent != null ==> s[x].parent in t
  {
    UnlinkedChild(root, s, t, N, x, col, bh);
    UnlinkedPaint(root, s, t, N, x, col, bh);
  }

  lemma OwedHeights(color: Color, root: Node?, s: Links, col: Paint, bh: Heights, p: Node?, x: Node?)
    requires Owed(color, root, s, col, bh, p, x)
    ensures forall n {:trigger n in bh} :: n in s ==> n in bh
  {
    forall n {:trigger n in bh} | n in s ensures n in bh {
      if color == Black && n == p {
        assert ShortAt(s, col, bh, p, x);
      } else {
        assert BhAt(s, col, bh, n);
      }
    }
  }

  lemma ReplacedClean(s: Links, t: Links, old_: Node, e: Node, col: Paint, bh: Heights, col': Paint, bh': Heights,
      x: Node?)
    requires AllTied(s) && Replaced(s, t, old_, e) && SamePaint(s, old_, e, col, bh, col', bh')
    requires x != old_ && x != e && CleanBut(s, col, x)
    ensures CleanBut(t, col', x)
  {
    forall n | n in t && n != x && (x == null || t[n].parent != x) ensures RedAt(t, col', n) {
      var m := if n == e then old_ else n;
      assert Tied(s, m) && RedAt(s, col, m);
    }
  }

  lemma ReplacedOwed(root: Node?, s: Links, t: Links, old_: Node, e: Node, col: Paint, bh: Heights, col': Paint,
      bh': Heights, color: Color, p: Node?, x: Node?)
    requires AllTied(s) && Replaced(s, t, old_, e) && SamePaint(s, old_, e, col, bh, col', bh')
    requires x != old_ && x != e && p != e && (p != null ==> p in s) && root != null && root in s
    requires Owed(color, root, s, col, bh, p, x)
    ensures Owed(color, NewRoot(root, old_, e), t, col', bh', Renamed(p, old_, e), x)
  {
    if color == Black {
      ReplacedPaint(s, t, old_, e, col, bh, col', bh', p, x);
      ReplacedClean(s, t, old_, e, col, bh, col', bh', x);
      if p == null {
        assert Balanced(t, col', bh', null);
      }
    } else {
      ReplacedPaint(s, t, old_, e, col, bh, col', bh', null, null);
    }
  }

  // ----- what the colours are for -----

  function Pow2(n: nat): nat {
    if n == 0 then 1 else 2 * Pow2(n - 1)
  }

  lemma {:induction false} Pow2Monotone(m: nat, n: nat)
    requires m <= n
    ensures Pow2(m) <= Pow2(n)
  {
    if m < n {
      Pow2Monotone(m, n - 1);
    }
  }

  /** The number of nodes on the longest path from n down. */
  ghost function Height(root: Node?, s: Links, N: int, n: Node?): nat
    requires Linked(root, s, 0, N) && (n != null ==> n in s)
    decreases if n == null then -1 else s[n].at.hi - s[n].at.lo
  {
    if n == null then 0
    else
      assert Local(root, s, 0, N, n);
      var l, r := Height(root, s, N, s[n].left), Height(root, s, N, s[n].right);
      1 + if l < r then r else l
  }

  /** A path is at most twice its black height long, and a subtree has at least 2^bh - 1 nodes. */
  lemma {:induction false} PathAndSize(root: Node?, s: Links, N: int, col: Paint, bh: Heights, n: Node)
    requires Linked(root, s, 0, N) && Balanced(s, col, bh, null) && NoRedRed(s, col, null) && n in s
    ensures Height(root, s, N, n) <= 2 * Bh(bh, n) + (if IsRed(col, n) then 1 else 0)
    ensures Pow2(Bh(bh, n)) <= s[n].at.hi - s[n].at.lo + 1
    decreases s[n].at.hi - s[n].at.lo
  {
    assert Local(root, s, 0, N, n) && BhAt(s, col, bh, n);
    if s[n].left != null {
      assert RedAt(s, col, s[n].left);
      PathAndSize(root, s, N, col, bh, s[n].left);
    }
    if s[n].right != null {
      assert RedAt(s, col, s[n].right);
      PathAndSize(root, s, N, col, bh, s[n].right);
    }
    var l, r := Height(root, s, N, s[n].left), Height(root, s, N, s[n].right);
    assert Height(root, s, N, n) == 1 + if l < r then r else l;
  }

  /** A red-black tree of N nodes has no path longer than 2 log2(N + 1). */
  lemma HeightBound(root: Node, s: Links, N: int, col: Paint, bh: Heights)
    requires Linked(root, s, 0, N) && Balanced(s, col, bh, null) && NoRedRed(s, col, null) && !IsRed(col, root)
    ensures Pow2((Height(root, s, N, root) + 1) / 2) <= N + 1
  {
    PathAndSize(root, s, N, col, bh, root);
    assert Local(root, s, 0, N, root) && BhAt(s, col, bh, root);
    Pow2Monotone((Height(root, s, N, root) + 1) / 2, Bh(bh, root));
  }
}
