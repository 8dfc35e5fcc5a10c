/** Insertion and removal around a splayed root. */
module SplayEdits {
  import opened SplayShape
  import opened SplaySteps

  /** e comes into the order somewhere; everything else keeps its place. */
  ghost predicate Inserted(order: seq<Node>, order': seq<Node>, e: Node) {
    exists p: nat :: p <= |order| && order' == order[..p] + [e] + order[p..]
  }

  /** The node with the key goes out of the order; everything else keeps its place. */
  ghost predicate Removed(order: seq<Node>, order': seq<Node>, key: int) {
    exists p: nat :: p < |order| && order[p].key == key && order' == order[..p] + order[p + 1..]
  }

  /** No node of the order has the key. */
  ghost predicate Absent(order: seq<Node>, key: int) {
    forall n :: n in order ==> n.key != key
  }

  /** A node whose neighbour is not itself is not in the tree. */
  lemma OnlyIfSame(order: seq<Node>, n: Node, elm: Node)
    requires Nearest(order, n, elm.key)
    ensures n.key != elm.key ==> elm !in order
  {
  }

  lemma OneWithKey(order: seq<Node>, n: Node, key: int)
    requires Increasing(order) && n in order && n.key == key
    ensures forall m :: m in order && m.key == key ==> m == n
  {
    forall m | m in order && m.key == key ensures m == n {
      var i :| 0 <= i < |order| && order[i] == n;
      var j :| 0 <= j < |order| && order[j] == m;
    }
  }

  // ----- orders -----

  lemma OnePart(a: seq<Node>, e: Node)
    ensures Increasing(a) && (forall m :: m in a ==> m.key < e.key) ==> Increasing(a + [e])
    ensures Increasing(a) && (forall m :: m in a ==> e.key < m.key) ==> Increasing([e] + a)
  {
    Parts(a, [e]);
    Parts([e], a);
  }

  /** A node fits just below the greater neighbour of its place. */
  lemma LowOrder(a: seq<Node>, n: Node, c: seq<Node>, e: Node)
    requires Increasing(a + [n] + c) && e.key < n.key && Nearest(a + [n] + c, n, e.key)
    ensures Increasing(a + [e] + ([n] + c)) && Inserted(a + [n] + c, a + [e] + ([n] + c), e)
            && Absent(a + [n] + c, e.key)
  {
    var order := a + [n] + c;
    Regrouped(a, [n], c);
    Parts(a, [n] + c);
    Parts([n], c);
    assert n in [n];
    forall m | m in a ensures m.key < e.key {
      assert m in order && n in [n] + c;
    }
    forall m | m in [n] + c ensures e.key < m.key {
    }
    OnePart(a, e);
    Parts(a + [e], [n] + c);
    assert order[..|a|] == a && order[|a|..] == [n] + c;
  }

  lemma HighOrder(a: seq<Node>, n: Node, c: seq<Node>, e: Node)
    requires Increasing(a + [n] + c) && n.key < e.key && Nearest(a + [n] + c, n, e.key)
    ensures Increasing(a + [n] + [e] + c) && Inserted(a + [n] + c, a + [n] + [e] + c, e) && Absent(a + [n] + c, e.key)
  {
    var order := a + [n] + c;
    Parts(a + [n], c);
    Parts(a, [n]);
    assert n in [n];
    forall m | m in c ensures e.key < m.key {
      assert m in order && n in a + [n];
    }
    forall m | m in a + [n] ensures m.key < e.key {
    }
    OnePart(a + [n], e);
    Parts(a + [n] + [e], c);
    assert order[..|a| + 1] == a + [n] && order[|a| + 1..] == c;
  }

  lemma OutOrder(a: seq<Node>, n: Node, c: seq<Node>)
    requires Increasing(a + [n] + c)
    ensures Increasing(a + c) && Removed(a + [n] + c, a + c, n.key)
  {
    var order := a + [n] + c;
    Parts(a + [n], c);
    Parts(a, [n]);
    Parts(a, c);
    assert order[|a|] == n && order[..|a|] == a && order[|a| + 1..] == c;
  }

  // ----- SPLAY_INSERT -----

  /** e over a root that is above it. */
  ghost function Low(t: Shape, e: Node): Shape
    requires t.Branch?
  {
    Branch(t.left, e, Branch(Leaf, t.node, t.right))
  }

  ghost function High(t: Shape, e: Node): Shape
    requires t.Branch?
  {
    Branch(Branch(t.left, t.node, Leaf), e, t.right)
  }

  ghost function LowLinks(s: Links, n: Node, e: Node): Links
    requires n in s
  {
    s[e := Link(s[n].left, n)][n := Link(null, s[n].right)]
  }

  ghost function HighLinks(s: Links, n: Node, e: Node): Links
    requires n in s
  {
    s[e := Link(n, s[n].right)][n := Link(s[n].left, null)]
  }

  lemma InsertLow(s: Links, t: Shape, e: Node)
    requires t.Branch? && t.node in s && Holds(s, t.node, t) && Increasing(InOrder(t)) && e !in Nodes(t)
    requires e.key < t.node.key && Nearest(InOrder(t), t.node, e.key)
    ensures Holds(LowLinks(s, t.node, e), e, Low(t, e)) && Nodes(Low(t, e)) == Nodes(t) + {e}
    ensures Increasing(InOrder(Low(t, e))) && Inserted(InOrder(t), InOrder(Low(t, e)), e) && Absent(InOrder(t), e.key)
  {
    BranchApart(t);
    LowHolds(s, t, e);
    LowInOrder(t, e);
  }

  lemma LowHolds(s: Links, t: Shape, e: Node)
    requires t.Branch? && t.node in s && Holds(s, t.node, t) && e !in Nodes(t)
    requires t.node !in Nodes(t.left) && t.node !in Nodes(t.right)
    ensures Holds(LowLinks(s, t.node, e), e, Low(t, e)) && Nodes(Low(t, e)) == Nodes(t) + {e}
  {
    var s' := LowLinks(s, t.node, e);
    HoldsElsewhere(s, s', {e, t.node}, s[t.node].left, t.left);
    HoldsElsewhere(s, s', {e, t.node}, s[t.node].right, t.right);
    assert Holds(s', t.node, Branch(Leaf, t.node, t.right));
  }

  lemma LowInOrder(t: Shape, e: Node)
    requires t.Branch? && Increasing(InOrder(t)) && e.key < t.node.key && Nearest(InOrder(t), t.node, e.key)
    ensures Increasing(InOrder(Low(t, e))) && Inserted(InOrder(t), InOrder(Low(t, e)), e) && Absent(InOrder(t), e.key)
  {
    LowOrder(InOrder(t.left), t.node, InOrder(t.right), e);
    assert InOrder(Branch(Leaf, t.node, t.right)) == [t.node] + InOrder(t.right);
  }

  lemma InsertHigh(s: Links, t: Shape, e: Node)
    requires t.Branch? && t.node in s && Holds(s, t.node, t) && Increasing(InOrder(t)) && e !in Nodes(t)
    requires t.node.key < e.key && Nearest(InOrder(t), t.node, e.key)
    ensures Holds(HighLinks(s, t.node, e), e, High(t, e)) && Nodes(High(t, e)) == Nodes(t) + {e}
    ensures Increasing(InOrder(High(t, e))) && Inserted(InOrder(t), InOrder(High(t, e)), e) && Absent(InOrder(t), e.key)
  {
    BranchApart(t);
    HighHolds(s, t, e);
    HighInOrder(t, e);
  }

  lemma HighHolds(s: Links, t: Shape, e: Node)
    requires t.Branch? && t.node in s && Holds(s, t.node, t) && e !in Nodes(t)
    requires t.node !in Nodes(t.left) && t.node !in Nodes(t.right)
    ensures Holds(HighLinks(s, t.node, e), e, High(t, e)) && Nodes(High(t, e)) == Nodes(t) + {e}
  {
    var s' := HighLinks(s, t.node, e);
    HoldsElsewhere(s, s', {e, t.node}, s[t.node].left, t.left);
    HoldsElsewhere(s, s', {e, t.node}, s[t.node].right, t.right);
    assert Holds(s', t.node, Branch(t.left, t.node, Leaf));
  }

  lemma HighInOrder(t: Shape, e: Node)
    requires t.Branch? && Increasing(InOrder(t)) && t.node.key < e.key && Nearest(InOrder(t), t.node, e.key)
    ensures Increasing(InOrder(High(t, e))) && Inserted(InOrder(t), InOrder(High(t, e)), e) && Absent(InOrder(t), e.key)
  {
    HighOrder(InOrder(t.left), t.node, InOrder(t.right), e);
    assert InOrder(Branch(t.left, t.node, Leaf)) == InOrder(t.left) + [t.node];
  }

  // ----- SPLAY_REMOVE -----

  lemma Dropped(s: Links, head: Node, p: Node?, t: Shape)
    requires Holds(s, p, t) && head !in Nodes(t)
    ensures Holds(s - {head}, p, t)
  {
    HoldsElsewhere(s, s - {head}, {head}, p, t);
  }

  /** With nothing to the left of it, the root's right subtree is what remains. */
  lemma RemoveFirst(s: Links, t: Shape)
    requires t.Branch? && t.left.Leaf? && Holds(s, t.node, t) && Increasing(InOrder(t)) && s.Keys == Nodes(t)
             && t.node in s
    ensures Holds(s - {t.node}, s[t.node].right, t.right) && (s - {t.node}).Keys == Nodes(t.right)
    ensures Increasing(InOrder(t.right)) && Removed(InOrder(t), InOrder(t.right), t.node.key)
  {
    FirstOut(t);
    Dropped(s, t.node, s[t.node].right, t.right);
  }

  lemma FirstOut(t: Shape)
    requires t.Branch? && t.left.Leaf? && Increasing(InOrder(t))
    ensures Increasing(InOrder(t.right)) && Removed(InOrder(t), InOrder(t.right), t.node.key)
    ensures Nodes(t) == {t.node} + Nodes(t.right) && t.node !in Nodes(t.right)
  {
    BranchApart(t);
    var order, c := InOrder(t), InOrder(t.right);
    assert order == [t.node] + c;
    assert order[..0] + order[0 + 1..] == c;
  }

  /** The links after what was to the right of the root n is hung on m. */
  ghost function JoinedLinks(s: Links, n: Node, m: Node, right: Node?): Links
    requires m in s
  {
    s[m := s[m].(right := right)] - {n}
  }

  /** Hanging what was to the right of the removed root on the greatest node of what was to its left. */
  lemma RemoveInner(s: Links, s1: Links, t: Shape, l: Shape)
    requires t.Branch? && Holds(s, t.node, t) && Increasing(InOrder(t)) && s.Keys == Nodes(t) && t.node in s
    requires l.Branch? && InOrder(l) == InOrder(t.left) && s1.Keys == s.Keys && SameBut(s, s1, Nodes(l))
             && Holds(s1, l.node, l)
    requires Nearest(InOrder(l), l.node, t.node.key) && l.node in s1
    ensures var s', t' := JoinedLinks(s1, t.node, l.node, s[t.node].right), Branch(l.left, l.node, t.right);
            Holds(s', l.node, t') && s'.Keys == Nodes(t')
    ensures Increasing(InOrder(Branch(l.left, l.node, t.right)))
    ensures Removed(InOrder(t), InOrder(Branch(l.left, l.node, t.right)), t.node.key)
  {
    BranchApart(t);
    assert Nodes(l) == Nodes(t.left);
    GreatestRoot(l, t.node.key);
    JoinedInOrder(t, l);
    JoinedHolds(s, s1, t, l);
  }

  lemma HasNode(t: Shape)
    ensures t.Branch? ==> t.node in Nodes(t)
  {
  }

  lemma GreatestRoot(l: Shape, key: int)
    requires l.Branch? && Increasing(InOrder(l)) && Nearest(InOrder(l), l.node, key)
             && forall m :: m in Nodes(l) ==> m.key < key
    ensures l.right.Leaf?
  {
    BranchApart(l);
    assert forall m :: m in Nodes(l.right) ==> m in Nodes(l);
    HasNode(l.right);
  }

  lemma JoinedInOrder(t: Shape, l: Shape)
    requires t.Branch? && l.Branch? && l.right.Leaf? && InOrder(l) == InOrder(t.left) && Increasing(InOrder(t))
    ensures Increasing(InOrder(Branch(l.left, l.node, t.right)))
    ensures Removed(InOrder(t), InOrder(Branch(l.left, l.node, t.right)), t.node.key)
  {
    OutOrder(InOrder(t.left), t.node, InOrder(t.right));
    assert InOrder(l) == InOrder(l.left) + [l.node];
  }

  lemma JoinedHolds(s: Links, s1: Links, t: Shape, l: Shape)
    requires t.Branch? && Holds(s, t.node, t) && Increasing(InOrder(t)) && s.Keys == Nodes(t) && t.node in s
    requires l.Branch? && l.right.Leaf? && Increasing(InOrder(l)) && Nodes(l) == Nodes(t.left)
    requires s1.Keys == s.Keys && SameBut(s, s1, Nodes(l)) && Holds(s1, l.node, l) && l.node in s1
    ensures var s', t' := JoinedLinks(s1, t.node, l.node, s[t.node].right), Branch(l.left, l.node, t.right);
            Holds(s', l.node, t') && s'.Keys == Nodes(t')
  {
    var s' := JoinedLinks(s1, t.node, l.node, s[t.node].right);
    BranchApart(t);
    HasNode(l);
    RootApart(l);
    JoinedRest(s, s1, s', l.node, t.node, Nodes(l));
    LeftHolds(s1, s', l, t.node);
    HoldsElsewhere(s, s', Nodes(l) + {t.node}, s[t.node].right, t.right);
    JoinedNodes(t, l);
  }

  lemma RootApart(l: Shape)
    requires l.Branch? && Increasing(InOrder(l))
    ensures l.node !in Nodes(l.left)
  {
    BranchApart(l);
  }

  lemma JoinedRest(s: Links, s1: Links, s': Links, m: Node, gone: Node, inner: set<Node>)
    requires m in s1 && m in inner && s1.Keys == s.Keys && SameBut(s, s1, inner)
    requires m != gone && exists p: Node? :: s' == JoinedLinks(s1, gone, m, p)
    ensures s'.Keys == s.Keys - {gone} && SameBut(s, s', inner + {gone}) && SameBut(s1, s', {m, gone}) && m in s'
            && s'[m].left == s1[m].left
  {
  }

  lemma LeftHolds(s: Links, s': Links, l: Shape, gone: Node)
    requires l.Branch? && Holds(s, l.node, l) && l.node in s && SameBut(s, s', {l.node, gone})
    requires l.node !in Nodes(l.left) && gone !in Nodes(l)
    ensures Holds(s', s[l.node].left, l.left)
  {
    assert Nodes(l.left) <= Nodes(l);
    HoldsElsewhere(s, s', {l.node, gone}, s[l.node].left, l.left);
  }

  lemma JoinedNodes(t: Shape, l: Shape)
    requires t.Branch? && l.Branch? && l.right.Leaf? && Nodes(l) == Nodes(t.left)
    requires t.node !in Nodes(t.left) && t.node !in Nodes(t.right)
    ensures Nodes(Branch(l.left, l.node, t.right)) == Nodes(t) - {t.node}
  {
    assert Nodes(l) == Nodes(l.left) + {l.node};
  }

  // ----- SPLAY_NEXT -----

  /** A splay for a node of the tree brings that node up. */
  lemma SplayedTo(t: Shape, elm: Node)
    requires t.Branch? && Increasing(InOrder(t)) && elm in InOrder(t) && Nearest(InOrder(t), t.node, elm.key)
    ensures t.node == elm && t.node !in Nodes(t.left) && t.node !in Nodes(t.right)
  {
    BranchApart(t);
    assert elm in Nodes(t);
  }

  /** next follows n in the order, or n is the last. */
  ghost predicate Follows(order: seq<Node>, n: Node, next: Node?) {
    exists i: nat :: FollowsAt(order, n, next, i)
  }

  ghost predicate FollowsAt(order: seq<Node>, n: Node, next: Node?, i: nat) {
    i < |order| && order[i] == n && next == if i + 1 < |order| then order[i + 1] else null
  }

  /** What follows the root in order is the first node of its right subtree. */
  lemma AfterRoot(t: Shape)
    requires t.Branch?
    ensures Follows(InOrder(t), t.node, if t.right.Branch? then InOrder(t.right)[0] else null)
  {
    var i := |InOrder(t.left)|;
    assert FollowsAt(InOrder(t), t.node, if t.right.Branch? then InOrder(t.right)[0] else null, i);
  }

  lemma FirstLeft(t: Shape)
    requires t.Branch?
    ensures InOrder(t)[0] == if t.left.Branch? then InOrder(t.left)[0] else t.node
  {
  }
}
