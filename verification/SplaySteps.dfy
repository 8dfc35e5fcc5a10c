/** One step of a splay, as what it makes of the three trees. */
module SplaySteps {
  import opened SplayShape

  lemma {:induction false} LeftElsewhere(s: Links, s': Links, changed: set<Node>, head: Node, l: Spine)
    requires LeftHung(s, head, l) && SameBut(s, s', changed) && changed !! SpineNodes(l)
    requires head in s && head in s' && s'[head].right == s[head].right
    ensures LeftHung(s', head, l)
  {
    if l.Hung? {
      HoldsElsewhere(s, s', changed, s[l.node].left, l.side);
      LeftElsewhere(s, s', changed, head, l.up);
    }
  }

  lemma {:induction false} RightElsewhere(s: Links, s': Links, changed: set<Node>, head: Node, r: Spine)
    requires RightHung(s, head, r) && SameBut(s, s', changed) && changed !! SpineNodes(r)
    requires head in s && head in s' && s'[head].left == s[head].left
    ensures RightHung(s', head, r)
  {
    if r.Hung? {
      HoldsElsewhere(s, s', changed, s[r.node].right, r.side);
      RightElsewhere(s, s', changed, head, r.up);
    }
  }

  /** The header holds the tree hung left on its right link and the tree hung right on its left link, and the root the
      one in the middle; together they are in order. */
  ghost predicate Split(s: Links, head: Node, l: Spine, t: Shape, r: Spine) {
    && head in s && head !in SpineNodes(l) && head !in Nodes(t) && head !in SpineNodes(r)
    && LeftHung(s, head, l) && RightHung(s, head, r)
    && t.Branch? && Holds(s, t.node, t)
    && Increasing(Across(l, t, r))
  }

  lemma ChildrenApart(t: Shape, c: Shape, both: set<Node>)
    requires t.Branch? && c.Branch? && (c == t.left || c == t.right) && both == {t.node, c.node}
             && Increasing(InOrder(t))
    ensures t.node != c.node && both !! Nodes(c.left) && both !! Nodes(c.right)
    ensures c == t.left ==> both !! Nodes(t.right)
    ensures c == t.right ==> both !! Nodes(t.left)
  {
    BranchApart(t);
    BranchApart(c);
    assert c.node in Nodes(c) && Nodes(c.left) <= Nodes(c) && Nodes(c.right) <= Nodes(c);
  }

  /** SPLAY_ROTATE_RIGHT: t's left child over t's root. */
  ghost function RotatedRightLinks(s: Links, n: Node, c: Node): Links
    requires n in s && c in s
  {
    s[n := Link(s[c].right, s[n].right)][c := Link(s[c].left, n)]
  }

  lemma RotatedRightHolds(s: Links, t: Shape)
    requires t.Branch? && t.left.Branch? && t.left.node in s && Holds(s, t.node, t) && Increasing(InOrder(t))
    ensures Holds(RotatedRightLinks(s, t.node, t.left.node), t.left.node, RotatedRight(t))
  {
    var n, c := t.node, t.left.node;
    var s' := RotatedRightLinks(s, n, c);
    ChildrenApart(t, t.left, {n, c});
    HoldsElsewhere(s, s', {n, c}, s[c].left, t.left.left);
    HoldsElsewhere(s, s', {n, c}, s[c].right, t.left.right);
    HoldsElsewhere(s, s', {n, c}, s[n].right, t.right);
    assert Holds(s', n, Branch(t.left.right, n, t.right));
  }

  lemma RotateRightSplit(s: Links, head: Node, l: Spine, t: Shape, r: Spine)
    requires Split(s, head, l, t, r) && t.left.Branch? && t.left.node in s
    ensures Split(RotatedRightLinks(s, t.node, t.left.node), head, l, RotatedRight(t), r)
    ensures Across(l, RotatedRight(t), r) == Across(l, t, r)
  {
    var s' := RotatedRightLinks(s, t.node, t.left.node);
    SplitApart(l, t, r);
    RotatedRightInOrder(t);
    RotatedRightHolds(s, t);
    assert t.node in Nodes(t) && t.left.node in Nodes(t);
    LeftElsewhere(s, s', {t.node, t.left.node}, head, l);
    RightElsewhere(s, s', {t.node, t.left.node}, head, r);
    assert Nodes(RotatedRight(t)) == Nodes(t);
  }

  /** The last node's own left link is not part of the tree hung right. */
  lemma RightLast(s: Links, s': Links, head: Node, r: Spine)
    requires RightHung(s, head, r) && Increasing(RightOrder(r)) && head in s && head !in SpineNodes(r)
    requires Last(head, r) in s && s'.Keys == s.Keys && SameBut(s, s', {Last(head, r)})
    requires s'[Last(head, r)].right == s[Last(head, r)].right
    ensures RightHung(s', head, r)
  {
    if r.Hung? {
      RightSpineApart(r);
      HoldsElsewhere(s, s', {r.node}, s[r.node].right, r.side);
      RightElsewhere(s, s', {r.node}, head, r.up);
    }
  }

  lemma HungRight(s: Links, s': Links, head: Node, r: Spine, n: Node, side: Shape)
    requires RightHung(s, head, r) && Increasing(RightOrder(r)) && head in s && head !in SpineNodes(r)
    requires Last(head, r) in s && s' == s[Last(head, r) := s[Last(head, r)].(left := n)]
    requires n in s && n != Last(head, r) && Last(head, r) !in Nodes(side) && Holds(s, s[n].right, side)
    ensures RightHung(s', head, Hung(r, n, side))
  {
    RightLast(s, s', head, r);
    HoldsElsewhere(s, s', {Last(head, r)}, s[n].right, side);
  }

  lemma LastLeft(s: Links, t: Shape)
    requires t.Branch? && t.left.Branch? && Holds(s, t.node, t)
    ensures t.left.node in Nodes(t) && Nodes(t.left) <= Nodes(t) && Nodes(t.right) <= Nodes(t)
    ensures t.node in s && s[t.node].left == t.left.node && Holds(s, t.left.node, t.left)
  {
  }

  /** SPLAY_LINKLEFT: the last node hung right gets the root as its left child. */
  lemma LinkLeftSplit(s: Links, head: Node, l: Spine, t: Shape, r: Spine, s': Links)
    requires Split(s, head, l, t, r) && t.left.Branch? && Last(head, r) in s
    requires s' == s[Last(head, r) := s[Last(head, r)].(left := t.node)]
    ensures Split(s', head, l, t.left, Hung(r, t.node, t.right))
    ensures Across(l, t.left, Hung(r, t.node, t.right)) == Across(l, t, r)
  {
    var e := Last(head, r);
    SplitApart(l, t, r);
    LastLeft(s, t);
    LinkedLeftAcross(l, t, r);
    assert e == head || e in SpineNodes(r);
    LeftElsewhere(s, s', {e}, head, l);
    HoldsElsewhere(s, s', {e}, t.left.node, t.left);
    HungRight(s, s', head, r, t.node, t.right);
  }

  // ----- the mirror images -----

  /** SPLAY_ROTATE_LEFT: t's right child over t's root. */
  ghost function RotatedLeftLinks(s: Links, n: Node, c: Node): Links
    requires n in s && c in s
  {
    s[n := Link(s[n].left, s[c].left)][c := Link(n, s[c].right)]
  }

  lemma RotatedLeftHolds(s: Links, t: Shape)
    requires t.Branch? && t.right.Branch? && t.right.node in s && Holds(s, t.node, t) && Increasing(InOrder(t))
    ensures Holds(RotatedLeftLinks(s, t.node, t.right.node), t.right.node, RotatedLeft(t))
  {
    var n, c := t.node, t.right.node;
    var s' := RotatedLeftLinks(s, n, c);
    ChildrenApart(t, t.right, {n, c});
    HoldsElsewhere(s, s', {n, c}, s[c].left, t.right.left);
    HoldsElsewhere(s, s', {n, c}, s[c].right, t.right.right);
    HoldsElsewhere(s, s', {n, c}, s[n].left, t.left);
    assert Holds(s', n, Branch(t.left, n, t.right.left));
  }

  lemma RotateLeftSplit(s: Links, head: Node, l: Spine, t: Shape, r: Spine)
    requires Split(s, head, l, t, r) && t.right.Branch? && t.right.node in s
    ensures Split(RotatedLeftLinks(s, t.node, t.right.node), head, l, RotatedLeft(t), r)
    ensures Across(l, RotatedLeft(t), r) == Across(l, t, r)
  {
    var s' := RotatedLeftLinks(s, t.node, t.right.node);
    SplitApart(l, t, r);
    RotatedLeftInOrder(t);
    RotatedLeftHolds(s, t);
    assert t.node in Nodes(t) && t.right.node in Nodes(t);
    LeftElsewhere(s, s', {t.node, t.right.node}, head, l);
    RightElsewhere(s, s', {t.node, t.right.node}, head, r);
    assert Nodes(RotatedLeft(t)) == Nodes(t);
  }

  lemma LeftLast(s: Links, s': Links, head: Node, l: Spine)
    requires LeftHung(s, head, l) && Increasing(LeftOrder(l)) && head in s && head !in SpineNodes(l)
    requires Last(head, l) in s && s'.Keys == s.Keys && SameBut(s, s', {Last(head, l)})
    requires s'[Last(head, l)].left == s[Last(head, l)].left
    ensures LeftHung(s', head, l)
  {
    if l.Hung? {
      LeftSpineApart(l);
      HoldsElsewhere(s, s', {l.node}, s[l.node].left, l.side);
      LeftElsewhere(s, s', {l.node}, head, l.up);
    }
  }

  lemma HungLeft(s: Links, s': Links, head: Node, l: Spine, n: Node, side: Shape)
    requires LeftHung(s, head, l) && Increasing(LeftOrder(l)) && head in s && head !in SpineNodes(l)
    requires Last(head, l) in s && s' == s[Last(head, l) := s[Last(head, l)].(right := n)]
    requires n in s && n != Last(head, l) && Last(head, l) !in Nodes(side) && Holds(s, s[n].left, side)
    ensures LeftHung(s', head, Hung(l, n, side))
  {
    LeftLast(s, s', head, l);
    HoldsElsewhere(s, s', {Last(head, l)}, s[n].left, side);
  }

  lemma LastRight(s: Links, t: Shape)
    requires t.Branch? && t.right.Branch? && Holds(s, t.node, t)
    ensures t.right.node in Nodes(t) && Nodes(t.left) <= Nodes(t) && Nodes(t.right) <= Nodes(t)
    ensures t.node in s && s[t.node].right == t.right.node && Holds(s, t.right.node, t.right)
  {
  }

  /** SPLAY_LINKRIGHT: the last node hung left gets the root as its right child. */
  lemma LinkRightSplit(s: Links, head: Node, l: Spine, t: Shape, r: Spine, s': Links)
    requires Split(s, head, l, t, r) && t.right.Branch? && Last(head, l) in s
    requires s' == s[Last(head, l) := s[Last(head, l)].(right := t.node)]
    ensures Split(s', head, Hung(l, t.node, t.left), t.right, r)
    ensures Across(Hung(l, t.node, t.left), t.right, r) == Across(l, t, r)
  {
    var e := Last(head, l);
    SplitApart(l, t, r);
    LastRight(s, t);
    LinkedRightAcross(l, t, r);
    assert e == head || e in SpineNodes(l);
    RightElsewhere(s, s', {e}, head, r);
    HoldsElsewhere(s, s', {e}, t.right.node, t.right);
    HungLeft(s, s', head, l, t.node, t.left);
  }

  // ----- SPLAY_ASSEMBLE -----

  /** Closing the tree hung left with the root's left subtree. */
  lemma CloseLeft(s: Links, head: Node, l: Spine, t: Shape, r: Spine, s': Links)
    requires Split(s, head, l, t, r) && Last(head, l) in s && t.node in s
    requires s' == s[Last(head, l) := s[Last(head, l)].(right := s[t.node].left)]
    ensures head in s' && Holds(s', s'[head].right, LeftClosed(l, t.left)) && RightHung(s', head, r)
    ensures t.node in s' && s'[t.node] == s[t.node] && Holds(s', s'[t.node].right, t.right)
  {
    var e := Last(head, l);
    SplitApart(l, t, r);
    BranchApart(t);
    assert e == head || e in SpineNodes(l);
    LeftLast(s, s', head, l);
    HoldsElsewhere(s, s', {e}, s[t.node].left, t.left);
    HoldsElsewhere(s, s', {e}, s[t.node].right, t.right);
    RightElsewhere(s, s', {e}, head, r);
    LeftClosedHolds(s', head, l, t.left);
  }

  lemma CloseRight(s: Links, head: Node, t: Shape, r: Spine, s': Links)
    requires head in s && head !in SpineNodes(r) && head !in Nodes(t) && RightHung(s, head, r)
    requires t.Branch? && t.node in s && Holds(s, s[t.node].right, t.right)
    requires Increasing(InOrder(t)) && Increasing(RightOrder(r)) && Nodes(t) !! SpineNodes(r)
    requires Last(head, r) in s && s' == s[Last(head, r) := s[Last(head, r)].(left := s[t.node].right)]
    ensures head in s' && Holds(s', s'[head].left, RightClosed(r, t.right))
  {
    var e := Last(head, r);
    BranchApart(t);
    assert e == head || e in SpineNodes(r);
    RightLast(s, s', head, r);
    HoldsElsewhere(s, s', {e}, s[t.node].right, t.right);
    RightClosedHolds(s', head, r, t.right);
  }

  /** SPLAY_ASSEMBLE. */
  lemma AssembleSplit(s: Links, head: Node, l: Spine, t: Shape, r: Spine, s1: Links, s2: Links, s': Links)
    requires Split(s, head, l, t, r) && Last(head, l) in s && Last(head, r) in s && t.node in s
    requires s1 == s[Last(head, l) := s[Last(head, l)].(right := s[t.node].left)]
    requires s2 == s1[Last(head, r) := s1[Last(head, r)].(left := s1[t.node].right)]
    requires s' == s2[t.node := Link(s2[head].right, s2[head].left)]
    ensures Holds(s', t.node, Assembled(l, t, r)) && InOrder(Assembled(l, t, r)) == Across(l, t, r)
  {
    SplitApart(l, t, r);
    CloseLeft(s, head, l, t, r, s1);
    CloseRight(s1, head, t, r, s2);
    AssembledInOrder(l, t, r);
    AssembledHolds(s1, s2, s', head, l, t, r);
  }

  lemma AssembledHolds(s1: Links, s2: Links, s': Links, head: Node, l: Spine, t: Shape, r: Spine)
    requires t.Branch? && Increasing(Across(l, t, r)) && head in s1 && head in s2 && Last(head, r) in s1 && t.node in s1
    requires head !in SpineNodes(l) && head !in Nodes(t) && head !in SpineNodes(r)
    requires Holds(s1, s1[head].right, LeftClosed(l, t.left)) && Holds(s2, s2[head].left, RightClosed(r, t.right))
    requires s2 == s1[Last(head, r) := s1[Last(head, r)].(left := s1[t.node].right)]
    requires s' == s2[t.node := Link(s2[head].right, s2[head].left)]
    ensures Holds(s', t.node, Assembled(l, t, r))
  {
    var e := Last(head, r);
    SplitApart(l, t, r);
    AssembledInOrder(l, t, r);
    BranchApart(Assembled(l, t, r));
    LeftClosedInOrder(l, t.left);
    assert e == head || e in SpineNodes(r);
    assert {e, t.node} !! Nodes(LeftClosed(l, t.left));
    HoldsElsewhere(s1, s', {e, t.node}, s1[head].right, LeftClosed(l, t.left));
    HoldsElsewhere(s2, s', {t.node}, s2[head].left, RightClosed(r, t.right));
  }

  // ----- where the sought key is -----

  lemma AroundLeft(l: Spine, t: Shape, r: Spine, key: int)
    requires Increasing(Across(l, t, r)) && Around(l, r, key) && t.Branch? && key < t.node.key
    ensures Around(l, Hung(r, t.node, t.right), key)
  {
    SplitApart(l, t, r);
    BranchApart(t);
  }

  lemma AroundRight(l: Spine, t: Shape, r: Spine, key: int)
    requires Increasing(Across(l, t, r)) && Around(l, r, key) && t.Branch? && t.node.key < key
    ensures Around(Hung(l, t.node, t.left), r, key)
  {
    SplitApart(l, t, r);
    BranchApart(t);
  }

  /** Where a splay stops, the root is the node with the key or a neighbour of its place. */
  lemma NearestAcross(l: Spine, t: Shape, r: Spine, key: int)
    requires Increasing(Across(l, t, r)) && Around(l, r, key) && t.Branch?
    requires t.node.key == key || (key < t.node.key && t.left.Leaf?) || (t.node.key < key && t.right.Leaf?)
    ensures Nearest(Across(l, t, r), t.node, key)
  {
    SplitApart(l, t, r);
    BranchApart(t);
    AcrossBelow(l, t, r);
    forall m | m in Across(l, t, r) ensures !(t.node.key < m.key <= key) && !(key <= m.key < t.node.key) {
      OnePlace(l, t, r, m);
    }
    assert t.node in Nodes(t);
  }

  lemma OnePlace(l: Spine, t: Shape, r: Spine, m: Node)
    requires t.Branch? && m in Across(l, t, r)
    ensures m in SpineNodes(l) || m == t.node || m in Nodes(t.left) || m in Nodes(t.right) || m in SpineNodes(r)
  {
    assert m in SpineNodes(l) || m in Nodes(t) || m in SpineNodes(r);
  }

  lemma AcrossBelow(l: Spine, t: Shape, r: Spine)
    requires t.Branch? && Increasing(Across(l, t, r))
    ensures forall m :: m in SpineNodes(l) ==> m.key < t.node.key
    ensures forall m :: m in SpineNodes(r) ==> t.node.key < m.key
  {
    Parts(LeftOrder(l) + InOrder(t), RightOrder(r));
    Parts(LeftOrder(l), InOrder(t));
    assert t.node in Nodes(t) && t.node in LeftOrder(l) + InOrder(t);
  }

  /** Where it starts, nothing hangs left or right. */
  lemma Start(s: Links, s': Links, head: Node, t: Shape)
    requires t.Branch? && Holds(s, t.node, t) && Increasing(InOrder(t)) && head !in s
    requires s' == s[head := Link(null, null)]
    ensures Split(s', head, Top, t, Top) && Across(Top, t, Top) == InOrder(t)
  {
    HoldsIn(s, t.node, t);
    HoldsElsewhere(s, s', {head}, t.node, t);
    assert Across(Top, t, Top) == InOrder(t);
  }

  lemma {:induction false} HoldsIn(s: Links, p: Node?, t: Shape)
    requires Holds(s, p, t)
    ensures Nodes(t) <= s.Keys
  {
    if t.Branch? {
      HoldsIn(s, s[t.node].left, t.left);
      HoldsIn(s, s[t.node].right, t.right);
    }
  }

  /** The links of t's root are null exactly where t has no subtree. */
  ghost predicate Children(s: Links, t: Shape)
    requires t.Branch?
  {
    && t.node in s
    && Child(s, s[t.node].left, t.node, t.left)
    && Child(s, s[t.node].right, t.node, t.right)
  }

  ghost predicate Child(s: Links, p: Node?, n: Node, t: Shape) {
    if p == null then t.Leaf? else t.Branch? && p == t.node && t.node in s && t.node != n
  }

  lemma HeldChildren(s: Links, t: Shape)
    requires t.Branch? && Holds(s, t.node, t) && t.node !in Nodes(t.left) && t.node !in Nodes(t.right)
    ensures Children(s, t)
  {
    HeldChild(s, s[t.node].left, t.node, t.left);
    HeldChild(s, s[t.node].right, t.node, t.right);
  }

  lemma HeldChild(s: Links, p: Node?, n: Node, t: Shape)
    requires Holds(s, p, t) && n !in Nodes(t)
    ensures Child(s, p, n, t)
  {
    assert t.Branch? ==> t.node in Nodes(t);
  }

  lemma HeldRoot(s: Links, p: Node?, t: Shape)
    requires p != null && Holds(s, p, t)
    ensures t.Branch? && p == t.node && p in s
  {
  }

  lemma RootChildren(s: Links, t: Shape)
    requires t.Branch? && Holds(s, t.node, t) && Increasing(InOrder(t))
    ensures Children(s, t) && Increasing(InOrder(t.left)) && Increasing(InOrder(t.right))
  {
    BranchApart(t);
    HeldChildren(s, t);
  }
}
