/** The splay tree of libuv (deps/libuv/include/uv/tree.h): top-down splaying between two open spines. */
module SplayShape {
  class Node {
    const key: int
    var left: Node?
    var right: Node?

    constructor (key: int)
      ensures this.key == key && left == null && right == null
    {
      this.key, left, right := key, null, null;
    }
  }

  /** What hangs below a pointer. */
  datatype Shape = Leaf | Branch(left: Shape, node: Node, right: Shape)

  ghost function InOrder(t: Shape): (s: seq<Node>) {
    match t
    case Leaf => []
    case Branch(l, n, r) => InOrder(l) + [n] + InOrder(r)
  }

  ghost function Nodes(t: Shape): (s: set<Node>)
    ensures s == set n | n in InOrder(t)
  {
    match t
    case Leaf => {}
    case Branch(l, n, r) => Nodes(l) + {n} + Nodes(r)
  }

  /** Every node's two links. */
  datatype Link = Link(left: Node?, right: Node?)
  type Links = map<Node, Link>

  ghost predicate Holds(s: Links, p: Node?, t: Shape) {
    if t.Leaf? then p == null
    else p == t.node && t.node in s && Holds(s, s[t.node].left, t.left) && Holds(s, s[t.node].right, t.right)
  }

  /** s' differs from s at most in the given nodes' links. */
  ghost predicate SameBut(s: Links, s': Links, changed: set<Node>) {
    forall n :: n in s && n !in changed ==> n in s' && s'[n] == s[n]
  }

  lemma {:induction false} HoldsElsewhere(s: Links, s': Links, changed: set<Node>, p: Node?, t: Shape)
    requires Holds(s, p, t) && SameBut(s, s', changed) && changed !! Nodes(t)
    ensures Holds(s', p, t)
  {
    if t.Branch? {
      HoldsElsewhere(s, s', changed, s[t.node].left, t.left);
      HoldsElsewhere(s, s', changed, s[t.node].right, t.right);
    }
  }

  /** A tree that is open at the end of one spine, from its last node up. The last node's own link along the spine is
      not part of it. */
  datatype Spine = Top | Hung(up: Spine, node: Node, side: Shape)

  ghost function SpineNodes(s: Spine): (nodes: set<Node>)
    ensures s.Hung? ==> s.node in nodes
  {
    if s.Top? then {} else SpineNodes(s.up) + {s.node} + Nodes(s.side)
  }

  ghost function Last(head: Node, s: Spine): Node {
    if s.Top? then head else s.node
  }

  /** The tree to the left: its right spine starts at the header's right link. */
  ghost predicate LeftHung(s: Links, head: Node, l: Spine) {
    l.Hung? ==>
      && Last(head, l.up) in s && s[Last(head, l.up)].right == l.node
      && l.node in s && Holds(s, s[l.node].left, l.side) && LeftHung(s, head, l.up)
  }

  /** The tree to the right: its left spine starts at the header's left link. */
  ghost predicate RightHung(s: Links, head: Node, r: Spine) {
    r.Hung? ==>
      && Last(head, r.up) in s && s[Last(head, r.up)].left == r.node
      && r.node in s && Holds(s, s[r.node].right, r.side) && RightHung(s, head, r.up)
  }

  ghost function LeftOrder(s: Spine): (o: seq<Node>)
    ensures SpineNodes(s) == set n | n in o
  {
    if s.Top? then [] else LeftOrder(s.up) + (InOrder(s.side) + [s.node])
  }

  ghost function RightOrder(s: Spine): (o: seq<Node>)
    ensures SpineNodes(s) == set n | n in o
  {
    if s.Top? then [] else [s.node] + InOrder(s.side) + RightOrder(s.up)
  }

  lemma Regrouped(a: seq<Node>, b: seq<Node>, c: seq<Node>)
    ensures a + (b + c) == a + b + c
  {
  }

  /** The tree that closing a spine with an innermost subtree makes. */
  ghost function LeftClosed(s: Spine, inner: Shape): Shape {
    if s.Top? then inner else LeftClosed(s.up, Branch(s.side, s.node, inner))
  }

  ghost function RightClosed(s: Spine, inner: Shape): Shape {
    if s.Top? then inner else RightClosed(s.up, Branch(inner, s.node, s.side))
  }

  lemma {:induction false} LeftClosedInOrder(s: Spine, inner: Shape)
    ensures InOrder(LeftClosed(s, inner)) == LeftOrder(s) + InOrder(inner)
  {
    if s.Hung? {
      var t := Branch(s.side, s.node, inner);
      LeftClosedInOrder(s.up, t);
      Regrouped(LeftOrder(s.up), InOrder(s.side) + [s.node], InOrder(inner));
    }
  }

  lemma {:induction false} RightClosedInOrder(s: Spine, inner: Shape)
    ensures InOrder(RightClosed(s, inner)) == InOrder(inner) + RightOrder(s)
  {
    if s.Hung? {
      var t := Branch(inner, s.node, s.side);
      RightClosedInOrder(s.up, t);
      Regrouped(InOrder(inner) + [s.node], InOrder(s.side), RightOrder(s.up));
      Regrouped(InOrder(inner), [s.node], InOrder(s.side) + RightOrder(s.up));
      Regrouped([s.node], InOrder(s.side), RightOrder(s.up));
    }
  }

  lemma {:induction false} LeftClosedHolds(s: Links, head: Node, l: Spine, inner: Shape)
    requires LeftHung(s, head, l) && head in s && Holds(s, s[Last(head, l)].right, inner)
    ensures Holds(s, s[head].right, LeftClosed(l, inner))
  {
    if l.Hung? {
      LeftClosedHolds(s, head, l.up, Branch(l.side, l.node, inner));
    }
  }

  lemma {:induction false} RightClosedHolds(s: Links, head: Node, r: Spine, inner: Shape)
    requires RightHung(s, head, r) && head in s && Holds(s, s[Last(head, r)].left, inner)
    ensures Holds(s, s[head].left, RightClosed(r, inner))
  {
    if r.Hung? {
      RightClosedHolds(s, head, r.up, Branch(inner, r.node, r.side));
    }
  }

  ghost predicate Increasing(order: seq<Node>) {
    forall i, j :: 0 <= i < j < |order| ==> order[i].key < order[j].key
  }

  /** All of a is below all of b, so they share nothing. */
  ghost predicate Below(a: seq<Node>, b: seq<Node>) {
    forall m, n :: m in a && n in b ==> m.key < n.key
  }

  lemma Parts(a: seq<Node>, b: seq<Node>)
    ensures Increasing(a + b) <==> Increasing(a) && Increasing(b) && Below(a, b)
  {
    var s := a + b;
    if Increasing(s) {
      forall i, j | 0 <= i < j < |a| ensures a[i].key < a[j].key { assert s[i].key < s[j].key; }
      forall i, j | 0 <= i < j < |b| ensures b[i].key < b[j].key { assert s[|a| + i].key < s[|a| + j].key; }
      forall m, n | m in a && n in b ensures m.key < n.key {
        var i :| 0 <= i < |a| && a[i] == m;
        var j :| 0 <= j < |b| && b[j] == n;
        assert s[i].key < s[|a| + j].key;
      }
    }
    if Increasing(a) && Increasing(b) && Below(a, b) {
      forall i, j | 0 <= i < j < |s| ensures s[i].key < s[j].key {
        if i < |a| <= j { assert a[i] in a && b[j - |a|] in b; }
      }
    }
  }

  lemma BranchApart(t: Shape)
    requires t.Branch? && Increasing(InOrder(t))
    ensures Increasing(InOrder(t.left)) && Increasing(InOrder(t.right))
    ensures forall n :: n in Nodes(t.left) ==> n.key < t.node.key
    ensures forall n :: n in Nodes(t.right) ==> t.node.key < n.key
    ensures Nodes(t.left) !! Nodes(t.right) && t.node !in Nodes(t.left) && t.node !in Nodes(t.right)
  {
    Parts(InOrder(t.left) + [t.node], InOrder(t.right));
    Parts(InOrder(t.left), [t.node]);
  }

  lemma LeftSpineApart(s: Spine)
    requires s.Hung? && Increasing(LeftOrder(s))
    ensures Increasing(LeftOrder(s.up)) && s.node !in SpineNodes(s.up) && s.node !in Nodes(s.side)
  {
    Parts(LeftOrder(s.up), InOrder(s.side) + [s.node]);
    Parts(InOrder(s.side), [s.node]);
  }

  lemma RightSpineApart(s: Spine)
    requires s.Hung? && Increasing(RightOrder(s))
    ensures Increasing(RightOrder(s.up)) && s.node !in SpineNodes(s.up) && s.node !in Nodes(s.side)
  {
    Parts([s.node] + InOrder(s.side), RightOrder(s.up));
    Parts([s.node], InOrder(s.side));
  }

  /** No node's key lies between n's and the sought one, nor is the sought one if n's is not. */
  ghost predicate Nearest(order: seq<Node>, n: Node, key: int) {
    && n in order
    && forall m :: m in order ==> !(n.key < m.key <= key) && !(key <= m.key < n.key)
  }

  // ----- the three trees during a splay -----

  /** The nodes in order, across the tree hung left, the tree in the middle and the tree hung right. */
  ghost function Across(l: Spine, t: Shape, r: Spine): seq<Node> {
    LeftOrder(l) + InOrder(t) + RightOrder(r)
  }

  /** The sought key belongs in the middle. */
  ghost predicate Around(l: Spine, r: Spine, key: int) {
    && (forall n :: n in SpineNodes(l) ==> n.key < key)
    && (forall n :: n in SpineNodes(r) ==> key < n.key)
  }

  lemma SplitApart(l: Spine, t: Shape, r: Spine)
    requires Increasing(Across(l, t, r))
    ensures Increasing(LeftOrder(l)) && Increasing(InOrder(t)) && Increasing(RightOrder(r))
    ensures SpineNodes(l) !! Nodes(t) && SpineNodes(l) !! SpineNodes(r) && Nodes(t) !! SpineNodes(r)
  {
    Parts(LeftOrder(l) + InOrder(t), RightOrder(r));
    Parts(LeftOrder(l), InOrder(t));
  }

  /** Rotating the left child up. */
  ghost function RotatedRight(t: Shape): Shape
    requires t.Branch? && t.left.Branch?
  {
    Branch(t.left.left, t.left.node, Branch(t.left.right, t.node, t.right))
  }

  ghost function RotatedLeft(t: Shape): Shape
    requires t.Branch? && t.right.Branch?
  {
    Branch(Branch(t.left, t.node, t.right.left), t.right.node, t.right.right)
  }

  lemma RotatedRightInOrder(t: Shape)
    requires t.Branch? && t.left.Branch?
    ensures InOrder(RotatedRight(t)) == InOrder(t)
  {
    var a, b, c := InOrder(t.left.left) + [t.left.node], InOrder(t.left.right) + [t.node], InOrder(t.right);
    Regrouped(a, b, c);
    Regrouped(a, InOrder(t.left.right), [t.node]);
  }

  lemma RotatedLeftInOrder(t: Shape)
    requires t.Branch? && t.right.Branch?
    ensures InOrder(RotatedLeft(t)) == InOrder(t)
  {
    var a, b, c := InOrder(t.left) + [t.node], InOrder(t.right.left) + [t.right.node], InOrder(t.right.right);
    Regrouped(a, b, c);
    Regrouped(a, InOrder(t.right.left), [t.right.node]);
  }

  /** Hanging the root and what is to its right on the right spine. */
  lemma LinkedLeftAcross(l: Spine, t: Shape, r: Spine)
    requires t.Branch?
    ensures Across(l, t.left, Hung(r, t.node, t.right)) == Across(l, t, r)
  {
    var n := [t.node] + InOrder(t.right);
    Regrouped(InOrder(t.left), [t.node], InOrder(t.right));
    Regrouped(LeftOrder(l), InOrder(t.left), n);
    Regrouped(LeftOrder(l) + InOrder(t.left), n, RightOrder(r));
  }

  lemma LinkedRightAcross(l: Spine, t: Shape, r: Spine)
    requires t.Branch?
    ensures Across(Hung(l, t.node, t.left), t.right, r) == Across(l, t, r)
  {
    var n := InOrder(t.left) + [t.node];
    Regrouped(LeftOrder(l), n, InOrder(t.right));
  }

  ghost function Assembled(l: Spine, t: Shape, r: Spine): Shape
    requires t.Branch?
  {
    Branch(LeftClosed(l, t.left), t.node, RightClosed(r, t.right))
  }

  lemma AssembledInOrder(l: Spine, t: Shape, r: Spine)
    requires t.Branch?
    ensures InOrder(Assembled(l, t, r)) == Across(l, t, r)
  {
    LeftClosedInOrder(l, t.left);
    RightClosedInOrder(r, t.right);
    var a, b := LeftOrder(l), InOrder(t.left);
    Regrouped(a, b, [t.node]);
    Regrouped(a, b + [t.node], InOrder(t.right));
    Regrouped(a + (b + [t.node]), InOrder(t.right), RightOrder(r));
  }
}
