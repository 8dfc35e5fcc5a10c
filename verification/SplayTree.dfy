/** The tree as pointers that are rewritten. */
module SplayTree {
  import opened SplayShape
  import opened SplaySteps
  import opened SplayEdits

  ghost predicate Tracked(s: Links)
    reads s.Keys
  {
    forall n {:trigger s[n]} :: n in s ==> s[n] == Link(n.left, n.right)
  }

  class Tree {
    var root: Node?
    ghost var shape: Shape
    ghost var links: Links

    /** The tree below the root has this shape and is in order; links may have other nodes too. */
    ghost predicate Sound()
      reads this, links.Keys
    {
      Tracked(links) && Holds(links, root, shape) && Increasing(InOrder(shape))
    }

    ghost predicate Valid()
      reads this, links.Keys
    {
      Sound() && links.Keys == Nodes(shape)
    }

    ghost function Order(): seq<Node>
      reads this
    {
      InOrder(shape)
    }

    constructor ()
      ensures Valid() && Order() == []
    {
      root, shape, links := null, Leaf, map[];
    }

    /** SPLAY_ROTATE_RIGHT. */
    method RotateRight(tmp: Node, ghost s: Links) returns (ghost s': Links)
      requires Tracked(s) && root != null && root in s && tmp in s && root != tmp
      modifies this`root, root, tmp
      ensures Tracked(s') && s' == RotatedRightLinks(s, old(root), tmp) && root == tmp
    {
      s' := RotatedRightLinks(s, root, tmp);
      root.left := tmp.right;
      tmp.right := root;
      root := tmp;
    }

    /** SPLAY_ROTATE_LEFT. */
    method RotateLeft(tmp: Node, ghost s: Links) returns (ghost s': Links)
      requires Tracked(s) && root != null && root in s && tmp in s && root != tmp
      modifies this`root, root, tmp
      ensures Tracked(s') && s' == RotatedLeftLinks(s, old(root), tmp) && root == tmp
    {
      s' := RotatedLeftLinks(s, root, tmp);
      root.right := tmp.left;
      tmp.left := root;
      root := tmp;
    }

    /** SPLAY_LINKLEFT. */
    method LinkLeft(tmp: Node, ghost s: Links) returns (last: Node, ghost s': Links)
      requires Tracked(s) && root != null && root in s && tmp in s && root != tmp
      modifies this`root, tmp
      ensures Tracked(s') && s' == s[tmp := s[tmp].(left := old(root))] && last == old(root) && root == s[last].left
    {
      s' := s[tmp := s[tmp].(left := root)];
      tmp.left := root;
      last := root;
      root := root.left;
    }

    /** SPLAY_LINKRIGHT. */
    method LinkRight(tmp: Node, ghost s: Links) returns (last: Node, ghost s': Links)
      requires Tracked(s) && root != null && root in s && tmp in s && root != tmp
      modifies this`root, tmp
      ensures Tracked(s') && s' == s[tmp := s[tmp].(right := old(root))] && last == old(root) && root == s[last].right
    {
      s' := s[tmp := s[tmp].(right := root)];
      tmp.right := root;
      last := root;
      root := root.right;
    }

    /** SPLAY_ASSEMBLE. */
    method Assemble(head: Node, left: Node, right: Node, ghost s: Links)
      returns (ghost s1: Links, ghost s2: Links, ghost s': Links)
      requires Tracked(s) && root != null && root in s && head in s && left in s && right in s
      requires root != head && root != left && root != right
      modifies root, left, right
      ensures s1 == s[left := s[left].(right := s[root].left)]
      ensures s2 == s1[right := s1[right].(left := s1[root].right)]
      ensures Tracked(s') && s' == s2[root := Link(s2[head].right, s2[head].left)]
    {
      s1 := s[left := s[left].(right := root.left)];
      left.right := root.left;
      s2 := s1[right := s1[right].(left := root.right)];
      right.left := root.right;
      s' := s2[root := Link(head.right, head.left)];
      root.left := head.right;
      root.right := head.left;
    }

    /** What holds between the turns of a splay's loop. */
    ghost predicate Between(s: Links, c: Cut, left: Node, right: Node, key: int, order: seq<Node>)
      reads this, s.Keys
    {
      && Tracked(s) && Split(s, c.head, c.l, c.t, c.r) && root == c.t.node
      && left == Last(c.head, c.l) && right == Last(c.head, c.r) && left in s && right in s
      && Across(c.l, c.t, c.r) == order && Around(c.l, c.r, key)
    }

    /** Rotating the left child up, where the key is below that too. */
    method ZigRight(tmp: Node, left: Node, right: Node, key: int, ghost s: Links, ghost c: Cut, ghost order: seq<Node>)
      returns (ghost s': Links, ghost c': Cut)
      requires Between(s, c, left, right, key, order) && root != null && key < tmp.key && c.t.left.Branch?
               && tmp == c.t.left.node
      requires tmp in s && root != tmp
      modifies this`root, s.Keys
      ensures Between(s', c', left, right, key, order) && root == tmp && c' == c.(t := RotatedRight(c.t))
      ensures s'.Keys == s.Keys && SameBut(s, s', Moved(c.head, order))
    {
      assert tmp in Nodes(c.t) && root in Nodes(c.t) && Nodes(c.t) <= Moved(c.head, order);
      RotateRightSplit(s, c.head, c.l, c.t, c.r);
      s' := RotateRight(tmp, s);
      c' := c.(t := RotatedRight(c.t));
    }

    /** Hanging the root and its right subtree right. */
    method HangRight(left: Node, right: Node, key: int, ghost s: Links, ghost c: Cut, ghost order: seq<Node>)
      returns (last: Node, ghost s': Links, ghost c': Cut)
      requires Between(s, c, left, right, key, order) && root != null && key < root.key && c.t.left.Branch?
               && root != right
      modifies this`root, s.Keys
      ensures root != null && c' == Cut(c.head, c.l, c.t.left, Hung(c.r, c.t.node, c.t.right))
      ensures Between(s', c', left, last, key, order) && s'.Keys == s.Keys && SameBut(s, s', Moved(c.head, order))
    {
      assert right in Moved(c.head, order);
      LastLeft(s, c.t);
      ghost var t := c.t;
      LinkLeftSplit(s, c.head, c.l, t, c.r, s[right := s[right].(left := root)]);
      AroundLeft(c.l, t, c.r, key);
      last, s' := LinkLeft(right, s);
      c' := Cut(c.head, c.l, t.left, Hung(c.r, t.node, t.right));
    }

    /** The turn of the loop for a key below the root's; stuck when the way left ends. */
    method TurnLeft(left: Node, right: Node, key: int, ghost s: Links, ghost c: Cut, ghost order: seq<Node>)
      returns (stuck: bool, last: Node, ghost s': Links, ghost c': Cut)
      requires Between(s, c, left, right, key, order) && root != null && key < root.key
      modifies this`root, s.Keys
      ensures Between(s', c', left, last, key, order) && root != null && s'.Keys == s.Keys && c'.head == c.head
      ensures SameBut(s, s', Moved(c.head, order))
      ensures if stuck then Stops(c', key) else |InOrder(c'.t)| < |InOrder(c.t)|
    {
      stuck, last, s', c' := false, right, s, c;
      var tmp := root.left;
      CutApart(s, c, left, right);
      if tmp == null {
        stuck := true;
        return;
      }
      if key < tmp.key {
        s', c' := ZigRight(tmp, left, right, key, s, c, order);
        CutApart(s', c', left, right);
        if root.left == null {
          stuck := true;
          return;
        }
      }
      last, s', c' := HangRight(left, right, key, s', c', order);
    }

    /** The mirror images. */
    method ZigLeft(tmp: Node, left: Node, right: Node, key: int, ghost s: Links, ghost c: Cut, ghost order: seq<Node>)
      returns (ghost s': Links, ghost c': Cut)
      requires Between(s, c, left, right, key, order) && root != null && tmp.key < key && c.t.right.Branch?
               && tmp == c.t.right.node
      requires tmp in s && root != tmp
      modifies this`root, s.Keys
      ensures Between(s', c', left, right, key, order) && root == tmp && c' == c.(t := RotatedLeft(c.t))
      ensures s'.Keys == s.Keys && SameBut(s, s', Moved(c.head, order))
    {
      assert tmp in Nodes(c.t) && root in Nodes(c.t) && Nodes(c.t) <= Moved(c.head, order);
      RotateLeftSplit(s, c.head, c.l, c.t, c.r);
      s' := RotateLeft(tmp, s);
      c' := c.(t := RotatedLeft(c.t));
    }

    method HangLeft(left: Node, right: Node, key: int, ghost s: Links, ghost c: Cut, ghost order: seq<Node>)
      returns (last: Node, ghost s': Links, ghost c': Cut)
      requires Between(s, c, left, right, key, order) && root != null && root.key < key && c.t.right.Branch?
               && root != left
      modifies this`root, s.Keys
      ensures root != null && c' == Cut(c.head, Hung(c.l, c.t.node, c.t.left), c.t.right, c.r)
      ensures Between(s', c', last, right, key, order) && s'.Keys == s.Keys && SameBut(s, s', Moved(c.head, order))
    {
      assert left in Moved(c.head, order);
      LastRight(s, c.t);
      ghost var t := c.t;
      LinkRightSplit(s, c.head, c.l, t, c.r, s[left := s[left].(right := root)]);
      AroundRight(c.l, t, c.r, key);
      last, s' := LinkRight(left, s);
      c' := Cut(c.head, Hung(c.l, t.node, t.left), t.right, c.r);
    }

    method TurnRight(left: Node, right: Node, key: int, ghost s: Links, ghost c: Cut, ghost order: seq<Node>)
      returns (stuck: bool, last: Node, ghost s': Links, ghost c': Cut)
      requires Between(s, c, left, right, key, order) && root != null && root.key < key
      modifies this`root, s.Keys
      ensures Between(s', c', last, right, key, order) && root != null && s'.Keys == s.Keys && c'.head == c.head
      ensures SameBut(s, s', Moved(c.head, order))
      ensures if stuck then Stops(c', key) else |InOrder(c'.t)| < |InOrder(c.t)|
    {
      stuck, last, s', c' := false, left, s, c;
      var tmp := root.right;
      CutApart(s, c, left, right);
      if tmp == null {
        stuck := true;
        return;
      }
      if tmp.key < key {
        s', c' := ZigLeft(tmp, left, right, key, s, c, order);
        CutApart(s', c', left, right);
        if root.right == null {
          stuck := true;
          return;
        }
      }
      last, s', c' := HangLeft(left, right, key, s', c', order);
    }

    /** One turn of the loop. */
    method Turn(left: Node, right: Node, key: int, ghost s: Links, ghost c: Cut, ghost order: seq<Node>)
      returns (stuck: bool, left': Node, right': Node, ghost s': Links, ghost c': Cut)
      requires Between(s, c, left, right, key, order) && root != null && root.key != key
      modifies this`root, s.Keys
      ensures Between(s', c', left', right', key, order) && root != null && Kept(s, s', c.head, order)
              && c'.head == c.head
      ensures if stuck then Stops(c', key) else |InOrder(c'.t)| < |InOrder(c.t)|
    {
      left', right' := left, right;
      if key < root.key {
        stuck, right', s', c' := TurnLeft(left, right, key, s, c, order);
      } else {
        stuck, left', s', c' := TurnRight(left, right, key, s, c, order);
      }
    }

    /** The loop of a splay. */
    method Descend(first: Node, key: int, ghost s0: Links, ghost c0: Cut, ghost order: seq<Node>)
      returns (left: Node, right: Node, ghost s: Links, ghost c: Cut)
      requires root != null && Between(s0, c0, first, first, key, order)
      modifies this`root, s0.Keys
      ensures root != null && Between(s, c, left, right, key, order) && Kept(s0, s, c0.head, order) && c.head == c0.head
      ensures Stops(c, key)
    {
      left, right, s, c := first, first, s0, c0;
      var stuck := false;
      while !stuck && root.key != key
        invariant root != null && Between(s, c, left, right, key, order)
        invariant Kept(s0, s, c0.head, order) && c.head == c0.head
        invariant stuck ==> Stops(c, key)
        decreases !stuck, |InOrder(c.t)|
      {
        ghost var s1 := s;
        stuck, left, right, s, c := Turn(left, right, key, s, c, order);
        KeptOn(s0, s1, s, c0.head, order);
      }
    }

    /** The end of a splay. */
    method Close(head: Node, left: Node, right: Node, key: int, ghost s: Links, ghost c: Cut, ghost order: seq<Node>)
      returns (ghost s': Links)
      requires root != null && Between(s, c, left, right, key, order) && c.head == head
      requires Stops(c, key)
      modifies this, s.Keys
      ensures Sound() && Order() == order && links == s' - {head} && Kept(s, s', head, order)
      ensures root == old(root) && Nearest(order, root, key)
    {
      ghost var s1: Links, s2: Links;
      CutApart(s, c, left, right);
      s1, s2, s' := Assemble(head, left, right, s);
      Closed(s, c, left, right, key, order, s1, s2, s');
      links, shape := s' - {head}, Assembled(c.l, c.t, c.r);
    }

    /** SPLAY: moves the node with the sought key, or a neighbour of its place, to the root. */
    method Splay(key: int)
      requires Sound() && root != null
      modifies this, links.Keys
      ensures Sound() && Order() == old(Order()) && links.Keys == old(links.Keys)
      ensures root != null && Nearest(Order(), root, key)
      ensures SameBut(old(links), links, Nodes(shape))
    {
      ghost var before := links;
      var head := new Node(0);
      ghost var s: Links, c := links[head := Link(null, null)], Cut(head, Top, shape, Top);
      Start(links, s, head, shape);
      ghost var first := s;
      var left, right;
      left, right, s, c := Descend(head, key, s, c, Order());
      ghost var order := Order();
      ghost var s' := Close(head, left, right, key, s, c, order);
      KeptOn(first, s, s', head, order);
      KeptWithout(before, s', head, order);
    }

    /** SPLAY_FIND. */
    method Find(key: int) returns (found: Node?)
      requires Valid()
      modifies this, links.Keys
      ensures Valid() && Order() == old(Order())
      ensures if found == null then Absent(Order(), key) else found in Order() && found.key == key
    {
      if root == null {
        return null;
      }
      Splay(key);
      return if root.key == key then root else null;
    }

    /** The new node over a root that is above it. */
    method PutLow(elm: Node)
      requires Tracked(links) && root != null && root in links && elm !in links
      modifies root, elm, this`links
      ensures Tracked(links) && links == LowLinks(old(links), root, elm)
    {
      links := LowLinks(links, root, elm);
      elm.left := root.left;
      elm.right := root;
      root.left := null;
    }

    /** The new node over a root that is below it. */
    method PutHigh(elm: Node)
      requires Tracked(links) && root != null && root in links && elm !in links
      modifies root, elm, this`links
      ensures Tracked(links) && links == HighLinks(old(links), root, elm)
    {
      links := HighLinks(links, root, elm);
      elm.right := root.right;
      elm.left := root;
      root.right := null;
    }

    /** The first node of an empty tree. */
    method PutFirst(elm: Node)
      requires root == null && Valid()
      modifies this, elm
      ensures Valid() && Inserted(old(Order()), Order(), elm) && old(Order()) == [] && root == elm
    {
      elm.left, elm.right := null, null;
      links, shape := map[elm := Link(null, null)], Branch(Leaf, elm, Leaf);
      root := elm;
      assert Order() == [][..0] + [elm] + [][0..];
    }

    /** The new node over a root that is the one above its place. */
    method InsertOver(elm: Node)
      requires Valid() && elm !in Order() && root != null && elm.key < root.key && Nearest(Order(), root, elm.key)
      modifies this, root, elm
      ensures Valid() && Inserted(old(Order()), Order(), elm) && Absent(old(Order()), elm.key) && root == elm
    {
      HeldRoot(links, root, shape);
      ghost var s, t := links, shape;
      PutLow(elm);
      root := elm;
      InsertLow(s, t, elm);
      Becomes(Low(t, elm));
    }

    /** The new node over a root that is the one below its place. */
    method InsertUnder(elm: Node)
      requires Valid() && elm !in Order() && root != null && root.key < elm.key && Nearest(Order(), root, elm.key)
      modifies this, root, elm
      ensures Valid() && Inserted(old(Order()), Order(), elm) && Absent(old(Order()), elm.key) && root == elm
    {
      HeldRoot(links, root, shape);
      ghost var s, t := links, shape;
      PutHigh(elm);
      root := elm;
      InsertHigh(s, t, elm);
      Becomes(High(t, elm));
    }

    /** SPLAY_INSERT. */
    method Insert(elm: Node) returns (existing: Node?)
      requires Valid()
      modifies this, links.Keys, elm
      ensures Valid() && (elm in old(Order()) ==> existing == elm)
      ensures if existing != null then existing in old(Order()) && existing.key == elm.key && Order() == old(Order())
              else Inserted(old(Order()), Order(), elm) && Absent(old(Order()), elm.key)
      ensures root == if existing != null then existing else elm
    {
      if root == null {
        PutFirst(elm);
      } else {
        Splay(elm.key);
        OnlyIfSame(Order(), root, elm);
        if elm.key < root.key {
          InsertOver(elm);
        } else if root.key < elm.key {
          InsertUnder(elm);
        } else {
          OneWithKey(Order(), root, elm.key);
          return root;
        }
      }
      return null;
    }

    /** SPLAY_REMOVE. */
    method Remove(elm: Node) returns (removed: Node?)
      requires Valid()
      modifies this, links.Keys
      ensures Valid()
      ensures if removed == null then Order() == old(Order()) && Absent(Order(), elm.key)
              else removed == elm && Removed(old(Order()), Order(), elm.key)
    {
      if root == null {
        return null;
      }
      Splay(elm.key);
      if elm.key != root.key {
        return null;
      }
      DropRoot();
      return elm;
    }

    /** Taking the root away. */
    method DropRoot()
      requires Valid() && root != null
      modifies this, links.Keys
      ensures Valid() && Removed(old(Order()), Order(), old(root.key))
    {
      RootChildren(links, shape);
      if root.left == null {
        DropFirst();
      } else {
        DropInner();
      }
    }

    method DropFirst()
      requires Valid() && root != null && shape.Branch? && shape.left.Leaf?
      modifies this
      ensures Valid() && Removed(old(Order()), Order(), old(root.key))
    {
      ghost var s, t := links, shape;
      ToRight();
      RemoveFirst(s, t);
      Forget(s - {t.node});
    }

    method ToRight()
      requires Sound() && root != null && shape.Branch?
      modifies this`root, this`shape
      ensures Sound() && old(shape).node in links && root == links[old(shape).node].right && shape == old(shape).right
    {
      RootChildren(links, shape);
      root, shape := root.right, shape.right;
    }

    /** Forgets the links of nodes that are no longer in the tree. */
    ghost method Forget(s: Links)
      requires Tracked(links) && s.Keys <= links.Keys && SameBut(s, links, {})
      modifies this`links
      ensures Tracked(links) && links == s
    {
      links := s;
    }

    /** Taking the root away where it has nodes to its left: splaying them brings up one that has a free right link. */
    method DropInner()
      requires Valid() && root != null && shape.Branch? && shape.left.Branch? && root.left == shape.left.node
      modifies this, links.Keys
      ensures Valid() && Removed(old(Order()), Order(), old(root.key))
    {
      ghost var s, t := links, shape;
      var tmp, key := root.right, root.key;
      RightChild(s);
      ToLeft();
      Splay(key);
      HangBack(tmp, s, t);
    }

    lemma RightChild(s: Links)
      requires Tracked(s) && root != null && Holds(s, root, shape)
      ensures root in s && root == shape.node && root.right == s[root].right
    {
    }

    /** Hanging what was to the right of the root of t on the root. */
    method HangBack(tmp: Node?, ghost s: Links, ghost t: Shape)
      requires t.Branch? && Holds(s, t.node, t) && Increasing(InOrder(t)) && s.Keys == Nodes(t) && t.node in s
               && tmp == s[t.node].right
      requires Sound() && root != null && InOrder(shape) == InOrder(t.left) && Nearest(InOrder(shape), root, t.node.key)
      requires links.Keys == s.Keys && SameBut(s, links, Nodes(shape))
      modifies this, root
      ensures Valid() && Removed(InOrder(t), Order(), t.node.key)
    {
      HeldRoot(links, root, shape);
      ghost var s1, l := links, shape;
      Hang(tmp, t.node);
      RemoveInner(s, s1, t, l);
      Becomes(Branch(l.left, l.node, t.right));
    }

    ghost method Becomes(t: Shape)
      requires Tracked(links) && Holds(links, root, t) && Increasing(InOrder(t)) && links.Keys == Nodes(t)
      modifies this`shape
      ensures Valid() && shape == t && root == old(root)
    {
      shape := t;
    }

    method ToLeft()
      requires Sound() && root != null && shape.Branch?
      modifies this`root, this`shape
      ensures Sound() && root == old(root.left) && shape == old(shape).left
    {
      RootChildren(links, shape);
      root, shape := root.left, shape.left;
    }

    method Hang(tmp: Node?, ghost gone: Node)
      requires Tracked(links) && root != null && root in links
      modifies root, this`links
      ensures Tracked(links) && links == JoinedLinks(old(links), gone, root, tmp)
    {
      links := JoinedLinks(links, gone, root, tmp);
      root.right := tmp;
    }

    /** SPLAY_NEXT, for a node of the tree. */
    method Next(elm: Node) returns (next: Node?)
      requires Valid() && elm in Order()
      modifies this, links.Keys
      ensures Valid() && Order() == old(Order()) && Follows(Order(), elm, next)
    {
      Splay(elm.key);
      ghost var t := shape;
      SplayedTo(t, elm);
      HeldChildren(links, t);
      AfterRoot(t);
      next := elm.right;
      if next != null {
        next := First(next, links, t.right);
      }
    }
  }

  /** Down the left links. */
  method First(from: Node, ghost s: Links, ghost t: Shape) returns (first: Node)
    requires Tracked(s) && t.Branch? && Holds(s, from, t)
    ensures first == InOrder(t)[0]
  {
    first := from;
    ghost var u := t;
    FirstLeft(u);
    while first.left != null
      invariant u.Branch? && Holds(s, first, u) && InOrder(u)[0] == InOrder(t)[0]
      invariant InOrder(u)[0] == if u.left.Branch? then InOrder(u.left)[0] else u.node
      decreases u
    {
      first, u := first.left, u.left;
      FirstLeft(u);
    }
  }

  datatype Cut = Cut(head: Node, l: Spine, t: Shape, r: Spine)

  /** Where a splay's loop ends: at the key, or at the end of the way towards it. */
  ghost predicate Stops(c: Cut, key: int) {
    && c.t.Branch?
    && (c.t.node.key == key || (key < c.t.node.key && c.t.left.Leaf?) || (c.t.node.key < key && c.t.right.Leaf?))
  }

  ghost function Moved(head: Node, order: seq<Node>): set<Node> {
    {head} + set n | n in order
  }

  /** Every other node keeps its links. */
  ghost predicate Kept(s: Links, s': Links, head: Node, order: seq<Node>) {
    s'.Keys == s.Keys && SameBut(s, s', Moved(head, order))
  }

  lemma KeptOn(s: Links, s1: Links, s2: Links, head: Node, order: seq<Node>)
    requires Kept(s, s1, head, order) && Kept(s1, s2, head, order)
    ensures Kept(s, s2, head, order)
  {
  }

  lemma CutApart(s: Links, c: Cut, left: Node, right: Node)
    requires Split(s, c.head, c.l, c.t, c.r) && left == Last(c.head, c.l) && right == Last(c.head, c.r)
    ensures c.t.node != left && c.t.node != right && Children(s, c.t)
  {
    SplitApart(c.l, c.t, c.r);
    assert c.t.node in Nodes(c.t);
    BranchApart(c.t);
    HeldChildren(s, c.t);
  }

  /** What the end of a splay makes of the three trees. */
  lemma Closed(s: Links, c: Cut, left: Node, right: Node, key: int, order: seq<Node>, s1: Links, s2: Links, s': Links)
    requires Split(s, c.head, c.l, c.t, c.r) && left == Last(c.head, c.l) && right == Last(c.head, c.r)
    requires left in s && right in s && c.t.node in s && Stops(c, key)
    requires Across(c.l, c.t, c.r) == order && Around(c.l, c.r, key)
    requires s1 == s[left := s[left].(right := s[c.t.node].left)]
    requires s2 == s1[right := s1[right].(left := s1[c.t.node].right)]
    requires s' == s2[c.t.node := Link(s2[c.head].right, s2[c.head].left)]
    ensures Holds(s' - {c.head}, c.t.node, Assembled(c.l, c.t, c.r)) && InOrder(Assembled(c.l, c.t, c.r)) == order
    ensures Increasing(order) && Nearest(order, c.t.node, key) && Kept(s, s', c.head, order)
  {
    ClosedKept(s, c, left, right, order, s');
    NearestAcross(c.l, c.t, c.r, key);
    AssembleSplit(s, c.head, c.l, c.t, c.r, s1, s2, s');
    Dropped(s', c.head, c.t.node, Assembled(c.l, c.t, c.r));
  }

  lemma ClosedKept(s: Links, c: Cut, left: Node, right: Node, order: seq<Node>, s': Links)
    requires left == Last(c.head, c.l) && right == Last(c.head, c.r) && c.t.Branch?
    requires left in s && right in s && c.t.node in s && Across(c.l, c.t, c.r) == order
    requires s'.Keys == s.Keys && SameBut(s, s', {left, right, c.t.node})
    ensures Kept(s, s', c.head, order)
  {
    assert left == c.head || left in SpineNodes(c.l);
    assert right == c.head || right in SpineNodes(c.r);
    assert c.t.node in Nodes(c.t);
    assert {left, right, c.t.node} <= Moved(c.head, order);
  }

  lemma KeptWithout(s: Links, s': Links, head: Node, order: seq<Node>)
    requires head !in s && Kept(s[head := Link(null, null)], s', head, order)
    ensures SameBut(s, s' - {head}, set n | n in order) && (s' - {head}).Keys == s.Keys
  {
    var s0 := s[head := Link(null, null)];
    forall n | n in s && n !in order ensures n in s' - {head} && (s' - {head})[n] == s[n] {
      assert n in s0 && n !in Moved(head, order);
    }
  }
}
