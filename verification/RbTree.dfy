/** The red-black tree of tree.h: RB_INSERT, RB_REMOVE, the lookups and the traversal, working in place on the nodes'
    pointers and colours. */
module RbTree {
  import opened RbShape
  import opened RbSplice

  class Tree {
    var root: Node?
    ghost var order: seq<Node>
    ghost var nodes: set<Node>
    ghost var links: Links
    ghost var col: Paint
    ghost var bh: Heights

    // RB_INIT
    constructor ()
      ensures Valid() && order == [] && nodes == {}
    {
      root := null;
      order, nodes, links, col, bh := [], {}, map[], map[], map[];
    }

    // links and col are what the nodes' own fields say.
    ghost predicate Tracked()
      reads this`nodes, this`links, nodes`left, nodes`right, nodes`parent
    {
      && nodes == links.Keys
      && (forall n {:trigger links[n]} ::
            n in nodes ==> links[n].left == n.left && links[n].right == n.right && links[n].parent == n.parent)
    }

    ghost predicate Painted()
      reads this`nodes, this`col, nodes`color
    {
      forall n {:trigger n.color} {:trigger n in col} :: n in nodes ==> n in col && col[n] == n.color
    }

    ghost predicate Linking()
      reads this`root, this`order, this`nodes, this`links, nodes`left, nodes`right, nodes`parent
    {
      Tracked() && Linked(root, links, 0, |order|) && OrderedBy(order, links)
    }

    ghost predicate Near(elm: Node, tmp: Node, inner: Node?)
      reads this`root, this`nodes, nodes`left, nodes`right, nodes`parent
    {
      && elm in nodes && tmp in nodes && tmp != elm
      && (inner != null ==> inner in nodes && inner != elm && inner != tmp)
      && (elm.parent != null ==> elm.parent in nodes && elm.parent != elm && elm.parent != tmp && elm.parent != inner)
      && (elm.parent != null ==>
            elm.parent.left != elm.parent.right && (elm.parent.left == elm || elm.parent.right == elm))
      && (elm.parent == null <==> root == elm)
      && (forall n :: n in nodes && n != elm.parent ==> n.left != elm && n.right != elm)
    }

    method ReplaceChild(p: Node?, elm: Node, tmp: Node?)
      requires p != null ==> p in nodes && (p.left == elm || p.right == elm) && p.left != p.right
      requires forall n :: n in nodes && n != p ==> n.left != elm && n.right != elm
      modifies this`root, nodes`left, nodes`right
      ensures root == if p == null then tmp else old(root)
      ensures forall n :: n in nodes ==> n.left == if old(n.left) == elm then tmp else old(n.left)
      ensures forall n :: n in nodes ==> n.right == if old(n.right) == elm then tmp else old(n.right)
    {
      if p != null {
        if p.left == elm {
          p.left := tmp;
        } else {
          p.right := tmp;
        }
      } else {
        root := tmp;
      }
    }

    lemma LinkedNear(elm: Node, tmp: Node, inner: Node?)
      requires Linking() && elm in nodes && tmp in nodes
      requires (elm.right == tmp && inner == tmp.left) || (elm.left == tmp && inner == tmp.right)
      ensures Near(elm, tmp, inner)
    {
      var s, N := links, |order|;
      assert Local(root, s, 0, N, elm) && Local(root, s, 0, N, tmp);
      assert inner != null ==> Local(root, s, 0, N, inner);
      assert elm.parent != null ==> Local(root, s, 0, N, elm.parent);
      forall n | n in nodes && n != elm.parent ensures n.left != elm && n.right != elm {
        assert Local(root, s, 0, N, n);
      }
    }

    method RotateLeftLinks(elm: Node) returns (tmp: Node)
      requires elm.right != null && Near(elm, elm.right, elm.right.left)
      modifies this`root, nodes`left, nodes`right, nodes`parent
      ensures tmp == old(elm.right) && tmp in nodes
      ensures root == NewRoot(old(root), elm, tmp)
      ensures forall n ::
                n in nodes ==> n.left == if n == tmp then elm else if old(n.left) == elm then tmp else old(n.left)
      ensures forall n ::
                n in nodes ==>
                  n.right == if n == elm then old(tmp.left) else if old(n.right) == elm then tmp else old(n.right)
      ensures forall n ::
                n in nodes ==>
                  n.parent ==
                    if n == elm then tmp
                    else if n == tmp then old(elm.parent) else if n == old(tmp.left) then elm else old(n.parent)
    {
      tmp := elm.right;
      elm.right := tmp.left;
      if tmp.left != null {
        tmp.left.parent := elm;
      }
      tmp.parent := elm.parent;
      ReplaceChild(elm.parent, elm, tmp);
      tmp.left := elm;
      elm.parent := tmp;
    }

    method RotateRightLinks(elm: Node) returns (tmp: Node)
      requires elm.left != null && Near(elm, elm.left, elm.left.right)
      modifies this`root, nodes`left, nodes`right, nodes`parent
      ensures tmp == old(elm.left) && tmp in nodes
      ensures root == NewRoot(old(root), elm, tmp)
      ensures forall n ::
                n in nodes ==> n.right == if n == tmp then elm else if old(n.right) == elm then tmp else old(n.right)
      ensures forall n ::
                n in nodes ==>
                  n.left == if n == elm then old(tmp.right) else if old(n.left) == elm then tmp else old(n.left)
      ensures forall n ::
                n in nodes ==>
                  n.parent ==
                    if n == elm then tmp
                    else if n == tmp then old(elm.parent) else if n == old(tmp.right) then elm else old(n.parent)
    {
      tmp := elm.left;
      elm.left := tmp.right;
      if tmp.right != null {
        tmp.right.parent := elm;
      }
      tmp.parent := elm.parent;
      ReplaceChild(elm.parent, elm, tmp);
      tmp.right := elm;
      elm.parent := tmp;
    }

    method RotateLeftView(elm: Node) returns (tmp: Node)
      requires Tracked() && elm.right != null && Near(elm, elm.right, elm.right.left)
      modifies this`root, nodes`left, nodes`right, nodes`parent, this`links
      ensures Tracked() && root == NewRoot(old(root), elm, tmp)
      ensures RotatedLeft(old(links), links, elm, tmp)
    {
      ghost var s := links;
      tmp := RotateLeftLinks(elm);
      links := map n | n in s :: RotLCell(s, elm, tmp, n);
    }

    method RotateLeft(elm: Node) returns (tmp: Node)
      requires Linking() && Painted() && elm in nodes && elm.right != null
      modifies this`root, nodes`left, nodes`right, nodes`parent, this`links
      ensures Linking() && Painted() && root == NewRoot(old(root), elm, tmp)
      ensures RotatedLeft(old(links), links, elm, tmp)
    {
      ghost var s, N := links, |order|;
      assert elm.right in nodes by { assert Local(root, s, 0, N, elm); }
      LinkedNear(elm, elm.right, elm.right.left);
      tmp := RotateLeftView(elm);
      RotateLeftLinked(old(root), s, links, 0, N, elm, tmp);
      KeepOrdered(order, s, links);
    }

    method RotateRightView(elm: Node) returns (tmp: Node)
      requires Tracked() && elm.left != null && Near(elm, elm.left, elm.left.right)
      modifies this`root, nodes`left, nodes`right, nodes`parent, this`links
      ensures Tracked() && root == NewRoot(old(root), elm, tmp)
      ensures RotatedRight(old(links), links, elm, tmp)
    {
      ghost var s := links;
      tmp := RotateRightLinks(elm);
      links := map n | n in s :: RotRCell(s, elm, tmp, n);
    }

    method RotateRight(elm: Node) returns (tmp: Node)
      requires Linking() && Painted() && elm in nodes && elm.left != null
      modifies this`root, nodes`left, nodes`right, nodes`parent, this`links
      ensures Linking() && Painted() && root == NewRoot(old(root), elm, tmp)
      ensures RotatedRight(old(links), links, elm, tmp)
    {
      ghost var s, N := links, |order|;
      assert elm.left in nodes by { assert Local(root, s, 0, N, elm); }
      LinkedNear(elm, elm.left, elm.left.right);
      tmp := RotateRightView(elm);
      RotateRightLinked(old(root), s, links, 0, N, elm, tmp);
      KeepOrdered(order, s, links);
    }

    method SetColor(n: Node, c: Color)
      requires Painted() && n in nodes
      modifies n`color, this`col
      ensures Painted() && col == old(col)[n := c]
      ensures old(Linking()) ==> Linking()
    {
      n.color := c;
      col := col[n := c];
    }

    method SetBlackRed(black: Node, red: Node)
      requires Painted() && black in nodes && red in nodes && black != red
      modifies black`color, red`color, this`col
      ensures Painted() && col == old(col)[black := Black][red := Red]
    {
      SetColor(black, Black);
      SetColor(red, Red);
    }

    method TakeColor(w: Node, p: Node, u: Node)
      requires Painted() && p in nodes && w in nodes && u in nodes && p != w && u != p && u != w
      modifies w`color, p`color, u`color, this`col
      ensures Painted() && col == old(col)[w := old(col)[p]][p := Black][u := Black]
    {
      SetColor(w, p.color);
      SetColor(p, Black);
      SetColor(u, Black);
    }

    ghost predicate Coloured(skip: Node?)
      reads this`nodes, this`links, this`col, this`bh, nodes`color
    {
      && Painted()
      && Balanced(links, col, bh, null) && NoRedRed(links, col, skip)
    }

    ghost function Span(n: Node): int
      requires n in links
      reads this`links
    {
      links[n].at.hi - links[n].at.lo
    }

    // Below the root: elm, its parent and its grandparent are different nodes of the tree.
    lemma Family(elm: Node)
      requires Linking() && elm in nodes && elm.parent != null
      ensures AllTied(links) && elm.parent == links[elm].parent && elm.parent in nodes && elm.parent != elm
      ensures elm.parent.parent == links[elm.parent].parent
      ensures elm.parent.parent == null ==> elm.parent == root
      ensures var g := elm.parent.parent; g != null ==> g in nodes && g != elm && g != elm.parent
      ensures var g := elm.parent.parent; g != null ==> Span(elm) < Span(g) <= |order|
    {
      LinkedTied(root, links, 0, |order|);
      assert Local(root, links, 0, |order|, elm);
      assert Local(root, links, 0, |order|, elm.parent);
      var g := elm.parent.parent;
      if g != null {
        assert Local(root, links, 0, |order|, g);
      }
    }

    // Recolouring below a red uncle, with the heights that go with it.
    method RedUncleStep(elm: Node, parent: Node, gparent: Node, tmp: Node)
      requires Tracked() && Coloured(elm) && RedUncle(links, col, bh, elm, parent, gparent, tmp)
      modifies nodes`color, this`col, this`bh
      ensures Coloured(gparent) && col == old(col)[tmp := Black][parent := Black][gparent := Red]
    {
      ghost var col0, bh0 := col, bh;
      SetColor(tmp, Black);
      SetBlackRed(parent, gparent);
      bh := bh[tmp := Bh(bh, tmp) + 1][parent := Bh(bh, parent) + 1];
      InsertRecolour(links, col0, bh0, elm, parent, gparent, tmp, col, bh);
    }

    // elm, on the right of its red parent, is rotated above it.
    method InnerLeftStep(elm: Node, parent: Node)
      requires Linking() && Coloured(elm) && AllTied(links) && elm in nodes && parent in nodes
               && links[parent].right == elm && elm != parent
      requires IsRed(col, elm) && IsRed(col, parent)
      modifies this`root, this`links, nodes`left, nodes`right, nodes`parent
      requires !IsRed(col, root)
      ensures Linking() && Coloured(parent) && root == old(root)
      ensures links[parent].parent == elm && links[elm].parent == old(links)[parent].parent && links[elm].left == parent
      ensures forall n {:trigger links[n]} :: n in nodes && n != parent && n != elm ==>
                links[n].left == (if old(links)[n].left == parent then elm else old(links)[n].left) &&
                links[n].right == (if old(links)[n].right == parent then elm else old(links)[n].right)
    {
      ghost var s := links;
      var tmp := RotateLeft(parent);
      InsertInnerLeft(s, links, col, bh, elm, parent);
    }

    // gparent turns red and is rotated below the blackened parent.
    method OuterLeftStep(elm: Node, parent: Node, gparent: Node)
      requires Linking() && Coloured(elm) && AllTied(links) && elm in nodes && parent in nodes && gparent in nodes
      requires elm != parent && parent != gparent && elm != gparent
      requires links[elm].parent == parent && links[parent].parent == gparent && links[parent].right == elm
               && links[gparent].right == parent
      requires IsRed(col, elm) && IsRed(col, parent) && !IsRed(col, links[gparent].left)
      modifies this`root, this`links, this`col, this`bh, nodes`left, nodes`right, nodes`parent, nodes`color
      requires !IsRed(col, root)
      ensures Linking() && Coloured(null) && !IsRed(col, root)
      ensures col == old(col)[parent := Black][gparent := Red] && links[elm].parent == parent
    {
      assert Tied(links, parent);
      ghost var s, col0, bh0 := links, col, bh;
      SetBlackRed(parent, gparent);
      bh := bh[parent := Bh(bh, parent) + 1][gparent := Bh(bh, parent)];
      assert Linked(root, links, 0, |order|) && root != null;
      RootStaysBlack(s, col0, root, gparent, parent, col);
      var tmp := RotateLeft(gparent);
      InsertOuterLeft(s, links, col0, bh0, elm, parent, gparent, col, bh);
    }

    // elm, on the left of its red parent, is rotated above it.
    method InnerRightStep(elm: Node, parent: Node)
      requires Linking() && Coloured(elm) && AllTied(links) && elm in nodes && parent in nodes
               && links[parent].left == elm && elm != parent
      requires IsRed(col, elm) && IsRed(col, parent)
      modifies this`root, this`links, nodes`left, nodes`right, nodes`parent
      requires !IsRed(col, root)
      ensures Linking() && Coloured(parent) && root == old(root)
      ensures links[parent].parent == elm && links[elm].parent == old(links)[parent].parent
              && links[elm].right == parent
      ensures forall n {:trigger links[n]} :: n in nodes && n != parent && n != elm ==>
                links[n].left == (if old(links)[n].left == parent then elm else old(links)[n].left) &&
                links[n].right == (if old(links)[n].right == parent then elm else old(links)[n].right)
    {
      ghost var s := links;
      var tmp := RotateRight(parent);
      InsertInnerRight(s, links, col, bh, elm, parent);
    }

    // gparent turns red and is rotated below the blackened parent.
    method OuterRightStep(elm: Node, parent: Node, gparent: Node)
      requires Linking() && Coloured(elm) && AllTied(links) && elm in nodes && parent in nodes && gparent in nodes
      requires elm != parent && parent != gparent && elm != gparent
      requires links[elm].parent == parent && links[parent].parent == gparent && links[parent].left == elm
               && links[gparent].left == parent
      requires IsRed(col, elm) && IsRed(col, parent) && !IsRed(col, links[gparent].right)
      modifies this`root, this`links, this`col, this`bh, nodes`left, nodes`right, nodes`parent, nodes`color
      requires !IsRed(col, root)
      ensures Linking() && Coloured(null) && !IsRed(col, root)
      ensures col == old(col)[parent := Black][gparent := Red] && links[elm].parent == parent
    {
      assert Tied(links, parent);
      ghost var s, col0, bh0 := links, col, bh;
      SetBlackRed(parent, gparent);
      bh := bh[parent := Bh(bh, parent) + 1][gparent := Bh(bh, parent)];
      assert Linked(root, links, 0, |order|) && root != null;
      RootStaysBlack(s, col0, root, gparent, parent, col);
      var tmp := RotateRight(gparent);
      InsertOuterRight(s, links, col0, bh0, elm, parent, gparent, col, bh);
    }

    method PaintRootBlack(ghost skip: Node)
      requires Linking() && Coloured(skip) && root != null
      requires skip != root && skip in nodes ==> RedAt(links, col, skip)
      modifies this`col, this`bh, nodes`color
      ensures Coloured(null) && !IsRed(col, root)
    {
      LinkedTied(root, links, 0, |order|);
      RootBlackened(links, col, bh, root, skip);
      bh := bh[root := Bh(bh, root) + 1 - Step(col, root)];
      SetColor(root, Black);
    }


    // The rotating half of the fix-up, for a parent on the left of gparent: afterwards elm's parent is black.
    method RaiseFromLeft(elm0: Node, parent0: Node, gparent: Node) returns (elm: Node)
      requires Linking() && Coloured(elm0) && AllTied(links) && elm0 in nodes && parent0 in nodes && gparent in nodes
      requires elm0 != parent0 && parent0 != gparent && elm0 != gparent
      requires IsRed(col, elm0) && IsRed(col, parent0) && !IsRed(col, links[gparent].right) && !IsRed(col, root)
      requires links[elm0].parent == parent0 && links[parent0].parent == gparent && links[gparent].left == parent0
      modifies this`root, this`links, this`col, this`bh, nodes`left, nodes`right, nodes`parent, nodes`color
      ensures Linking() && Coloured(null) && !IsRed(col, root)
      ensures elm in nodes && IsRed(col, elm) && links[elm].parent != null && !IsRed(col, links[elm].parent)
    {
      assert Tied(links, elm0) && Tied(links, parent0) && Tied(links, gparent);
      var parent := parent0;
      elm := elm0;
      if parent.right == elm {
        InnerLeftStep(elm, parent);
        parent, elm := elm, parent;
        LinkedTied(root, links, 0, |order|);
      }
      OuterRightStep(elm, parent, gparent);
    }

    // The rotating half of the fix-up, for a parent on the right of gparent: afterwards elm's parent is black.
    method RaiseFromRight(elm0: Node, parent0: Node, gparent: Node) returns (elm: Node)
      requires Linking() && Coloured(elm0) && AllTied(links) && elm0 in nodes && parent0 in nodes && gparent in nodes
      requires elm0 != parent0 && parent0 != gparent && elm0 != gparent
      requires IsRed(col, elm0) && IsRed(col, parent0) && !IsRed(col, links[gparent].left) && !IsRed(col, root)
      requires links[elm0].parent == parent0 && links[parent0].parent == gparent && links[gparent].right == parent0
      modifies this`root, this`links, this`col, this`bh, nodes`left, nodes`right, nodes`parent, nodes`color
      ensures Linking() && Coloured(null) && !IsRed(col, root)
      ensures elm in nodes && IsRed(col, elm) && links[elm].parent != null && !IsRed(col, links[elm].parent)
    {
      assert Tied(links, elm0) && Tied(links, parent0) && Tied(links, gparent);
      var parent := parent0;
      elm := elm0;
      if parent.left == elm {
        InnerRightStep(elm, parent);
        parent, elm := elm, parent;
        LinkedTied(root, links, 0, |order|);
      }
      OuterLeftStep(elm, parent, gparent);
    }

    // One turn of the loop of RB_INSERT_COLOR.
    method InsertColorTurn(x: Node) returns (elm: Node)
      requires Linking() && Coloured(x) && x in nodes && IsRed(col, x) && !IsRed(col, root)
               && IsRed(col, links[x].parent)
      modifies this`root, this`links, this`col, this`bh, nodes`left, nodes`right, nodes`parent, nodes`color
      ensures Linking() && Coloured(elm) && elm in nodes && IsRed(col, elm)
      ensures IsRed(col, root) ==> root == elm
      ensures IsRed(col, links[elm].parent) ==> old(Span(x)) < Span(elm) <= |order|
    {
      elm := x;
      var parent := elm.parent;
      Family(elm);
      var gparent := parent.parent;
      assert Tied(links, elm) && Tied(links, parent) && Tied(links, gparent);
      if parent == gparent.left {
          var tmp := gparent.right;
          if tmp != null && tmp.color == Red {
            RedUncleStep(elm, parent, gparent, tmp);
            elm := gparent;
          } else {
            elm := RaiseFromLeft(elm, parent, gparent);
          }
      } else {
          var tmp := gparent.left;
          if tmp != null && tmp.color == Red {
            RedUncleStep(elm, parent, gparent, tmp);
            elm := gparent;
          } else {
            elm := RaiseFromRight(elm, parent, gparent);
          }
      }
    }

    // RB_INSERT_COLOR
    method InsertColor(x: Node)
      requires Linking() && Coloured(x) && x in nodes && IsRed(col, x)
      requires IsRed(col, root) ==> root == x
      modifies this`root, this`links, this`col, this`bh, nodes`left, nodes`right, nodes`parent, nodes`color
      ensures Linking() && Coloured(null) && !IsRed(col, root)
    {
      var elm: Node := x;
      while elm.parent != null && elm.parent.color == Red
        invariant Linking() && Coloured(elm) && elm in nodes && IsRed(col, elm)
        invariant IsRed(col, root) ==> root == elm
        decreases if IsRed(col, links[elm].parent) then |order| + 1 - Span(elm) else 0
      {
        assert Local(root, links, 0, |order|, elm);
        elm := InsertColorTurn(elm);
      }
      assert Local(root, links, 0, |order|, elm);
      assert RedAt(links, col, elm);
      PaintRootBlack(elm);
    }

    ghost predicate Valid()
      reads this, nodes
    {
      Linking() && Sorted(order) && Coloured(null) && !IsRed(col, root)
    }

    // Hanging the red leaf elm into an empty slot.
    method AttachLinks(elm: Node, parent: Node?, comp: int, ghost i: int)
      requires Tracked() && elm !in nodes && (parent != null ==> parent in nodes && comp != 0)
      modifies this`root, this`nodes, this`links, nodes`left, nodes`right, elm
      ensures nodes == old(nodes) + {elm} && elm.color == Red
      ensures Tracked() && Attached(old(links), links, elm, parent, i, comp < 0)
      ensures root == if parent == null then elm else old(root)
    {
      ghost var s := links;
      elm.parent := parent;
      elm.left, elm.right := null, null;
      elm.color := Red;
      if parent != null {
        if comp < 0 {
          parent.left := elm;
        } else {
          parent.right := elm;
        }
      } else {
        root := elm;
      }
      nodes := nodes + {elm};
      links := RbSplice.Attach(s, elm, parent, i, comp < 0);
      assert nodes == links.Keys;
      forall n | n in nodes
        ensures links[n].left == n.left && links[n].right == n.right && links[n].parent == n.parent
      {
        if n != elm {
          assert s[n].left == old(n.left);
        }
      }
    }

    ghost method PaintLeaf(elm: Node)
      requires elm in nodes && elm.color == Red
      requires forall n {:trigger n.color} {:trigger n in col} ::
                 n in nodes && n != elm ==> n in col && col[n] == n.color
      modifies this`col, this`bh
      ensures Painted() && col == old(col)[elm := Red] && bh == old(bh)[elm := 0]
    {
      col := col[elm := Red];
      bh := bh[elm := 0];
    }

    method Attach(elm: Node, parent: Node?, comp: int, ghost i: int)
      requires Linking() && Coloured(null) && !IsRed(col, root) && elm !in nodes && 0 <= i <= |order|
      requires parent != null ==> comp != 0
      requires Slot(root, links, parent, i, comp < 0)
      modifies this, nodes`left, nodes`right, elm
      ensures nodes == old(nodes) + {elm} && order == old(order)[..i] + [elm] + old(order)[i..]
      ensures Linking() && Coloured(elm) && IsRed(col, elm)
      ensures IsRed(col, root) ==> root == elm
    {
      ghost var s, N := links, |order|;
      AttachLinks(elm, parent, comp, i);
      ghost var order' := order[..i] + [elm] + order[i..];
      assert |order'| == N + 1;
      assert Linked(root, links, 0, |order'|) by {
        AttachedLinked(old(root), s, links, N, elm, parent, i, comp < 0);
      }
      assert Balanced(links, col[elm := Red], bh[elm := 0], null) && NoRedRed(links, col[elm := Red], elm) by {
        AttachedPaint(old(root), s, links, N, elm, parent, i, comp < 0, col, bh, col[elm := Red]);
      }
      assert OrderedBy(order', links) by {
        AttachedOrdered(s, links, elm, parent, i, comp < 0, order);
      }
      order := order';
      PaintLeaf(elm);
    }

    // The node the descent looks at, and the range of positions still open to it.
    ghost predicate Descending(key: int, tmp: Node?, parent: Node?, comp: int, lo: int, hi: int)
      requires OrderedBy(order, links)
      reads this
    {
      && 0 <= lo <= hi <= |order|
      && (if tmp == null then lo == hi else tmp in links && links[tmp].at.lo == lo && links[tmp].at.hi == hi)
      && (parent == null ==> tmp == root && lo == 0 && hi == |order|)
      && (parent != null ==> parent in links && comp != 0)
      && (parent != null && comp < 0 ==> tmp == links[parent].left && hi == links[parent].at.pos)
      && (parent != null && comp > 0 ==> tmp == links[parent].right && lo == links[parent].at.pos + 1)
      && (forall j :: 0 <= j < lo ==> order[j].key < key)
      && (forall j :: hi <= j < |order| ==> key < order[j].key)
    }

    lemma DescendLeft(key: int, tmp: Node, parent: Node?, comp: int, lo: int, hi: int)
      requires Linking() && Sorted(order) && Descending(key, tmp, parent, comp, lo, hi)
      requires key < tmp.key
      ensures lo <= links[tmp].at.pos < hi
      ensures Descending(key, tmp.left, tmp, key - tmp.key, lo, links[tmp].at.pos)
    {
      assert Local(root, links, 0, |order|, tmp);
      assert order[links[tmp].at.pos] == tmp;
    }

    lemma DescendRight(key: int, tmp: Node, parent: Node?, comp: int, lo: int, hi: int)
      requires Linking() && Sorted(order) && Descending(key, tmp, parent, comp, lo, hi)
      requires key > tmp.key
      ensures lo <= links[tmp].at.pos < hi
      ensures Descending(key, tmp.right, tmp, key - tmp.key, links[tmp].at.pos + 1, hi)
    {
      assert Local(root, links, 0, |order|, tmp);
      assert order[links[tmp].at.pos] == tmp;
    }

    // The descent of RB_INSERT: an equal key, or the slot where the new key belongs.
    method Descend(key: int) returns (tmp: Node?, parent: Node?, comp: int, ghost i: int)
      requires Linking() && Sorted(order)
      ensures tmp != null ==> tmp in links && tmp.key == key
      ensures tmp == null ==>
                0 <= i <= |order| && Slot(root, links, parent, i, comp < 0) && (parent != null ==> comp != 0)
      ensures tmp == null ==> forall j :: 0 <= j < i ==> order[j].key < key
      ensures tmp == null ==> forall j :: i <= j < |order| ==> key < order[j].key
    {
      tmp, parent, comp := root, null, 0;
      ghost var lo, hi := 0, |order|;
      if root != null {
        assert Local(root, links, 0, |order|, root);
      }
      while tmp != null
        invariant Descending(key, tmp, parent, comp, lo, hi)
        decreases hi - lo
      {
        ghost var parent0, comp0 := parent, comp;
        parent := tmp;
        comp := key - parent.key;
        if comp < 0 {
          DescendLeft(key, tmp, parent0, comp0, lo, hi);
          hi := links[tmp].at.pos;
          tmp := tmp.left;
        } else if comp > 0 {
          DescendRight(key, tmp, parent0, comp0, lo, hi);
          lo := links[tmp].at.pos + 1;
          tmp := tmp.right;
        } else {
          i := lo;
          return;
        }
      }
      if parent != null {
        EmptySlot(root, links, |order|, order, parent, comp < 0);
      }
      i := lo;
    }

    // A key between two neighbours in order is no node's key.
    lemma NotInTree(elm: Node, i: int)
      requires Linking() && 0 <= i <= |order|
      requires (forall j :: 0 <= j < i ==> order[j].key < elm.key)
               && forall j :: i <= j < |order| ==> elm.key < order[j].key
      ensures elm !in nodes
    {
    }

    // The node with elm's key is elm itself if elm is in the tree.
    lemma SameKey(elm: Node, found: Node)
      requires Linking() && Sorted(order) && elm in nodes && found in nodes && elm.key == found.key
      ensures elm == found
    {
    }

    // RB_INSERT: the node that already has elm's key, or null after elm joined the tree.
    method Insert(elm: Node) returns (found: Node?)
      requires Valid()
      modifies this, nodes, elm
      ensures Valid()
      ensures elm in old(nodes) ==> found == elm
      ensures found == null ==> nodes == old(nodes) + {elm}
      ensures found == null ==> exists i :: 0 <= i <= |old(order)| && order == old(order)[..i] + [elm] + old(order)[i..]
      ensures found != null ==>
                found.key == elm.key && found in old(nodes) && order == old(order) && nodes == old(nodes)
    {
      var parent, comp;
      ghost var i;
      found, parent, comp, i := Descend(elm.key);
      if found == null {
        NotInTree(elm, i);
        Attach(elm, parent, comp, i);
        InsertColor(elm);
        SortedInsert(old(order), i, elm);
      } else if elm in nodes {
        SameKey(elm, found);
      }
    }

    // The short side x of p is on its left: the sibling w exists, and so do the facts the steps below need.
    lemma SiblingRight(p: Node, x: Node?)
      requires Linking() && p in links && links[p].left == x && !IsRed(col, x)
      requires Short(links, col, bh, p, x) && NoRedRed(links, col, null)
               && (x == null ==> links[p].left != links[p].right)
      ensures var w := links[p].right;
        w != null && ShortLeft(links, col, bh, p, x, w) && Bh(bh, w) > 0 && Bh(bh, p) > 0
        && (forall v: Node :: v == links[w].left || v == links[w].right ==> v in links && v != p && v != w && v != x)
    {
      LinkedTied(root, links, 0, |order|);
      var w := links[p].right;
      assert Tied(links, p) && Local(root, links, 0, |order|, p) && Local(root, links, 0, |order|, w);
      assert x != null ==> Local(root, links, 0, |order|, x);
      var g := links[p].parent;
      assert g != null ==> Local(root, links, 0, |order|, g);
    }

    // Red sibling w on the right: rotate it above p and look at p's new right child.
    method RedSiblingLeftStep(p: Node, x: Node?, w: Node)
      requires Linking() && Painted() && ShortLeft(links, col, bh, p, x, w) && IsRed(col, w) && !IsRed(col, root)
      modifies this`root, this`links, this`col, this`bh, nodes`left, nodes`right, nodes`parent, nodes`color
      ensures Linking() && Painted() && Short(links, col, bh, p, x) && NoRedRed(links, col, null)
      ensures p in links && links[p].left == x && links[p].right != null && !IsRed(col, links[p].right) && IsRed(col, p)
              && !IsRed(col, x)
      ensures !IsRed(col, root)
    {
      ghost var s, col0, bh0 := links, col, bh;
      assert Tied(links, p);
      SetBlackRed(w, p);
      bh := bh[w := Bh(bh, w) + 1][p := Bh(bh, w)];
      assert !IsRed(col, NewRoot(root, p, w)) by {
        RootStaysBlack(s, col0, root, p, w, col);
      }
      var tmp := RotateLeft(p);
      LinkedTied(root, links, 0, |order|);
      RemoveRedSiblingLeft(s, links, col0, bh0, p, x, w, col, bh);
    }

    // Black sibling with black children: redden it and move up.
    method BlackNephewsLeftStep(p: Node, x: Node?, w: Node)
      requires Linking() && Painted() && ShortLeft(links, col, bh, p, x, w) && Bh(bh, w) > 0 && Bh(bh, p) > 0
      requires !IsRed(col, w) && !IsRed(col, links[w].left) && !IsRed(col, links[w].right) && !IsRed(col, root)
      modifies w`color, this`col, this`bh
      ensures Linking() && Painted() && !IsRed(col, root)
      ensures Short(links, col, bh, links[p].parent, p) && CleanBut(links, col, p)
    {
      ghost var col0, bh0 := col, bh;
      SetColor(w, Red);
      bh := bh[w := Bh(bh, w) - 1][p := Bh(bh, p) - 1];
      RemoveBlackNephewsLeft(links, col0, bh0, p, x, w, col, bh);
      assert Tied(links, p);
    }

    // Red left nephew v, black right nephew: v becomes the sibling.
    method NearNephewLeftStep(p: Node, x: Node?, w: Node, v: Node)
      requires Linking() && Painted() && ShortLeft(links, col, bh, p, x, w) && Bh(bh, w) > 0 && !IsRed(col, root)
      requires !IsRed(col, w) && !IsRed(col, links[w].right) && IsRed(col, v) && links[w].left == v && v in links
               && v != p && v != x
      modifies this`root, this`links, this`col, this`bh, nodes`left, nodes`right, nodes`parent, nodes`color
      ensures Linking() && Painted() && ShortLeft(links, col, bh, p, x, v) && !IsRed(col, v)
              && IsRed(col, links[v].right)
      ensures !IsRed(col, root)
    {
      ghost var s, col0, bh0 := links, col, bh;
      SetBlackRed(v, w);
      bh := bh[v := Bh(bh, v) + 1][w := Bh(bh, w) - 1];
      assert !IsRed(col, NewRoot(root, w, v)) by {
        RootStaysBlack(s, col0, root, w, v, col);
      }
      var tmp := RotateRight(w);
      LinkedTied(root, links, 0, |order|);
      RemoveNearNephewLeft(s, links, col0, bh0, p, x, w, v, col, bh);
    }

    // Red right nephew u: one rotation restores every height.
    method FarNephewLeftStep(p: Node, x: Node?, w: Node, u: Node)
      requires Linking() && Painted() && ShortLeft(links, col, bh, p, x, w) && !IsRed(col, root)
      requires !IsRed(col, w) && links[w].right == u && IsRed(col, u) && u in links && u != p && u != w && u != x
      modifies this`root, this`links, this`col, this`bh, nodes`left, nodes`right, nodes`parent, nodes`color
      ensures Linking() && Coloured(null) && !IsRed(col, root)
    {
      ghost var s, col0, bh0 := links, col, bh;
      TakeColor(w, p, u);
      bh := bh[w := Bh(bh, p)][p := Bh(bh, w)][u := Bh(bh, u) + 1];
      assert !IsRed(col, NewRoot(root, p, w)) by {
        RootStaysBlack(s, col0, root, p, w, col);
      }
      var tmp := RotateLeft(p);
      assert Balanced(links, col, bh, null) && NoRedRed(links, col, null) by {
        RemoveFarNephewLeft(s, links, col0, bh0, p, x, w, u, col, bh);
      }
    }

    // The short side x of p is on its right: the sibling w exists, and so do the facts the steps below need.
    lemma SiblingLeft(p: Node, x: Node?)
      requires Linking() && p in links && links[p].right == x && !IsRed(col, x)
      requires Short(links, col, bh, p, x) && NoRedRed(links, col, null)
               && (x == null ==> links[p].right != links[p].left)
      ensures var w := links[p].left;
        w != null && ShortRight(links, col, bh, p, x, w) && Bh(bh, w) > 0 && Bh(bh, p) > 0
        && (forall v: Node :: v == links[w].left || v == links[w].right ==> v in links && v != p && v != w && v != x)
    {
      LinkedTied(root, links, 0, |order|);
      var w := links[p].left;
      assert Tied(links, p) && Local(root, links, 0, |order|, p) && Local(root, links, 0, |order|, w);
      assert x != null ==> Local(root, links, 0, |order|, x);
      var g := links[p].parent;
      assert g != null ==> Local(root, links, 0, |order|, g);
    }

    // Red sibling w on the left: rotate it above p and look at p's new left child.
    method RedSiblingRightStep(p: Node, x: Node?, w: Node)
      requires Linking() && Painted() && ShortRight(links, col, bh, p, x, w) && IsRed(col, w) && !IsRed(col, root)
      modifies this`root, this`links, this`col, this`bh, nodes`left, nodes`right, nodes`parent, nodes`color
      ensures Linking() && Painted() && Short(links, col, bh, p, x) && NoRedRed(links, col, null)
      ensures p in links && links[p].right == x && links[p].left != null && !IsRed(col, links[p].left) && IsRed(col, p)
              && !IsRed(col, x)
      ensures !IsRed(col, root)
    {
      ghost var s, col0, bh0 := links, col, bh;
      assert Tied(links, p);
      SetBlackRed(w, p);
      bh := bh[w := Bh(bh, w) + 1][p := Bh(bh, w)];
      assert !IsRed(col, NewRoot(root, p, w)) by {
        RootStaysBlack(s, col0, root, p, w, col);
      }
      var tmp := RotateRight(p);
      LinkedTied(root, links, 0, |order|);
      RemoveRedSiblingRight(s, links, col0, bh0, p, x, w, col, bh);
    }

    // Black sibling with black children: redden it and move up.
    method BlackNephewsRightStep(p: Node, x: Node?, w: Node)
      requires Linking() && Painted() && ShortRight(links, col, bh, p, x, w) && Bh(bh, w) > 0 && Bh(bh, p) > 0
      requires !IsRed(col, w) && !IsRed(col, links[w].left) && !IsRed(col, links[w].right) && !IsRed(col, root)
      modifies w`color, this`col, this`bh
      ensures Linking() && Painted() && !IsRed(col, root)
      ensures Short(links, col, bh, links[p].parent, p) && CleanBut(links, col, p)
    {
      ghost var col0, bh0 := col, bh;
      SetColor(w, Red);
      bh := bh[w := Bh(bh, w) - 1][p := Bh(bh, p) - 1];
      RemoveBlackNephewsRight(links, col0, bh0, p, x, w, col, bh);
      assert Tied(links, p);
    }

    // Red right nephew v, black left nephew: v becomes the sibling.
    method NearNephewRightStep(p: Node, x: Node?, w: Node, v: Node)
      requires Linking() && Painted() && ShortRight(links, col, bh, p, x, w) && Bh(bh, w) > 0 && !IsRed(col, root)
      requires !IsRed(col, w) && !IsRed(col, links[w].left) && IsRed(col, v) && links[w].right == v && v in links
               && v != p && v != x
      modifies this`root, this`links, this`col, this`bh, nodes`left, nodes`right, nodes`parent, nodes`color
      ensures Linking() && Painted() && ShortRight(links, col, bh, p, x, v) && !IsRed(col, v)
              && IsRed(col, links[v].left)
      ensures !IsRed(col, root)
    {
      ghost var s, col0, bh0 := links, col, bh;
      SetBlackRed(v, w);
      bh := bh[v := Bh(bh, v) + 1][w := Bh(bh, w) - 1];
      assert !IsRed(col, NewRoot(root, w, v)) by {
        RootStaysBlack(s, col0, root, w, v, col);
      }
      var tmp := RotateLeft(w);
      LinkedTied(root, links, 0, |order|);
      RemoveNearNephewRight(s, links, col0, bh0, p, x, w, v, col, bh);
    }

    // Red left nephew u: one rotation restores every height.
    method FarNephewRightStep(p: Node, x: Node?, w: Node, u: Node)
      requires Linking() && Painted() && ShortRight(links, col, bh, p, x, w) && !IsRed(col, root)
      requires !IsRed(col, w) && links[w].left == u && IsRed(col, u) && u in links && u != p && u != w && u != x
      modifies this`root, this`links, this`col, this`bh, nodes`left, nodes`right, nodes`parent, nodes`color
      ensures Linking() && Coloured(null) && !IsRed(col, root)
    {
      ghost var s, col0, bh0 := links, col, bh;
      TakeColor(w, p, u);
      bh := bh[w := Bh(bh, p)][p := Bh(bh, w)][u := Bh(bh, u) + 1];
      assert !IsRed(col, NewRoot(root, p, w)) by {
        RootStaysBlack(s, col0, root, p, w, col);
      }
      var tmp := RotateRight(p);
      assert Balanced(links, col, bh, null) && NoRedRed(links, col, null) by {
        RemoveFarNephewRight(s, links, col0, bh0, p, x, w, u, col, bh);
      }
    }

    method BlackChildren(tmp: Node) returns (b: bool)
      requires Linking() && Painted() && tmp in nodes
      ensures b == (!IsRed(col, links[tmp].left) && !IsRed(col, links[tmp].right))
    {
      assert Local(root, links, 0, |order|, tmp);
      b := (tmp.left == null || tmp.left.color == Black) && (tmp.right == null || tmp.right.color == Black);
    }

    // The part of the loop that ends it: some nephew is red, for the short side on the left.
    method SettleFromLeft(p: Node, x: Node?, w0: Node)
      requires Linking() && Painted() && ShortLeft(links, col, bh, p, x, w0) && links[p].right == w0
      requires !IsRed(col, root) && !IsRed(col, w0) && (IsRed(col, links[w0].left) || IsRed(col, links[w0].right))
      requires x == null ==> links[p].left != links[p].right
      modifies this`root, this`links, this`col, this`bh, nodes`left, nodes`right, nodes`parent, nodes`color
      ensures Linking() && Coloured(null) && !IsRed(col, root)
    {
      SiblingRight(p, x);
      var w := w0;
      if w.right == null || w.right.color == Black {
        var inner := w.left;
        NearNephewLeftStep(p, x, w, inner);
        w := inner;
        SiblingRight(p, x);
      }
      FarNephewLeftStep(p, x, w, w.right);
    }

    // The first half of a turn: make sure that the sibling is black.
    method BlackSiblingLeft(p: Node, x: Node?) returns (tmp: Node)
      requires Linking() && Painted() && p in links && links[p].left == x && !IsRed(col, x) && !IsRed(col, root)
      requires Short(links, col, bh, p, x) && NoRedRed(links, col, null)
               && (x == null ==> links[p].left != links[p].right)
      modifies this`root, this`links, this`col, this`bh, nodes`left, nodes`right, nodes`parent, nodes`color
      ensures Linking() && Painted() && !IsRed(col, root)
      ensures ShortLeft(links, col, bh, p, x, tmp) && !IsRed(col, tmp) && Bh(bh, tmp) > 0 && Bh(bh, p) > 0
      ensures links[p].right == tmp && (x == null ==> links[p].left != links[p].right)
      ensures IsRed(col, p) || Span(p) == old(Span(p))
    {
      SiblingRight(p, x);
      tmp := p.right;
      if tmp.color == Red {
        RedSiblingLeftStep(p, x, tmp);
        SiblingRight(p, x);
        tmp := p.right;
      }
    }

    // One turn of the loop of RB_REMOVE_COLOR for x on the left of p.
    method RemoveTurnLeft(p: Node, x: Node?) returns (done: bool)
      requires Linking() && Painted() && p in links && links[p].left == x && !IsRed(col, x) && !IsRed(col, root)
      requires Short(links, col, bh, p, x) && NoRedRed(links, col, null)
               && (x == null ==> links[p].left != links[p].right)
      modifies this`root, this`links, this`col, this`bh, nodes`left, nodes`right, nodes`parent, nodes`color
      ensures Linking() && Painted() && !IsRed(col, root)
      ensures done ==> Coloured(null)
      ensures !done ==> Short(links, col, bh, links[p].parent, p) && CleanBut(links, col, p)
      ensures !done ==> IsRed(col, p) || Span(p) == old(Span(p))
    {
      var tmp := BlackSiblingLeft(p, x);
      var calm := BlackChildren(tmp);
      if calm {
        BlackNephewsLeftStep(p, x, tmp);
        done := false;
      } else {
        SettleFromLeft(p, x, tmp);
        done := true;
      }
    }

    // The part of the loop that ends it: some nephew is red, for the short side on the right.
    method SettleFromRight(p: Node, x: Node?, w0: Node)
      requires Linking() && Painted() && ShortRight(links, col, bh, p, x, w0) && links[p].left == w0
      requires !IsRed(col, root) && !IsRed(col, w0) && (IsRed(col, links[w0].left) || IsRed(col, links[w0].right))
      requires x == null ==> links[p].right != links[p].left
      modifies this`root, this`links, this`col, this`bh, nodes`left, nodes`right, nodes`parent, nodes`color
      ensures Linking() && Coloured(null) && !IsRed(col, root)
    {
      SiblingLeft(p, x);
      var w := w0;
      if w.left == null || w.left.color == Black {
        var inner := w.right;
        NearNephewRightStep(p, x, w, inner);
        w := inner;
        SiblingLeft(p, x);
      }
      FarNephewRightStep(p, x, w, w.left);
    }

    // The first half of a turn: make sure that the sibling is black.
    method BlackSiblingRight(p: Node, x: Node?) returns (tmp: Node)
      requires Linking() && Painted() && p in links && links[p].right == x && !IsRed(col, x) && !IsRed(col, root)
      requires Short(links, col, bh, p, x) && NoRedRed(links, col, null)
               && (x == null ==> links[p].right != links[p].left)
      modifies this`root, this`links, this`col, this`bh, nodes`left, nodes`right, nodes`parent, nodes`color
      ensures Linking() && Painted() && !IsRed(col, root)
      ensures ShortRight(links, col, bh, p, x, tmp) && !IsRed(col, tmp) && Bh(bh, tmp) > 0 && Bh(bh, p) > 0
      ensures links[p].left == tmp && (x == null ==> links[p].right != links[p].left)
      ensures IsRed(col, p) || Span(p) == old(Span(p))
    {
      SiblingLeft(p, x);
      tmp := p.left;
      if tmp.color == Red {
        RedSiblingRightStep(p, x, tmp);
        SiblingLeft(p, x);
        tmp := p.left;
      }
    }

    // One turn of the loop of RB_REMOVE_COLOR for x on the right of p.
    method RemoveTurnRight(p: Node, x: Node?) returns (done: bool)
      requires Linking() && Painted() && p in links && links[p].right == x && !IsRed(col, x) && !IsRed(col, root)
      requires Short(links, col, bh, p, x) && NoRedRed(links, col, null)
               && (x == null ==> links[p].right != links[p].left)
      modifies this`root, this`links, this`col, this`bh, nodes`left, nodes`right, nodes`parent, nodes`color
      ensures Linking() && Painted() && !IsRed(col, root)
      ensures done ==> Coloured(null)
      ensures !done ==> Short(links, col, bh, links[p].parent, p) && CleanBut(links, col, p)
      ensures !done ==> IsRed(col, p) || Span(p) == old(Span(p))
    {
      var tmp := BlackSiblingRight(p, x);
      var calm := BlackChildren(tmp);
      if calm {
        BlackNephewsRightStep(p, x, tmp);
        done := false;
      } else {
        SettleFromRight(p, x, tmp);
        done := true;
      }
    }

    ghost function Left(p: Node?, x: Node?): nat
      reads this
    {
      if IsRed(col, x) || p !in links || Span(p) > |order| then 0 else |order| + 1 - Span(p)
    }

    lemma ShortageParent(p: Node?, x: Node?)
      requires Linking() && Shortage(root, links, col, bh, p, x) && x != root
      ensures p in links
    {
      assert x != null ==> Local(root, links, 0, |order|, x);
    }

    lemma ParentSpan(x: Node)
      requires Linking() && x in links
      ensures links[x].parent == x.parent && Span(x) <= |order|
      ensures x.parent != null ==> x.parent in links && Span(x) < Span(x.parent) <= |order|
    {
      assert Local(root, links, 0, |order|, x);
      assert x.parent != null ==> Local(root, links, 0, |order|, x.parent);
    }

    // One turn of the loop of RB_REMOVE_COLOR.
    method RemoveTurn(p: Node, x: Node?) returns (done: bool)
      requires Linking() && Painted() && Shortage(root, links, col, bh, p, x) && !IsRed(col, x) && p in links
      modifies this`root, this`links, this`col, this`bh, nodes`left, nodes`right, nodes`parent, nodes`color
      ensures Linking() && Painted() && !IsRed(col, root)
      ensures done ==> Coloured(null)
      ensures !done ==> Shortage(root, links, col, bh, p.parent, p) && Left(p.parent, p) < old(Left(p, x))
    {
      ShortageParent(p, x);
      ParentSpan(p);
      CleanEnough(links, col, x);
      assert p.left == links[p].left;
      if p.left == x {
        done := RemoveTurnLeft(p, x);
      } else {
        done := RemoveTurnRight(p, x);
      }
      ParentSpan(p);
    }

    // RB_REMOVE_COLOR
    method RemoveColor(p: Node?, x: Node?)
      requires Linking() && Painted() && Shortage(root, links, col, bh, p, x)
      modifies this`root, this`links, this`col, this`bh, nodes`left, nodes`right, nodes`parent, nodes`color
      ensures Linking() && Coloured(null) && !IsRed(col, root)
    {
      var parent, elm := p, x;
      while (elm == null || elm.color == Black) && elm != root
        invariant Linking() && Painted() && Shortage(root, links, col, bh, parent, elm)
        decreases Left(parent, elm)
      {
        ShortageParent(parent, elm);
        var done := RemoveTurn(parent, elm);
        if done {
          return;
        }
        elm, parent := parent, parent.parent;
      }
      if elm != null {
        PaintShortSide(parent, elm);
      }
    }

    method PaintShortSide(ghost p: Node?, x: Node)
      requires Linking() && Painted() && Shortage(root, links, col, bh, p, x) && (IsRed(col, x) || x == root)
      modifies this`col, this`bh, x`color
      ensures Linking() && Coloured(null) && !IsRed(col, root)
    {
      LinkedTied(root, links, 0, |order|);
      assert Local(root, links, 0, |order|, x);
      ShortSideBlackened(links, col, bh, p, x);
      bh := bh[x := Bh(bh, x) + 1 - Step(col, x)];
      SetColor(x, Black);
    }

    // What is left of n's links after its child slot for x is taken over by c.
    method BypassLinks(x: Node, c: Node?)
      requires Tracked() && x in nodes && c != x && (c != null ==> c in nodes)
      requires x.parent != null ==>
                 x.parent in nodes && x.parent != x && (x.parent.left == x || x.parent.right == x)
                 && x.parent.left != x.parent.right
      requires forall n :: n in nodes && n != x.parent ==> n.left != x && n.right != x
      requires links[x].left == null || links[x].right == null
      requires c == OnlyChild(links, x)
      modifies this`root, this`nodes, this`links, nodes`left, nodes`right, nodes`parent
      ensures nodes == old(nodes) - {x} && Tracked() && Unlinked(old(links), links, x)
      ensures root == if old(x.parent) == null then c else old(root)
      ensures x.left == old(x.left) && x.right == old(x.right) && x.parent == old(x.parent)
    {
      ghost var s := links;
      var parent := x.parent;
      if c != null {
        c.parent := parent;
      }
      ReplaceChild(parent, x, c);
      nodes := nodes - {x};
      links := Unlink(s, x);
      assert nodes == links.Keys;
      forall n | n in nodes
        ensures links[n].left == n.left && links[n].right == n.right && links[n].parent == n.parent
      {
        assert s[n].left == old(n.left);
      }
    }

    lemma LinkedAlone(x: Node)
      requires Linking() && x in nodes
      ensures x.parent != null ==>
                x.parent in nodes && x.parent != x && (x.parent.left == x || x.parent.right == x)
                && x.parent.left != x.parent.right
      ensures forall n :: n in nodes && n != x.parent ==> n.left != x && n.right != x
      ensures x.parent == null <==> root == x
      ensures x.left != null ==> x.left in nodes && x.left != x
      ensures x.right != null ==> x.right in nodes && x.right != x
    {
      assert Local(root, links, 0, |order|, x);
      assert x.parent != null ==> Local(root, links, 0, |order|, x.parent);
      forall n | n in nodes && n != x.parent ensures n.left != x && n.right != x {
        assert Local(root, links, 0, |order|, n);
      }
    }

    // Taking x, which has at most one child c, out of the tree.
    method Bypass(x: Node, c: Node?)
      requires Linking() && x in nodes && (x.left == null || x.right == null) && c == OnlyChild(links, x)
      modifies this`root, this`nodes, this`links, this`order, nodes`left, nodes`right, nodes`parent
      ensures nodes == old(nodes) - {x} && Linking() && Unlinked(old(links), links, x)
      ensures root == if old(root) == x then c else old(root)
      ensures x.left == old(x.left) && x.right == old(x.right) && x.parent == old(x.parent)
      ensures var k := old(links)[x].at.pos; 0 <= k < |old(order)| && order == old(order)[..k] + old(order)[k + 1..]
    {
      ghost var s, N, k := links, |order|, links[x].at.pos;
      LinkedAlone(x);
      BypassLinks(x, c);
      ghost var order' := order[..k] + order[k + 1..];
      assert |order'| == N - 1;
      assert Linked(root, links, 0, |order'|) by {
        UnlinkedLinked(old(root), s, links, N, x);
      }
      assert OrderedBy(order', links) by {
        UnlinkedOrdered(s, links, x, order);
      }
      order := order';
    }

    // The removal of a node x with at most one child, up to the fix-up.
    method RemoveThin(x: Node, c: Node?) returns (parent: Node?, color: Color)
      requires Valid() && x in nodes && (x.left == null || x.right == null) && c == OnlyChild(links, x)
      modifies this`root, this`nodes, this`links, this`order, nodes`left, nodes`right, nodes`parent
      ensures nodes == old(nodes) - {x} && Linking() && parent == old(x.parent) && Painted()
      ensures Owed(color, root, links, col, bh, parent, c)
      ensures parent != null ==> parent in nodes
      ensures x.left == old(x.left) && x.right == old(x.right) && x.parent == old(x.parent)
      ensures Unlinked(old(links), links, x)
      ensures var k := old(links)[x].at.pos; 0 <= k < |old(order)| && order == old(order)[..k] + old(order)[k + 1..]
    {
      ghost var s, N := links, |order|;
      parent, color := x.parent, x.color;
      Bypass(x, c);
      UnlinkedOwed(old(root), s, links, N, x, col, bh);
    }

    // gone can hand its place to another node: both its links and the links to it are in order.
    ghost predicate Placed(gone: Node)
      reads this`root, this`nodes, nodes`left, nodes`right, nodes`parent
    {
      && gone in nodes && gone.left != null && gone.left in nodes && gone.left != gone && gone.left.parent == gone
      && (gone.right != null ==>
            gone.right in nodes && gone.right != gone && gone.right != gone.left && gone.right.parent == gone)
      && (gone.parent != null ==> gone.parent in nodes && gone.parent != gone && gone.parent.left != gone.parent.right)
      && (gone.parent != null ==> gone.parent.left == gone || gone.parent.right == gone)
      && (gone.parent == null <==> root == gone)
      && (forall n :: n in nodes && n != gone.parent ==> n.left != gone && n.right != gone)
      && (forall n {:trigger n.parent} :: n in nodes && n.parent == gone ==> n == gone.left || n == gone.right)
    }

    method TakePlace(gone: Node, e: Node)
      requires Placed(gone) && e !in nodes
      modifies this`root, nodes`left, nodes`right, nodes`parent, e`left, e`right, e`parent, e`color
      ensures e.left == old(gone.left) && e.right == old(gone.right) && e.parent == old(gone.parent)
              && e.color == gone.color
      ensures forall n :: n in nodes ==> n.left == if old(n.left) == gone then e else old(n.left)
      ensures forall n :: n in nodes ==> n.right == if old(n.right) == gone then e else old(n.right)
      ensures forall n :: n in nodes ==> n.parent == if old(n.parent) == gone then e else old(n.parent)
      ensures root == NewRoot(old(root), gone, e)
    {
      e.left, e.right, e.parent, e.color := gone.left, gone.right, gone.parent, gone.color;
      ReplaceChild(gone.parent, gone, e);
      gone.left.parent := e;
      if gone.right != null {
        gone.right.parent := e;
      }
    }

    method SubstituteLinks(gone: Node, e: Node)
      requires Tracked() && Placed(gone) && e !in nodes
      modifies this`root, this`nodes, this`links, nodes`left, nodes`right, nodes`parent, e`left, e`right, e`parent,
          e`color
      ensures nodes == old(nodes) - {gone} + {e} && Tracked() && Replaced(old(links), links, gone, e)
      ensures root == NewRoot(old(root), gone, e) && e.color == gone.color
    {
      ghost var s := links;
      TakePlace(gone, e);
      nodes := nodes - {gone} + {e};
      links := RbSplice.Replace(s, gone, e);
      assert nodes == links.Keys;
      forall n | n in nodes
        ensures links[n].left == n.left && links[n].right == n.right && links[n].parent == n.parent
      {
        if n != e {
          assert s[n].left == old(n.left);
        }
      }
    }

    lemma LinkedPlaced(gone: Node)
      requires Linking() && gone in nodes && gone.left != null
      ensures Placed(gone)
    {
      LinkedAlone(gone);
      assert Local(root, links, 0, |order|, gone);
      assert Local(root, links, 0, |order|, gone.left);
      assert gone.right != null ==> Local(root, links, 0, |order|, gone.right);
      forall n {:trigger n.parent} | n in nodes && n.parent == gone ensures n == gone.left || n == gone.right {
        assert Local(root, links, 0, |order|, n);
      }
    }

    // Putting e where gone stood.
    method Substitute(gone: Node, e: Node)
      requires Linking() && gone in nodes && gone.left != null && e !in nodes
      modifies this`root, this`nodes, this`links, this`order, nodes`left, nodes`right, nodes`parent, e`left, e`right,
          e`parent, e`color
      ensures nodes == old(nodes) - {gone} + {e} && Linking() && Replaced(old(links), links, gone, e)
      ensures root == NewRoot(old(root), gone, e) && e.color == gone.color
      ensures var k := old(links)[gone].at.pos; 0 <= k < |old(order)| && order == old(order)[k := e]
    {
      ghost var s, N, k := links, |order|, links[gone].at.pos;
      LinkedPlaced(gone);
      SubstituteLinks(gone, e);
      assert Linked(root, links, 0, N) by {
        ReplacedLinked(old(root), s, links, 0, N, gone, e);
      }
      assert OrderedBy(order[k := e], links) by {
        ReplacedOrdered(s, links, gone, e, order);
      }
      order := order[k := e];
    }

    // The leftmost node below tmp.
    method Leftmost(tmp: Node) returns (elm: Node)
      requires Linking() && tmp in nodes
      ensures elm in nodes && elm.left == null && links[elm].at.pos == links[tmp].at.lo
      ensures links[tmp].at.lo <= links[elm].at.lo
    {
      elm := tmp;
      assert Local(root, links, 0, |order|, elm);
      while elm.left != null
        invariant elm in nodes && links[elm].at.lo == links[tmp].at.lo
        decreases links[elm].at.hi
      {
        assert Local(root, links, 0, |order|, elm) && Local(root, links, 0, |order|, elm.left);
        elm := elm.left;
      }
      assert Local(root, links, 0, |order|, elm);
    }

    // e, already out of the tree, takes over the place, the colour and the height of gone.
    method TakeOver(gone: Node, e: Node, ghost color: Color, ghost p: Node?, ghost x: Node?)
      requires Linking() && Painted() && gone in nodes && gone.left != null && e !in nodes
      requires Owed(color, root, links, col, bh, p, x) && x != gone && x != e && p != e && (p != null ==> p in nodes)
      modifies this`root, this`nodes, this`links, this`order, this`col, this`bh, nodes`left, nodes`right, nodes`parent,
          e`left, e`right, e`parent, e`color
      ensures nodes == old(nodes) - {gone} + {e} && Linking() && Painted()
      ensures Owed(color, root, links, col, bh, Renamed(p, gone, e), x)
      ensures var k := old(links)[gone].at.pos; 0 <= k < |old(order)| && order == old(order)[k := e]
    {
      ghost var s, root0, col0, bh0 := links, root, col, bh;
      LinkedTied(root, links, 0, |order|);
      assert root0 != null && root0 in s;
      OwedHeights(color, root, links, col, bh, p, x);
      Substitute(gone, e);
      PaintLike(gone, e);
      assert Owed(color, root, links, col, bh, Renamed(p, gone, e), x) by {
        ReplacedOwed(root0, s, links, gone, e, col0, bh0, col, bh, color, p, x);
      }
    }

    ghost method PaintLike(gone: Node, e: Node)
      requires e in nodes && gone in col && gone in bh && e.color == col[gone]
      requires forall n {:trigger n.color} {:trigger n in col} :: n in nodes && n != e ==> n in col && col[n] == n.color
      modifies this`col, this`bh
      ensures Painted() && col == old(col)[e := old(col)[gone]] && bh == old(bh)[e := old(bh)[gone]]
    {
      col := col[e := col[gone]];
      bh := bh[e := bh[gone]];
    }

    // The in-order successor of a node with two children has no left child.
    method Successor(gone: Node) returns (elm: Node)
      requires Linking() && gone in nodes && gone.left != null && gone.right != null
      ensures elm in nodes && elm != gone && elm != gone.left && elm.left == null && links[elm].left == null
              && links[elm].right == elm.right
      ensures links[elm].at.pos == links[gone].at.pos + 1
      ensures elm.right != gone && elm.right != elm && links[elm].parent != elm
    {
      assert Local(root, links, 0, |order|, gone) && Local(root, links, 0, |order|, gone.left);
      elm := Leftmost(gone.right);
      assert Local(root, links, 0, |order|, elm);
      assert elm.right != null ==> Local(root, links, 0, |order|, elm.right);
      assert elm.parent != null ==> Local(root, links, 0, |order|, elm.parent);
    }

    // The successor of gone is taken out of the tree.
    method DetachSuccessor(gone: Node) returns (elm: Node, parent: Node?, child: Node?, color: Color)
      requires Valid() && gone in nodes && gone.left != null && gone.right != null
      modifies this`root, this`nodes, this`links, this`order, nodes`left, nodes`right, nodes`parent
      ensures elm in old(nodes) && nodes == old(nodes) - {elm} && gone in nodes && gone.left != null && Linking()
              && Painted()
      ensures Owed(color, root, links, col, bh, parent, child) && child != gone && child != elm && parent != elm
      ensures parent != null ==> parent in nodes
      ensures links[gone].at.pos == old(links)[gone].at.pos
      ensures var k := links[gone].at.pos;
        0 <= k < |old(order)| - 1 && elm == old(order)[k + 1] && order == old(order)[..k + 1] + old(order)[k + 2..]
    {
      elm := Successor(gone);
      child := elm.right;
      ghost var s := links;
      parent, color := RemoveThin(elm, child);
      assert gone.left == links[gone].left == s[gone].left;
    }

    // The case of two children: the in-order successor leaves its place and takes over that of gone.
    method RemoveInner(gone: Node) returns (parent: Node?, child: Node?, color: Color)
      requires Valid() && gone in nodes && gone.left != null && gone.right != null
      modifies this`root, this`nodes, this`links, this`order, this`col, this`bh, nodes`left, nodes`right, nodes`parent,
          nodes`color
      ensures nodes == old(nodes) - {gone} && Linking() && Painted()
      ensures Owed(color, root, links, col, bh, parent, child)
      ensures var k := old(links)[gone].at.pos; 0 <= k < |old(order)| && order == old(order)[..k] + old(order)[k + 1..]
    {
      ghost var order0 := order;
      var elm;
      elm, parent, child, color := DetachSuccessor(gone);
      TakeOver(gone, elm, color, parent, child);
      parent := if parent == gone then elm else parent;
      SuccessorMoves(order0, old(links)[gone].at.pos);
      SuccessorStays(old(nodes), gone, elm);
    }

    // RB_REMOVE up to the fix-up.
    method Detach(elm: Node) returns (parent: Node?, child: Node?, color: Color)
      requires Valid() && elm in nodes
      modifies this`root, this`nodes, this`links, this`order, this`col, this`bh, nodes`left, nodes`right, nodes`parent,
          nodes`color
      ensures nodes == old(nodes) - {elm} && Linking() && Painted()
      ensures Owed(color, root, links, col, bh, parent, child)
      ensures var k := old(links)[elm].at.pos; 0 <= k < |old(order)| && order == old(order)[..k] + old(order)[k + 1..]
    {
      assert links[elm].left == elm.left;
      if elm.left == null {
        child := elm.right;
        parent, color := RemoveThin(elm, child);
      } else if elm.right == null {
        child := elm.left;
        parent, color := RemoveThin(elm, child);
      } else {
        parent, child, color := RemoveInner(elm);
      }
    }

    // RB_REMOVE
    method Remove(elm: Node)
      requires Valid() && elm in nodes
      modifies this, nodes`left, nodes`right, nodes`parent, nodes`color
      ensures Valid() && nodes == old(nodes) - {elm}
      ensures exists k ::
                0 <= k < |old(order)| && old(order)[k] == elm && order == old(order)[..k] + old(order)[k + 1..]
    {
      ghost var k := links[elm].at.pos;
      assert order[k] == elm;
      SortedRemove(order, k);
      var parent, child, color := Detach(elm);
      if color == Black {
        RemoveColor(parent, child);
      }
    }

    // The window [lo, hi) of positions in which a search for key continues at tmp.
    ghost predicate Searching(key: int, tmp: Node?, lo: int, hi: int)
      requires OrderedBy(order, links)
      reads this
    {
      && 0 <= lo <= hi <= |order|
      && (if tmp == null then lo == hi else tmp in links && links[tmp].at.lo == lo && links[tmp].at.hi == hi)
      && (forall j :: 0 <= j < lo ==> order[j].key < key)
      && (forall j :: hi <= j < |order| ==> key < order[j].key)
    }

    lemma SearchStart(key: int)
      requires Linking()
      ensures Searching(key, root, 0, |order|)
    {
      assert root != null ==> Local(root, links, 0, |order|, root);
    }

    lemma SearchStep(key: int, tmp: Node, lo: int, hi: int)
      requires Linking() && Sorted(order) && Searching(key, tmp, lo, hi)
      ensures tmp.left == links[tmp].left && tmp.right == links[tmp].right
      ensures lo <= links[tmp].at.pos < hi && order[links[tmp].at.pos] == tmp
      ensures key < tmp.key ==> Searching(key, tmp.left, lo, links[tmp].at.pos)
      ensures tmp.key < key ==> Searching(key, tmp.right, links[tmp].at.pos + 1, hi)
    {
      assert Local(root, links, 0, |order|, tmp);
      assert order[links[tmp].at.pos] == tmp;
    }

    // RB_FIND
    method Find(key: int) returns (found: Node?)
      requires Valid()
      ensures found != null ==> found in order && found.key == key
      ensures found == null ==> forall n :: n in order ==> n.key != key
    {
      var tmp := root;
      ghost var lo, hi := 0, |order|;
      SearchStart(key);
      while tmp != null
        invariant Searching(key, tmp, lo, hi)
        decreases hi - lo
      {
        SearchStep(key, tmp, lo, hi);
        if key < tmp.key {
          hi := links[tmp].at.pos;
          tmp := tmp.left;
        } else if key > tmp.key {
          lo := links[tmp].at.pos + 1;
          tmp := tmp.right;
        } else {
          return tmp;
        }
      }
      return null;
    }

    // RB_NFIND: the first node whose key is not below the search key.
    method NFind(key: int) returns (res: Node?)
      requires Valid()
      ensures res != null ==>
                res in order && key <= res.key && forall n :: n in order && key <= n.key ==> res.key <= n.key
      ensures res == null ==> forall n :: n in order ==> n.key < key
    {
      var tmp := root;
      res := null;
      ghost var lo, hi := 0, |order|;
      SearchStart(key);
      while tmp != null
        invariant Searching(key, tmp, lo, hi)
        invariant if hi == |order| then res == null else res == order[hi]
        decreases hi - lo
      {
        SearchStep(key, tmp, lo, hi);
        if key < tmp.key {
          res := tmp;
          hi := links[tmp].at.pos;
          tmp := tmp.left;
        } else if key > tmp.key {
          lo := links[tmp].at.pos + 1;
          tmp := tmp.right;
        } else {
          return tmp;
        }
      }
    }

    // RB_NEXT
    method Next(x: Node) returns (elm: Node?)
      requires Valid() && x in nodes
      ensures var k := links[x].at.pos + 1; elm == if k < |order| then order[k] else null
    {
      ghost var N := |order|;
      assert Local(root, links, 0, N, x);
      if x.right != null {
        elm := Leftmost(x.right);
      } else {
        var y := x;
        while y.parent != null && y == y.parent.right
          invariant y in nodes && links[y].at.hi == links[x].at.pos + 1
          decreases N - (links[y].at.hi - links[y].at.lo)
        {
          ParentSpan(y);
          assert Local(root, links, 0, N, y) && Local(root, links, 0, N, y.parent);
          y := y.parent;
        }
        ParentSpan(y);
        assert Local(root, links, 0, N, y);
        assert y.parent != null ==> Local(root, links, 0, N, y.parent);
        elm := y.parent;
      }
    }

    // RB_MINMAX with a negative argument
    method Min() returns (elm: Node?)
      requires Valid()
      ensures elm == if |order| > 0 then order[0] else null
    {
      if root == null {
        return null;
      }
      assert Local(root, links, 0, |order|, root);
      elm := Leftmost(root);
    }

    // RB_FOREACH visits every node once, in increasing order of the keys.
    method Foreach() returns (visited: seq<Node>)
      requires Valid()
      ensures visited == order
    {
      visited := [];
      var x := Min();
      while x != null
        invariant |visited| <= |order| && visited == order[..|visited|]
        invariant if |visited| < |order| then x == order[|visited|] else x == null
        decreases |order| - |visited|
      {
        visited := visited + [x];
        x := Next(x);
      }
    }
  }
}
