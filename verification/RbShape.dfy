/** The value-level view of a red-black tree: what its pointers, its in-order positions and its colours say, and how
    rotations and recolourings change them. */
module RbShape {
  datatype Color = Black | Red

  /** An element carrying an RB_ENTRY. Its key stands for what the caller's cmp compares. */
  class Node {
    const key: int
    var left: Node?
    var right: Node?
    var parent: Node?
    var color: Color

    constructor (k: int)
      ensures key == k
    {
      key := k;
    }
  }

  /** In-order position of a node, and the half-open range of positions its subtree spans. */
  datatype Place = Place(pos: int, lo: int, hi: int)

  datatype Link = Link(left: Node?, right: Node?, parent: Node?, at: Place)
  type Links = map<Node, Link>
  type Paint = map<Node, Color>
  type Heights = map<Node, nat>

  // ----- links -----

  ghost predicate LeftOk(s: Links, n: Node)
    requires n in s
  {
    var l := s[n].left;
    if l == null then s[n].at.lo == s[n].at.pos
    else l in s && s[l].parent == n && s[l].at.lo == s[n].at.lo && s[l].at.hi == s[n].at.pos
  }

  ghost predicate RightOk(s: Links, n: Node)
    requires n in s
  {
    var r := s[n].right;
    if r == null then s[n].at.pos + 1 == s[n].at.hi
    else r in s && s[r].parent == n && s[r].at.lo == s[n].at.pos + 1 && s[r].at.hi == s[n].at.hi
  }

  ghost predicate ParentOk(root: Node?, s: Links, a: int, b: int, n: Node)
    requires n in s
  {
    var p := s[n].parent;
    if p == null then n == root && s[n].at.lo == a && s[n].at.hi == b
    else p in s && (s[p].left == n || s[p].right == n)
  }

  ghost predicate Local(root: Node?, s: Links, a: int, b: int, n: Node)
    requires n in s
  {
    a <= s[n].at.lo <= s[n].at.pos < s[n].at.hi <= b && LeftOk(s, n) && RightOk(s, n) && ParentOk(root, s, a, b, n)
  }

  /** The nodes of s form one binary tree under root whose in-order positions are a, ..., b - 1. */
  ghost predicate Linked(root: Node?, s: Links, a: int, b: int)
  {
    && (forall n {:trigger Local(root, s, a, b, n)} :: n in s ==> Local(root, s, a, b, n))
    && (if root == null then s == map[] && a == b else root in s && s[root].parent == null)
  }

  /** What is left of Local once positions are dropped. */
  ghost predicate Tied(s: Links, n: Node)
    requires n in s
  {
    && (s[n].left != null ==> s[n].left in s && s[s[n].left].parent == n && s[n].left != s[n].right && s[n].left != n)
    && (s[n].right != null ==> s[n].right in s && s[s[n].right].parent == n && s[n].right != n)
    && (s[n].parent != null ==> s[n].parent in s && (s[s[n].parent].left == n || s[s[n].parent].right == n))
  }

  ghost predicate AllTied(s: Links)
  {
    forall n {:trigger Tied(s, n)} :: n in s ==> Tied(s, n)
  }

  lemma LinkedTied(root: Node?, s: Links, a: int, b: int)
    requires Linked(root, s, a, b)
    ensures AllTied(s)
  {
    forall n | n in s ensures Tied(s, n) {
      assert Local(root, s, a, b, n);
    }
  }

  // ----- mirror images -----

  ghost function Mirror(s: Links): Links {
    map n | n in s :: Link(s[n].right, s[n].left, s[n].parent, Place(-1 - s[n].at.pos, -s[n].at.hi, -s[n].at.lo))
  }

  lemma MirrorTwice(s: Links)
    ensures Mirror(Mirror(s)) == s
  {
  }

  lemma MirrorLinked(root: Node?, s: Links, a: int, b: int)
    requires Linked(root, s, a, b)
    ensures Linked(root, Mirror(s), -b, -a)
  {
    var m := Mirror(s);
    forall n | n in m ensures Local(root, m, -b, -a, n) {
      assert Local(root, s, a, b, n);
    }
  }

  lemma MirrorTied(s: Links)
    requires AllTied(s)
    ensures AllTied(Mirror(s))
  {
    var m := Mirror(s);
    forall n | n in m ensures Tied(m, n) {
      assert Tied(s, n);
    }
  }

  // ----- rotations -----

  ghost function RotLCell(s: Links, elm: Node, tmp: Node, n: Node): Link
    requires elm in s && tmp in s && n in s
  {
    var c := s[n];
    if n == elm then Link(c.left, s[tmp].left, tmp, Place(c.at.pos, c.at.lo, s[tmp].at.pos))
    else if n == tmp then Link(elm, c.right, s[elm].parent, Place(c.at.pos, s[elm].at.lo, s[elm].at.hi))
    else Link(if c.left == elm then tmp else c.left, if c.right == elm then tmp else c.right,
              if n == s[tmp].left then elm else c.parent, c.at)
  }

  ghost function RotRCell(s: Links, elm: Node, tmp: Node, n: Node): Link
    requires elm in s && tmp in s && n in s
  {
    var c := s[n];
    if n == elm then Link(s[tmp].right, c.right, tmp, Place(c.at.pos, s[tmp].at.pos + 1, c.at.hi))
    else if n == tmp then Link(c.left, elm, s[elm].parent, Place(c.at.pos, s[elm].at.lo, s[elm].at.hi))
    else Link(if c.left == elm then tmp else c.left, if c.right == elm then tmp else c.right,
              if n == s[tmp].right then elm else c.parent, c.at)
  }

  /** t is s after a left rotation at elm, which brings its right child tmp above it. */
  ghost predicate RotatedLeft(s: Links, t: Links, elm: Node, tmp: Node)
  {
    && elm in s && tmp in s && s[elm].right == tmp
    && t.Keys == s.Keys
    && (forall n {:trigger t[n]} :: n in s ==> t[n] == RotLCell(s, elm, tmp, n))
  }

  /** t is s after a right rotation at elm, which brings its left child tmp above it. */
  ghost predicate RotatedRight(s: Links, t: Links, elm: Node, tmp: Node)
  {
    && elm in s && tmp in s && s[elm].left == tmp
    && t.Keys == s.Keys
    && (forall n {:trigger t[n]} :: n in s ==> t[n] == RotRCell(s, elm, tmp, n))
  }

  ghost function NewRoot(root: Node?, elm: Node, tmp: Node): Node? {
    if root == elm then tmp else root
  }

  lemma MirrorRotation(s: Links, t: Links, elm: Node, tmp: Node)
    requires RotatedRight(s, t, elm, tmp)
    ensures RotatedLeft(Mirror(s), Mirror(t), elm, tmp)
  {
  }

  lemma RotLElm(root: Node?, s: Links, t: Links, a: int, b: int, elm: Node, tmp: Node)
    requires Linked(root, s, a, b) && RotatedLeft(s, t, elm, tmp)
    ensures Local(NewRoot(root, elm, tmp), t, a, b, elm)
    ensures Local(NewRoot(root, elm, tmp), t, a, b, tmp)
  {
    assert Local(root, s, a, b, elm) && Local(root, s, a, b, tmp);
  }

  lemma RotLOther(root: Node?, s: Links, t: Links, a: int, b: int, elm: Node, tmp: Node, n: Node)
    requires Linked(root, s, a, b) && RotatedLeft(s, t, elm, tmp)
    requires n in s && n != elm && n != tmp
    ensures Local(NewRoot(root, elm, tmp), t, a, b, n)
  {
    assert Local(root, s, a, b, elm) && Local(root, s, a, b, tmp) && Local(root, s, a, b, n);
  }

  lemma RotateLeftLinked(root: Node?, s: Links, t: Links, a: int, b: int, elm: Node, tmp: Node)
    requires Linked(root, s, a, b) && RotatedLeft(s, t, elm, tmp)
    ensures Linked(NewRoot(root, elm, tmp), t, a, b)
  {
    RotLElm(root, s, t, a, b, elm, tmp);
    assert Local(root, s, a, b, elm) && Local(root, s, a, b, tmp);
    forall n | n in s ensures Local(NewRoot(root, elm, tmp), t, a, b, n) {
      if n != elm && n != tmp { RotLOther(root, s, t, a, b, elm, tmp, n); }
    }
  }

  lemma RotateRightLinked(root: Node?, s: Links, t: Links, a: int, b: int, elm: Node, tmp: Node)
    requires Linked(root, s, a, b) && RotatedRight(s, t, elm, tmp)
    ensures Linked(NewRoot(root, elm, tmp), t, a, b)
  {
    MirrorLinked(root, s, a, b);
    MirrorRotation(s, t, elm, tmp);
    RotateLeftLinked(root, Mirror(s), Mirror(t), -b, -a, elm, tmp);
    MirrorLinked(NewRoot(root, elm, tmp), Mirror(t), -b, -a);
    MirrorTwice(t);
  }

  // ----- colours and black heights -----

  ghost predicate IsRed(col: Paint, n: Node?) {
    n != null && n in col && col[n] == Red
  }

  ghost function Bh(bh: Heights, n: Node?): nat {
    if n != null && n in bh then bh[n] else 0
  }

  ghost function Step(col: Paint, n: Node): nat {
    if IsRed(col, n) then 0 else 1
  }

  ghost predicate BhAt(s: Links, col: Paint, bh: Heights, n: Node)
    requires n in s
  {
    n in col && n in bh && Bh(bh, s[n].left) == Bh(bh, s[n].right) && bh[n] == Bh(bh, s[n].left) + Step(col, n)
  }

  ghost predicate RedAt(s: Links, col: Paint, n: Node)
    requires n in s
  {
    IsRed(col, n) ==> !IsRed(col, s[n].parent)
  }

  /** Equal black heights below every node other than skip. */
  ghost predicate Balanced(s: Links, col: Paint, bh: Heights, skip: Node?)
  {
    forall n {:trigger BhAt(s, col, bh, n)} :: n in s && n != skip ==> BhAt(s, col, bh, n)
  }

  /** No red node, other than skip, has a red parent. */
  ghost predicate NoRedRed(s: Links, col: Paint, skip: Node?)
  {
    forall n {:trigger RedAt(s, col, n)} :: n in s && n != skip ==> RedAt(s, col, n)
  }

  lemma MirrorPaint(s: Links, col: Paint, bh: Heights, skip: Node?)
    ensures Balanced(s, col, bh, skip) <==> Balanced(Mirror(s), col, bh, skip)
    ensures NoRedRed(s, col, skip) <==> NoRedRed(Mirror(s), col, skip)
  {
    var m := Mirror(s);
    assert forall n :: n in s ==> (BhAt(s, col, bh, n) <==> BhAt(m, col, bh, n));
    assert forall n :: n in s ==> (RedAt(s, col, n) <==> RedAt(m, col, n));
  }

  // ----- insertion fix-up steps -----

  /** The situation in which RB_INSERT_COLOR recolours: parent p and uncle u of elm are red. */
  ghost predicate RedUncle(s: Links, col: Paint, bh: Heights, elm: Node, p: Node, g: Node, u: Node)
  {
    && AllTied(s) && Balanced(s, col, bh, null) && NoRedRed(s, col, elm)
    && elm in s && s[elm].parent == p && p in s && s[p].parent == g && g in s && u in s && u != p
    && (s[g].left == u || s[g].right == u)
    && IsRed(col, p) && IsRed(col, u) && elm != p && p != g && elm != g
  }

  lemma InsertRecolourAt(s: Links, col: Paint, bh: Heights, elm: Node, p: Node, g: Node, u: Node,
      col': Paint, bh': Heights, n: Node)
    requires RedUncle(s, col, bh, elm, p, g, u) && n in s
    requires col' == col[u := Black][p := Black][g := Red] && bh' == bh[u := Bh(bh, u) + 1][p := Bh(bh, p) + 1]
    ensures BhAt(s, col', bh', n)
  {
    assert Tied(s, p) && Tied(s, g) && Tied(s, n);
    assert RedAt(s, col, p);
    assert BhAt(s, col, bh, p) && BhAt(s, col, bh, u) && BhAt(s, col, bh, g) && BhAt(s, col, bh, n);
  }

  /** Red uncle: recolouring moves the violation from elm two levels up to g. */
  lemma InsertRecolour(s: Links, col: Paint, bh: Heights, elm: Node, p: Node, g: Node, u: Node,
      col': Paint, bh': Heights)
    requires RedUncle(s, col, bh, elm, p, g, u)
    requires col' == col[u := Black][p := Black][g := Red] && bh' == bh[u := Bh(bh, u) + 1][p := Bh(bh, p) + 1]
    ensures Balanced(s, col', bh', null) && NoRedRed(s, col', g)
  {
    forall n | n in s ensures BhAt(s, col', bh', n) {
      InsertRecolourAt(s, col, bh, elm, p, g, u, col', bh', n);
    }
    assert Tied(s, g) && Tied(s, p);
    forall n | n in s && n != g ensures RedAt(s, col', n) {
      assert Tied(s, n);
      assert n != elm ==> RedAt(s, col, n);
    }
  }

  /** An inner grandchild: both elm and its parent p are red, and elm is rotated above p. */
  lemma InsertInnerLeft(s: Links, t: Links, col: Paint, bh: Heights, elm: Node, p: Node)
    requires AllTied(s) && Balanced(s, col, bh, null) && NoRedRed(s, col, elm)
    requires RotatedLeft(s, t, p, elm) && elm != p && IsRed(col, p) && IsRed(col, elm)
    ensures Balanced(t, col, bh, null) && NoRedRed(t, col, p)
  {
    assert Tied(s, p) && Tied(s, elm);
    assert BhAt(s, col, bh, p) && BhAt(s, col, bh, elm) && RedAt(s, col, p);
    forall n | n in t ensures BhAt(t, col, bh, n) {
      assert Tied(s, n) && BhAt(s, col, bh, n);
    }
    forall n | n in t && n != p ensures RedAt(t, col, n) {
      assert Tied(s, n) && (n != elm ==> RedAt(s, col, n));
    }
  }

  lemma InsertInnerRight(s: Links, t: Links, col: Paint, bh: Heights, elm: Node, p: Node)
    requires AllTied(s) && Balanced(s, col, bh, null) && NoRedRed(s, col, elm)
    requires RotatedRight(s, t, p, elm) && elm != p && IsRed(col, p) && IsRed(col, elm)
    ensures Balanced(t, col, bh, null) && NoRedRed(t, col, p)
  {
    MirrorTied(s);
    MirrorRotation(s, t, p, elm);
    MirrorPaint(s, col, bh, null);
    MirrorPaint(s, col, bh, elm);
    InsertInnerLeft(Mirror(s), Mirror(t), col, bh, elm, p);
    MirrorPaint(t, col, bh, null);
    MirrorPaint(t, col, bh, p);
  }

  /** An outer grandchild: g hands its blackness to p, which is rotated above it. */
  ghost predicate OuterSetting(s: Links, col: Paint, bh: Heights, elm: Node, p: Node, g: Node, u: Node?, col': Paint,
      bh': Heights)
  {
    && AllTied(s) && Balanced(s, col, bh, null) && NoRedRed(s, col, elm)
    && elm in s && s[elm].parent == p && p in s && s[p].parent == g && g in s
    && elm != p && p != g && elm != g
    && IsRed(col, elm) && IsRed(col, p) && !IsRed(col, u)
    && col' == col[p := Black][g := Red] && bh' == bh[p := Bh(bh, p) + 1][g := Bh(bh, p)]
  }

  lemma InsertOuterLeftAt(s: Links, t: Links, col: Paint, bh: Heights, elm: Node, p: Node, g: Node, col': Paint,
      bh': Heights, n: Node)
    requires RotatedLeft(s, t, g, p) && s[p].right == elm && OuterSetting(s, col, bh, elm, p, g, s[g].left, col', bh')
    requires n in t
    ensures BhAt(t, col', bh', n)
  {
    assert Tied(s, p) && Tied(s, g) && Tied(s, n);
    assert BhAt(s, col, bh, p) && BhAt(s, col, bh, g) && BhAt(s, col, bh, elm) && RedAt(s, col, p);
    if n != p && n != g {
      assert BhAt(s, col, bh, n);
    }
  }

  lemma InsertOuterLeft(s: Links, t: Links, col: Paint, bh: Heights, elm: Node, p: Node, g: Node, col': Paint,
      bh': Heights)
    requires RotatedLeft(s, t, g, p) && s[p].right == elm && OuterSetting(s, col, bh, elm, p, g, s[g].left, col', bh')
    ensures Balanced(t, col', bh', null) && NoRedRed(t, col', null)
  {
    forall n | n in t ensures BhAt(t, col', bh', n) {
      InsertOuterLeftAt(s, t, col, bh, elm, p, g, col', bh', n);
    }
    assert Tied(s, p) && Tied(s, g) && RedAt(s, col, p);
    forall n | n in t ensures RedAt(t, col', n) {
      assert Tied(s, n) && (n != elm ==> RedAt(s, col, n));
    }
  }

  lemma InsertOuterRight(s: Links, t: Links, col: Paint, bh: Heights, elm: Node, p: Node, g: Node, col': Paint,
      bh': Heights)
    requires RotatedRight(s, t, g, p) && s[p].left == elm && OuterSetting(s, col, bh, elm, p, g, s[g].right, col', bh')
    ensures Balanced(t, col', bh', null) && NoRedRed(t, col', null)
  {
    MirrorTied(s);
    MirrorRotation(s, t, g, p);
    MirrorPaint(s, col, bh, null);
    MirrorPaint(s, col, bh, elm);
    InsertOuterLeft(Mirror(s), Mirror(t), col, bh, elm, p, g, col', bh');
    MirrorPaint(t, col', bh', null);
  }

  /** Blackening the root keeps every height condition. */
  lemma RootBlackened(s: Links, col: Paint, bh: Heights, r: Node, skip: Node?)
    requires AllTied(s) && r in s && s[r].parent == null
    requires Balanced(s, col, bh, null) && NoRedRed(s, col, skip)
             && (skip != null && skip != r && skip in s ==> RedAt(s, col, skip))
    ensures Balanced(s, col[r := Black], bh[r := Bh(bh, r) + 1 - Step(col, r)], null)
            && NoRedRed(s, col[r := Black], null)
  {
    var col', bh' := col[r := Black], bh[r := Bh(bh, r) + 1 - Step(col, r)];
    assert BhAt(s, col, bh, r) && Tied(s, r);
    forall n | n in s ensures BhAt(s, col', bh', n) && RedAt(s, col', n) {
      assert Tied(s, n) && BhAt(s, col, bh, n) && (n != skip ==> RedAt(s, col, n));
    }
  }

  /** The root stays black when a rotation at p gives p's colour to w, or when p was black and not the root. */
  lemma RootStaysBlack(s: Links, col: Paint, root: Node?, p: Node, w: Node, col': Paint)
    requires AllTied(s) && p in s && w in s && p != w && (s[p].left == w || s[p].right == w)
    requires root != null && root in s && s[root].parent == null && !IsRed(col, root)
    requires forall n {:trigger col'[n]} ::
               n in s && n in col && n != p && n != w && !IsRed(col, n) ==> n in col' && col'[n] != Red
    requires IsRed(col', w) ==> IsRed(col, p)
    requires root in col
    ensures !IsRed(col', NewRoot(root, p, w))
  {
    assert Tied(s, p);
  }

  // ----- removal fix-up steps -----

  /** Below p, the side of x is one black node short; everywhere else heights agree. */
  ghost predicate ShortAt(s: Links, col: Paint, bh: Heights, p: Node, x: Node?)
    requires p in s
  {
    && p in bh && p in col
    && (s[p].left == x || s[p].right == x)
    && (s[p].left == x ==> Bh(bh, x) + 1 == Bh(bh, s[p].right) && bh[p] == Bh(bh, s[p].right) + Step(col, p))
    && (s[p].left != x ==> Bh(bh, x) + 1 == Bh(bh, s[p].left) && bh[p] == Bh(bh, s[p].left) + Step(col, p))
  }

  ghost predicate Short(s: Links, col: Paint, bh: Heights, p: Node?, x: Node?)
  {
    && Balanced(s, col, bh, p) 
    && (p != null ==> p in s && ShortAt(s, col, bh, p, x))
  }

  lemma MirrorShort(s: Links, col: Paint, bh: Heights, p: Node?, x: Node?)
    requires Short(s, col, bh, p, x) && AllTied(s)
    ensures Short(Mirror(s), col, bh, p, x)
  {
    MirrorPaint(s, col, bh, p);
    if p != null {
      assert Tied(s, p);
    }
  }

  /** No red node has a red parent, except that x may be red beside a red relative. */
  ghost predicate CleanBut(s: Links, col: Paint, x: Node?)
  {
    forall n {:trigger RedAt(s, col, n)} :: n in s && n != x && (x == null || s[n].parent != x) ==> RedAt(s, col, n)
  }

  lemma CleanEnough(s: Links, col: Paint, x: Node?)
    requires CleanBut(s, col, x) && !IsRed(col, x)
    ensures NoRedRed(s, col, null)
  {
  }

  /** A red node on the short side pays for the shortage by turning black. */
  lemma ShortSideBlackened(s: Links, col: Paint, bh: Heights, p: Node?, x: Node)
    requires AllTied(s) && x in s && s[x].parent == p && (p != null ==> p != x)
    requires Short(s, col, bh, p, x) && CleanBut(s, col, x) && (IsRed(col, x) || p == null)
    ensures Balanced(s, col[x := Black], bh[x := Bh(bh, x) + 1 - Step(col, x)], null)
            && NoRedRed(s, col[x := Black], null)
  {
    var col', bh' := col[x := Black], bh[x := Bh(bh, x) + 1 - Step(col, x)];
    assert Tied(s, x) && BhAt(s, col, bh, x);
    assert p != null ==> Tied(s, p);
    forall n | n in s ensures BhAt(s, col', bh', n) {
      assert Tied(s, n) && (n != p ==> BhAt(s, col, bh, n));
    }
    forall n | n in s ensures RedAt(s, col', n) {
      assert Tied(s, n) && (n != x && s[n].parent != x ==> RedAt(s, col, n));
    }
  }

  /** The sibling w of the short side x, on the right of p. */
  ghost predicate ShortLeft(s: Links, col: Paint, bh: Heights, p: Node, x: Node?, w: Node)
  {
    && AllTied(s) && NoRedRed(s, col, null) && Short(s, col, bh, p, x)
    && s[p].left == x && s[p].right == w && w in s && p != w && x != w && s[p].parent != w
    && !IsRed(col, x)
  }

  ghost predicate RedSibling(s: Links, t: Links, col: Paint, bh: Heights, p: Node, x: Node?, w: Node, col': Paint,
      bh': Heights)
  {
    && ShortLeft(s, col, bh, p, x, w) && IsRed(col, w) && RotatedLeft(s, t, p, w)
    && col' == col[w := Black][p := Red] && bh' == bh[w := Bh(bh, w) + 1][p := Bh(bh, w)]
  }

  lemma RemoveRedSiblingPaths(s: Links, t: Links, col: Paint, bh: Heights, p: Node, x: Node?, w: Node, col': Paint,
      bh': Heights)
    requires RedSibling(s, t, col, bh, p, x, w, col', bh')
    ensures Balanced(t, col', bh', p)
  {
    assert Tied(s, p) && Tied(s, w);
    assert BhAt(s, col, bh, w) && RedAt(s, col, w);
    assert BhAt(t, col', bh', w);
    forall n | n in t && n != p ensures BhAt(t, col', bh', n) {
      if n != w {
        assert Tied(s, n) && BhAt(s, col, bh, n);
      }
    }
  }

  /** Red sibling: it is rotated above p, which turns red; the new sibling is black. */
  lemma RemoveRedSiblingLeft(s: Links, t: Links, col: Paint, bh: Heights, p: Node, x: Node?, w: Node, col': Paint,
      bh': Heights)
    requires RedSibling(s, t, col, bh, p, x, w, col', bh')
    ensures Short(t, col', bh', p, x) && t[p].left == x && t[p].right != null && t[p].right in t
            && !IsRed(col', t[p].right)
    ensures NoRedRed(t, col', null)
  {
    RemoveRedSiblingPaths(s, t, col, bh, p, x, w, col', bh');
    assert Tied(s, p) && Tied(s, w);
    assert BhAt(s, col, bh, w) && RedAt(s, col, w);
    var v := s[w].left;
    assert v != null ==> RedAt(s, col, v) && Tied(s, v);
    forall n | n in t ensures RedAt(t, col', n) {
      assert Tied(s, n) && RedAt(s, col, n);
    }
  }

  ghost predicate BlackNephews(s: Links, col: Paint, bh: Heights, p: Node, x: Node?, w: Node, col': Paint, bh': Heights)
  {
    && ShortLeft(s, col, bh, p, x, w) && !IsRed(col, w) && !IsRed(col, s[w].left) && !IsRed(col, s[w].right)
    && Bh(bh, w) > 0 && Bh(bh, p) > 0
    && col' == col[w := Red] && bh' == bh[w := Bh(bh, w) - 1][p := Bh(bh, p) - 1]
  }

  lemma RemoveBlackNephewsPaths(s: Links, col: Paint, bh: Heights, p: Node, x: Node?, w: Node, col': Paint,
      bh': Heights)
    requires BlackNephews(s, col, bh, p, x, w, col', bh')
    ensures Balanced(s, col', bh', s[p].parent)
  {
    assert Tied(s, p) && Tied(s, w) && BhAt(s, col, bh, w);
    assert BhAt(s, col', bh', w) && BhAt(s, col', bh', p);
    forall n | n in s && n != s[p].parent ensures BhAt(s, col', bh', n) {
      if n != w && n != p {
        assert Tied(s, n) && BhAt(s, col, bh, n);
      }
    }
  }

  /** Black sibling with black children: it turns red and the shortage moves up to p. */
  lemma RemoveBlackNephewsLeft(s: Links, col: Paint, bh: Heights, p: Node, x: Node?, w: Node, col': Paint, bh': Heights)
    requires BlackNephews(s, col, bh, p, x, w, col', bh')
    ensures Short(s, col', bh', s[p].parent, p) && NoRedRed(s, col', w)
  {
    RemoveBlackNephewsPaths(s, col, bh, p, x, w, col', bh');
    assert Tied(s, p) && Tied(s, w) && BhAt(s, col, bh, w);
    var g := s[p].parent;
    if g != null {
      assert Tied(s, g) && BhAt(s, col, bh, g);
    }
    forall n | n in s && n != w ensures RedAt(s, col', n) {
      assert Tied(s, n) && RedAt(s, col, n);
    }
  }

  lemma RemoveNearNephewPaths(s: Links, t: Links, col: Paint, bh: Heights, p: Node, x: Node?, w: Node, v: Node,
      col': Paint, bh': Heights)
    requires NearNephew(s, t, col, bh, p, x, w, v, col', bh')
    ensures Balanced(t, col', bh', p)
  {
    assert Tied(s, p) && Tied(s, w) && Tied(s, v);
    assert BhAt(s, col, bh, w) && BhAt(s, col, bh, v);
    assert BhAt(t, col', bh', w) && BhAt(t, col', bh', v);
    forall n | n in t && n != p ensures BhAt(t, col', bh', n) {
      if n != w && n != v {
        assert Tied(s, n) && BhAt(s, col, bh, n);
      }
    }
  }

  lemma RemoveNearNephewReds(s: Links, t: Links, col: Paint, bh: Heights, p: Node, x: Node?, w: Node, v: Node,
      col': Paint, bh': Heights)
    requires NearNephew(s, t, col, bh, p, x, w, v, col', bh')
    ensures NoRedRed(t, col', null) && AllTied(t)
  {
    assert Tied(s, p) && Tied(s, w) && Tied(s, v) && RedAt(s, col, v);
    forall n | n in t ensures RedAt(t, col', n) {
      assert Tied(s, n) && RedAt(s, col, n);
    }
    forall n | n in t ensures Tied(t, n) {
      assert Tied(s, n);
    }
  }

  ghost predicate NearNephew(s: Links, t: Links, col: Paint, bh: Heights, p: Node, x: Node?, w: Node, v: Node,
      col': Paint, bh': Heights)
  {
    && ShortLeft(s, col, bh, p, x, w) && !IsRed(col, w) && !IsRed(col, s[w].right)
    && IsRed(col, v) && RotatedRight(s, t, w, v) && v != p && v != x
    && Bh(bh, w) > 0 && col' == col[v := Black][w := Red] && bh' == bh[v := Bh(bh, v) + 1][w := Bh(bh, w) - 1]
  }

  /** Near nephew v red, far nephew black: v is rotated above the sibling and becomes the new one. */
  lemma RemoveNearNephewLeft(s: Links, t: Links, col: Paint, bh: Heights, p: Node, x: Node?, w: Node, v: Node,
      col': Paint, bh': Heights)
    requires NearNephew(s, t, col, bh, p, x, w, v, col', bh')
    ensures ShortLeft(t, col', bh', p, x, v) && IsRed(col', t[v].right)
  {
    RemoveNearNephewPaths(s, t, col, bh, p, x, w, v, col', bh');
    RemoveNearNephewReds(s, t, col, bh, p, x, w, v, col', bh');
    assert Tied(s, p) && Tied(s, w) && Tied(s, v);
    assert BhAt(s, col, bh, w) && BhAt(s, col, bh, v);
  }

  ghost predicate FarNephew(s: Links, t: Links, col: Paint, bh: Heights, p: Node, x: Node?, w: Node, u: Node,
      col': Paint, bh': Heights)
  {
    && ShortLeft(s, col, bh, p, x, w) && !IsRed(col, w)
    && s[w].right == u && IsRed(col, u) && RotatedLeft(s, t, p, w) && u != p && u != w && u != x
    && p in col && col' == col[w := col[p]][p := Black][u := Black]
    && bh' == bh[w := Bh(bh, p)][p := Bh(bh, w)][u := Bh(bh, u) + 1]
  }

  lemma RemoveFarNephewOther(s: Links, t: Links, col: Paint, bh: Heights, p: Node, x: Node?, w: Node, u: Node,
      col': Paint, bh': Heights, n: Node)
    requires FarNephew(s, t, col, bh, p, x, w, u, col', bh')
    requires n in s && n != p && n != w && n != u
    ensures BhAt(t, col', bh', n)
  {
    assert Tied(s, p) && Tied(s, w) && Tied(s, n) && BhAt(s, col, bh, n);
  }

  lemma RemoveFarNephewPaths(s: Links, t: Links, col: Paint, bh: Heights, p: Node, x: Node?, w: Node, u: Node,
      col': Paint, bh': Heights)
    requires FarNephew(s, t, col, bh, p, x, w, u, col', bh')
    ensures Balanced(t, col', bh', null)
  {
    assert Tied(s, p) && Tied(s, w) && Tied(s, u);
    assert BhAt(s, col, bh, w) && BhAt(s, col, bh, u);
    assert BhAt(t, col', bh', w) && BhAt(t, col', bh', u) && BhAt(t, col', bh', p);
    forall n | n in t ensures BhAt(t, col', bh', n) {
      if n != p && n != w && n != u { RemoveFarNephewOther(s, t, col, bh, p, x, w, u, col', bh', n); }
    }
  }

  /** Far nephew u red: rotating the sibling above p makes up for the missing black node. */
  lemma RemoveFarNephewLeft(s: Links, t: Links, col: Paint, bh: Heights, p: Node, x: Node?, w: Node, u: Node,
      col': Paint, bh': Heights)
    requires FarNephew(s, t, col, bh, p, x, w, u, col', bh')
    ensures Balanced(t, col', bh', null) && NoRedRed(t, col', null)
  {
    RemoveFarNephewPaths(s, t, col, bh, p, x, w, u, col', bh');
    assert Tied(s, p) && Tied(s, w) && Tied(s, u);
    assert RedAt(s, col, p);
    forall n | n in t ensures RedAt(t, col', n) {
      assert Tied(s, n) && RedAt(s, col, n);
    }
  }

  // ----- the same removal steps with x on the right of p -----

  ghost predicate ShortRight(s: Links, col: Paint, bh: Heights, p: Node, x: Node?, w: Node)
  {
    && AllTied(s) && NoRedRed(s, col, null) && Short(s, col, bh, p, x)
    && p in s && s[p].right == x && s[p].left == w && w in s && p != w && x != w && s[p].parent != w
    && !IsRed(col, x)
  }

  lemma MirrorShortRight(s: Links, col: Paint, bh: Heights, p: Node, x: Node?, w: Node)
    requires ShortRight(s, col, bh, p, x, w)
    ensures ShortLeft(Mirror(s), col, bh, p, x, w)
  {
    MirrorTied(s);
    MirrorShort(s, col, bh, p, x);
    MirrorPaint(s, col, bh, null);
  }

  lemma UnmirrorShort(t: Links, col: Paint, bh: Heights, p: Node?, x: Node?)
    requires AllTied(t) && Short(Mirror(t), col, bh, p, x)
    ensures Short(t, col, bh, p, x)
  {
    MirrorTied(t);
    MirrorShort(Mirror(t), col, bh, p, x);
    MirrorTwice(t);
  }

  lemma RemoveRedSiblingRight(s: Links, t: Links, col: Paint, bh: Heights, p: Node, x: Node?, w: Node, col': Paint,
      bh': Heights)
    requires ShortRight(s, col, bh, p, x, w) && IsRed(col, w) && RotatedRight(s, t, p, w) && AllTied(t)
    requires col' == col[w := Black][p := Red] && bh' == bh[w := Bh(bh, w) + 1][p := Bh(bh, w)]
    ensures Short(t, col', bh', p, x) && t[p].right == x && t[p].left != null && t[p].left in t
            && !IsRed(col', t[p].left)
    ensures NoRedRed(t, col', null)
  {
    MirrorShortRight(s, col, bh, p, x, w);
    MirrorRotation(s, t, p, w);
    RemoveRedSiblingLeft(Mirror(s), Mirror(t), col, bh, p, x, w, col', bh');
    UnmirrorShort(t, col', bh', p, x);
    MirrorPaint(t, col', bh', null);
  }

  lemma RemoveBlackNephewsRight(s: Links, col: Paint, bh: Heights, p: Node, x: Node?, w: Node, col': Paint,
      bh': Heights)
    requires ShortRight(s, col, bh, p, x, w) && !IsRed(col, w) && !IsRed(col, s[w].left) && !IsRed(col, s[w].right)
    requires Bh(bh, w) > 0 && Bh(bh, p) > 0
    requires col' == col[w := Red] && bh' == bh[w := Bh(bh, w) - 1][p := Bh(bh, p) - 1]
    ensures Short(s, col', bh', s[p].parent, p) && NoRedRed(s, col', w)
  {
    MirrorShortRight(s, col, bh, p, x, w);
    RemoveBlackNephewsLeft(Mirror(s), col, bh, p, x, w, col', bh');
    UnmirrorShort(s, col', bh', s[p].parent, p);
    MirrorPaint(s, col', bh', w);
  }

  lemma RemoveNearNephewRight(s: Links, t: Links, col: Paint, bh: Heights, p: Node, x: Node?, w: Node, v: Node,
      col': Paint, bh': Heights)
    requires ShortRight(s, col, bh, p, x, w) && !IsRed(col, w) && !IsRed(col, s[w].left)
    requires IsRed(col, v) && RotatedLeft(s, t, w, v) && v != p && v != x && AllTied(t)
    requires Bh(bh, w) > 0 && col' == col[v := Black][w := Red] && bh' == bh[v := Bh(bh, v) + 1][w := Bh(bh, w) - 1]
    ensures ShortRight(t, col', bh', p, x, v) && IsRed(col', t[v].left)
  {
    MirrorShortRight(s, col, bh, p, x, w);
    RemoveNearNephewLeft(Mirror(s), Mirror(t), col, bh, p, x, w, v, col', bh');
    UnmirrorShort(t, col', bh', p, x);
    MirrorPaint(t, col', bh', null);
  }

  lemma RemoveFarNephewRight(s: Links, t: Links, col: Paint, bh: Heights, p: Node, x: Node?, w: Node, u: Node,
      col': Paint, bh': Heights)
    requires ShortRight(s, col, bh, p, x, w) && !IsRed(col, w)
    requires s[w].left == u && IsRed(col, u) && RotatedRight(s, t, p, w) && u != p && u != w && u != x
    requires p in col && col' == col[w := col[p]][p := Black][u := Black]
    requires bh' == bh[w := Bh(bh, p)][p := Bh(bh, w)][u := Bh(bh, u) + 1]
    ensures Balanced(t, col', bh', null) && NoRedRed(t, col', null)
  {
    MirrorShortRight(s, col, bh, p, x, w);
    MirrorRotation(s, t, p, w);
    RemoveFarNephewLeft(Mirror(s), Mirror(t), col, bh, p, x, w, u, col', bh');
    MirrorPaint(t, col', bh', null);
  }
}
