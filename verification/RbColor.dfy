/** The colour rules of a red-black tree (src/tree.h:48-57), on trees and on zippers. */
module RbColor {
  import opened RbShape

  ghost predicate IsBlack(t: Tree) {
    t.Leaf? || t.color.Black?
  }

  ghost predicate BottomBlack(z: Path) {
    z.Top? || z.color.Black?
  }

  ghost function Unit(c: Color): nat {
    if c.Black? then 1 else 0
  }

  /** No red node has a red child. */
  ghost predicate NoRedRed(t: Tree) {
    t.Branch? ==>
      (t.color.Red? ==> IsBlack(t.left) && IsBlack(t.right)) && NoRedRed(t.left) && NoRedRed(t.right)
  }

  /** Every way down from the root of t to a leaf meets exactly h black nodes. */
  ghost predicate BlackDepth(t: Tree, h: int) {
    if t.Leaf? then h == 0
    else BlackDepth(t.left, h - Unit(t.color)) && BlackDepth(t.right, h - Unit(t.color))
  }

  ghost predicate RedBlack(t: Tree, h: int) {
    IsBlack(t) && NoRedRed(t) && BlackDepth(t, h)
  }

  // ----- the same rules for the part of the tree around a hole

  /** No red node of the path has a red child; the link from the bottom into the hole is not looked at. */
  ghost predicate PathNoRedRed(z: Path) {
    match z
    case Top => true
    case InLeft(up, _, c, r) =>
      NoRedRed(r) && (c.Red? ==> IsBlack(r) && BottomBlack(up)) && PathNoRedRed(up)
    case InRight(up, l, _, c) =>
      NoRedRed(l) && (c.Red? ==> IsBlack(l) && BottomBlack(up)) && PathNoRedRed(up)
  }

  /** Filling the hole with a tree of black depth h makes all black depths equal. */
  ghost predicate PathDepth(z: Path, h: int) {
    match z
    case Top => true
    case InLeft(up, _, c, r) => BlackDepth(r, h) && PathDepth(up, h + Unit(c))
    case InRight(up, l, _, c) => BlackDepth(l, h) && PathDepth(up, h + Unit(c))
  }

  ghost predicate TopBlack(z: Path) {
    z.Top? || ((z.up.Top? ==> z.color.Black?) && TopBlack(z.up))
  }

  /** A path whose hole wants a tree of black depth h. */
  ghost predicate PathOk(z: Path, h: int) {
    PathNoRedRed(z) && PathDepth(z, h) && TopBlack(z)
  }

  /** Black depth of the whole tree, given that of the hole. */
  ghost function DepthUp(z: Path, h: int): int {
    if z.Top? then h else DepthUp(z.up, h + Unit(z.color))
  }

  lemma FillRedBlack(z: Path, t: Tree, h: int)
    requires PathOk(z, h) && NoRedRed(t) && BlackDepth(t, h)
    requires if z.Top? then IsBlack(t) else IsBlack(t) || BottomBlack(z)
    ensures RedBlack(Fill(z, t), DepthUp(z, h))
    decreases z
  {
    match z
    case Top =>
    case InLeft(up, n, c, r) => FillRedBlack(up, Branch(t, n, c, r), h + Unit(c));
    case InRight(up, l, n, c) => FillRedBlack(up, Branch(l, n, c, t), h + Unit(c));
  }

  lemma DepthNat(t: Tree, h: int)
    requires BlackDepth(t, h)
    ensures h >= 0 && (t.Branch? && t.color.Black? ==> h >= 1)
  {
  }

  ghost function Painted(t: Tree, c: Color): Tree
    requires t.Branch?
  {
    t.(color := c)
  }

  ghost predicate IsRedBlack(t: Tree) {
    exists h: int :: RedBlack(t, h)
  }

  // ----- the fault that insertion repairs

  /** All rules hold, but for the link between the red root of t and its parent. */
  ghost predicate InsertFault(z: Path, t: Tree, h: int) {
    t.Branch? && t.color.Red? && NoRedRed(t) && BlackDepth(t, h) && PathOk(z, h)
  }

  /** A red parent is not the root, and its own parent is black. */
  lemma FaultAbove(z: Path, t: Tree, h: int)
    requires InsertFault(z, t, h) && !BottomBlack(z)
    ensures !z.up.Top? && z.up.color.Black?
  {
  }

  ghost function Recolored(g: Tree): Tree
    requires g.Branch? && g.left.Branch? && g.right.Branch?
  {
    Branch(Painted(g.left, Black), g.node, Red, Painted(g.right, Black))
  }

  /** A red uncle: the fault moves two levels up. */
  lemma RecolorFault(z: Path, t: Tree, h: int)
    requires InsertFault(z, t, h) && !BottomBlack(z) && !z.up.Top?
    requires !IsBlack(if z.up.InLeft? then z.up.right else z.up.left)
    ensures var g := Joined(z.up, Joined(z, t));
      InsertFault(z.up.up, Recolored(g), h + 1) && InOrder(Recolored(g)) == InOrder(g)
  {
    FaultAbove(z, t, h);
    var g := Joined(z.up, Joined(z, t));
    var g' := Recolored(g);
    assert PathOk(z.up, h) && PathOk(z.up.up, h + 1);
    assert BlackDepth(g'.left, h + 1) && BlackDepth(g'.right, h + 1);
    assert NoRedRed(g'.left) && NoRedRed(g'.right);
  }

  /** An inner grandchild: one rotation turns it into an outer one. */
  lemma StraightenFault(z: Path, t: Tree, h: int)
    requires InsertFault(z, t, h) && !BottomBlack(z)
    ensures z.InRight? ==>
      InsertFault(InLeft(z.up, t.node, Red, t.right), Branch(z.left, z.node, Red, t.left), h)
    ensures z.InLeft? ==>
      InsertFault(InRight(z.up, t.left, t.node, Red), Branch(t.right, z.node, Red, z.right), h)
  {
  }

  /** An outer grandchild with a black uncle: one rotation ends the repair. */
  lemma LiftFaultLeft(top: Path, g: Node, u: Tree, p: Node, s: Tree, t: Tree, h: int)
    requires InsertFault(InLeft(InLeft(top, g, Black, u), p, Red, s), t, h) && IsBlack(u)
    ensures InsertFault(InLeft(top, p, Black, Branch(s, g, Red, u)), t, h)
  {
    assert PathOk(InLeft(top, g, Black, u), h);
  }

  lemma LiftFaultRight(top: Path, g: Node, u: Tree, p: Node, s: Tree, t: Tree, h: int)
    requires InsertFault(InRight(InRight(top, u, g, Black), s, p, Red), t, h) && IsBlack(u)
    ensures InsertFault(InRight(top, Branch(u, g, Red, s), p, Black), t, h)
  {
    assert PathOk(InRight(top, u, g, Black), h);
  }

  ghost function LiftedLeft(t: Tree): Tree
    requires t.Branch? && t.left.Branch?
  {
    RotatedRight(t.(left := Painted(t.left, Black), color := Red))
  }

  ghost function LiftedRight(t: Tree): Tree
    requires t.Branch? && t.right.Branch?
  {
    RotatedLeft(t.(right := Painted(t.right, Black), color := Red))
  }

  lemma LiftLeftKeepsOrder(t: Tree)
    requires t.Branch? && t.left.Branch?
    ensures InOrder(LiftedLeft(t)) == InOrder(t)
  {
    RotateRightKeepsOrder(t.(left := Painted(t.left, Black), color := Red));
  }

  lemma LiftRightKeepsOrder(t: Tree)
    requires t.Branch? && t.right.Branch?
    ensures InOrder(LiftedRight(t)) == InOrder(t)
  {
    RotateLeftKeepsOrder(t.(right := Painted(t.right, Black), color := Red));
  }

  lemma BlackenFilled(z: Path, t: Tree, h: int)
    requires InsertFault(z, t, h) && BottomBlack(z)
    ensures var u := Fill(z, t);
      u.Branch? && IsRedBlack(Painted(u, Black)) && InOrder(Painted(u, Black)) == InOrder(u)
  {
    var u := Fill(z, t);
    if z.Top? {
      assert RedBlack(Painted(u, Black), h + 1);
    } else {
      FillRedBlack(z, t, h);
      assert RedBlack(u, DepthUp(z, h));
      FillBranch(z, t);
      assert Painted(u, Black) == u;
    }
  }

  lemma FillBranch(z: Path, t: Tree)
    requires t.Branch?
    ensures Fill(z, t).Branch?
    decreases z
  {
    if !z.Top? {
      FillBranch(z.up, Joined(z, t));
    }
  }

  // ----- a sound tree seen from a focus

  ghost predicate Sound(z: Path, t: Tree, h: int) {
    && PathOk(z, h) && NoRedRed(t) && BlackDepth(t, h)
    && if z.Top? then IsBlack(t) else IsBlack(t) || BottomBlack(z)
  }

  lemma Locate(z: Path, t: Tree, h: int, n: Node) returns (z': Path, t': Tree, h': int)
    requires Sound(z, t, h) && n in InOrder(t)
    ensures Sound(z', t', h') && t'.Branch? && t'.node == n && Fill(z', t') == Fill(z, t)
    decreases t
  {
    if n == t.node {
      return z, t, h;
    } else if n in InOrder(t.left) {
      z', t', h' := Locate(InLeft(z, t.node, t.color, t.right), t.left, h - Unit(t.color), n);
    } else {
      z', t', h' := Locate(InRight(z, t.left, t.node, t.color), t.right, h - Unit(t.color), n);
    }
  }

  // ----- the fault that removal repairs

  /** All rules hold, but t is one black node short and its root may be red below a red parent. */
  ghost predicate RemoveFault(z: Path, t: Tree, h: int) {
    && BlackDepth(t, h) && PathOk(z, h + 1)
    && (t.Branch? ==> NoRedRed(t.left) && NoRedRed(t.right))
  }

  /** A red sibling: one rotation gives the hole a black one. */
  lemma RedSiblingFaultLeft(up: Path, p: Node, c: Color, w: Tree, t: Tree, h: int)
    requires RemoveFault(InLeft(up, p, c, w), t, h) && !IsBlack(w)
    ensures c.Black? && w.left.Branch? && w.left.color.Black?
    ensures RemoveFault(InLeft(InLeft(up, w.node, Black, w.right), p, Red, w.left), t, h)
  {
    assert PathOk(up, h + 2);
    DepthNat(t, h);
    assert BlackDepth(w, h + 1) && BlackDepth(w.left, h + 1) && NoRedRed(w);
  }

  lemma RedSiblingFaultRight(up: Path, p: Node, c: Color, w: Tree, t: Tree, h: int)
    requires RemoveFault(InRight(up, w, p, c), t, h) && !IsBlack(w)
    ensures c.Black? && w.right.Branch? && w.right.color.Black?
    ensures RemoveFault(InRight(InRight(up, w.left, w.node, Black), w.right, p, Red), t, h)
  {
    assert PathOk(up, h + 2);
    DepthNat(t, h);
    assert BlackDepth(w, h + 1) && BlackDepth(w.right, h + 1) && NoRedRed(w);
  }

  /** A black sibling with black children turns red, and the parent's tree is the one in need. */
  lemma BlackNephewsFault(z: Path, t: Tree, h: int)
    requires RemoveFault(z, t, h) && !z.Top? && IsBlack(t)
    requires var w := Sibling(z); w.Branch? && w.color.Black? && IsBlack(w.left) && IsBlack(w.right)
    ensures var p := Joined(z, t);
      RemoveFault(z.up, if z.InLeft? then p.(right := Painted(p.right, Red)) else p.(left := Painted(p.left, Red)),
        h + Unit(z.color))
  {
    assert PathOk(z.up, h + 1 + Unit(z.color));
  }

  ghost function Sibling(z: Path): Tree
    requires !z.Top?
  {
    if z.InLeft? then z.right else z.left
  }

  lemma SiblingExists(z: Path, t: Tree, h: int)
    requires RemoveFault(z, t, h) && !z.Top?
    ensures Sibling(z).Branch?
  {
    DepthNat(t, h);
  }

  /** A red child of the sibling on the near side: one rotation moves it to the far side. */
  ghost function InwardLeft(w: Tree): Tree
    requires w.Branch? && w.left.Branch?
  {
    RotatedRight(w.(left := Painted(w.left, Black), color := Red))
  }

  ghost function InwardRight(w: Tree): Tree
    requires w.Branch? && w.right.Branch?
  {
    RotatedLeft(w.(right := Painted(w.right, Black), color := Red))
  }

  lemma InwardFaultLeft(up: Path, p: Node, c: Color, w: Tree, t: Tree, h: int)
    requires RemoveFault(InLeft(up, p, c, w), t, h)
    requires w.Branch? && w.color.Black? && !IsBlack(w.left) && IsBlack(w.right)
    ensures RemoveFault(InLeft(up, p, c, InwardLeft(w)), t, h)
  {
    assert BlackDepth(w, h + 1) && BlackDepth(w.left, h) && NoRedRed(w) && NoRedRed(w.left);
    assert BlackDepth(InwardLeft(w).right, h) && NoRedRed(InwardLeft(w).right);
  }

  lemma InwardFaultRight(up: Path, p: Node, c: Color, w: Tree, t: Tree, h: int)
    requires RemoveFault(InRight(up, w, p, c), t, h)
    requires w.Branch? && w.color.Black? && !IsBlack(w.right) && IsBlack(w.left)
    ensures RemoveFault(InRight(up, InwardRight(w), p, c), t, h)
  {
    assert BlackDepth(w, h + 1) && BlackDepth(w.right, h) && NoRedRed(w) && NoRedRed(w.right);
    assert BlackDepth(InwardRight(w).left, h) && NoRedRed(InwardRight(w).left);
  }

  /** A red child of the sibling on the far side: one rotation of the parent ends the repair. */
  lemma OutwardFaultLeft(up: Path, p: Node, c: Color, w: Tree, t: Tree, h: int)
    requires RemoveFault(InLeft(up, p, c, w), t, h) && IsBlack(t)
    requires w.Branch? && w.color.Black? && !IsBlack(w.right)
    ensures Sound(up, Branch(Branch(t, p, Black, w.left), w.node, c, Painted(w.right, Black)), h + 1 + Unit(c))
  {
    assert BlackDepth(w, h + 1) && BlackDepth(w.right, h) && NoRedRed(w) && NoRedRed(w.right);
    assert PathOk(up, h + 1 + Unit(c));
    assert BlackDepth(Branch(t, p, Black, w.left), h + 1) && BlackDepth(Painted(w.right, Black), h + 1);
    assert NoRedRed(t);
    assert NoRedRed(Branch(t, p, Black, w.left)) && NoRedRed(Painted(w.right, Black));
  }

  lemma OutwardFaultRight(up: Path, p: Node, c: Color, w: Tree, t: Tree, h: int)
    requires RemoveFault(InRight(up, w, p, c), t, h) && IsBlack(t)
    requires w.Branch? && w.color.Black? && !IsBlack(w.left)
    ensures Sound(up, Branch(Painted(w.left, Black), w.node, c, Branch(w.right, p, Black, t)), h + 1 + Unit(c))
  {
    assert BlackDepth(w, h + 1) && BlackDepth(w.left, h) && NoRedRed(w) && NoRedRed(w.left);
    assert PathOk(up, h + 1 + Unit(c));
    assert BlackDepth(Branch(w.right, p, Black, t), h + 1) && BlackDepth(Painted(w.left, Black), h + 1);
    assert NoRedRed(t);
    assert NoRedRed(Branch(w.right, p, Black, t)) && NoRedRed(Painted(w.left, Black));
  }

  /** Painting the root of the focus black ends the repair. */
  lemma BlackenFault(z: Path, t: Tree, h: int)
    requires RemoveFault(z, t, h) && (z.Top? || !IsBlack(t))
    ensures t.Leaf? ==> IsRedBlack(Fill(z, t))
    ensures t.Branch? ==>
      IsRedBlack(Fill(z, Painted(t, Black))) && InOrder(Fill(z, Painted(t, Black))) == InOrder(Fill(z, t))
  {
    if t.Branch? {
      FillInOrder(z, t, Painted(t, Black));
      if t.color.Red? {
        FillRedBlack(z, Painted(t, Black), h + 1);
        assert RedBlack(Fill(z, Painted(t, Black)), DepthUp(z, h + 1));
      } else {
        assert RedBlack(t, h);
      }
    } else {
      assert RedBlack(t, h);
    }
  }

  lemma SoundFilled(z: Path, t: Tree, h: int)
    requires Sound(z, t, h)
    ensures IsRedBlack(Fill(z, t))
  {
    FillRedBlack(z, t, h);
    assert RedBlack(Fill(z, t), DepthUp(z, h));
  }

  lemma InwardKeepsOrder(w: Tree)
    requires w.Branch?
    ensures w.left.Branch? ==> InOrder(InwardLeft(w)) == InOrder(w)
    ensures w.right.Branch? ==> InOrder(InwardRight(w)) == InOrder(w)
  {
    if w.left.Branch? {
      LiftLeftKeepsOrder(w);
    }
    if w.right.Branch? {
      LiftRightKeepsOrder(w);
    }
  }

  lemma OutwardKeepsOrder(t: Tree, p: Node, c: Color, w: Tree)
    requires w.Branch?
    ensures w.right.Branch? ==>
      InOrder(Branch(Branch(t, p, Black, w.left), w.node, c, Painted(w.right, Black))) == InOrder(Branch(t, p, c, w))
    ensures w.left.Branch? ==>
      InOrder(Branch(Painted(w.left, Black), w.node, c, Branch(w.right, p, Black, t))) == InOrder(Branch(w, p, c, t))
  {
    if w.right.Branch? {
      assert InOrder(w.(right := Painted(w.right, Black))) == InOrder(w);
      RotateLeftKeepsOrder(Branch(t, p, Black, w.(right := Painted(w.right, Black))));
    }
    if w.left.Branch? {
      assert InOrder(w.(left := Painted(w.left, Black))) == InOrder(w);
      RotateRightKeepsOrder(Branch(w.(left := Painted(w.left, Black)), p, Black, t));
    }
  }

  /** What is left when the root of the focus, which has at most one child, is taken out. */
  ghost predicate Shortened(z: Path, t: Tree, h: int, c: Color) {
    if c.Black? then RemoveFault(z, t, h) else Sound(z, t, h)
  }

  lemma SpliceColor(z: Path, t: Tree, h: int)
    requires Sound(z, t, h) && t.Branch? && (t.left.Leaf? || t.right.Leaf?)
    ensures Shortened(z, OnlyChild(t), h - Unit(t.color), t.color)
  {
    assert NoRedRed(t.left) && NoRedRed(t.right);
    assert BlackDepth(t.left, h - Unit(t.color)) && BlackDepth(t.right, h - Unit(t.color));
  }

  /** The colours of a path do not depend on which node stands where. */
  lemma RenameColor(inner: Path, z: Path, l: Tree, n: Node, n': Node, c: Color, t: Tree, h: int, short: Color)
    requires Shortened(Append(inner, InRight(z, l, n, c)), t, h, short)
    ensures Shortened(Append(inner, InRight(z, l, n', c)), t, h, short)
  {
    RenamePath(inner, z, l, n, n', c, if short.Black? then h + 1 else h);
  }

  lemma RenamePath(inner: Path, z: Path, l: Tree, n: Node, n': Node, c: Color, h: int)
    requires PathOk(Append(inner, InRight(z, l, n, c)), h)
    ensures PathOk(Append(inner, InRight(z, l, n', c)), h)
    ensures !Append(inner, InRight(z, l, n, c)).Top? && !Append(inner, InRight(z, l, n', c)).Top?
    ensures BottomBlack(Append(inner, InRight(z, l, n', c))) == BottomBlack(Append(inner, InRight(z, l, n, c)))
  {
    if !inner.Top? {
      RenamePath(inner.up, z, l, n, n', c, h + Unit(inner.color));
    }
  }
}
