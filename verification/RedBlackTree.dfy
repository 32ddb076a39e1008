/** Red-black trees with parent links, in place (src/tree.h:292-718).

  Every method follows one macro.  `At(z, t)` says that memory holds the tree t in the hole of z; the ghost
  values z and t follow the pointers the macro moves. */
module RedBlackTree {
  import opened Orders
  import opened RbShape
  import opened RbColor

  ghost function Opt(n: Node?): set<Node> {
    if n == null then {} else {n}
  }

  class Head {
    var root: Node?
    ghost var tree: Tree
    ghost var Repr: set<Node>

    ghost predicate At(z: Path, t: Tree)
      reads this, Repr
    {
      root == Entry(z, Root(t)) && ZipAt(ViewOf(Repr), z, t)
    }

    // ----- rotations and colours

    method RotateLeftLinks(elm: Node)
      requires elm.right != null && elm.right != elm && elm.parent != elm && elm.parent != elm.right
      requires elm.right.left != elm && elm.right.left != elm.right
      requires elm.parent == null || elm.right.left != elm.parent
      modifies `root, elm, elm.right, Opt(elm.right.left), Opt(elm.parent)
      ensures root == if old(elm.parent) == null then old(elm.right) else old(root)
      ensures CellOf(elm) == old(CellOf(elm).(right := elm.right.left, parent := elm.right))
      ensures CellOf(old(elm.right)) == old(CellOf(elm.right).(left := elm, parent := elm.parent))
      ensures old(elm.right.left) != null ==>
        CellOf(old(elm.right.left)) == old(CellOf(elm.right.left).(parent := elm))
      ensures old(elm.parent) != null ==>
        CellOf(old(elm.parent)) == Redirect(old(CellOf(elm.parent)), elm, old(elm.right))
    {
      var tmp := elm.right;
      elm.right := tmp.left;
      if elm.right != null {
        tmp.left.parent := elm;
      }
      tmp.parent := elm.parent;
      if tmp.parent != null {
        if elm == elm.parent.left {
          elm.parent.left := tmp;
        } else {
          elm.parent.right := tmp;
        }
      } else {
        root := tmp;
      }
      tmp.left := elm;
      elm.parent := tmp;
    }

    method RotateLeft(elm: Node, ghost z: Path, ghost t: Tree)
      requires At(z, t) && t.Branch? && t.node == elm && t.right.Branch?
      modifies `root, Repr
      ensures At(z, RotatedLeft(t))
    {
      hide TreeAt, PathAt;
      ghost var m := ViewOf(Repr);
      FocusApart(m, z, t);
      UpRight(m, InRight(z, t.left, elm, t.color), t.right);
      FocusApart(m, InRight(z, t.left, elm, t.color), t.right);
      RotateLeftLinks(elm);
      ghost var m' := ViewOf(Repr);
      RotateLeftTree(m, m', z, t);
      ReplaceAt(m, m', z, t, t.right.node);
    }

    method RotateRightLinks(elm: Node)
      requires elm.left != null && elm.left != elm && elm.parent != elm && elm.parent != elm.left
      requires elm.left.right != elm && elm.left.right != elm.left
      requires elm.parent == null || elm.left.right != elm.parent
      modifies `root, elm, elm.left, Opt(elm.left.right), Opt(elm.parent)
      ensures root == if old(elm.parent) == null then old(elm.left) else old(root)
      ensures CellOf(elm) == old(CellOf(elm).(left := elm.left.right, parent := elm.left))
      ensures CellOf(old(elm.left)) == old(CellOf(elm.left).(right := elm, parent := elm.parent))
      ensures old(elm.left.right) != null ==>
        CellOf(old(elm.left.right)) == old(CellOf(elm.left.right).(parent := elm))
      ensures old(elm.parent) != null ==>
        CellOf(old(elm.parent)) == Redirect(old(CellOf(elm.parent)), elm, old(elm.left))
    {
      var tmp := elm.left;
      elm.left := tmp.right;
      if elm.left != null {
        tmp.right.parent := elm;
      }
      tmp.parent := elm.parent;
      if tmp.parent != null {
        if elm == elm.parent.left {
          elm.parent.left := tmp;
        } else {
          elm.parent.right := tmp;
        }
      } else {
        root := tmp;
      }
      tmp.right := elm;
      elm.parent := tmp;
    }

    method RotateRight(elm: Node, ghost z: Path, ghost t: Tree)
      requires At(z, t) && t.Branch? && t.node == elm && t.left.Branch?
      modifies `root, Repr
      ensures At(z, RotatedRight(t))
    {
      hide TreeAt, PathAt;
      ghost var m := ViewOf(Repr);
      FocusApart(m, z, t);
      UpLeft(m, InLeft(z, elm, t.color, t.right), t.left);
      FocusApart(m, InLeft(z, elm, t.color, t.right), t.left);
      RotateRightLinks(elm);
      ghost var m' := ViewOf(Repr);
      RotateRightTree(m, m', z, t);
      ReplaceAt(m, m', z, t, t.left.node);
    }

    method Paint(n: Node, c: Color, ghost z: Path, ghost t: Tree)
      requires At(z, t) && t.Branch? && t.node == n
      modifies Repr
      ensures At(z, t.(color := c))
    {
      ghost var m := ViewOf(Repr);
      FocusApart(m, z, t);
      n.color := c;
      PaintAt(m, ViewOf(Repr), z, t, c);
    }

    // ----- moving the focus

    /** What the pointers at the focus are. */
    lemma Focus(z: Path, t: Tree)
      requires At(z, t) && t.Branch?
      ensures t.node in Repr && CellOf(t.node) == Cell(Root(t.left), Root(t.right), Bottom(z), t.color)
      ensures !z.Top? ==> z.node in Repr && CellOf(z.node).color == z.color && CellOf(z.node).parent == Bottom(z.up)
      ensures z.InLeft? ==> z.node.left == t.node && z.node.right == Root(z.right) && z.node.right != t.node
      ensures z.InRight? ==> z.node.right == t.node && z.node.left == Root(z.left) && z.node.left != t.node
      ensures t.left.Branch? ==> t.left.node in Repr && t.left.node.color == t.left.color
      ensures t.right.Branch? ==> t.right.node in Repr && t.right.node.color == t.right.color
    {
      FocusApart(ViewOf(Repr), z, t);
    }

    /** The same seen from a hole that may be empty. */
    lemma FocusParent(z: Path, t: Tree)
      requires At(z, t) && !z.Top?
      ensures z.node in Repr && CellOf(z.node).color == z.color && CellOf(z.node).parent == Bottom(z.up)
      ensures z.node.left == Root(if z.InLeft? then t else z.left)
      ensures z.node.right == Root(if z.InLeft? then z.right else t)
      ensures Sibling(z).Branch? ==> Sibling(z).node in Repr && Sibling(z).node.color == Sibling(z).color
    {
      Up(z, t);
      Focus(z.up, Joined(z, t));
    }

    lemma FocusColor(z: Path, t: Tree)
      requires At(z, t)
      ensures t.Branch? ==> t.node in Repr && t.node.color == t.color
    {
    }

    /** The two links of a parent differ. */
    lemma SiblingApart(z: Path, t: Tree)
      requires At(z, t) && !z.Top? && Sibling(z).Branch?
      ensures Sibling(z).node != Root(t)
    {
      if t.Branch? {
        FocusApart(ViewOf(Repr), z, t);
      }
    }

    lemma AtRoot(t: Tree)
      requires At(Top, t)
      ensures root == Root(t)
    {
    }

    lemma DownLeft(z: Path, t: Tree)
      requires At(z, t) && t.Branch?
      ensures At(InLeft(z, t.node, t.color, t.right), t.left)
    {
    }

    lemma DownRight(z: Path, t: Tree)
      requires At(z, t) && t.Branch?
      ensures At(InRight(z, t.left, t.node, t.color), t.right)
    {
    }

    lemma Up(z: Path, t: Tree)
      requires At(z, t) && !z.Top?
      ensures At(z.up, Joined(z, t))
    {
    }

    lemma ToTop(z: Path, t: Tree)
      requires At(z, t)
      ensures At(Top, Fill(z, t))
    {
      FillAt(ViewOf(Repr), z, t);
    }

    // ----- insertion

    method PaintLeft(n: Node, c: Color, ghost z: Path, ghost t: Tree)
      requires At(z, t) && t.Branch? && t.left.Branch? && t.left.node == n
      modifies Repr
      ensures At(z, t.(left := Painted(t.left, c)))
    {
      ghost var down := InLeft(z, t.node, t.color, t.right);
      DownLeft(z, t);
      Paint(n, c, down, t.left);
      Up(down, Painted(t.left, c));
    }

    method PaintRight(n: Node, c: Color, ghost z: Path, ghost t: Tree)
      requires At(z, t) && t.Branch? && t.right.Branch? && t.right.node == n
      modifies Repr
      ensures At(z, t.(right := Painted(t.right, c)))
    {
      ghost var down := InRight(z, t.left, t.node, t.color);
      DownRight(z, t);
      Paint(n, c, down, t.right);
      Up(down, Painted(t.right, c));
    }

    /** RB_SET_BLACKRED(parent, gparent) and RB_ROTATE_RIGHT(gparent). */
    method LiftLeft(parent: Node, gparent: Node, ghost z: Path, ghost t: Tree)
      requires At(z, t) && t.Branch? && t.node == gparent && t.left.Branch? && t.left.node == parent
      modifies `root, Repr
      ensures At(z, LiftedLeft(t))
    {
      PaintLeft(parent, Black, z, t);
      Paint(gparent, Red, z, t.(left := Painted(t.left, Black)));
      RotateRight(gparent, z, t.(left := Painted(t.left, Black), color := Red));
    }

    /** RB_SET_BLACKRED(parent, gparent) and RB_ROTATE_LEFT(gparent). */
    method LiftRight(parent: Node, gparent: Node, ghost z: Path, ghost t: Tree)
      requires At(z, t) && t.Branch? && t.node == gparent && t.right.Branch? && t.right.node == parent
      modifies `root, Repr
      ensures At(z, LiftedRight(t))
    {
      PaintRight(parent, Black, z, t);
      Paint(gparent, Red, z, t.(right := Painted(t.right, Black)));
      RotateLeft(gparent, z, t.(right := Painted(t.right, Black), color := Red));
    }

    /** The last statement of RB_INSERT_COLOR. */
    method BlackenRoot(ghost z: Path, ghost t: Tree, ghost h: int)
      requires At(z, t) && InsertFault(z, t, h) && BottomBlack(z)
      modifies `tree, Repr
      ensures At(Top, tree) && IsRedBlack(tree) && InOrder(tree) == InOrder(Fill(z, t))
    {
      tree := Fill(z, t);
      ToTop(z, t);
      BlackenFilled(z, t, h);
      Paint(root, Black, Top, tree);
      tree := Painted(tree, Black);
    }

    /** One round of RB_INSERT_COLOR with the parent a left child. */
    method RepairLeft(elm0: Node, parent0: Node, gparent: Node, ghost z0: Path, ghost t0: Tree, ghost h0: int)
      returns (elm: Node, ghost z: Path, ghost t: Tree, ghost h: int)
      requires At(z0, t0) && InsertFault(z0, t0, h0) && t0.node == elm0
      requires !BottomBlack(z0) && parent0 == z0.node && z0.up.InLeft? && gparent == z0.up.node
      modifies `root, Repr
      ensures At(z, t) && InsertFault(z, t, h) && t.node == elm && Length(z) < Length(z0)
      ensures InOrder(Fill(z, t)) == InOrder(Fill(z0, t0))
    {
      hide At;
      var parent := parent0;
      elm, z, t, h := elm0, z0, t0, h0;
      ghost var up, p := z.up, Joined(z, t);
      ghost var top, g := up.up, Joined(up, p);
      assert Length(z) == Length(top) + 2;
      Up(z, t);
      Up(up, p);
      Focus(up, p);
      Focus(top, g);
      var tmp := gparent.right;
      if tmp != null && tmp.color == Red {
        PaintRight(tmp, Black, top, g);
        PaintLeft(parent, Black, top, g.(right := Painted(g.right, Black)));
        Paint(gparent, Red, top, g.(right := Painted(g.right, Black), left := Painted(p, Black)));
        RecolorFault(z, t, h);
        elm, z, t, h := gparent, top, Recolored(g), h + 1;
        FillInOrder(top, g, t);
      } else {
        if parent.right == elm {
          RotateLeft(parent, up, p);
          RotateLeftKeepsOrder(p);
          StraightenFault(z, t, h);
          p := RotatedLeft(p);
          FillInOrder(up, Joined(z, t), p);
          parent, elm := elm, parent;
          z, t := InLeft(up, parent, Red, p.right), p.left;
          Up(up, p);
          g := Joined(up, p);
        }
        LiftFaultLeft(top, gparent, up.right, parent, z.right, t, h);
        LiftLeft(parent, gparent, top, g);
        LiftLeftKeepsOrder(g);
        FillInOrder(top, g, LiftedLeft(g));
        DownLeft(top, LiftedLeft(g));
        z := InLeft(top, parent, Black, LiftedLeft(g).right);
      }
    }

    /** One round of RB_INSERT_COLOR with the parent a right child. */
    method RepairRight(elm0: Node, parent0: Node, gparent: Node, ghost z0: Path, ghost t0: Tree, ghost h0: int)
      returns (elm: Node, ghost z: Path, ghost t: Tree, ghost h: int)
      requires At(z0, t0) && InsertFault(z0, t0, h0) && t0.node == elm0
      requires !BottomBlack(z0) && parent0 == z0.node && z0.up.InRight? && gparent == z0.up.node
      modifies `root, Repr
      ensures At(z, t) && InsertFault(z, t, h) && t.node == elm && Length(z) < Length(z0)
      ensures InOrder(Fill(z, t)) == InOrder(Fill(z0, t0))
    {
      hide At;
      var parent := parent0;
      elm, z, t, h := elm0, z0, t0, h0;
      ghost var up, p := z.up, Joined(z, t);
      ghost var top, g := up.up, Joined(up, p);
      assert Length(z) == Length(top) + 2;
      Up(z, t);
      Up(up, p);
      Focus(up, p);
      Focus(top, g);
      var tmp := gparent.left;
      if tmp != null && tmp.color == Red {
        PaintLeft(tmp, Black, top, g);
        PaintRight(parent, Black, top, g.(left := Painted(g.left, Black)));
        Paint(gparent, Red, top, g.(left := Painted(g.left, Black), right := Painted(p, Black)));
        RecolorFault(z, t, h);
        elm, z, t, h := gparent, top, Recolored(g), h + 1;
        FillInOrder(top, g, t);
      } else {
        if parent.left == elm {
          RotateRight(parent, up, p);
          RotateRightKeepsOrder(p);
          StraightenFault(z, t, h);
          p := RotatedRight(p);
          FillInOrder(up, Joined(z, t), p);
          parent, elm := elm, parent;
          z, t := InRight(up, p.left, parent, Red), p.right;
          Up(up, p);
          g := Joined(up, p);
        }
        LiftFaultRight(top, gparent, up.left, parent, z.left, t, h);
        LiftRight(parent, gparent, top, g);
        LiftRightKeepsOrder(g);
        FillInOrder(top, g, LiftedRight(g));
        DownRight(top, LiftedRight(g));
        z := InRight(top, LiftedRight(g).left, parent, Black);
      }
    }

    /** RB_INSERT_COLOR: elm is red and is the root of the focus; the only fault is that its parent may be
      red as well. */
    method InsertColor(elm0: Node, ghost z0: Path, ghost t0: Tree, ghost h0: int)
      requires At(z0, t0) && InsertFault(z0, t0, h0) && t0.node == elm0
      modifies `root, `tree, Repr
      ensures At(Top, tree) && IsRedBlack(tree) && InOrder(tree) == InOrder(Fill(z0, t0))
    {
      hide At;
      ghost var z, t, h := z0, t0, h0;
      var elm := elm0;
      Focus(z, t);
      var parent := elm.parent;
      while parent != null && parent.color == Red
        invariant At(z, t) && InsertFault(z, t, h) && t.node == elm && parent == Bottom(z)
        invariant parent != null ==> parent in Repr && parent.color == z.color
        invariant InOrder(Fill(z, t)) == InOrder(Fill(z0, t0))
        decreases Length(z)
      {
        FaultAbove(z, t, h);
        Up(z, t);
        Focus(z.up, Joined(z, t));
        var gparent := parent.parent;
        if parent == gparent.left {
          elm, z, t, h := RepairLeft(elm, parent, gparent, z, t, h);
        } else {
          elm, z, t, h := RepairRight(elm, parent, gparent, z, t, h);
        }
        Focus(z, t);
        parent := elm.parent;
      }
      BlackenRoot(z, t, h);
    }

    // ----- removal: colours

    /** A red sibling is rotated above the parent (src/tree.h:454-458). */
    method RaiseSiblingLeft(tmp: Node, parent: Node, ghost z0: Path, ghost t: Tree, ghost h: int)
      returns (ghost z: Path)
      requires At(z0, t) && RemoveFault(z0, t, h) && z0.InLeft? && z0.node == parent
      requires z0.right.Branch? && z0.right.color.Red? && tmp == z0.right.node
      modifies `root, Repr
      ensures At(z, t) && RemoveFault(z, t, h) && InOrder(Fill(z, t)) == InOrder(Fill(z0, t))
      ensures z.InLeft? && z.node == parent && z.color.Red? && z.right.Branch? && z.right.color.Black?
    {
      hide At;
      ghost var up, w, p := z0.up, z0.right, Joined(z0, t);
      Up(z0, t);
      PaintRight(tmp, Black, up, p);
      Paint(parent, Red, up, p.(right := Painted(w, Black)));
      RedSiblingFaultLeft(up, parent, z0.color, w, t, h);
      ghost var q := p.(right := Painted(w, Black), color := Red);
      assert InOrder(q) == InOrder(p);
      RotateLeft(parent, up, q);
      RotateLeftKeepsOrder(q);
      FillInOrder(up, p, RotatedLeft(q));
      DownLeft(up, RotatedLeft(q));
      DownLeft(InLeft(up, tmp, Black, w.right), RotatedLeft(q).left);
      z := InLeft(InLeft(up, tmp, Black, w.right), parent, Red, w.left);
    }

    /** The sibling is black and has a red child (src/tree.h:467-482). */
    method EndShortLeft(tmp0: Node, parent: Node, ghost z: Path, ghost t: Tree, ghost h: int) returns (ghost u: Tree)
      requires At(z, t) && RemoveFault(z, t, h) && IsBlack(t) && z.InLeft? && z.node == parent
      requires var w := z.right;
        w.Branch? && w.color.Black? && w.node == tmp0 && !(IsBlack(w.left) && IsBlack(w.right))
      modifies `root, Repr
      ensures At(z.up, u) && u.Branch? && Sound(z.up, u, h + 1 + Unit(z.color))
      ensures InOrder(Fill(z.up, u)) == InOrder(Fill(z, t))
    {
      hide At;
      var tmp := tmp0;
      ghost var up, c, w := z.up, z.color, z.right;
      Up(z, t);
      DownRight(up, Joined(z, t));
      Focus(InRight(up, t, parent, c), w);
      if tmp.right == null || tmp.right.color == Black {
        var oleft := tmp.left;
        w := TurnInwardLeft(tmp, oleft, InRight(up, t, parent, c), w);
        InwardFaultLeft(up, parent, c, z.right, t, h);
        InwardKeepsOrder(z.right);
        Up(InRight(up, t, parent, c), w);
        Focus(up, Branch(t, parent, c, w));
        tmp := parent.right;
      }
      OutwardFaultLeft(up, parent, c, w, t, h);
      OutwardKeepsOrder(t, parent, c, w);
      u := TurnOutwardLeft(tmp, parent, up, Branch(t, parent, c, w));
      FillInOrder(up, Joined(z, t), u);
    }

    /** One round of RB_REMOVE_COLOR with the hole on the left: `done` is its break. */
    method ShortLeft(parent: Node, ghost z0: Path, ghost t0: Tree, ghost h0: int)
      returns (done: bool, ghost z: Path, ghost t: Tree, ghost h: int)
      requires At(z0, t0) && RemoveFault(z0, t0, h0) && IsBlack(t0) && z0.InLeft? && z0.node == parent
      modifies `root, Repr
      ensures At(z, t) && t.Branch? && InOrder(Fill(z, t)) == InOrder(Fill(z0, t0))
      ensures if done then Sound(z, t, h) else RemoveFault(z, t, h) && t.node == parent
      ensures !done && IsBlack(t) ==> Length(z) < Length(z0)
    {
      hide At;
      z, t, h := z0, t0, h0;
      SiblingExists(z, t, h);
      FocusParent(z, t);
      var tmp := parent.right;
      if tmp.color == Red {
        z := RaiseSiblingLeft(tmp, parent, z, t, h);
        FocusParent(z, t);
        tmp := parent.right;
      }
      ghost var up, c, w := z.up, z.color, z.right;
      Up(z, t);
      DownRight(up, Joined(z, t));
      Focus(InRight(up, t, parent, c), w);
      if (tmp.left == null || tmp.left.color == Black) && (tmp.right == null || tmp.right.color == Black) {
        PaintRight(tmp, Red, up, Joined(z, t));
        BlackNephewsFault(z, t, h);
        FillInOrder(up, Joined(z, t), Branch(t, parent, c, Painted(w, Red)));
        done, z, t, h := false, up, Branch(t, parent, c, Painted(w, Red)), h + Unit(c);
      } else {
        t := EndShortLeft(tmp, parent, z, t, h);
        done, z, h := true, up, h + 1 + Unit(c);
      }
    }

    /** The red near child of the sibling is rotated to the far side (src/tree.h:467-476). */
    method TurnInwardLeft(tmp: Node, oleft: Node?, ghost z: Path, ghost w: Tree) returns (ghost w': Tree)
      requires At(z, w) && w.Branch? && w.node == tmp && w.left.Branch? && oleft == w.left.node
      modifies `root, Repr
      ensures w' == InwardLeft(w) && At(z, w')
    {
      hide At;
      ghost var v := w;
      if oleft != null {
        PaintLeft(oleft, Black, z, v);
        v := v.(left := Painted(v.left, Black));
      }
      Paint(tmp, Red, z, v);
      RotateRight(tmp, z, v.(color := Red));
      w' := InwardLeft(w);
    }

    /** The last rotation of a repair (src/tree.h:477-481). */
    method TurnOutwardLeft(tmp: Node, parent: Node, ghost z: Path, ghost p: Tree) returns (ghost p': Tree)
      requires At(z, p) && p.Branch? && p.node == parent && p.right.Branch? && p.right.node == tmp
      requires p.right.right.Branch?
      modifies `root, Repr
      ensures At(z, p')
      ensures p' == Branch(Branch(p.left, parent, Black, p.right.left), tmp, p.color, Painted(p.right.right, Black))
    {
      hide At;
      Focus(z, p);
      PaintRight(tmp, parent.color, z, p);
      ghost var q := p.(right := Painted(p.right, p.color));
      Paint(parent, Black, z, q);
      q := q.(color := Black);
      DownRight(z, q);
      Focus(InRight(z, q.left, parent, Black), q.right);
      if tmp.right != null {
        PaintRight(tmp.right, Black, InRight(z, q.left, parent, Black), q.right);
        ghost var w := q.right.(right := Painted(q.right.right, Black));
        Up(InRight(z, q.left, parent, Black), w);
        q := q.(right := w);
      }
      RotateLeft(parent, z, q);
      p' := RotatedLeft(q);
    }

    /** A red sibling is rotated above the parent (src/tree.h:487-491). */
    method RaiseSiblingRight(tmp: Node, parent: Node, ghost z0: Path, ghost t: Tree, ghost h: int)
      returns (ghost z: Path)
      requires At(z0, t) && RemoveFault(z0, t, h) && z0.InRight? && z0.node == parent
      requires z0.left.Branch? && z0.left.color.Red? && tmp == z0.left.node
      modifies `root, Repr
      ensures At(z, t) && RemoveFault(z, t, h) && InOrder(Fill(z, t)) == InOrder(Fill(z0, t))
      ensures z.InRight? && z.node == parent && z.color.Red? && z.left.Branch? && z.left.color.Black?
    {
      hide At;
      ghost var up, w, p := z0.up, z0.left, Joined(z0, t);
      Up(z0, t);
      PaintLeft(tmp, Black, up, p);
      Paint(parent, Red, up, p.(left := Painted(w, Black)));
      RedSiblingFaultRight(up, parent, z0.color, w, t, h);
      ghost var q := p.(left := Painted(w, Black), color := Red);
      assert InOrder(q) == InOrder(p);
      RotateRight(parent, up, q);
      RotateRightKeepsOrder(q);
      FillInOrder(up, p, RotatedRight(q));
      DownRight(up, RotatedRight(q));
      DownRight(InRight(up, w.left, tmp, Black), RotatedRight(q).right);
      z := InRight(InRight(up, w.left, tmp, Black), w.right, parent, Red);
    }

    /** The sibling is black and has a red child (src/tree.h:500-516). */
    method EndShortRight(tmp0: Node, parent: Node, ghost z: Path, ghost t: Tree, ghost h: int) returns (ghost u: Tree)
      requires At(z, t) && RemoveFault(z, t, h) && IsBlack(t) && z.InRight? && z.node == parent
      requires var w := z.left;
        w.Branch? && w.color.Black? && w.node == tmp0 && !(IsBlack(w.right) && IsBlack(w.left))
      modifies `root, Repr
      ensures At(z.up, u) && u.Branch? && Sound(z.up, u, h + 1 + Unit(z.color))
      ensures InOrder(Fill(z.up, u)) == InOrder(Fill(z, t))
    {
      hide At;
      var tmp := tmp0;
      ghost var up, c, w := z.up, z.color, z.left;
      Up(z, t);
      DownLeft(up, Joined(z, t));
      Focus(InLeft(up, parent, c, t), w);
      if tmp.left == null || tmp.left.color == Black {
        var oright := tmp.right;
        w := TurnInwardRight(tmp, oright, InLeft(up, parent, c, t), w);
        InwardFaultRight(up, parent, c, z.left, t, h);
        InwardKeepsOrder(z.left);
        Up(InLeft(up, parent, c, t), w);
        Focus(up, Branch(w, parent, c, t));
        tmp := parent.left;
      }
      OutwardFaultRight(up, parent, c, w, t, h);
      OutwardKeepsOrder(t, parent, c, w);
      u := TurnOutwardRight(tmp, parent, up, Branch(w, parent, c, t));
      FillInOrder(up, Joined(z, t), u);
    }

    /** One round of RB_REMOVE_COLOR with the hole on the right: `done` is its break. */
    method ShortRight(parent: Node, ghost z0: Path, ghost t0: Tree, ghost h0: int)
      returns (done: bool, ghost z: Path, ghost t: Tree, ghost h: int)
      requires At(z0, t0) && RemoveFault(z0, t0, h0) && IsBlack(t0) && z0.InRight? && z0.node == parent
      modifies `root, Repr
      ensures At(z, t) && t.Branch? && InOrder(Fill(z, t)) == InOrder(Fill(z0, t0))
      ensures if done then Sound(z, t, h) else RemoveFault(z, t, h) && t.node == parent
      ensures !done && IsBlack(t) ==> Length(z) < Length(z0)
    {
      hide At;
      z, t, h := z0, t0, h0;
      SiblingExists(z, t, h);
      FocusParent(z, t);
      var tmp := parent.left;
      if tmp.color == Red {
        z := RaiseSiblingRight(tmp, parent, z, t, h);
        FocusParent(z, t);
        tmp := parent.left;
      }
      ghost var up, c, w := z.up, z.color, z.left;
      Up(z, t);
      DownLeft(up, Joined(z, t));
      Focus(InLeft(up, parent, c, t), w);
      if (tmp.left == null || tmp.left.color == Black) && (tmp.right == null || tmp.right.color == Black) {
        PaintLeft(tmp, Red, up, Joined(z, t));
        BlackNephewsFault(z, t, h);
        assert Length(z) == 1 + Length(up);
        FillInOrder(up, Joined(z, t), Branch(Painted(w, Red), parent, c, t));
        done, z, t, h := false, up, Branch(Painted(w, Red), parent, c, t), h + Unit(c);
      } else {
        t := EndShortRight(tmp, parent, z, t, h);
        done, z, h := true, up, h + 1 + Unit(c);
      }
    }

    /** The red near child of the sibling is rotated to the far side (src/tree.h:500-509). */
    method TurnInwardRight(tmp: Node, oright: Node?, ghost z: Path, ghost w: Tree) returns (ghost w': Tree)
      requires At(z, w) && w.Branch? && w.node == tmp && w.right.Branch? && oright == w.right.node
      modifies `root, Repr
      ensures w' == InwardRight(w) && At(z, w')
    {
      hide At;
      ghost var v := w;
      if oright != null {
        PaintRight(oright, Black, z, v);
        v := v.(right := Painted(v.right, Black));
      }
      Paint(tmp, Red, z, v);
      RotateLeft(tmp, z, v.(color := Red));
      w' := InwardRight(w);
    }

    /** The last rotation of a repair (src/tree.h:510-514). */
    method TurnOutwardRight(tmp: Node, parent: Node, ghost z: Path, ghost p: Tree) returns (ghost p': Tree)
      requires At(z, p) && p.Branch? && p.node == parent && p.left.Branch? && p.left.node == tmp
      requires p.left.left.Branch?
      modifies `root, Repr
      ensures At(z, p')
      ensures p' == Branch(Painted(p.left.left, Black), tmp, p.color, Branch(p.left.right, parent, Black, p.right))
    {
      hide At;
      Focus(z, p);
      PaintLeft(tmp, parent.color, z, p);
      ghost var q := p.(left := Painted(p.left, p.color));
      Paint(parent, Black, z, q);
      q := q.(color := Black);
      DownLeft(z, q);
      Focus(InLeft(z, parent, Black, q.right), q.left);
      if tmp.left != null {
        PaintLeft(tmp.left, Black, InLeft(z, parent, Black, q.right), q.left);
        ghost var w := q.left.(left := Painted(q.left.left, Black));
        Up(InLeft(z, parent, Black, q.right), w);
        q := q.(left := w);
      }
      RotateRight(parent, z, q);
      p' := RotatedRight(q);
    }

    /** The last statement of RB_REMOVE_COLOR, when the loop has ended by its guard. */
    method BlackenElm(elm: Node?, ghost z: Path, ghost t: Tree, ghost h: int)
      requires At(z, t) && elm == Root(t) && RemoveFault(z, t, h) && (z.Top? || !IsBlack(t))
      modifies `tree, Repr
      ensures At(Top, tree) && IsRedBlack(tree) && InOrder(tree) == InOrder(Fill(z, t))
    {
      BlackenFault(z, t, h);
      tree := Fill(z, t);
      if elm != null {
        tree := Fill(z, Painted(t, Black));
        Paint(elm, Black, z, t);
        ToTop(z, Painted(t, Black));
      } else {
        ToTop(z, t);
      }
    }

    /** The same after its break: the root is black already. */
    method BlackenSound(ghost z: Path, ghost t: Tree, ghost h: int)
      requires At(z, t) && t.Branch? && Sound(z, t, h)
      modifies `tree, Repr
      ensures At(Top, tree) && IsRedBlack(tree) && InOrder(tree) == InOrder(Fill(z, t))
    {
      tree := Fill(z, t);
      ToTop(z, t);
      SoundFilled(z, t, h);
      FillBranch(z, t);
      AtRoot(tree);
      Paint(root, Black, Top, tree);
      assert Painted(tree, Black) == tree;
    }

    /** elm is the root of the focus only if it is the root of the tree. */
    lemma AtTheTop(z: Path, t: Tree)
      requires At(z, t)
      ensures z.Top? <==> Root(t) == root
      ensures root != null && t.Branch? && root == t.node ==> z.Top?
    {
      if !z.Top? {
        PathEntry(ViewOf(Repr), z, Root(t));
        if t.Branch? {
          FocusApart(ViewOf(Repr), z, t);
        }
      }
    }

    /** RB_REMOVE_COLOR: the focus is one black node short. */
    method RemoveColor(parent0: Node?, elm0: Node?, ghost z0: Path, ghost t0: Tree, ghost h0: int)
      requires At(z0, t0) && elm0 == Root(t0) && parent0 == Bottom(z0) && RemoveFault(z0, t0, h0)
      modifies `root, `tree, Repr
      ensures At(Top, tree) && IsRedBlack(tree) && InOrder(tree) == InOrder(Fill(z0, t0))
    {
      hide At;
      ghost var z, t, h := z0, t0, h0;
      var parent, elm := parent0, elm0;
      FocusColor(z, t);
      AtTheTop(z, t);
      while (elm == null || elm.color == Black) && elm != root
        invariant At(z, t) && elm == Root(t) && parent == Bottom(z) && RemoveFault(z, t, h)
        invariant elm != null ==> elm in Repr && elm.color == t.color
        invariant elm == root <==> z.Top?
        invariant InOrder(Fill(z, t)) == InOrder(Fill(z0, t0))
        decreases if IsBlack(t) then 1 + Length(z) else 0
      {
        FocusParent(z, t);
        SiblingExists(z, t, h);
        var done: bool;
        if parent.left == elm {
          SiblingApart(z, t);
          done, z, t, h := ShortLeft(parent, z, t, h);
        } else {
          done, z, t, h := ShortRight(parent, z, t, h);
        }
        if done {
          BlackenSound(z, t, h);
          return;
        }
        Focus(z, t);
        AtTheTop(z, t);
        elm := parent;
        parent := elm.parent;
      }
      BlackenElm(elm, z, t, h);
    }

    // ----- the whole tree

    ghost function Order(): seq<Node>
      reads this
    {
      InOrder(tree)
    }

    ghost predicate Valid()
      reads this, Repr
    {
      At(Top, tree) && IsRedBlack(tree) && Repr == SetOf(Order())
    }

    constructor ()
      ensures Valid() && Order() == []
    {
      root, tree, Repr := null, Leaf, {};
      new;
      assert RedBlack(tree, 0);
    }

    lemma ValidSorted()
      requires Valid()
      ensures Increasing(Order())
    {
      TreeSorted(ViewOf(Repr), tree, null, Open, Open);
    }

    /** Nothing in the tree has key k when the search for it has ended at an empty hole. */
    lemma Missing(z: Path, k: int)
      requires At(z, Leaf) && Between(Lo(z), k, Hi(z))
      ensures forall n | n in Before(z) :: n.key < k
      ensures forall n | n in After(z) :: k < n.key
      ensures InOrder(Fill(z, Leaf)) == Before(z) + After(z)
    {
      PathKeys(ViewOf(Repr), z, null, k);
      FillSplits(z, Leaf);
    }

    /** RB_SET and the link from the parent: the new node takes the empty hole. */
    method Attach(elm: Node, parent: Node?, leftward: bool, ghost z: Path)
      requires At(z, Leaf) && elm !in Repr && Between(Lo(z), elm.key, Hi(z))
      requires parent == Bottom(z) && (parent != null ==> leftward == z.InLeft?)
      modifies `root, `Repr, Repr, elm
      ensures At(z, Branch(Leaf, elm, Red, Leaf)) && Repr == old(Repr) + {elm}
    {
      ghost var m := ViewOf(Repr);
      elm.parent := parent;
      elm.left, elm.right := null, null;
      elm.color := Red;
      if parent != null {
        if leftward {
          parent.left := elm;
        } else {
          parent.right := elm;
        }
      } else {
        root := elm;
      }
      Repr := Repr + {elm};
      PlugFrame(m, ViewOf(Repr), z, null, elm);
      assert CellOf(elm) == Cell(null, null, Bottom(z), Red);
      assert TreeAt(ViewOf(Repr), Leaf, elm, Key(elm.key), Hi(z));
      assert TreeAt(ViewOf(Repr), Branch(Leaf, elm, Red, Leaf), Bottom(z), Lo(z), Hi(z));
    }

    method Insert(elm: Node) returns (found: Node?)
      requires Valid() && elm !in Repr
      modifies this, Repr, elm
      ensures Valid()
      ensures found != null ==>
        && found in old(Order()) && found.key == elm.key
        && unchanged(this) && unchanged(Repr) && unchanged(elm)
      ensures found == null ==>
        && (forall n | n in old(Order()) :: n.key != elm.key)
        && AddedTo(old(Order()), elm, Order())
    {
      hide At;
      AtRoot(tree);
      ghost var z, t := Top, tree;
      ghost var h :| RedBlack(tree, h);
      var tmp := root;
      var parent: Node? := null;
      var comp := 0;
      while tmp != null
        invariant At(z, t) && tmp == Root(t) && parent == Bottom(z) && Fill(z, t) == tree
        invariant Between(Lo(z), elm.key, Hi(z))
        invariant !z.Top? ==> (comp < 0 <==> z.InLeft?)
        invariant PathOk(z, h) && NoRedRed(t) && BlackDepth(t, h)
        invariant if z.Top? then IsBlack(t) else IsBlack(t) || BottomBlack(z)
        decreases t
        modifies {}
      {
        Focus(z, t);
        parent := tmp;
        comp := elm.key - parent.key;
        if comp < 0 {
          DownLeft(z, t);
          tmp := tmp.left;
          z, t, h := InLeft(z, t.node, t.color, t.right), t.left, h - Unit(t.color);
        } else if comp > 0 {
          DownRight(z, t);
          tmp := tmp.right;
          z, t, h := InRight(z, t.left, t.node, t.color), t.right, h - Unit(t.color);
        } else {
          FillSplits(z, t);
          return tmp;
        }
      }
      Missing(z, elm.key);
      Grow(elm, parent, comp < 0, z);
      AddedBetween(Before(z), elm, After(z));
      return null;
    }

    /** The new node in its place, and the colours repaired. */
    method Grow(elm: Node, parent: Node?, leftward: bool, ghost z: Path)
      requires At(z, Leaf) && elm !in Repr && Between(Lo(z), elm.key, Hi(z))
      requires parent == Bottom(z) && (parent != null ==> leftward == z.InLeft?)
      requires PathOk(z, 0) && Repr == SetOf(Before(z) + After(z))
      modifies this, Repr, elm
      ensures Valid() && Order() == Before(z) + [elm] + After(z)
    {
      hide At;
      Attach(elm, parent, leftward, z);
      FillSplits(z, Branch(Leaf, elm, Red, Leaf));
      assert InOrder(Branch(Leaf, elm, Red, Leaf)) == [elm];
      assert NoRedRed(Leaf) && BlackDepth(Leaf, 0) && IsBlack(Leaf);
      assert InsertFault(z, Branch(Leaf, elm, Red, Leaf), 0);
      InsertColor(elm, z, Branch(Leaf, elm, Red, Leaf), 0);
      AddedBetween(Before(z), elm, After(z));
    }

    // ----- removal: links

    /** Unlinks a node with at most one child; the node's own fields stay as they are (src/tree.h:573-584). */
    method SpliceLinks(elm: Node, child: Node?, parent: Node?)
      requires child == null || (child != elm && child != parent)
      requires parent != elm && (parent != null ==> parent.left == elm || parent.right == elm)
      modifies `root, Opt(child), Opt(parent)
      ensures root == if parent == null then child else old(root)
      ensures child != null ==> CellOf(child) == old(CellOf(child)).(parent := parent)
      ensures parent != null ==> CellOf(parent) == Redirect(old(CellOf(parent)), elm, child)
    {
      if child != null {
        child.parent := parent;
      }
      if parent != null {
        if parent.left == elm {
          parent.left := child;
        } else {
          parent.right := child;
        }
      } else {
        root := child;
      }
    }

    method Splice(elm: Node, child: Node?, parent: Node?, ghost z: Path, ghost t: Tree)
      requires At(z, t) && t.Branch? && t.node == elm && (t.left.Leaf? || t.right.Leaf?)
      requires child == Root(OnlyChild(t)) && parent == Bottom(z)
      modifies `root, Repr
      ensures At(z, OnlyChild(t)) && CellOf(elm) == old(CellOf(elm))
    {
      ghost var m := ViewOf(Repr);
      FocusApart(m, z, t);
      SpliceLinks(elm, child, parent);
      SpliceAt(m, ViewOf(Repr), z, t);
    }

    /** `now` takes over the fields and the place of `was` (src/tree.h:553-564). */
    method ReplaceLinks(was: Node, now: Node)
      requires was != now && was.left != null && was.left != was && was.left != now
      requires was.right != was && was.right != now && was.right != was.left
      requires was.parent != was && was.parent != now && was.parent != was.left
      requires was.parent == null || was.parent != was.right
      modifies `root, now, was.left, Opt(was.right), Opt(was.parent)
      ensures root == if was.parent == null then now else old(root)
      ensures CellOf(now) == old(CellOf(was)) && CellOf(was) == old(CellOf(was))
      ensures CellOf(was.left) == old(CellOf(was.left)).(parent := now)
      ensures was.right != null ==> CellOf(was.right) == old(CellOf(was.right)).(parent := now)
      ensures was.parent != null ==> CellOf(was.parent) == Redirect(old(CellOf(was.parent)), was, now)
    {
      now.left, now.right, now.parent, now.color := was.left, was.right, was.parent, was.color;
      if was.parent != null {
        if was.parent.left == was {
          was.parent.left := now;
        } else {
          was.parent.right := now;
        }
      } else {
        root := now;
      }
      was.left.parent := now;
      if was.right != null {
        was.right.parent := now;
      }
    }

    method Replace(was: Node, now: Node, ghost z: Path, ghost t: Tree)
      requires At(z, t) && t.Branch? && t.node == was && t.left.Branch? && now in Repr
      requires was.key < now.key && Between(Lo(z), now.key, Hi(z))
      requires forall x | x in InOrder(t.right) :: now.key < x.key
      requires now !in InOrder(t.left)
      modifies `root, Repr
      ensures At(z, Replaced(t, now))
    {
      ghost var m := ViewOf(Repr);
      FocusApart(m, z, t);
      assert t.right.Branch? ==> t.right.node in InOrder(t.right);
      assert t.left.node in InOrder(t.left);
      ReplaceLinks(was, now);
      ReplaceRootAt(m, ViewOf(Repr), z, t, now);
    }

    lemma ReAppend(inner: Path, z: Path, t: Tree)
      ensures At(Append(inner, z), t) <==> At(z, Fill(inner, t))
    {
      AppendAt(ViewOf(Repr), inner, z, t);
    }

    /** The part of RB_REMOVE for a node with at most one child. */
    method UnlinkOuter(removed: Node, child: Node?, ghost z: Path, ghost t: Tree, ghost h: int)
      returns (parent: Node?, color: Color, ghost t': Tree, ghost h': int)
      requires At(z, t) && Sound(z, t, h) && t.Branch? && t.node == removed && (t.left.Leaf? || t.right.Leaf?)
      requires child == Root(OnlyChild(t))
      modifies `root, Repr
      ensures At(z, t') && child == Root(t') && parent == Bottom(z) && Shortened(z, t', h', color)
      ensures InOrder(Fill(z, t')) == Others(z, t)
    {
      hide At;
      Focus(z, t);
      parent, color := removed.parent, removed.color;
      Splice(removed, child, parent, z, t);
      t', h' := OnlyChild(t), h - Unit(t.color);
      SpliceColor(z, t, h);
      OnlyChildOrder(z, t);
    }

    /** The successor of the root of the focus, at the left end of its right subtree. */
    lemma SuccessorKeys(z: Path, t: Tree, s: Node, rest: seq<Node>)
      requires At(z, t) && t.Branch? && InOrder(t.right) == [s] + rest
      ensures s in Repr && t.node.key < s.key && Between(Lo(z), s.key, Hi(z)) && s !in InOrder(t.left)
      ensures forall x | x in rest :: s.key < x.key
    {
      var m, n := ViewOf(Repr), t.node;
      TreeKeys(m, t.left, n, Lo(z), Key(n.key));
      TreeKeys(m, t.right, n, Key(n.key), Hi(z));
      TreeSorted(m, t.right, n, Key(n.key), Hi(z));
      assert s in InOrder(t.right);
      forall x | x in rest ensures s.key < x.key {
        var i :| 0 <= i < |rest| && rest[i] == x;
        assert InOrder(t.right)[i + 1] == x && InOrder(t.right)[0] == s;
      }
    }

    /** The walk to the successor (src/tree.h:535-537). */
    method Leftmost(start: Node, ghost base: Path, ghost t: Tree, ghost h: int)
      returns (elm: Node, ghost inner: Path, ghost s: Tree, ghost h': int)
      requires At(base, t) && Sound(base, t, h) && t.Branch? && t.node == start
      ensures At(Append(inner, base), s) && Sound(Append(inner, base), s, h')
      ensures s.Branch? && s.node == elm && s.left.Leaf? && Fill(inner, s) == t && Before(inner) == []
      ensures InOrder(t) != [] && elm == InOrder(t)[0]
    {
      hide At;
      elm, inner, s, h' := start, Top, t, h;
      Focus(base, t);
      while elm.left != null
        invariant At(Append(inner, base), s) && Sound(Append(inner, base), s, h')
        invariant s.Branch? && s.node == elm && elm.left == Root(s.left)
        invariant Fill(inner, s) == t && Before(inner) == []
        decreases s
      {
        DownLeft(Append(inner, base), s);
        elm, inner, s, h' := elm.left, InLeft(inner, elm, s.color, s.right), s.left, h' - Unit(s.color);
        Focus(Append(inner, base), s);
      }
      FillSplits(inner, s);
      assert InOrder(s)[0] == elm;
    }

    /** The part of RB_REMOVE for a node with two children: its successor takes its place. */
    method UnlinkInner(removed: Node, ghost z: Path, ghost t: Tree, ghost h: int)
      returns (parent: Node?, child: Node?, color: Color, ghost z': Path, ghost t': Tree, ghost h': int)
      requires At(z, t) && Sound(z, t, h) && t.Branch? && t.node == removed && t.left.Branch? && t.right.Branch?
      modifies `root, Repr
      ensures At(z', t') && child == Root(t') && parent == Bottom(z') && Shortened(z', t', h', color)
      ensures InOrder(Fill(z', t')) == Others(z, t)
    {
      hide At;
      ghost var l, c := t.left, t.color;
      Focus(z, t);
      DownRight(z, t);
      ghost var base := InRight(z, l, removed, c);
      var elm: Node;
      ghost var inner, s;
      elm, inner, s, h' := Leftmost(removed.right, base, t.right, h - Unit(c));
      ghost var full, rest := Append(inner, base), Fill(inner, s.right);
      Focus(full, s);
      LeftmostOrder(inner, s);
      SuccessorKeys(z, t, elm, InOrder(rest));
      child, parent, color := elm.right, elm.parent, elm.color;
      SpliceColor(full, s, h');
      Splice(elm, child, parent, full, s);
      ReAppend(inner, base, s.right);
      Up(base, rest);
      if elm.parent == removed {
        parent := elm;
      }
      Replace(removed, elm, z, Branch(l, removed, c, rest));
      DownRight(z, Branch(l, elm, c, rest));
      ReAppend(inner, InRight(z, l, elm, c), s.right);
      z', t', h' := Append(inner, InRight(z, l, elm, c)), s.right, h' - Unit(color);
      RenameColor(inner, z, l, removed, elm, c, t', h', color);
      FillAppend(inner, InRight(z, l, elm, c), t');
      SuccessorOrder(z, t, elm, rest);
    }

    lemma FromTop(z: Path, t: Tree)
      requires At(Top, Fill(z, t))
      ensures At(z, t)
    {
      FillAt(ViewOf(Repr), z, t);
    }

    ghost method Settle(z: Path, t: Tree, h: int)
      requires At(z, t) && Sound(z, t, h)
      modifies `tree
      ensures At(Top, tree) && IsRedBlack(tree) && InOrder(tree) == InOrder(Fill(z, t))
    {
      tree := Fill(z, t);
      ToTop(z, t);
      SoundFilled(z, t, h);
    }

    /** A node that is no longer linked is no longer owned. */
    ghost method Forget(n: Node)
      requires At(Top, tree) && IsRedBlack(tree) && n !in Order() && SetOf(Order()) == Repr - {n}
      modifies `Repr
      ensures Valid() && Repr == old(Repr) - {n} && Order() == old(Order())
    {
      ghost var m := ViewOf(Repr);
      Repr := Repr - {n};
      TreeShrink(m, ViewOf(Repr), tree, null, Open, Open);
    }

    /** RB_REMOVE. */
    method Remove(elm: Node) returns (removed: Node)
      requires Valid() && elm in Repr
      modifies this, Repr
      ensures Valid() && removed == elm
      ensures TakenFrom(old(Order()), elm, Order()) && Repr == old(Repr) - {elm}
    {
      hide At;
      removed := elm;
      ghost var h0 :| RedBlack(tree, h0);
      ghost var z, t, h := Locate(Top, tree, h0, elm);
      FromTop(z, t);
      Focus(z, t);
      ValidSorted();
      OthersTaken(z, t);
      var child: Node?, parent: Node?, color: Color;
      if elm.left == null {
        child := elm.right;
        parent, color, t, h := UnlinkOuter(elm, child, z, t, h);
      } else if elm.right == null {
        child := elm.left;
        parent, color, t, h := UnlinkOuter(elm, child, z, t, h);
      } else {
        parent, child, color, z, t, h := UnlinkInner(elm, z, t, h);
      }
      if color == Black {
        RemoveColor(parent, child, z, t, h);
      } else {
        Settle(z, t, h);
      }
      Forget(elm);
    }
  }
}
