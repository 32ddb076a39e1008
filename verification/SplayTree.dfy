/** Top-down splay trees, in place (src/tree.h:158-237). */
module SplayTree {
  import opened Orders
  import opened SplayShape

  class Head {
    var root: Node?
    ghost var tree: Tree
    ghost var Repr: set<Node>

    ghost function Order(): seq<Node>
      reads this
    {
      InOrder(tree)
    }

    ghost predicate Linked()
      reads this, Repr
    {
      root == Root(tree) && TreeAt(ViewOf(Repr), tree, Open, Open)
    }

    ghost predicate Valid()
      reads this, Repr
    {
      Linked() && Repr == SetOf(Order())
    }

    constructor ()
      ensures Valid() && Order() == []
    {
      root, tree, Repr := null, Leaf, {};
    }

    /** The state inside SPLAY: `dummy` is its local __node. */
    ghost predicate Parts(l: Spine, t: Tree, r: Spine, dummy: Node, k: int)
      reads this, Repr, dummy
    {
      && dummy !in Repr && root == Root(t)
      && Cut(ViewOf(Repr), l, t, r, Cell(dummy.left, dummy.right), k)
    }

    /** SPLAY_ROTATE_RIGHT. */
    method RotateRight(tmp: Node, dummy: Node, ghost l: Spine, ghost t: Tree, ghost r: Spine, ghost k: int)
      requires Parts(l, t, r, dummy, k) && t.Branch? && t.left.Branch? && tmp == t.left.node
      modifies `root, Repr
      ensures Parts(l, RotatedRight(t), r, dummy, k)
    {
      ghost var m := ViewOf(Repr);
      assert TreeAt(m, t.left, Edge(l), Key(t.node.key));
      root.left := tmp.right;
      tmp.right := root;
      root := tmp;
      ghost var m' := m[t.node := m[t.node].(left := Root(t.left.right))][tmp := m[tmp].(right := t.node)];
      assert ViewOf(Repr) == m';
      RotateRightCut(m, m', l, t, r, Cell(dummy.left, dummy.right), k);
    }

    method RotateLeft(tmp: Node, dummy: Node, ghost l: Spine, ghost t: Tree, ghost r: Spine, ghost k: int)
      requires Parts(l, t, r, dummy, k) && t.Branch? && t.right.Branch? && tmp == t.right.node
      modifies `root, Repr
      ensures Parts(l, RotatedLeft(t), r, dummy, k)
    {
      ghost var m := ViewOf(Repr);
      assert TreeAt(m, t.right, Key(t.node.key), Edge(r));
      root.right := tmp.left;
      tmp.left := root;
      root := tmp;
      ghost var m' := m[t.node := m[t.node].(right := Root(t.right.left))][tmp := m[tmp].(left := t.node)];
      assert ViewOf(Repr) == m';
      RotateLeftCut(m, m', l, t, r, Cell(dummy.left, dummy.right), k);
    }

    /** SPLAY_LINKLEFT: `right` is the bottom of the right spine, or the dummy. */
    method LinkLeft(right: Node, dummy: Node, ghost l: Spine, ghost t: Tree, ghost r: Spine, ghost k: int)
      returns (right': Node)
      requires Parts(l, t, r, dummy, k) && t.Branch? && k < t.node.key
      requires right == if r.Top? then dummy else r.node
      modifies `root, Repr, dummy
      ensures Parts(l, t.left, Snoc(r, t.node, t.right), dummy, k) && right' == t.node
    {
      ghost var m, d := ViewOf(Repr), Cell(dummy.left, dummy.right);
      right.left := root;
      right' := root;
      root := root.left;
      ghost var m' := if r.Top? then m else m[r.node := m[r.node].(left := t.node)];
      assert ViewOf(Repr) == m';
      LinkLeftCut(m, m', l, t, r, d, k);
    }

    method LinkRight(left: Node, dummy: Node, ghost l: Spine, ghost t: Tree, ghost r: Spine, ghost k: int)
      returns (left': Node)
      requires Parts(l, t, r, dummy, k) && t.Branch? && t.node.key < k
      requires left == if l.Top? then dummy else l.node
      modifies `root, Repr, dummy
      ensures Parts(Snoc(l, t.node, t.left), t.right, r, dummy, k) && left' == t.node
    {
      ghost var m, d := ViewOf(Repr), Cell(dummy.left, dummy.right);
      left.right := root;
      left' := root;
      root := root.right;
      ghost var m' := if l.Top? then m else m[l.node := m[l.node].(right := t.node)];
      assert ViewOf(Repr) == m';
      LinkRightCut(m, m', l, t, r, d, k);
    }

    method AssembleLinks(node: Node, left: Node, right: Node)
      requires root != null && root != node && root != left && root != right && (left == right ==> left == node)
      modifies root, left, right, node
      ensures node.left == if right == node then old(root.right) else old(node.left)
      ensures node.right == if left == node then old(root.left) else old(node.right)
      ensures CellOf(root) == Cell(node.right, node.left)
      ensures left != node ==> CellOf(left) == old(CellOf(left).(right := root.left))
      ensures right != node ==> CellOf(right) == old(CellOf(right).(left := root.right))
    {
      left.right := root.left;
      right.left := root.right;
      root.left := node.right;
      root.right := node.left;
    }

    /** SPLAY_ASSEMBLE. */
    method Assemble(node: Node, left: Node, right: Node, ghost l: Spine, ghost t: Tree, ghost r: Spine, ghost k: int)
      requires Parts(l, t, r, node, k) && t.Branch?
      requires left == (if l.Top? then node else l.node) && right == (if r.Top? then node else r.node)
      modifies this, Repr, node
      ensures Repr == old(Repr) && tree == Assembled(l, t, r) && Linked()
      ensures Order() == Before(l) + InOrder(t) + After(r)
    {
      hide InOrder, Assembled, Before, After, Cut;
      ghost var m, d := ViewOf(Repr), Cell(node.left, node.right);
      SpineEnds(m, l, t, r, d, k);
      AssembleLinks(node, left, right);
      tree := Assembled(l, t, r);
      AssembleCut(m, ViewOf(Repr), l, t, r, d, Cell(node.left, node.right), k);
      AssembledRoot(l, t, r);
    }

    lemma PartsSplit(l: Spine, t: Tree, r: Spine, dummy: Node, k: int)
      requires Parts(l, t, r, dummy, k) && t.Branch?
      requires k < t.node.key ==> t.left.Leaf?
      requires t.node.key < k ==> t.right.Leaf?
      ensures SplitBy(Assembled(l, t, r), k)
    {
      CutSplits(ViewOf(Repr), l, t, r, Cell(dummy.left, dummy.right), k);
    }

    lemma PartsFocus(l: Spine, t: Tree, r: Spine, dummy: Node, k: int)
      requires Parts(l, t, r, dummy, k)
      ensures root == Root(t)
      ensures t.Branch? ==> root in Repr && root.left == Root(t.left) && root.right == Root(t.right)
      ensures t.Branch? && t.left.Branch? ==> t.left.node in Repr && t.left.node.left == Root(t.left.left)
      ensures t.Branch? && t.right.Branch? ==> t.right.node in Repr && t.right.node.right == Root(t.right.right)
    {
      var m := ViewOf(Repr);
      if t.Branch? {
        assert TreeAt(m, t.left, Edge(l), Key(t.node.key)) && TreeAt(m, t.right, Key(t.node.key), Edge(r));
      }
    }

    /** One round of SPLAY for a key below the root: `stop` is its break. */
    method RoundLeft(key: int, right0: Node, node: Node, ghost l: Spine, ghost t0: Tree, ghost r0: Spine)
      returns (stop: bool, right: Node, ghost t: Tree, ghost r: Spine)
      requires Parts(l, t0, r0, node, key) && t0.Branch? && key < t0.node.key
      requires right0 == if r0.Top? then node else r0.node
      modifies `root, Repr, node
      ensures Parts(l, t, r, node, key) && t.Branch? && right == if r.Top? then node else r.node
      ensures Before(l) + InOrder(t) + After(r) == Before(l) + InOrder(t0) + After(r0)
      ensures if stop then key < t.node.key && t.left.Leaf? else Size(t) < Size(t0)
    {
      hide Parts;
      stop, right, t, r := true, right0, t0, r0;
      PartsFocus(l, t, r, node, key);
      var tmp := root.left;
      if tmp == null {
        return;
      }
      if key < tmp.key {
        RotateOrder(t);
        RotateRight(tmp, node, l, t, r, key);
        t := RotatedRight(t);
        PartsFocus(l, t, r, node, key);
        if root.left == null {
          return;
        }
      }
      LinkOrder(l, t, r);
      right := LinkLeft(right, node, l, t, r, key);
      stop, t, r := false, t.left, Snoc(r, t.node, t.right);
    }

    /** One round of SPLAY for a key above the root. */
    method RoundRight(key: int, left0: Node, node: Node, ghost l0: Spine, ghost t0: Tree, ghost r: Spine)
      returns (stop: bool, left: Node, ghost t: Tree, ghost l: Spine)
      requires Parts(l0, t0, r, node, key) && t0.Branch? && t0.node.key < key
      requires left0 == if l0.Top? then node else l0.node
      modifies `root, Repr, node
      ensures Parts(l, t, r, node, key) && t.Branch? && left == if l.Top? then node else l.node
      ensures Before(l) + InOrder(t) + After(r) == Before(l0) + InOrder(t0) + After(r)
      ensures if stop then t.node.key < key && t.right.Leaf? else Size(t) < Size(t0)
    {
      hide Parts;
      stop, left, t, l := true, left0, t0, l0;
      PartsFocus(l, t, r, node, key);
      var tmp := root.right;
      if tmp == null {
        return;
      }
      if key > tmp.key {
        RotateOrder(t);
        RotateLeft(tmp, node, l, t, r, key);
        t := RotatedLeft(t);
        PartsFocus(l, t, r, node, key);
        if root.right == null {
          return;
        }
      }
      LinkOrder(l, t, r);
      left := LinkRight(left, node, l, t, r, key);
      stop, t, l := false, t.right, Snoc(l, t.node, t.left);
    }

    /** SPLAY: brings the node with the key to the root, or a neighbour of where it would be. */
    method Splay(key: int)
      requires Valid() && root != null
      modifies this, Repr
      ensures Valid() && Repr == old(Repr) && Order() == old(Order())
      ensures SplitBy(tree, key)
    {
      hide Parts;
      var node := new Node(0);
      node.left, node.right := null, null;
      var left, right := node, node;
      ghost var l, t, r := Top, tree, Top;
      StartParts(node, key);
      var stop := false;
      while !stop && key != root.key
        invariant Parts(l, t, r, node, key) && t.Branch? && root == t.node && Repr == old(Repr)
        invariant left == (if l.Top? then node else l.node) && right == (if r.Top? then node else r.node)
        invariant Before(l) + InOrder(t) + After(r) == old(Order())
        invariant stop ==> (key < t.node.key && t.left.Leaf?) || (t.node.key < key && t.right.Leaf?)
        decreases !stop, Size(t)
      {
        if key < root.key {
          stop, right, t, r := RoundLeft(key, right, node, l, t, r);
        } else {
          stop, left, t, l := RoundRight(key, left, node, l, t, r);
        }
        PartsFocus(l, t, r, node, key);
      }
      PartsSplit(l, t, r, node, key);
      Assemble(node, left, right, l, t, r, key);
    }

    lemma StartParts(node: Node, key: int)
      requires Valid() && node !in Repr
      ensures Parts(Top, tree, Top, node, key) && root == Root(tree)
      ensures Before(Top) + InOrder(tree) + After(Top) == Order()
    {
    }

    // ----- the operations built on SPLAY

    lemma ValidSorted()
      requires Valid()
      ensures Increasing(Order())
    {
      TreeSorted(ViewOf(Repr), tree, Open, Open);
    }

    /** SPLAY_FIND. */
    method Find(key: int) returns (found: Node?)
      requires Valid()
      modifies this, Repr
      ensures Valid() && Increasing(Order()) && Repr == old(Repr) && Order() == old(Order())
      ensures found != null ==> found in Order() && found.key == key && root == found
      ensures found == null ==> forall n | n in Order() :: n.key != key
    {
      ValidSorted();
      if root == null {
        return null;
      }
      Splay(key);
      if key == root.key {
        return root;
      }
      return null;
    }

    /** The new root takes one side of the old root and the old root itself (src/tree.h:168-179). */
    method RootBefore(elm: Node)
      requires Valid() && SplitBy(tree, elm.key) && elm !in Repr && elm.key < root.key
      modifies this, root, elm
      ensures Valid() && Repr == old(Repr) + {elm} && AddedTo(old(Order()), elm, Order())
    {
      ghost var m, t := ViewOf(Repr), tree;
      elm.left := root.left;
      elm.right := root;
      root.left := null;
      root := elm;
      Repr := Repr + {elm};
      tree := Branch(t.left, elm, Branch(Leaf, t.node, t.right));
      ghost var m' := ViewOf(Repr);
      RootBeforeAt(m, m', t, elm);
      RootBeforeOrder(t, elm);
    }

    method RootAfter(elm: Node)
      requires Valid() && SplitBy(tree, elm.key) && elm !in Repr && root.key < elm.key
      modifies this, root, elm
      ensures Valid() && Repr == old(Repr) + {elm} && AddedTo(old(Order()), elm, Order())
    {
      ghost var m, t := ViewOf(Repr), tree;
      elm.right := root.right;
      elm.left := root;
      root.right := null;
      root := elm;
      Repr := Repr + {elm};
      tree := Branch(Branch(t.left, t.node, Leaf), elm, t.right);
      ghost var m' := ViewOf(Repr);
      RootAfterAt(m, m', t, elm);
      RootAfterOrder(t, elm);
    }

    /** SPLAY_INSERT. */
    method Insert(elm: Node) returns (found: Node?)
      requires Valid() && elm !in Repr
      modifies this, Repr, elm
      ensures Valid() && Increasing(Order())
      ensures found != null ==>
        found in Order() && found.key == elm.key && Order() == old(Order()) && Repr == old(Repr)
      ensures found == null ==>
        && (forall n | n in old(Order()) :: n.key != elm.key)
        && AddedTo(old(Order()), elm, Order()) && Repr == old(Repr) + {elm}
    {
      if root == null {
        elm.left, elm.right := null, null;
        root := elm;
        Repr := {elm};
        tree := Branch(Leaf, elm, Leaf);
        AddedBetween([], elm, []);
        assert old(Order()) == [] + [] && Order() == [] + [elm] + [];
      } else {
        Splay(elm.key);
        if elm.key < root.key {
          RootBefore(elm);
        } else if elm.key > root.key {
          RootAfter(elm);
        } else {
          ValidSorted();
          return root;
        }
      }
      ValidSorted();
      return null;
    }

    /** Gives up the nodes outside of u. */
    ghost method Narrow(u: Tree)
      requires root == Root(u) && TreeAt(ViewOf(Repr), u, Open, Open)
      modifies `tree, `Repr
      ensures tree == u && Valid() && Repr <= old(Repr)
    {
      ghost var m := ViewOf(Repr);
      TreeKeys(m, u, Open, Open);
      tree, Repr := u, SetOf(InOrder(u));
      TreeShrink(m, ViewOf(Repr), u, Open, Open);
    }

    /** The root has no left child (src/tree.h:192). */
    method DropRoot()
      requires Valid() && root != null && root.left == null
      modifies this
      ensures Valid() && Order() == old(InOrder(tree.left) + InOrder(tree.right))
    {
      ghost var t := tree;
      root := root.right;
      TreeWiden(ViewOf(Repr), t.right, Key(t.node.key), Open, Open, Open);
      Narrow(t.right);
      assert InOrder(t.left) + InOrder(t.right) == InOrder(t.right);
    }

    /** The root, which has no right child, gets the tree r (src/tree.h:197). */
    method HangRight(tmp: Node?, ghost r: Tree, ghost others: set<Node>)
      requires Valid() && root != null && tree.right.Leaf? && others !! Repr && others == SetOf(InOrder(r))
      requires tmp == Root(r) && TreeAt(ViewOf(others), r, Key(root.key), Open)
      modifies this, root
      ensures Valid() && Order() == old(Order()) + InOrder(r)
    {
      ghost var t, m, v := tree, ViewOf(Repr), ViewOf(others);
      root.right := tmp;
      tree := Branch(t.left, t.node, r);
      LastOrder(t, r);
      Repr := Repr + others;
      TreeShrink(v, ViewOf(Repr), r, Key(root.key), Open);
      TreeKeys(m, t.left, Open, Key(root.key));
      TreeShrink(m, ViewOf(Repr), t.left, Open, Key(root.key));
    }

    /** Splaying for a key above all others brings up the greatest node. */
    method SplayLast(key: int)
      requires Valid() && root != null && forall n | n in Order() :: n.key < key
      modifies this, Repr
      ensures Valid() && root != null && tree.right.Leaf? && root.key < key
      ensures Order() == old(Order()) && Repr == old(Repr)
    {
      Splay(key);
      LastSplit(tree, key);
      RootInOrder(tree);
    }

    /** The greatest node of the left side takes the root's right side (src/tree.h:194-197). */
    method JoinSides(key: int)
      requires Valid() && root != null && root.left != null && root.key == key
      modifies this, Repr
      ensures Valid() && Order() == old(InOrder(tree.left) + InOrder(tree.right))
    {
      hide InOrder;
      ghost var t, m := tree, ViewOf(Repr);
      ghost var others := SetOf(InOrder(t.right));
      SidesApart(m, ViewOf(others), t);
      var tmp := root.right;
      root := root.left;
      Narrow(t.left);
      SplayLast(key);
      TreeWiden(ViewOf(others), t.right, Key(key), Open, Key(root.key), Open);
      HangRight(tmp, t.right, others);
    }

    /** SPLAY_REMOVE: takes out the node with the key of elm, which need not be elm itself. */
    method Remove(elm: Node) returns (removed: Node?)
      requires Valid()
      modifies this, Repr
      ensures Valid() && Increasing(Order())
      ensures removed == null ==>
        (forall n | n in old(Order()) :: n.key != elm.key) && Order() == old(Order()) && Repr == old(Repr)
      ensures removed != null ==> removed == elm
      ensures removed != null ==>
        exists n | n in old(Order()) && n.key == elm.key ::
          && TakenFrom(old(Order()), n, Order()) && Repr == old(Repr) - {n}
          && (n == removed <==> elm in old(Repr))
    {
      ValidSorted();
      if root == null {
        return null;
      }
      Splay(elm.key);
      if elm.key != root.key {
        return null;
      }
      ghost var t, n := tree, root;
      RootTaken(ViewOf(Repr), t);
      assert n in old(Order()) && n.key == elm.key;
      if elm in old(Repr) {
        SameKey(old(Order()), elm, n);
      }
      if root.left == null {
        DropRoot();
      } else {
        JoinSides(elm.key);
      }
      ValidSorted();
      return elm;
    }
  }

  lemma SameKey(s: seq<Node>, a: Node, b: Node)
    requires Increasing(s) && a in s && b in s && a.key == b.key
    ensures a == b
  {
    var i :| 0 <= i < |s| && s[i] == a;
    var j :| 0 <= j < |s| && s[j] == b;
  }

  /** A tree of one node, and another node with its key: SPLAY_REMOVE takes out the one and returns the other. */
  method OtherReturned() returns (head: Head, inside: Node, elm: Node, removed: Node?)
    ensures inside != elm && inside.key == elm.key
    ensures removed == elm && fresh(head) && head.Order() == []
  {
    head := new Head();
    inside := new Node(7);
    elm := new Node(7);
    var found := head.Insert(inside);
    assert found == null;
    removed := head.Remove(elm);
    assert |head.Order()| == 0;
  }
}
