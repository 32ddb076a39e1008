/** Searching and walking a red-black tree (src/tree.h:622-718, 732-755), and its height. */
module RbQueries {
  import opened Orders
  import opened RbShape
  import opened RbColor
  import opened RedBlackTree

  /** RB_FIND: the node with the key, or none when no node has it. */
  method Find(head: Head, key: int) returns (found: Node?)
    requires head.Valid()
    ensures found != null ==> found in head.Order() && found.key == key
    ensures found == null ==> forall n | n in head.Order() :: n.key != key
  {
    hide Head.At;
    ghost var z, t := Top, head.tree;
    head.AtRoot(t);
    var tmp := head.root;
    while tmp != null
      invariant head.At(z, t) && tmp == Root(t) && Fill(z, t) == head.tree
      invariant Between(Lo(z), key, Hi(z))
      decreases t
    {
      head.Focus(z, t);
      var comp := key - tmp.key;
      if comp < 0 {
        head.DownLeft(z, t);
        tmp, z, t := tmp.left, InLeft(z, tmp, t.color, t.right), t.left;
      } else if comp > 0 {
        head.DownRight(z, t);
        tmp, z, t := tmp.right, InRight(z, t.left, tmp, t.color), t.right;
      } else {
        FillSplits(z, t);
        return tmp;
      }
    }
    head.Missing(z, key);
    return null;
  }

  /** RB_NFIND: the least node whose key is not below the given one. */
  method NFind(head: Head, key: int) returns (res: Node?)
    requires head.Valid()
    ensures res != null ==> res in head.Order() && key <= res.key
    ensures forall n | n in head.Order() && key <= n.key :: res != null && res.key <= n.key
  {
    hide Head.At;
    ghost var z, t := Top, head.tree;
    head.AtRoot(t);
    var tmp := head.root;
    res := null;
    while tmp != null
      invariant head.At(z, t) && tmp == Root(t) && Fill(z, t) == head.tree
      invariant Between(Lo(z), key, Hi(z))
      invariant res == First(After(z))
      decreases t
    {
      head.Focus(z, t);
      var comp := key - tmp.key;
      if comp < 0 {
        res := tmp;
        head.DownLeft(z, t);
        tmp, z, t := tmp.left, InLeft(z, tmp, t.color, t.right), t.left;
      } else if comp > 0 {
        head.DownRight(z, t);
        tmp, z, t := tmp.right, InRight(z, t.left, tmp, t.color), t.right;
      } else {
        FillSplits(z, t);
        head.ValidSorted();
        return tmp;
      }
    }
    head.Missing(z, key);
    head.ValidSorted();
    FirstIsLeast(Before(z), After(z));
  }

  ghost function First(s: seq<Node>): Node? {
    if s == [] then null else s[0]
  }

  ghost function Last(s: seq<Node>): Node? {
    if s == [] then null else s[|s| - 1]
  }

  lemma FirstIsLeast(b: seq<Node>, a: seq<Node>)
    requires Increasing(b + a)
    ensures forall n | n in a :: First(a) != null && First(a).key <= n.key
  {
    forall i | 0 <= i < |a| ensures a[0].key <= a[i].key {
      assert (b + a)[|b|] == a[0] && (b + a)[|b| + i] == a[i];
    }
  }

  // ----- ends

  /** RB_MINMAX: the first node of the order for RB_NEGINF, the last one for RB_INF. */
  method MinMax(head: Head, val: int) returns (parent: Node?)
    requires head.Valid()
    ensures parent == if val < 0 then First(head.Order()) else Last(head.Order())
  {
    hide Head.At;
    ghost var z, t := Top, head.tree;
    head.AtRoot(t);
    var tmp := head.root;
    parent := null;
    while tmp != null
      invariant head.At(z, t) && tmp == Root(t) && Fill(z, t) == head.tree
      invariant parent == Bottom(z)
      invariant val < 0 ==> Before(z) == [] && parent == First(After(z))
      invariant val >= 0 ==> After(z) == [] && parent == Last(Before(z))
      decreases t
    {
      head.Focus(z, t);
      parent := tmp;
      if val < 0 {
        head.DownLeft(z, t);
        tmp, z, t := tmp.left, InLeft(z, tmp, t.color, t.right), t.left;
      } else {
        head.DownRight(z, t);
        tmp, z, t := tmp.right, InRight(z, t.left, tmp, t.color), t.right;
      }
    }
    FillSplits(z, t);
  }

  // ----- neighbours

  /** The neighbours of the node at one place of a sequence. */
  ghost predicate NextAt(s: seq<Node>, i: int, n: Node, next: Node?) {
    0 <= i < |s| && s[i] == n && next == if i + 1 < |s| then s[i + 1] else null
  }

  ghost predicate PrevAt(s: seq<Node>, i: int, n: Node, prev: Node?) {
    0 <= i < |s| && s[i] == n && prev == if i > 0 then s[i - 1] else null
  }

  ghost predicate NextTo(s: seq<Node>, n: Node, next: Node?) {
    exists i: int :: NextAt(s, i, n, next)
  }

  ghost predicate PrevTo(s: seq<Node>, n: Node, prev: Node?) {
    exists i: int :: PrevAt(s, i, n, prev)
  }

  lemma NeighboursOf(b: seq<Node>, n: Node, a: seq<Node>)
    ensures NextTo(b + [n] + a, n, First(a)) && PrevTo(b + [n] + a, n, Last(b))
  {
    assert NextAt(b + [n] + a, |b|, n, First(a));
    assert PrevAt(b + [n] + a, |b|, n, Last(b));
  }

  /** The first node of a non-empty subtree. */
  method DownToFirst(head: Head, start: Node, ghost z0: Path, ghost t0: Tree) returns (elm: Node)
    requires head.At(z0, t0) && t0.Branch? && t0.node == start
    ensures elm == First(InOrder(t0))
  {
    hide Head.At;
    elm := start;
    ghost var z, t := z0, t0;
    head.Focus(z, t);
    while elm.left != null
      invariant head.At(z, t) && t.Branch? && t.node == elm && elm.left == Root(t.left)
      invariant First(InOrder(t0)) == First(InOrder(t))
      decreases t
    {
      assert InOrder(t.left) != [];
      head.DownLeft(z, t);
      elm, z, t := elm.left, InLeft(z, elm, t.color, t.right), t.left;
      head.Focus(z, t);
    }
  }

  method DownToLast(head: Head, start: Node, ghost z0: Path, ghost t0: Tree) returns (elm: Node)
    requires head.At(z0, t0) && t0.Branch? && t0.node == start
    ensures elm == Last(InOrder(t0))
  {
    hide Head.At;
    elm := start;
    ghost var z, t := z0, t0;
    head.Focus(z, t);
    while elm.right != null
      invariant head.At(z, t) && t.Branch? && t.node == elm && elm.right == Root(t.right)
      invariant Last(InOrder(t0)) == Last(InOrder(t))
      decreases t
    {
      assert InOrder(t.right) != [];
      head.DownRight(z, t);
      elm, z, t := elm.right, InRight(z, t.left, elm, t.color), t.right;
      head.Focus(z, t);
    }
  }

  /** The nearest ancestor with the focus on its left. */
  method UpToNext(head: Head, start: Node, ghost z0: Path, ghost t0: Tree) returns (elm: Node?)
    requires head.At(z0, t0) && t0.Branch? && t0.node == start
    ensures elm == First(After(z0))
  {
    hide Head.At;
    var node := start;
    ghost var z, t := z0, t0;
    head.Focus(z, t);
    while node.parent != null && node == node.parent.right
      invariant head.At(z, t) && t.Branch? && t.node == node && node.parent == Bottom(z)
      invariant z.InLeft? ==> z.node.right != node
      invariant z.InRight? ==> z.node.right == node
      invariant After(z) == After(z0)
      decreases z
    {
      head.Up(z, t);
      node, z, t := node.parent, z.up, Joined(z, t);
      head.Focus(z, t);
    }
    return node.parent;
  }

  method UpToPrev(head: Head, start: Node, ghost z0: Path, ghost t0: Tree) returns (elm: Node?)
    requires head.At(z0, t0) && t0.Branch? && t0.node == start
    ensures elm == Last(Before(z0))
  {
    hide Head.At;
    var node := start;
    ghost var z, t := z0, t0;
    head.Focus(z, t);
    while node.parent != null && node == node.parent.left
      invariant head.At(z, t) && t.Branch? && t.node == node && node.parent == Bottom(z)
      invariant z.InRight? ==> z.node.left != node
      invariant z.InLeft? ==> z.node.left == node
      invariant Before(z) == Before(z0)
      decreases z
    {
      head.Up(z, t);
      node, z, t := node.parent, z.up, Joined(z, t);
      head.Focus(z, t);
    }
    return node.parent;
  }

  /** RB_NEXT: the node that follows in key order, or none after the last. */
  method Next(head: Head, elm0: Node) returns (elm: Node?)
    requires head.Valid() && elm0 in head.Repr
    ensures NextTo(head.Order(), elm0, elm)
  {
    hide Head.At;
    elm := elm0;
    ghost var h :| RedBlack(head.tree, h);
    ghost var z, t, _ := Locate(Top, head.tree, h, elm0);
    head.FromTop(z, t);
    head.Focus(z, t);
    RootBetween(z, t);
    NeighboursOf(Before(z) + InOrder(t.left), elm0, InOrder(t.right) + After(z));
    if elm.right != null {
      head.DownRight(z, t);
      elm := DownToFirst(head, elm.right, InRight(z, t.left, elm, t.color), t.right);
    } else {
      assert InOrder(t.right) + After(z) == After(z);
      if elm.parent != null && elm == elm.parent.left {
        elm := elm.parent;
      } else {
        elm := UpToNext(head, elm, z, t);
      }
    }
  }

  /** RB_PREV: the node that precedes in key order, or none before the first. */
  method Prev(head: Head, elm0: Node) returns (elm: Node?)
    requires head.Valid() && elm0 in head.Repr
    ensures PrevTo(head.Order(), elm0, elm)
  {
    hide Head.At;
    elm := elm0;
    ghost var h :| RedBlack(head.tree, h);
    ghost var z, t, _ := Locate(Top, head.tree, h, elm0);
    head.FromTop(z, t);
    head.Focus(z, t);
    RootBetween(z, t);
    NeighboursOf(Before(z) + InOrder(t.left), elm0, InOrder(t.right) + After(z));
    if elm.left != null {
      head.DownLeft(z, t);
      elm := DownToLast(head, elm.left, InLeft(z, elm, t.color, t.right), t.left);
    } else {
      assert Before(z) + InOrder(t.left) == Before(z);
      if elm.parent != null && elm == elm.parent.right {
        elm := elm.parent;
      } else {
        elm := UpToPrev(head, elm, z, t);
      }
    }
  }

  /** In an increasing sequence the two neighbour relations undo each other. */
  lemma PrevUndoesNext(s: seq<Node>, n: Node, next: Node, back: Node?)
    requires Increasing(s)
    requires NextTo(s, n, next) && PrevTo(s, next, back)
    ensures back == n
  {
    var i: int :| NextAt(s, i, n, next);
    var j: int :| PrevAt(s, j, next, back);
    assert s[i + 1].key == s[j].key;
    assert i + 1 == j;
  }

  lemma NextInTurn(s: seq<Node>, k: nat, next: Node?)
    requires Increasing(s) && k < |s| && NextTo(s, s[k], next)
    ensures next == First(s[k + 1..])
  {
    var i: int :| NextAt(s, i, s[k], next);
    assert s[i].key == s[k].key;
  }

  /** RB_FOREACH: every node once, in strictly increasing key order. */
  method ForEach(head: Head) returns (visited: seq<Node>)
    requires head.Valid()
    ensures visited == head.Order() && Increasing(visited)
  {
    head.ValidSorted();
    var x := MinMax(head, -1);
    visited := [];
    while x != null
      invariant |visited| <= |head.Order()| && visited == head.Order()[..|visited|]
      invariant x == First(head.Order()[|visited|..])
      decreases |head.Order()| - |visited|
    {
      ghost var k := |visited|;
      var next := Next(head, x);
      NextInTurn(head.Order(), k, next);
      visited := visited + [x];
      x := next;
    }
  }

  // ----- height

  ghost function Height(t: Tree): nat {
    if t.Leaf? then 0
    else 1 + if Height(t.left) < Height(t.right) then Height(t.right) else Height(t.left)
  }

  ghost function Pow2(n: nat): nat {
    if n == 0 then 1 else 2 * Pow2(n - 1)
  }

  lemma Pow2Sum(a: nat, b: nat)
    ensures Pow2(a + b) == Pow2(a) * Pow2(b)
  {
    if a > 0 {
      Pow2Sum(a - 1, b);
      assert Pow2(a + b) == 2 * (Pow2(a - 1) * Pow2(b));
    }
  }

  lemma Pow2Monotone(a: nat, b: nat)
    requires a <= b
    ensures Pow2(a) <= Pow2(b)
  {
    if a < b {
      Pow2Monotone(a, b - 1);
    }
  }

  lemma SquareMonotone(a: nat, b: nat)
    requires a <= b
    ensures a * a <= b * b
  {
    assert a * a <= a * b <= b * b;
  }

  lemma {:induction false} HeightByDepth(t: Tree, h: int)
    requires NoRedRed(t) && BlackDepth(t, h)
    ensures 0 <= h && Height(t) <= 2 * h + (if IsBlack(t) then 0 else 1)
    ensures Pow2(h) <= |InOrder(t)| + 1
  {
    if t.Branch? {
      HeightByDepth(t.left, h - Unit(t.color));
      HeightByDepth(t.right, h - Unit(t.color));
    }
  }

  /** The height of a tree of n nodes is at most 2 lg(n + 1). */
  lemma HeightBound(t: Tree)
    requires IsRedBlack(t)
    ensures var n := |InOrder(t)|; Pow2(Height(t)) <= (n + 1) * (n + 1)
  {
    var h :| RedBlack(t, h);
    var n := |InOrder(t)|;
    HeightByDepth(t, h);
    Pow2Monotone(Height(t), h + h);
    Pow2Sum(h, h);
    SquareMonotone(Pow2(h), n + 1);
  }
}
