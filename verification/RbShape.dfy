/** The shape of a red-black tree with parent links (src/tree.h:293-331).

  A tree is described by a ghost value: an inductive Tree whose branches hold the nodes.  The loops of
  tree.h walk up or down, so they are followed by a zipper: the subtree in focus and the Path from its
  hole to the root.  TreeAt and PathAt say that the links found in memory (a View) are those of the value.

  All nodes of a subtree have keys strictly between two bounds, and the nodes of a path have keys outside
  of them.  That is the search order, and it is also what keeps the parts of a tree disjoint. */
module RbShape {
  import opened Orders

  datatype Color = Black | Red

  class Node {
    const key: int
    var left: Node?
    var right: Node?
    var parent: Node?
    var color: Color

    constructor (key: int)
      ensures this.key == key
    {
      this.key := key;
      left, right, parent, color := null, null, null, Black;
    }
  }

  datatype Tree = Leaf | Branch(left: Tree, node: Node, color: Color, right: Tree)

  datatype Path =
    | Top
    | InLeft(up: Path, node: Node, color: Color, right: Tree)
    | InRight(up: Path, left: Tree, node: Node, color: Color)

  ghost function Root(t: Tree): Node? {
    if t.Leaf? then null else t.node
  }

  ghost function Bottom(z: Path): Node? {
    if z.Top? then null else z.node
  }

  /** The root of the whole tree, given what stands in the hole. */
  ghost function Entry(z: Path, hole: Node?): Node? {
    if z.Top? then hole else Entry(z.up, z.node)
  }

  ghost function Fill(z: Path, t: Tree): Tree {
    match z
    case Top => t
    case InLeft(up, n, c, r) => Fill(up, Branch(t, n, c, r))
    case InRight(up, l, n, c) => Fill(up, Branch(l, n, c, t))
  }

  /** The subtree whose root is the bottom node of the path. */
  ghost function Joined(z: Path, t: Tree): Tree
    requires !z.Top?
    ensures Fill(z, t) == Fill(z.up, Joined(z, t))
  {
    if z.InLeft? then Branch(t, z.node, z.color, z.right) else Branch(z.left, z.node, z.color, t)
  }

  ghost function Length(z: Path): nat {
    if z.Top? then 0 else 1 + Length(z.up)
  }

  ghost function InOrder(t: Tree): seq<Node> {
    if t.Leaf? then [] else InOrder(t.left) + [t.node] + InOrder(t.right)
  }

  // ----- bounds on the keys that fit a hole

  ghost function Lo(z: Path): Bound {
    match z
    case Top => Open
    case InLeft(up, _, _, _) => Lo(up)
    case InRight(_, _, n, _) => Key(n.key)
  }

  ghost function Hi(z: Path): Bound {
    match z
    case Top => Open
    case InLeft(_, n, _, _) => Key(n.key)
    case InRight(up, _, _, _) => Hi(up)
  }

  // ----- links in memory

  datatype Cell = Cell(left: Node?, right: Node?, parent: Node?, color: Color)

  type View = map<Node, Cell>

  ghost function CellOf(n: Node): Cell
    reads n
  {
    Cell(n.left, n.right, n.parent, n.color)
  }

  ghost function ViewOf(s: set<Node>): (m: View)
    reads s
    ensures m.Keys == s
  {
    map n | n in s :: CellOf(n)
  }

  ghost predicate TreeAt(m: View, t: Tree, p: Node?, lo: Bound, hi: Bound) {
    match t
    case Leaf => true
    case Branch(l, n, c, r) =>
      && n in m && m[n] == Cell(Root(l), Root(r), p, c) && Between(lo, n.key, hi)
      && TreeAt(m, l, n, lo, Key(n.key)) && TreeAt(m, r, n, Key(n.key), hi)
  }

  ghost predicate PathAt(m: View, z: Path, hole: Node?) {
    match z
    case Top => true
    case InLeft(up, n, c, r) =>
      && n in m && m[n] == Cell(hole, Root(r), Bottom(up), c) && Between(Lo(up), n.key, Hi(up))
      && TreeAt(m, r, n, Key(n.key), Hi(up)) && PathAt(m, up, n)
    case InRight(up, l, n, c) =>
      && n in m && m[n] == Cell(Root(l), hole, Bottom(up), c) && Between(Lo(up), n.key, Hi(up))
      && TreeAt(m, l, n, Lo(up), Key(n.key)) && PathAt(m, up, n)
  }

  /** The links in m are those of the tree t in the hole of z. */
  ghost predicate ZipAt(m: View, z: Path, t: Tree) {
    TreeAt(m, t, Bottom(z), Lo(z), Hi(z)) && PathAt(m, z, Root(t))
  }

  // ----- moving the focus

  lemma UpLeft(m: View, z: Path, t: Tree)
    requires z.InLeft?
    ensures ZipAt(m, z, t) <==> ZipAt(m, z.up, Branch(t, z.node, z.color, z.right))
  {
  }

  lemma UpRight(m: View, z: Path, t: Tree)
    requires z.InRight?
    ensures ZipAt(m, z, t) <==> ZipAt(m, z.up, Branch(z.left, z.node, z.color, t))
  {
  }

  lemma FillAt(m: View, z: Path, t: Tree)
    ensures ZipAt(m, z, t) <==> ZipAt(m, Top, Fill(z, t))
    ensures Root(Fill(z, t)) == Entry(z, Root(t))
    decreases z
  {
    match z
    case Top =>
    case InLeft(up, n, c, r) => UpLeft(m, z, t); FillAt(m, up, Branch(t, n, c, r));
    case InRight(up, l, n, c) => UpRight(m, z, t); FillAt(m, up, Branch(l, n, c, t));
  }

  /** The path of a hole inside a subtree that itself stands in the hole of z. */
  ghost function Append(inner: Path, z: Path): Path {
    match inner
    case Top => z
    case InLeft(up, n, c, r) => InLeft(Append(up, z), n, c, r)
    case InRight(up, l, n, c) => InRight(Append(up, z), l, n, c)
  }

  lemma AppendAt(m: View, inner: Path, z: Path, t: Tree)
    ensures Fill(Append(inner, z), t) == Fill(z, Fill(inner, t))
    ensures ZipAt(m, Append(inner, z), t) <==> ZipAt(m, z, Fill(inner, t))
    ensures Entry(Append(inner, z), Root(t)) == Entry(z, Root(Fill(inner, t)))
    decreases inner
  {
    match inner
    case Top =>
    case InLeft(up, n, c, r) =>
      UpLeft(m, Append(inner, z), t);
      AppendAt(m, up, z, Branch(t, n, c, r));
    case InRight(up, l, n, c) =>
      UpRight(m, Append(inner, z), t);
      AppendAt(m, up, z, Branch(l, n, c, t));
  }

  lemma FillAppend(inner: Path, z: Path, t: Tree)
    ensures Fill(Append(inner, z), t) == Fill(z, Fill(inner, t))
  {
    AppendAt(map[], inner, z, t);
  }

  lemma FillInOrder(z: Path, t: Tree, u: Tree)
    requires InOrder(t) == InOrder(u)
    ensures InOrder(Fill(z, t)) == InOrder(Fill(z, u))
    decreases z
  {
    match z
    case Top =>
    case InLeft(up, n, c, r) => FillInOrder(up, Branch(t, n, c, r), Branch(u, n, c, r));
    case InRight(up, l, n, c) => FillInOrder(up, Branch(l, n, c, t), Branch(l, n, c, u));
  }

  // ----- order

  /** The nodes before and after the hole. */
  ghost function Before(z: Path): seq<Node> {
    match z
    case Top => []
    case InLeft(up, _, _, _) => Before(up)
    case InRight(up, l, n, _) => Before(up) + InOrder(l) + [n]
  }

  ghost function After(z: Path): seq<Node> {
    match z
    case Top => []
    case InLeft(up, n, _, r) => [n] + InOrder(r) + After(up)
    case InRight(up, _, _, _) => After(up)
  }

  lemma Regroup(a: seq<Node>, b: seq<Node>, c: seq<Node>, d: seq<Node>, e: seq<Node>)
    ensures a + (b + c + d) + e == a + b + (c + d + e)
    ensures a + (b + c + d) + e == (a + b + c) + d + e
  {
  }

  lemma FillSplits(z: Path, t: Tree)
    ensures InOrder(Fill(z, t)) == Before(z) + InOrder(t) + After(z)
    decreases z
  {
    match z
    case Top =>
    case InLeft(up, n, c, r) =>
      FillSplits(up, Branch(t, n, c, r));
      Regroup(Before(up), InOrder(t), [n], InOrder(r), After(up));
    case InRight(up, l, n, c) =>
      FillSplits(up, Branch(l, n, c, t));
      Regroup(Before(up), InOrder(l), [n], InOrder(t), After(up));
  }

  /** The nodes of a tree without its root, seen from above. */
  ghost function Others(z: Path, t: Tree): seq<Node>
    requires t.Branch?
  {
    (Before(z) + InOrder(t.left)) + (InOrder(t.right) + After(z))
  }

  lemma OnlyChildOrder(z: Path, t: Tree)
    requires t.Branch? && (t.left.Leaf? || t.right.Leaf?)
    ensures InOrder(Fill(z, OnlyChild(t))) == Others(z, t)
  {
    FillSplits(z, OnlyChild(t));
    assert InOrder(t.left) == [] || InOrder(t.right) == [];
  }

  /** The tree that is left when the root, which has at most one child, is taken out. */
  ghost function OnlyChild(t: Tree): Tree
    requires t.Branch?
  {
    if t.left.Leaf? then t.right else t.left
  }

  lemma LeftmostOrder(inner: Path, s: Tree)
    requires s.Branch? && s.left.Leaf? && Before(inner) == []
    ensures InOrder(Fill(inner, s)) == [s.node] + InOrder(Fill(inner, s.right))
  {
    FillSplits(inner, s);
    FillSplits(inner, s.right);
    FirstOut(s.node, InOrder(s.right), After(inner));
    hide Fill, After;
  }

  lemma FirstOut(n: Node, b: seq<Node>, c: seq<Node>)
    ensures [] + ([] + [n] + b) + c == [n] + ([] + b + c)
  {
  }

  lemma SuccessorOrder(z: Path, t: Tree, s: Node, rest: Tree)
    requires t.Branch? && InOrder(t.right) == [s] + InOrder(rest)
    ensures InOrder(Fill(z, Branch(t.left, s, t.color, rest))) == Others(z, t)
  {
    FillSplits(z, Branch(t.left, s, t.color, rest));
    Regroup(Before(z), InOrder(t.left), [s], InOrder(rest), After(z));
    assert InOrder(t.left) + [s] + InOrder(rest) == InOrder(t.left) + InOrder(t.right);
  }

  ghost predicate Increasing(s: seq<Node>) {
    forall i, j :: 0 <= i < j < |s| ==> s[i].key < s[j].key
  }

  lemma TreeKeys(m: View, t: Tree, p: Node?, lo: Bound, hi: Bound)
    requires TreeAt(m, t, p, lo, hi)
    ensures forall n | n in InOrder(t) :: n in m && Between(lo, n.key, hi)
  {
  }

  lemma TreeSorted(m: View, t: Tree, p: Node?, lo: Bound, hi: Bound)
    requires TreeAt(m, t, p, lo, hi)
    ensures Increasing(InOrder(t))
  {
    if t.Branch? {
      TreeKeys(m, t.left, t.node, lo, Key(t.node.key));
      TreeKeys(m, t.right, t.node, Key(t.node.key), hi);
      TreeSorted(m, t.left, t.node, lo, Key(t.node.key));
      TreeSorted(m, t.right, t.node, Key(t.node.key), hi);
    }
  }

  /** A key that fits the hole lies after the nodes before the hole and before those after it. */
  lemma PathKeys(m: View, z: Path, hole: Node?, k: int)
    requires PathAt(m, z, hole) && Between(Lo(z), k, Hi(z))
    ensures forall n | n in Before(z) :: n in m && n.key < k
    ensures forall n | n in After(z) :: n in m && k < n.key
  {
    match z
    case Top =>
    case InLeft(up, n, c, r) =>
      TreeKeys(m, r, n, Key(n.key), Hi(up));
      PathKeys(m, up, n, n.key);
    case InRight(up, l, n, c) =>
      TreeKeys(m, l, n, Lo(up), Key(n.key));
      PathKeys(m, up, n, n.key);
  }

  // ----- what a change of some links leaves alone

  lemma RootBetween(z: Path, t: Tree)
    requires t.Branch?
    ensures InOrder(Fill(z, t)) == (Before(z) + InOrder(t.left)) + [t.node] + (InOrder(t.right) + After(z))
  {
    FillSplits(z, t);
    Regroup(Before(z), InOrder(t.left), [t.node], InOrder(t.right), After(z));
  }

  lemma DistinctRoot(b: seq<Node>, n: Node, a: seq<Node>)
    requires Increasing(b + [n] + a)
    ensures n !in b && n !in a
  {
    var s := b + [n] + a;
    assert s[|b|] == n;
    assert forall j | 0 <= j < |b| :: s[j] == b[j];
    assert forall j | 0 <= j < |a| :: s[|b| + 1 + j] == a[j];
  }

  lemma OthersTaken(z: Path, t: Tree)
    requires t.Branch? && Increasing(InOrder(Fill(z, t)))
    ensures TakenFrom(InOrder(Fill(z, t)), t.node, Others(z, t))
    ensures t.node !in Others(z, t) && SetOf(Others(z, t)) == SetOf(InOrder(Fill(z, t))) - {t.node}
  {
    var b, a := Before(z) + InOrder(t.left), InOrder(t.right) + After(z);
    RootBetween(z, t);
    DistinctRoot(b, t.node, a);
    TakenBetween(b, t.node, a);
  }

  lemma TreeFrame(m: View, m': View, t: Tree, p: Node?, lo: Bound, hi: Bound)
    requires TreeAt(m, t, p, lo, hi)
    requires forall n | n in m && Between(lo, n.key, hi) :: n in m' && m'[n] == m[n]
    ensures TreeAt(m', t, p, lo, hi)
  {
  }

  /** The subtree's root, if it has one, was given the parent q. */
  lemma AdoptFrame(m: View, m': View, t: Tree, p: Node?, q: Node?, lo: Bound, hi: Bound)
    requires TreeAt(m, t, p, lo, hi)
    requires forall n | n in m && Between(lo, n.key, hi) ::
      n in m' && m'[n] == if n == Root(t) then m[n].(parent := q) else m[n]
    ensures TreeAt(m', t, q, lo, hi)
  {
    if t.Branch? {
      TreeFrame(m, m', t.left, t.node, lo, Key(t.node.key));
      TreeFrame(m, m', t.right, t.node, Key(t.node.key), hi);
    }
  }

  lemma PathFrame(m: View, m': View, z: Path, hole: Node?)
    requires PathAt(m, z, hole)
    requires forall n | n in m && !Between(Lo(z), n.key, Hi(z)) :: n in m' && m'[n] == m[n]
    ensures PathAt(m', z, hole)
  {
    match z
    case Top =>
    case InLeft(up, n, c, r) => TreeFrame(m, m', r, n, Key(n.key), Hi(up)); PathFrame(m, m', up, n);
    case InRight(up, l, n, c) => TreeFrame(m, m', l, n, Lo(up), Key(n.key)); PathFrame(m, m', up, n);
  }

  /** The cell of a parent whose link to `was` has been redirected to `now`, as tree.h does it. */
  ghost function Redirect(c: Cell, was: Node?, now: Node?): Cell {
    if c.left == was then c.(left := now) else c.(right := now)
  }

  /** The cell of the bottom node once its hole holds `now`. */
  ghost function Plug(z: Path, now: Node?, c: Cell): Cell {
    if z.InLeft? then c.(left := now) else c.(right := now)
  }

  lemma PlugFrame(m: View, m': View, z: Path, was: Node?, now: Node?)
    requires PathAt(m, z, was)
    requires forall n | n in m && !Between(Lo(z), n.key, Hi(z)) ::
      n in m' && m'[n] == if n == Bottom(z) then Plug(z, now, m[n]) else m[n]
    ensures PathAt(m', z, now)
    ensures Entry(z, now) == if z.Top? then now else Entry(z, was)
  {
    match z
    case Top =>
    case InLeft(up, n, c, r) => TreeFrame(m, m', r, n, Key(n.key), Hi(up)); PathFrame(m, m', up, n);
    case InRight(up, l, n, c) => TreeFrame(m, m', l, n, Lo(up), Key(n.key)); PathFrame(m, m', up, n);
  }

  /** The focus is a tree with root n: its left link, its right link and n itself are in different places. */
  lemma FocusApart(m: View, z: Path, t: Tree)
    requires ZipAt(m, z, t) && t.Branch?
    ensures t.node in m && m[t.node] == Cell(Root(t.left), Root(t.right), Bottom(z), t.color)
    ensures Between(Lo(z), t.node.key, Hi(z))
    ensures t.left.Branch? ==>
      t.left.node in m && m[t.left.node].color == t.left.color && Between(Lo(z), t.left.node.key, Key(t.node.key))
    ensures t.right.Branch? ==>
      t.right.node in m && m[t.right.node].color == t.right.color && Between(Key(t.node.key), t.right.node.key, Hi(z))
    ensures !z.Top? ==> z.node in m && !Between(Lo(z), z.node.key, Hi(z))
    ensures z.InRight? ==> Root(z.left) != t.node && m[z.node].left != t.node && m[z.node].right == t.node
    ensures z.InLeft? ==> Root(z.right) != t.node && m[z.node].right != t.node && m[z.node].left == t.node
  {
    assert t.left.Branch? ==> TreeAt(m, t.left, t.node, Lo(z), Key(t.node.key));
    assert t.right.Branch? ==> TreeAt(m, t.right, t.node, Key(t.node.key), Hi(z));
    match z
    case Top =>
    case InLeft(up, n, c, r) => assert TreeAt(m, r, n, Key(n.key), Hi(up));
    case InRight(up, l, n, c) => assert TreeAt(m, l, n, Lo(up), Key(n.key));
  }

  /** The root of a tree with a non-empty path lies on the path. */
  lemma PathEntry(m: View, z: Path, hole: Node?)
    requires PathAt(m, z, hole) && !z.Top?
    ensures Entry(z, hole) != null && !Between(Lo(z), Entry(z, hole).key, Hi(z))
  {
    if !z.up.Top? {
      PathEntry(m, z.up, z.node);
    }
  }

  lemma PaintAt(m: View, m': View, z: Path, t: Tree, c: Color)
    requires ZipAt(m, z, t) && t.Branch? && t.node in m
    requires forall n | n in m :: n in m' && m'[n] == if n == t.node then m[n].(color := c) else m[n]
    ensures ZipAt(m', z, t.(color := c))
  {
    FocusApart(m, z, t);
    TreeFrame(m, m', t.left, t.node, Lo(z), Key(t.node.key));
    TreeFrame(m, m', t.right, t.node, Key(t.node.key), Hi(z));
    PathFrame(m, m', z, t.node);
  }

  // ----- rotations

  ghost function RotatedLeft(t: Tree): Tree
    requires t.Branch? && t.right.Branch?
  {
    Branch(Branch(t.left, t.node, t.color, t.right.left), t.right.node, t.right.color, t.right.right)
  }

  ghost function RotatedRight(t: Tree): Tree
    requires t.Branch? && t.left.Branch?
  {
    Branch(t.left.left, t.left.node, t.left.color, Branch(t.left.right, t.node, t.color, t.right))
  }

  lemma RotateLeftKeepsOrder(t: Tree)
    requires t.Branch? && t.right.Branch?
    ensures InOrder(RotatedLeft(t)) == InOrder(t)
  {
    var a, b, c := InOrder(t.left), InOrder(t.right.left), InOrder(t.right.right);
    var n, s := [t.node], [t.right.node];
    calc {
      InOrder(RotatedLeft(t));
      (a + n + b) + s + c;
      a + n + (b + s + c);
      InOrder(t);
    }
  }

  lemma RotateRightKeepsOrder(t: Tree)
    requires t.Branch? && t.left.Branch?
    ensures InOrder(RotatedRight(t)) == InOrder(t)
  {
    RotateLeftKeepsOrder(RotatedRight(t));
    assert RotatedLeft(RotatedRight(t)) == t;
  }

  /** What RB_ROTATE_LEFT(elm) and RB_ROTATE_RIGHT(elm) write: elm is the upper node, tmp the child that
    replaces it, mid the subtree that changes sides, and p the parent. */
  ghost predicate RotateWrites(m: View, m': View, elm: Node, tmp: Node, mid: Node?, p: Node?, leftward: bool)
    requires elm in m && tmp in m && (mid != null ==> mid in m) && (p != null ==> p in m)
  {
    && m'.Keys == m.Keys
    && m'[elm] == (if leftward then m[elm].(right := mid, parent := tmp) else m[elm].(left := mid, parent := tmp))
    && m'[tmp] == (if leftward then m[tmp].(left := elm, parent := p) else m[tmp].(right := elm, parent := p))
    && (mid != null ==> m'[mid] == m[mid].(parent := elm))
    && (p != null ==> m'[p] == Redirect(m[p], elm, tmp))
    && forall n | n in m && n != elm && n != tmp && n != mid && n != p :: m'[n] == m[n]
  }

  lemma RotateLeftTree(m: View, m': View, z: Path, t: Tree)
    requires t.Branch? && t.right.Branch? && ZipAt(m, z, t)
    requires t.node in m && t.right.node in m
    requires (t.right.left.Branch? ==> t.right.left.node in m) && (!z.Top? ==> z.node in m)
    requires RotateWrites(m, m', t.node, t.right.node, Root(t.right.left), Bottom(z), true)
    ensures TreeAt(m', RotatedLeft(t), Bottom(z), Lo(z), Hi(z))
  {
    var a, elm, s, b, c := t.left, t.node, t.right.node, t.right.left, t.right.right;
    FocusApart(m, z, t);
    UpRight(m, InRight(z, a, elm, t.color), t.right);
    FocusApart(m, InRight(z, a, elm, t.color), t.right);
    TreeFrame(m, m', a, elm, Lo(z), Key(elm.key));
    AdoptFrame(m, m', b, s, elm, Key(elm.key), Key(s.key));
    TreeFrame(m, m', c, s, Key(s.key), Hi(z));
  }

  lemma RotateRightTree(m: View, m': View, z: Path, t: Tree)
    requires t.Branch? && t.left.Branch? && ZipAt(m, z, t)
    requires t.node in m && t.left.node in m
    requires (t.left.right.Branch? ==> t.left.right.node in m) && (!z.Top? ==> z.node in m)
    requires RotateWrites(m, m', t.node, t.left.node, Root(t.left.right), Bottom(z), false)
    ensures TreeAt(m', RotatedRight(t), Bottom(z), Lo(z), Hi(z))
  {
    var elm, s, a, b, c := t.node, t.left.node, t.left.left, t.left.right, t.right;
    FocusApart(m, z, t);
    UpLeft(m, InLeft(z, elm, t.color, c), t.left);
    FocusApart(m, InLeft(z, elm, t.color, c), t.left);
    TreeFrame(m, m', a, s, Lo(z), Key(s.key));
    AdoptFrame(m, m', b, s, elm, Key(s.key), Key(elm.key));
    TreeFrame(m, m', c, elm, Key(elm.key), Hi(z));
  }

  /** The path above a subtree is unharmed when only nodes with keys inside its hole are written, apart
    from the link of the bottom node. */
  lemma ReplaceAt(m: View, m': View, z: Path, t: Tree, now: Node?)
    requires ZipAt(m, z, t) && t.Branch?
    requires forall n | n in m && !Between(Lo(z), n.key, Hi(z)) ::
      n in m' && m'[n] == if n == Bottom(z) then Redirect(m[n], t.node, now) else m[n]
    ensures PathAt(m', z, now)
    ensures Entry(z, now) == if z.Top? then now else Entry(z, t.node)
  {
    FocusApart(m, z, t);
    PlugFrame(m, m', z, t.node, now);
  }

  // ----- taking a node out

  lemma TreeWiden(m: View, t: Tree, p: Node?, lo: Bound, hi: Bound, lo': Bound, hi': Bound)
    requires TreeAt(m, t, p, lo, hi)
    requires lo'.Key? ==> lo.Key? && lo'.key <= lo.key
    requires hi'.Key? ==> hi.Key? && hi.key <= hi'.key
    ensures TreeAt(m, t, p, lo', hi')
  {
    if t.Branch? {
      TreeWiden(m, t.left, t.node, lo, Key(t.node.key), lo', Key(t.node.key));
      TreeWiden(m, t.right, t.node, Key(t.node.key), hi, Key(t.node.key), hi');
    }
  }

  /** A key below all nodes of a tree may serve as its lower bound. */
  lemma TreeRaise(m: View, t: Tree, p: Node?, lo: Bound, hi: Bound, k: int)
    requires TreeAt(m, t, p, lo, hi)
    requires forall n | n in InOrder(t) :: k < n.key
    ensures TreeAt(m, t, p, Key(k), hi)
  {
    if t.Branch? {
      TreeRaise(m, t.left, t.node, lo, Key(t.node.key), k);
      assert t.node in InOrder(t);
    }
  }

  lemma TreeShrink(m: View, m': View, t: Tree, p: Node?, lo: Bound, hi: Bound)
    requires TreeAt(m, t, p, lo, hi)
    requires forall n | n in InOrder(t) && n in m :: n in m' && m'[n] == m[n]
    ensures TreeAt(m', t, p, lo, hi)
  {
    if t.Branch? {
      assert InOrder(t) == InOrder(t.left) + [t.node] + InOrder(t.right);
      assert t.node in InOrder(t);
      TreeShrink(m, m', t.left, t.node, lo, Key(t.node.key));
      TreeShrink(m, m', t.right, t.node, Key(t.node.key), hi);
    }
  }

  lemma SpliceAt(m: View, m': View, z: Path, t: Tree)
    requires ZipAt(m, z, t) && t.Branch? && (t.left.Leaf? || t.right.Leaf?)
    requires forall n | n in m && n != t.node ::
      && n in m'
      && (n == Root(OnlyChild(t)) ==> m'[n] == m[n].(parent := Bottom(z)))
      && (n != Root(OnlyChild(t)) ==>
            m'[n] == if n == Bottom(z) then Redirect(m[n], t.node, Root(OnlyChild(t))) else m[n])
    ensures ZipAt(m', z, OnlyChild(t))
    ensures Entry(z, Root(OnlyChild(t))) == if z.Top? then Root(OnlyChild(t)) else Entry(z, t.node)
  {
    var u, k := OnlyChild(t), t.node.key;
    FocusApart(m, z, t);
    if t.left.Leaf? {
      AdoptFrame(m, m', u, t.node, Bottom(z), Key(k), Hi(z));
      TreeWiden(m', u, Bottom(z), Key(k), Hi(z), Lo(z), Hi(z));
    } else {
      AdoptFrame(m, m', u, t.node, Bottom(z), Lo(z), Key(k));
      TreeWiden(m', u, Bottom(z), Lo(z), Key(k), Lo(z), Hi(z));
    }
    ReplaceAt(m, m', z, t, Root(u));
  }

  /** Another node takes the place, the links and the colour of the root of t. */
  ghost function Replaced(t: Tree, n: Node): Tree
    requires t.Branch?
  {
    t.(node := n)
  }

  ghost predicate ReplaceWrites(m: View, m': View, was: Node, now: Node)
    requires was in m && now in m
  {
    var c := m[was];
    forall n | n in m && n != was ::
      && n in m'
      && (n == now ==> m'[n] == c)
      && (n != now && (n == c.left || n == c.right) ==> m'[n] == m[n].(parent := now))
      && (n != now && n != c.left && n != c.right ==>
            m'[n] == if n == c.parent then Redirect(m[n], was, now) else m[n])
  }

  lemma ReplaceRootAt(m: View, m': View, z: Path, t: Tree, n: Node)
    requires ZipAt(m, z, t) && t.Branch? && t.node in m && n in m
    requires t.node.key < n.key && Between(Lo(z), n.key, Hi(z))
    requires forall x | x in InOrder(t.right) :: n.key < x.key
    requires ReplaceWrites(m, m', t.node, n)
    ensures ZipAt(m', z, Replaced(t, n))
    ensures Entry(z, n) == if z.Top? then n else Entry(z, t.node)
  {
    var k := t.node.key;
    FocusApart(m, z, t);
    TreeRaise(m, t.right, t.node, Key(k), Hi(z), n.key);
    assert t.right.Branch? ==> Between(Key(n.key), t.right.node.key, Hi(z));
    AdoptFrame(m, m', t.left, t.node, n, Lo(z), Key(k));
    TreeWiden(m', t.left, n, Lo(z), Key(k), Lo(z), Key(n.key));
    AdoptFrame(m, m', t.right, t.node, n, Key(n.key), Hi(z));
    ReplaceAt(m, m', z, t, n);
  }
}
