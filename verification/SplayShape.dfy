/** The shape of a splay tree while it is taken apart top-down (src/tree.h:59-112, 204-237).

  The tree is cut into three: nodes known to lie before the key, the middle tree, and nodes known to lie
  after it.  The outer two are spines with a hole at their inner end, where the next cut-off node goes. */
module SplayShape {
  import opened Orders

  class Node {
    const key: int
    var left: Node?
    var right: Node?

    constructor (key: int)
      ensures this.key == key
    {
      this.key := key;
      left, right := null, null;
    }
  }

  datatype Tree = Leaf | Branch(left: Tree, node: Node, right: Tree)

  ghost function Root(t: Tree): Node? {
    if t.Leaf? then null else t.node
  }

  ghost function InOrder(t: Tree): seq<Node> {
    if t.Leaf? then [] else InOrder(t.left) + [t.node] + InOrder(t.right)
  }

  ghost function Size(t: Tree): nat {
    if t.Leaf? then 0 else 1 + Size(t.left) + Size(t.right)
  }

  /** A spine: its bottom node, that node's tree away from the hole, and the rest of the spine above. */
  datatype Spine = Top | Snoc(up: Spine, node: Node, side: Tree)

  ghost function Bottom(z: Spine): Node? {
    if z.Top? then null else z.node
  }

  ghost function Edge(z: Spine): Bound {
    if z.Top? then Open else Key(z.node.key)
  }

  /** The left spine with t in its hole, and the right spine with t in its hole. */
  ghost function FillLeft(z: Spine, t: Tree): Tree {
    if z.Top? then t else FillLeft(z.up, Branch(z.side, z.node, t))
  }

  ghost function FillRight(z: Spine, t: Tree): Tree {
    if z.Top? then t else FillRight(z.up, Branch(t, z.node, z.side))
  }

  /** The nodes of the two spines, in order. */
  ghost function Before(z: Spine): seq<Node> {
    if z.Top? then [] else Before(z.up) + InOrder(z.side) + [z.node]
  }

  ghost function After(z: Spine): seq<Node> {
    if z.Top? then [] else [z.node] + InOrder(z.side) + After(z.up)
  }

  // ----- links in memory

  datatype Cell = Cell(left: Node?, right: Node?)

  type View = map<Node, Cell>

  function CellOf(n: Node): Cell
    reads n
  {
    Cell(n.left, n.right)
  }

  ghost function ViewOf(s: set<Node>): (m: View)
    reads s
    ensures m.Keys == s
  {
    map n | n in s :: Cell(n.left, n.right)
  }

  ghost predicate TreeAt(m: View, t: Tree, lo: Bound, hi: Bound) {
    t.Branch? ==>
      && t.node in m && m[t.node] == Cell(Root(t.left), Root(t.right)) && Between(lo, t.node.key, hi)
      && TreeAt(m, t.left, lo, Key(t.node.key)) && TreeAt(m, t.right, Key(t.node.key), hi)
  }

  /** The link that leads to the bottom of a left spine starts at the node above, or is `entry`. */
  ghost predicate LeftAt(m: View, z: Spine, entry: Node?) {
    z.Snoc? ==>
      && z.node in m && m[z.node].left == Root(z.side) && Between(Edge(z.up), z.node.key, Open)
      && TreeAt(m, z.side, Edge(z.up), Key(z.node.key)) && LeftAt(m, z.up, entry)
      && if z.up.Top? then entry == z.node else m[z.up.node].right == z.node
  }

  ghost predicate RightAt(m: View, z: Spine, entry: Node?) {
    z.Snoc? ==>
      && z.node in m && m[z.node].right == Root(z.side) && Between(Open, z.node.key, Edge(z.up))
      && TreeAt(m, z.side, Key(z.node.key), Edge(z.up)) && RightAt(m, z.up, entry)
      && if z.up.Top? then entry == z.node else m[z.up.node].left == z.node
  }

  /** The three parts and the key that separates the outer two. */
  ghost predicate Cut(m: View, l: Spine, t: Tree, r: Spine, dummy: Cell, k: int) {
    && LeftAt(m, l, dummy.right) && RightAt(m, r, dummy.left)
    && TreeAt(m, t, Edge(l), Edge(r)) && Between(Edge(l), k, Edge(r))
  }

  lemma TreeFrame(m: View, m': View, t: Tree, lo: Bound, hi: Bound)
    requires TreeAt(m, t, lo, hi)
    requires forall n | n in m && Between(lo, n.key, hi) :: n in m' && m'[n] == m[n]
    ensures TreeAt(m', t, lo, hi)
  {
  }

  /** Only the link into the hole of the bottom node may have changed. */
  lemma LeftFrame(m: View, m': View, z: Spine, entry: Node?)
    requires LeftAt(m, z, entry)
    requires forall n | n in m && z.Snoc? && n.key <= z.node.key ::
      n in m' && m'[n].left == m[n].left && (n != z.node ==> m'[n].right == m[n].right)
    ensures LeftAt(m', z, entry)
  {
    if z.Snoc? {
      TreeFrame(m, m', z.side, Edge(z.up), Key(z.node.key));
      LeftFrame(m, m', z.up, entry);
    }
  }

  lemma RightFrame(m: View, m': View, z: Spine, entry: Node?)
    requires RightAt(m, z, entry)
    requires forall n | n in m && z.Snoc? && z.node.key <= n.key ::
      n in m' && m'[n].right == m[n].right && (n != z.node ==> m'[n].left == m[n].left)
    ensures RightAt(m', z, entry)
  {
    if z.Snoc? {
      TreeFrame(m, m', z.side, Key(z.node.key), Edge(z.up));
      RightFrame(m, m', z.up, entry);
    }
  }

  // ----- the steps

  ghost function RotatedRight(t: Tree): Tree
    requires t.Branch? && t.left.Branch?
  {
    Branch(t.left.left, t.left.node, Branch(t.left.right, t.node, t.right))
  }

  ghost function RotatedLeft(t: Tree): Tree
    requires t.Branch? && t.right.Branch?
  {
    Branch(Branch(t.left, t.node, t.right.left), t.right.node, t.right.right)
  }

  /** SPLAY_ROTATE_RIGHT. */
  lemma RotateRightCut(m: View, m': View, l: Spine, t: Tree, r: Spine, dummy: Cell, k: int)
    requires Cut(m, l, t, r, dummy, k) && t.Branch? && t.left.Branch? && t.node in m && t.left.node in m
    requires m' == m[t.node := m[t.node].(left := Root(t.left.right))][t.left.node := m[t.left.node].(right := t.node)]
    ensures Cut(m', l, RotatedRight(t), r, dummy, k)
  {
    var n, s := t.node, t.left.node;
    assert TreeAt(m, t.left, Edge(l), Key(n.key));
    TreeFrame(m, m', t.left.left, Edge(l), Key(s.key));
    TreeFrame(m, m', t.left.right, Key(s.key), Key(n.key));
    TreeFrame(m, m', t.right, Key(n.key), Edge(r));
    LeftFrame(m, m', l, dummy.right);
    RightFrame(m, m', r, dummy.left);
  }

  lemma RotateLeftCut(m: View, m': View, l: Spine, t: Tree, r: Spine, dummy: Cell, k: int)
    requires Cut(m, l, t, r, dummy, k) && t.Branch? && t.right.Branch? && t.node in m && t.right.node in m
    requires m' ==
      m[t.node := m[t.node].(right := Root(t.right.left))][t.right.node := m[t.right.node].(left := t.node)]
    ensures Cut(m', l, RotatedLeft(t), r, dummy, k)
  {
    var n, s := t.node, t.right.node;
    assert TreeAt(m, t.right, Key(n.key), Edge(r));
    TreeFrame(m, m', t.right.right, Key(s.key), Edge(r));
    TreeFrame(m, m', t.right.left, Key(n.key), Key(s.key));
    TreeFrame(m, m', t.left, Edge(l), Key(n.key));
    LeftFrame(m, m', l, dummy.right);
    RightFrame(m, m', r, dummy.left);
  }

  /** SPLAY_LINKLEFT: the middle root and its right tree go to the right spine. */
  lemma LinkLeftCut(m: View, m': View, l: Spine, t: Tree, r: Spine, dummy: Cell, k: int)
    requires Cut(m, l, t, r, dummy, k) && t.Branch? && k < t.node.key
    requires r.Snoc? ==> r.node in m
    requires m' == if r.Top? then m else m[r.node := m[r.node].(left := t.node)]
    ensures Cut(m', l, t.left, Snoc(r, t.node, t.right), if r.Top? then dummy.(left := t.node) else dummy, k)
  {
    TreeFrame(m, m', t.left, Edge(l), Key(t.node.key));
    TreeFrame(m, m', t.right, Key(t.node.key), Edge(r));
    LeftFrame(m, m', l, dummy.right);
    RightFrame(m, m', r, dummy.left);
  }

  lemma LinkRightCut(m: View, m': View, l: Spine, t: Tree, r: Spine, dummy: Cell, k: int)
    requires Cut(m, l, t, r, dummy, k) && t.Branch? && t.node.key < k
    requires l.Snoc? ==> l.node in m
    requires m' == if l.Top? then m else m[l.node := m[l.node].(right := t.node)]
    ensures Cut(m', Snoc(l, t.node, t.left), t.right, r, if l.Top? then dummy.(right := t.node) else dummy, k)
  {
    TreeFrame(m, m', t.left, Edge(l), Key(t.node.key));
    TreeFrame(m, m', t.right, Key(t.node.key), Edge(r));
    LeftFrame(m, m', l, dummy.right);
    RightFrame(m, m', r, dummy.left);
  }

  // ----- putting the parts together

  lemma CloseLeft(m: View, z: Spine, t: Tree, entry: Node?, hi: Bound)
    requires LeftAt(m, z, entry) && TreeAt(m, t, Edge(z), hi)
    requires if z.Top? then entry == Root(t) else z.node in m && m[z.node].right == Root(t)
    requires z.Snoc? ==> Between(Open, z.node.key, hi)
    ensures TreeAt(m, FillLeft(z, t), Open, hi) && Root(FillLeft(z, t)) == entry
    ensures InOrder(FillLeft(z, t)) == Before(z) + InOrder(t)
    decreases z
  {
    if z.Snoc? {
      CloseLeft(m, z.up, Branch(z.side, z.node, t), entry, hi);
      Regroup(Before(z.up), InOrder(z.side), [z.node], InOrder(t));
    } else {
      assert Before(z) + InOrder(t) == InOrder(t);
    }
  }

  lemma CloseRight(m: View, z: Spine, t: Tree, entry: Node?, lo: Bound)
    requires RightAt(m, z, entry) && TreeAt(m, t, lo, Edge(z))
    requires if z.Top? then entry == Root(t) else z.node in m && m[z.node].left == Root(t)
    requires z.Snoc? ==> Between(lo, z.node.key, Open)
    ensures TreeAt(m, FillRight(z, t), lo, Open) && Root(FillRight(z, t)) == entry
    ensures InOrder(FillRight(z, t)) == InOrder(t) + After(z)
    decreases z
  {
    if z.Snoc? {
      CloseRight(m, z.up, Branch(t, z.node, z.side), entry, lo);
      Regroup(InOrder(t), [z.node], InOrder(z.side), After(z.up));
    } else {
      assert InOrder(t) + After(z) == InOrder(t);
    }
  }

  lemma Regroup(a: seq<Node>, b: seq<Node>, c: seq<Node>, d: seq<Node>)
    ensures a + (b + c + d) == (a + b + c) + d
    ensures (a + b + c) + d == a + (b + c + d)
  {
  }

  ghost function Assembled(l: Spine, t: Tree, r: Spine): Tree
    requires t.Branch?
  {
    Branch(FillLeft(l, t.left), t.node, FillRight(r, t.right))
  }

  /** What SPLAY_ASSEMBLE makes of the cell c of a node n. */
  ghost function Reassigned(l: Spine, t: Tree, r: Spine, dummy': Cell, n: Node, c: Cell): Cell {
    if n == Root(t) then Cell(dummy'.right, dummy'.left)
    else if n == Bottom(l) then c.(right := Root(if t.Leaf? then t else t.left))
    else if n == Bottom(r) then c.(left := Root(if t.Leaf? then t else t.right))
    else c
  }

  /** The bottoms of the spines and the middle root are three nodes. */
  lemma SpineEnds(m: View, l: Spine, t: Tree, r: Spine, dummy: Cell, k: int)
    requires Cut(m, l, t, r, dummy, k) && t.Branch?
    ensures t.node in m && m[t.node] == Cell(Root(t.left), Root(t.right))
    ensures l.Snoc? ==> l.node in m && l.node.key < t.node.key
    ensures r.Snoc? ==> r.node in m && t.node.key < r.node.key
  {
  }

  lemma AssembledRoot(l: Spine, t: Tree, r: Spine)
    requires t.Branch?
    ensures Root(Assembled(l, t, r)) == t.node
  {
  }

  lemma AssembleCut(m: View, m': View, l: Spine, t: Tree, r: Spine, dummy: Cell, dummy': Cell, k: int)
    requires Cut(m, l, t, r, dummy, k) && t.Branch?
    requires dummy' == Cell(if r.Top? then Root(t.right) else dummy.left, if l.Top? then Root(t.left) else dummy.right)
    requires forall n | n in m :: n in m' && m'[n] == Reassigned(l, t, r, dummy', n, m[n])
    ensures TreeAt(m', Assembled(l, t, r), Open, Open)
    ensures InOrder(Assembled(l, t, r)) == Before(l) + InOrder(t) + After(r)
  {
    var n := t.node;
    TreeFrame(m, m', t.left, Edge(l), Key(n.key));
    TreeFrame(m, m', t.right, Key(n.key), Edge(r));
    LeftFrame(m, m', l, dummy'.right);
    RightFrame(m, m', r, dummy'.left);
    CloseLeft(m', l, t.left, dummy'.right, Key(n.key));
    CloseRight(m', r, t.right, dummy'.left, Key(n.key));
    AssembleOrder(Before(l), InOrder(t.left), n, InOrder(t.right), After(r));
  }

  lemma FillOrder(z: Spine, t: Tree)
    ensures InOrder(FillLeft(z, t)) == Before(z) + InOrder(t)
    ensures InOrder(FillRight(z, t)) == InOrder(t) + After(z)
    decreases z
  {
    if z.Snoc? {
      FillOrder(z.up, Branch(z.side, z.node, t));
      FillOrder(z.up, Branch(t, z.node, z.side));
      Regroup(Before(z.up), InOrder(z.side), [z.node], InOrder(t));
      Regroup(InOrder(t), [z.node], InOrder(z.side), After(z.up));
    } else {
      assert Before(z) + InOrder(t) == InOrder(t) == InOrder(t) + After(z);
    }
  }

  /** The root of t is where k is, or would be: nodes before it are below k and nodes after it above. */
  ghost predicate SplitBy(t: Tree, k: int) {
    && t.Branch?
    && (forall n | n in InOrder(t.left) :: n.key < k)
    && (forall n | n in InOrder(t.right) :: k < n.key)
  }

  lemma CutSplits(m: View, l: Spine, t: Tree, r: Spine, dummy: Cell, k: int)
    requires Cut(m, l, t, r, dummy, k) && t.Branch?
    requires k < t.node.key ==> t.left.Leaf?
    requires t.node.key < k ==> t.right.Leaf?
    ensures SplitBy(Assembled(l, t, r), k)
  {
    LeftKeys(m, l, dummy.right, k);
    RightKeys(m, r, dummy.left, k);
    TreeKeys(m, t.left, Edge(l), Key(t.node.key));
    TreeKeys(m, t.right, Key(t.node.key), Edge(r));
    FillOrder(l, t.left);
    FillOrder(r, t.right);
  }

  lemma RotateOrder(t: Tree)
    requires t.Branch?
    ensures t.left.Branch? ==> InOrder(RotatedRight(t)) == InOrder(t) && Size(RotatedRight(t)) == Size(t)
    ensures t.right.Branch? ==> InOrder(RotatedLeft(t)) == InOrder(t) && Size(RotatedLeft(t)) == Size(t)
  {
    if t.left.Branch? {
      Regroup'(InOrder(t.left.left), t.left.node, InOrder(t.left.right), t.node, InOrder(t.right));
    }
    if t.right.Branch? {
      Regroup'(InOrder(t.left), t.node, InOrder(t.right.left), t.right.node, InOrder(t.right.right));
    }
  }

  lemma Regroup'(a: seq<Node>, n: Node, b: seq<Node>, s: Node, c: seq<Node>)
    ensures a + [n] + (b + [s] + c) == (a + [n] + b) + [s] + c
  {
  }

  /** Moving a root and its far side to a spine keeps the order of all nodes. */
  lemma LinkOrder(l: Spine, t: Tree, r: Spine)
    requires t.Branch?
    ensures Before(l) + InOrder(t.left) + After(Snoc(r, t.node, t.right)) == Before(l) + InOrder(t) + After(r)
    ensures Before(Snoc(l, t.node, t.left)) + InOrder(t.right) + After(r) == Before(l) + InOrder(t) + After(r)
  {
    LinkRegroup(Before(l), InOrder(t.left), [t.node], InOrder(t.right), After(r));
  }

  lemma LinkRegroup(a: seq<Node>, b: seq<Node>, n: seq<Node>, c: seq<Node>, d: seq<Node>)
    ensures a + b + (n + c + d) == a + (b + n + c) + d
    ensures (a + b + n) + c + d == a + (b + n + c) + d
  {
  }

  lemma AssembleOrder(a: seq<Node>, b: seq<Node>, n: Node, c: seq<Node>, d: seq<Node>)
    ensures (a + b) + [n] + (c + d) == a + (b + [n] + c) + d
  {
  }

  lemma TreeKeys(m: View, t: Tree, lo: Bound, hi: Bound)
    requires TreeAt(m, t, lo, hi)
    ensures forall n | n in InOrder(t) :: n in m && Between(lo, n.key, hi)
  {
  }

  lemma LeftKeys(m: View, z: Spine, entry: Node?, k: int)
    requires LeftAt(m, z, entry) && Between(Edge(z), k, Open)
    ensures forall n | n in Before(z) :: n in m && n.key < k
  {
    if z.Snoc? {
      TreeKeys(m, z.side, Edge(z.up), Key(z.node.key));
      LeftKeys(m, z.up, entry, z.node.key);
    }
  }

  lemma RightKeys(m: View, z: Spine, entry: Node?, k: int)
    requires RightAt(m, z, entry) && Between(Open, k, Edge(z))
    ensures forall n | n in After(z) :: n in m && k < n.key
  {
    if z.Snoc? {
      TreeKeys(m, z.side, Key(z.node.key), Edge(z.up));
      RightKeys(m, z.up, entry, z.node.key);
    }
  }

  // ----- changing the bounds, the view, the root

  lemma TreeWiden(m: View, t: Tree, lo: Bound, hi: Bound, lo': Bound, hi': Bound)
    requires TreeAt(m, t, lo, hi)
    requires lo'.Key? ==> lo.Key? && lo'.key <= lo.key
    requires hi'.Key? ==> hi.Key? && hi.key <= hi'.key
    ensures TreeAt(m, t, lo', hi')
  {
    if t.Branch? {
      TreeWiden(m, t.left, lo, Key(t.node.key), lo', Key(t.node.key));
      TreeWiden(m, t.right, Key(t.node.key), hi, Key(t.node.key), hi');
    }
  }

  /** Keys that all lie on one side of k allow k as a bound. */
  lemma TreeNarrow(m: View, t: Tree, lo: Bound, hi: Bound, k: int)
    requires TreeAt(m, t, lo, hi)
    ensures (forall n | n in InOrder(t) :: n.key < k) ==> TreeAt(m, t, lo, Key(k))
    ensures (forall n | n in InOrder(t) :: k < n.key) ==> TreeAt(m, t, Key(k), hi)
  {
    if t.Branch? {
      assert t.node in InOrder(t);
      TreeNarrow(m, t.left, lo, Key(t.node.key), k);
      TreeNarrow(m, t.right, Key(t.node.key), hi, k);
    }
  }

  lemma TreeShrink(m: View, m': View, t: Tree, lo: Bound, hi: Bound)
    requires TreeAt(m, t, lo, hi)
    requires forall n | n in InOrder(t) && n in m :: n in m' && m'[n] == m[n]
    ensures TreeAt(m', t, lo, hi)
  {
    if t.Branch? {
      assert t.node in InOrder(t);
      TreeShrink(m, m', t.left, lo, Key(t.node.key));
      TreeShrink(m, m', t.right, Key(t.node.key), hi);
    }
  }

  ghost predicate Increasing(s: seq<Node>) {
    forall i, j :: 0 <= i < j < |s| ==> s[i].key < s[j].key
  }

  lemma TreeSorted(m: View, t: Tree, lo: Bound, hi: Bound)
    requires TreeAt(m, t, lo, hi)
    ensures Increasing(InOrder(t))
  {
    if t.Branch? {
      TreeKeys(m, t.left, lo, Key(t.node.key));
      TreeKeys(m, t.right, Key(t.node.key), hi);
      TreeSorted(m, t.left, lo, Key(t.node.key));
      TreeSorted(m, t.right, Key(t.node.key), hi);
    }
  }

  lemma RootBeforeOrder(t: Tree, n: Node)
    requires t.Branch?
    ensures var u := Branch(t.left, n, Branch(Leaf, t.node, t.right));
      AddedTo(InOrder(t), n, InOrder(u)) && SetOf(InOrder(u)) == SetOf(InOrder(t)) + {n}
  {
    var b, a := InOrder(t.left), [t.node] + InOrder(t.right);
    AddedBetween(b, n, a);
    assert InOrder(t) == b + a;
    assert InOrder(Branch(Leaf, t.node, t.right)) == a;
  }

  lemma RootAfterOrder(t: Tree, n: Node)
    requires t.Branch?
    ensures var u := Branch(Branch(t.left, t.node, Leaf), n, t.right);
      AddedTo(InOrder(t), n, InOrder(u)) && SetOf(InOrder(u)) == SetOf(InOrder(t)) + {n}
  {
    var b, a := InOrder(t.left) + [t.node], InOrder(t.right);
    AddedBetween(b, n, a);
    assert InOrder(Branch(t.left, t.node, Leaf)) == b;
  }

  /** Splaying for a key above all others leaves the root without a right child. */
  lemma LastSplit(t: Tree, k: int)
    requires SplitBy(t, k) && forall n | n in InOrder(t) :: n.key < k
    ensures t.right.Leaf?
  {
    if t.right.Branch? {
      RightRootInOrder(t);
      assert false;
    }
  }

  lemma RightRootInOrder(t: Tree)
    requires t.Branch? && t.right.Branch?
    ensures t.right.node in InOrder(t.right) && t.right.node in InOrder(t)
  {
    assert t.right.node in InOrder(t.right);
  }

  lemma LastOrder(t: Tree, r: Tree)
    requires t.Branch? && t.right.Leaf?
    ensures InOrder(Branch(t.left, t.node, r)) == InOrder(t) + InOrder(r)
  {
    assert InOrder(t) == InOrder(t.left) + [t.node];
  }

  lemma RootTaken(m: View, t: Tree)
    requires t.Branch? && TreeAt(m, t, Open, Open)
    ensures TakenFrom(InOrder(t), t.node, InOrder(t.left) + InOrder(t.right))
    ensures SetOf(InOrder(t.left) + InOrder(t.right)) == SetOf(InOrder(t)) - {t.node}
  {
    TreeKeys(m, t.left, Open, Key(t.node.key));
    TreeKeys(m, t.right, Key(t.node.key), Open);
    TakenBetween(InOrder(t.left), t.node, InOrder(t.right));
  }

  lemma RootInOrder(t: Tree)
    requires t.Branch?
    ensures t.node in InOrder(t)
  {
  }

  /** The two sides of a root, each on its own. */
  lemma SidesApart(m: View, v: View, t: Tree)
    requires TreeAt(m, t, Open, Open) && t.Branch?
    requires v.Keys == SetOf(InOrder(t.right)) && forall n | n in v && n in m :: v[n] == m[n]
    ensures TreeAt(m, t.left, Open, Open) && TreeAt(v, t.right, Key(t.node.key), Open)
    ensures forall n | n in InOrder(t.left) :: n.key < t.node.key && n !in v
    ensures t.node !in v && SetOf(InOrder(t.right)) <= m.Keys
  {
    TreeKeys(m, t.left, Open, Key(t.node.key));
    TreeKeys(m, t.right, Key(t.node.key), Open);
    TreeShrink(m, v, t.right, Key(t.node.key), Open);
    TreeWiden(m, t.left, Open, Key(t.node.key), Open, Open);
  }

  lemma RootBeforeAt(m: View, m': View, t: Tree, n: Node)
    requires TreeAt(m, t, Open, Open) && SplitBy(t, n.key) && n !in m && n.key < t.node.key && t.node in m
    requires m' == m[t.node := m[t.node].(left := null)][n := Cell(m[t.node].left, t.node)]
    ensures TreeAt(m', Branch(t.left, n, Branch(Leaf, t.node, t.right)), Open, Open)
  {
    TreeNarrow(m, t.left, Open, Key(t.node.key), n.key);
    TreeFrame(m, m', t.left, Open, Key(n.key));
    TreeFrame(m, m', t.right, Key(t.node.key), Open);
    assert TreeAt(m', Leaf, Key(n.key), Key(t.node.key));
    assert TreeAt(m', Branch(Leaf, t.node, t.right), Key(n.key), Open);
  }

  lemma RootAfterAt(m: View, m': View, t: Tree, n: Node)
    requires TreeAt(m, t, Open, Open) && SplitBy(t, n.key) && n !in m && t.node.key < n.key && t.node in m
    requires m' == m[t.node := m[t.node].(right := null)][n := Cell(t.node, m[t.node].right)]
    ensures TreeAt(m', Branch(Branch(t.left, t.node, Leaf), n, t.right), Open, Open)
  {
    TreeNarrow(m, t.right, Key(t.node.key), Open, n.key);
    TreeFrame(m, m', t.right, Key(n.key), Open);
    TreeFrame(m, m', t.left, Open, Key(t.node.key));
    assert TreeAt(m', Leaf, Key(t.node.key), Key(n.key));
    assert TreeAt(m', Branch(t.left, t.node, Leaf), Open, Key(n.key));
  }
}
