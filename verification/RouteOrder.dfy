/** The comparators of the two route trees (src/ip_route.c:30-40) and trees ordered by them.

  The comparators subtract unsigned 32-bit addresses and read the difference as an int.  A tree stands here
  for the sequence of its entries in order, which is what RedBlackTree.Head keeps. */
module RouteOrder {
  import IpHeader
  import Sequences = Orders

  type Addr = IpHeader.Addr

  const HALF: nat := 0x8000_0000
  const FULL: nat := 0x1_0000_0000

  /** (int)(a - b). */
  function Cmp(a: Addr, b: Addr): int {
    var d := (a - b) % FULL;
    if d < HALF then d else d - FULL
  }

  /** That is the difference modulo 2^32, as a signed number of 32 bits. */
  lemma CmpIsInt(a: Addr, b: Addr)
    ensures -0x8000_0000 <= Cmp(a, b) < 0x8000_0000 && (Cmp(a, b) - (a - b)) % 0x1_0000_0000 == 0
    ensures -0x8000_0000 <= a - b < 0x8000_0000 ==> Cmp(a, b) == a - b
  {
  }

  /** The distance of a from a base, around the circle of addresses. */
  function Rank(base: Addr, a: Addr): nat {
    (a - base) % FULL
  }

  /** a lies in the half circle that starts at base. */
  predicate Near(base: Addr, a: Addr) {
    Rank(base, a) < 0x8000_0000
  }

  /** Within a half circle the comparator orders addresses by their distance from its start. */
  lemma CmpIsRank(base: Addr, a: Addr, b: Addr)
    requires Near(base, a) && Near(base, b)
    ensures Cmp(a, b) == Rank(base, a) - Rank(base, b)
    ensures Cmp(a, b) == 0 <==> a == b
  {
    var d := Rank(base, a) - Rank(base, b);
    assert (a - b) % FULL == d % FULL;
  }

  /** The comparator is a strict total order on a set. */
  ghost predicate Orders(s: set<Addr>) {
    && (forall a, b | a in s && b in s && a != b :: (Cmp(a, b) < 0) != (Cmp(b, a) < 0))
    && (forall a, b, c | a in s && b in s && c in s && Cmp(a, b) < 0 && Cmp(b, c) < 0 :: Cmp(a, c) < 0)
  }

  ghost predicate AllNear(base: Addr, s: set<Addr>) {
    forall a | a in s :: Near(base, a)
  }

  /** It is one exactly when the set lies in some half circle. */
  lemma OrdersIffNear(s: set<Addr>)
    requires s != {}
    ensures Orders(s) <==> exists base: Addr :: AllNear(base, s)
  {
    if Orders(s) {
      var m := Least(s, s);
      forall a | a in s ensures Near(m, a) {
        if a != m {
          assert Cmp(m, a) < 0 && Cmp(a, m) >= 0;
        }
      }
      assert AllNear(m, s);
    }
    if base: Addr :| AllNear(base, s) {
      forall a, b | a in s && b in s
        ensures Cmp(a, b) == Rank(base, a) - Rank(base, b) && (Cmp(a, b) == 0 <==> a == b)
      {
        CmpIsRank(base, a, b);
      }
    }
  }

  lemma Least(s: set<Addr>, all: set<Addr>) returns (m: Addr)
    requires s != {} && s <= all && Orders(all)
    ensures m in s && forall a | a in s && a != m :: Cmp(m, a) < 0
  {
    var x :| x in s;
    if s == {x} {
      return x;
    }
    var y := Least(s - {x}, all);
    if Cmp(x, y) < 0 {
      m := x;
    } else {
      m := y;
    }
  }

  /** Three addresses a third of the circle apart are ordered in a ring. */
  lemma Ring()
    ensures Cmp(0, 0x5555_5555) < 0 && Cmp(0x5555_5555, 0xAAAA_AAAA) < 0 && Cmp(0xAAAA_AAAA, 0) < 0
  {
  }

  // ----- trees; keys gives the key of every entry

  /** Entries of a table of n. */
  predicate Inside(n: nat, tree: seq<nat>) {
    forall i | 0 <= i < |tree| :: tree[i] < n
  }

  ghost predicate Sorted(keys: seq<Addr>, base: Addr, tree: seq<nat>) {
    && Inside(|keys|, tree)
    && (forall i | 0 <= i < |tree| :: Near(base, keys[tree[i]]))
    && (forall i, j | 0 <= i < j < |tree| :: Rank(base, keys[tree[i]]) < Rank(base, keys[tree[j]]))
  }

  /** Where a key belongs. */
  function Place(keys: seq<Addr>, tree: seq<nat>, k: Addr): (p: nat)
    requires Inside(|keys|, tree)
    ensures p <= |tree|
  {
    if tree == [] || Cmp(k, keys[tree[0]]) <= 0 then 0 else 1 + Place(keys, tree[1..], k)
  }

  /** RB_FIND: the entry with the key, or |keys|. */
  function Find(keys: seq<Addr>, tree: seq<nat>, k: Addr): nat
    requires Inside(|keys|, tree)
  {
    var p := Place(keys, tree, k);
    if p < |tree| && Cmp(k, keys[tree[p]]) == 0 then tree[p] else |keys|
  }

  /** RB_INSERT, which leaves the tree alone when the key is there. */
  function Insert(keys: seq<Addr>, tree: seq<nat>, e: nat): seq<nat>
    requires e < |keys| && Inside(|keys|, tree)
  {
    var p := Place(keys, tree, keys[e]);
    if Find(keys, tree, keys[e]) < |keys| then tree else tree[..p] + [e] + tree[p..]
  }

  /** RB_REMOVE. */
  function Remove(tree: seq<nat>, e: nat): seq<nat> {
    if tree == [] then [] else if tree[0] == e then tree[1..] else [tree[0]] + Remove(tree[1..], e)
  }

  lemma {:induction false} PlaceSplits(keys: seq<Addr>, base: Addr, tree: seq<nat>, k: Addr)
    requires Sorted(keys, base, tree) && Near(base, k)
    ensures var p := Place(keys, tree, k);
      && (forall i | 0 <= i < p :: Rank(base, keys[tree[i]]) < Rank(base, k))
      && (forall i | p <= i < |tree| :: Rank(base, k) <= Rank(base, keys[tree[i]]))
  {
    if tree != [] {
      CmpIsRank(base, k, keys[tree[0]]);
      if Cmp(k, keys[tree[0]]) > 0 {
        PlaceSplits(keys, base, tree[1..], k);
      }
    }
  }

  lemma SameRank(base: Addr, a: Addr, b: Addr)
    requires Rank(base, a) == Rank(base, b)
    ensures a == b
  {
  }

  /** Some entry of the tree has the key. */
  predicate Has(keys: seq<Addr>, tree: seq<nat>, k: Addr)
    requires Inside(|keys|, tree)
  {
    exists i :: 0 <= i < |tree| && keys[tree[i]] == k
  }

  /** e is what a search for k gives: the entry of the tree with that key, or |keys|. */
  ghost predicate Found(keys: seq<Addr>, tree: seq<nat>, k: Addr, e: nat)
    requires Inside(|keys|, tree)
  {
    if Has(keys, tree, k) then e in tree && keys[e] == k else e == |keys|
  }

  /** RB_FIND finds a key exactly when it is there, whatever the key. */
  lemma FindWorks(keys: seq<Addr>, base: Addr, tree: seq<nat>, k: Addr)
    requires Sorted(keys, base, tree)
    ensures Found(keys, tree, k, Find(keys, tree, k))
  {
    var p := Place(keys, tree, k);
    if i :| 0 <= i < |tree| && keys[tree[i]] == k {
      PlaceSplits(keys, base, tree, k);
      CmpIsRank(base, k, keys[tree[p]]);
      assert p <= i;
      RanksRise(keys, base, tree, p, i);
    }
  }

  lemma RanksRise(keys: seq<Addr>, base: Addr, tree: seq<nat>, i: nat, j: nat)
    requires Sorted(keys, base, tree) && i < |tree| && j < |tree|
    ensures i < j ==> Rank(base, keys[tree[i]]) < Rank(base, keys[tree[j]])
  {
  }

  // A search tree of entries, and the search that RB_FIND makes in it.
  datatype Bst = Leaf | Node(left: Bst, entry: nat, right: Bst)

  function InOrder(t: Bst): seq<nat> {
    match t
    case Leaf => []
    case Node(l, e, r) => InOrder(l) + [e] + InOrder(r)
  }

  function Search(keys: seq<Addr>, t: Bst, k: Addr): nat
    requires Inside(|keys|, InOrder(t))
  {
    match t
    case Leaf => |keys|
    case Node(l, e, r) =>
      assert InOrder(t)[|InOrder(l)|] == e;
      assert forall i | 0 <= i < |InOrder(l)| :: InOrder(t)[i] == InOrder(l)[i];
      assert forall i | 0 <= i < |InOrder(r)| :: InOrder(t)[|InOrder(l)| + 1 + i] == InOrder(r)[i];
      if Cmp(k, keys[e]) < 0 then Search(keys, l, k) else if Cmp(k, keys[e]) > 0 then Search(keys, r, k) else e
  }

  /** What lies left and right of an entry. */
  lemma Sides(keys: seq<Addr>, base: Addr, l: seq<nat>, e: nat, r: seq<nat>)
    requires Sorted(keys, base, l + [e] + r)
    ensures Sorted(keys, base, l) && Sorted(keys, base, r)
    ensures e < |keys| && Near(base, keys[e])
    ensures forall i | 0 <= i < |l| :: Rank(base, keys[l[i]]) < Rank(base, keys[e])
    ensures forall i | 0 <= i < |r| :: Rank(base, keys[r[i]]) > Rank(base, keys[e])
  {
    hide Rank, Near;
    var s := l + [e] + r;
    assert s[|l|] == e;
    Piece(keys, base, s, 0, |l|);
    Piece(keys, base, s, |l| + 1, |s|);
    assert s[0..|l|] == l && s[|l| + 1..|s|] == r;
    forall i | 0 <= i < |l| ensures Rank(base, keys[l[i]]) < Rank(base, keys[e]) {
      assert s[i] == l[i];
    }
    forall i | 0 <= i < |r| ensures Rank(base, keys[r[i]]) > Rank(base, keys[e]) {
      assert s[|l| + 1 + i] == r[i];
    }
  }

  lemma Piece(keys: seq<Addr>, base: Addr, s: seq<nat>, a: nat, b: nat)
    requires Sorted(keys, base, s) && a <= b <= |s|
    ensures Sorted(keys, base, s[a..b])
  {
    hide Rank, Near;
  }

  /** Only the side that a comparison points to can have the key. */
  lemma SideOf(keys: seq<Addr>, base: Addr, l: seq<nat>, e: nat, r: seq<nat>, k: Addr)
    requires Sorted(keys, base, l + [e] + r)
    ensures Sorted(keys, base, l) && Sorted(keys, base, r) && e < |keys|
    ensures Has(keys, l, k) ==> Cmp(k, keys[e]) < 0
    ensures Has(keys, r, k) ==> Cmp(k, keys[e]) > 0
    ensures Has(keys, l + [e] + r, k) <==> Has(keys, l, k) || k == keys[e] || Has(keys, r, k)
  {
    hide Rank, Near, Cmp;
    var s := l + [e] + r;
    Sides(keys, base, l, e, r);
    if Near(base, k) {
      CmpIsRank(base, k, keys[e]);
    }
    if i :| 0 <= i < |l| && keys[l[i]] == k {
      assert s[i] == l[i];
    }
    if i :| 0 <= i < |r| && keys[r[i]] == k {
      assert s[|l| + 1 + i] == r[i];
    }
    assert s[|l|] == e;
    if i :| 0 <= i < |s| && keys[s[i]] == k {
      assert s[i] == if i < |l| then l[i] else if i == |l| then e else r[i - |l| - 1];
    }
  }

  /** A search down any tree finds a key exactly when it is there. */
  lemma {:induction false} SearchWorks(keys: seq<Addr>, base: Addr, t: Bst, k: Addr)
    requires Sorted(keys, base, InOrder(t))
    ensures Found(keys, InOrder(t), k, Search(keys, t, k))
  {
    hide Rank, Near, Cmp, Sorted;
    if t.Node? {
      SideOf(keys, base, InOrder(t.left), t.entry, InOrder(t.right), k);
      SearchWorks(keys, base, t.left, k);
      SearchWorks(keys, base, t.right, k);
      CmpZero(k, keys[t.entry]);
    }
  }

  lemma CmpZero(a: Addr, b: Addr)
    ensures Cmp(a, b) == 0 <==> a == b
  {
  }

  /** So the shape of the tree does not matter. */
  lemma SearchIsFind(keys: seq<Addr>, base: Addr, t: Bst, k: Addr)
    requires Sorted(keys, base, InOrder(t))
    ensures Search(keys, t, k) == Find(keys, InOrder(t), k)
  {
    var a, b := Search(keys, t, k), Find(keys, InOrder(t), k);
    SearchWorks(keys, base, t, k);
    FindWorks(keys, base, InOrder(t), k);
    if a in InOrder(t) && b in InOrder(t) {
      SameEntry(keys, base, InOrder(t), a, b);
    }
  }

  /** A key has one entry. */
  lemma SameEntry(keys: seq<Addr>, base: Addr, tree: seq<nat>, a: nat, b: nat)
    requires Sorted(keys, base, tree) && a in tree && b in tree
    ensures keys[a] == keys[b] ==> a == b
  {
    var i :| 0 <= i < |tree| && tree[i] == a;
    var j :| 0 <= j < |tree| && tree[j] == b;
  }

  // ----- insertion and removal

  /** The tree with entry e added, or as it was where e's key is there already. */
  ghost predicate Gained(keys: seq<Addr>, tree: seq<nat>, e: nat, tree': seq<nat>)
    requires Inside(|keys|, tree) && e < |keys|
  {
    if Has(keys, tree, keys[e]) then tree' == tree else forall x :: x in tree' <==> x in tree || x == e
  }

  /** The tree without entry e. */
  ghost predicate Lost(tree: seq<nat>, e: nat, tree': seq<nat>) {
    forall x :: x in tree' <==> x in tree && x != e
  }

  lemma InsertWorks(keys: seq<Addr>, base: Addr, tree: seq<nat>, e: nat)
    requires Sorted(keys, base, tree) && e < |keys| && Near(base, keys[e])
    ensures Sorted(keys, base, Insert(keys, tree, e)) && Gained(keys, tree, e, Insert(keys, tree, e))
  {
    hide Rank, Near, Cmp, Place;
    var k, p := keys[e], Place(keys, tree, keys[e]);
    FindWorks(keys, base, tree, k);
    if Find(keys, tree, k) == |keys| {
      PlaceSplits(keys, base, tree, k);
      forall i | p <= i < |tree| ensures Rank(base, k) < Rank(base, keys[tree[i]]) {
        if Rank(base, k) == Rank(base, keys[tree[i]]) {
          SameRank(base, k, keys[tree[i]]);
        }
      }
      PutSorted(keys, base, tree, p, e);
    }
  }

  lemma PutIn(tree: seq<nat>, p: nat, e: nat)
    requires p <= |tree|
    ensures forall x :: x in tree[..p] + [e] + tree[p..] <==> x in tree || x == e
  {
    assert tree == tree[..p] + tree[p..];
  }

  lemma PutSorted(keys: seq<Addr>, base: Addr, tree: seq<nat>, p: nat, e: nat)
    requires Sorted(keys, base, tree) && e < |keys| && Near(base, keys[e]) && p <= |tree|
    requires forall i | 0 <= i < p :: Rank(base, keys[tree[i]]) < Rank(base, keys[e])
    requires forall i | p <= i < |tree| :: Rank(base, keys[e]) < Rank(base, keys[tree[i]])
    ensures Sorted(keys, base, tree[..p] + [e] + tree[p..])
    ensures forall x :: x in tree[..p] + [e] + tree[p..] <==> x in tree || x == e
  {
    hide Rank, Near;
    var r := tree[..p] + [e] + tree[p..];
    PutIn(tree, p, e);
    forall i | 0 <= i < |r| ensures r[i] < |keys| && Near(base, keys[r[i]]) {
      assert r[i] == if i < p then tree[i] else if i == p then e else tree[i - 1];
    }
    forall i, j | 0 <= i < j < |r| ensures Rank(base, keys[r[i]]) < Rank(base, keys[r[j]]) {
      assert r[i] == if i < p then tree[i] else if i == p then e else tree[i - 1];
      assert r[j] == if j < p then tree[j] else if j == p then e else tree[j - 1];
    }
  }

  lemma {:induction false} RemoveWorks(keys: seq<Addr>, base: Addr, tree: seq<nat>, e: nat)
    requires Sorted(keys, base, tree)
    ensures Sorted(keys, base, Remove(tree, e)) && Lost(tree, e, Remove(tree, e))
  {
    hide Rank, Near, Sorted;
    if tree != [] {
      var x, rest := tree[0], tree[1..];
      assert tree == [] + [x] + rest;
      SidesApart(keys, base, [], x, rest);
      Rest(keys, base, tree);
      RemoveWorks(keys, base, rest, e);
      if x != e {
        SortedNone(keys, base);
        JoinSorted(keys, base, [], x, Remove(rest, e));
        assert [] + [x] + Remove(rest, e) == [x] + Remove(rest, e);
      }
    }
  }

  lemma SortedNone(keys: seq<Addr>, base: Addr)
    ensures Sorted(keys, base, [])
  {
  }

  /** A tree does not depend on the keys of entries outside of it. */
  lemma SortedLocal(keys: seq<Addr>, keys': seq<Addr>, base: Addr, tree: seq<nat>)
    requires Sorted(keys, base, tree) && |keys'| == |keys|
    requires forall i | 0 <= i < |tree| :: keys'[tree[i]] == keys[tree[i]]
    ensures Sorted(keys', base, tree)
  {
  }

  /** An entry that is out of the tree may get another key. */
  lemma Aside(keys: seq<Addr>, base: Addr, tree: seq<nat>, e: nat, k: Addr)
    requires Sorted(keys, base, tree) && e < |keys| && e !in tree
    ensures Sorted(keys[e := k], base, tree)
  {
    forall i | 0 <= i < |tree| ensures tree[i] != e {
      assert tree[i] in tree;
    }
    SortedLocal(keys, keys[e := k], base, tree);
  }

  /** An entry taken out, given another key and put back; it may have been outside before. */
  lemma Rekey(keys: seq<Addr>, base: Addr, tree: seq<nat>, e: nat, k: Addr, out: seq<nat>, back: seq<nat>)
    requires Sorted(keys, base, tree) && e < |keys|
    requires Lost(tree, e, out) && Sorted(keys[e := k], base, out) && Gained(keys[e := k], out, e, back)
    ensures if exists x :: x in tree && x < |keys| && x != e && keys[x] == k then Lost(tree, e, back)
      else forall x :: x in back <==> x in tree || x == e
  {
    hide Rank, Near;
    var keys' := keys[e := k];
    if x :| x in tree && x < |keys| && x != e && keys[x] == k {
      HasEntry(keys', out, x);
    }
    HasMember(keys', out, k);
  }

  lemma HasEntry(keys: seq<Addr>, tree: seq<nat>, x: nat)
    requires Inside(|keys|, tree) && x in tree && x < |keys|
    ensures Has(keys, tree, keys[x])
  {
    var i :| 0 <= i < |tree| && tree[i] == x;
  }

  lemma HasMember(keys: seq<Addr>, tree: seq<nat>, k: Addr)
    requires Inside(|keys|, tree)
    ensures Has(keys, tree, k) ==> exists x :: x in tree && x < |keys| && keys[x] == k
  {
    if i :| 0 <= i < |tree| && keys[tree[i]] == k {
      assert tree[i] in tree;
    }
  }

  // ----- the same for trees

  /** A sorted sequence is told by its entries. */
  lemma {:induction false} SortedUnique(keys: seq<Addr>, base: Addr, s: seq<nat>, t: seq<nat>)
    requires Sorted(keys, base, s) && Sorted(keys, base, t) && forall x :: x in s <==> x in t
    ensures s == t
  {
    hide Rank, Near;
    assert s != [] ==> s[0] in t;
    assert t != [] ==> t[0] in s;
    if s != [] {
      LeastFirst(keys, base, s, t[0]);
      LeastFirst(keys, base, t, s[0]);
      SameEntry(keys, base, s, s[0], t[0]);
      Rest(keys, base, s);
      Rest(keys, base, t);
      SortedUnique(keys, base, s[1..], t[1..]);
    }
  }

  lemma LeastFirst(keys: seq<Addr>, base: Addr, s: seq<nat>, x: nat)
    requires Sorted(keys, base, s) && x in s
    ensures x < |keys| && Rank(base, keys[s[0]]) <= Rank(base, keys[x])
    ensures x != s[0] ==> Rank(base, keys[s[0]]) < Rank(base, keys[x])
  {
    var i :| 0 <= i < |s| && s[i] == x;
  }

  lemma Rest(keys: seq<Addr>, base: Addr, s: seq<nat>)
    requires Sorted(keys, base, s) && s != []
    ensures Sorted(keys, base, s[1..]) && forall x :: x in s[1..] <==> x in s && x != s[0]
  {
    hide Rank, Near;
    Piece(keys, base, s, 1, |s|);
    assert s == [s[0]] + s[1..];
    forall x | x in s[1..] ensures x != s[0] {
      var i :| 0 <= i < |s[1..]| && s[1..][i] == x;
      assert s[i + 1] == x;
      RanksRise(keys, base, s, 0, i + 1);
    }
  }

  /** A linked insertion that adds the entry at some place of the sequence and leaves it sorted, as
    RedBlackTree.Head.Insert does, is Insert. */
  lemma AddedIsInsert(keys: seq<Addr>, base: Addr, tree: seq<nat>, e: nat, tree': seq<nat>)
    requires Sorted(keys, base, tree) && e < |keys| && Near(base, keys[e]) && !Has(keys, tree, keys[e])
    requires Sequences.AddedTo(tree, e, tree') && Sorted(keys, base, tree')
    ensures tree' == Insert(keys, tree, e)
  {
    hide Rank, Near, Insert;
    InsertWorks(keys, base, tree, e);
    var i :| 0 <= i <= |tree| && tree' == tree[..i] + [e] + tree[i..];
    PutIn(tree, i, e);
    SortedUnique(keys, base, tree', Insert(keys, tree, e));
  }

  /** A linked removal that takes the entry out of the sequence, as RedBlackTree.Head.Remove does, is Remove. */
  lemma TakenIsRemove(keys: seq<Addr>, base: Addr, tree: seq<nat>, e: nat, tree': seq<nat>)
    requires Sorted(keys, base, tree) && Sequences.TakenFrom(tree, e, tree')
    ensures tree' == Remove(tree, e)
  {
    var i :| 0 <= i < |tree| && tree[i] == e && tree' == tree[..i] + tree[i + 1..];
    forall j | 0 <= j < i ensures tree[j] != e {
      RanksRise(keys, base, tree, j, i);
    }
    RemoveAt(tree, e, i);
  }

  lemma {:induction false} RemoveAt(tree: seq<nat>, e: nat, i: nat)
    requires i < |tree| && tree[i] == e && forall j | 0 <= j < i :: tree[j] != e
    ensures Remove(tree, e) == tree[..i] + tree[i + 1..]
  {
    if i > 0 {
      RemoveAt(tree[1..], e, i - 1);
      assert tree[..i] == [tree[0]] + tree[1..][..i - 1];
    }
  }

  /** RB_INSERT without its repair: down the tree by comparisons, and a new leaf where the search ends. */
  function Attach(keys: seq<Addr>, t: Bst, e: nat): Bst
    requires Inside(|keys|, InOrder(t)) && e < |keys|
  {
    match t
    case Leaf => Node(Leaf, e, Leaf)
    case Node(l, f, r) =>
      InsideSides(|keys|, t);
      if Cmp(keys[e], keys[f]) < 0 then Node(Attach(keys, l, e), f, r)
      else if Cmp(keys[e], keys[f]) > 0 then Node(l, f, Attach(keys, r, e))
      else t
  }

  lemma InsideSides(n: nat, t: Bst)
    requires t.Node? && Inside(n, InOrder(t))
    ensures t.entry < n && Inside(n, InOrder(t.left)) && Inside(n, InOrder(t.right))
  {
    var s, l := InOrder(t), InOrder(t.left);
    assert s[|l|] == t.entry;
    assert forall i | 0 <= i < |l| :: s[i] == l[i];
    assert forall i | 0 <= i < |InOrder(t.right)| :: s[|l| + 1 + i] == InOrder(t.right)[i];
  }

  /** Whatever the shape of the tree, the entry goes where Insert puts it. */
  lemma {:induction false} AttachIsInsert(keys: seq<Addr>, base: Addr, t: Bst, e: nat)
    requires Sorted(keys, base, InOrder(t)) && e < |keys| && Near(base, keys[e])
    ensures InOrder(Attach(keys, t, e)) == Insert(keys, InOrder(t), e)
  {
    hide Rank, Near, Cmp, Sorted, Place, Find;
    match t
    case Leaf =>
      assert Insert(keys, [], e) == [e] by {
        InsertNone(keys, e);
      }
    case Node(l, f, r) =>
      SideOf(keys, base, InOrder(l), f, InOrder(r), keys[e]);
      InsertSide(keys, base, InOrder(l), f, InOrder(r), e);
      AttachIsInsert(keys, base, l, e);
      AttachIsInsert(keys, base, r, e);
  }

  lemma InsertNone(keys: seq<Addr>, e: nat)
    requires e < |keys|
    ensures Insert(keys, [], e) == [e]
  {
  }

  ghost predicate AllBelow(keys: seq<Addr>, base: Addr, s: seq<nat>, f: nat)
    requires f < |keys|
  {
    forall x | x in s :: x < |keys| && Rank(base, keys[x]) < Rank(base, keys[f])
  }

  ghost predicate AllAbove(keys: seq<Addr>, base: Addr, s: seq<nat>, f: nat)
    requires f < |keys|
  {
    forall x | x in s :: x < |keys| && Rank(base, keys[f]) < Rank(base, keys[x])
  }

  lemma JoinSorted(keys: seq<Addr>, base: Addr, l: seq<nat>, f: nat, r: seq<nat>)
    requires Sorted(keys, base, l) && Sorted(keys, base, r) && f < |keys| && Near(base, keys[f])
    requires AllBelow(keys, base, l, f) && AllAbove(keys, base, r, f)
    ensures Sorted(keys, base, l + [f] + r)
  {
    hide Rank, Near;
    var s := l + [f] + r;
    forall i | 0 <= i < |s| ensures s[i] < |keys| && Near(base, keys[s[i]]) {
      assert s[i] == if i < |l| then l[i] else if i == |l| then f else r[i - |l| - 1];
    }
    forall i, j | 0 <= i < j < |s| ensures Rank(base, keys[s[i]]) < Rank(base, keys[s[j]]) {
      assert s[i] == if i < |l| then l[i] else if i == |l| then f else r[i - |l| - 1];
      assert s[j] == if j < |l| then l[j] else if j == |l| then f else r[j - |l| - 1];
      assert i < |l| ==> l[i] in l;
      assert j > |l| ==> r[j - |l| - 1] in r;
    }
  }

  lemma SidesApart(keys: seq<Addr>, base: Addr, l: seq<nat>, f: nat, r: seq<nat>)
    requires Sorted(keys, base, l + [f] + r)
    ensures f < |keys| && Near(base, keys[f]) && AllBelow(keys, base, l, f) && AllAbove(keys, base, r, f)
  {
    hide Rank, Near;
    Sides(keys, base, l, f, r);
  }

  /** An entry goes into the side that the comparison points to. */
  lemma InsertSide(keys: seq<Addr>, base: Addr, l: seq<nat>, f: nat, r: seq<nat>, e: nat)
    requires Sorted(keys, base, l + [f] + r) && e < |keys| && Near(base, keys[e])
    requires Sorted(keys, base, l) && Sorted(keys, base, r) && f < |keys|
    ensures Insert(keys, l + [f] + r, e) ==
      if Cmp(keys[e], keys[f]) < 0 then Insert(keys, l, e) + [f] + r
      else if Cmp(keys[e], keys[f]) > 0 then l + [f] + Insert(keys, r, e)
      else l + [f] + r
  {
    hide Rank, Near, Cmp, Insert, Sorted, Has;
    var s, k := l + [f] + r, keys[e];
    InRange(keys, base, s);
    InRange(keys, base, l);
    InRange(keys, base, r);
    SidesApart(keys, base, l, f, r);
    SideOf(keys, base, l, f, r, k);
    CmpIsRank(base, k, keys[f]);
    InsertWorks(keys, base, s, e);
    InsertWorks(keys, base, l, e);
    InsertWorks(keys, base, r, e);
    var l', r' := Insert(keys, l, e), Insert(keys, r, e);
    if Cmp(k, keys[f]) < 0 {
      JoinSorted(keys, base, l', f, r);
      SortedUnique(keys, base, Insert(keys, s, e), l' + [f] + r);
    } else if Cmp(k, keys[f]) > 0 {
      JoinSorted(keys, base, l, f, r');
      SortedUnique(keys, base, Insert(keys, s, e), l + [f] + r');
    }
  }

  lemma InRange(keys: seq<Addr>, base: Addr, tree: seq<nat>)
    requires Sorted(keys, base, tree)
    ensures Inside(|keys|, tree)
  {
  }
}
