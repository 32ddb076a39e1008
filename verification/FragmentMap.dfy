/** The bitmap of received 8-byte blocks (src/ip_fragment.c:12-19, 69-87). */
module FragmentMap {

  type Word = bv32

  const FRAG_MAX: nat := 8192
  const FRAG_MAP_SIZE: nat := FRAG_MAX / 32

  /** 1 << k. */
  function One(k: nat): Word {
    if k == 0 then 1 else Up(One(k - 1))
  }

  // Word operations have names, so that proofs can leave them symbolic.

  function Up(a: Word): Word {
    a << 1
  }

  function Both(a: Word, b: Word): Word {
    a & b
  }

  function With(w: Word, m: Word): Word {
    w | m
  }

  function Without(w: Word, m: Word): Word {
    w & !m
  }

  predicate Tst(w: Word, k: nat) {
    Both(w, One(k)) != 0
  }

  // ----- single words

  lemma UpBoth(a: Word, b: Word)
    ensures Both(Up(a), Up(b)) == Up(Both(a, b))
  {
  }

  lemma UpLow(a: Word)
    ensures Both(1, Up(a)) == 0 && Both(Up(a), 1) == 0
  {
  }

  lemma UpZero()
    ensures Up(0) == 0
  {
  }

  lemma OnesApart(j: nat, k: nat)
    requires j != k
    ensures Both(One(j), One(k)) == 0
  {
    hide Both, Up;
    UpZero();
    if j > 0 && k > 0 {
      OnesApart(j - 1, k - 1);
      UpBoth(One(j - 1), One(k - 1));
    } else if j > 0 {
      UpLow(One(j - 1));
    } else {
      UpLow(One(k - 1));
    }
  }

  lemma OneZeroStays(j: nat, k: nat)
    requires j <= k && One(j) == 0
    ensures One(k) == 0
  {
    hide Up;
    UpZero();
    if j < k {
      OneZeroStays(j, k - 1);
    }
  }

  lemma OneDoubles(k: nat)
    ensures One(k + 4) == Up(Up(Up(Up(One(k)))))
  {
    hide Up;
    assert One(k + 4) == Up(One(k + 3));
    assert One(k + 3) == Up(One(k + 2));
    assert One(k + 2) == Up(One(k + 1));
  }

  lemma UpFour(a: Word)
    ensures Up(Up(Up(Up(a)))) == a << 4
  {
  }

  lemma OneNotZero(k: nat)
    requires k < 32
    ensures One(k) != 0
  {
    hide Up;
    OneDoubles(0);
    OneDoubles(4);
    OneDoubles(8);
    OneDoubles(12);
    OneDoubles(16);
    OneDoubles(20);
    OneDoubles(24);
    UpFour(1);
    UpFour(0x10);
    UpFour(0x100);
    UpFour(0x1000);
    UpFour(0x10000);
    UpFour(0x100000);
    UpFour(0x1000000);
    assert One(28) == 0x10000000;
    assert One(29) == Up(0x10000000) && One(30) == Up(Up(0x10000000)) && One(31) == Up(Up(Up(0x10000000)));
    TopThree();
    if One(k) == 0 {
      OneZeroStays(k, 31);
    }
  }

  lemma TopThree()
    ensures Up(Up(Up(0x10000000))) == 0x80000000
  {
  }

  lemma WithOther(w: Word, m: Word, o: Word)
    requires Both(m, o) == 0
    ensures Both(With(w, m), o) == Both(w, o)
  {
  }

  lemma WithSame(w: Word, o: Word)
    ensures Both(With(w, o), o) == o
  {
  }

  lemma WithoutOther(w: Word, m: Word, o: Word)
    requires Both(m, o) == 0
    ensures Both(Without(w, m), o) == Both(w, o)
  {
  }

  lemma WithoutSame(w: Word, o: Word)
    ensures Both(Without(w, o), o) == 0
  {
  }

  lemma NothingSet(o: Word)
    ensures Both(0, o) == 0
  {
  }

  lemma SetBit(w: Word, j: nat, k: nat)
    requires j < 32 && k < 32
    ensures Tst(With(w, One(j)), k) <==> k == j || Tst(w, k)
    ensures Tst(Without(w, One(j)), k) <==> k != j && Tst(w, k)
    ensures !Tst(0, k)
  {
    hide Both, With, Without, One;
    NothingSet(One(k));
    if j == k {
      OneNotZero(k);
      WithSame(w, One(k));
      WithoutSame(w, One(k));
    } else {
      OnesApart(j, k);
      WithOther(w, One(j), One(k));
      WithoutOther(w, One(j), One(k));
    }
  }

  // ----- the map

  /** Bit i of the map. */
  predicate BitSet(words: seq<Word>, i: nat)
    requires |words| == FRAG_MAP_SIZE && i < FRAG_MAX
  {
    Tst(words[i / 32], i % 32)
  }

  /** The blocks that are marked. */
  ghost function Blocks(words: seq<Word>): set<nat>
    requires |words| == FRAG_MAP_SIZE
  {
    set i: nat | i < FRAG_MAX && BitSet(words, i)
  }

  /** fragmap_init clears FRAG_MAP_SIZE bytes, not words, so the marks from this block on stay. */
  const CLEARED_BLOCKS: nat := 8 * FRAG_MAP_SIZE

  /** The blocks that fragmap_init leaves marked. */
  function Stale(blocks: set<nat>): set<nat> {
    set i | i in blocks && CLEARED_BLOCKS <= i
  }

  /** memset(map->fragmap, 0, FRAG_MAP_SIZE): FRAG_MAP_SIZE / 4 words. */
  method FragmapInit(fragmap: array<Word>)
    requires fragmap.Length == FRAG_MAP_SIZE
    modifies fragmap
    ensures Blocks(fragmap[..]) == Stale(old(Blocks(fragmap[..])))
  {
    hide Tst;
    for i := 0 to FRAG_MAP_SIZE / 4
      invariant forall j | 0 <= j < FRAG_MAP_SIZE :: fragmap[j] == if j < i then 0 else old(fragmap[j])
    {
      fragmap[i] := 0;
    }
    forall i: nat | i < FRAG_MAX
      ensures BitSet(fragmap[..], i) <==> CLEARED_BLOCKS <= i && BitSet(old(fragmap[..]), i)
    {
      SetBit(0, 0, i % 32);
    }
  }

  method FragmapSet(fragmap: array<Word>, i: nat)
    requires fragmap.Length == FRAG_MAP_SIZE && i < FRAG_MAX
    modifies fragmap
    ensures Blocks(fragmap[..]) == old(Blocks(fragmap[..])) + {i}
  {
    hide Tst, With, One;
    fragmap[i / 32] := With(fragmap[i / 32], One(i % 32));
    forall k: nat | k < FRAG_MAX
      ensures BitSet(fragmap[..], k) <==> k == i || BitSet(old(fragmap[..]), k)
    {
      SetBit(old(fragmap[i / 32]), i % 32, k % 32);
    }
  }

  method FragmapClear(fragmap: array<Word>, i: nat)
    requires fragmap.Length == FRAG_MAP_SIZE && i < FRAG_MAX
    modifies fragmap
    ensures Blocks(fragmap[..]) == old(Blocks(fragmap[..])) - {i}
  {
    hide Tst, Without, One;
    fragmap[i / 32] := Without(fragmap[i / 32], One(i % 32));
    forall k: nat | k < FRAG_MAX
      ensures BitSet(fragmap[..], k) <==> k != i && BitSet(old(fragmap[..]), k)
    {
      SetBit(old(fragmap[i / 32]), i % 32, k % 32);
    }
  }

  method FragmapTst(fragmap: array<Word>, i: nat) returns (marked: bool)
    requires fragmap.Length == FRAG_MAP_SIZE && i < FRAG_MAX
    ensures marked <==> i in Blocks(fragmap[..])
  {
    marked := Tst(fragmap[i / 32], i % 32);
  }
}
