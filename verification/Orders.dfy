/** Key bounds and node sequences, used by both kinds of search tree. */
module Orders {

  /** A bound on the keys of a part of a search tree; Open is none at all. */
  datatype Bound = Open | Key(key: int)

  ghost predicate Between(lo: Bound, k: int, hi: Bound) {
    (lo.Key? ==> lo.key < k) && (hi.Key? ==> k < hi.key)
  }

  ghost function SetOf<T>(s: seq<T>): set<T> {
    set x | x in s
  }

  /** s' is s with x put in at some place. */
  ghost predicate AddedTo<T>(s: seq<T>, x: T, s': seq<T>) {
    exists i :: 0 <= i <= |s| && s' == s[..i] + [x] + s[i..]
  }

  /** s' is s with the one element x taken out. */
  ghost predicate TakenFrom<T>(s: seq<T>, x: T, s': seq<T>) {
    exists i :: 0 <= i < |s| && s[i] == x && s' == s[..i] + s[i + 1..]
  }

  lemma AddedBetween<T>(b: seq<T>, x: T, a: seq<T>)
    ensures AddedTo(b + a, x, b + [x] + a)
    ensures SetOf(b + [x] + a) == SetOf(b + a) + {x}
  {
    var i := |b|;
    assert (b + a)[..i] == b && (b + a)[i..] == a;
  }

  lemma TakenBetween<T>(b: seq<T>, x: T, a: seq<T>)
    requires x !in b && x !in a
    ensures TakenFrom(b + [x] + a, x, b + a)
    ensures SetOf(b + a) == SetOf(b + [x] + a) - {x}
  {
    var s, i := b + [x] + a, |b|;
    assert s[i] == x && s[..i] == b && s[i + 1..] == a;
  }
}
