/** Slash-separated paths as sequences of segments, and the order in which a directory walk visits them. */
module Paths {
  type Path = seq<string>

  /** Neither path is the other or lies under it. */
  predicate Apart(p: Path, q: Path) {
    !(p <= q) && !(q <= p)
  }

  function Parent(p: Path): Path
    requires p != []
  {
    p[..|p| - 1]
  }

  // ---- Lexicographic order ----

  predicate CharLess(a: char, b: char) {
    a < b
  }

  predicate StringLess(a: string, b: string) {
    Lexicographic(CharLess, a, b)
  }

  /** The order of a pre-order walk with sorted siblings. */
  predicate PathLess(p: Path, q: Path) {
    Lexicographic(StringLess, p, q)
  }

  predicate Lexicographic<T(==)>(less: (T, T) -> bool, a: seq<T>, b: seq<T>) {
    if b == [] then false
    else if a == [] then true
    else if a[0] == b[0] then Lexicographic(less, a[1..], b[1..])
    else less(a[0], b[0])
  }

  ghost predicate StrictOrder<T(!new)>(less: (T, T) -> bool) {
    && (forall a, b :: less(a, b) ==> !less(b, a))
    && (forall a, b, c :: less(a, b) && less(b, c) ==> less(a, c))
    && (forall a, b :: a == b || less(a, b) || less(b, a))
  }

  lemma {:induction false} LexicographicAsymmetric<T(!new)>(less: (T, T) -> bool, a: seq<T>, b: seq<T>)
    requires StrictOrder(less) && Lexicographic(less, a, b)
    ensures !Lexicographic(less, b, a)
  {
    if a != [] && a[0] == b[0] {
      LexicographicAsymmetric(less, a[1..], b[1..]);
    }
  }

  lemma {:induction false} LexicographicTransitive<T(!new)>(less: (T, T) -> bool, a: seq<T>, b: seq<T>, c: seq<T>)
    requires StrictOrder(less) && Lexicographic(less, a, b) && Lexicographic(less, b, c)
    ensures Lexicographic(less, a, c)
  {
    if a != [] && a[0] == b[0] == c[0] {
      LexicographicTransitive(less, a[1..], b[1..], c[1..]);
    }
  }

  lemma {:induction false} LexicographicTotal<T(!new)>(less: (T, T) -> bool, a: seq<T>, b: seq<T>)
    requires StrictOrder(less)
    ensures a == b || Lexicographic(less, a, b) || Lexicographic(less, b, a)
  {
    if a != [] && b != [] && a[0] == b[0] {
      LexicographicTotal(less, a[1..], b[1..]);
      assert a == [a[0]] + a[1..] && b == [b[0]] + b[1..];
    }
  }

  lemma LexicographicIsStrictOrder<T(!new)>(less: (T, T) -> bool)
    requires StrictOrder(less)
    ensures StrictOrder((a, b) => Lexicographic(less, a, b))
  {
    forall a, b ensures Lexicographic(less, a, b) ==> !Lexicographic(less, b, a) {
      if Lexicographic(less, a, b) { LexicographicAsymmetric(less, a, b); }
    }
    forall a, b, c | Lexicographic(less, a, b) && Lexicographic(less, b, c) ensures Lexicographic(less, a, c) {
      LexicographicTransitive(less, a, b, c);
    }
    forall a, b ensures a == b || Lexicographic(less, a, b) || Lexicographic(less, b, a) {
      LexicographicTotal(less, a, b);
    }
  }

  lemma StringLessIsStrictOrder()
    ensures StrictOrder(StringLess)
  {
    LexicographicIsStrictOrder(CharLess);
    var lex := (a: string, b: string) => Lexicographic(CharLess, a, b);
    assert forall a: string, b: string :: StringLess(a, b) == lex(a, b);
  }

  lemma PathLessIsStrictOrder()
    ensures StrictOrder(PathLess)
  {
    StringLessIsStrictOrder();
    LexicographicIsStrictOrder(StringLess);
    var lex := (a: Path, b: Path) => Lexicographic(StringLess, a, b);
    assert forall a: Path, b: Path :: PathLess(a, b) == lex(a, b);
  }

  /** A walk visits a directory before everything in it. */
  lemma {:induction false} AncestorsFirst(p: Path, q: Path)
    requires p < q
    ensures PathLess(p, q)
  {
    if p != [] {
      assert p[1..] < q[1..];
      AncestorsFirst(p[1..], q[1..]);
    }
  }

  // ---- Listings ----

  ghost predicate Sorted(listing: seq<Path>) {
    forall i, j :: 0 <= i < j < |listing| ==> PathLess(listing[i], listing[j])
  }

  lemma {:induction false} FirstExists(s: set<Path>)
    requires s != {}
    ensures exists p :: p in s && forall q :: q in s ==> q == p || PathLess(p, q)
  {
    PathLessIsStrictOrder();
    var p :| p in s;
    if s - {p} == {} {
      assert s == {p};
    } else {
      FirstExists(s - {p});
      var first :| first in s - {p} && forall q :: q in s - {p} ==> q == first || PathLess(first, q);
      var least := if PathLess(p, first) then p else first;
      assert forall q :: q in s ==> q == p || q in s - {p};
      assert least in s && forall q :: q in s ==> q == least || PathLess(least, q);
    }
  }

  /** The paths of `s` in the order a directory walk meets them. */
  ghost function Listing(s: set<Path>): (listing: seq<Path>)
    ensures forall p :: p in listing <==> p in s
    ensures Sorted(listing)
  {
    if s == {} then []
    else
      FirstExists(s);
      var first :| first in s && forall q :: q in s ==> q == first || PathLess(first, q);
      [first] + Listing(s - {first})
  }
}
