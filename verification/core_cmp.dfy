/**
 The pieces of Rust's standard library that the `ordered` crate and its
 examples use for comparing: the three-valued `core::cmp::Ordering`,
 `Option<Ordering>` as returned by `partial_cmp`, `u32` and its numeric
 order, the lexicographic order that tuples and derived `Ord` use, and the
 laws a comparison must obey to back `Ord` (a total order consistent with
 `Eq`). `Ordering::reverse` serves to state antisymmetry and
 `Ordering::then` stands for the tie-break of tuple and derived
 comparisons; the crate calls neither directly.
 */
module CoreCmp {

  /** `core::cmp::Ordering`. */
  datatype Ordering = Less | Equal | Greater {

    /** `Ordering::reverse`: swaps `Less` and `Greater`. */
    function Reverse(): (r: Ordering)
      ensures r == Less <==> this == Greater
      ensures r == Greater <==> this == Less
    {
      match this
      case Less => Greater
      case Equal => Equal
      case Greater => Less
    }

    /** `Ordering::then`: this ordering, unless it is `Equal`, in which case `other`. */
    function Then(other: Ordering): (r: Ordering)
      ensures r == Equal <==> this == Equal && other == Equal
      ensures this != Equal ==> r == this
      ensures this == Equal ==> r == other
    {
      if this == Equal then other else this
    }
  }

  /** `core::option::Option`, as returned by `partial_cmp`. */
  datatype Option<+T> = None | Some(value: T)

  /** Rust's `u32`. */
  newtype u32 = x: int | 0 <= x < 0x1_0000_0000

  /** `u32::cmp`: the numeric order. */
  function CmpU32(a: u32, b: u32): Ordering
  {
    if a < b then Less else if a == b then Equal else Greater
  }

  /*
   * The obligations `Ord` places on a comparison: `cmp(a, b) == Equal`
   * exactly when `a == b`, swapping the arguments reverses the result, and
   * `Less` is transitive. Totality (exactly one of Less, Equal, Greater for
   * any two values) holds of every Dafny function into `Ordering`.
   */

  ghost predicate ConsistentWithEq<T(!new)>(cmp: (T, T) -> Ordering)
  {
    forall a, b :: cmp(a, b) == Equal <==> a == b
  }

  ghost predicate Antisymmetric<T(!new)>(cmp: (T, T) -> Ordering)
  {
    forall a, b :: cmp(b, a) == cmp(a, b).Reverse()
  }

  ghost predicate Transitive<T(!new)>(cmp: (T, T) -> Ordering)
  {
    forall a, b, c :: cmp(a, b) == Less && cmp(b, c) == Less ==> cmp(a, c) == Less
  }

  ghost predicate IsTotalOrder<T(!new)>(cmp: (T, T) -> Ordering)
  {
    ConsistentWithEq(cmp) && Antisymmetric(cmp) && Transitive(cmp)
  }

  /** Every value compares `Equal` to itself. */
  lemma Reflexive<T(!new)>(cmp: (T, T) -> Ordering, a: T)
    requires IsTotalOrder(cmp)
    ensures cmp(a, a) == Equal
  {
  }

  /** Exactly one of `a < b`, `a == b`, `b < a` holds. */
  lemma Trichotomy<T(!new)>(cmp: (T, T) -> Ordering, a: T, b: T)
    requires IsTotalOrder(cmp)
    ensures cmp(a, b) == Less || a == b || cmp(b, a) == Less
    ensures !(cmp(a, b) == Less && a == b)
    ensures !(cmp(a, b) == Less && cmp(b, a) == Less)
    ensures !(a == b && cmp(b, a) == Less)
  {
  }

  /** `Greater` is transitive too; it follows from antisymmetry and the transitivity of `Less`. */
  lemma TransitiveGreater<T(!new)>(cmp: (T, T) -> Ordering, a: T, b: T, c: T)
    requires IsTotalOrder(cmp)
    requires cmp(a, b) == Greater && cmp(b, c) == Greater
    ensures cmp(a, c) == Greater
  {
    assert cmp(b, a) == Less && cmp(c, b) == Less;
    assert cmp(c, a) == Less;
  }

  /** The numeric order on `u32` is a total order consistent with equality. */
  lemma CmpU32IsTotalOrder()
    ensures IsTotalOrder(CmpU32)
  {
  }

  /**
   The lexicographic order on pairs, as `(a0, a1).cmp(&(b0, b1))` and a
   derived `Ord` on a two-field struct compute it: the first components
   decide unless they are equal, and only then the second components.
   */
  function LexCmp<A, B>(cmpA: (A, A) -> Ordering, cmpB: (B, B) -> Ordering, p: (A, B), q: (A, B)): Ordering
  {
    cmpA(p.0, q.0).Then(cmpB(p.1, q.1))
  }

  /** `LexCmp` as a comparison on pairs. */
  function Lex<A, B>(cmpA: (A, A) -> Ordering, cmpB: (B, B) -> Ordering): ((A, B), (A, B)) -> Ordering
  {
    (p: (A, B), q: (A, B)) => LexCmp(cmpA, cmpB, p, q)
  }

  /** The first components decide whenever they differ; the second ones only on a tie. */
  lemma LexFirstDecides<A(!new), B(!new)>(cmpA: (A, A) -> Ordering, cmpB: (B, B) -> Ordering, p: (A, B), q: (A, B))
    requires IsTotalOrder(cmpA)
    ensures p.0 != q.0 ==> LexCmp(cmpA, cmpB, p, q) == cmpA(p.0, q.0)
    ensures p.0 == q.0 ==> LexCmp(cmpA, cmpB, p, q) == cmpB(p.1, q.1)
  {
  }

  /** The lexicographic combination of two total orders is a total order. */
  lemma LexIsTotalOrder<A(!new), B(!new)>(cmpA: (A, A) -> Ordering, cmpB: (B, B) -> Ordering)
    requires IsTotalOrder(cmpA) && IsTotalOrder(cmpB)
    ensures IsTotalOrder(Lex(cmpA, cmpB))
  {
    var lex := Lex(cmpA, cmpB);
    forall p, q
      ensures lex(p, q) == Equal <==> p == q
      ensures lex(q, p) == lex(p, q).Reverse()
    {
      assert lex(p, q) == LexCmp(cmpA, cmpB, p, q);
      assert lex(q, p) == LexCmp(cmpA, cmpB, q, p);
    }
    forall p, q, r | lex(p, q) == Less && lex(q, r) == Less
      ensures lex(p, r) == Less
    {
      assert lex(p, q) == LexCmp(cmpA, cmpB, p, q);
      assert lex(q, r) == LexCmp(cmpA, cmpB, q, r);
      assert lex(p, r) == LexCmp(cmpA, cmpB, p, r);
    }
  }

  /**
   A comparison `cmpS` that compares through an injective view `f` into a
   type with a total order is itself a total order. Wrappers and derived
   orders on structs are comparisons of this shape.
   */
  lemma ViewIsTotalOrder<S(!new), T(!new)>(cmpS: (S, S) -> Ordering, f: S -> T, cmpT: (T, T) -> Ordering)
    requires forall a, b :: cmpS(a, b) == cmpT(f(a), f(b))
    requires forall a, b :: f(a) == f(b) ==> a == b
    requires IsTotalOrder(cmpT)
    ensures IsTotalOrder(cmpS)
  {
    forall a, b ensures cmpS(a, b) == Equal <==> a == b {
      assert cmpS(a, b) == cmpT(f(a), f(b));
    }
    forall a, b, c | cmpS(a, b) == Less && cmpS(b, c) == Less
      ensures cmpS(a, c) == Less
    {
      assert cmpT(f(a), f(b)) == Less && cmpT(f(b), f(c)) == Less;
    }
  }
}
