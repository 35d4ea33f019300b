/**
 The `ordered` crate: the `ArbitraryOrd` trait and the `Ordered<T>`
 wrapper that turns a type's arbitrary comparison into `PartialOrd`/`Ord`.

 The trait `ArbitraryOrd` is modelled as a comparison function
 `arbitraryCmp: (T, T) -> Ordering` passed to every member that compares.
 The trait itself states no laws. The laws come from Rust's `Ord`: because
 `Ord for Ordered<T>` forwards to `arbitrary_cmp`, that function must be a
 total order consistent with `Eq` for the wrapper's `Ord` to be lawful.
 That requirement is `IsTotalOrder(arbitraryCmp)`.
 */
module OrderedWrapper {
  import opened CoreCmp

  /**
   `pub struct Ordered<T>(pub T)`. Its derived `PartialEq`/`Eq` compares the
   one field with `T`'s `==`, which the model reads as Dafny's equality of
   values; so the derived equality is Dafny's equality on this datatype.
   */
  datatype Ordered<T> = Ordered(inner: T)

  /** `Ordered::new`. */
  function New<T>(inner: T): (o: Ordered<T>)
    ensures o.inner == inner
  {
    Ordered(inner)
  }

  /** `From<T> for Ordered<T>`, also reached as `x.into()`. */
  function From<T>(inner: T): (o: Ordered<T>)
    ensures o.inner == inner
  {
    Ordered(inner)
  }

  /** `Ordered::as_inner`: a reference to the field, modelled by its value. */
  function AsInner<T>(o: Ordered<T>): (x: T)
    ensures New(x) == o
  {
    o.inner
  }

  /** `Ordered::into_inner`: gives up the wrapper and returns the field. */
  function IntoInner<T>(o: Ordered<T>): (x: T)
    ensures New(x) == o
  {
    o.inner
  }

  /** `Deref for Ordered<T>`: `*o` is the field. */
  function Deref<T>(o: Ordered<T>): (x: T)
    ensures New(x) == o
  {
    o.inner
  }

  /** `Borrow<T> for Ordered<T>`: borrowing as `&T` yields the field. */
  function Borrow<T>(o: Ordered<T>): (x: T)
    ensures New(x) == o
  {
    o.inner
  }

  /** Wrapping then unwrapping, by any of the accessors, gives back the value. */
  lemma WrapThenUnwrap<T>(x: T)
    ensures IntoInner(New(x)) == x && AsInner(New(x)) == x
    ensures Deref(New(x)) == x && Borrow(New(x)) == x
    ensures IntoInner(From(x)) == x
  {
  }

  /** Unwrapping then wrapping gives back the wrapper. */
  lemma UnwrapThenWrap<T>(o: Ordered<T>)
    ensures New(IntoInner(o)) == o && From(AsInner(o)) == o
  {
  }

  /** `Ordered::from(x)` and `Ordered::new(x)` build the same wrapper, which holds exactly `x`. */
  lemma FromIsNew<T>(x: T)
    ensures From(x) == New(x) == Ordered(x)
  {
  }

  /** The derived equality: two wrappers are equal exactly when their fields are. */
  lemma EqualityIsInnerEquality<T>(a: T, b: T)
    ensures Ordered(a) == Ordered(b) <==> a == b
  {
  }

  /** `Ord::cmp for Ordered<T>`: forwards to `arbitrary_cmp` on the fields. */
  function Cmp<T>(arbitraryCmp: (T, T) -> Ordering, a: Ordered<T>, b: Ordered<T>): Ordering
  {
    arbitraryCmp(a.inner, b.inner)
  }

  /** `PartialOrd::partial_cmp for Ordered<T>`: always `Some(self.cmp(other))`. */
  function PartialCmp<T>(arbitraryCmp: (T, T) -> Ordering, a: Ordered<T>, b: Ordered<T>): (r: Option<Ordering>)
    ensures r != None
  {
    Some(Cmp(arbitraryCmp, a, b))
  }

  /** `Ord::cmp` on `Ordered<T>` as a comparison function, for containers and derived orders. */
  function OrderedCmp<T>(arbitraryCmp: (T, T) -> Ordering): (Ordered<T>, Ordered<T>) -> Ordering
  {
    (a: Ordered<T>, b: Ordered<T>) => Cmp(arbitraryCmp, a, b)
  }

  /** The `<` operator, `PartialOrd::lt`, whose provided definition tests `partial_cmp` for `Some(Less)`. */
  predicate Lt<T>(arbitraryCmp: (T, T) -> Ordering, a: Ordered<T>, b: Ordered<T>)
  {
    PartialCmp(arbitraryCmp, a, b) == Some(Less)
  }

  /** The `<=` operator, `PartialOrd::le`: `Some(Less)` or `Some(Equal)`. */
  predicate Le<T>(arbitraryCmp: (T, T) -> Ordering, a: Ordered<T>, b: Ordered<T>)
  {
    PartialCmp(arbitraryCmp, a, b) == Some(Less) || PartialCmp(arbitraryCmp, a, b) == Some(Equal)
  }

  /** `Ordered(a).cmp(&Ordered(b)) == a.arbitrary_cmp(&b)` for all `a`, `b`. */
  lemma CmpForwards<T>(arbitraryCmp: (T, T) -> Ordering, a: T, b: T)
    ensures Cmp(arbitraryCmp, Ordered(a), Ordered(b)) == arbitraryCmp(a, b)
    ensures OrderedCmp(arbitraryCmp)(Ordered(a), Ordered(b)) == arbitraryCmp(a, b)
  {
  }

  /** `partial_cmp` never returns `None` and always agrees with `cmp`. */
  lemma PartialCmpAgreesWithCmp<T>(arbitraryCmp: (T, T) -> Ordering, a: Ordered<T>, b: Ordered<T>)
    ensures PartialCmp(arbitraryCmp, a, b).Some?
    ensures PartialCmp(arbitraryCmp, a, b).value == Cmp(arbitraryCmp, a, b)
  {
  }

  /**
   The wrapper's `cmp` is a total order consistent with the derived
   equality exactly when the inner `arbitrary_cmp` is one: the wrapper
   neither adds nor removes any of the `Ord` laws.
   */
  lemma OrderedCmpIsTotalOrder<T(!new)>(arbitraryCmp: (T, T) -> Ordering)
    ensures IsTotalOrder(OrderedCmp(arbitraryCmp)) <==> IsTotalOrder(arbitraryCmp)
  {
    var ordered := OrderedCmp(arbitraryCmp);
    if IsTotalOrder(arbitraryCmp) {
      forall a, b ensures ordered(a, b) == arbitraryCmp(a.inner, b.inner) {
      }
      ViewIsTotalOrder(ordered, (o: Ordered<T>) => o.inner, arbitraryCmp);
    }
    if IsTotalOrder(ordered) {
      forall a, b ensures arbitraryCmp(a, b) == ordered(Ordered(a), Ordered(b)) {
      }
      ViewIsTotalOrder(arbitraryCmp, (x: T) => Ordered(x), ordered);
    }
  }

  /** When `arbitrary_cmp` obeys the `Ord` laws, `cmp` on wrappers is `Equal` exactly when the wrappers are equal. */
  lemma CmpConsistentWithEq<T(!new)>(arbitraryCmp: (T, T) -> Ordering, a: Ordered<T>, b: Ordered<T>)
    requires IsTotalOrder(arbitraryCmp)
    ensures Cmp(arbitraryCmp, a, b) == Equal <==> a == b
    ensures Cmp(arbitraryCmp, a, a) == Equal
  {
    assert Cmp(arbitraryCmp, a, b) == arbitraryCmp(a.inner, b.inner);
  }

  /**
   The `<` operator on wrappers is a strict total order: irreflexive,
   asymmetric, transitive, and any two wrappers are related by exactly one
   of `<`, `==`, `>`.
   */
  lemma LtIsStrictTotalOrder<T(!new)>(arbitraryCmp: (T, T) -> Ordering, a: Ordered<T>, b: Ordered<T>, c: Ordered<T>)
    requires IsTotalOrder(arbitraryCmp)
    ensures !Lt(arbitraryCmp, a, a)
    ensures Lt(arbitraryCmp, a, b) ==> !Lt(arbitraryCmp, b, a)
    ensures Lt(arbitraryCmp, a, b) && Lt(arbitraryCmp, b, c) ==> Lt(arbitraryCmp, a, c)
    ensures Lt(arbitraryCmp, a, b) || a == b || Lt(arbitraryCmp, b, a)
    ensures Le(arbitraryCmp, a, b) <==> Lt(arbitraryCmp, a, b) || a == b
  {
    assert arbitraryCmp(a.inner, a.inner) == Equal;
    assert arbitraryCmp(b.inner, a.inner) == arbitraryCmp(a.inner, b.inner).Reverse();
    if Lt(arbitraryCmp, a, b) && Lt(arbitraryCmp, b, c) {
      assert arbitraryCmp(a.inner, b.inner) == Less && arbitraryCmp(b.inner, c.inner) == Less;
    }
  }

  /**
   A mutable binding holding one `Ordered<T>`. `DerefMut` and `BorrowMut`
   hand out `&mut` to the single field; the caller's in-place update of the
   inner value is the function `update`.
   */
  class OrderedVar<T> {
    var value: Ordered<T>

    constructor (v: Ordered<T>)
      ensures value == v
    {
      value := v;
    }

    /** `DerefMut for Ordered<T>`: `*o.deref_mut() = update(*o)`. */
    method DerefMut(update: T -> T)
      modifies this
      ensures value == Ordered(update(old(value).inner))
      ensures Deref(value) == update(old(Deref(value)))
    {
      value := Ordered(update(value.inner));
    }

    /** `BorrowMut<T> for Ordered<T>`: the same in-place update through `borrow_mut`. */
    method BorrowMut(update: T -> T)
      modifies this
      ensures value == Ordered(update(old(value).inner))
      ensures Borrow(value) == update(old(Borrow(value)))
    {
      value := value.(inner := update(value.inner));
    }
  }
}
