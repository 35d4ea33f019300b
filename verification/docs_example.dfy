/**
 The crate's documentation example: `Foo`, a two-variant enum with no
 meaningful order of its own, its `ArbitraryOrd` implementation, the
 struct `Adt` that derives `Ord` through an `Ordered<Foo>` field, and the
 programs that put wrapped `Foo`s into a `BTreeMap` and read the wrapped
 value back.
 */
module DocsExample {
  import opened CoreCmp
  import opened OrderedWrapper
  import opened SortedMaps

  /** `enum Foo { Space(u32), Time(u32) }` with derived `Eq`. */
  datatype Foo = Space(payload: u32) | Time(payload: u32)

  /** `ArbitraryOrd for Foo`: every `Space` before every `Time`, then by payload. */
  function FooCmp(a: Foo, b: Foo): Ordering
  {
    match (a, b)
    case (Space(_), Time(_)) => Less
    case (Time(_), Space(_)) => Greater
    case (Space(m), Space(n)) => CmpU32(m, n)
    case (Time(m), Time(n)) => CmpU32(m, n)
  }

  /** Every `Space(_)` is below every `Time(_)`, whatever the payloads. */
  lemma SpaceBeforeTime(m: u32, n: u32)
    ensures FooCmp(Space(m), Time(n)) == Less
    ensures FooCmp(Time(n), Space(m)) == Greater
  {
  }

  /** Within one variant the payloads decide, by the numeric order of `u32`. */
  lemma SameVariantComparesPayloads(a: Foo, b: Foo)
    requires a.Space? == b.Space?
    ensures FooCmp(a, b) == Less <==> a.payload < b.payload
    ensures FooCmp(a, b) == Greater <==> a.payload > b.payload
  {
  }

  /** `arbitrary_cmp` says `Equal` exactly when the derived `Eq` does. */
  lemma FooCmpEqualIff(a: Foo, b: Foo)
    ensures FooCmp(a, b) == Equal <==> a == b
  {
  }

  /** Swapping the arguments reverses the result. */
  lemma FooCmpAntisymmetric(a: Foo, b: Foo)
    ensures FooCmp(b, a) == FooCmp(a, b).Reverse()
  {
  }

  /** `Less` followed by `Less` is `Less`. */
  lemma FooCmpTransitive(a: Foo, b: Foo, c: Foo)
    requires FooCmp(a, b) == Less && FooCmp(b, c) == Less
    ensures FooCmp(a, c) == Less
  {
  }

  /** Where a `Foo` sits in the order: its variant's rank (Space 0, Time 1), then its payload. */
  function FooRank(f: Foo): (u32, u32)
  {
    match f
    case Space(n) => (0, n)
    case Time(n) => (1, n)
  }

  /** `Foo`'s arbitrary order is the lexicographic order on (variant rank, payload). */
  lemma FooCmpIsLexOnRank(a: Foo, b: Foo)
    ensures FooCmp(a, b) == LexCmp(CmpU32, CmpU32, FooRank(a), FooRank(b))
  {
  }

  /** `Foo::arbitrary_cmp` obeys the `Ord` laws that `Ord for Ordered<Foo>` passes on to it: a total order consistent with `Eq`. */
  lemma FooCmpIsTotalOrder()
    ensures IsTotalOrder(FooCmp)
  {
    CmpU32IsTotalOrder();
    LexIsTotalOrder(CmpU32, CmpU32);
    var lex := Lex(CmpU32, CmpU32);
    forall a, b ensures FooCmp(a, b) == lex(FooRank(a), FooRank(b)) {
      FooCmpIsLexOnRank(a, b);
    }
    ViewIsTotalOrder(FooCmp, FooRank, lex);
  }

  /** `struct Adt { x: u32, p: Ordered<Foo> }` with derived `Eq`. */
  datatype Adt = Adt(x: u32, p: Ordered<Foo>)

  /** The derived `Ord for Adt`: `x` first, ties broken by `p.cmp`, which is `Foo::arbitrary_cmp`. */
  function AdtCmp(a: Adt, b: Adt): Ordering
  {
    CmpU32(a.x, b.x).Then(Cmp(FooCmp, a.p, b.p))
  }

  /**
   The derived `PartialOrd for Adt`: `partial_cmp` on `x` (always `Some`
   for `u32`) decides unless it is `Some(Equal)`, and then `partial_cmp` on
   `p` does.
   */
  function AdtPartialCmp(a: Adt, b: Adt): Option<Ordering>
  {
    var first := Some(CmpU32(a.x, b.x));
    if first == Some(Equal) then PartialCmp(FooCmp, a.p, b.p) else first
  }

  /** `x` decides when the `x`s differ; otherwise the wrapped `Foo`s decide. */
  lemma AdtCmpIsLexicographic(a: Adt, b: Adt)
    ensures a.x != b.x ==> AdtCmp(a, b) == CmpU32(a.x, b.x)
    ensures a.x == b.x ==> AdtCmp(a, b) == FooCmp(a.p.inner, b.p.inner)
  {
  }

  /** The derived `partial_cmp` and `cmp` agree, and `partial_cmp` is never `None`. */
  lemma AdtPartialCmpAgreesWithCmp(a: Adt, b: Adt)
    ensures AdtPartialCmp(a, b) == Some(AdtCmp(a, b))
  {
  }

  /** The derived order on `Adt` is a total order consistent with its derived `Eq`. */
  lemma AdtCmpIsTotalOrder()
    ensures IsTotalOrder(AdtCmp)
  {
    FooCmpIsTotalOrder();
    OrderedCmpIsTotalOrder(FooCmp);
    CmpU32IsTotalOrder();
    var lex := Lex(CmpU32, OrderedCmp(FooCmp));
    LexIsTotalOrder(CmpU32, OrderedCmp(FooCmp));
    var fields := (a: Adt) => (a.x, a.p);
    forall a, b ensures AdtCmp(a, b) == lex(fields(a), fields(b)) {
    }
    ViewIsTotalOrder(AdtCmp, fields, lex);
  }

  /** `b_tree_map`: inserts `Ordered(Space(50))` and `Ordered(Time(50))` into an empty map. */
  method BTreeMapExample() returns (first: Option<string>, second: Option<string>, entries: seq<(Ordered<Foo>, string)>)
    ensures first == None && second == None
    ensures entries == [(Ordered(Space(50)), "some interesting value"), (Ordered(Time(50)), "some other interesting value")]
  {
    FooCmpIsTotalOrder();
    OrderedCmpIsTotalOrder(FooCmp);
    var btree := new SortedMap(OrderedCmp(FooCmp));
    var a := Space(50);
    var b := Time(50);
    first := btree.Insert(Ordered(a), "some interesting value");
    second := btree.Insert(Ordered(b), "some other interesting value");
    entries := btree.entries;
  }

  /**
   The crate-level example: the same two insertions, then
   `map.get(&Ordered::from(a)).expect(..)`, which finds the value stored
   under `Ordered(a)` (so the `expect` does not panic).
   */
  method CrateDocExample() returns (found: string)
    ensures found == "some interesting value"
  {
    FooCmpIsTotalOrder();
    OrderedCmpIsTotalOrder(FooCmp);
    var btree := new SortedMap(OrderedCmp(FooCmp));
    var a := Space(50);
    var b := Time(50);
    var _ := btree.Insert(Ordered(a), "some interesting value");
    var _ := btree.Insert(Ordered(b), "some other interesting value");
    var lookedUp := btree.Get(From(a));
    found := lookedUp.value;
  }

  /**
   `derive_and_access`: builds `Adt { x: 42, p: Foo::Space(50).into() }` and
   reads the wrapped `Foo` back by `*adt.p`, `as_inner` and `into_inner`.
   */
  method DeriveAndAccess() returns (derefd: Foo, asInner: Foo, intoInner: Foo)
    ensures derefd == Space(50) && asInner == Space(50) && intoInner == Space(50)
  {
    var adt := Adt(42, From(Space(50)));
    derefd := Deref(adt.p);
    asInner := AsInner(adt.p);
    intoInner := IntoInner(adt.p);
  }
}
