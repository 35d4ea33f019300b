/**
 The `point` example: a 2D point with no meaningful order of its own,
 ordered arbitrarily but lexicographically on `(x, y)` so that wrapped
 points can be `BTreeMap` keys.
 */
module PointExample {
  import opened CoreCmp
  import opened OrderedWrapper
  import opened SortedMaps

  /** `struct Point { x: u32, y: u32 }` with derived `Eq`. */
  datatype Point = Point(x: u32, y: u32)

  /** `ArbitraryOrd for Point`: `(self.x, self.y).cmp(&(other.x, other.y))`. */
  function PointCmp(p: Point, q: Point): Ordering
  {
    LexCmp(CmpU32, CmpU32, (p.x, p.y), (q.x, q.y))
  }

  /** `x` decides whenever the `x`s differ; `y` is consulted only when they are equal. */
  lemma PointCmpComparesXFirst(p: Point, q: Point)
    ensures p.x < q.x ==> PointCmp(p, q) == Less
    ensures p.x > q.x ==> PointCmp(p, q) == Greater
    ensures p.x == q.x ==> (PointCmp(p, q) == Less <==> p.y < q.y)
    ensures p.x == q.x ==> (PointCmp(p, q) == Greater <==> p.y > q.y)
  {
  }

  /** `arbitrary_cmp` says `Equal` exactly when both coordinates agree, as the derived `Eq` does. */
  lemma PointCmpEqualIff(p: Point, q: Point)
    ensures PointCmp(p, q) == Equal <==> p.x == q.x && p.y == q.y
    ensures PointCmp(p, q) == Equal <==> p == q
  {
  }

  /** `Point::arbitrary_cmp` is a total order: antisymmetric and transitive as well. */
  lemma PointCmpIsTotalOrder()
    ensures IsTotalOrder(PointCmp)
  {
    CmpU32IsTotalOrder();
    LexIsTotalOrder(CmpU32, CmpU32);
    var lex := Lex(CmpU32, CmpU32);
    var coordinates := (p: Point) => (p.x, p.y);
    forall p, q ensures PointCmp(p, q) == lex(coordinates(p), coordinates(q)) {
    }
    ViewIsTotalOrder(PointCmp, coordinates, lex);
  }

  /**
   `Ordered::from_ref(&p)` views a borrowed `Point` as an `Ordered<Point>`.
   Its definition is not part of this model; its stand-in is the value
   `Ordered(p)`, which compares `Equal` to an owned `Ordered::from(q)`
   exactly when `p` and `q` have the same coordinates.
   */
  lemma FromRefComparesEqual(p: Point, q: Point)
    ensures Cmp(PointCmp, Ordered(p), From(q)) == Equal <==> p.x == q.x && p.y == q.y
  {
    PointCmpEqualIff(p, q);
  }

  /**
   `main`: inserts `Ordered::from(a)` for `a = (2, 3)` and `Ordered::from(b)`
   for `b = (1, 5)`, then looks up `a` again. `(1, 5)` sorts first, both
   keys stay, and the lookup finds `a`'s value, so the `expect` does not
   panic.
   */
  method PointMain() returns (entries: seq<(Ordered<Point>, string)>, found: string)
    ensures entries == [(Ordered(Point(1, 5)), "some other interesting value"), (Ordered(Point(2, 3)), "some interesting value")]
    ensures found == "some interesting value"
  {
    PointCmpIsTotalOrder();
    OrderedCmpIsTotalOrder(PointCmp);
    var btree := new SortedMap(OrderedCmp(PointCmp));
    var a := Point(2, 3);
    var b := Point(1, 5);
    var _ := btree.Insert(From(a), "some interesting value");
    var _ := btree.Insert(From(b), "some other interesting value");
    entries := btree.entries;
    var lookedUp := btree.Get(Ordered(a));
    found := lookedUp.value;
  }
}
