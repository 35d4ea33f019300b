# ordered — a Dafny model

The Rust crate `ordered` lets a type with no meaningful order still be
used as a `BTreeMap` key or inside a struct that derives `Ord`. The type
implements the trait `ArbitraryOrd`, which has one function:
`arbitrary_cmp(&self, &Self) -> Ordering`. You then wrap a value in
`Ordered<T>`. The wrapper is a one-field struct. Its `PartialOrd`/`Ord`
forward to `arbitrary_cmp`. Construction, dereferencing and borrowing
hand the field through unchanged.

This project models:

- `core_cmp.dfy`, module `CoreCmp`: the standard-library pieces the crate
  and its examples compare with. These are `core::cmp::Ordering`, `Option`
  (as returned by `partial_cmp`), `u32` and its numeric order, and the
  lexicographic order that tuples and derived `Ord` use. The crate calls
  neither `Ordering::reverse` nor `Ordering::then`: `Reverse` serves to
  state antisymmetry, and `Then` stands for the tie-break inside tuple and
  derived comparisons. It also states the `Ord` obligations as predicates:
  `ConsistentWithEq`, `Antisymmetric`, `Transitive` and, together,
  `IsTotalOrder`.
- `ordered_wrapper.dfy`, module `OrderedWrapper`: `src/lib.rs`. The trait
  `ArbitraryOrd` becomes a comparison parameter
  `arbitraryCmp: (T, T) -> Ordering`. The trait itself states no laws; its
  documentation (`src/lib.rs:66-67`) allows "either a partial or total
  order". The laws come from Rust's `Ord`: `Ord for Ordered<T>`
  (`src/lib.rs:100-102`) forwards to `arbitrary_cmp`, so that function must
  be a total order consistent with `Eq` for the wrapper's `Ord` to be
  lawful. That requirement is `IsTotalOrder(arbitraryCmp)`. `Ordered<T>` is a datatype with its
  constructors, accessors, `cmp`, `partial_cmp` and the `<`/`<=` operators.
  The class `OrderedVar` is a mutable binding of an `Ordered<T>`. It models
  `deref_mut` and `borrow_mut`, which update the one field in place.
- `sorted_maps.dfy`, module `SortedMaps`: an ordered map in the role
  `BTreeMap` plays in the examples. It stores its entries as one sequence
  in strictly increasing key order. It provides `insert` and `get`.
- `docs_example.dfy`, module `DocsExample`: `examples/docs.rs`. This holds
  `Foo` and its arbitrary order, and `Adt` with its derived order. It also
  holds the map and accessor programs. The same `Foo` appears in the crate
  documentation (`src/lib.rs:17-50`). It is modelled once, here.
- `point_example.dfy`, module `PointExample`: `examples/point.rs`. This
  holds `Point`, its lexicographic arbitrary order and the program that
  inserts two points and looks one up.

## Model

| member | source | states |
|---|---|---|
| `CoreCmp.Ordering.Reverse` | src/lib.rs:60 | `core::cmp::Ordering::reverse` swaps `Less` and `Greater` and fixes `Equal`; used to state antisymmetry |
| `CoreCmp.Ordering.Then` | examples/point.rs:36 | `Ordering::then`, the tie-break of tuple and derived comparisons: `Equal` only when both are `Equal`, otherwise the first non-`Equal` wins; `Equal.Then(o)` is `o` |
| `CoreCmp.Reflexive` | src/lib.rs:100-102 | when `arbitrary_cmp` obeys the `Ord` laws that `Ord for Ordered<T>` passes on to it, every value compares `Equal` to itself |
| `CoreCmp.Trichotomy` | src/lib.rs:100-102 | under the `Ord` laws exactly one of `a < b`, `a == b`, `b < a` holds |
| `CoreCmp.TransitiveGreater` | src/lib.rs:100-102 | under the `Ord` laws `Greater` is transitive as well as `Less` |
| `CoreCmp.CmpU32` | examples/docs.rs:45-46 | `u32::cmp`, the `this.cmp(that)` on payloads; `CmpU32IsTotalOrder` states its laws |
| `CoreCmp.LexCmp` | examples/point.rs:36 | the tuple `cmp` on `(x, y)`; `LexFirstDecides` and `LexIsTotalOrder` state its laws |
| `CoreCmp.Lex` | examples/point.rs:36 | `LexCmp` as a comparison on pairs; `LexIsTotalOrder` states it is a total order when both components are |
| `CoreCmp.CmpU32IsTotalOrder` | examples/docs.rs:45-46 | the `u32` order used for payloads and coordinates is a total order consistent with equality |
| `CoreCmp.LexFirstDecides` | examples/point.rs:36 | tuple comparison: the first components decide when they differ, the second ones only on a tie |
| `CoreCmp.LexIsTotalOrder` | examples/point.rs:36 | the lexicographic combination of two total orders is a total order |
| `CoreCmp.ViewIsTotalOrder` | examples/docs.rs:76-80 | a comparison made through an injective view into a total order is a total order; this is how wrappers and derived struct orders inherit the laws |
| `OrderedWrapper.New` | src/lib.rs:83 | the new wrapper holds exactly the given value |
| `OrderedWrapper.From` | src/lib.rs:108-110 | the converted wrapper holds exactly the given value |
| `OrderedWrapper.AsInner` | src/lib.rs:88 | the returned value wraps back to the same wrapper |
| `OrderedWrapper.IntoInner` | src/lib.rs:93 | the returned value wraps back to the same wrapper |
| `OrderedWrapper.Deref` | src/lib.rs:112-116 | the dereferenced value wraps back to the same wrapper |
| `OrderedWrapper.Borrow` | src/lib.rs:122-124 | the borrowed value wraps back to the same wrapper |
| `OrderedWrapper.WrapThenUnwrap` | src/lib.rs:83-93 | `into_inner(new(x))`, `as_inner(new(x))`, `*new(x)`, `borrow(new(x))` and `into_inner(from(x))` are all `x` |
| `OrderedWrapper.UnwrapThenWrap` | src/lib.rs:83-93 | rewrapping the unwrapped value gives back the original wrapper |
| `OrderedWrapper.FromIsNew` | src/lib.rs:108-110 | `Ordered::from(x)` equals `Ordered::new(x)` equals `Ordered(x)` |
| `OrderedWrapper.EqualityIsInnerEquality` | src/lib.rs:74-75 | derived equality: `Ordered(a) == Ordered(b)` exactly when `a == b` |
| `OrderedWrapper.PartialCmp` | src/lib.rs:96-98 | `partial_cmp` never returns `None` |
| `OrderedWrapper.CmpForwards` | src/lib.rs:100-102 | `Ordered(a).cmp(&Ordered(b)) == a.arbitrary_cmp(&b)` for all `a`, `b` |
| `OrderedWrapper.PartialCmpAgreesWithCmp` | src/lib.rs:96-98 | `partial_cmp` is always `Some(cmp)` |
| `OrderedWrapper.OrderedCmpIsTotalOrder` | src/lib.rs:68-102 | the wrapper's `cmp` is a total order consistent with equality if and only if `arbitrary_cmp` is one |
| `OrderedWrapper.CmpConsistentWithEq` | src/lib.rs:96-102 | when `arbitrary_cmp` obeys the `Ord` laws, the wrapper's `cmp` is `Equal` exactly when the wrappers are equal |
| `OrderedWrapper.LtIsStrictTotalOrder` | src/lib.rs:96-102 | when `arbitrary_cmp` obeys the `Ord` laws, `<` on wrappers is irreflexive, asymmetric, transitive and total, and `<=` is `<` or `==` |
| `OrderedWrapper.Cmp` | src/lib.rs:100-102 | `Ord::cmp` on wrappers; `CmpForwards` states it is `arbitrary_cmp` on the fields, `OrderedCmpIsTotalOrder` that it is lawful exactly when `arbitrary_cmp` is |
| `OrderedWrapper.OrderedCmp` | src/lib.rs:100-102 | `Cmp` as the comparison function a map or derived order uses; its laws are stated by `OrderedCmpIsTotalOrder` |
| `OrderedWrapper.Lt` | src/lib.rs:96-98 | the provided `PartialOrd::lt` on wrappers; `LtIsStrictTotalOrder` states it is a strict total order |
| `OrderedWrapper.Le` | src/lib.rs:96-98 | the provided `PartialOrd::le` on wrappers; `LtIsStrictTotalOrder` states it is `<` or `==` |
| `OrderedWrapper.OrderedVar.constructor` | src/lib.rs:75 | a mutable binding starts out holding the given wrapper |
| `OrderedWrapper.OrderedVar.DerefMut` | src/lib.rs:118-120 | an update through `deref_mut` leaves the wrapper equal to `Ordered(update(old inner))`; nothing else changes |
| `OrderedWrapper.OrderedVar.BorrowMut` | src/lib.rs:126-128 | an update through `borrow_mut` leaves the wrapper equal to `Ordered(update(old inner))`; nothing else changes |
| `SortedMaps.Lookup` | examples/point.rs:20-22 | a hit returns the value of an entry whose key compares `Equal` to the searched key |
| `SortedMaps.InsertEntry` | examples/docs.rs:23-24 | an insertion adds at most one entry |
| `SortedMaps.LookupFindsStoredEntry` | examples/point.rs:20-22 | on a sorted map, `get(k)` is the value stored under `k` when there is one, and `None` when `k` is not a key |
| `SortedMaps.InsertEntryKeys` | examples/docs.rs:23-24 | the keys after `insert(k, v)` are the old keys plus `k` |
| `SortedMaps.InsertEntrySorted` | examples/docs.rs:23-24 | insertion keeps the entries strictly sorted, so keys stay distinct |
| `SortedMaps.InsertEntryLookup` | examples/point.rs:15-22 | after `insert(k, v)`, `get(k)` is `v` and `get` of any other key is unchanged |
| `SortedMaps.InsertEntryLength` | examples/docs.rs:23-24 | insertion adds one entry exactly when the key was absent |
| `SortedMaps.SortedMap.constructor` | examples/docs.rs:15 | a new map is empty and valid for a comparison that meets the `Ord` laws |
| `SortedMaps.SortedMap.Insert` | examples/docs.rs:23-24 | `insert` stores the new entries, returns the key's previous value, and keeps the map sorted |
| `SortedMaps.SortedMap.Get` | examples/point.rs:20-22 | `get` finds a value exactly when the key is in the map |
| `DocsExample.FooCmp` | examples/docs.rs:39-49 | `Foo::arbitrary_cmp`; its laws are stated by `SpaceBeforeTime`, `SameVariantComparesPayloads`, `FooCmpEqualIff`, `FooCmpAntisymmetric`, `FooCmpTransitive`, `FooCmpIsLexOnRank` and `FooCmpIsTotalOrder` |
| `DocsExample.AdtCmp` | examples/docs.rs:76-80 | the derived `Ord::cmp` of `Adt`; stated by `AdtCmpIsLexicographic` and `AdtCmpIsTotalOrder` |
| `DocsExample.AdtPartialCmp` | examples/docs.rs:76-80 | the derived `PartialOrd::partial_cmp` of `Adt`; `AdtPartialCmpAgreesWithCmp` states it is `Some` of `AdtCmp` |
| `DocsExample.SpaceBeforeTime` | examples/docs.rs:43-44 | every `Space(_)` is `Less` than every `Time(_)`, and the reverse is `Greater`, whatever the payloads |
| `DocsExample.SameVariantComparesPayloads` | examples/docs.rs:45-46 | within one variant the result is the `u32` order of the payloads |
| `DocsExample.FooCmpEqualIff` | examples/docs.rs:31-48 | `arbitrary_cmp` is `Equal` exactly when the derived `Eq` says equal |
| `DocsExample.FooCmpAntisymmetric` | examples/docs.rs:40-48 | swapping the arguments reverses the result |
| `DocsExample.FooCmpTransitive` | examples/docs.rs:40-48 | `Less` then `Less` gives `Less` |
| `DocsExample.FooCmpIsLexOnRank` | examples/docs.rs:40-48 | the order is lexicographic on (variant rank, payload) |
| `DocsExample.FooCmpIsTotalOrder` | examples/docs.rs:39-49 | `Foo::arbitrary_cmp` obeys the `Ord` laws (total, antisymmetric, transitive, consistent with `Eq`) that `Ord for Ordered<Foo>` passes on to it |
| `DocsExample.AdtCmpIsLexicographic` | examples/docs.rs:76-80 | the derived `Ord` compares `x` first and breaks ties by the wrapped `Foo`'s `arbitrary_cmp` |
| `DocsExample.AdtPartialCmpAgreesWithCmp` | examples/docs.rs:76-80 | the derived `partial_cmp` is `Some` of the derived `cmp` |
| `DocsExample.AdtCmpIsTotalOrder` | examples/docs.rs:76-80 | the derived order on `Adt` is a total order consistent with its derived `Eq` |
| `DocsExample.BTreeMapExample` | examples/docs.rs:14-25 | both insertions return `None` and the map ends with two distinct entries, `Space(50)` before `Time(50)` |
| `DocsExample.CrateDocExample` | src/lib.rs:37-50 | the lookup by `Ordered::from(a)` finds "some interesting value", so the `expect` does not panic |
| `DocsExample.DeriveAndAccess` | examples/docs.rs:63-73 | `*adt.p`, `adt.p.as_inner()` and `adt.p.into_inner()` all give `Foo::Space(50)` |
| `PointExample.PointCmp` | examples/point.rs:35-37 | `Point::arbitrary_cmp`; stated by `PointCmpComparesXFirst`, `PointCmpEqualIff` and `PointCmpIsTotalOrder` |
| `PointExample.PointCmpComparesXFirst` | examples/point.rs:36 | `x` decides when the `x`s differ; `y` is used only when they are equal |
| `PointExample.PointCmpEqualIff` | examples/point.rs:29-36 | `arbitrary_cmp` is `Equal` exactly when both coordinates agree, as the derived `Eq` says |
| `PointExample.PointCmpIsTotalOrder` | examples/point.rs:35-37 | the lexicographic point order is antisymmetric, transitive and consistent with `Eq` |
| `PointExample.FromRefComparesEqual` | examples/point.rs:21 | the by-value stand-in `Ordered(p)` for `Ordered::from_ref(&p)` (itself left out) compares `Equal` to an owned `Ordered::from(q)` exactly when the coordinates agree |
| `PointExample.PointMain` | examples/point.rs:9-24 | `(1, 5)` sorts before `(2, 3)`, both keys stay, and the lookup of `a` finds "some interesting value" |

## Left out

- `Display` for `Ordered<T>`, `Foo` and `Point` (`src/lib.rs:104-106`,
  `examples/docs.rs:51-58`, `examples/point.rs:39-41`). They only delegate
  to a formatter, which is foreign code.
- The derived `Hash`, `Debug`, `Clone` and `Copy`, and `Copy for Ordered<T>`.
  They are generated by the compiler and depend on the foreign hasher and
  formatter. Dafny values are copied freely anyway.
- All `println!` output in `derive_and_access` and `main`. This includes
  the wrapper printed through `Display` at `examples/docs.rs:67-68`.
- `Ordered::from_ref` (`examples/point.rs:21`) is not defined in
  `src/lib.rs`, and that definition is not part of this model. It
  reinterprets `&T` as `&Ordered<T>` in memory. The model looks up
  `Ordered(a)` by value instead.
- `BTreeMap` nodes and balancing are left out. The map is
  one sorted sequence, searched in key order the way a single B-tree node
  is searched.
- `Eq` is modelled as Dafny's equality of values. `Eq` is a supertrait of
  `ArbitraryOrd` (`src/lib.rs:68`), and the derived `PartialEq` of
  `Ordered` (`src/lib.rs:74`) calls `T`'s `==`. Every `Eq` in the examples is
  derived and structural, so the two agree there. A `T` whose `==` is
  coarser than identity is lawful in Rust but outside the model:
  `IsTotalOrder`, `EqualityIsInnerEquality` and the map lemmas all read
  `==` as identity.
- `SortedMaps.SortedMap.Insert`: Rust moves the key and the value into the
  map, and drops the unused key when it replaces a value. Ownership is not
  modelled. Because `Eq` is identity here, the stored key that `BTreeMap`
  keeps on replacement is always equal to the new key, so which of the two
  is kept cannot be observed in the model.
- `OrderedWrapper.OrderedVar.DerefMut`: the `&mut T` the source hands out is
  modelled by an update function applied to the field. Borrow checking and
  aliasing of that reference are not modelled.
- `OrderedWrapper.OrderedVar.BorrowMut`: the same stand-in for the `&mut T`
  of `borrow_mut`. Borrow checking and aliasing of that reference are not
  modelled.
- Memory layout, trait-object dispatch and thread-safety claims. None of
  them is expressed in the code.
- `arbitrary_cmp` compares against `Self` only (`src/lib.rs:70`); no
  right-hand-side type parameter is modelled.
- The only composite in the code is `Adt` (`examples/docs.rs:76-80`), and
  that is the composite modelled.
