/**
 An ordered map in the role `BTreeMap` plays in the examples: entries kept
 in strictly increasing key order under a comparison `cmp`, which for the
 examples is `Ord::cmp` on `Ordered<K>`. Only the observable behaviour of
 `insert` and `get` is modelled, on one sorted sequence of entries; the
 B-tree's nodes and balancing are not. Searching walks the keys in order
 and asks `key.cmp(entry_key)`, as the search inside one B-tree node does:
 `Greater` moves on, `Equal` is a hit, `Less` means the key is absent.
 */
module SortedMaps {
  import opened CoreCmp

  /** The keys are in strictly increasing order, so no two of them compare `Equal`. */
  ghost predicate StrictlySorted<K, V>(cmp: (K, K) -> Ordering, s: seq<(K, V)>)
  {
    forall i, j :: 0 <= i < j < |s| ==> cmp(s[i].0, s[j].0) == Less
  }

  /** The set of keys held by a sequence of entries. */
  ghost function Keys<K, V>(s: seq<(K, V)>): set<K>
  {
    set i | 0 <= i < |s| :: s[i].0
  }

  /** `BTreeMap::get`: the value stored under a key that compares `Equal` to `k`, if any. */
  function Lookup<K, V>(cmp: (K, K) -> Ordering, s: seq<(K, V)>, k: K): (r: Option<V>)
    ensures r.Some? ==> exists i :: 0 <= i < |s| && cmp(k, s[i].0) == Equal && s[i].1 == r.value
  {
    if s == [] then None
    else
      match cmp(k, s[0].0)
      case Greater => Lookup(cmp, s[1..], k)
      case Equal => Some(s[0].1)
      case Less => None
  }

  /**
   The entries after `BTreeMap::insert(k, v)`: a key comparing `Equal` to
   `k` keeps its place and its stored key (which, with `Eq` read as
   equality of values, is `k` itself) and gets the new value;
   otherwise `(k, v)` goes in before the first larger key.
   */
  function InsertEntry<K, V>(cmp: (K, K) -> Ordering, s: seq<(K, V)>, k: K, v: V): (r: seq<(K, V)>)
    ensures |r| == |s| || |r| == |s| + 1
  {
    if s == [] then [(k, v)]
    else
      match cmp(k, s[0].0)
      case Greater => [s[0]] + InsertEntry(cmp, s[1..], k, v)
      case Equal => [(s[0].0, v)] + s[1..]
      case Less => [(k, v)] + s
  }

  /**
   On a sorted map, `Lookup` finds exactly the stored entries: the value of
   the entry whose key is `k` when there is one, and `None` when no key is
   `k`.
   */
  lemma {:induction false} LookupFindsStoredEntry<K(!new), V>(cmp: (K, K) -> Ordering, s: seq<(K, V)>, k: K)
    requires IsTotalOrder(cmp) && StrictlySorted(cmp, s)
    ensures forall i :: 0 <= i < |s| && s[i].0 == k ==> Lookup(cmp, s, k) == Some(s[i].1)
    ensures k !in Keys(s) ==> Lookup(cmp, s, k) == None
  {
    if s != [] {
      var rest := s[1..];
      assert StrictlySorted(cmp, rest) by {
        forall i, j | 0 <= i < j < |rest| ensures cmp(rest[i].0, rest[j].0) == Less {
          assert rest[i] == s[i + 1] && rest[j] == s[j + 1];
        }
      }
      match cmp(k, s[0].0)
      case Greater =>
        LookupFindsStoredEntry(cmp, rest, k);
        forall i | 0 <= i < |s| && s[i].0 == k ensures Lookup(cmp, s, k) == Some(s[i].1) {
          assert i != 0;
          assert rest[i - 1] == s[i];
        }
        if k !in Keys(s) {
          forall i | 0 <= i < |rest| ensures rest[i].0 != k {
            assert rest[i] == s[i + 1];
          }
        }
      case Equal =>
        forall i | 0 < i < |s| ensures s[i].0 != k {
          assert cmp(s[0].0, s[i].0) == Less;
        }
      case Less =>
        forall i | 0 <= i < |s| ensures s[i].0 != k {
          if i != 0 {
            assert cmp(s[0].0, s[i].0) == Less;
            assert cmp(k, s[i].0) == Less;
          }
        }
    }
  }

  /** Inserting adds `k` to the keys and nothing else. */
  lemma {:induction false} InsertEntryKeys<K(!new), V>(cmp: (K, K) -> Ordering, s: seq<(K, V)>, k: K, v: V)
    requires IsTotalOrder(cmp)
    ensures Keys(InsertEntry(cmp, s, k, v)) == Keys(s) + {k}
  {
    var r := InsertEntry(cmp, s, k, v);
    if s == [] {
      assert r[0].0 == k;
    } else {
      var rest := s[1..];
      assert Keys(s) == {s[0].0} + Keys(rest) by {
        forall x | x in Keys(s) ensures x in {s[0].0} + Keys(rest) {
          var i :| 0 <= i < |s| && s[i].0 == x;
          if i != 0 { assert rest[i - 1] == s[i]; }
        }
        forall x | x in Keys(rest) ensures x in Keys(s) {
          var i :| 0 <= i < |rest| && rest[i].0 == x;
          assert s[i + 1] == rest[i];
        }
        assert s[0].0 in Keys(s);
      }
      match cmp(k, s[0].0)
      case Greater =>
        var r' := InsertEntry(cmp, rest, k, v);
        InsertEntryKeys(cmp, rest, k, v);
        assert r == [s[0]] + r';
        forall x | x in Keys(r) ensures x in {s[0].0} + Keys(r') {
          var i :| 0 <= i < |r| && r[i].0 == x;
          if i != 0 { assert r'[i - 1] == r[i]; }
        }
        forall x | x in Keys(r') ensures x in Keys(r) {
          var i :| 0 <= i < |r'| && r'[i].0 == x;
          assert r[i + 1] == r'[i];
        }
        assert r[0].0 in Keys(r);
      case Equal =>
        assert s[0].0 == k;
        forall x | x in Keys(r) ensures x in Keys(s) {
          var i :| 0 <= i < |r| && r[i].0 == x;
          assert r[i].0 == s[i].0;
        }
        forall x | x in Keys(s) ensures x in Keys(r) {
          var i :| 0 <= i < |s| && s[i].0 == x;
          assert r[i].0 == s[i].0;
        }
      case Less =>
        forall x | x in Keys(r) ensures x in Keys(s) + {k} {
          var i :| 0 <= i < |r| && r[i].0 == x;
          if i != 0 { assert r[i] == s[i - 1]; }
        }
        forall x | x in Keys(s) ensures x in Keys(r) {
          var i :| 0 <= i < |s| && s[i].0 == x;
          assert r[i + 1] == s[i];
        }
        assert r[0].0 in Keys(r);
    }
  }

  /** Inserting into a sorted map keeps it sorted, so its keys stay distinct. */
  lemma {:induction false} InsertEntrySorted<K(!new), V>(cmp: (K, K) -> Ordering, s: seq<(K, V)>, k: K, v: V)
    requires IsTotalOrder(cmp) && StrictlySorted(cmp, s)
    ensures StrictlySorted(cmp, InsertEntry(cmp, s, k, v))
  {
    var r := InsertEntry(cmp, s, k, v);
    if s != [] {
      var rest := s[1..];
      assert StrictlySorted(cmp, rest) by {
        forall i, j | 0 <= i < j < |rest| ensures cmp(rest[i].0, rest[j].0) == Less {
          assert rest[i] == s[i + 1] && rest[j] == s[j + 1];
        }
      }
      match cmp(k, s[0].0)
      case Greater =>
        var r' := InsertEntry(cmp, rest, k, v);
        InsertEntrySorted(cmp, rest, k, v);
        InsertEntryKeys(cmp, rest, k, v);
        assert r == [s[0]] + r';
        assert cmp(s[0].0, k) == Less;
        forall i, j | 0 <= i < j < |r| ensures cmp(r[i].0, r[j].0) == Less {
          assert r[j] == r'[j - 1];
          if i == 0 {
            assert r'[j - 1].0 in Keys(r');
            if r'[j - 1].0 != k {
              var m :| 0 <= m < |rest| && rest[m].0 == r'[j - 1].0;
              assert rest[m] == s[m + 1];
            }
          } else {
            assert r[i] == r'[i - 1];
          }
        }
      case Equal =>
        forall i, j | 0 <= i < j < |r| ensures cmp(r[i].0, r[j].0) == Less {
          assert r[i].0 == s[i].0 && r[j].0 == s[j].0;
        }
      case Less =>
        forall i, j | 0 <= i < j < |r| ensures cmp(r[i].0, r[j].0) == Less {
          assert r[j] == s[j - 1];
          if i == 0 {
            if j > 1 {
              assert cmp(s[0].0, s[j - 1].0) == Less;
            }
          } else {
            assert r[i] == s[i - 1];
          }
        }
    }
  }

  /**
   After inserting `(k, v)`, looking up `k` gives `v`, and looking up any
   other key gives what it gave before.
   */
  lemma {:induction false} InsertEntryLookup<K(!new), V>(cmp: (K, K) -> Ordering, s: seq<(K, V)>, k: K, v: V, q: K)
    requires IsTotalOrder(cmp)
    ensures Lookup(cmp, InsertEntry(cmp, s, k, v), q) == if q == k then Some(v) else Lookup(cmp, s, q)
  {
    var r := InsertEntry(cmp, s, k, v);
    if s == [] {
      assert r == [(k, v)];
      assert r[1..] == [];
    } else {
      match cmp(k, s[0].0)
      case Greater =>
        InsertEntryLookup(cmp, s[1..], k, v, q);
        assert r[1..] == InsertEntry(cmp, s[1..], k, v);
        if q == k {
          assert cmp(q, r[0].0) == Greater;
        }
      case Equal =>
        assert r[1..] == s[1..];
      case Less =>
        assert r[1..] == s;
        if q != k && cmp(q, k) == Less {
          assert cmp(q, s[0].0) == Less;
        }
    }
  }

  /** Inserting grows the map by one entry exactly when the key was absent. */
  lemma {:induction false} InsertEntryLength<K, V>(cmp: (K, K) -> Ordering, s: seq<(K, V)>, k: K, v: V)
    ensures |InsertEntry(cmp, s, k, v)| == if Lookup(cmp, s, k).None? then |s| + 1 else |s|
  {
    if s != [] && cmp(k, s[0].0) == Greater {
      InsertEntryLength(cmp, s[1..], k, v);
    }
  }

  /** A `BTreeMap<K, V>` whose `K: Ord` is the comparison `cmp`. */
  class SortedMap<K(!new), V> {
    const cmp: (K, K) -> Ordering
    var entries: seq<(K, V)>

    /** `cmp` obeys the `Ord` laws and the entries are in strictly increasing key order. */
    ghost predicate Valid()
      reads this
    {
      IsTotalOrder(cmp) && StrictlySorted(cmp, entries)
    }

    /** `BTreeMap::new`. The `Ord` bound on the key type is the requirement on `cmp`. */
    constructor (cmp: (K, K) -> Ordering)
      requires IsTotalOrder(cmp)
      ensures Valid() && this.cmp == cmp && entries == []
    {
      this.cmp := cmp;
      entries := [];
    }

    /** `BTreeMap::insert`: stores `v` under `k` and returns the value `k` had before, if any. */
    method Insert(k: K, v: V) returns (previous: Option<V>)
      requires Valid()
      modifies this
      ensures Valid()
      ensures entries == InsertEntry(cmp, old(entries), k, v)
      ensures previous == Lookup(cmp, old(entries), k)
    {
      previous := Lookup(cmp, entries, k);
      InsertEntrySorted(cmp, entries, k, v);
      entries := InsertEntry(cmp, entries, k, v);
    }

    /** `BTreeMap::get`. */
    method Get(k: K) returns (found: Option<V>)
      requires Valid()
      ensures found == Lookup(cmp, entries, k)
      ensures found.Some? <==> k in Keys(entries)
    {
      LookupFindsStoredEntry(cmp, entries, k);
      found := Lookup(cmp, entries, k);
    }
  }
}
