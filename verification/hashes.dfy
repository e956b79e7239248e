/**
 Ruby's Hash as the metadata refresh uses it: entries kept in insertion
 order, at most one entry per key. `Merge` is Hash#merge: every entry of the
 argument is stored into a copy of the receiver, in the argument's order; a
 key the receiver already has keeps its position and takes the new value, a
 new key is appended.
 */
module Hashes {
  import opened Wrappers

  /** True iff no key occurs in two entries. */
  predicate UniqueKeys<K(==), V>(entries: seq<(K, V)>) {
    forall i, j :: 0 <= i < j < |entries| ==> entries[i].0 != entries[j].0
  }

  /** A Ruby Hash: its entries in iteration order, one per key. */
  type Hash<K(==), V> = entries: seq<(K, V)> | UniqueKeys(entries)

  /** The keys in iteration order, as Hash#keys lists them. */
  function Keys<K(==), V>(h: Hash<K, V>): seq<K> {
    seq(|h|, i requires 0 <= i < |h| => h[i].0)
  }

  /** The keys as a set. */
  function KeySet<K(==), V>(h: Hash<K, V>): set<K> {
    set i | 0 <= i < |h| :: h[i].0
  }

  /** Position of the first entry whose key is k. */
  function IndexOf<K(==), V>(entries: seq<(K, V)>, k: K): (r: Option<nat>)
    ensures r.Some? ==> r.value < |entries| && entries[r.value].0 == k
    ensures r.Some? ==> forall j :: 0 <= j < r.value ==> entries[j].0 != k
    ensures r.None? ==> forall j :: 0 <= j < |entries| ==> entries[j].0 != k
  {
    if |entries| == 0 then None
    else if entries[0].0 == k then Some(0)
    else match IndexOf(entries[1..], k)
      case None => None
      case Some(i) => Some(i + 1)
  }

  /** Hash#[] for a key that may be missing: None when h has no entry for k. */
  function Get<K(==), V>(h: Hash<K, V>, k: K): (r: Option<V>)
    ensures r.None? <==> k !in KeySet(h)
    ensures forall i :: 0 <= i < |h| && h[i].0 == k ==> r == Some(h[i].1)
  {
    match IndexOf(h, k)
    case Some(i) => Some(h[i].1)
    case None => None
  }

  /** Hash#[]=: an existing key keeps its position and takes the new value; a new key is appended. */
  function Store<K(==), V>(h: Hash<K, V>, k: K, v: V): (r: Hash<K, V>)
    ensures Get(r, k) == Some(v)
    ensures forall k' :: k' in KeySet(h) && k' != k ==> Get(r, k') == Get(h, k')
    ensures KeySet(r) == KeySet(h) + {k}
    ensures k in KeySet(h) ==> Keys(r) == Keys(h)
    ensures k !in KeySet(h) ==> Keys(r) == Keys(h) + [k]
  {
    match IndexOf(h, k)
    case Some(i) =>
      var r := h[i := (k, v)];
      assert Get(r, k) == Some(v) by { assert r[i] == (k, v); }
      OtherEntriesKept(h, r, k);
      r
    case None =>
      var r := h + [(k, v)];
      assert r[|h|] == (k, v);
      OtherEntriesKept(h, r, k);
      r
  }

  /** Hash#merge: a copy of h into which the entries of other are stored one by one, in other's order. */
  function Merge<K(==), V>(h: Hash<K, V>, other: Hash<K, V>): (r: Hash<K, V>)
    ensures KeySet(r) == KeySet(h) + KeySet(other)
    ensures forall k :: k in KeySet(other) ==> Get(r, k) == Get(other, k)
    ensures forall k :: k in KeySet(h) && k !in KeySet(other) ==> Get(r, k) == Get(h, k)
    decreases |other|
  {
    if |other| == 0 then h
    else
      TailLookup(other);
      Merge(Store(h, other[0].0, other[0].1), other[1..])
  }

  /** A hash that keeps every entry of h whose key is not k, at the same position, answers every other key as h does. */
  lemma OtherEntriesKept<K, V>(h: Hash<K, V>, r: Hash<K, V>, k: K)
    requires |h| <= |r|
    requires forall j :: 0 <= j < |h| && h[j].0 != k ==> r[j] == h[j]
    ensures forall k' :: k' in KeySet(h) && k' != k ==> Get(r, k') == Get(h, k')
  {
    forall k' | k' in KeySet(h) && k' != k
      ensures Get(r, k') == Get(h, k')
    {
      var j :| 0 <= j < |h| && h[j].0 == k';
      assert r[j] == h[j];
    }
  }

  /** Dropping the first entry of a hash removes exactly its key and leaves the other lookups alone. */
  lemma TailLookup<K, V>(h: Hash<K, V>)
    requires |h| > 0
    ensures UniqueKeys(h[1..])
    ensures KeySet(h) == KeySet(h[1..]) + {h[0].0}
    ensures h[0].0 !in KeySet(h[1..])
    ensures Get(h, h[0].0) == Some(h[0].1)
    ensures forall k :: k in KeySet(h) && k != h[0].0 ==> Get(h[1..], k) == Get(h, k)
  {
    var t := h[1..];
    forall k | k in KeySet(h)
      ensures k in KeySet(t) + {h[0].0}
    {
      var i :| 0 <= i < |h| && h[i].0 == k;
      if i > 0 { assert t[i - 1].0 == k; }
    }
    forall k | k in KeySet(t)
      ensures k in KeySet(h) && k != h[0].0
    {
      var i :| 0 <= i < |t| && t[i].0 == k;
      assert h[i + 1].0 == k;
    }
    forall k | k in KeySet(h) && k != h[0].0
      ensures Get(t, k) == Get(h, k)
    {
      if k in KeySet(t) {
        var i :| 0 <= i < |t| && t[i].0 == k;
        assert h[i + 1] == t[i];
      }
    }
  }

  /** Two hashes with the same keys in the same order and the same value under every key are equal. */
  lemma HashesEqual<K, V>(h: Hash<K, V>, g: Hash<K, V>)
    requires Keys(h) == Keys(g)
    requires forall k :: k in KeySet(g) ==> Get(h, k) == Get(g, k)
    ensures h == g
  {
    assert |h| == |Keys(h)| == |g|;
    forall i | 0 <= i < |h|
      ensures h[i] == g[i]
    {
      assert Keys(h)[i] == Keys(g)[i];
      assert g[i].0 in KeySet(g);
    }
  }

  /** The keys of ks that are not in present, in ks's order. */
  function Absent<K>(ks: seq<K>, present: set<K>): seq<K> {
    if |ks| == 0 then []
    else (if ks[0] in present then [] else [ks[0]]) + Absent(ks[1..], present)
  }

  /** Adding a key that ks does not contain to present filters nothing more. */
  lemma {:induction false} AbsentIgnoresOthers<K>(ks: seq<K>, present: set<K>, x: K)
    requires x !in ks
    ensures Absent(ks, present + {x}) == Absent(ks, present)
  {
    if |ks| > 0 {
      AbsentIgnoresOthers(ks[1..], present, x);
    }
  }

  /** Hash#merge keeps the receiver's keys in their order and appends the argument's new keys in the argument's order. */
  lemma {:induction false} MergeKeyOrder<K, V>(h: Hash<K, V>, other: Hash<K, V>)
    ensures Keys(Merge(h, other)) == Keys(h) + Absent(Keys(other), KeySet(h))
    decreases |other|
  {
    if |other| == 0 {
      assert Keys(other) == [];
    } else {
      var k := other[0].0;
      var rest: Hash<K, V> := other[1..];
      var h' := Store(h, k, other[0].1);
      var added := if k in KeySet(h) then [] else [k];
      var tail := Absent(Keys(rest), KeySet(h));
      calc {
        Keys(Merge(h, other));
        Keys(Merge(h', rest));
        { MergeKeyOrder(h', rest); }
        Keys(h') + Absent(Keys(rest), KeySet(h'));
        { AbsentAfterStore(h, other); }
        (Keys(h) + added) + tail;
        Keys(h) + (added + tail);
        { assert Keys(other)[1..] == Keys(rest); }
        Keys(h) + Absent(Keys(other), KeySet(h));
      }
    }
  }

  /** The step of MergeKeyOrder that needs the argument's keys to be unique. */
  lemma AbsentAfterStore<K, V>(h: Hash<K, V>, other: Hash<K, V>)
    requires |other| > 0
    ensures Absent(Keys(other[1..]), KeySet(Store(h, other[0].0, other[0].1)))
         == Absent(Keys(other[1..]), KeySet(h))
  {
    var k := other[0].0;
    if k !in KeySet(h) {
      TailLookup(other);
      assert k !in Keys(other[1..]);
      AbsentIgnoresOthers(Keys(other[1..]), KeySet(h), k);
    } else {
      assert KeySet(h) + {k} == KeySet(h);
    }
  }

  /** Storing the value a key already holds gives back the same hash. */
  lemma StoreExisting<K, V>(h: Hash<K, V>, k: K, v: V)
    requires Get(h, k) == Some(v)
    ensures Store(h, k, v) == h
  {
    var i := IndexOf(h, k).value;
    assert h[i] == (k, v);
  }

  /** Merging entries the receiver already holds changes nothing. */
  lemma {:induction false} MergeHeld<K, V>(h: Hash<K, V>, other: Hash<K, V>)
    requires forall k :: k in KeySet(other) ==> Get(h, k) == Get(other, k)
    ensures Merge(h, other) == h
    decreases |other|
  {
    if |other| > 0 {
      TailLookup(other);
      StoreExisting(h, other[0].0, other[0].1);
      MergeHeld(h, other[1..]);
    }
  }

  /** Hash#merge is idempotent: merging the same hash a second time changes nothing, order included. */
  lemma MergeIdempotent<K, V>(h: Hash<K, V>, other: Hash<K, V>)
    ensures Merge(Merge(h, other), other) == Merge(h, other)
  {
    MergeHeld(Merge(h, other), other);
  }

  /** The hash seen as a finite map, forgetting order. */
  function ToMap<K, V>(h: Hash<K, V>): (m: map<K, V>)
    ensures m.Keys == KeySet(h)
    ensures forall k :: k in m ==> Get(h, k) == Some(m[k])
  {
    map k | k in KeySet(h) :: Get(h, k).value
  }

  /** Seen as finite maps, Hash#merge is Dafny's right-biased map union. */
  lemma MergeIsMapUnion<K, V>(h: Hash<K, V>, other: Hash<K, V>)
    ensures ToMap(Merge(h, other)) == ToMap(h) + ToMap(other)
  {
    var m := Merge(h, other);
    var merged, union := ToMap(m), ToMap(h) + ToMap(other);
    assert merged.Keys == KeySet(m) == KeySet(h) + KeySet(other) == union.Keys;
    forall k | k in merged
      ensures merged[k] == union[k]
    {
      assert Get(m, k) == Some(merged[k]);
      if k in KeySet(other) {
        assert Get(other, k) == Some(ToMap(other)[k]);
      } else {
        assert Get(h, k) == Some(ToMap(h)[k]);
      }
    }
    assert merged == union;
  }
}
