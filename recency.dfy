/**
  The recency store: an insertion-ordered dictionary (Python's OrderedDict) seen as the
  sequence of its (key, value) entries, oldest first. Each function below is one
  dictionary primitive the cache uses; the lemmas say what they do to keys, values and order.
 */
module Recency {
  import opened Outcomes

  /** The keys of a store, in store order (what iterating the dictionary yields). */
  function Keys<K, V>(s: seq<(K, V)>): (ks: seq<K>)
    ensures |ks| == |s|
    ensures forall i :: 0 <= i < |s| ==> ks[i] == s[i].0
  {
    if s == [] then [] else [s[0].0] + Keys(s[1..])
  }

  /** A dictionary never holds the same key twice. */
  predicate DistinctKeys<K(==), V>(s: seq<(K, V)>)
  {
    forall i, j :: 0 <= i < j < |s| ==> s[i].0 != s[j].0
  }

  /** `d.get(k)`: the value of the first entry with key k, or None on a miss. */
  function Lookup<K(==), V>(s: seq<(K, V)>, k: K): (r: Option<V>)
    ensures r.None? <==> k !in Keys(s)
    ensures r.Some? ==> (k, r.value) in s
  {
    if s == [] then None
    else if s[0].0 == k then Some(s[0].1)
    else Lookup(s[1..], k)
  }

  /** `d[k] = v`: replace the value in place when k is present, otherwise append (k, v). */
  function Assign<K(==), V>(s: seq<(K, V)>, k: K, v: V): (r: seq<(K, V)>)
    ensures Lookup(r, k) == Some(v)
  {
    if s == [] then [(k, v)]
    else if s[0].0 == k then [(k, v)] + s[1..]
    else [s[0]] + Assign(s[1..], k, v)
  }

  /** `del d[k]` on a present key: drop the entries with key k, keep the rest in order. */
  function Remove<K(==), V>(s: seq<(K, V)>, k: K): (r: seq<(K, V)>)
    ensures |r| <= |s|
    ensures forall i :: 0 <= i < |r| ==> r[i].0 != k
  {
    if s == [] then []
    else if s[0].0 == k then Remove(s[1..], k)
    else [s[0]] + Remove(s[1..], k)
  }

  /** `d.move_to_end(k, last=True)`; the cache only calls it on a present key. */
  function MoveToEnd<K(==), V>(s: seq<(K, V)>, k: K): (r: seq<(K, V)>)
    requires k in Keys(s)
    ensures r != [] && r[|r| - 1] == (k, Lookup(s, k).value)
    ensures forall i :: 0 <= i < |r| - 1 ==> r[i].0 != k
  {
    Remove(s, k) + [(k, Lookup(s, k).value)]
  }

  /** `d.update(pairs)`: assign the pairs one after the other, in order. */
  function Update<K(==), V>(d: seq<(K, V)>, pairs: seq<(K, V)>): (r: seq<(K, V)>)
    ensures |d| <= |r| <= |d| + |pairs|
    ensures forall x :: x in Keys(d) ==> x in Keys(r)
    decreases |pairs|
  {
    if pairs == [] then d
    else
      AssignKeys(d, pairs[0].0, pairs[0].1);
      Update(Assign(d, pairs[0].0, pairs[0].1), pairs[1..])
  }

  // ---------------------------------------------------------------------------
  // Keys and lookup

  lemma KeysAppend<K, V>(a: seq<(K, V)>, b: seq<(K, V)>)
    ensures Keys(a + b) == Keys(a) + Keys(b)
  {
  }

  /** In a store with distinct keys, looking up the key of any entry finds that entry's value. */
  lemma {:induction false} LookupAt<K, V>(s: seq<(K, V)>, i: nat)
    requires DistinctKeys(s)
    requires i < |s|
    ensures Lookup(s, s[i].0) == Some(s[i].1)
  {
    if i > 0 {
      LookupAt(s[1..], i - 1);
    }
  }

  /** Lookup in a concatenation searches the front part first. */
  lemma {:induction false} LookupAppend<K, V>(a: seq<(K, V)>, b: seq<(K, V)>, k: K)
    ensures Lookup(a + b, k) == if k in Keys(a) then Lookup(a, k) else Lookup(b, k)
  {
    if a != [] {
      assert (a + b)[1..] == a[1..] + b;
      LookupAppend(a[1..], b, k);
    } else {
      assert a + b == b;
    }
  }

  // ---------------------------------------------------------------------------
  // Deletion

  /** Deleting an absent key changes nothing. */
  lemma {:induction false} RemoveAbsent<K, V>(s: seq<(K, V)>, k: K)
    requires k !in Keys(s)
    ensures Remove(s, k) == s
  {
    if s != [] {
      assert Keys(s)[0] == s[0].0;
      assert k !in Keys(s[1..]);
      RemoveAbsent(s[1..], k);
    }
  }

  /** The entries after the oldest one have distinct keys, none of them the oldest key. */
  lemma DistinctTail<K, V>(s: seq<(K, V)>)
    requires DistinctKeys(s)
    requires s != []
    ensures DistinctKeys(s[1..])
    ensures s[0].0 !in Keys(s[1..])
  {
    forall j | 0 <= j < |s| - 1 ensures Keys(s[1..])[j] != s[0].0 {
      assert s[1..][j] == s[j + 1];
    }
  }

  /** Deleting the oldest key of a store with distinct keys drops exactly the oldest entry. */
  lemma RemoveOldest<K, V>(s: seq<(K, V)>)
    requires DistinctKeys(s)
    requires s != []
    ensures Remove(s, s[0].0) == s[1..]
    ensures DistinctKeys(s[1..])
    ensures Keys(s[1..]) == Keys(s)[1..]
  {
    DistinctTail(s);
    RemoveAbsent(s[1..], s[0].0);
  }

  /** In a store with distinct keys, deleting the key at position i removes exactly that entry. */
  lemma {:induction false} RemoveAt<K, V>(s: seq<(K, V)>, i: nat)
    requires DistinctKeys(s)
    requires i < |s|
    ensures Remove(s, s[i].0) == s[..i] + s[i + 1..]
    ensures |Remove(s, s[i].0)| == |s| - 1
  {
    if i == 0 {
      RemoveOldest(s);
      assert s[..0] + s[1..] == s[1..];
    } else {
      var k := s[i].0;
      var t := s[1..];
      assert t[i - 1] == s[i] && s[0].0 != k by {
        DistinctTail(s);
      }
      assert Remove(t, k) == t[..i - 1] + t[i..] by {
        DistinctTail(s);
        RemoveAt(t, i - 1);
      }
      assert Remove(s, k) == [s[0]] + Remove(t, k);
      assert s[..i] == [s[0]] + t[..i - 1];
      assert s[i + 1..] == t[i..];
    }
  }

  /** Deleting k hides k and leaves the value of every other key as it was. */
  lemma {:induction false} RemoveLookup<K, V>(s: seq<(K, V)>, k: K, k': K)
    ensures Lookup(Remove(s, k), k') == if k' == k then None else Lookup(s, k')
  {
    if s != [] {
      RemoveLookup(s[1..], k, k');
    }
  }

  /** Deletion introduces no key. */
  lemma {:induction false} RemoveKeys<K, V>(s: seq<(K, V)>, k: K)
    ensures forall x :: x in Keys(Remove(s, k)) ==> x in Keys(s)
  {
    if s != [] {
      RemoveKeys(s[1..], k);
      if s[0].0 != k {
        KeysAppend([s[0]], Remove(s[1..], k));
      }
    }
  }

  /** Deleting entries keeps the keys distinct. */
  lemma {:induction false} RemoveDistinct<K, V>(s: seq<(K, V)>, k: K)
    requires DistinctKeys(s)
    ensures DistinctKeys(Remove(s, k))
  {
    if s != [] {
      RemoveDistinct(s[1..], k);
      if s[0].0 != k {
        DistinctTail(s);
        RemoveKeys(s[1..], k);
        var r := Remove(s[1..], k);
        forall j | 0 <= j < |r| ensures r[j].0 != s[0].0 {
          assert Keys(r)[j] == r[j].0;
        }
        assert Remove(s, k) == [s[0]] + r;
      }
    }
  }

  // ---------------------------------------------------------------------------
  // Assignment

  /** Splitting off the first element commutes with appending. */
  lemma ConsAppend<T>(s: seq<T>, u: seq<T>)
    requires s != []
    ensures [s[0]] + (s[1..] + u) == s + u
  {
  }

  /** Assigning a fresh key appends it as the newest entry. */
  lemma {:induction false} AssignAbsent<K, V>(s: seq<(K, V)>, k: K, v: V)
    requires k !in Keys(s)
    ensures Assign(s, k, v) == s + [(k, v)]
  {
    if s != [] {
      var t := s[1..];
      assert s[0].0 != k && k !in Keys(t) by {
        assert Keys(s) == [s[0].0] + Keys(t);
      }
      AssignAbsent(t, k, v);
      assert Assign(s, k, v) == [s[0]] + (t + [(k, v)]);
      ConsAppend(s, [(k, v)]);
    }
  }

  /** Assigning k, then deleting k, is the same as deleting k. */
  lemma {:induction false} RemoveAssign<K, V>(s: seq<(K, V)>, k: K, v: V)
    ensures Remove(Assign(s, k, v), k) == Remove(s, k)
  {
    if s != [] && s[0].0 != k {
      RemoveAssign(s[1..], k, v);
    }
  }

  /** Assigning k leaves the value of every other key as it was. */
  lemma {:induction false} AssignLookupOther<K, V>(s: seq<(K, V)>, k: K, v: V, k': K)
    requires k' != k
    ensures Lookup(Assign(s, k, v), k') == Lookup(s, k')
  {
    if s != [] && s[0].0 != k {
      AssignLookupOther(s[1..], k, v, k');
    }
  }

  /** Assigning keeps the key order, and adds k as the newest key only when it was absent. */
  lemma {:induction false} AssignKeys<K, V>(s: seq<(K, V)>, k: K, v: V)
    ensures Keys(Assign(s, k, v)) == if k in Keys(s) then Keys(s) else Keys(s) + [k]
  {
    if s != [] {
      AssignKeys(s[1..], k, v);
      assert Keys(s) == [s[0].0] + Keys(s[1..]);
      if s[0].0 != k {
        KeysAppend([s[0]], Assign(s[1..], k, v));
      } else {
        KeysAppend([(k, v)], s[1..]);
      }
    }
  }

  /** Assignment keeps the keys distinct. */
  lemma AssignDistinct<K, V>(s: seq<(K, V)>, k: K, v: V)
    requires DistinctKeys(s)
    ensures DistinctKeys(Assign(s, k, v))
  {
    AssignKeys(s, k, v);
    var r := Assign(s, k, v);
    forall i, j | 0 <= i < j < |r| ensures r[i].0 != r[j].0 {
      assert Keys(r)[i] == r[i].0 && Keys(r)[j] == r[j].0;
      if k !in Keys(s) && j == |s| {
        assert Keys(s)[i] == s[i].0;
      } else {
        assert Keys(s)[i] == s[i].0 && Keys(s)[j] == s[j].0;
      }
    }
  }

  // ---------------------------------------------------------------------------
  // The compound operations of the cache

  /** Appending an entry with a new key keeps the keys distinct. */
  lemma AppendNewKey<K, V>(r: seq<(K, V)>, e: (K, V))
    requires DistinctKeys(r)
    requires e.0 !in Keys(r)
    ensures DistinctKeys(r + [e])
  {
    forall i | 0 <= i < |r| ensures r[i].0 != e.0 {
      assert Keys(r)[i] == r[i].0;
    }
  }

  /** No entry of the result of deleting k has key k. */
  lemma RemoveHidesKey<K, V>(s: seq<(K, V)>, k: K)
    ensures k !in Keys(Remove(s, k))
  {
    var r := Remove(s, k);
    forall i | 0 <= i < |r| ensures Keys(r)[i] != k {
      assert Keys(r)[i] == r[i].0;
    }
  }

  /** Deleting a present key shortens a store with distinct keys by one. */
  lemma RemovePresentLength<K, V>(s: seq<(K, V)>, k: K)
    requires DistinctKeys(s)
    ensures |Remove(s, k)| == if k in Keys(s) then |s| - 1 else |s|
  {
    if k in Keys(s) {
      var i :| 0 <= i < |s| && Keys(s)[i] == k;
      RemoveAt(s, i);
    } else {
      RemoveAbsent(s, k);
    }
  }

  /**
    `d[k] = v` followed by `d.move_to_end(k)` (a cache write): the result is the old store
    without k, then (k, v) as the newest entry. Every other key keeps its value and its
    relative order, and the store grows by one exactly when k was absent.
   */
  lemma SetEntry<K, V>(s: seq<(K, V)>, k: K, v: V)
    requires DistinctKeys(s)
    ensures MoveToEnd(Assign(s, k, v), k) == Remove(s, k) + [(k, v)]
    ensures DistinctKeys(Remove(s, k) + [(k, v)])
    ensures |Remove(s, k) + [(k, v)]| == if k in Keys(s) then |s| else |s| + 1
    ensures forall k' :: k' != k ==> Lookup(Remove(s, k) + [(k, v)], k') == Lookup(s, k')
  {
    RemoveAssign(s, k, v);
    var r := Remove(s, k);
    RemoveDistinct(s, k);
    RemoveHidesKey(s, k);
    AppendNewKey(r, (k, v));
    RemovePresentLength(s, k);
    forall k' | k' != k ensures Lookup(r + [(k, v)], k') == Lookup(s, k') {
      LookupAppend(r, [(k, v)], k');
      RemoveLookup(s, k, k');
    }
  }

  /**
    A read hit, `d.move_to_end(k)` on a present key: the result is a permutation of the store
    in which every key keeps its value, k is the newest entry, and the other entries keep
    their relative order.
   */
  lemma Promote<K, V>(s: seq<(K, V)>, k: K)
    requires DistinctKeys(s)
    requires k in Keys(s)
    ensures |MoveToEnd(s, k)| == |s|
    ensures DistinctKeys(MoveToEnd(s, k))
    ensures multiset(MoveToEnd(s, k)) == multiset(s)
    ensures forall k' :: Lookup(MoveToEnd(s, k), k') == Lookup(s, k')
    ensures MoveToEnd(s, k)[|s| - 1].0 == k
    ensures Remove(MoveToEnd(s, k), k) == Remove(s, k)
  {
    var i :| 0 <= i < |s| && Keys(s)[i] == k;
    var e := s[i];
    var rest := Remove(s, k);
    assert e == (k, e.1);
    assert MoveToEnd(s, k) == rest + [e] by {
      LookupAt(s, i);
    }
    SetEntry(s, k, e.1);
    assert multiset(rest + [e]) == multiset(s) by {
      RemoveAt(s, i);
      PromotePermutes(s, i);
    }
    assert Lookup(rest + [e], k) == Lookup(s, k) by {
      LookupAt(s, i);
      RemoveHidesKey(s, k);
      LookupAppend(rest, [e], k);
    }
    assert Remove(rest + [e], k) == rest by {
      RemoveConcat(rest, [e], k);
      RemoveHidesKey(s, k);
      RemoveAbsent(rest, k);
      assert Remove([e], k) == [];
    }
  }

  /** Moving the entry at position i to the end is a permutation. */
  lemma PromotePermutes<K, V>(s: seq<(K, V)>, i: nat)
    requires i < |s|
    ensures multiset(s[..i] + s[i + 1..] + [s[i]]) == multiset(s)
  {
    assert s == s[..i] + [s[i]] + s[i + 1..];
  }

  /** Deletion distributes over concatenation. */
  lemma {:induction false} RemoveConcat<K, V>(a: seq<(K, V)>, b: seq<(K, V)>, k: K)
    ensures Remove(a + b, k) == Remove(a, k) + Remove(b, k)
  {
    if a == [] {
      assert a + b == b;
    } else {
      assert (a + b)[0] == a[0];
      assert (a + b)[1..] == a[1..] + b;
      RemoveConcat(a[1..], b, k);
      if a[0].0 != k {
        assert Remove(a + b, k) == [a[0]] + Remove(a[1..] + b, k);
        assert Remove(a, k) == [a[0]] + Remove(a[1..], k);
      }
    }
  }

  // ---------------------------------------------------------------------------
  // Loading

  /** Updating a store keeps its keys distinct. */
  lemma {:induction false} UpdateDistinct<K, V>(d: seq<(K, V)>, pairs: seq<(K, V)>)
    requires DistinctKeys(d)
    ensures DistinctKeys(Update(d, pairs))
    decreases |pairs|
  {
    if pairs != [] {
      AssignDistinct(d, pairs[0].0, pairs[0].1);
      UpdateDistinct(Assign(d, pairs[0].0, pairs[0].1), pairs[1..]);
    }
  }

  /** When a store followed by some pairs has distinct keys, the first pair's key is new. */
  lemma FirstPairIsNew<K, V>(d: seq<(K, V)>, pairs: seq<(K, V)>)
    requires DistinctKeys(d + pairs)
    requires pairs != []
    ensures pairs[0].0 !in Keys(d)
  {
    forall i | 0 <= i < |d| ensures Keys(d)[i] != pairs[0].0 {
      assert (d + pairs)[i] == d[i] && (d + pairs)[|d|] == pairs[0];
    }
  }

  /**
    Updating with pairs whose keys are new and distinct appends them in order; in particular
    updating the empty store with a saved store gives back that store, entries and order.
   */
  lemma {:induction false} UpdateFresh<K, V>(d: seq<(K, V)>, pairs: seq<(K, V)>)
    requires DistinctKeys(d + pairs)
    ensures Update(d, pairs) == d + pairs
    decreases |pairs|
  {
    if pairs != [] {
      var (k, v) := pairs[0];
      var d' := d + [(k, v)];
      assert d' + pairs[1..] == d + pairs;
      assert Update(d, pairs) == Update(d', pairs[1..]) by {
        FirstPairIsNew(d, pairs);
        AssignAbsent(d, k, v);
      }
      UpdateFresh(d', pairs[1..]);
    }
  }
}
