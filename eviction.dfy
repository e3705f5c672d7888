/**
  What the trimmer computes. Trimming evicts the oldest entries one at a time and stops as
  soon as the encoded size of what remains is strictly below the byte budget; when even
  the empty store is not below the budget, the key snapshot runs out and trimming raises.
 */
module Eviction {
  import opened Outcomes

  /**
    The number of oldest entries trimming evicts from s, or None when no suffix of s
    (not even the empty one) is strictly below the budget.
   */
  function Evict<E>(s: seq<E>, size: seq<E> -> nat, maxBytes: int): (r: Option<nat>)
    ensures r.Some? ==> r.value <= |s|
    decreases |s|
  {
    if size(s) < maxBytes then Some(0)
    else if s == [] then None
    else Shift(Evict(s[1..], size, maxBytes), 1)
  }

  /** A count of evictions increased by c; a failure stays a failure. */
  function Shift(r: Option<nat>, c: nat): Option<nat>
  {
    match r
    case Some(n) => Some(n + c)
    case None => None
  }

  /**
    When trimming succeeds with n evictions, n is the smallest count that brings the store
    strictly below the budget: it is at most the length, the remaining suffix fits, and
    every longer suffix did not.
   */
  lemma {:induction false} EvictSome<E>(s: seq<E>, size: seq<E> -> nat, maxBytes: int, n: nat)
    requires Evict(s, size, maxBytes) == Some(n)
    ensures n <= |s|
    ensures size(s[n..]) < maxBytes
    ensures forall i :: 0 <= i < n ==> size(s[i..]) >= maxBytes
  {
    if n > 0 {
      EvictSome(s[1..], size, maxBytes, n - 1);
      forall i | 0 < i < n ensures size(s[i..]) >= maxBytes {
        assert s[i..] == s[1..][i - 1..];
      }
      assert s[n..] == s[1..][n - 1..];
    }
  }

  /** When trimming fails, no suffix of the store, the empty one included, fits. */
  lemma {:induction false} EvictNone<E>(s: seq<E>, size: seq<E> -> nat, maxBytes: int)
    requires Evict(s, size, maxBytes) == None
    ensures forall i :: 0 <= i <= |s| ==> size(s[i..]) >= maxBytes
  {
    if s != [] {
      EvictNone(s[1..], size, maxBytes);
      forall i | 0 < i <= |s| ensures size(s[i..]) >= maxBytes {
        assert s[i..] == s[1..][i - 1..];
      }
    }
  }

  /**
    Conversely, the least fitting suffix is what trimming finds: if the suffix after n
    entries fits and no longer one does, trimming evicts exactly n entries.
   */
  lemma {:induction false} EvictLeast<E>(s: seq<E>, size: seq<E> -> nat, maxBytes: int, n: nat)
    requires n <= |s|
    requires size(s[n..]) < maxBytes
    requires forall i :: 0 <= i < n ==> size(s[i..]) >= maxBytes
    ensures Evict(s, size, maxBytes) == Some(n)
  {
    if n == 0 {
      assert s[0..] == s;
    } else {
      assert s[0..] == s;
      forall i | 0 <= i < n - 1 ensures size(s[1..][i..]) >= maxBytes {
        assert s[1..][i..] == s[i + 1..];
      }
      assert s[1..][n - 1..] == s[n..];
      EvictLeast(s[1..], size, maxBytes, n - 1);
    }
  }

  /** After a successful trim, trimming again evicts nothing. */
  lemma EvictAgain<E>(s: seq<E>, size: seq<E> -> nat, maxBytes: int, n: nat)
    requires Evict(s, size, maxBytes) == Some(n)
    ensures n <= |s| && Evict(s[n..], size, maxBytes) == Some(0)
  {
    EvictSome(s, size, maxBytes, n);
  }
}
