/**
 * Sequences of records identified by a key: lookup of the first record
 * with a key, and keeping the first record of each key in order of first
 * appearance.  The chat server's user list, the browser client's lists,
 * the view-count object and the article author options all follow these
 * two rules.
 */
module KeyedSeq {
  import opened Wrappers

  /** The set of keys occurring in `s`. */
  function KeySet<T, K>(s: seq<T>, key: T -> K): set<K> {
    set i | 0 <= i < |s| :: key(s[i])
  }

  /** No two elements of `s` share a key. */
  predicate DistinctKeys<T, K(==)>(s: seq<T>, key: T -> K) {
    forall i, j :: 0 <= i < j < |s| ==> key(s[i]) != key(s[j])
  }

  /** Index of the first element of `s` whose key is `k`, if any. */
  function IndexOfKey<T, K(==)>(s: seq<T>, key: T -> K, k: K): (r: Option<nat>)
    ensures r.Some? ==> r.value < |s| && key(s[r.value]) == k
    ensures r.Some? ==> forall j :: 0 <= j < r.value ==> key(s[j]) != k
    ensures r.None? <==> k !in KeySet(s, key)
  {
    if s == [] then None
    else if key(s[0]) == k then Some(0)
    else
      match IndexOfKey(s[1..], key, k)
      case None =>
        assert forall i :: 1 <= i < |s| ==> s[i] == s[1..][i - 1];
        None
      case Some(i) => Some(i + 1)
  }

  /** The first element of `s` whose key is `k`, if any. */
  function FindByKey<T, K(==)>(s: seq<T>, key: T -> K, k: K): Option<T> {
    match IndexOfKey(s, key, k)
    case None => None
    case Some(i) => Some(s[i])
  }

  /** The first element of each key of `s`, in the order the keys first appear. */
  function DedupBy<T, K(==)>(s: seq<T>, key: T -> K): seq<T>
  {
    if s == [] then []
    else
      var p := DedupBy(s[..|s| - 1], key);
      if key(s[|s| - 1]) in KeySet(p, key) then p else p + [s[|s| - 1]]
  }

  lemma {:induction false} KeySetSnoc<T, K>(s: seq<T>, x: T, key: T -> K)
    ensures KeySet(s + [x], key) == KeySet(s, key) + {key(x)}
  {
    var t := s + [x];
    forall k | k in KeySet(t, key) ensures k in KeySet(s, key) + {key(x)} {
      var i :| 0 <= i < |t| && key(t[i]) == k;
      if i < |s| { assert t[i] == s[i]; }
    }
    forall k | k in KeySet(s, key) + {key(x)} ensures k in KeySet(t, key) {
      if k in KeySet(s, key) {
        var i :| 0 <= i < |s| && key(s[i]) == k;
        assert t[i] == s[i];
      } else {
        assert t[|s|] == x;
      }
    }
  }

  /** Deduplication keeps every key, keeps each key once and invents nothing. */
  lemma {:induction false} DedupByProperties<T, K>(s: seq<T>, key: T -> K)
    ensures DistinctKeys(DedupBy(s, key), key)
    ensures KeySet(DedupBy(s, key), key) == KeySet(s, key)
    ensures forall x :: x in DedupBy(s, key) ==> x in s
    ensures |DedupBy(s, key)| <= |s|
  {
    if s != [] {
      var init, last := s[..|s| - 1], s[|s| - 1];
      assert s == init + [last];
      DedupByProperties(init, key);
      KeySetSnoc(init, last, key);
      var p := DedupBy(init, key);
      if key(last) !in KeySet(p, key) {
        KeySetSnoc(p, last, key);
        assert forall i :: 0 <= i < |p| ==> key(p[i]) in KeySet(p, key);
      }
    }
  }

  /** Each kept element is the first element of `s` with its key, and the
      kept elements appear in the order in which their keys first appear. */
  lemma {:induction false} DedupByFirstOccurrence<T, K>(s: seq<T>, key: T -> K, i: nat)
    requires i < |DedupBy(s, key)|
    ensures IndexOfKey(s, key, key(DedupBy(s, key)[i])).Some?
    ensures DedupBy(s, key)[i] == s[IndexOfKey(s, key, key(DedupBy(s, key)[i])).value]
    ensures forall j :: 0 <= j < i ==>
      IndexOfKey(s, key, key(DedupBy(s, key)[j])).Some? &&
      IndexOfKey(s, key, key(DedupBy(s, key)[j])).value < IndexOfKey(s, key, key(DedupBy(s, key)[i])).value
  {
    var init, last := s[..|s| - 1], s[|s| - 1];
    assert s == init + [last];
    var p := DedupBy(init, key);
    DedupByProperties(init, key);
    var r := DedupBy(s, key);
    forall j | 0 <= j <= i
      ensures IndexOfKey(s, key, key(r[j])).Some?
      ensures r[j] == s[IndexOfKey(s, key, key(r[j])).value]
      ensures j < |p| ==> IndexOfKey(s, key, key(r[j])).value < |init|
    {
      if j < |p| {
        DedupByFirstOccurrence(init, key, j);
        assert r[j] == p[j];
        IndexOfKeySnoc(init, last, key, key(r[j]));
      } else {
        assert r[j] == last && key(last) !in KeySet(p, key);
        IndexOfKeySnoc(init, last, key, key(last));
      }
    }
    if i < |p| {
      DedupByFirstOccurrence(init, key, i);
      forall j | 0 <= j < i
        ensures IndexOfKey(s, key, key(r[j])).value < IndexOfKey(s, key, key(r[i])).value
      {
        assert r[j] == p[j] && r[i] == p[i];
        IndexOfKeySnoc(init, last, key, key(r[j]));
        IndexOfKeySnoc(init, last, key, key(r[i]));
      }
    }
  }

  /** Appending an element does not move the first occurrence of an existing key. */
  lemma {:induction false} IndexOfKeySnoc<T, K>(s: seq<T>, x: T, key: T -> K, k: K)
    ensures IndexOfKey(s + [x], key, k) ==
      if k in KeySet(s, key) then IndexOfKey(s, key, k)
      else if key(x) == k then Some(|s|)
      else None
  {
    KeySetSnoc(s, x, key);
    var t := s + [x];
    if s == [] {
      assert t == [x];
    } else if key(s[0]) != k {
      assert s[1..] + [x] == t[1..];
      assert forall i :: 1 <= i < |s| ==> s[i] == s[1..][i - 1];
      assert k in KeySet(s, key) <==> k in KeySet(s[1..], key);
      IndexOfKeySnoc(s[1..], x, key, k);
    } else {
      assert k in KeySet(s, key);
    }
  }

  /** Deduplicating one more element keeps it exactly when its key is new. */
  lemma DedupBySnoc<T, K>(s: seq<T>, x: T, key: T -> K)
    ensures DedupBy(s + [x], key) ==
      if key(x) in KeySet(s, key) then DedupBy(s, key) else DedupBy(s, key) + [x]
  {
    assert (s + [x])[..|s|] == s;
    DedupByProperties(s, key);
  }

  lemma MultisetCancel<T>(a: multiset<T>, b: multiset<T>, y: T)
    requires a + multiset{y} == b + multiset{y}
    ensures a == b
  {
    forall x ensures a[x] == b[x] {
      assert (a + multiset{y})[x] == (b + multiset{y})[x];
    }
  }

  /** Swapping the last element into position `i` and dropping the last
      position removes exactly one occurrence of `s[i]`. */
  lemma SwapRemoveMultiset<T>(s: seq<T>, i: nat)
    requires i < |s|
    ensures multiset(s[i := s[|s| - 1]][..|s| - 1]) == multiset(s) - multiset{s[i]}
  {
    var n := |s|;
    var t := s[i := s[n - 1]];
    assert t == t[..n - 1] + [t[n - 1]];
    assert multiset(t) == multiset(s) - multiset{s[i]} + multiset{s[n - 1]};
    MultisetCancel(multiset(t[..n - 1]), multiset(s) - multiset{s[i]}, s[n - 1]);
  }
}
