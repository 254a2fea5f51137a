/**
 * Article view metrics: counting views per article, picking the k most
 * viewed articles by repeated maximum selection, pairing them with their
 * counts, and the interaction totals reported per user.
 */
module ViewMetrics {
  import opened Wrappers
  import opened KeyedSeq

  /** An article id, as it appears as a key of a JavaScript object. */
  type Id = string

  function Self(x: Id): Id {
    x
  }

  /** A JavaScript object used as a counter: its keys in insertion order and
      the number stored under each key. */
  datatype ViewCounts = ViewCounts(keys: seq<Id>, count: map<Id, nat>)

  /** The counter `getViewsCount` builds: one key per viewed article, in the
      order of first view, holding the number of views of that article. */
  function CountsOf(views: seq<Id>): (r: ViewCounts)
    ensures forall x :: x in r.count <==> x in views
    ensures forall x :: x in r.count ==> r.count[x] >= 1
  {
    ViewCounts(DedupBy(views, Self), map k | k in views :: multiset(views)[k])
  }

  predicate Distinct(s: seq<Id>) {
    forall i, j :: 0 <= i < j < |s| ==> s[i] != s[j]
  }

  lemma KeySetSelf(s: seq<Id>)
    ensures forall x :: x in KeySet(s, Self) <==> x in s
  {
    forall x | x in s ensures x in KeySet(s, Self) {
      var i :| 0 <= i < |s| && s[i] == x;
      assert Self(s[i]) == x;
    }
  }

  /** The counter's keys are exactly the viewed articles, each once. */
  lemma CountsOfKeys(views: seq<Id>)
    ensures Distinct(CountsOf(views).keys)
    ensures forall x :: x in CountsOf(views).keys <==> x in views
    ensures forall x :: x in CountsOf(views).keys <==> x in CountsOf(views).count
  {
    DedupByProperties(views, Self);
    var d := DedupBy(views, Self);
    KeySetSelf(views);
    KeySetSelf(d);
    assert forall i, j :: 0 <= i < j < |d| ==> Self(d[i]) != Self(d[j]);
  }

  /** A counter holds the number of views of each viewed article and
      nothing else. */
  ghost predicate CountsViews(count: map<Id, nat>, views: seq<Id>) {
    (forall x :: x in count <==> x in views) &&
    (forall x :: x in count ==> count[x] == multiset(views)[x])
  }

  lemma CountsViewsUnique(count: map<Id, nat>, views: seq<Id>)
    requires CountsViews(count, views)
    ensures count == CountsOf(views).count
  {
  }

  /** One more view of `a`: its entry goes up by one, or is created with 1. */
  lemma CountStep(count: map<Id, nat>, p: seq<Id>, a: Id)
    requires CountsViews(count, p)
    ensures a in count ==> count[a] > 0 && CountsViews(count[a := count[a] + 1], p + [a])
    ensures a !in count ==> CountsViews(count[a := 1], p + [a])
  {
    assert multiset(p + [a]) == multiset(p) + multiset{a};
  }

  /** `getViewsCount`: a loop over the views that increments the entry of an
      article already present and creates it with 1 otherwise. */
  method GetViewsCount(views: seq<Id>) returns (vc: ViewCounts)
    ensures vc.keys == DedupBy(views, Self)
    ensures CountsViews(vc.count, views)
    ensures vc == CountsOf(views)
  {
    var keys: seq<Id> := [];
    var count: map<Id, nat> := map[];
    var i := 0;
    while i < |views|
      invariant i <= |views|
      invariant keys == DedupBy(views[..i], Self)
      invariant CountsViews(count, views[..i])
    {
      var a := views[i];
      var p := views[..i];
      assert views[..i + 1] == p + [a];
      DedupBySnoc(p, a, Self);
      KeySetSelf(p);
      CountStep(count, p, a);
      if a in count && count[a] > 0 {
        count := count[a := count[a] + 1];
      } else {
        keys := keys + [a];
        count := count[a := 1];
      }
      i := i + 1;
    }
    assert views[..i] == views;
    vc := ViewCounts(keys, count);
    CountsViewsUnique(count, views);
  }

  /** The sum of the counts in `m` of the ids in `keys`. */
  function SumCounts(keys: seq<Id>, m: multiset<Id>): nat {
    if keys == [] then 0 else SumCounts(keys[..|keys| - 1], m) + m[keys[|keys| - 1]]
  }

  lemma {:induction false} SumCountsOther(keys: seq<Id>, m: multiset<Id>, x: Id)
    requires x !in keys
    ensures SumCounts(keys, m + multiset{x}) == SumCounts(keys, m)
  {
    if keys != [] {
      SumCountsOther(keys[..|keys| - 1], m, x);
    }
  }

  lemma {:induction false} SumCountsOne(keys: seq<Id>, m: multiset<Id>, x: Id)
    requires x in keys && Distinct(keys)
    ensures SumCounts(keys, m + multiset{x}) == SumCounts(keys, m) + 1
  {
    var init := keys[..|keys| - 1];
    if keys[|keys| - 1] == x {
      assert x !in init;
      SumCountsOther(init, m, x);
    } else {
      assert x in init;
      SumCountsOne(init, m, x);
    }
  }

  /** The counts add up to the number of views. */
  lemma {:induction false} CountsSumToViews(views: seq<Id>)
    ensures SumCounts(CountsOf(views).keys, multiset(views)) == |views|
  {
    if views != [] {
      var p := views[..|views| - 1];
      var a := views[|views| - 1];
      assert views == p + [a];
      CountsSumToViews(p);
      DedupBySnoc(p, a, Self);
      KeySetSelf(p);
      CountsOfKeys(p);
      var d := DedupBy(p, Self);
      if a in p {
        SumCountsOne(d, multiset(p), a);
      } else {
        SumCountsOther(d, multiset(p), a);
        assert (d + [a])[..|d|] == d;
      }
    }
  }

  // ---------------------------------------------------------------------
  // Top-k selection.
  // ---------------------------------------------------------------------

  /** Errors the handlers throw: the reduce of an empty key list, reading
      a field of an article that was not found, and naming `ErrorResponse`
      where it is not imported. */
  datatype Failure = EmptyReduce | NullArticle | ReferenceError

  /** The count stored under `x`; the keys the selection reads are always
      present, and an absent one reads as 0. */
  function Count(cnt: map<Id, nat>, x: Id): nat {
    if x in cnt then cnt[x] else 0
  }

  /** `keys.reduce((a, b) => cnt[a] > cnt[b] ? a : b)`: the left fold that
      keeps the accumulator only when it is strictly larger. */
  function MaxKey(keys: seq<Id>, cnt: map<Id, nat>): (m: Id)
    requires |keys| > 0
    ensures m in keys
  {
    if |keys| == 1 then keys[0]
    else
      var a := MaxKey(keys[..|keys| - 1], cnt);
      var b := keys[|keys| - 1];
      if Count(cnt, a) > Count(cnt, b) then a else b
  }

  /** The chosen key has the largest count. */
  lemma {:induction false} MaxKeyIsMaximum(keys: seq<Id>, cnt: map<Id, nat>)
    requires |keys| > 0
    ensures forall x :: x in keys ==> Count(cnt, x) <= Count(cnt, MaxKey(keys, cnt))
  {
    if |keys| > 1 {
      var init := keys[..|keys| - 1];
      MaxKeyIsMaximum(init, cnt);
      assert keys == init + [keys[|keys| - 1]];
    }
  }

  /** On equal counts the later key wins: every key after the chosen one
      has a strictly smaller count. */
  lemma {:induction false} MaxKeyIsLastMaximum(keys: seq<Id>, cnt: map<Id, nat>)
    requires |keys| > 0 && Distinct(keys)
    ensures forall i, j :: 0 <= j < i < |keys| && keys[j] == MaxKey(keys, cnt) ==>
      Count(cnt, keys[i]) < Count(cnt, keys[j])
  {
    if |keys| > 1 {
      var init := keys[..|keys| - 1];
      MaxKeyIsLastMaximum(init, cnt);
      var a := MaxKey(init, cnt);
      var b := keys[|keys| - 1];
      forall i, j | 0 <= j < i < |keys| && keys[j] == MaxKey(keys, cnt)
        ensures Count(cnt, keys[i]) < Count(cnt, keys[j])
      {
        if Count(cnt, a) > Count(cnt, b) && i < |keys| - 1 {
          assert keys[i] == init[i] && keys[j] == init[j];
        }
      }
    }
  }

  /** `delete placeholder[x]`: the keys without `x`, in their order. */
  function Without(keys: seq<Id>, x: Id): seq<Id> {
    if keys == [] then []
    else if keys[0] == x then Without(keys[1..], x)
    else [keys[0]] + Without(keys[1..], x)
  }

  lemma {:induction false} WithoutRemoves(keys: seq<Id>, x: Id)
    ensures x !in Without(keys, x)
  {
    if keys != [] {
      WithoutRemoves(keys[1..], x);
    }
  }

  /** Deleting removes exactly `x`, and nothing when `x` is absent. */
  lemma {:induction false} WithoutMembers(keys: seq<Id>, x: Id)
    ensures forall y :: y in Without(keys, x) <==> y in keys && y != x
    ensures x !in keys ==> Without(keys, x) == keys
  {
    if keys != [] {
      WithoutMembers(keys[1..], x);
      assert keys == [keys[0]] + keys[1..];
    }
  }

  /** Deleting a key from distinct keys leaves distinct keys, one fewer. */
  lemma {:induction false} WithoutDistinct(keys: seq<Id>, x: Id)
    requires Distinct(keys)
    ensures Distinct(Without(keys, x))
    ensures x in keys ==> |Without(keys, x)| == |keys| - 1
  {
    if keys != [] {
      var t := keys[1..];
      assert Distinct(t) by {
        forall i, j | 0 <= i < j < |t| ensures t[i] != t[j] {
          assert t[i] == keys[i + 1] && t[j] == keys[j + 1];
        }
      }
      WithoutDistinct(t, x);
      WithoutMembers(t, x);
      assert keys[0] !in t;
      if keys[0] != x {
        var r := [keys[0]] + Without(t, x);
        forall i, j | 0 <= i < j < |r| ensures r[i] != r[j] {
          if i == 0 {
            assert r[j] in Without(t, x);
          } else {
            assert r[i] == Without(t, x)[i - 1] && r[j] == Without(t, x)[j - 1];
          }
        }
        if x in keys {
          assert x in t;
        }
      } else {
        assert x !in t;
      }
    }
  }

  /** Prefix `p` to a successful selection. */
  function Prepend(p: seq<Id>, r: Result<seq<Id>, Failure>): Result<seq<Id>, Failure> {
    match r
    case Ok(s) => Ok(p + s)
    case Err(e) => Err(e)
  }

  /** `n` rounds of selecting the maximum and deleting it from the keys. */
  function Pick(keys: seq<Id>, cnt: map<Id, nat>, n: nat): (r: Result<seq<Id>, Failure>)
    ensures r.Err? ==> r.error == EmptyReduce
    ensures r.Ok? ==> |r.value| == n
    decreases n
  {
    if n == 0 then Ok([])
    else if keys == [] then Err(EmptyReduce)
    else
      var m := MaxKey(keys, cnt);
      Prepend([m], Pick(Without(keys, m), cnt, n - 1))
  }

  /** `getTopThreeArticleIds` and `getTopSixArticleIds` for k = 3 and k = 6:
      an empty counter gives no ids, otherwise k rounds of selection. */
  function TopIds(vc: ViewCounts, k: nat): (r: Result<seq<Id>, Failure>)
    ensures r.Err? ==> r.error == EmptyReduce && vc.keys != []
    ensures r.Ok? ==> |r.value| == if vc.keys == [] then 0 else k
  {
    if vc.keys == [] then Ok([]) else Pick(vc.keys, vc.count, k)
  }

  const TopThree := 3
  const TopSix := 6

  lemma PrependEmpty(r: Result<seq<Id>, Failure>)
    ensures Prepend([], r) == r
  {
    match r
    case Ok(s) => assert [] + s == s;
    case Err(_) =>
  }

  lemma PrependTwice(p: seq<Id>, q: seq<Id>, r: Result<seq<Id>, Failure>)
    ensures Prepend(p, Prepend(q, r)) == Prepend(p + q, r)
  {
    match r
    case Ok(s) => assert p + (q + s) == (p + q) + s;
    case Err(_) =>
  }

  /** The selection loop: k rounds on a copy of the keys, each pushing the
      maximum and deleting it from the copy. */
  method GetTopIds(vc: ViewCounts, k: nat) returns (r: Result<seq<Id>, Failure>)
    ensures r == TopIds(vc, k)
  {
    if |vc.keys| == 0 {
      return Ok([]);
    }
    var top: seq<Id> := [];
    var placeholder := vc.keys;
    var i := 0;
    PrependEmpty(Pick(vc.keys, vc.count, k));
    while i < k
      invariant i <= k
      invariant Pick(vc.keys, vc.count, k) == Prepend(top, Pick(placeholder, vc.count, k - i))
    {
      if placeholder == [] {
        return Err(EmptyReduce);
      }
      var highest := MaxKey(placeholder, vc.count);
      PrependTwice(top, [highest], Pick(Without(placeholder, highest), vc.count, k - i - 1));
      top := top + [highest];
      placeholder := Without(placeholder, highest);
      i := i + 1;
    }
    assert Pick(placeholder, vc.count, 0) == Ok([]);
    assert top + [] == top;
    r := Ok(top);
  }

  /** Every selected key is one of the keys. */
  lemma {:induction false} PickMembers(keys: seq<Id>, cnt: map<Id, nat>, n: nat)
    ensures Pick(keys, cnt, n).Ok? ==> forall x :: x in Pick(keys, cnt, n).value ==> x in keys
    decreases n
  {
    if n > 0 && keys != [] {
      var m := MaxKey(keys, cnt);
      PickMembers(Without(keys, m), cnt, n - 1);
      WithoutMembers(keys, m);
    }
  }

  lemma ConsDistinct(m: Id, s: seq<Id>)
    requires Distinct(s) && m !in s
    ensures Distinct([m] + s)
  {
    var r := [m] + s;
    forall i, j | 0 <= i < j < |r| ensures r[i] != r[j] {
      assert r[j] == s[j - 1];
      if i > 0 {
        assert r[i] == s[i - 1];
      }
    }
  }

  /** Selection from distinct keys succeeds exactly when there are at
      least n keys. */
  lemma {:induction false} PickOk(keys: seq<Id>, cnt: map<Id, nat>, n: nat)
    requires Distinct(keys)
    ensures Pick(keys, cnt, n).Ok? <==> n <= |keys|
    decreases n
  {
    if n > 0 && keys != [] {
      var m := MaxKey(keys, cnt);
      var w := Without(keys, m);
      assert Pick(keys, cnt, n) == Prepend([m], Pick(w, cnt, n - 1));
      WithoutDistinct(keys, m);
      PickOk(w, cnt, n - 1);
    }
  }

  /** No key is selected twice. */
  lemma {:induction false} PickDistinct(keys: seq<Id>, cnt: map<Id, nat>, n: nat)
    requires Distinct(keys)
    ensures Pick(keys, cnt, n).Ok? ==> Distinct(Pick(keys, cnt, n).value)
    decreases n
  {
    if n > 0 && keys != [] {
      var m := MaxKey(keys, cnt);
      var rest := Without(keys, m);
      WithoutDistinct(keys, m);
      PickDistinct(rest, cnt, n - 1);
      if Pick(rest, cnt, n - 1).Ok? {
        WithoutRemoves(keys, m);
        PickMembers(rest, cnt, n - 1);
        ConsDistinct(m, Pick(rest, cnt, n - 1).value);
      }
    }
  }

  /** Non-increasing counts along `r`. */
  predicate Descending(r: seq<Id>, cnt: map<Id, nat>) {
    forall i, j :: 0 <= i < j < |r| ==> Count(cnt, r[j]) <= Count(cnt, r[i])
  }

  /** No key of `keys` left out of `r` has a larger count than a key of `r`. */
  predicate Dominates(r: seq<Id>, keys: seq<Id>, cnt: map<Id, nat>) {
    forall x, i :: x in keys && x !in r && 0 <= i < |r| ==> Count(cnt, x) <= Count(cnt, r[i])
  }

  /** One round of selection keeps the order: the maximum is followed by
      keys of no larger count. */
  lemma ConsDescending(keys: seq<Id>, cnt: map<Id, nat>, s: seq<Id>)
    requires |keys| > 0
    requires forall x :: x in s ==> x in keys
    requires Descending(s, cnt)
    ensures Descending([MaxKey(keys, cnt)] + s, cnt)
  {
    var m := MaxKey(keys, cnt);
    MaxKeyIsMaximum(keys, cnt);
    var r := [m] + s;
    forall i, j | 0 <= i < j < |r| ensures Count(cnt, r[j]) <= Count(cnt, r[i]) {
      assert r[j] == s[j - 1];
      if i > 0 {
        assert r[i] == s[i - 1];
      }
    }
  }

  /** One round of selection keeps the dominance over the keys left out. */
  lemma ConsDominates(keys: seq<Id>, cnt: map<Id, nat>, s: seq<Id>)
    requires |keys| > 0
    requires Dominates(s, Without(keys, MaxKey(keys, cnt)), cnt)
    ensures Dominates([MaxKey(keys, cnt)] + s, keys, cnt)
  {
    var m := MaxKey(keys, cnt);
    MaxKeyIsMaximum(keys, cnt);
    WithoutMembers(keys, m);
    var r := [m] + s;
    forall x, i | x in keys && x !in r && 0 <= i < |r| ensures Count(cnt, x) <= Count(cnt, r[i]) {
      if i > 0 {
        assert r[i] == s[i - 1];
      }
    }
  }

  /** The selected keys come in non-increasing order of count. */
  lemma {:induction false} PickDescending(keys: seq<Id>, cnt: map<Id, nat>, n: nat)
    ensures Pick(keys, cnt, n).Ok? ==> Descending(Pick(keys, cnt, n).value, cnt)
    decreases n
  {
    if n > 0 && keys != [] {
      var rest := Without(keys, MaxKey(keys, cnt));
      PickDescending(rest, cnt, n - 1);
      if Pick(rest, cnt, n - 1).Ok? {
        PickMembers(rest, cnt, n - 1);
        WithoutMembers(keys, MaxKey(keys, cnt));
        ConsDescending(keys, cnt, Pick(rest, cnt, n - 1).value);
      }
    }
  }

  /** Every key left out has a count no larger than any selected one. */
  lemma {:induction false} PickDominates(keys: seq<Id>, cnt: map<Id, nat>, n: nat)
    ensures Pick(keys, cnt, n).Ok? ==> Dominates(Pick(keys, cnt, n).value, keys, cnt)
    decreases n
  {
    if n > 0 && keys != [] {
      var rest := Without(keys, MaxKey(keys, cnt));
      PickDominates(rest, cnt, n - 1);
      if Pick(rest, cnt, n - 1).Ok? {
        ConsDominates(keys, cnt, Pick(rest, cnt, n - 1).value);
      }
    }
  }

  /** The ids selected from the views of a list of articles. */
  function TopViewIds(views: seq<Id>, k: nat): Result<seq<Id>, Failure> {
    TopIds(CountsOf(views), k)
  }

  /** The counter reads as the number of views of every id. */
  lemma CountIsViews(views: seq<Id>)
    ensures forall x :: Count(CountsOf(views).count, x) == multiset(views)[x]
  {
  }

  /** No views give no ids; otherwise selection fails exactly when fewer
      than k distinct articles were viewed, and succeeds with k ids. */
  lemma TopViewIdsOutcome(views: seq<Id>, k: nat)
    ensures views == [] ==> TopViewIds(views, k) == Ok([])
    ensures views != [] ==>
      (TopViewIds(views, k).Ok? <==> k <= |CountsOf(views).keys|)
    ensures TopViewIds(views, k).Err? ==> TopViewIds(views, k).error == EmptyReduce
    ensures views != [] && TopViewIds(views, k).Ok? ==> |TopViewIds(views, k).value| == k
  {
    var vc := CountsOf(views);
    CountsOfKeys(views);
    if views != [] {
      assert views[0] in vc.keys;
      PickOk(vc.keys, vc.count, k);
    } else {
      assert vc.keys == [];
    }
  }

  /** The selected ids are distinct viewed articles, most viewed first, and
      no article left out was viewed more often than one selected. */
  lemma TopViewIdsRanked(views: seq<Id>, k: nat)
    requires TopViewIds(views, k).Ok?
    ensures var r := TopViewIds(views, k).value;
      Distinct(r) && (forall x :: x in r ==> x in views) &&
      (forall i, j :: 0 <= i < j < |r| ==> multiset(views)[r[j]] <= multiset(views)[r[i]]) &&
      (forall x, i :: x in views && x !in r && 0 <= i < |r| ==> multiset(views)[x] <= multiset(views)[r[i]])
  {
    var vc := CountsOf(views);
    CountsOfKeys(views);
    CountIsViews(views);
    if vc.keys != [] {
      PickMembers(vc.keys, vc.count, k);
      PickDistinct(vc.keys, vc.count, k);
      PickDescending(vc.keys, vc.count, k);
      PickDominates(vc.keys, vc.count, k);
    }
  }

  // ---------------------------------------------------------------------
  // Pairing the selected articles with their counts.
  // ---------------------------------------------------------------------

  /** One response entry: an article and its number of views. */
  datatype ViewEntry = ViewEntry(article: Id, views: nat)

  /** The selected ids paired with their counts. `existing` holds the ids
      `Article.findById` finds; a missing one is pushed as null and reading
      its id throws. */
  function Pairing(ids: seq<Id>, count: map<Id, nat>, existing: set<Id>): (r: Result<seq<ViewEntry>, Failure>)
    ensures r.Ok? ==> |r.value| == |ids|
    ensures r.Err? <==> exists i :: 0 <= i < |ids| && ids[i] !in existing
  {
    if forall i :: 0 <= i < |ids| ==> ids[i] in existing then
      Ok(seq(|ids|, i requires 0 <= i < |ids| => ViewEntry(ids[i], Count(count, ids[i]))))
    else Err(NullArticle)
  }

  /** The loop that pairs each fetched article with its count. */
  method PairCounts(ids: seq<Id>, count: map<Id, nat>, existing: set<Id>) returns (r: Result<seq<ViewEntry>, Failure>)
    ensures r == Pairing(ids, count, existing)
  {
    var entries: seq<ViewEntry> := [];
    var i := 0;
    while i < |ids|
      invariant i <= |ids|
      invariant forall j :: 0 <= j < i ==> ids[j] in existing
      invariant entries == seq(i, j requires 0 <= j < i => ViewEntry(ids[j], Count(count, ids[j])))
    {
      if ids[i] !in existing {
        return Err(NullArticle);
      }
      entries := entries + [ViewEntry(ids[i], Count(count, ids[i]))];
      i := i + 1;
    }
    r := Ok(entries);
  }

  /** The most viewed articles with their counts. */
  function TopViewed(views: seq<Id>, k: nat, existing: set<Id>): (r: Result<seq<ViewEntry>, Failure>)
    ensures r.Ok? ==> |r.value| <= k
    ensures views == [] ==> r == Ok([])
  {
    match TopViewIds(views, k)
    case Err(e) => Err(e)
    case Ok(ids) => Pairing(ids, CountsOf(views).count, existing)
  }

  /** The handlers for the top three (per date range) and the top six (per
      user): count, select, fetch each article, and pair it with its count. */
  method TopViewedArticles(views: seq<Id>, k: nat, existing: set<Id>) returns (r: Result<seq<ViewEntry>, Failure>)
    ensures r == TopViewed(views, k, existing)
  {
    var vc := GetViewsCount(views);
    var top := GetTopIds(vc, k);
    if top.Err? {
      return Err(top.error);
    }
    r := PairCounts(top.value, vc.count, existing);
  }

  /** Each entry reports the true number of views of its article, at least
      one, the articles are distinct, and the entries come most viewed first. */
  lemma TopViewedCounts(views: seq<Id>, k: nat, existing: set<Id>)
    requires TopViewed(views, k, existing).Ok?
    ensures var e := TopViewed(views, k, existing).value;
      (forall i :: 0 <= i < |e| ==> e[i].article in existing && e[i].article in views) &&
      (forall i :: 0 <= i < |e| ==> e[i].views == multiset(views)[e[i].article] && e[i].views >= 1) &&
      (forall i, j :: 0 <= i < j < |e| ==> e[i].article != e[j].article && e[j].views <= e[i].views)
  {
    TopViewIdsRanked(views, k);
    CountIsViews(views);
    var r := TopViewIds(views, k).value;
    assert forall i :: 0 <= i < |r| ==> r[i] in r;
  }

  /** The handler fails exactly when selection fails or a selected article
      is missing. */
  lemma TopViewedFails(views: seq<Id>, k: nat, existing: set<Id>)
    ensures TopViewed(views, k, existing).Err? <==>
      TopViewIds(views, k).Err? ||
      exists x :: x in TopViewIds(views, k).value && x !in existing
    ensures TopViewed(views, k, existing).Ok? ==>
      |TopViewed(views, k, existing).value| == |TopViewIds(views, k).value|
  {
    if TopViewIds(views, k).Ok? {
      var r := TopViewIds(views, k).value;
      if exists x :: x in r && x !in existing {
        var x :| x in r && x !in existing;
        var i :| 0 <= i < |r| && r[i] == x;
      }
    }
  }

  // ---------------------------------------------------------------------
  // Interaction statistics.
  // ---------------------------------------------------------------------

  /** What the database reports about one user. */
  datatype Activity = Activity(
    ticketsCompleted: nat,        // tickets assigned to the user with status 4
    ticketsAssigned: nat,         // tickets assigned to the user
    articles: nat,                // articles written by the user
    comments: nat,                // comments written by the user
    trafficOnArticles: nat,       // views of the user's articles
    commentsOnArticles: nat,      // comments on the user's articles
    viewsByUser: seq<Id>)         // the articles the user viewed, one entry per view

  datatype MyStats = MyStats(totalTraffic: nat, totalInteractions: nat, numberOfArticles: nat, numberOfComments: nat)

  /** `getMyInteractionStatistics`. */
  function MyInteractionStatistics(a: Activity): (s: MyStats)
    ensures s.totalInteractions == s.totalTraffic + a.commentsOnArticles
    ensures s.totalTraffic == a.trafficOnArticles
    ensures s.numberOfArticles == a.articles && s.numberOfComments == a.comments
  {
    MyStats(a.trafficOnArticles, a.trafficOnArticles + a.commentsOnArticles, a.articles, a.comments)
  }

  /** A user's statistics; `UserNotFound` is the 400 answer for an
      unknown user. */
  datatype UserStats =
    | AdminStats(ticketsCompleted: nat, ticketsAssigned: nat, numberOfArticles: nat,
                 numberOfComments: nat, totalTraffic: nat, totalInteractions: nat)
    | ReaderStats(mostViewedArticles: seq<ViewEntry>, totalInteractions: nat, numberOfComments: nat)
    | UserNotFound

  /** The statistics of a known user: admins (role below 3) get ticket and
      authoring figures, other users their six most viewed articles. */
  function KnownUserStatistics(r: int, a: Activity, existing: set<Id>): (s: Result<UserStats, Failure>)
    ensures s != Ok(UserNotFound)
    ensures r < 3 ==>
      s.Ok? && s.value.AdminStats? && s.value.totalInteractions == s.value.totalTraffic + a.commentsOnArticles &&
      s.value.ticketsCompleted == a.ticketsCompleted && s.value.ticketsAssigned == a.ticketsAssigned
    ensures r >= 3 && s.Ok? ==>
      s.value.ReaderStats? && |s.value.mostViewedArticles| <= TopSix &&
      s.value.totalInteractions == |a.viewsByUser| + a.comments
    ensures r >= 3 && a.viewsByUser == [] ==> s == Ok(ReaderStats([], a.comments, a.comments))
    ensures r >= 3 ==>
      (s.Ok? <==> TopViewed(a.viewsByUser, TopSix, existing).Ok?) &&
      (s.Ok? ==> s.value.mostViewedArticles == TopViewed(a.viewsByUser, TopSix, existing).value &&
                 s.value.numberOfComments == a.comments)
    ensures r >= 3 && s.Err? ==> s.error == TopViewed(a.viewsByUser, TopSix, existing).error
    ensures r < 3 ==>
      s.value.numberOfArticles == a.articles && s.value.numberOfComments == a.comments &&
      s.value.totalTraffic == a.trafficOnArticles
  {
    if r < 3 then
      Ok(AdminStats(a.ticketsCompleted, a.ticketsAssigned, a.articles, a.comments,
                    a.trafficOnArticles, a.trafficOnArticles + a.commentsOnArticles))
    else
      match TopViewed(a.viewsByUser, TopSix, existing)
      case Err(e) => Err(e)
      case Ok(top) => Ok(ReaderStats(top, |a.viewsByUser| + a.comments, a.comments))
  }

  /** `getUserInteractionStatistics` as written: `ErrorResponse` is not
      imported by its module, so the branch for an unknown user throws a
      ReferenceError instead of answering 400. */
  function UserInteractionStatistics(role: Option<int>, a: Activity, existing: set<Id>): (s: Result<UserStats, Failure>)
    ensures s == Err(ReferenceError) <==> role.None?
    ensures s != Ok(UserNotFound)
  {
    match role
    case None => Err(ReferenceError)
    case Some(r) => KnownUserStatistics(r, a, existing)
  }

  /** The handler as evidently intended: an unknown user gets the 400. */
  function UserInteractionStatisticsFixed(role: Option<int>, a: Activity, existing: set<Id>): (s: Result<UserStats, Failure>)
    ensures s == Ok(UserNotFound) <==> role.None?
    ensures s != Err(ReferenceError)
  {
    match role
    case None => Ok(UserNotFound)
    case Some(r) => KnownUserStatistics(r, a, existing)
  }

  /** Total interactions are traffic plus comments on the user's articles for
      admins, and the user's own views plus own comments for other users;
      an unknown user makes the handler throw. */
  lemma TotalInteractionsRule(role: Option<int>, a: Activity, existing: set<Id>)
    ensures var s := UserInteractionStatistics(role, a, existing);
      (role.None? <==> s == Err(ReferenceError)) &&
      (role.Some? && role.value < 3 ==>
         s.Ok? && s.value.AdminStats? && s.value.totalInteractions == s.value.totalTraffic + a.commentsOnArticles &&
         s.value.totalTraffic == a.trafficOnArticles) &&
      (role.Some? && role.value >= 3 && s.Ok? ==>
         s.value.ReaderStats? && s.value.totalInteractions == |a.viewsByUser| + a.comments &&
         |s.value.mostViewedArticles| <= TopSix)
  {
    TopViewIdsOutcome(a.viewsByUser, TopSix);
    TopViewedFails(a.viewsByUser, TopSix, existing);
  }

  /** As written, no input gets the 400 for an unknown user: the answer is
      never `UserNotFound`. */
  lemma UnknownUserNeverAnswered(role: Option<int>, a: Activity, existing: set<Id>)
    ensures UserInteractionStatistics(role, a, existing) != Ok(UserNotFound)
    ensures UserInteractionStatistics(None, a, existing).Err?
  {
  }

  /** The corrected handler answers 400 exactly for an unknown user, and
      agrees with the written one on every known user. */
  lemma UnknownUserRefused(role: Option<int>, a: Activity, existing: set<Id>)
    ensures UserInteractionStatisticsFixed(role, a, existing) == Ok(UserNotFound) <==> role.None?
    ensures role.Some? ==>
      UserInteractionStatisticsFixed(role, a, existing) == UserInteractionStatistics(role, a, existing)
  {
  }
}
