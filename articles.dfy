/**
 * The articles controller: who may read a paid article, how the search
 * filters are composed for the page and for the total count, the list of
 * distinct authors offered as filter options, and who may toggle an
 * article's editing lock.  The article collection is a sequence in store
 * order; each lookup returns the first article with the key it asks for.
 */
module Articles {
  import opened Wrappers
  import opened KeyedSeq

  type Id = string

  /** The signed-in user as the handlers see it. */
  datatype User = User(id: Id, role: int, hasPaid: bool)

  /** An article document, with its author populated. */
  datatype Article = Article(
    id: Id, slug: string, author: User, tags: seq<string>,
    isFree: bool, editingLocked: bool, createdAt: int)

  /** A response sent through `next`, or an exception thrown inside a handler
      and left to the error middleware, which is not part of this model. */
  datatype Failure = Respond(message: string, status: int) | Thrown

  function ArticleId(a: Article): Id { a.id }
  function ArticleSlug(a: Article): string { a.slug }
  function UserId(u: User): Id { u.id }

  const UpgradeMessage := "Upgrade account to access this article"
  const SearchFailedMessage := "Error occurred while execuiting search query"
  const OnlyAuthorMessage := "Only the author of this article is authorized to access this resource"

  function NoSuchSlugMessage(slug: string): string {
    "Article with slug " + slug + " does not exist"
  }

  /** Admins (roles below 3) and paying users may read paid articles. */
  predicate HasPaidAccess(user: User) {
    user.role < 3 || user.hasPaid
  }

  // ---------------------------------------------------------------------
  // Reading one article

  /** The article with the slug, if the user may read it; 204 with the
      upgrade message for a paid article the user has no access to; 400 for
      an unknown slug. */
  function GetOneBySlug(store: seq<Article>, slug: string, user: User): (r: Result<Article, Failure>)
    ensures r.Ok? ==> r.value in store && r.value.slug == slug
    ensures r.Ok? ==> r.value.isFree || HasPaidAccess(user)
  {
    match FindByKey(store, ArticleSlug, slug)
    case None => Err(Respond(NoSuchSlugMessage(slug), 400))
    case Some(a) =>
      if a.isFree then Ok(a)
      else if user.role < 3 || user.hasPaid then Ok(a)
      else Err(Respond(UpgradeMessage, 204))
  }

  /** The three outcomes of reading by slug, each exactly characterised. */
  lemma AccessRule(store: seq<Article>, slug: string, user: User)
    ensures slug !in KeySet(store, ArticleSlug) <==>
      GetOneBySlug(store, slug, user) == Err(Respond(NoSuchSlugMessage(slug), 400))
    ensures slug in KeySet(store, ArticleSlug) ==>
      var a := store[IndexOfKey(store, ArticleSlug, slug).value];
      (GetOneBySlug(store, slug, user) == Ok(a) <==> a.isFree || HasPaidAccess(user)) &&
      (GetOneBySlug(store, slug, user) == Err(Respond(UpgradeMessage, 204)) <==>
        !a.isFree && !HasPaidAccess(user))
  {
  }

  /** A free article is returned to every user, paid or not. */
  lemma FreeArticleForEveryone(store: seq<Article>, slug: string, user: User, other: User)
    requires GetOneBySlug(store, slug, user).Ok? && GetOneBySlug(store, slug, user).value.isFree
    ensures GetOneBySlug(store, slug, other) == GetOneBySlug(store, slug, user)
  {
  }

  // ---------------------------------------------------------------------
  // Author options

  /** The authors of the articles, one per article, in store order. */
  function AuthorsOf(articles: seq<Article>): (r: seq<User>)
    ensures |r| == |articles|
    ensures forall i :: 0 <= i < |r| ==> r[i] == articles[i].author
  {
    if articles == [] then []
    else AuthorsOf(articles[..|articles| - 1]) + [articles[|articles| - 1].author]
  }

  /** The authors offered as filter options: the first author of each id. */
  function AuthorOptions(articles: seq<Article>): seq<User> {
    DedupBy(AuthorsOf(articles), UserId)
  }

  /** Each author id is offered once; every article's author id is offered;
      each offered author is the one of the first article with that author
      id; and authors are offered in the order of their first article. */
  lemma AuthorOptionsSpec(articles: seq<Article>)
    ensures DistinctKeys(AuthorOptions(articles), UserId)
    ensures forall i :: 0 <= i < |articles| ==>
      articles[i].author.id in KeySet(AuthorOptions(articles), UserId)
    ensures forall u :: u in AuthorOptions(articles) ==>
      exists i :: 0 <= i < |articles| && articles[i].author == u
    ensures forall i :: 0 <= i < |AuthorOptions(articles)| ==>
      var k := IndexOfKey(AuthorsOf(articles), UserId, AuthorOptions(articles)[i].id);
      k.Some? && AuthorOptions(articles)[i] == articles[k.value].author &&
      forall j :: 0 <= j < i ==>
        var kj := IndexOfKey(AuthorsOf(articles), UserId, AuthorOptions(articles)[j].id);
        kj.Some? && kj.value < k.value
  {
    var authors := AuthorsOf(articles);
    DedupByProperties(authors, UserId);
    forall i | 0 <= i < |articles|
      ensures articles[i].author.id in KeySet(AuthorOptions(articles), UserId)
    {
      assert UserId(authors[i]) in KeySet(authors, UserId);
    }
    forall u | u in AuthorOptions(articles)
      ensures exists i :: 0 <= i < |articles| && articles[i].author == u
    {
      var i :| 0 <= i < |authors| && authors[i] == u;
      assert articles[i].author == u;
    }
    forall i | 0 <= i < |AuthorOptions(articles)|
      ensures
        var k := IndexOfKey(authors, UserId, AuthorOptions(articles)[i].id);
        k.Some? && AuthorOptions(articles)[i] == articles[k.value].author &&
        forall j :: 0 <= j < i ==>
          var kj := IndexOfKey(authors, UserId, AuthorOptions(articles)[j].id);
          kj.Some? && kj.value < k.value
    {
      DedupByFirstOccurrence(authors, UserId, i);
    }
  }

  /** `authors.findIndex(author => author.id === id)`. */
  method FindAuthorIndex(authors: seq<User>, id: Id) returns (idx: int)
    ensures idx == -1 <==> id !in KeySet(authors, UserId)
    ensures idx != -1 ==> 0 <= idx && IndexOfKey(authors, UserId, id) == Some(idx as nat)
  {
    idx := 0;
    while idx < |authors|
      invariant 0 <= idx <= |authors|
      invariant forall j :: 0 <= j < idx ==> authors[j].id != id
    {
      if authors[idx].id == id {
        return;
      }
      idx := idx + 1;
    }
    idx := -1;
  }

  lemma AuthorsStep(articles: seq<Article>, i: nat)
    requires i < |articles|
    ensures AuthorsOf(articles[..i + 1]) == AuthorsOf(articles[..i]) + [articles[i].author]
    ensures KeySet(AuthorsOf(articles[..i]), UserId) ==
      KeySet(DedupBy(AuthorsOf(articles[..i]), UserId), UserId)
  {
    assert articles[..i + 1][..i] == articles[..i];
    DedupByProperties(AuthorsOf(articles[..i]), UserId);
  }

  /** The author options loop: an author is pushed when no pushed author
      has the same id. */
  method GetAuthorOptions(articles: seq<Article>) returns (authors: seq<User>)
    ensures authors == AuthorOptions(articles)
  {
    authors := [];
    var i := 0;
    while i < |articles|
      invariant 0 <= i <= |articles|
      invariant authors == DedupBy(AuthorsOf(articles[..i]), UserId)
    {
      AuthorsStep(articles, i);
      DedupBySnoc(AuthorsOf(articles[..i]), articles[i].author, UserId);
      var k := FindAuthorIndex(authors, articles[i].author.id);
      if k == -1 {
        authors := authors + [articles[i].author];
      }
      i := i + 1;
    }
    assert articles[..i] == articles;
  }

  // ---------------------------------------------------------------------
  // Search

  /** The `tags` query parameter: absent, given once (a string) or repeated
      (an array). */
  datatype TagsParam = NoTags | OneTag(tag: string) | TagList(list: seq<string>)

  datatype SearchQuery = SearchQuery(limit: int, start: int, tags: TagsParam, authorId: Option<string>)

  /** The tag filter, if the parameter is truthy: a string is matched as a
      one-element list, an empty string is falsy, an array always filters. */
  function TagFilter(t: TagsParam): Option<seq<string>> {
    match t
    case NoTags => None
    case OneTag(s) => if s == "" then None else Some([s])
    case TagList(ts) => Some(ts)
  }

  /** The author filter, if the parameter is truthy. */
  function AuthorFilter(a: Option<string>): Option<string> {
    match a
    case None => None
    case Some(s) => if s == "" then None else Some(s)
  }

  predicate SharesTag(a: Article, tags: seq<string>) {
    exists t :: t in tags && t in a.tags
  }

  /** The conditions both the page query and the count query carry. */
  predicate Matches(a: Article, q: SearchQuery, hasPaidAccess: bool) {
    (hasPaidAccess || a.isFree) &&
    (TagFilter(q.tags).Some? ==> SharesTag(a, TagFilter(q.tags).value)) &&
    (AuthorFilter(q.authorId).Some? ==> a.author.id == AuthorFilter(q.authorId).value)
  }

  /** The articles of `store` that match, in store order. */
  function Matching(store: seq<Article>, q: SearchQuery, hasPaidAccess: bool): (r: seq<Article>)
    ensures |r| <= |store|
    ensures forall a :: a in r ==> a in store && Matches(a, q, hasPaidAccess)
  {
    if store == [] then []
    else
      var rest := Matching(store[..|store| - 1], q, hasPaidAccess);
      var last := store[|store| - 1];
      if Matches(last, q, hasPaidAccess) then rest + [last] else rest
  }

  lemma {:induction false} MatchingMembers(store: seq<Article>, q: SearchQuery, hasPaidAccess: bool)
    ensures forall a :: a in Matching(store, q, hasPaidAccess) <==> a in store && Matches(a, q, hasPaidAccess)
  {
    if store != [] {
      var init := store[..|store| - 1];
      assert store == init + [store[|store| - 1]];
      MatchingMembers(init, q, hasPaidAccess);
    }
  }

  /** Newest first. */
  predicate NewestFirst(s: seq<Article>) {
    forall i, j :: 0 <= i < j < |s| ==> s[i].createdAt >= s[j].createdAt
  }

  /** Inserts `a` into a newest-first sequence, before the first article
      that is not newer than it. */
  function InsertNewest(a: Article, s: seq<Article>): (r: seq<Article>)
    ensures |r| == |s| + 1
  {
    if s == [] || s[0].createdAt <= a.createdAt then [a] + s
    else [s[0]] + InsertNewest(a, s[1..])
  }

  lemma {:induction false} InsertNewestMultiset(a: Article, s: seq<Article>)
    ensures multiset(InsertNewest(a, s)) == multiset(s) + multiset{a}
  {
    if s != [] && s[0].createdAt > a.createdAt {
      InsertNewestMultiset(a, s[1..]);
      assert s == [s[0]] + s[1..];
    }
  }

  lemma {:induction false} InsertNewestSorted(a: Article, s: seq<Article>)
    requires NewestFirst(s)
    ensures NewestFirst(InsertNewest(a, s))
    ensures forall x :: x in InsertNewest(a, s) ==> x == a || x in s
  {
    if s != [] && s[0].createdAt > a.createdAt {
      InsertNewestSorted(a, s[1..]);
      var t := InsertNewest(a, s[1..]);
      assert forall x :: x in t ==> x.createdAt <= s[0].createdAt;
      assert InsertNewest(a, s) == [s[0]] + t;
      ConsNewestFirst(s[0], t);
    }
  }

  /** An article no older than every article of a newest-first sequence
      can go in front of it. */
  lemma ConsNewestFirst(h: Article, t: seq<Article>)
    requires NewestFirst(t)
    requires forall x :: x in t ==> x.createdAt <= h.createdAt
    ensures NewestFirst([h] + t)
  {
    var r := [h] + t;
    forall i, j | 0 <= i < j < |r| ensures r[i].createdAt >= r[j].createdAt {
      if i > 0 {
        assert r[i] == t[i - 1] && r[j] == t[j - 1];
      } else {
        assert r[j] in t;
      }
    }
  }

  /** `sort('-createdAt')`: newest first; articles with the same date keep
      their store order. */
  function SortNewest(s: seq<Article>): (r: seq<Article>)
    ensures |r| == |s|
    ensures multiset(r) == multiset(s)
  {
    if s == [] then []
    else
      InsertNewestMultiset(s[0], SortNewest(s[1..]));
      assert s == [s[0]] + s[1..];
      InsertNewest(s[0], SortNewest(s[1..]))
  }

  /** Sorting only reorders, and puts the newest first. */
  lemma {:induction false} SortNewestSpec(s: seq<Article>)
    ensures multiset(SortNewest(s)) == multiset(s)
    ensures NewestFirst(SortNewest(s))
  {
    if s != [] {
      SortNewestSpec(s[1..]);
      InsertNewestMultiset(s[0], SortNewest(s[1..]));
      InsertNewestSorted(s[0], SortNewest(s[1..]));
      assert s == [s[0]] + s[1..];
    }
  }

  /** How many documents `limit(n)` lets through out of `available`: a
      positive or negative n allows |n| documents, zero allows all. */
  function LimitCount(limit: int, available: nat): (r: nat)
    ensures r <= available
    ensures limit == 0 ==> r == available
    ensures limit != 0 ==> r <= (if limit < 0 then -limit else limit)
    ensures limit != 0 ==> r == available || r == (if limit < 0 then -limit else limit)
  {
    var n := if limit < 0 then -limit else limit;
    if limit == 0 || available <= n then available else n
  }

  /** `skip(start).limit(limit)` on an ordered result. */
  function Window(s: seq<Article>, start: nat, limit: int): (r: seq<Article>)
    ensures |r| == LimitCount(limit, if start <= |s| then |s| - start else 0)
    ensures start <= |s| ==> r == s[start..start + |r|]
    ensures start > |s| ==> r == []
  {
    var rest := if start <= |s| then s[start..] else [];
    rest[..LimitCount(limit, |rest|)]
  }

  /** A window is a run of consecutive elements: it keeps their order and
      takes as many as the limit allows from what follows the skip. */
  lemma WindowSpec(s: seq<Article>, start: nat, limit: int)
    ensures |Window(s, start, limit)| == LimitCount(limit, if start <= |s| then |s| - start else 0)
    ensures start <= |s| ==> Window(s, start, limit) == s[start..start + |Window(s, start, limit)|]
    ensures start > |s| ==> Window(s, start, limit) == []
    ensures multiset(Window(s, start, limit)) <= multiset(s)
    ensures NewestFirst(s) ==> NewestFirst(Window(s, start, limit))
  {
    if start <= |s| {
      var w := Window(s, start, limit);
      var rest := s[start..];
      assert s == s[..start] + w + rest[|w|..];
      assert multiset(s) == multiset(s[..start]) + multiset(w) + multiset(rest[|w|..]);
      if NewestFirst(s) {
        forall i, j | 0 <= i < j < |w| ensures w[i].createdAt >= w[j].createdAt {
          assert w[i] == s[start + i] && w[j] == s[start + j];
        }
      }
    }
  }

  /** What the search returns when it succeeds. */
  datatype SearchResult = SearchResult(articles: seq<Article>, totalDocuments: nat)

  /** `executeSearchQuery`: the page of matching articles, newest first,
      after skipping `start` and limited by `limit`, and the number of all
      matching articles.  A negative skip is refused by the database, and
      the failure is reported as `ok: false` (None). */
  function ExecuteSearchQuery(store: seq<Article>, q: SearchQuery, hasPaidAccess: bool): (r: Option<SearchResult>)
    ensures r.None? <==> q.start < 0
    ensures r.Some? ==> |r.value.articles| <= r.value.totalDocuments <= |store|
  {
    if q.start < 0 then None
    else
      var m := Matching(store, q, hasPaidAccess);
      Some(SearchResult(Window(SortNewest(m), q.start, q.limit), |m|))
  }

  /** `_getArticlesByQuery`: the search with the caller's access, or 400. */
  function GetArticlesByQuery(store: seq<Article>, q: SearchQuery, user: User): (r: Result<SearchResult, Failure>)
    ensures r.Err? <==> q.start < 0
    ensures r.Err? ==> r.error == Respond(SearchFailedMessage, 400)
    ensures r.Ok? ==> r.value.totalDocuments <= |store|
  {
    match ExecuteSearchQuery(store, q, user.role < 3 || user.hasPaid)
    case None => Err(Respond(SearchFailedMessage, 400))
    case Some(r) => Ok(r)
  }

  /** What a search page holds, given the matching articles `m` and their
      newest-first order `sorted`: only matching articles of the store,
      newest first, as many as the limit allows from what remains after
      the skip, forming the slice of `sorted` at the skip; the total counts
      every matching article, whatever the window. */
  ghost predicate IsSearchPage(store: seq<Article>, q: SearchQuery, hasPaidAccess: bool,
                               m: seq<Article>, sorted: seq<Article>, page: seq<Article>, total: int)
  {
    && total == |m|
    && (forall a :: a in page ==> a in store && Matches(a, q, hasPaidAccess))
    && NewestFirst(page)
    && |page| == LimitCount(q.limit, if q.start <= |m| then |m| - q.start else 0)
    && multiset(page) <= multiset(m)
    && (0 <= q.start <= |m| ==> q.start + |page| <= |sorted| && page == sorted[q.start..q.start + |page|])
    && (q.start > |m| ==> page == [])
  }

  /** The search fails exactly on a negative skip; otherwise it returns the
      page described by `IsSearchPage` for the store's matching articles
      sorted newest first. */
  lemma SearchPage(store: seq<Article>, q: SearchQuery, hasPaidAccess: bool)
    ensures ExecuteSearchQuery(store, q, hasPaidAccess).None? <==> q.start < 0
    ensures ExecuteSearchQuery(store, q, hasPaidAccess).Some? ==>
      var m := Matching(store, q, hasPaidAccess);
      var r := ExecuteSearchQuery(store, q, hasPaidAccess).value;
      IsSearchPage(store, q, hasPaidAccess, m, SortNewest(m), r.articles, r.totalDocuments)
  {
    if q.start >= 0 {
      var m := Matching(store, q, hasPaidAccess);
      var sorted := SortNewest(m);
      var page := Window(sorted, q.start, q.limit);
      SortNewestSpec(m);
      PageFacts(store, q, hasPaidAccess, m, sorted, page);
      assert ExecuteSearchQuery(store, q, hasPaidAccess) == Some(SearchResult(page, |m|));
    }
  }

  /** A window of a newest-first reordering of matching articles is a
      search page. */
  lemma PageFacts(store: seq<Article>, q: SearchQuery, hasPaidAccess: bool,
                  m: seq<Article>, sorted: seq<Article>, page: seq<Article>)
    requires q.start >= 0
    requires forall a :: a in m ==> a in store && Matches(a, q, hasPaidAccess)
    requires |sorted| == |m| && multiset(sorted) == multiset(m) && NewestFirst(sorted)
    requires page == Window(sorted, q.start, q.limit)
    ensures IsSearchPage(store, q, hasPaidAccess, m, sorted, page, |m|)
  {
    WindowSpec(sorted, q.start, q.limit);
    forall a | a in page ensures a in m {
      assert a in multiset(page);
    }
  }

  /** Users without paid access only ever see, and only ever count, free
      articles. */
  lemma FreeOnlyWithoutAccess(store: seq<Article>, q: SearchQuery, user: User)
    requires !HasPaidAccess(user)
    requires GetArticlesByQuery(store, q, user).Ok?
    ensures forall a :: a in GetArticlesByQuery(store, q, user).value.articles ==> a.isFree
    ensures GetArticlesByQuery(store, q, user).value.totalDocuments ==
      |Matching(store, q, false)|
    ensures forall a :: a in Matching(store, q, false) ==> a.isFree
  {
    SearchPage(store, q, false);
  }

  /** The count does not depend on the window: two searches that differ only
      in `start` and `limit` report the same total. */
  lemma TotalIgnoresWindow(store: seq<Article>, q: SearchQuery, limit: int, start: int, hasPaidAccess: bool)
    requires q.start >= 0 && start >= 0
    ensures ExecuteSearchQuery(store, q, hasPaidAccess).value.totalDocuments ==
      ExecuteSearchQuery(store, q.(limit := limit, start := start), hasPaidAccess).value.totalDocuments
  {
    MatchingSameFilters(store, q, q.(limit := limit, start := start), hasPaidAccess);
  }

  lemma {:induction false} MatchingSameFilters(store: seq<Article>, q: SearchQuery, q': SearchQuery, hasPaidAccess: bool)
    requires q.tags == q'.tags && q.authorId == q'.authorId
    ensures Matching(store, q, hasPaidAccess) == Matching(store, q', hasPaidAccess)
  {
    if store != [] {
      MatchingSameFilters(store[..|store| - 1], q, q', hasPaidAccess);
    }
  }

  /** A successful search is the search page for the caller's access:
      admins and paying users search the paid articles too, everyone else
      the free ones only. */
  lemma SearchUsesAccess(store: seq<Article>, q: SearchQuery, user: User)
    ensures GetArticlesByQuery(store, q, user).Ok? ==>
      var m := Matching(store, q, HasPaidAccess(user));
      var r := GetArticlesByQuery(store, q, user).value;
      IsSearchPage(store, q, HasPaidAccess(user), m, SortNewest(m), r.articles, r.totalDocuments)
  {
    SearchPage(store, q, HasPaidAccess(user));
  }

  /** A failed search is reported with 400 and the fixed message. */
  lemma SearchFailure(store: seq<Article>, q: SearchQuery, user: User)
    ensures GetArticlesByQuery(store, q, user).Err? <==> q.start < 0
    ensures GetArticlesByQuery(store, q, user).Err? ==>
      GetArticlesByQuery(store, q, user).error == Respond(SearchFailedMessage, 400)
  {
    SearchPage(store, q, HasPaidAccess(user));
  }

  /** Reading by slug and searching apply the same access rule: with no tag
      or author filter, an article found by its slug is returned exactly
      when the search would match it. */
  lemma AccessAgreesWithSearch(store: seq<Article>, slug: string, user: User, q: SearchQuery)
    requires TagFilter(q.tags).None? && AuthorFilter(q.authorId).None?
    requires slug in KeySet(store, ArticleSlug)
    ensures GetOneBySlug(store, slug, user).Ok? <==>
      Matches(store[IndexOfKey(store, ArticleSlug, slug).value], q, HasPaidAccess(user))
  {
  }

  // ---------------------------------------------------------------------
  // Editing lock

  /** `_toggleEditingLocked`: the author flips the lock of the article with
      the id, and the new store holds the flipped article; anyone else gets
      400.  An unknown id makes the author check dereference null, which
      throws. */
  function ToggleEditingLocked(store: seq<Article>, articleId: Id, user: User): (r: Result<seq<Article>, Failure>)
    ensures r.Ok? ==> |r.value| == |store|
  {
    match IndexOfKey(store, ArticleId, articleId)
    case None => Err(Thrown)
    case Some(i) =>
      if store[i].author.id == user.id then
        Ok(store[i := store[i].(editingLocked := !store[i].editingLocked)])
      else Err(Respond(OnlyAuthorMessage, 400))
  }

  /** Only the author may toggle; the toggle flips exactly the lock of the
      article with the id and changes nothing else. */
  lemma ToggleRule(store: seq<Article>, articleId: Id, user: User)
    ensures ToggleEditingLocked(store, articleId, user).Err? <==>
      articleId !in KeySet(store, ArticleId) ||
      store[IndexOfKey(store, ArticleId, articleId).value].author.id != user.id
    ensures (articleId in KeySet(store, ArticleId) &&
             ToggleEditingLocked(store, articleId, user).Err?) ==>
      ToggleEditingLocked(store, articleId, user).error == Respond(OnlyAuthorMessage, 400)
    ensures ToggleEditingLocked(store, articleId, user).Ok? ==>
      var s := ToggleEditingLocked(store, articleId, user).value;
      var i := IndexOfKey(store, ArticleId, articleId).value;
      s[i].editingLocked == !store[i].editingLocked &&
      s[i].(editingLocked := store[i].editingLocked) == store[i] &&
      forall j :: 0 <= j < |store| && j != i ==> s[j] == store[j]
  {
  }

  /** Toggling twice restores the store. */
  lemma ToggleTwice(store: seq<Article>, articleId: Id, user: User)
    requires ToggleEditingLocked(store, articleId, user).Ok?
    ensures ToggleEditingLocked(ToggleEditingLocked(store, articleId, user).value, articleId, user)
      == Ok(store)
  {
    var i := IndexOfKey(store, ArticleId, articleId).value;
    var s := ToggleEditingLocked(store, articleId, user).value;
    assert forall j :: 0 <= j < |s| ==> s[j].id == store[j].id;
    assert s[i].author == store[i].author;
    SameIdsSameIndex(store, s, articleId);
    assert s[i := s[i].(editingLocked := !s[i].editingLocked)] == store;
  }

  lemma {:induction false} SameIdsSameIndex(s: seq<Article>, t: seq<Article>, id: Id)
    requires |s| == |t| && forall j :: 0 <= j < |s| ==> s[j].id == t[j].id
    ensures IndexOfKey(s, ArticleId, id) == IndexOfKey(t, ArticleId, id)
  {
    if s != [] {
      assert forall j :: 0 <= j < |s| - 1 ==> s[1..][j].id == t[1..][j].id;
      SameIdsSameIndex(s[1..], t[1..], id);
    }
  }
}
