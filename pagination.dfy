/**
 * The pagination middleware: the page size and the index of the first
 * item, computed from the `limit` and `page` query parameters.
 */
module Pagination {
  import opened Wrappers
  import opened JsText

  const DefaultLimit := 10
  const MaxLimit := 100
  const LimitExceeded := "Limit has exceeded maximum of 100"

  /** Either a 400 response or the values handed on to the next handler. */
  datatype Outcome = BadRequest(message: string) | Next(limit: int, start: int)

  /** A query parameter as `parseInt` sees it; a missing one reads as "undefined". */
  function QueryNumber(q: Option<string>): Number {
    match q
    case None => NaN
    case Some(s) => ParseInt(s)
  }

  /** NaN and zero are the falsy numbers. */
  predicate Falsy(n: Number) {
    n.NaN? || n.value == 0
  }

  /** The middleware on already-parsed parameters. */
  function Paginate(limit: Number, page: Number): (o: Outcome)
    ensures o.BadRequest? <==> limit.Int? && limit.value > MaxLimit
    ensures o.BadRequest? ==> o.message == LimitExceeded
    ensures o.Next? ==> o.limit != 0 && o.limit <= MaxLimit && (Falsy(page) ==> o.start == 0)
    ensures o.Next? && !Falsy(page) ==> o.start == (page.value - 1) * o.limit
  {
    var l := if Falsy(limit) then DefaultLimit else limit.value;
    var p := if Falsy(page) then 1 else page.value;
    if l > MaxLimit then BadRequest(LimitExceeded)
    else Next(l, (p - 1) * l)
  }

  /** The middleware on the raw query parameters. */
  function PaginateQuery(limit: Option<string>, page: Option<string>): (o: Outcome)
    ensures limit.None? ==> o.Next? && o.limit == DefaultLimit
    ensures page.None? && o.Next? ==> o.start == 0
    ensures o.Next? && page.Some? && !Falsy(ParseInt(page.value)) ==>
      o.start == (ParseInt(page.value).value - 1) * o.limit
    ensures o.BadRequest? ==> limit.Some? && exists i :: 0 <= i < |limit.value| && IsDigit(limit.value[i])
  {
    Paginate(QueryNumber(limit), QueryNumber(page))
  }

  /** Only a limit above 100 is refused, with the fixed message; otherwise
      the limit is passed on unchanged, or 10 when it is missing, unreadable
      or zero. */
  lemma LimitRule(limit: Number, page: Number)
    ensures Paginate(limit, page).BadRequest? <==> (limit.Int? && limit.value > MaxLimit)
    ensures Paginate(limit, page).BadRequest? ==> Paginate(limit, page).message == LimitExceeded
    ensures Paginate(limit, page).Next? ==>
      Paginate(limit, page).limit == (if Falsy(limit) then DefaultLimit else limit.value) &&
      Paginate(limit, page).limit != 0 && Paginate(limit, page).limit <= MaxLimit
  {
  }

  /** A missing, unreadable or zero page is the first page, which starts at 0. */
  lemma FirstPageDefault(limit: Number, page: Number)
    requires Falsy(page) && Paginate(limit, page).Next?
    ensures Paginate(limit, page).start == 0
  {
  }

  /** With no parameters the page is the first ten items. */
  lemma NoParameters()
    ensures PaginateQuery(None, None) == Next(10, 0)
  {
  }

  /** Page p + 1 starts where page p ends. */
  lemma PagesAdjacent(limit: Number, p: int)
    requires p >= 1 && Paginate(limit, Int(p)).Next?
    ensures Paginate(limit, Int(p + 1)).Next?
    ensures Paginate(limit, Int(p + 1)).start ==
      Paginate(limit, Int(p)).start + Paginate(limit, Int(p)).limit
  {
  }

  /** For positive limits, distinct pages cover disjoint item ranges. */
  lemma {:induction false} PagesDisjoint(limit: Number, p: int, q: int)
    requires 1 <= p < q && Paginate(limit, Int(p)).Next?
    requires Paginate(limit, Int(p)).limit > 0
    ensures Paginate(limit, Int(q)).Next?
    ensures Paginate(limit, Int(p)).start + Paginate(limit, Int(p)).limit <= Paginate(limit, Int(q)).start
  {
    var l := Paginate(limit, Int(p)).limit;
    assert Paginate(limit, Int(p)).start == (p - 1) * l;
    assert Paginate(limit, Int(q)) == Next(l, (q - 1) * l);
    LaterPageStartsLater(p - 1, q - p, l);
  }

  lemma LaterPageStartsLater(a: int, d: int, l: int)
    requires d >= 1 && l > 0
    ensures a * l + l <= (a + d) * l
  {
    assert (a + d) * l == a * l + (d - 1) * l + l;
    assert (d - 1) * l >= 0;
  }

  /** There is no lower bound: a negative limit and page pass through and
      give a negative start. */
  lemma NegativeValuesPass()
    ensures Paginate(Int(-5), Int(-2)) == Next(-5, 15)
    ensures Paginate(Int(-5), Int(3)) == Next(-5, -10)
  {
  }

  /** The query text "-5" is read as -5. */
  lemma NegativeQueryText()
    ensures QueryNumber(Some("-5")) == Int(-5)
  {
    ParseIntOneDigit('5');
  }

  /** The query text "3" is read as 3. */
  lemma PositiveQueryText()
    ensures QueryNumber(Some("3")) == Int(3)
  {
    ParseIntOneDigit('3');
  }
}
