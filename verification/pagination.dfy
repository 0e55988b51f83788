/** Keyset pagination (pagination.service.ts, paginate and validatePaginationArgs).

    The query is abstract: `rows` is the table, each row has a positive unique id given by
    `id`, and the base query carries an optional WHERE predicate and an optional primary
    ORDER BY column, represented by the column's rank in the collation order. The total
    count is a second query over the same table with its own optional filter. */
module Pagination {
  import opened Wrappers
  import opened Sorting
  import Cursor

  /** `first`, `after`, `last`, `before`; JavaScript tests each for truthiness, so a count
      of 0 and an empty cursor behave as if absent. */
  datatype PaginationArgs = PaginationArgs(
    first: Option<int>, after: Option<string>, last: Option<int>, before: Option<string>)

  predicate CountGiven(c: Option<int>) {
    c.Some? && c.value != 0
  }

  predicate CursorGiven(c: Option<string>) {
    c.Some? && c.value != ""
  }

  /** The GraphQL layer rejects non-positive counts; paginate relies on never seeing a
      negative one. */
  predicate CountsNonNegative(args: PaginationArgs) {
    (args.first.Some? ==> args.first.value >= 0) && (args.last.Some? ==> args.last.value >= 0)
  }

  datatype SortOrder = ASC | DESC

  /** An ORDER BY on one column, given as the rank of each row in the column's collation. */
  datatype PrimaryOrder<!T> = PrimaryOrder(rank: T -> int, order: SortOrder)

  datatype BaseQuery<!T> = BaseQuery(where: Option<T -> bool>, orderBy: Option<PrimaryOrder<T>>)

  datatype PaginationError =
    | BothFirstAndLast
    | BothAfterAndBefore
    | BadCursor(cause: Cursor.CursorError)

  function ErrorMessage(e: PaginationError): string {
    match e
    case BothFirstAndLast => "Cannot specify both first and last"
    case BothAfterAndBefore => "Cannot specify both after and before"
    case BadCursor(c) => Cursor.CursorErrorMessage(c)
  }

  datatype Edge<T> = Edge(node: T, cursor: string)

  datatype PageInfo = PageInfo(
    startCursor: Option<string>, endCursor: Option<string>,
    hasNextPage: bool, hasPreviousPage: bool)

  datatype Connection<T> = Connection(
    edges: seq<Edge<T>>, nodes: seq<T>, pageInfo: PageInfo, totalCount: nat)

  /** What the query planner derives from the arguments before any row is read. */
  datatype QueryPlan = QueryPlan(limit: nat, forward: bool, afterId: Option<int>, beforeId: Option<int>)

  /** Rows of a table: every id positive and no id repeated. */
  predicate ValidRows<T>(rows: seq<T>, id: T -> int) {
    && (forall i :: 0 <= i < |rows| ==> id(rows[i]) > 0)
    && (forall i, j :: 0 <= i < j < |rows| ==> id(rows[i]) != id(rows[j]))
  }

  predicate IdsAscending<T>(s: seq<T>, id: T -> int) {
    forall i, j :: 0 <= i < j < |s| ==> id(s[i]) < id(s[j])
  }

  /** validatePaginationArgs. */
  function ValidatePaginationArgs(args: PaginationArgs): (r: Option<PaginationError>)
    ensures r == Some(BothFirstAndLast) <==> CountGiven(args.first) && CountGiven(args.last)
    ensures r == Some(BothAfterAndBefore) <==>
      !(CountGiven(args.first) && CountGiven(args.last))
      && CursorGiven(args.after) && CursorGiven(args.before)
    ensures r.None? <==>
      !(CountGiven(args.first) && CountGiven(args.last))
      && !(CursorGiven(args.after) && CursorGiven(args.before))
  {
    if CountGiven(args.first) && CountGiven(args.last) then Some(BothFirstAndLast)
    else if CursorGiven(args.after) && CursorGiven(args.before) then Some(BothAfterAndBefore)
    else None
  }

  /** `first || last || 10`. */
  function PageLimit(args: PaginationArgs): nat
    requires CountsNonNegative(args)
  {
    if CountGiven(args.first) then args.first.value
    else if CountGiven(args.last) then args.last.value
    else 10
  }

  /** `!!first || (!last && !before)`. */
  predicate IsForward(args: PaginationArgs) {
    CountGiven(args.first) || (!CountGiven(args.last) && !CursorGiven(args.before))
  }

  /** The id bound a cursor argument adds, when it is given. */
  function DecodeBound(c: Option<string>): Result<Option<int>, PaginationError> {
    if CursorGiven(c) then
      match Cursor.DecodeCursor(c.value)
      case Ok(v) => Ok(Some(v))
      case Err(e) => Err(BadCursor(e))
    else Ok(None)
  }

  /** Validation, limit, direction and the decoded cursor bounds, in the order the source
      computes them: a bad combination is refused before any cursor is decoded, and
      `after` is decoded before `before`. */
  function PlanQuery(args: PaginationArgs): (r: Result<QueryPlan, PaginationError>)
    requires CountsNonNegative(args)
    ensures ValidatePaginationArgs(args).Some? ==> r == Err(ValidatePaginationArgs(args).value)
    ensures r.Ok? ==>
      && r.value.limit >= 1
      && (CountGiven(args.first) ==> r.value.limit == args.first.value)
      && (!CountGiven(args.first) && CountGiven(args.last) ==> r.value.limit == args.last.value)
      && (!CountGiven(args.first) && !CountGiven(args.last) ==> r.value.limit == 10)
      && (r.value.forward <==> IsForward(args))
      && (r.value.afterId.Some? <==> CursorGiven(args.after))
      && (r.value.beforeId.Some? <==> CursorGiven(args.before))
      && (r.value.afterId.Some? ==> Cursor.DecodeCursor(args.after.value) == Ok(r.value.afterId.value))
      && (r.value.beforeId.Some? ==> Cursor.DecodeCursor(args.before.value) == Ok(r.value.beforeId.value))
    ensures ValidatePaginationArgs(args).None? && CursorGiven(args.after)
            && Cursor.DecodeCursor(args.after.value).Err? ==>
              r == Err(BadCursor(Cursor.DecodeCursor(args.after.value).error))
    ensures ValidatePaginationArgs(args).None? && CursorGiven(args.before)
            && Cursor.DecodeCursor(args.before.value).Err? ==>
              r == Err(BadCursor(Cursor.DecodeCursor(args.before.value).error))
    ensures r.Err? ==>
      || ValidatePaginationArgs(args).Some?
      || (CursorGiven(args.after) && Cursor.DecodeCursor(args.after.value).Err?)
      || (CursorGiven(args.before) && Cursor.DecodeCursor(args.before.value).Err?)
  {
    match ValidatePaginationArgs(args)
    case Some(e) => Err(e)
    case None =>
      var afterId :- DecodeBound(args.after);
      var beforeId :- DecodeBound(args.before);
      Ok(QueryPlan(PageLimit(args), IsForward(args), afterId, beforeId))
  }

  predicate PassesFilter<T>(x: T, filter: Option<T -> bool>) {
    filter.None? || filter.value(x)
  }

  /** The WHERE clause of the windowed query: the base filter and the cursor bounds. */
  predicate Admits<T>(x: T, id: T -> int, where: Option<T -> bool>, plan: QueryPlan) {
    && PassesFilter(x, where)
    && (plan.afterId.Some? ==> id(x) > plan.afterId.value)
    && (plan.beforeId.Some? ==> id(x) < plan.beforeId.value)
  }

  /** The rows a query with this WHERE clause can return, in table order. */
  function Candidates<T(==,!new)>(rows: seq<T>, id: T -> int, where: Option<T -> bool>, plan: QueryPlan)
    : (r: seq<T>)
    requires ValidRows(rows, id)
    ensures ValidRows(r, id)
    ensures forall x :: x in r <==> x in rows && Admits(x, id, where, plan)
  {
    if |rows| == 0 then []
    else
      var rest := Candidates(rows[1..], id, where, plan);
      HeadIdFresh(rows, rest, id);
      if Admits(rows[0], id, where, plan) then [rows[0]] + rest else rest
  }

  /** The head of valid rows can be put back in front of valid rows drawn from its tail. */
  lemma HeadIdFresh<T>(rows: seq<T>, rest: seq<T>, id: T -> int)
    requires |rows| > 0 && ValidRows(rows, id) && ValidRows(rest, id)
    requires forall x :: x in rest ==> x in rows[1..]
    ensures ValidRows([rows[0]] + rest, id)
    ensures forall x :: x in rows <==> x == rows[0] || x in rows[1..]
  {
    forall x | x in rest ensures id(x) != id(rows[0]) {
      var k :| 0 <= k < |rows[1..]| && rows[1..][k] == x;
      assert rows[k + 1] == x;
    }
    var r := [rows[0]] + rest;
    forall i, j | 0 <= i < j < |r| ensures id(r[i]) != id(r[j]) {
      if i == 0 {
        assert r[j] in rest;
      } else {
        assert r[i] == rest[i - 1] && r[j] == rest[j - 1];
      }
    }
    assert rows == [rows[0]] + rows[1..];
  }

  /** The rows a filter admits, for the total count. */
  function Filtered<T(==,!new)>(rows: seq<T>, filter: Option<T -> bool>): (r: seq<T>)
    ensures |r| <= |rows|
    ensures forall x :: x in r <==> x in rows && PassesFilter(x, filter)
    ensures forall x :: multiset(r)[x] == if PassesFilter(x, filter) then multiset(rows)[x] else 0
  {
    if |rows| == 0 then []
    else
      var rest := Filtered(rows[1..], filter);
      assert rows == [rows[0]] + rows[1..];
      if PassesFilter(rows[0], filter) then [rows[0]] + rest else rest
  }

  /** The ORDER BY of the windowed query. The id is always a key, ascending for forward
      pages and descending for backward ones. With an existing ORDER BY the id comes after
      the primary column, whose direction is not flipped for backward pages. */
  function OrderKey<T>(id: T -> int, orderBy: Option<PrimaryOrder<T>>, forward: bool): T -> SortKey {
    x =>
      SortKey(
        match orderBy
        case None => 0
        case Some(p) => if p.order == ASC then p.rank(x) else -p.rank(x),
        if forward then id(x) else -id(x))
  }

  lemma DistinctIdsDistinctKeys<T>(s: seq<T>, id: T -> int, orderBy: Option<PrimaryOrder<T>>, forward: bool)
    requires ValidRows(s, id)
    ensures DistinctKeys(s, OrderKey(id, orderBy, forward))
  {
  }

  /** The rows of the windowed query in its ORDER BY. */
  function Ordered<T(==,!new)>(rows: seq<T>, id: T -> int, base: BaseQuery<T>, plan: QueryPlan): (r: seq<T>)
    requires ValidRows(rows, id)
    ensures StrictlySorted(r, OrderKey(id, base.orderBy, plan.forward))
    ensures forall x :: x in r <==> x in rows && Admits(x, id, base.where, plan)
    ensures |r| == |Candidates(rows, id, base.where, plan)|
  {
    var c := Candidates(rows, id, base.where, plan);
    DistinctIdsDistinctKeys(c, id, base.orderBy, plan.forward);
    var r := Sort(c, OrderKey(id, base.orderBy, plan.forward));
    assert forall x :: x in r <==> x in c by {
      forall x ensures x in r <==> x in c {
        assert x in r <==> x in multiset(r);
        assert x in c <==> x in multiset(c);
      }
    }
    assert |r| == |multiset(r)| == |multiset(c)| == |c|;
    r
  }

  function Take<T>(s: seq<T>, n: nat): (r: seq<T>)
    ensures |r| == if n < |s| then n else |s|
    ensures r == s[..|r|]
  {
    if n < |s| then s[..n] else s
  }

  function Reverse<T>(s: seq<T>): (r: seq<T>)
    ensures |r| == |s|
    ensures forall i :: 0 <= i < |s| ==> r[i] == s[|s| - 1 - i]
  {
    seq(|s|, i requires 0 <= i < |s| => s[|s| - 1 - i])
  }

  /** One edge per row, each carrying the cursor of its row's id. */
  predicate EdgesMatch<T(==)>(edges: seq<Edge<T>>, nodes: seq<T>, id: T -> int) {
    && |edges| == |nodes|
    && forall i {:trigger edges[i]} :: 0 <= i < |edges| ==>
         edges[i].node == nodes[i] && edges[i].cursor == Cursor.EncodeCursor(id(nodes[i]))
  }

  /** The start and end cursors are those of the first and last edge, absent on an empty page. */
  predicate BoundaryCursors<T>(edges: seq<Edge<T>>, info: PageInfo) {
    && (info.startCursor.None? <==> |edges| == 0)
    && (info.endCursor.None? <==> |edges| == 0)
    && (|edges| > 0 ==>
          && info.startCursor == Some(edges[0].cursor)
          && info.endCursor == Some(edges[|edges| - 1].cursor))
  }

  function EdgesOf<T(==)>(page: seq<T>, id: T -> int): (edges: seq<Edge<T>>)
    ensures EdgesMatch(edges, page, id)
  {
    if |page| == 0 then []
    else [Edge(page[0], Cursor.EncodeCursor(id(page[0])))] + EdgesOf(page[1..], id)
  }

  /** Edges, page info and total count for the rows of a page, already in final order. */
  function Assemble<T(==)>(page: seq<T>, id: T -> int, hasMore: bool, forward: bool,
                           args: PaginationArgs, totalCount: nat): (c: Connection<T>)
    ensures c.nodes == page && c.totalCount == totalCount
    ensures EdgesMatch(c.edges, page, id)
    ensures BoundaryCursors(c.edges, c.pageInfo)
    ensures c.pageInfo.hasNextPage == if forward then hasMore else CursorGiven(args.after)
    ensures c.pageInfo.hasPreviousPage == if !forward then hasMore else CursorGiven(args.before)
  {
    var edges := EdgesOf(page, id);
    var info := PageInfo(
      if |edges| > 0 then Some(edges[0].cursor) else None,
      if |edges| > 0 then Some(edges[|edges| - 1].cursor) else None,
      if forward then hasMore else CursorGiven(args.after),
      if !forward then hasMore else CursorGiven(args.before));
    Connection(edges, page, info, totalCount)
  }

  /** The rows of a page: never more than the limit, each one admitted by the WHERE
      clause, a full page unless the query has fewer rows, and ascending by id when the
      query has no primary order. */
  predicate WindowContract<T(==,!new)>(nodes: seq<T>, rows: seq<T>, id: T -> int, base: BaseQuery<T>, plan: QueryPlan)
    requires ValidRows(rows, id)
  {
    && |nodes| <= plan.limit
    && (forall x :: x in nodes ==> x in rows && Admits(x, id, base.where, plan))
    && (|nodes| == plan.limit || |nodes| == |Candidates(rows, id, base.where, plan)|)
    && (base.orderBy.None? ==> IdsAscending(nodes, id))
  }

  /** hasNextPage and hasPreviousPage: the lookahead row answers the question for the
      direction of travel; for the other direction the answer is whether a cursor was given. */
  predicate MoreContract<T(==,!new)>(info: PageInfo, rows: seq<T>, id: T -> int, base: BaseQuery<T>,
                                     args: PaginationArgs, plan: QueryPlan)
    requires ValidRows(rows, id)
  {
    var more := |Candidates(rows, id, base.where, plan)| > plan.limit;
    && (info.hasNextPage <==> if plan.forward then more else CursorGiven(args.after))
    && (info.hasPreviousPage <==> if !plan.forward then more else CursorGiven(args.before))
  }

  /** What paginate promises about a page it returns for a given plan. */
  predicate PageContract<T(==,!new)>(rows: seq<T>, id: T -> int, base: BaseQuery<T>, args: PaginationArgs,
                                  filterConditions: Option<T -> bool>, plan: QueryPlan, c: Connection<T>)
    requires ValidRows(rows, id)
  {
    && WindowContract(c.nodes, rows, id, base, plan)
    && EdgesMatch(c.edges, c.nodes, id)
    && BoundaryCursors(c.edges, c.pageInfo)
    && MoreContract(c.pageInfo, rows, id, base, args, plan)
    && c.totalCount == |Filtered(rows, filterConditions)|
  }

  /** The rows of the page in final order, and whether the lookahead row was fetched. */
  function FetchPage<T(==,!new)>(rows: seq<T>, id: T -> int, base: BaseQuery<T>, plan: QueryPlan)
    : (r: (seq<T>, bool))
    requires ValidRows(rows, id)
    ensures r.1 <==> |Candidates(rows, id, base.where, plan)| > plan.limit
    ensures WindowContract(r.0, rows, id, base, plan)
  {
    var ordered := Ordered(rows, id, base, plan);
    var fetched := Take(ordered, plan.limit + 1);
    var hasMore := |fetched| > plan.limit;
    var window := if hasMore then fetched[..plan.limit] else fetched;
    assert window == Take(ordered, plan.limit);
    var page := if plan.forward then window else Reverse(window);
    WindowFacts(rows, id, base, plan, window, page);
    (page, hasMore)
  }

  /** paginate: plan the query, fetch `limit + 1` rows in order, drop the lookahead row,
      turn a backward page around, then build edges, page info and the total count. */
  function Paginate<T(==,!new)>(rows: seq<T>, id: T -> int, base: BaseQuery<T>, args: PaginationArgs,
                                filterConditions: Option<T -> bool>): (r: Result<Connection<T>, PaginationError>)
    requires ValidRows(rows, id)
    requires CountsNonNegative(args)
    ensures PlanQuery(args).Err? <==> r.Err?
    ensures r.Err? ==> r.error == PlanQuery(args).error
    ensures r.Ok? ==> PageContract(rows, id, base, args, filterConditions, PlanQuery(args).value, r.value)
  {
    var plan :- PlanQuery(args);
    PageMeetsContract(rows, id, base, args, filterConditions, plan);
    Ok(PageFor(rows, id, base, args, filterConditions, plan))
  }

  /** The connection paginate builds once the plan is known. */
  function PageFor<T(==,!new)>(rows: seq<T>, id: T -> int, base: BaseQuery<T>, args: PaginationArgs,
                               filterConditions: Option<T -> bool>, plan: QueryPlan): Connection<T>
    requires ValidRows(rows, id)
  {
    var fetched := FetchPage(rows, id, base, plan);
    Assemble(fetched.0, id, fetched.1, plan.forward, args, |Filtered(rows, filterConditions)|)
  }

  lemma PageMeetsContract<T(!new)>(rows: seq<T>, id: T -> int, base: BaseQuery<T>, args: PaginationArgs,
                                   filterConditions: Option<T -> bool>, plan: QueryPlan)
    requires ValidRows(rows, id)
    ensures PageContract(rows, id, base, args, filterConditions, plan,
                         PageFor(rows, id, base, args, filterConditions, plan))
  {
    var fetched := FetchPage(rows, id, base, plan);
    var c := Assemble(fetched.0, id, fetched.1, plan.forward, args, |Filtered(rows, filterConditions)|);
    assert c == PageFor(rows, id, base, args, filterConditions, plan);
    assert MoreContract(c.pageInfo, rows, id, base, args, plan);
  }

  lemma WindowFacts<T(!new)>(rows: seq<T>, id: T -> int, base: BaseQuery<T>, plan: QueryPlan,
                           window: seq<T>, page: seq<T>)
    requires ValidRows(rows, id)
    requires window == Take(Ordered(rows, id, base, plan), plan.limit)
    requires page == if plan.forward then window else Reverse(window)
    ensures forall x :: x in page ==> x in rows && Admits(x, id, base.where, plan)
    ensures base.orderBy.None? ==> IdsAscending(page, id)
  {
    var ordered := Ordered(rows, id, base, plan);
    assert forall x :: x in window ==> x in ordered;
    if !plan.forward {
      ReverseSameElements(window);
    }
    if base.orderBy.None? {
      if plan.forward {
        PrefixIdsAscending(ordered, window, id, true);
      } else {
        PrefixIdsAscending(ordered, window, id, false);
        ReverseDescendingIsAscending(window, id);
      }
    }
  }

  lemma ReverseSameElements<T>(s: seq<T>)
    ensures forall x :: x in Reverse(s) ==> x in s
  {
    var r := Reverse(s);
    forall x | x in r ensures x in s {
      var k :| 0 <= k < |r| && r[k] == x;
      assert s[|s| - 1 - k] == x;
    }
  }

  /** A prefix of the rows sorted by the id key alone runs in the key's id direction. */
  lemma PrefixIdsAscending<T>(ordered: seq<T>, window: seq<T>, id: T -> int, forward: bool)
    requires StrictlySorted(ordered, OrderKey(id, None, forward))
    requires |window| <= |ordered| && window == ordered[..|window|]
    ensures forall i, j :: 0 <= i < j < |window| ==>
      if forward then id(window[i]) < id(window[j]) else id(window[i]) > id(window[j])
  {
    var key := OrderKey(id, None, forward);
    forall i, j | 0 <= i < j < |window|
      ensures if forward then id(window[i]) < id(window[j]) else id(window[i]) > id(window[j])
    {
      assert Before(key(ordered[i]), key(ordered[j]));
    }
  }

  lemma ReverseDescendingIsAscending<T>(s: seq<T>, id: T -> int)
    requires forall i, j :: 0 <= i < j < |s| ==> id(s[i]) > id(s[j])
    ensures IdsAscending(Reverse(s), id)
  {
    var r := Reverse(s);
    forall i, j | 0 <= i < j < |r| ensures id(r[i]) < id(r[j]) {
      assert r[i] == s[|s| - 1 - i] && r[j] == s[|s| - 1 - j];
    }
  }
}
