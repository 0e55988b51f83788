/** Properties of paginate that relate several calls: what a page holds in terms of the
    sorted query, forward pages that chain through `endCursor` without gap or overlap,
    backward pages that are the tail of the ascending order, and cursors that lead back
    to their rows. */
module PaginationProps {
  import opened Wrappers
  import opened Sorting
  import opened Pagination
  import Cursor

  /** `first: n, after: a` with no `last` and no `before`. */
  function ForwardArgs(n: int, after: Option<string>): (args: PaginationArgs)
    ensures CountGiven(args.first) <==> n != 0
  {
    PaginationArgs(Some(n), after, None, None)
  }

  /** `last: n, before: b` with no `first` and no `after`. */
  function BackwardArgs(n: int, before: Option<string>): (args: PaginationArgs)
    ensures CountGiven(args.last) <==> n != 0
  {
    PaginationArgs(None, None, Some(n), before)
  }

  /** The rows of the windowed query depend only on the cursor bounds and the direction,
      not on the limit. */
  lemma OrderedIgnoresLimit<T(!new)>(rows: seq<T>, id: T -> int, base: BaseQuery<T>, p: QueryPlan, q: QueryPlan)
    requires ValidRows(rows, id)
    requires p.forward == q.forward && p.afterId == q.afterId && p.beforeId == q.beforeId
    ensures Ordered(rows, id, base, p) == Ordered(rows, id, base, q)
  {
    var a, b := Ordered(rows, id, base, p), Ordered(rows, id, base, q);
    forall x ensures x in a <==> x in b {
      assert Admits(x, id, base.where, p) == Admits(x, id, base.where, q);
    }
    StrictlySortedUnique(a, b, OrderKey(id, base.orderBy, p.forward));
  }

  /** The nodes of a page: the first `limit` rows of the windowed query in its order, turned
      around for a backward page. */
  lemma PageNodes<T(!new)>(rows: seq<T>, id: T -> int, base: BaseQuery<T>, args: PaginationArgs,
                           filterConditions: Option<T -> bool>, plan: QueryPlan)
    requires ValidRows(rows, id) && CountsNonNegative(args) && PlanQuery(args) == Ok(plan)
    ensures Paginate(rows, id, base, args, filterConditions).Ok?
    ensures var window := Take(Ordered(rows, id, base, plan), plan.limit);
            var nodes := Paginate(rows, id, base, args, filterConditions).value.nodes;
      && (plan.forward ==> nodes == window)
      && (!plan.forward ==> nodes == Reverse(window))
  {
    var ordered := Ordered(rows, id, base, plan);
    var fetched := Take(ordered, plan.limit + 1);
    var window := if |fetched| > plan.limit then fetched[..plan.limit] else fetched;
    assert window == Take(ordered, plan.limit);
    assert FetchPage(rows, id, base, plan).0 == if plan.forward then window else Reverse(window);
  }

  /** Without a primary order, the rows after the k-th row of a forward query are exactly
      the rows of the forward query whose `after` bound is that row's id. */
  lemma OrderedAfterRow<T(!new)>(rows: seq<T>, id: T -> int, base: BaseQuery<T>, p: QueryPlan, q: QueryPlan, k: nat)
    requires ValidRows(rows, id) && base.orderBy.None?
    requires p.forward && q.forward && p.beforeId.None? && q.beforeId.None?
    requires 0 < k <= |Ordered(rows, id, base, p)|
    requires q.afterId == Some(id(Ordered(rows, id, base, p)[k - 1]))
    ensures Ordered(rows, id, base, q) == Ordered(rows, id, base, p)[k..]
  {
    var s := Ordered(rows, id, base, p);
    var key := OrderKey(id, base.orderBy, true);
    var last := s[k - 1];
    assert last in s;
    forall x ensures x in Ordered(rows, id, base, q) <==> x in s && Before(key(last), key(x)) {
      if x in rows && Admits(x, id, base.where, q) {
        assert Admits(x, id, base.where, p);
      }
    }
    SortedSuffixAbove(s, Ordered(rows, id, base, q), key, k);
  }

  /** The elements of a strictly sorted sequence that come after its k-th element, in
      sorted order, are the sequence from position k on. */
  lemma SortedSuffixAbove<T>(s: seq<T>, t: seq<T>, key: T -> SortKey, k: nat)
    requires 0 < k <= |s|
    requires StrictlySorted(s, key) && StrictlySorted(t, key)
    requires forall x :: x in t <==> x in s && Before(key(s[k - 1]), key(x))
    ensures t == s[k..]
  {
    var tail := s[k..];
    assert StrictlySorted(tail, key) by {
      forall i, j | 0 <= i < j < |tail| ensures Before(key(tail[i]), key(tail[j])) {
        assert tail[i] == s[k + i] && tail[j] == s[k + j];
      }
    }
    forall x ensures x in tail <==> x in t {
      if x in tail {
        var j :| 0 <= j < |tail| && tail[j] == x;
        assert s[k + j] == x;
        assert Before(key(s[k - 1]), key(s[k + j]));
      }
      if x in t {
        var j :| 0 <= j < |s| && s[j] == x;
        if j < k {
          assert false;
        }
        assert tail[j - k] == x;
      }
    }
    StrictlySortedUnique(t, tail, key);
  }

  /** The plan of a forward page: the limit is the count, and the `after` bound does not
      depend on the count. */
  lemma ForwardPlan(n: int, n': int, after: Option<string>)
    requires n > 0 && n' > 0 && PlanQuery(ForwardArgs(n, after)).Ok?
    ensures var p := PlanQuery(ForwardArgs(n, after)).value;
      && p.forward && p.limit == n && p.beforeId.None?
      && PlanQuery(ForwardArgs(n', after)) == Ok(p.(limit := n'))
  {
  }

  /** The plan of a forward page after the cursor of a row. */
  lemma PlanAfterCursor(m: nat, rowId: int)
    requires m > 0 && rowId > 0
    ensures PlanQuery(ForwardArgs(m, Some(Cursor.EncodeCursor(rowId)))) == Ok(QueryPlan(m, true, Some(rowId), None))
  {
    Cursor.DecodeEncodeCursor(rowId);
  }

  /** Two takes that meet end to end make one take. */
  lemma TakeThenTake<T>(s: seq<T>, n: nat, m: nat)
    ensures Take(s, n) + Take(s[|Take(s, n)|..], m) == Take(s, n + m)
  {
  }

  /** The end cursor of a page is the cursor of its last node. */
  lemma EndCursorOfLastNode<T(!new)>(rows: seq<T>, id: T -> int, base: BaseQuery<T>, args: PaginationArgs,
                                     filterConditions: Option<T -> bool>)
    requires ValidRows(rows, id) && CountsNonNegative(args)
    requires Paginate(rows, id, base, args, filterConditions).Ok?
    ensures var c := Paginate(rows, id, base, args, filterConditions).value;
      && (c.pageInfo.endCursor.None? <==> |c.nodes| == 0)
      && (c.pageInfo.endCursor.Some? ==>
            c.pageInfo.endCursor == Some(Cursor.EncodeCursor(id(c.nodes[|c.nodes| - 1]))))
  {
    LastEdgeCursor(Paginate(rows, id, base, args, filterConditions).value, id);
  }

  lemma LastEdgeCursor<T>(c: Connection<T>, id: T -> int)
    requires EdgesMatch(c.edges, c.nodes, id) && BoundaryCursors(c.edges, c.pageInfo)
    ensures c.pageInfo.endCursor.None? <==> |c.nodes| == 0
    ensures c.pageInfo.endCursor.Some? ==>
      c.pageInfo.endCursor == Some(Cursor.EncodeCursor(id(c.nodes[|c.nodes| - 1])))
  {
    if |c.edges| > 0 {
      assert c.edges[|c.edges| - 1].cursor == Cursor.EncodeCursor(id(c.nodes[|c.nodes| - 1]));
    }
  }

  /** The rows of the query after the last row of its first n rows, taken m at a time,
      continue those n rows. */
  lemma ChainOrdered<T(!new)>(rows: seq<T>, id: T -> int, base: BaseQuery<T>, p: QueryPlan, n: nat, m: nat, total: nat)
    requires ValidRows(rows, id) && base.orderBy.None? && total == n + m
    requires p.forward && p.beforeId.None?
    requires |Take(Ordered(rows, id, base, p), n)| > 0
    ensures var s := Ordered(rows, id, base, p);
            var k := |Take(s, n)|;
            var q := QueryPlan(m, true, Some(id(s[k - 1])), None);
      Take(s, n) + Take(Ordered(rows, id, base, q), m) == Take(s, total)
  {
    var s := Ordered(rows, id, base, p);
    var k := |Take(s, n)|;
    OrderedAfterRow(rows, id, base, p, QueryPlan(m, true, Some(id(s[k - 1])), None), k);
    TakeThenTake(s, n, m);
  }

  /** The page after the cursor of a row: the first m rows whose id is above that row's. */
  lemma PageAfterRow<T(!new)>(rows: seq<T>, id: T -> int, base: BaseQuery<T>, m: nat, rowId: int,
                              filterConditions: Option<T -> bool>)
    requires ValidRows(rows, id) && m > 0 && rowId > 0
    ensures var r := Paginate(rows, id, base, ForwardArgs(m, Some(Cursor.EncodeCursor(rowId))), filterConditions);
      r.Ok? && r.value.nodes == Take(Ordered(rows, id, base, QueryPlan(m, true, Some(rowId), None)), m)
  {
    PlanAfterCursor(m, rowId);
    PageNodes(rows, id, base, ForwardArgs(m, Some(Cursor.EncodeCursor(rowId))), filterConditions,
              QueryPlan(m, true, Some(rowId), None));
  }

  /** The setting in which forward pages chain: valid rows, no primary order, a forward
      plan without a `before` bound. */
  predicate ChainSetting<T>(rows: seq<T>, id: T -> int, base: BaseQuery<T>, plan: QueryPlan) {
    ValidRows(rows, id) && base.orderBy.None? && plan.forward && plan.beforeId.None?
  }

  /** A page holding the first n of the ordered rows, whose end cursor is the cursor of its
      last node and is absent exactly when the page is empty. */
  ghost predicate FirstRowsPage<T>(c: Connection<T>, ordered: seq<T>, n: nat, id: T -> int) {
    && c.nodes == Take(ordered, n)
    && (c.pageInfo.endCursor.None? <==> |c.nodes| == 0)
    && (c.pageInfo.endCursor.Some? ==>
          c.pageInfo.endCursor == Some(Cursor.EncodeCursor(id(c.nodes[|c.nodes| - 1]))))
  }

  /** The page after the end cursor of a page of the first n rows continues them. */
  lemma NextPageContinues<T(!new)>(rows: seq<T>, id: T -> int, base: BaseQuery<T>, plan: QueryPlan,
                                   n: nat, m: nat, total: nat, filterConditions: Option<T -> bool>,
                                   first: Connection<T>)
    requires ChainSetting(rows, id, base, plan)
    requires m > 0 && total == n + m
    requires FirstRowsPage(first, Ordered(rows, id, base, plan), n, id) && first.pageInfo.endCursor.Some?
    ensures var next := Paginate(rows, id, base, ForwardArgs(m, first.pageInfo.endCursor), filterConditions);
      && next.Ok?
      && first.nodes + next.value.nodes == Take(Ordered(rows, id, base, plan), total)
  {
    var s := Ordered(rows, id, base, plan);
    var k := |first.nodes|;
    assert first.nodes[k - 1] == s[k - 1] && s[k - 1] in s;
    PageAfterRow(rows, id, base, m, id(s[k - 1]), filterConditions);
    ChainOrdered(rows, id, base, plan, n, m, total);
  }

  /** Following `endCursor`: without a primary order, a forward page of n rows followed by
      the forward page of m rows after its end cursor holds exactly the rows of one forward
      page of n + m rows, with no row skipped or repeated. When the first page is empty it
      has no end cursor, and then the page of n + m rows is empty as well. */
  lemma {:induction false} ForwardPagesChain<T(!new)>(rows: seq<T>, id: T -> int, base: BaseQuery<T>,
                                                       after: Option<string>, n: nat, m: nat, total: nat,
                                                       filterConditions: Option<T -> bool>, plan: QueryPlan)
    requires ValidRows(rows, id) && base.orderBy.None?
    requires n > 0 && m > 0 && total == n + m
    requires PlanQuery(ForwardArgs(n, after)) == Ok(plan)
    ensures var first := Paginate(rows, id, base, ForwardArgs(n, after), filterConditions);
            var whole := Paginate(rows, id, base, ForwardArgs(total, after), filterConditions);
            var next := Paginate(rows, id, base, ForwardArgs(m, first.value.pageInfo.endCursor), filterConditions);
      && first.Ok? && whole.Ok?
      && (first.value.pageInfo.endCursor.None? ==> whole.value.nodes == [])
      && (first.value.pageInfo.endCursor.Some? ==> next.Ok? && first.value.nodes + next.value.nodes == whole.value.nodes)
  {
    EmptyFirstPage(rows, id, base, after, n, total, filterConditions, plan);
    NonEmptyFirstPage(rows, id, base, after, n, m, total, filterConditions, plan);
  }

  lemma EmptyFirstPage<T(!new)>(rows: seq<T>, id: T -> int, base: BaseQuery<T>, after: Option<string>,
                                n: nat, total: nat, filterConditions: Option<T -> bool>, plan: QueryPlan)
    requires ValidRows(rows, id) && n > 0 && total >= n
    requires PlanQuery(ForwardArgs(n, after)) == Ok(plan)
    ensures var first := Paginate(rows, id, base, ForwardArgs(n, after), filterConditions);
            var whole := Paginate(rows, id, base, ForwardArgs(total, after), filterConditions);
      && first.Ok? && whole.Ok?
      && (first.value.pageInfo.endCursor.None? ==> whole.value.nodes == [])
  {
    FirstPageFacts(rows, id, base, after, n, filterConditions, plan);
    LongerForwardPage(rows, id, base, after, n, total, filterConditions, plan);
    if Paginate(rows, id, base, ForwardArgs(n, after), filterConditions).value.pageInfo.endCursor.None? {
      TakeOfEmpty(Ordered(rows, id, base, plan), n, total);
    }
  }

  lemma NonEmptyFirstPage<T(!new)>(rows: seq<T>, id: T -> int, base: BaseQuery<T>, after: Option<string>,
                                   n: nat, m: nat, total: nat, filterConditions: Option<T -> bool>, plan: QueryPlan)
    requires ValidRows(rows, id) && base.orderBy.None?
    requires n > 0 && m > 0 && total == n + m
    requires PlanQuery(ForwardArgs(n, after)) == Ok(plan)
    ensures var first := Paginate(rows, id, base, ForwardArgs(n, after), filterConditions);
            var whole := Paginate(rows, id, base, ForwardArgs(total, after), filterConditions);
            var next := Paginate(rows, id, base, ForwardArgs(m, first.value.pageInfo.endCursor), filterConditions);
      first.Ok? && whole.Ok? && first.value.pageInfo.endCursor.Some? ==>
        next.Ok? && first.value.nodes + next.value.nodes == whole.value.nodes
  {
    FirstPageFacts(rows, id, base, after, n, filterConditions, plan);
    LongerForwardPage(rows, id, base, after, n, total, filterConditions, plan);
    var first := Paginate(rows, id, base, ForwardArgs(n, after), filterConditions).value;
    if first.pageInfo.endCursor.Some? {
      NextPageContinues(rows, id, base, plan, n, m, total, filterConditions, first);
    }
  }

  /** A forward page of n rows: the first n rows of its plan's order, ending at the cursor
      of its last node when it has one. */
  lemma FirstPageFacts<T(!new)>(rows: seq<T>, id: T -> int, base: BaseQuery<T>, after: Option<string>,
                                n: nat, filterConditions: Option<T -> bool>, plan: QueryPlan)
    requires ValidRows(rows, id) && n > 0
    requires PlanQuery(ForwardArgs(n, after)) == Ok(plan)
    ensures plan.forward && plan.beforeId.None? && plan.limit == n
    ensures var r := Paginate(rows, id, base, ForwardArgs(n, after), filterConditions);
      r.Ok? && FirstRowsPage(r.value, Ordered(rows, id, base, plan), n, id)
  {
    ForwardPlan(n, n, after);
    PageNodes(rows, id, base, ForwardArgs(n, after), filterConditions, plan);
    EndCursorOfLastNode(rows, id, base, ForwardArgs(n, after), filterConditions);
  }

  /** A forward page with the same `after` and another count reads the same ordered rows. */
  lemma LongerForwardPage<T(!new)>(rows: seq<T>, id: T -> int, base: BaseQuery<T>, after: Option<string>,
                                   n: int, n': int, filterConditions: Option<T -> bool>, plan: QueryPlan)
    requires ValidRows(rows, id) && n > 0 && n' > 0 && PlanQuery(ForwardArgs(n, after)) == Ok(plan)
    ensures var r := Paginate(rows, id, base, ForwardArgs(n', after), filterConditions);
      r.Ok? && r.value.nodes == Take(Ordered(rows, id, base, plan), n')
  {
    ForwardPlan(n, n', after);
    PageNodes(rows, id, base, ForwardArgs(n', after), filterConditions, plan.(limit := n'));
    OrderedIgnoresLimit(rows, id, base, plan, plan.(limit := n'));
  }

  lemma TakeOfEmpty<T>(s: seq<T>, n: nat, n': int)
    requires n' >= 0
    requires n > 0 && |Take(s, n)| == 0
    ensures Take(s, n') == []
  {
  }

  /** The descending order of a backward query, turned around, is the ascending order of the
      forward query with the same bounds. */
  lemma ReversedDescendingIsAscending<T(!new)>(rows: seq<T>, id: T -> int, base: BaseQuery<T>, plan: QueryPlan)
    requires ValidRows(rows, id) && base.orderBy.None? && !plan.forward
    ensures Reverse(Ordered(rows, id, base, plan)) == Ordered(rows, id, base, plan.(forward := true))
  {
    var up := OrderKey(id, base.orderBy, true);
    var down := OrderKey(id, base.orderBy, false);
    forall x, y | Before(down(x), down(y)) ensures Before(up(y), up(x)) { }
    ReverseOfFlippedOrder(Ordered(rows, id, base, plan), Ordered(rows, id, base, plan.(forward := true)), down, up);
  }

  /** A strictly sorted sequence turned around is sorted by a key that reverses its order;
      so it is the sequence sorted by that key with the same elements. */
  lemma ReverseOfFlippedOrder<T>(descending: seq<T>, ascending: seq<T>, down: T -> SortKey, up: T -> SortKey)
    requires StrictlySorted(descending, down) && StrictlySorted(ascending, up)
    requires forall x, y :: Before(down(x), down(y)) ==> Before(up(y), up(x))
    requires forall x :: x in descending <==> x in ascending
    ensures Reverse(descending) == ascending
  {
    var r := Reverse(descending);
    assert StrictlySorted(r, up) by {
      forall i, j | 0 <= i < j < |r| ensures Before(up(r[i]), up(r[j])) {
        var a, b := |descending| - 1 - j, |descending| - 1 - i;
        assert Before(down(descending[a]), down(descending[b]));
      }
    }
    ReverseSameElements(descending);
    forall x | x in descending ensures x in r {
      var k :| 0 <= k < |descending| && descending[k] == x;
      assert r[|descending| - 1 - k] == x;
    }
    StrictlySortedUnique(r, ascending, up);
  }

  /** The first k rows of a sequence, turned around, are the last k rows of the sequence
      turned around. */
  lemma ReverseOfPrefix<T>(s: seq<T>, k: nat)
    requires k <= |s|
    ensures Reverse(s[..k]) == Reverse(s)[|s| - k..]
  {
    var a, b := Reverse(s[..k]), Reverse(s)[|s| - k..];
    forall i | 0 <= i < k ensures a[i] == b[i] {
      assert a[i] == s[..k][k - 1 - i];
      assert b[i] == Reverse(s)[|s| - k + i];
    }
  }

  /** Without a primary order, a backward page is the tail of the ascending order: the last
      `limit` rows, or all of them, of the forward query with the same bounds. */
  lemma BackwardPageIsTail<T(!new)>(rows: seq<T>, id: T -> int, base: BaseQuery<T>, args: PaginationArgs,
                                    filterConditions: Option<T -> bool>, plan: QueryPlan)
    requires ValidRows(rows, id) && base.orderBy.None?
    requires CountsNonNegative(args) && PlanQuery(args) == Ok(plan) && !plan.forward
    ensures Paginate(rows, id, base, args, filterConditions).Ok?
    ensures var ascending := Ordered(rows, id, base, plan.(forward := true));
            var nodes := Paginate(rows, id, base, args, filterConditions).value.nodes;
      && |nodes| <= |ascending|
      && nodes == ascending[|ascending| - |nodes|..]
  {
    PageNodes(rows, id, base, args, filterConditions, plan);
    ReversedWindowIsTail(rows, id, base, plan);
  }

  /** The first `limit` rows of a descending query, turned around, end the ascending order. */
  lemma ReversedWindowIsTail<T(!new)>(rows: seq<T>, id: T -> int, base: BaseQuery<T>, plan: QueryPlan)
    requires ValidRows(rows, id) && base.orderBy.None? && !plan.forward
    ensures var ascending := Ordered(rows, id, base, plan.(forward := true));
            var nodes := Reverse(Take(Ordered(rows, id, base, plan), plan.limit));
      && |nodes| <= |ascending|
      && nodes == ascending[|ascending| - |nodes|..]
  {
    ReversedDescendingIsAscending(rows, id, base, plan);
    TailOfReverse(Reverse(Take(Ordered(rows, id, base, plan), plan.limit)), Ordered(rows, id, base, plan),
                  Ordered(rows, id, base, plan.(forward := true)), plan.limit);
  }

  lemma TailOfReverse<T>(nodes: seq<T>, descending: seq<T>, ascending: seq<T>, limit: nat)
    requires nodes == Reverse(Take(descending, limit)) && ascending == Reverse(descending)
    ensures |nodes| <= |ascending| && nodes == ascending[|ascending| - |nodes|..]
  {
    ReverseOfPrefix(descending, |Take(descending, limit)|);
  }

  /** Every edge cursor decodes to the id of its node, so any edge can be passed back as
      `after` or `before`. */
  lemma EdgeCursorsDecode<T(!new)>(rows: seq<T>, id: T -> int, base: BaseQuery<T>, args: PaginationArgs,
                                   filterConditions: Option<T -> bool>)
    requires ValidRows(rows, id) && CountsNonNegative(args)
    ensures var r := Paginate(rows, id, base, args, filterConditions);
      r.Ok? ==> forall i :: 0 <= i < |r.value.edges| ==>
        Cursor.DecodeCursor(r.value.edges[i].cursor) == Ok(id(r.value.nodes[i]))
  {
    var r := Paginate(rows, id, base, args, filterConditions);
    if r.Ok? {
      var c := r.value;
      forall i | 0 <= i < |c.edges| ensures Cursor.DecodeCursor(c.edges[i].cursor) == Ok(id(c.nodes[i])) {
        assert c.nodes[i] in c.nodes;
        Cursor.DecodeEncodeCursor(id(c.nodes[i]));
      }
    }
  }

  /** A prefix of rows sorted by an ascending column with a descending id tie-break, turned
      around, runs in descending column order. */
  lemma ReversedPrefixDescends<T>(ordered: seq<T>, id: T -> int, rank: T -> int, n: nat)
    requires StrictlySorted(ordered, OrderKey(id, Some(PrimaryOrder(rank, ASC)), false))
    ensures var nodes := Reverse(Take(ordered, n));
      forall i, j :: 0 <= i < j < |nodes| ==> rank(nodes[i]) >= rank(nodes[j])
  {
    var window := Take(ordered, n);
    var nodes := Reverse(window);
    var key := OrderKey(id, Some(PrimaryOrder(rank, ASC)), false);
    forall i, j | 0 <= i < j < |nodes| ensures rank(nodes[i]) >= rank(nodes[j]) {
      var a, b := |window| - 1 - j, |window| - 1 - i;
      assert nodes[i] == window[b] == ordered[b];
      assert nodes[j] == window[a] == ordered[a];
      assert Before(key(ordered[a]), key(ordered[b]));
    }
  }

  /** With a primary order, the direction of the primary column is not flipped for a backward
      page, and the page is turned around after the fetch: a backward page over an ascending
      column comes out in descending column order. */
  lemma BackwardPrimaryOrderDescends<T(!new)>(rows: seq<T>, id: T -> int, rank: T -> int, where: Option<T -> bool>,
                                              args: PaginationArgs, filterConditions: Option<T -> bool>, plan: QueryPlan)
    requires ValidRows(rows, id)
    requires CountsNonNegative(args) && PlanQuery(args) == Ok(plan) && !plan.forward
    ensures var base := BaseQuery(where, Some(PrimaryOrder(rank, ASC)));
            var nodes := Paginate(rows, id, base, args, filterConditions).value.nodes;
      Paginate(rows, id, base, args, filterConditions).Ok? &&
      forall i, j :: 0 <= i < j < |nodes| ==> rank(nodes[i]) >= rank(nodes[j])
  {
    var base := BaseQuery(where, Some(PrimaryOrder(rank, ASC)));
    PageNodes(rows, id, base, args, filterConditions, plan);
    ReversedPrefixDescends(Ordered(rows, id, base, plan), id, rank, plan.limit);
  }

  /** The total count is that of the filtered table alone: two pages of the same query
      report the same total whatever their counts, cursors and direction. */
  lemma TotalCountIgnoresPaging<T(!new)>(rows: seq<T>, id: T -> int, base: BaseQuery<T>, a: PaginationArgs,
                                         b: PaginationArgs, filterConditions: Option<T -> bool>)
    requires ValidRows(rows, id) && CountsNonNegative(a) && CountsNonNegative(b)
    requires Paginate(rows, id, base, a, filterConditions).Ok?
    requires Paginate(rows, id, base, b, filterConditions).Ok?
    ensures Paginate(rows, id, base, a, filterConditions).value.totalCount
         == Paginate(rows, id, base, b, filterConditions).value.totalCount
         == |Filtered(rows, filterConditions)|
  {
  }
}
