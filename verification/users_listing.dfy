/** The `users` query (users.service.ts, findAll): how the email filter and the email sort
    are turned into the base query handed to keyset pagination. The database's ILIKE and
    the collation order of emails are parameters. */
module UsersListing {
  import opened Wrappers
  import opened UserEntity
  import opened Users
  import opened Pagination

  datatype UserFilterInput = UserFilterInput(email: Option<string>)

  datatype UserSortInput = UserSortInput(email: Option<SortOrder>)

  datatype UsersArgs = UsersArgs(page: PaginationArgs, filter: Option<UserFilterInput>, sort: Option<UserSortInput>)

  function UserId(u: User): int {
    u.id
  }

  /** `filter?.email` when it is truthy. */
  function EmailSearch(args: UsersArgs): (r: Option<string>)
    ensures r.Some? ==> r.value != ""
    ensures r.None? <==> args.filter.None? || args.filter.value.email.None? || args.filter.value.email.value == ""
  {
    match args.filter
    case Some(UserFilterInput(Some(text))) => if text != "" then Some(text) else None
    case _ => None
  }

  /** `entity.email ILIKE '%<text>%'`, given `ilike(value, pattern)`. The text is not
      escaped, so `%` and `_` in it act as wildcards. The same condition filters the
      rows and the total count. */
  function EmailFilter(args: UsersArgs, ilike: (string, string) -> bool): (f: Option<User -> bool>)
    ensures f.Some? <==> EmailSearch(args).Some?
    ensures f.Some? ==> forall u: User :: f.value(u) == ilike(u.email, "%" + EmailSearch(args).value + "%")
  {
    match EmailSearch(args)
    case None => None
    case Some(text) => Some((u: User) => ilike(u.email, "%" + text + "%"))
  }

  /** `orderBy('entity.email', sort.email)` followed by `addOrderBy('entity.id', 'ASC')`,
      given each email's rank in the collation. Pagination's own id ordering then takes
      the place of the id tie-break. */
  function EmailOrder(args: UsersArgs, collation: string -> int): (o: Option<PrimaryOrder<User>>)
    ensures o.Some? <==> args.sort.Some? && args.sort.value.email.Some?
    ensures o.Some? ==> o.value.order == args.sort.value.email.value
    ensures o.Some? ==> forall u: User :: o.value.rank(u) == collation(u.email)
  {
    match args.sort
    case Some(UserSortInput(Some(order))) => Some(PrimaryOrder((u: User) => collation(u.email), order))
    case _ => None
  }

  function UsersQuery(args: UsersArgs, ilike: (string, string) -> bool, collation: string -> int): BaseQuery<User> {
    BaseQuery(EmailFilter(args, ilike), EmailOrder(args, collation))
  }

  /** The rows at or above `from`, in id order. */
  function RowsFrom(s: Store, from: int): (rows: seq<User>)
    requires ValidStore(s)
    ensures forall i :: 0 <= i < |rows| ==> from <= rows[i].id
    ensures forall i, j :: 0 <= i < j < |rows| ==> rows[i].id < rows[j].id
    ensures forall u :: u in rows <==> u.id in s.users && from <= u.id && s.users[u.id] == u
    decreases s.nextId - from
  {
    if from >= s.nextId then []
    else
      var rest := RowsFrom(s, from + 1);
      if from in s.users then [s.users[from]] + rest else rest
  }

  /** The table as the rows pagination reads: every row once, ids positive and distinct. */
  function Rows(s: Store): (rows: seq<User>)
    requires ValidStore(s)
    ensures ValidRows(rows, UserId)
    ensures forall u :: u in rows <==> u.id in s.users && s.users[u.id] == u
  {
    RowsFrom(s, 1)
  }

  /** findAll: the page paginate builds over the user table with the email filter and
      sort; each node a row of the table that passes the email filter; ascending by id
      without an email sort; the total counts the rows the filter passes, whatever the
      page arguments. */
  function FindAll(s: Store, args: UsersArgs, ilike: (string, string) -> bool, collation: string -> int)
    : (r: Result<Connection<User>, PaginationError>)
    requires ValidStore(s) && CountsNonNegative(args.page)
    ensures r.Err? <==> PlanQuery(args.page).Err?
    ensures r.Err? ==> r.error == PlanQuery(args.page).error
    ensures r.Ok? ==> PageContract(Rows(s), UserId, UsersQuery(args, ilike, collation), args.page,
                                   EmailFilter(args, ilike), PlanQuery(args.page).value, r.value)
    ensures r.Ok? ==> forall u :: u in r.value.nodes ==>
      u.id in s.users && s.users[u.id] == u && PassesFilter(u, EmailFilter(args, ilike))
    ensures r.Ok? && EmailOrder(args, collation).None? ==> IdsAscending(r.value.nodes, UserId)
    ensures r.Ok? ==> r.value.totalCount == |Filtered(Rows(s), EmailFilter(args, ilike))|
  {
    Paginate(Rows(s), UserId, UsersQuery(args, ilike, collation), args.page, EmailFilter(args, ilike))
  }
}
