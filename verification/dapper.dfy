/** `MediaThemeRepositoryDapper`: the same SQL as the ADO.NET repository,
    sent through Dapper. It differs in what it binds and in how it reads
    "no row": `Active` goes to the database as given, a missing identity or
    a missing row reads as the default value, id 0, and the reorders have
    no rollback path of their own. */
module DapperRepository {
  import opened Values
  import opened Text
  import opened Themes
  import opened Listing
  import opened SqlStatements

  /** The tuple `QuerySingleOrDefaultAsync<(long, int)>` returns when no row
      matches. */
  const NoOrderRow := OrderRow(0, 0)

  /** `AddAsync`: stamps `Created` on the model, inserts the model's
      `Active` (a null stays null), `CreatedBy` and `Name`, and stores the
      scalar the INSERT outputs as the model's id. `issued` is that identity;
      when none comes back `ExecuteScalarAsync<long>` yields 0 and the model
      is returned with id 0. */
  function Add(t: Table, model: MediaTheme, now: Instant, issued: Option<int>): (s: Step<MediaTheme>)
    requires issued.Some? ==> Issuable(t, issued.value)
    ensures s.result == model.(id := issued.Coalesce(0), created := now)
    ensures issued.None? ==> s.table == t
    ensures issued.Some? ==>
              && s.table.Keys == t.Keys + {issued.value}
              && s.table[issued.value] == MediaTheme(issued.value, model.active, false,
                                                     now, model.createdBy, model.name, ColumnDefaultOrder)
    ensures Retains(t, s.table)
  {
    var stamped := model.(created := now);
    match issued
    case None => Step(t, stamped.(id := 0))
    case Some(id) =>
      Step(InsertRow(t, id, stamped.active, stamped.created, stamped.createdBy, stamped.name),
           stamped.(id := id))
  }

  /** `GetAllAsync()`: every live row, newest id first, mapped by column
      name, so the columns not selected keep their defaults. */
  function GetAll(t: Table): (r: seq<MediaTheme>)
    ensures |r| == |LiveIds(t)|
    ensures forall x :: x in r <==> Live(t, x.id) && x == Project(t[x.id])
    ensures IdsDescending(r)
  {
    var r := SelectLive(t);
    assert forall x: MediaTheme | Live(t, x.id) && x == Project(t[x.id]) :: x in r;
    r
  }

  /** `GetByIdAsync`: `QuerySingleOrDefaultAsync(...) ?? new MediaTheme()`;
      the id is the key, so at most one row matches. */
  function GetById(t: Table, id: int): (r: MediaTheme)
    ensures Live(t, id) ==> r == Project(t[id])
    ensures !Live(t, id) ==> r == Blank
  {
    SelectById(t, id).Coalesce(Blank)
  }

  /** `UpdateAsync`: writes the model's `Active` (a null stays null) and
      `Name` into the live row with the model's id. */
  function Update(t: Table, model: MediaTheme): (s: Step<bool>)
    ensures s.result <==> Live(t, model.id)
    ensures s.result ==> s.table == t[model.id := t[model.id].(active := model.active, name := model.name)]
    ensures !s.result ==> s.table == t
    ensures Retains(t, s.table)
  {
    var affected := UpdateActiveName(t, model.id, model.active, model.name);
    Step(affected.table, affected.result > 0)
  }

  /** `DeleteAsync`: marks the live row deleted; false when there is none. */
  function Delete(t: Table, id: int): (s: Step<bool>)
    ensures s.result <==> Live(t, id)
    ensures s.result ==> s.table == t[id := t[id].(isDeleted := true)]
    ensures !s.result ==> s.table == t
    ensures Retains(t, s.table)
  {
    var affected := SoftDelete(t, id);
    Step(affected.table, affected.result > 0)
  }

  /** `GetAllAsync(pageIndex, pageSize, searchField, searchQuery, sortOrder,
      parentIdentifier)`: in-memory filter and page over `GetAllAsync()`;
      `sortOrder` is not read. */
  function GetPage(t: Table, pageIndex: Int32, pageSize: Int32,
                   searchQuery: Option<String>, sortOrder: String): (r: ArticleSet)
    ensures r.totalCount == |MemoryMatchIds(t, searchQuery)|
    ensures |r.items| <= if pageSize > 0 then pageSize else 0
    ensures IdsDescending(r.items)
    ensures forall x | x in r.items :: Live(t, x.id) && MemoryMatch(searchQuery, t[x.id]) && x == Project(t[x.id])
    ensures r.items == SkipTake(ProjectRows(t, IntSets.Descending(MemoryMatchIds(t, searchQuery))),
                                Wrap32(pageIndex * pageSize), pageSize)
  {
    SearchSelectsMatches(t, searchQuery);
    var rows := ProjectRows(t, IntSets.Descending(MemoryMatchIds(t, searchQuery)));
    NewestFirstMembers(t, MemoryMatchIds(t, searchQuery));
    SkipTakeWithin(rows, Wrap32(pageIndex * pageSize), pageSize);
    MemoryPage(Search(GetAll(t), searchQuery), pageIndex, pageSize)
  }

  /** `GetAllAsync(FilterOptions)`: the per-row blank test filters alike. */
  function GetPageWithOptions(t: Table, options: FilterOptions): (r: ArticleSet)
    ensures forall sortOrder :: r == GetPage(t, options.pageIndex, options.pageSize, options.searchQuery, sortOrder)
  {
    SearchIsWhere(GetAll(t), options.searchQuery);
    MemoryPage(Where(GetAll(t), options.searchQuery), options.pageIndex, options.pageSize)
  }

  /** The shared body of `MoveUpAsync` and `MoveDownAsync`. A missing row
      reads as `NoOrderRow`, and "no row" means `Id == 0`, so a live
      row whose id is 0 is treated as absent, both as the target and as the
      neighbour. */
  function Move(t: Table, id: int, dir: Direction, tie: nat): (s: Step<bool>)
    ensures s.result <==>
              && id != 0 && Live(t, id) && Side(t, t[id].displayOrder, dir) != {}
              && Pick(t, t[id].displayOrder, dir, tie) != 0
    ensures !s.result ==> s.table == t
    ensures s.result ==> exists n :: n != 0 && IsNearest(t, t[id].displayOrder, dir, n) && s.table == Swap(t, id, n)
    ensures id != 0 && Live(t, id) && Side(t, t[id].displayOrder, dir) != {} && !Live(t, 0) ==> s.result
  {
    var current := SelectOrderRow(t, id).Coalesce(NoOrderRow);
    if current.id == 0 then Step(t, false)
    else
      var other := SelectNeighbour(t, current.displayOrder, dir, tie).Coalesce(NoOrderRow);
      if other.id == 0 then Step(t, false)
      else Step(SwapOrders(t, current, other), true)
  }

  /** `MoveUpAsync`: as the ADO.NET version, but with the id-0 test for
      "no row". */
  function MoveUp(t: Table, id: int, tie: nat): (s: Step<bool>)
    ensures s.result <==>
              && id != 0 && Live(t, id) && Side(t, t[id].displayOrder, Up) != {}
              && Pick(t, t[id].displayOrder, Up, tie) != 0
    ensures !s.result ==> s.table == t
    ensures s.result ==> exists n :: n != 0 && IsNearest(t, t[id].displayOrder, Up, n) && s.table == Swap(t, id, n)
  {
    Move(t, id, Up, tie)
  }

  /** `MoveDownAsync`: the mirror image of `MoveUp`. */
  function MoveDown(t: Table, id: int, tie: nat): (s: Step<bool>)
    ensures s.result <==>
              && id != 0 && Live(t, id) && Side(t, t[id].displayOrder, Down) != {}
              && Pick(t, t[id].displayOrder, Down, tie) != 0
    ensures !s.result ==> s.table == t
    ensures s.result ==> exists n :: n != 0 && IsNearest(t, t[id].displayOrder, Down, n) && s.table == Swap(t, id, n)
  {
    Move(t, id, Down, tie)
  }
}
