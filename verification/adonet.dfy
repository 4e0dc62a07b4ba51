/** `MediaThemeRepositoryAdoNet`: hand-written SQL over a plain connection.
    Reads return projected rows (see `SqlStatements.Project`), the paged
    queries filter and page in memory, and the reorders run their two
    UPDATEs in a transaction that a fault rolls back. */
module AdoNetRepository {
  import opened Values
  import opened Text
  import opened Themes
  import opened Listing
  import opened SqlStatements

  /** `AddAsync`: inserts with `Active ?? true`, the current time and the
      deleted flag cleared, and copies the identity the INSERT outputs into
      the model. `issued` is that identity, `None` when no id comes back,
      which the method reports as an error. The returned model keeps its own
      `Active` and `Created`: only its id changes. */
  function Add(t: Table, model: MediaTheme, now: Instant, issued: Option<int>): (s: Step<Result<MediaTheme>>)
    requires issued.Some? ==> Issuable(t, issued.value)
    ensures issued.None? ==> s.table == t && s.result == Err(NoIdReturned)
    ensures issued.Some? ==> s.result == Ok(model.(id := issued.value))
    ensures issued.Some? ==>
              && s.table.Keys == t.Keys + {issued.value}
              && s.table[issued.value] == MediaTheme(issued.value, Some(model.active.Coalesce(true)), false,
                                                     now, model.createdBy, model.name, ColumnDefaultOrder)
    ensures Retains(t, s.table)
  {
    match issued
    case None => Step(t, Err(NoIdReturned))
    case Some(id) =>
      Step(InsertRow(t, id, Some(model.active.Coalesce(true)), now, model.createdBy, model.name),
           Ok(model.(id := id)))
  }

  /** `GetAllAsync()`: every live row, newest id first, with only the
      selected columns filled in. */
  function GetAll(t: Table): (r: seq<MediaTheme>)
    ensures |r| == |LiveIds(t)|
    ensures forall x :: x in r <==> Live(t, x.id) && x == Project(t[x.id])
    ensures IdsDescending(r)
  {
    var r := SelectLive(t);
    assert forall x: MediaTheme | Live(t, x.id) && x == Project(t[x.id]) :: x in r;
    r
  }

  /** `GetByIdAsync`: the projected live row, else `new MediaTheme()`. */
  function GetById(t: Table, id: int): (r: MediaTheme)
    ensures Live(t, id) ==> r == Project(t[id])
    ensures !Live(t, id) ==> r == Blank
  {
    SelectById(t, id).Coalesce(Blank)
  }

  /** `UpdateAsync`: writes `Active ?? true` and `Name` into the live row
      with the model's id; true when a row was affected. */
  function Update(t: Table, model: MediaTheme): (s: Step<bool>)
    ensures s.result <==> Live(t, model.id)
    ensures s.result ==> s.table == t[model.id := t[model.id].(active := Some(model.active.Coalesce(true)), name := model.name)]
    ensures !s.result ==> s.table == t
    ensures Retains(t, s.table)
  {
    var affected := UpdateActiveName(t, model.id, Some(model.active.Coalesce(true)), model.name);
    Step(affected.table, affected.result > 0)
  }

  /** `DeleteAsync`: marks the live row deleted; false when there is none. */
  function Delete(t: Table, id: int): (s: Step<bool>)
    ensures s.result <==> Live(t, id)
    ensures s.result ==> s.table == t[id := t[id].(isDeleted := true)]
    ensures !s.result ==> s.table == t
    ensures Retains(t, s.table)
  {
    var affected := SoftDelete(t, id);
    Step(affected.table, affected.result > 0)
  }

  /** `GetAllAsync(pageIndex, pageSize, searchField, searchQuery, sortOrder,
      parentIdentifier)`: loads every live row, filters in memory and pages
      with `Skip(pageIndex * pageSize).Take(pageSize)`. `searchField`,
      `sortOrder` and `parentIdentifier` are not read, so the page is always
      newest first. */
  function GetPage(t: Table, pageIndex: Int32, pageSize: Int32,
                   searchQuery: Option<String>, sortOrder: String): (r: ArticleSet)
    ensures r.totalCount == |MemoryMatchIds(t, searchQuery)|
    ensures |r.items| <= if pageSize > 0 then pageSize else 0
    ensures IdsDescending(r.items)
    ensures forall x | x in r.items :: Live(t, x.id) && MemoryMatch(searchQuery, t[x.id]) && x == Project(t[x.id])
    ensures r.items == SkipTake(ProjectRows(t, IntSets.Descending(MemoryMatchIds(t, searchQuery))),
                                Wrap32(pageIndex * pageSize), pageSize)
  {
    SearchSelectsMatches(t, searchQuery);
    var rows := ProjectRows(t, IntSets.Descending(MemoryMatchIds(t, searchQuery)));
    NewestFirstMembers(t, MemoryMatchIds(t, searchQuery));
    SkipTakeWithin(rows, Wrap32(pageIndex * pageSize), pageSize);
    MemoryPage(Search(GetAll(t), searchQuery), pageIndex, pageSize)
  }

  /** `GetAllAsync(FilterOptions)`: the same load, filter and page, with the
      blank-query test made per row. */
  function GetPageWithOptions(t: Table, options: FilterOptions): (r: ArticleSet)
    ensures forall sortOrder :: r == GetPage(t, options.pageIndex, options.pageSize, options.searchQuery, sortOrder)
  {
    SearchIsWhere(GetAll(t), options.searchQuery);
    MemoryPage(Where(GetAll(t), options.searchQuery), options.pageIndex, options.pageSize)
  }

  /** The shared body of `MoveUpAsync` and `MoveDownAsync`: read the live
      target, read the first live row beyond it, then swap their orders in
      a transaction. `fault` stands for an exception inside the transaction,
      which rolls both UPDATEs back and returns false. */
  function Move(t: Table, id: int, dir: Direction, tie: nat, fault: bool): (s: Step<bool>)
    ensures s.result <==> !fault && Live(t, id) && Side(t, t[id].displayOrder, dir) != {}
    ensures !s.result ==> s.table == t
    ensures s.result ==> exists n :: IsNearest(t, t[id].displayOrder, dir, n) && s.table == Swap(t, id, n)
  {
    match SelectOrderRow(t, id)
    case None => Step(t, false)
    case Some(current) =>
      match SelectNeighbour(t, current.displayOrder, dir, tie)
      case None => Step(t, false)
      case Some(other) =>
        if fault then Step(t, false)
        else Step(SwapOrders(t, current, other), true)
  }

  /** `MoveUpAsync`: swaps with a live row of the greatest order below the
      target's; false, with nothing changed, when the target is missing or
      deleted, nothing lies above it, or the transaction faults. */
  function MoveUp(t: Table, id: int, tie: nat, fault: bool): (s: Step<bool>)
    ensures s.result <==> !fault && Live(t, id) && Side(t, t[id].displayOrder, Up) != {}
    ensures !s.result ==> s.table == t
    ensures s.result ==> exists n :: IsNearest(t, t[id].displayOrder, Up, n) && s.table == Swap(t, id, n)
  {
    Move(t, id, Up, tie, fault)
  }

  /** `MoveDownAsync`: the mirror image of `MoveUp`. */
  function MoveDown(t: Table, id: int, tie: nat, fault: bool): (s: Step<bool>)
    ensures s.result <==> !fault && Live(t, id) && Side(t, t[id].displayOrder, Down) != {}
    ensures !s.result ==> s.table == t
    ensures s.result ==> exists n :: IsNearest(t, t[id].displayOrder, Down, n) && s.table == Swap(t, id, n)
  {
    Move(t, id, Down, tie, fault)
  }
}
