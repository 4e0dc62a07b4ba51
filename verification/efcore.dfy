/** `MediaThemeRepository`, the Entity Framework Core repository: every
    operation is one atomic step on the table. The database evaluates the
    LINQ filters and sorts, so name comparisons use the column's collation. */
module EfCoreRepository {
  import opened Values
  import opened Text
  import opened Themes
  import opened Listing

  /** `AddAsyncDefault`: stamps the creation time, clears the deleted flag
      and inserts the model with the display order it carries. */
  function AddDefault(t: Table, model: MediaTheme, now: Instant, newId: int): (s: Step<MediaTheme>)
    requires Issuable(t, newId)
    ensures s.result == model.(id := newId, created := now, isDeleted := false)
    ensures s.table.Keys == t.Keys + {newId} && s.table[newId] == s.result
    ensures forall k | k in t :: s.table[k] == t[k]
    ensures Retains(t, s.table)
  {
    var row := model.(id := newId, created := now, isDeleted := false);
    Step(t[newId := row], row)
  }

  /** `AddAsync` as written: stamps the creation time, clears the deleted
      flag and places the row after the live rows, `DisplayOrder = max + 1`
      computed in unchecked 32-bit arithmetic. The row the ORM inserts is the
      model object itself, which is also returned. */
  function Add(t: Table, model: MediaTheme, now: Instant, newId: int): (s: Step<MediaTheme>)
    requires Issuable(t, newId)
    ensures s.table == t[newId := s.result]
    ensures s.result == model.(id := newId, created := now, isDeleted := false,
                               displayOrder := s.result.displayOrder)
    ensures LiveIds(t) == {} ==> s.result.displayOrder == 1
    ensures (forall k | Live(t, k) :: t[k].displayOrder < Int32Max) ==>
              (forall k | Live(t, k) :: t[k].displayOrder < s.result.displayOrder)
              && (LiveIds(t) != {} ==> exists k :: Live(t, k) && s.result.displayOrder == t[k].displayOrder + 1)
    ensures (exists k :: Live(t, k) && t[k].displayOrder == Int32Max) ==> s.result.displayOrder == Int32Min
    ensures Retains(t, s.table)
  {
    var max := MaxLiveOrder(t).Coalesce(0);
    var row := model.(id := newId, created := now, isDeleted := false, displayOrder := Wrap32(max + 1));
    Step(t[newId := row], row)
  }

  /** `AddAsync` with the increment checked (`checked(max + 1)`): when a
      live row already holds `int.MaxValue` the call fails and inserts
      nothing, so a new row always sorts after every live row. */
  function AddChecked(t: Table, model: MediaTheme, now: Instant, newId: int): (s: Step<Result<MediaTheme>>)
    requires Issuable(t, newId)
    ensures s.result.Err? <==> exists k :: Live(t, k) && t[k].displayOrder == Int32Max
    ensures s.result.Err? ==> s.table == t && s.result.error == OrderOverflow
    ensures s.result.Ok? ==>
              && s.table == t[newId := s.result.value]
              && s.result.value == model.(id := newId, created := now, isDeleted := false,
                                          displayOrder := s.result.value.displayOrder)
              && (forall k | Live(t, k) :: t[k].displayOrder < s.result.value.displayOrder)
              && (LiveIds(t) == {} ==> s.result.value.displayOrder == 1)
              && (LiveIds(t) != {} ==> exists k :: Live(t, k) && s.result.value.displayOrder == t[k].displayOrder + 1)
    ensures Retains(t, s.table)
  {
    var max := MaxLiveOrder(t).Coalesce(0);
    if max == Int32Max then Step(t, Err(OrderOverflow))
    else
      var row := model.(id := newId, created := now, isDeleted := false, displayOrder := max + 1);
      Step(t[newId := row], Ok(row))
  }

  /** `GetAllAsync()`: the live rows ordered by `DisplayOrder`; rows with
      equal orders come in whatever order the database returns them. */
  function GetAll(t: Table): (r: seq<MediaTheme>)
    ensures multiset(r) == multiset(LiveRows(t))
    ensures forall x :: x in r <==> Live(t, x.id) && x == t[x.id]
    ensures |r| == |LiveIds(t)|
    ensures forall i, j | 0 <= i < j < |r| :: r[i].displayOrder <= r[j].displayOrder
  {
    var r := Sort(Ordinal, ByDisplayOrder, LiveRows(t));
    assert |r| == |multiset(r)| == |multiset(LiveRows(t))| == |LiveRows(t)|;
    assert forall x :: x in r <==> x in multiset(LiveRows(t));
    r
  }

  /** `GetByIdAsync`: the live row with this id, else `new MediaTheme()`. */
  function GetById(t: Table, id: int): (r: MediaTheme)
    ensures Live(t, id) ==> r == t[id]
    ensures !Live(t, id) ==> r == Blank
  {
    if Live(t, id) then t[id] else Blank
  }

  /** `UpdateAsync`: attaches the model as modified, so the UPDATE writes
      every column of the row with the model's id, the deleted flag and the
      display order included, and has no soft-delete filter. When no row has
      that id the UPDATE touches nothing and `SaveChangesAsync` throws. */
  function Update(t: Table, model: MediaTheme): (s: Step<Result<bool>>)
    ensures model.id in t ==> s.result == Ok(true) && s.table == t[model.id := model]
    ensures model.id !in t ==> s.result == Err(ConcurrencyConflict) && s.table == t
    ensures s.table.Keys == t.Keys
  {
    if model.id in t then Step(t[model.id := model], Ok(true))
    else Step(t, Err(ConcurrencyConflict))
  }

  /** `DeleteAsync`: `FindAsync` ignores the deleted flag, so an absent or
      already deleted row yields false; otherwise the flag is set. */
  function Delete(t: Table, id: int): (s: Step<bool>)
    ensures s.result <==> Live(t, id)
    ensures s.result ==> s.table == t[id := t[id].(isDeleted := true)]
    ensures !s.result ==> s.table == t
    ensures Retains(t, s.table)
  {
    if id !in t || t[id].isDeleted then Step(t, false)
    else Step(t[id := t[id].(isDeleted := true)], true)
  }

  /** The search filter the database applies: an empty or null query keeps
      every row; otherwise the name must be non-null and contain the query
      under the column's collation. */
  predicate StoreMatch(col: Collation, q: Option<String>, x: MediaTheme) {
    IsNullOrEmpty(q) || (x.name.Some? && CollatedContains(col, x.name.value, q.value))
  }

  /** The ids the filtered query selects. */
  function StoreMatchIds(t: Table, col: Collation, q: Option<String>): (ids: set<int>)
    ensures forall k :: k in ids <==> Live(t, k) && StoreMatch(col, q, t[k])
  {
    set k | k in t && !t[k].isDeleted && StoreMatch(col, q, t[k])
  }

  /** The filtered, ordered query before paging. SQL Server promises no
      order among rows that tie on the sort key, so `arrival` stands for the
      order in which the engine meets the matching rows (entries that do not
      match are skipped, unlisted rows follow by id); `QueryCovers` shows
      that every sorted listing of the matching rows is one of its results. */
  function Query(t: Table, col: Collation, q: Option<String>, key: SortKey, arrival: seq<int>): (r: seq<MediaTheme>)
    ensures Sorted(col, key, r)
    ensures |r| == |StoreMatchIds(t, col, q)|
    ensures forall x :: x in r <==> Live(t, x.id) && x == t[x.id] && StoreMatch(col, q, x)
  {
    var ids := IntSets.Arrange(StoreMatchIds(t, col, q), arrival);
    var rows := RowsOf(t, ids);
    RowsOfMembers(t, ids);
    var r := Sort(col, key, rows);
    assert |r| == |multiset(r)| == |multiset(rows)| == |rows|;
    assert forall x :: x in r <==> x in multiset(rows);
    r
  }

  /** Every sorted list that names each matching live row once is what the
      query returns for some arrival order: the model excludes none of the
      orders the engine may give rows that tie. */
  lemma QueryCovers(t: Table, col: Collation, q: Option<String>, key: SortKey, p: seq<MediaTheme>)
    requires Sorted(col, key, p)
    requires forall i, j | 0 <= i < j < |p| :: p[i].id != p[j].id
    requires forall x :: x in p <==> Live(t, x.id) && x == t[x.id] && StoreMatch(col, q, x)
    ensures Query(t, col, q, key, IdsOf(p)) == p
  {
    var ids := StoreMatchIds(t, col, q);
    var listed := IdsOf(p);
    forall i | 0 <= i < |listed| ensures listed[i] in ids {
      assert p[i] in p;
    }
    forall k | k in ids ensures k in listed {
      assert t[k] in p;
      var i :| 0 <= i < |p| && p[i] == t[k];
      assert listed[i] == k;
    }
    IntSets.ArrangeListing(ids, listed);
    var rows := RowsOf(t, listed);
    forall i | 0 <= i < |p| ensures rows[i] == p[i] {
      assert p[i] in p;
    }
    assert rows == p;
    SortSorted(col, key, p);
  }

  /** The OFFSET the query sends: `pageIndex * pageSize` in unchecked
      32-bit arithmetic. */
  function Offset(pageIndex: Int32, pageSize: Int32): Int32 {
    Wrap32(pageIndex * pageSize)
  }

  /** `GetAllAsync(pageIndex, pageSize, searchField, searchQuery, sortOrder,
      parentIdentifier)`: filter, sort, count, then `Skip`/`Take`, which the
      database runs as OFFSET/FETCH and refuses when either is negative.
      `searchField` and `parentIdentifier` are not read. Each request runs
      its own query, so two requests may order tied rows differently (their
      `arrival`s differ) and together repeat one row and skip another. */
  function GetPage(t: Table, col: Collation, pageIndex: Int32, pageSize: Int32,
                   searchQuery: Option<String>, sortOrder: String, arrival: seq<int>): (r: Result<ArticleSet>)
    ensures r.Ok? <==> Offset(pageIndex, pageSize) >= 0 && pageSize >= 0
    ensures r.Err? ==> r.error == InvalidPaging
    ensures r.Ok? ==> r.value.totalCount == |StoreMatchIds(t, col, searchQuery)|
    ensures r.Ok? ==> |r.value.items| <= pageSize
    ensures r.Ok? ==> Sorted(col, ParseSortOrder(sortOrder), r.value.items)
    ensures r.Ok? ==> forall x | x in r.value.items ::
                        Live(t, x.id) && x == t[x.id] && StoreMatch(col, searchQuery, x)
    ensures r.Ok? ==>
              r.value.items == SkipTake(Query(t, col, searchQuery, ParseSortOrder(sortOrder), arrival),
                                         Offset(pageIndex, pageSize), pageSize)
  {
    var query := Query(t, col, searchQuery, ParseSortOrder(sortOrder), arrival);
    var offset := Offset(pageIndex, pageSize);
    if offset < 0 || pageSize < 0 then Err(InvalidPaging)
    else
      SkipTakeWithin(query, offset, pageSize);
      Ok(ArticleSet(SkipTake(query, offset, pageSize), |query|))
  }

  /** `GetAllAsync(FilterOptions)`: the same query, always ordered by
      `DisplayOrder`. */
  function GetPageWithOptions(t: Table, col: Collation, options: FilterOptions, arrival: seq<int>): (r: Result<ArticleSet>)
    ensures r == GetPage(t, col, options.pageIndex, options.pageSize, options.searchQuery, "DisplayOrder", arrival)
  {
    var query := Query(t, col, options.searchQuery, ByDisplayOrder, arrival);
    var offset := Offset(options.pageIndex, options.pageSize);
    if offset < 0 || options.pageSize < 0 then Err(InvalidPaging)
    else Ok(ArticleSet(SkipTake(query, offset, options.pageSize), |query|))
  }

  /** The shared body of `MoveUpAsync` and `MoveDownAsync`: find the live
      target, then the first live row beyond it in `dir`, then swap their
      display orders and save both rows. */
  function Move(t: Table, id: int, dir: Direction, tie: nat): (s: Step<bool>)
    ensures s.result <==> Live(t, id) && Side(t, t[id].displayOrder, dir) != {}
    ensures !s.result ==> s.table == t
    ensures s.result ==> exists n :: IsNearest(t, t[id].displayOrder, dir, n) && s.table == Swap(t, id, n)
  {
    if !Live(t, id) then Step(t, false)
    else
      var current := t[id];
      if Side(t, current.displayOrder, dir) == {} then Step(t, false)
      else
        var neighbour := Pick(t, current.displayOrder, dir, tie);
        Step(Swap(t, id, neighbour), true)
  }

  /** `MoveUpAsync`: swaps the live target with a live row of the greatest
      display order below its own (`IsNearest` towards `Up`); false, with
      nothing changed, when the target is missing or deleted or no live row
      lies above it. */
  function MoveUp(t: Table, id: int, tie: nat): (s: Step<bool>)
    ensures s.result <==> Live(t, id) && Side(t, t[id].displayOrder, Up) != {}
    ensures !s.result ==> s.table == t
    ensures s.result ==> exists n :: IsNearest(t, t[id].displayOrder, Up, n) && s.table == Swap(t, id, n)
  {
    Move(t, id, Up, tie)
  }

  /** `MoveDownAsync`: the mirror image of `MoveUp`, towards the least
      display order above the target's. */
  function MoveDown(t: Table, id: int, tie: nat): (s: Step<bool>)
    ensures s.result <==> Live(t, id) && Side(t, t[id].displayOrder, Down) != {}
    ensures !s.result ==> s.table == t
    ensures s.result ==> exists n :: IsNearest(t, t[id].displayOrder, Down, n) && s.table == Swap(t, id, n)
  {
    Move(t, id, Down, tie)
  }
}
