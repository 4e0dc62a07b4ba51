/** The SQL statements that the ADO.NET and Dapper repositories send to the
    `MediaThemes` table. Both send the same text, so each statement is one
    function here, together with the in-memory search and paging that both
    run over the result of `GetAllAsync`. */
module SqlStatements {
  import opened Values
  import opened Text
  import opened Themes
  import opened Listing
  import IntSets

  /** The `DisplayOrder` a row receives when an INSERT leaves the column out.
      The table definition is not part of this model; the value assumed is
      0, the one the C# model defaults to. */
  const ColumnDefaultOrder: Int32 := 0

  /** A row as the SELECTs read it back: `Id, Active, Created, CreatedBy,
      Name`. The unread columns keep the defaults of `new MediaTheme()`, so
      `DisplayOrder` reads as 0 and `IsDeleted` as false. */
  function Project(row: MediaTheme): (p: MediaTheme)
    ensures p.id == row.id && p.active == row.active && p.created == row.created
    ensures p.createdBy == row.createdBy && p.name == row.name
    ensures p.displayOrder == 0 && !p.isDeleted
  {
    Blank.(id := row.id, active := row.active, created := row.created,
           createdBy := row.createdBy, name := row.name)
  }

  /** The projected rows `ids`, in the order given. */
  function ProjectRows(t: Table, ids: seq<int>): (r: seq<MediaTheme>)
    requires forall i | 0 <= i < |ids| :: ids[i] in t
    ensures |r| == |ids|
    ensures forall i | 0 <= i < |ids| :: r[i] == Project(t[ids[i]])
  {
    seq(|ids|, i requires 0 <= i < |ids| => Project(t[ids[i]]))
  }

  /** `SELECT Id, Active, Created, CreatedBy, Name FROM MediaThemes
      WHERE IsDeleted = 0 ORDER BY Id DESC`. */
  function SelectLive(t: Table): (r: seq<MediaTheme>)
    ensures |r| == |LiveIds(t)|
    ensures forall x :: x in r <==> Live(t, x.id) && x == Project(t[x.id])
    ensures IdsDescending(r)
  {
    NewestFirstMembers(t, LiveIds(t));
    ProjectRows(t, IntSets.Descending(LiveIds(t)))
  }

  /** `SELECT Id, Active, Created, CreatedBy, Name FROM MediaThemes
      WHERE Id = @Id AND IsDeleted = 0`. */
  function SelectById(t: Table, id: int): (r: Option<MediaTheme>)
    ensures r.Some? <==> Live(t, id)
    ensures r.Some? ==> r.value == Project(t[id])
  {
    if Live(t, id) then Some(Project(t[id])) else None
  }

  /** `INSERT INTO MediaThemes (Active, Created, CreatedBy, Name, IsDeleted)
      OUTPUT INSERTED.Id VALUES (@Active, @Created, @CreatedBy, @Name, 0)`,
      with the identity column issuing `id`. */
  function InsertRow(t: Table, id: int, active: Option<bool>, created: Instant,
                  createdBy: Option<String>, name: Option<String>): (t': Table)
    requires Issuable(t, id)
    ensures t'.Keys == t.Keys + {id}
    ensures t'[id] == MediaTheme(id, active, false, created, createdBy, name, ColumnDefaultOrder)
    ensures forall k | k in t :: t'[k] == t[k]
  {
    t[id := MediaTheme(id, active, false, created, createdBy, name, ColumnDefaultOrder)]
  }

  /** `UPDATE MediaThemes SET Active = @Active, Name = @Name
      WHERE Id = @Id AND IsDeleted = 0`; the result is the affected-row
      count. */
  function UpdateActiveName(t: Table, id: int, active: Option<bool>, name: Option<String>): (s: Step<nat>)
    ensures s.result == (if Live(t, id) then 1 else 0)
    ensures Live(t, id) ==> s.table == t[id := t[id].(active := active, name := name)]
    ensures !Live(t, id) ==> s.table == t
  {
    if Live(t, id) then Step(t[id := t[id].(active := active, name := name)], 1)
    else Step(t, 0)
  }

  /** `UPDATE MediaThemes SET IsDeleted = 1 WHERE Id = @Id AND IsDeleted = 0`. */
  function SoftDelete(t: Table, id: int): (s: Step<nat>)
    ensures s.result == (if Live(t, id) then 1 else 0)
    ensures Live(t, id) ==> s.table == t[id := t[id].(isDeleted := true)]
    ensures !Live(t, id) ==> s.table == t
  {
    if Live(t, id) then Step(t[id := t[id].(isDeleted := true)], 1)
    else Step(t, 0)
  }

  /** The two columns the reorder queries read. */
  datatype OrderRow = OrderRow(id: int, displayOrder: Int32)

  /** `SELECT Id, DisplayOrder FROM MediaThemes WHERE Id = @Id AND IsDeleted = 0`. */
  function SelectOrderRow(t: Table, id: int): (r: Option<OrderRow>)
    ensures r.Some? <==> Live(t, id)
    ensures r.Some? ==> r.value == OrderRow(id, t[id].displayOrder)
  {
    if Live(t, id) then Some(OrderRow(id, t[id].displayOrder)) else None
  }

  /** `SELECT TOP 1 Id, DisplayOrder FROM MediaThemes WHERE DisplayOrder < @o
      AND IsDeleted = 0 ORDER BY DisplayOrder DESC` for `Up`, and the `>` /
      `ASC` form for `Down`; `tie` stands for the engine's choice among
      rows of equal order. */
  function SelectNeighbour(t: Table, o: int, dir: Direction, tie: nat): (r: Option<OrderRow>)
    ensures r.None? <==> Side(t, o, dir) == {}
    ensures r.Some? ==> IsNearest(t, o, dir, r.value.id) && r.value.displayOrder == t[r.value.id].displayOrder
  {
    if Side(t, o, dir) == {} then None
    else
      var n := Pick(t, o, dir, tie);
      Some(OrderRow(n, t[n].displayOrder))
  }

  /** The two UPDATEs of a reorder transaction: the target takes the
      neighbour's order, then the neighbour takes the target's. */
  function SwapOrders(t: Table, current: OrderRow, other: OrderRow): (t': Table)
    requires current.id in t && other.id in t
    requires current.displayOrder == t[current.id].displayOrder
    requires other.displayOrder == t[other.id].displayOrder
    ensures t' == Swap(t, current.id, other.id)
  {
    SetOrder(SetOrder(t, current.id, other.displayOrder), other.id, current.displayOrder)
  }

  /** The in-memory search both SQL repositories apply to `GetAllAsync()`:
      a null or blank query keeps every row; otherwise the name must be
      non-null and contain the query (ordinal `string.Contains`). */
  predicate MemoryMatch(q: Option<String>, x: MediaTheme) {
    IsNullOrWhiteSpace(q) || (x.name.Some? && Contains(x.name.value, q.value))
  }

  function MemoryMatchIds(t: Table, q: Option<String>): (ids: set<int>)
    ensures forall k :: k in ids <==> Live(t, k) && MemoryMatch(q, t[k])
  {
    set k | k in t && !t[k].isDeleted && MemoryMatch(q, t[k])
  }

  /** `IsNullOrWhiteSpace(q) ? all : all.Where(m => m.Name != null &&
      m.Name.Contains(q))`. */
  function Search(all: seq<MediaTheme>, q: Option<String>): (r: seq<MediaTheme>)
    ensures forall x :: x in r <==> x in all && MemoryMatch(q, x)
    ensures IdsDescending(all) ==> IdsDescending(r)
  {
    if IsNullOrWhiteSpace(q) then all else KeepNamed(all, q.value)
  }

  /** `all.Where(m => IsNullOrWhiteSpace(q) || (m.Name != null &&
      m.Name.Contains(q)))`: the options overload tests the blank query per
      row instead of once. */
  function Where(all: seq<MediaTheme>, q: Option<String>): (r: seq<MediaTheme>)
    ensures |r| <= |all|
    ensures forall x :: x in r <==> x in all && MemoryMatch(q, x)
  {
    if |all| == 0 then []
    else if MemoryMatch(q, all[0]) then [all[0]] + Where(all[1..], q)
    else Where(all[1..], q)
  }

  /** Testing the blank query once or per row filters alike. */
  lemma {:induction false} SearchIsWhere(all: seq<MediaTheme>, q: Option<String>)
    ensures Search(all, q) == Where(all, q)
  {
    if |all| > 0 {
      SearchIsWhere(all[1..], q);
      assert all == [all[0]] + all[1..];
    }
  }

  /** Two newest-first lists holding the same rows are the same list. */
  lemma {:induction false} DescendingUnique(a: seq<MediaTheme>, b: seq<MediaTheme>)
    requires IdsDescending(a) && IdsDescending(b)
    requires forall x :: x in a <==> x in b
    ensures a == b
    decreases |a|
  {
    assert a != [] ==> a[0] in b;
    assert b != [] ==> b[0] in a;
    if a != [] && b != [] {
      HeadAndTail(a);
      HeadAndTail(b);
      assert a[0] == b[0];
      DescendingUnique(a[1..], b[1..]);
      assert a == [a[0]] + a[1..] && b == [b[0]] + b[1..];
    }
  }

  /** A row is among `ProjectRows(t, ids)` exactly when it is the
      projection of a listed row. */
  lemma ProjectRowsMembers(t: Table, ids: seq<int>)
    requires forall i | 0 <= i < |ids| :: ids[i] in t
    ensures forall x :: x in ProjectRows(t, ids) <==> x.id in ids && x == Project(t[x.id])
  {
    var rows := ProjectRows(t, ids);
    forall x ensures x in rows <==> x.id in ids && x == Project(t[x.id]) {
      if x in rows {
        var k :| 0 <= k < |rows| && rows[k] == x;
        assert x == Project(t[ids[k]]);
      }
      if x.id in ids && x == Project(t[x.id]) {
        var k := IntSets.IndexOf(ids, x.id);
        assert rows[k] == x;
      }
    }
  }

  /** The projected rows of `ids`, newest first, are exactly the projections
      of those rows, in strictly descending id order. */
  lemma NewestFirstMembers(t: Table, ids: set<int>)
    requires ids <= t.Keys
    ensures forall x :: x in ProjectRows(t, IntSets.Descending(ids)) <==> x.id in ids && x == Project(t[x.id])
    ensures IdsDescending(ProjectRows(t, IntSets.Descending(ids)))
  {
    ProjectRowsMembers(t, IntSets.Descending(ids));
  }

  /** Filtering the newest-first list in memory yields exactly the matching
      live rows, newest first: the rows a `WHERE` clause would select, in the
      order `ORDER BY Id DESC` would give. */
  lemma SearchSelectsMatches(t: Table, q: Option<String>)
    ensures Search(SelectLive(t), q) == ProjectRows(t, IntSets.Descending(MemoryMatchIds(t, q)))
  {
    var all := SelectLive(t);
    var lhs := Search(all, q);
    var rhs := ProjectRows(t, IntSets.Descending(MemoryMatchIds(t, q)));
    NewestFirstMembers(t, MemoryMatchIds(t, q));
    forall x ensures x in lhs <==> x in rhs {
      if x in all {
        var i :| 0 <= i < |all| && all[i] == x;
      }
    }
    DescendingUnique(lhs, rhs);
  }

  /** `filtered.Skip(pageIndex * pageSize).Take(pageSize)` with the count of
      `filtered`; the product wraps as unchecked 32-bit arithmetic. */
  function MemoryPage(filtered: seq<MediaTheme>, pageIndex: Int32, pageSize: Int32): (r: ArticleSet)
    ensures r.totalCount == |filtered|
    ensures |r.items| <= if pageSize > 0 then pageSize else 0
    ensures r.items == SkipTake(filtered, Wrap32(pageIndex * pageSize), pageSize)
  {
    ArticleSet(SkipTake(filtered, Wrap32(pageIndex * pageSize), pageSize), |filtered|)
  }
}
