/** Laws that relate operations to each other: round trips, what the
    reorders preserve, where the three repositories agree and where they
    part, and concrete tables that show each difference. */
module RepositoryLaws {
  import opened Values
  import opened Text
  import opened Themes
  import opened Listing
  import opened SqlStatements
  import Ef = EfCoreRepository
  import Ado = AdoNetRepository
  import Dap = DapperRepository

  /** Exchanging the same two display orders twice restores the table. */
  lemma SwapTwice(t: Table, a: int, b: int)
    requires a in t && b in t
    ensures Swap(Swap(t, a, b), a, b) == t
  {
    var t2 := Swap(Swap(t, a, b), a, b);
    assert forall k | k in t :: t2[k] == t[k];
  }

  /** Under distinct orders a nearest neighbour is unique. */
  lemma NearestUnique(t: Table, o: int, dir: Direction, m: int, n: int)
    requires DistinctOrders(t)
    requires IsNearest(t, o, dir, m) && IsNearest(t, o, dir, n)
    ensures m == n
  {
    assert !Beyond(dir, t[m].displayOrder, t[n].displayOrder);
    assert !Beyond(dir, t[n].displayOrder, t[m].displayOrder);
  }

  /** After a row moves up past its neighbour `n`, `n` is the nearest row
      below it. */
  lemma {:induction false} UpSwapLeavesNeighbourBelow(t: Table, id: int, n: int)
    requires DistinctOrders(t) && Live(t, id)
    requires IsNearest(t, t[id].displayOrder, Up, n)
    ensures IsNearest(Swap(t, id, n), t[n].displayOrder, Down, n)
  {
    var o, p := t[id].displayOrder, t[n].displayOrder;
    NearestUpMeans(t, o, n);
    var t1 := Swap(t, id, n);
    forall k | Live(t1, k) && p < t1[k].displayOrder ensures o <= t1[k].displayOrder {
      if k != id && k != n {
        assert t1[k] == t[k] && Live(t, k);
      }
    }
    NearestDownMeans(t1, p, n);
  }

  /** After a row moves down past its neighbour `n`, `n` is the nearest row
      above it. */
  lemma {:induction false} DownSwapLeavesNeighbourAbove(t: Table, id: int, n: int)
    requires DistinctOrders(t) && Live(t, id)
    requires IsNearest(t, t[id].displayOrder, Down, n)
    ensures IsNearest(Swap(t, id, n), t[n].displayOrder, Up, n)
  {
    var o, p := t[id].displayOrder, t[n].displayOrder;
    NearestDownMeans(t, o, n);
    var t1 := Swap(t, id, n);
    forall k | Live(t1, k) && t1[k].displayOrder < p ensures t1[k].displayOrder <= o {
      if k != id && k != n {
        assert t1[k] == t[k] && Live(t, k);
      }
    }
    NearestUpMeans(t1, p, n);
  }

  /** When display orders are distinct the reorder has no choice to make:
      it swaps with the one nearest row. */
  lemma MoveTo(t: Table, id: int, dir: Direction, tie: nat, n: int)
    requires DistinctOrders(t) && Live(t, id)
    requires IsNearest(t, t[id].displayOrder, dir, n)
    ensures Ef.Move(t, id, dir, tie) == Step(Swap(t, id, n), true)
  {
    var s := Ef.Move(t, id, dir, tie);
    var m :| IsNearest(t, t[id].displayOrder, dir, m) && s.table == Swap(t, id, m);
    NearestUnique(t, t[id].displayOrder, dir, m, n);
  }

  /** Moving a row up and then down again restores the table when no two
      live rows share a display order, whatever row the engine picks. */
  lemma MoveUpThenDown(t: Table, id: int, tie: nat, tie': nat)
    requires DistinctOrders(t)
    requires Ef.MoveUp(t, id, tie).result
    ensures Ef.MoveDown(Ef.MoveUp(t, id, tie).table, id, tie') == Step(t, true)
  {
    var n :| IsNearest(t, t[id].displayOrder, Up, n) && Ef.MoveUp(t, id, tie).table == Swap(t, id, n);
    var t1 := Swap(t, id, n);
    UpSwapLeavesNeighbourBelow(t, id, n);
    SwapKeepsDistinct(t, id, n);
    MoveTo(t1, id, Down, tie', n);
    SwapTwice(t, id, n);
  }

  /** Moving a row down and then up again restores the table when no two
      live rows share a display order. */
  lemma MoveDownThenUp(t: Table, id: int, tie: nat, tie': nat)
    requires DistinctOrders(t)
    requires Ef.MoveDown(t, id, tie).result
    ensures Ef.MoveUp(Ef.MoveDown(t, id, tie).table, id, tie') == Step(t, true)
  {
    var n :| IsNearest(t, t[id].displayOrder, Down, n) && Ef.MoveDown(t, id, tie).table == Swap(t, id, n);
    var t1 := Swap(t, id, n);
    DownSwapLeavesNeighbourAbove(t, id, n);
    SwapKeepsDistinct(t, id, n);
    MoveTo(t1, id, Up, tie', n);
    SwapTwice(t, id, n);
  }

  /** A reorder permutes the live display orders, keeps them distinct when
      they were, and keeps the set of live rows. */
  lemma MovePreservesOrders(t: Table, id: int, dir: Direction, tie: nat)
    ensures LiveOrders(Ef.Move(t, id, dir, tie).table) == LiveOrders(t)
    ensures LiveIds(Ef.Move(t, id, dir, tie).table) == LiveIds(t)
    ensures DistinctOrders(t) ==> DistinctOrders(Ef.Move(t, id, dir, tie).table)
  {
    var s := Ef.Move(t, id, dir, tie);
    if s.result {
      var n :| IsNearest(t, t[id].displayOrder, dir, n) && s.table == Swap(t, id, n);
      SwapKeepsLiveOrders(t, id, n);
      SwapKeepsLiveIds(t, id, n);
      if DistinctOrders(t) {
        SwapKeepsDistinct(t, id, n);
      }
    }
  }

  /** The ADO.NET reorder likewise permutes the live display orders and
      keeps the set of live rows, faulted or not. */
  lemma AdoMovePreservesOrders(t: Table, id: int, dir: Direction, tie: nat, fault: bool)
    ensures LiveOrders(Ado.Move(t, id, dir, tie, fault).table) == LiveOrders(t)
    ensures LiveIds(Ado.Move(t, id, dir, tie, fault).table) == LiveIds(t)
  {
    var s := Ado.Move(t, id, dir, tie, fault);
    if s.result {
      var n :| IsNearest(t, t[id].displayOrder, dir, n) && s.table == Swap(t, id, n);
      SwapKeepsLiveOrders(t, id, n);
      SwapKeepsLiveIds(t, id, n);
    }
  }

  /** So does the Dapper reorder. */
  lemma DapperMovePreservesOrders(t: Table, id: int, dir: Direction, tie: nat)
    ensures LiveOrders(Dap.Move(t, id, dir, tie).table) == LiveOrders(t)
    ensures LiveIds(Dap.Move(t, id, dir, tie).table) == LiveIds(t)
  {
    var s := Dap.Move(t, id, dir, tie);
    if s.result {
      var n :| n != 0 && IsNearest(t, t[id].displayOrder, dir, n) && s.table == Swap(t, id, n);
      SwapKeepsLiveOrders(t, id, n);
      SwapKeepsLiveIds(t, id, n);
    }
  }

  /** The ADO.NET reorder, when its transaction does not fault, is the
      Entity Framework reorder. */
  lemma AdoMoveAgreesWithEf(t: Table, id: int, dir: Direction, tie: nat)
    ensures Ado.Move(t, id, dir, tie, false) == Ef.Move(t, id, dir, tie)
  {
    if Live(t, id) && Side(t, t[id].displayOrder, dir) != {} {
      assert SelectOrderRow(t, id) == Some(OrderRow(id, t[id].displayOrder));
    }
  }

  /** The Dapper reorder is the Entity Framework reorder as long as no live
      row has id 0, the value Dapper reads as "no row". */
  lemma DapperMoveAgreesWithEf(t: Table, id: int, dir: Direction, tie: nat)
    requires id != 0 && !Live(t, 0)
    ensures Dap.Move(t, id, dir, tie) == Ef.Move(t, id, dir, tie)
  {
    if Live(t, id) && Side(t, t[id].displayOrder, dir) != {} {
      var n := Pick(t, t[id].displayOrder, dir, tie);
      assert SelectNeighbour(t, t[id].displayOrder, dir, tie) == Some(OrderRow(n, t[n].displayOrder));
    }
  }

  /** A live row with id 0 shows the difference: Entity Framework moves it,
      Dapper reports that it does not exist. */
  lemma DapperSkipsIdZero()
    ensures var t: Table := map[0 := Blank.(displayOrder := 1), 1 := Blank.(id := 1, displayOrder := 2)];
            && Ef.MoveDown(t, 0, 0).result
            && !Dap.MoveDown(t, 0, 0).result
  {
    var t: Table := map[0 := Blank.(displayOrder := 1), 1 := Blank.(id := 1, displayOrder := 2)];
    assert 1 in Side(t, 1, Down);
  }

  /** The two SQL repositories read alike: Dapper's mapping by column name
      fills the same fields as the ADO.NET reader loop, and both page the
      same filtered list. */
  lemma SqlReadsAgree(t: Table, id: int, pageIndex: Int32, pageSize: Int32,
                      q: Option<String>, sortOrder: String, options: FilterOptions)
    ensures Dap.GetAll(t) == Ado.GetAll(t)
    ensures Dap.GetById(t, id) == Ado.GetById(t, id)
    ensures Dap.GetPage(t, pageIndex, pageSize, q, sortOrder) == Ado.GetPage(t, pageIndex, pageSize, q, sortOrder)
    ensures Dap.GetPageWithOptions(t, options) == Ado.GetPageWithOptions(t, options)
  {
  }

  /** The table of two live rows that tie on `DisplayOrder`. */
  function TiedPair(): (t: Table)
    ensures t.Keys == {1, 2} && Live(t, 1) && Live(t, 2)
    ensures t[1].displayOrder == t[2].displayOrder
  {
    map[1 := Blank.(id := 1), 2 := Blank.(id := 2)]
  }

  /** On the tied pair the query lists the rows in whichever order the
      engine meets them. */
  lemma TiedQuery(t: Table, a: int, b: int, p: seq<MediaTheme>)
    requires t == TiedPair() && a in t && b in t && a != b
    requires p == [t[a], t[b]]
    ensures Ef.Query(t, Ordinal, None, ByDisplayOrder, IdsOf(p)) == p
  {
    forall x ensures x in p <==> Live(t, x.id) && x == t[x.id] && Ef.StoreMatch(Ordinal, None, x) {
      if Live(t, x.id) && x == t[x.id] {
        assert x.id == a || x.id == b;
      }
    }
    Ef.QueryCovers(t, Ordinal, None, ByDisplayOrder, p);
  }

  /** One page of the tied pair, read through the query it pages. */
  lemma TiedPage(t: Table, pageIndex: Int32, arrival: seq<int>, q: seq<MediaTheme>)
    requires t == TiedPair() && 0 <= pageIndex <= 1
    requires Ef.Query(t, Ordinal, None, ByDisplayOrder, arrival) == q && |q| == 2
    ensures Ef.GetPage(t, Ordinal, pageIndex, 1, None, "DisplayOrder", arrival) == Ok(ArticleSet([q[pageIndex]], 2))
  {
    assert ParseSortOrder("DisplayOrder") == ByDisplayOrder;
    assert Ef.Offset(pageIndex, 1) == pageIndex;
    var r := Ef.GetPage(t, Ordinal, pageIndex, 1, None, "DisplayOrder", arrival);
    assert r.Ok?;
    assert r.value.totalCount == |q|;
    var page := SkipTake(q, pageIndex, 1);
    assert |page| == 1 && page[0] == q[pageIndex];
    assert r.value.items == page == [q[pageIndex]];
  }

  /** Two live rows that tie on `DisplayOrder`, read one per page: when the
      two requests meet the rows in different orders, the first row appears
      on both pages and the second on neither. */
  lemma EfPagesMayRepeat(t: Table, first: seq<int>, second: seq<int>)
    requires t == TiedPair() && first == [1, 2] && second == [2, 1]
    ensures Ef.GetPage(t, Ordinal, 0, 1, None, "DisplayOrder", first) == Ok(ArticleSet([t[1]], 2))
    ensures Ef.GetPage(t, Ordinal, 1, 1, None, "DisplayOrder", second) == Ok(ArticleSet([t[1]], 2))
  {
    assert IdsOf([t[1], t[2]]) == first && IdsOf([t[2], t[1]]) == second;
    TiedQuery(t, 1, 2, [t[1], t[2]]);
    TiedQuery(t, 2, 1, [t[2], t[1]]);
    TiedPage(t, 0, first, [t[1], t[2]]);
    TiedPage(t, 1, second, [t[2], t[1]]);
  }

  /** The three soft deletes coincide. */
  lemma DeletesAgree(t: Table, id: int)
    ensures Ado.Delete(t, id) == Ef.Delete(t, id)
    ensures Dap.Delete(t, id) == Ef.Delete(t, id)
  {
  }

  /** A second delete of the same row finds nothing and changes nothing. */
  lemma DeleteTwice(t: Table, id: int)
    ensures var t1 := Ef.Delete(t, id).table;
            Ef.Delete(t1, id) == Step(t1, false)
  {
  }

  /** After a delete every read treats the row as absent. */
  lemma DeleteHides(t: Table, id: int)
    ensures Ef.GetById(Ef.Delete(t, id).table, id) == Blank
    ensures Ado.GetById(Ado.Delete(t, id).table, id) == Blank
    ensures id !in LiveIds(Ef.Delete(t, id).table)
    ensures LiveIds(Ef.Delete(t, id).table) == LiveIds(t) - {id}
  {
    var t1 := Ef.Delete(t, id).table;
    assert forall k :: Live(t1, k) <==> Live(t, k) && k != id;
  }

  /** The two SQL updates coincide when the model's `Active` is set; with a
      null `Active` ADO.NET stores true and Dapper stores null. */
  lemma SqlUpdatesAgree(t: Table, model: MediaTheme)
    ensures model.active.Some? ==> Ado.Update(t, model) == Dap.Update(t, model)
    ensures model.active.None? && Live(t, model.id) ==>
              && Ado.Update(t, model).table[model.id].active == Some(true)
              && Dap.Update(t, model).table[model.id].active == None
  {
  }

  /** The Entity Framework update has no soft-delete filter: it can bring a
      deleted row back, where both SQL updates refuse. */
  lemma EfUpdateRevives(t: Table, model: MediaTheme)
    requires model.id in t && t[model.id].isDeleted && !model.isDeleted
    ensures Ef.Update(t, model).result == Ok(true)
    ensures Live(Ef.Update(t, model).table, model.id)
    ensures !Ado.Update(t, model).result && Ado.Update(t, model).table == t
    ensures !Dap.Update(t, model).result && Dap.Update(t, model).table == t
  {
  }

  /** An added row reads back as it was stored. */
  lemma AddThenGet(t: Table, model: MediaTheme, now: Instant, newId: int)
    requires Issuable(t, newId)
    ensures Ef.GetById(Ef.Add(t, model, now, newId).table, newId) == Ef.Add(t, model, now, newId).result
    ensures var r := Ado.GetById(Ado.Add(t, model, now, Some(newId)).table, newId);
            r == MediaTheme(newId, Some(model.active.Coalesce(true)), false, now, model.createdBy, model.name, 0)
    ensures var r := Dap.GetById(Dap.Add(t, model, now, Some(newId)).table, newId);
            r == Dap.Add(t, model, now, Some(newId)).result.(displayOrder := 0, isDeleted := false)
  {
  }

  /** An updated row reads back with the new values. */
  lemma UpdateThenGet(t: Table, model: MediaTheme)
    requires model.id in t && !model.isDeleted
    ensures Ef.GetById(Ef.Update(t, model).table, model.id) == model
  {
  }

  /** Every live display order is 0. */
  predicate AllOrdersZero(t: Table) {
    forall k | k in t && !t[k].isDeleted :: t[k].displayOrder == 0
  }

  /** The SQL inserts leave `DisplayOrder` at the column default, so a table
      built through them keeps every live order at 0 ... */
  lemma SqlAddKeepsOrdersZero(t: Table, model: MediaTheme, now: Instant, issued: Option<int>)
    requires issued.Some? ==> Issuable(t, issued.value)
    requires AllOrdersZero(t)
    ensures AllOrdersZero(Ado.Add(t, model, now, issued).table)
    ensures AllOrdersZero(Dap.Add(t, model, now, issued).table)
  {
  }

  /** ... and in such a table no reorder finds a neighbour, in any of the
      three repositories. */
  lemma ZeroOrdersBlockMoves(t: Table, id: int, dir: Direction, tie: nat)
    requires AllOrdersZero(t)
    ensures !Ef.Move(t, id, dir, tie).result
    ensures !Ado.Move(t, id, dir, tie, false).result
    ensures !Dap.Move(t, id, dir, tie).result
  {
    if Live(t, id) {
      assert forall k :: k !in Side(t, t[id].displayOrder, dir);
    }
  }

  /** Three live rows with orders 1, 2, 3: moving the third up swaps it
      with the second and leaves the first alone. */
  lemma MoveUpExample()
    ensures var t: Table := map[1 := Blank.(id := 1, displayOrder := 1), 2 := Blank.(id := 2, displayOrder := 2),
                                3 := Blank.(id := 3, displayOrder := 3)];
            var s := Ef.MoveUp(t, 3, 0);
            && s.result
            && s.table[1].displayOrder == 1 && s.table[2].displayOrder == 3 && s.table[3].displayOrder == 2
            && s.table.Keys == t.Keys
  {
    var t: Table := map[1 := Blank.(id := 1, displayOrder := 1), 2 := Blank.(id := 2, displayOrder := 2),
                        3 := Blank.(id := 3, displayOrder := 3)];
    ExampleNearest(t);
    var s := Ef.MoveUp(t, 3, 0);
    var n :| IsNearest(t, 3, Up, n) && s.table == Swap(t, 3, n);
    ExampleNearestUnique(t, n);
  }

  lemma ExampleNearest(t: Table)
    requires t == map[1 := Blank.(id := 1, displayOrder := 1), 2 := Blank.(id := 2, displayOrder := 2),
                      3 := Blank.(id := 3, displayOrder := 3)]
    ensures IsNearest(t, 3, Up, 2)
  {
    NearestUpMeans(t, 3, 2);
    assert forall k | k in t :: k == 1 || k == 2 || k == 3;
  }

  lemma ExampleNearestUnique(t: Table, n: int)
    requires t == map[1 := Blank.(id := 1, displayOrder := 1), 2 := Blank.(id := 2, displayOrder := 2),
                      3 := Blank.(id := 3, displayOrder := 3)]
    requires IsNearest(t, 3, Up, n)
    ensures n == 2
  {
    NearestUpMeans(t, 3, n);
    assert Live(t, 2);
    assert forall k | k in t :: k == 1 || k == 2 || k == 3;
  }

  /** The unchecked increment wraps: after a live row reaches
      `int.MaxValue`, a new row gets `int.MinValue` and is ordered before
      that row instead of after it. */
  lemma AddWrapsPastMax()
    ensures var t: Table := map[1 := Blank.(id := 1, displayOrder := Int32Max)];
            var s := Ef.Add(t, Blank, Instant(0), 2);
            && s.result.displayOrder == Int32Min
            && Live(s.table, 1) && Live(s.table, 2)
            && s.table[2].displayOrder < s.table[1].displayOrder
  {
    var t: Table := map[1 := Blank.(id := 1, displayOrder := Int32Max)];
    assert Live(t, 1) && t[1].displayOrder == Int32Max;
  }

  /** For any table: once a live row holds `int.MaxValue`, the row `Add`
      inserts does not come after the live rows, while `AddChecked` refuses
      the insert. */
  lemma AddAtMaxMisplaces(t: Table, model: MediaTheme, now: Instant, newId: int, k: int)
    requires Issuable(t, newId) && Live(t, k) && t[k].displayOrder == Int32Max
    ensures Ef.Add(t, model, now, newId).result.displayOrder < t[k].displayOrder
    ensures Ef.AddChecked(t, model, now, newId) == Step(t, Err(OrderOverflow))
  {
  }

  /** Below the overflow the checked increment is the increment `AddAsync`
      performs. */
  lemma AddCheckedAgrees(t: Table, model: MediaTheme, now: Instant, newId: int)
    requires Issuable(t, newId)
    requires forall k | Live(t, k) :: t[k].displayOrder < Int32Max
    ensures Ef.AddChecked(t, model, now, newId) == Step(Ef.Add(t, model, now, newId).table,
                                                        Ok(Ef.Add(t, model, now, newId).result))
  {
    var next := MaxLiveOrder(t).Coalesce(0) + 1;
    var row := model.(id := newId, created := now, isDeleted := false, displayOrder := next);
    AddBelowMax(t, model, now, newId);
    assert Ef.AddChecked(t, model, now, newId) == Step(t[newId := row], Ok(row));
  }

  lemma AddBelowMax(t: Table, model: MediaTheme, now: Instant, newId: int)
    requires Issuable(t, newId)
    requires forall k | Live(t, k) :: t[k].displayOrder < Int32Max
    ensures MaxLiveOrder(t).Coalesce(0) < Int32Max
    ensures var row := model.(id := newId, created := now, isDeleted := false,
                              displayOrder := MaxLiveOrder(t).Coalesce(0) + 1);
            Ef.Add(t, model, now, newId) == Step(t[newId := row], row)
  {
    var max := MaxLiveOrder(t).Coalesce(0);
    assert Wrap32(max + 1) == max + 1;
  }
}
