/** The `MediaThemes` table: the record type, the table as a map keyed by
    `Id`, the soft-delete filter every read applies, and the display-order
    neighbourhood the reorder operations search. */
module Themes {
  import opened Values
  import opened Text
  import IntSets

  /** A creation timestamp. It comes from the clock or a column default and
      no operation inspects it, so it is opaque here. */
  datatype Instant = Instant(ticks: int)

  /** One row of `MediaThemes`. */
  datatype MediaTheme = MediaTheme(
    id: int,
    active: Option<bool>,
    isDeleted: bool,
    created: Instant,
    createdBy: Option<String>,
    name: Option<String>,
    displayOrder: Int32)

  /** `new MediaTheme()`: the empty sentinel a lookup returns on a miss. */
  const Blank: MediaTheme := MediaTheme(0, None, false, Instant(0), None, None, 0)

  /** The table: each row is stored under its own primary key. */
  type Table = t: map<int, MediaTheme> | forall k | k in t :: t[k].id == k
    witness map[]

  /** The table after an operation, paired with what the operation returned. */
  datatype Step<T> = Step(table: Table, result: T)

  /** The row with this id exists and is not soft-deleted: the filter
      `!IsDeleted` / `IsDeleted = 0` that every read applies. */
  predicate Live(t: Table, id: int) {
    id in t && !t[id].isDeleted
  }

  function LiveIds(t: Table): (ids: set<int>)
    ensures forall k :: k in ids <==> Live(t, k)
  {
    set k | k in t && !t[k].isDeleted
  }

  /** A value the identity column may issue for a new row: positive (the
      column starts at 1) and never issued before. Soft-deleted rows stay in
      the table, so their ids stay taken. */
  predicate Issuable(t: Table, id: int) {
    id > 0 && id !in t
  }

  /** Soft deletion is never undone and rows are never removed: every row of
      `t` is still in `t'`, and a soft-deleted row is unchanged. */
  predicate Retains(t: Table, t': Table) {
    && t.Keys <= t'.Keys
    && forall k | k in t && t[k].isDeleted :: t'[k] == t[k]
  }

  /** The rows with the ids `ids`, in that order. */
  function RowsOf(t: Table, ids: seq<int>): (r: seq<MediaTheme>)
    requires forall i | 0 <= i < |ids| :: ids[i] in t
    ensures |r| == |ids|
    ensures forall i | 0 <= i < |ids| :: r[i] == t[ids[i]]
  {
    seq(|ids|, i requires 0 <= i < |ids| => t[ids[i]])
  }

  /** A row is among `RowsOf(t, ids)` exactly when its id is listed. */
  lemma RowsOfMembers(t: Table, ids: seq<int>)
    requires forall i | 0 <= i < |ids| :: ids[i] in t
    ensures forall x :: x in RowsOf(t, ids) <==> x.id in ids && x == t[x.id]
  {
    var r := RowsOf(t, ids);
    forall x ensures x in r <==> x.id in ids && x == t[x.id] {
      if x in r {
        var i :| 0 <= i < |r| && r[i] == x;
        assert t[ids[i]] == x;
      }
      if x.id in ids && x == t[x.id] {
        var i := IntSets.IndexOf(ids, x.id);
        assert r[i] == x;
      }
    }
  }

  /** The live rows, in ascending id order. */
  function LiveRows(t: Table): (r: seq<MediaTheme>)
    ensures |r| == |LiveIds(t)|
    ensures forall x :: x in r <==> Live(t, x.id) && x == t[x.id]
    ensures forall i, j | 0 <= i < j < |r| :: r[i].id < r[j].id
  {
    var ids := IntSets.Ascending(LiveIds(t));
    RowsOfMembers(t, ids);
    RowsOf(t, ids)
  }

  /** The display orders of the rows `ids`. */
  function OrdersOf(t: Table, ids: set<int>): (os: set<int>)
    requires ids <= t.Keys
    ensures forall k | k in ids :: t[k].displayOrder as int in os
    ensures forall o | o in os :: Int32Min <= o <= Int32Max
    ensures forall o | o in os :: exists k :: k in ids && t[k].displayOrder == o
    ensures os == {} <==> ids == {}
  {
    var os := set k | k in ids :: t[k].displayOrder as int;
    if ids != {} then
      IntSets.Inhabited(ids);
      var k :| k in ids;
      assert t[k].displayOrder as int in os;
      os
    else
      os
  }

  /** The largest `DisplayOrder` among live rows, `null` when there are none:
      `Where(m => !m.IsDeleted).Max(m => (int?)m.DisplayOrder)`. */
  function MaxLiveOrder(t: Table): (m: Option<Int32>)
    ensures m.None? <==> LiveIds(t) == {}
    ensures m.Some? ==> exists k :: Live(t, k) && t[k].displayOrder == m.value
    ensures m.Some? ==> forall k | Live(t, k) :: t[k].displayOrder <= m.value
  {
    var orders := OrdersOf(t, LiveIds(t));
    if orders == {} then
      None
    else
      var g := IntSets.Greatest(orders);
      Some(g)
  }

  /** `UPDATE MediaThemes SET DisplayOrder = @o WHERE Id = @id`; the statement
      has no `IsDeleted` filter. */
  function SetOrder(t: Table, id: int, o: Int32): (t': Table)
    ensures t'.Keys == t.Keys
    ensures id in t ==> t'[id] == t[id].(displayOrder := o)
    ensures forall k | k in t && k != id :: t'[k] == t[k]
  {
    if id in t then t[id := t[id].(displayOrder := o)] else t
  }

  /** Exchanges the display orders of rows `a` and `b`: the two UPDATEs
      that both reorder transactions issue. */
  function Swap(t: Table, a: int, b: int): (t': Table)
    requires a in t && b in t
    ensures t'.Keys == t.Keys
    ensures t'[a] == t[a].(displayOrder := t[b].displayOrder)
    ensures t'[b] == t[b].(displayOrder := t[a].displayOrder)
    ensures forall k | k in t && k != a && k != b :: t'[k] == t[k]
  {
    SetOrder(SetOrder(t, a, t[b].displayOrder), b, t[a].displayOrder)
  }

  /** Which way a row moves: `Up` towards smaller display orders. */
  datatype Direction = Up | Down

  /** Order `p` lies strictly on the `dir` side of order `o`. */
  predicate Beyond(dir: Direction, o: int, p: int) {
    match dir
    case Up => p < o
    case Down => o < p
  }

  /** The live rows strictly on the `dir` side of order `o`: the rows the
      neighbour query `WHERE DisplayOrder < @o AND IsDeleted = 0` (or `>`)
      selects. */
  function Side(t: Table, o: int, dir: Direction): (ids: set<int>)
    ensures forall k :: k in ids <==> Live(t, k) && Beyond(dir, o, t[k].displayOrder)
  {
    set k | k in t && !t[k].isDeleted && Beyond(dir, o, t[k].displayOrder)
  }

  /** `n` is a nearest neighbour of order `o` towards `dir`: a row the query
      `ORDER BY DisplayOrder DESC` (or `ASC`) may return first. */
  predicate IsNearest(t: Table, o: int, dir: Direction, n: int) {
    && n in Side(t, o, dir)
    && forall k | k in Side(t, o, dir) :: !Beyond(dir, t[k].displayOrder, t[n].displayOrder)
  }

  /** What `Side` and `IsNearest` say about the rows themselves. */
  lemma SideFacts(t: Table, o: int, dir: Direction)
    ensures Side(t, o, dir) != {} <==> exists k :: Live(t, k) && Beyond(dir, o, t[k].displayOrder)
    ensures forall n | IsNearest(t, o, dir, n) ::
              && Live(t, n) && Beyond(dir, o, t[n].displayOrder)
              && forall k | Live(t, k) && Beyond(dir, o, t[k].displayOrder) ::
                   !Beyond(dir, t[k].displayOrder, t[n].displayOrder)
  {
    if Side(t, o, dir) != {} {
      IntSets.Inhabited(Side(t, o, dir));
    }
  }

  /** Spelled out for moving up: a nearest neighbour is a live row whose
      display order is the greatest one below `o`. */
  lemma NearestUpMeans(t: Table, o: int, n: int)
    ensures IsNearest(t, o, Up, n) <==>
              && Live(t, n) && t[n].displayOrder < o
              && forall k | Live(t, k) && t[k].displayOrder < o :: t[k].displayOrder <= t[n].displayOrder
  {
    if Live(t, n) && t[n].displayOrder < o
       && forall k | Live(t, k) && t[k].displayOrder < o :: t[k].displayOrder <= t[n].displayOrder
    {
      assert n in Side(t, o, Up);
    }
  }

  /** Spelled out for moving down: a nearest neighbour is a live row whose
      display order is the least one above `o`. */
  lemma NearestDownMeans(t: Table, o: int, n: int)
    ensures IsNearest(t, o, Down, n) <==>
              && Live(t, n) && o < t[n].displayOrder
              && forall k | Live(t, k) && o < t[k].displayOrder :: t[n].displayOrder <= t[k].displayOrder
  {
    if Live(t, n) && o < t[n].displayOrder
       && forall k | Live(t, k) && o < t[k].displayOrder :: t[n].displayOrder <= t[k].displayOrder
    {
      assert n in Side(t, o, Down);
    }
  }

  /** The display order of the nearest neighbours. */
  function NearestOrder(t: Table, o: int, dir: Direction): (m: int)
    requires Side(t, o, dir) != {}
    ensures exists n :: n in Side(t, o, dir) && t[n].displayOrder == m
    ensures forall k | k in Side(t, o, dir) :: !Beyond(dir, t[k].displayOrder, m)
  {
    var orders := OrdersOf(t, Side(t, o, dir));
    match dir
    case Up => IntSets.Greatest(orders)
    case Down => IntSets.Least(orders)
  }

  /** All nearest neighbours; more than one when display orders tie. */
  function Nearest(t: Table, o: int, dir: Direction): (ns: set<int>)
    requires Side(t, o, dir) != {}
    ensures ns != {}
    ensures forall n :: n in ns <==> IsNearest(t, o, dir, n)
  {
    var m := NearestOrder(t, o, dir);
    var ns := set k | k in Side(t, o, dir) && t[k].displayOrder == m;
    assert forall n | IsNearest(t, o, dir, n) :: n in ns by {
      forall n | IsNearest(t, o, dir, n) ensures n in ns {
        var w :| w in Side(t, o, dir) && t[w].displayOrder == m;
        assert !Beyond(dir, t[w].displayOrder, t[n].displayOrder);
      }
    }
    var w :| w in Side(t, o, dir) && t[w].displayOrder == m;
    assert w in ns;
    ns
  }

  /** The neighbour the database returns for `TOP 1` / `FirstOrDefault`.
      Which of several tied rows comes first is the engine's choice, so the
      choice is a parameter: `tie` indexes the nearest rows in id order, and
      an index past the end selects the first. */
  function Pick(t: Table, o: int, dir: Direction, tie: nat): (n: int)
    requires Side(t, o, dir) != {}
    ensures IsNearest(t, o, dir, n)
  {
    var c := IntSets.Ascending(Nearest(t, o, dir));
    c[if tie < |c| then tie else 0]
  }

  /** `Pick` can return every nearest neighbour: the `tie` parameter leaves
      out none of the engine's possible choices. */
  lemma PickCovers(t: Table, o: int, dir: Direction, n: int)
    requires IsNearest(t, o, dir, n)
    ensures exists tie: nat :: Pick(t, o, dir, tie) == n
  {
    var ns := Nearest(t, o, dir);
    assert n in ns;
    var c := IntSets.Ascending(ns);
    var i := IntSets.IndexOf(c, n);
    assert Pick(t, o, dir, i) == c[i];
  }

  /** When display orders do not tie, the nearest neighbour is unique and the
      engine has no choice to make. */
  lemma PickUnique(t: Table, o: int, dir: Direction, n: int, tie: nat)
    requires DistinctOrders(t)
    requires IsNearest(t, o, dir, n)
    ensures Pick(t, o, dir, tie) == n
  {
    var p := Pick(t, o, dir, tie);
    assert !Beyond(dir, t[p].displayOrder, t[n].displayOrder);
    assert !Beyond(dir, t[n].displayOrder, t[p].displayOrder);
  }

  /** No two live rows share a display order. */
  predicate DistinctOrders(t: Table) {
    forall a, b | a in t && b in t && !t[a].isDeleted && !t[b].isDeleted && a != b ::
      t[a].displayOrder != t[b].displayOrder
  }

  /** The display orders of the rows `ids`, position by position. */
  function OrderSeq(t: Table, ids: seq<int>): (os: seq<int>)
    requires forall i | 0 <= i < |ids| :: ids[i] in t
    ensures |os| == |ids|
    ensures forall i | 0 <= i < |ids| :: os[i] == t[ids[i]].displayOrder as int
  {
    seq(|ids|, i requires 0 <= i < |ids| => t[ids[i]].displayOrder as int)
  }

  /** The multiset of live display orders. */
  function LiveOrders(t: Table): multiset<int> {
    multiset(OrderSeq(t, IntSets.Ascending(LiveIds(t))))
  }

  lemma SwapKeepsLiveIds(t: Table, a: int, b: int)
    requires a in t && b in t
    ensures LiveIds(Swap(t, a, b)) == LiveIds(t)
  {
    var t' := Swap(t, a, b);
    assert forall k :: Live(t', k) <==> Live(t, k);
  }

  /** Exchanging two positions of a sequence permutes it. */
  lemma ExchangeKeepsMultiset(s: seq<int>, i: nat, j: nat)
    requires i < |s| && j < |s|
    ensures multiset(s[i := s[j]][j := s[i]]) == multiset(s)
  {
    var s1 := s[i := s[j]];
    assert multiset(s1) == multiset(s) - multiset{s[i]} + multiset{s[j]};
  }

  /** Swapping two live rows permutes the live display orders. */
  lemma SwapKeepsLiveOrders(t: Table, a: int, b: int)
    requires Live(t, a) && Live(t, b)
    ensures LiveOrders(Swap(t, a, b)) == LiveOrders(t)
  {
    var t' := Swap(t, a, b);
    SwapKeepsLiveIds(t, a, b);
    var ids := IntSets.Ascending(LiveIds(t));
    var os := OrderSeq(t, ids);
    var i := IntSets.IndexOf(ids, a);
    var j := IntSets.IndexOf(ids, b);
    SwapExchangesOrders(t, ids, a, b, i, j);
    ExchangeKeepsMultiset(os, i, j);
  }

  /** Listed by id, the orders after a swap are the orders before with two
      positions exchanged. */
  lemma SwapExchangesOrders(t: Table, ids: seq<int>, a: int, b: int, i: nat, j: nat)
    requires forall k | 0 <= k < |ids| :: ids[k] in t
    requires forall k, l | 0 <= k < l < |ids| :: ids[k] < ids[l]
    requires i < |ids| && j < |ids| && ids[i] == a && ids[j] == b
    ensures OrderSeq(Swap(t, a, b), ids) == OrderSeq(t, ids)[i := OrderSeq(t, ids)[j]][j := OrderSeq(t, ids)[i]]
  {
    var os := OrderSeq(t, ids);
    var os' := OrderSeq(Swap(t, a, b), ids);
    forall k | 0 <= k < |ids| ensures os'[k] == os[i := os[j]][j := os[i]][k] {
      if k != i && k != j {
        assert ids[k] != a && ids[k] != b;
      }
    }
  }

  /** Swapping two live rows keeps display orders distinct. */
  lemma SwapKeepsDistinct(t: Table, a: int, b: int)
    requires Live(t, a) && Live(t, b) && DistinctOrders(t)
    ensures DistinctOrders(Swap(t, a, b))
  {
  }
}
