/** Query results: ordering rows by a sort key, the search filters, and the
    `Skip(...).Take(...)` page window with its total count. */
module Listing {
  import opened Values
  import opened Text
  import opened Themes

  /** The sort orders the paged query understands. */
  datatype SortKey = ByDisplayOrder | ByName | ByNameDesc

  /** `sortOrder switch { "Name" => ..., "NameDesc" => ..., _ => DisplayOrder }`;
      the explicit `"DisplayOrder"` arm and the default arm coincide. */
  function ParseSortOrder(sortOrder: String): (k: SortKey)
    ensures k == ByName <==> sortOrder == "Name"
    ensures k == ByNameDesc <==> sortOrder == "NameDesc"
  {
    if sortOrder == "Name" then ByName
    else if sortOrder == "NameDesc" then ByNameDesc
    else ByDisplayOrder
  }

  /** Row `a` may come before row `b` under `key`. */
  predicate Before(col: Collation, key: SortKey, a: MediaTheme, b: MediaTheme) {
    match key
    case ByDisplayOrder => a.displayOrder <= b.displayOrder
    case ByName => NameLe(col, a.name, b.name)
    case ByNameDesc => NameLe(col, b.name, a.name)
  }

  lemma BeforeTotal(col: Collation, key: SortKey, a: MediaTheme, b: MediaTheme)
    ensures Before(col, key, a, b) || Before(col, key, b, a)
  {
    NameLeTotal(col, a.name, b.name);
  }

  lemma BeforeTransitive(col: Collation, key: SortKey, a: MediaTheme, b: MediaTheme, c: MediaTheme)
    requires Before(col, key, a, b) && Before(col, key, b, c)
    ensures Before(col, key, a, c)
  {
    match key
    case ByDisplayOrder =>
    case ByName => NameLeTransitive(col, a.name, b.name, c.name);
    case ByNameDesc => NameLeTransitive(col, c.name, b.name, a.name);
  }

  predicate Sorted(col: Collation, key: SortKey, s: seq<MediaTheme>) {
    forall i, j | 0 <= i < j < |s| :: Before(col, key, s[i], s[j])
  }

  /** In a sorted list the head may precede every later row. */
  lemma SortedHead(col: Collation, key: SortKey, s: seq<MediaTheme>)
    requires Sorted(col, key, s) && s != []
    ensures Sorted(col, key, s[1..])
    ensures forall y | y in multiset(s[1..]) :: Before(col, key, s[0], y)
  {
    forall y | y in multiset(s[1..]) ensures Before(col, key, s[0], y) {
      assert y in s[1..];
      var j :| 0 <= j < |s[1..]| && s[1..][j] == y;
      assert s[j + 1] == y;
    }
  }

  /** A row that may precede every row of a sorted list can head it. */
  lemma PrependSorted(col: Collation, key: SortKey, x: MediaTheme, r: seq<MediaTheme>)
    requires Sorted(col, key, r)
    requires forall y | y in multiset(r) :: Before(col, key, x, y)
    ensures Sorted(col, key, [x] + r)
  {
    forall i, j | 0 <= i < j < |[x] + r| ensures Before(col, key, ([x] + r)[i], ([x] + r)[j]) {
      if i == 0 {
        assert ([x] + r)[j] == r[j - 1] && r[j - 1] in multiset(r);
      } else {
        assert ([x] + r)[i] == r[i - 1] && ([x] + r)[j] == r[j - 1];
      }
    }
  }

  /** Inserts `x` into the sorted `s` after the rows that must precede it. */
  function Insert(col: Collation, key: SortKey, x: MediaTheme, s: seq<MediaTheme>): (r: seq<MediaTheme>)
    requires Sorted(col, key, s)
    ensures Sorted(col, key, r)
    ensures multiset(r) == multiset(s) + multiset{x}
  {
    if |s| == 0 then [x]
    else if Before(col, key, x, s[0]) then
      assert forall y | y in multiset(s) :: Before(col, key, x, y) by {
        forall y | y in multiset(s) ensures Before(col, key, x, y) {
          var j :| 0 <= j < |s| && s[j] == y;
          if j > 0 {
            BeforeTransitive(col, key, x, s[0], s[j]);
          }
        }
      }
      PrependSorted(col, key, x, s);
      [x] + s
    else
      BeforeTotal(col, key, x, s[0]);
      SortedHead(col, key, s);
      assert s == [s[0]] + s[1..];
      var rest := Insert(col, key, x, s[1..]);
      PrependSorted(col, key, s[0], rest);
      [s[0]] + rest
  }

  /** The rows of `s`, reordered so that they are sorted under `key`. Rows
      that tie keep no promised relative order. */
  function Sort(col: Collation, key: SortKey, s: seq<MediaTheme>): (r: seq<MediaTheme>)
    ensures Sorted(col, key, r)
    ensures multiset(r) == multiset(s)
  {
    if |s| == 0 then []
    else
      assert s == [s[0]] + s[1..];
      Insert(col, key, s[0], Sort(col, key, s[1..]))
  }

  /** A list that is already sorted is its own sort. */
  lemma {:induction false} SortSorted(col: Collation, key: SortKey, s: seq<MediaTheme>)
    requires Sorted(col, key, s)
    ensures Sort(col, key, s) == s
  {
    if |s| > 0 {
      SortedHead(col, key, s);
      SortSorted(col, key, s[1..]);
      if |s| > 1 {
        assert Before(col, key, s[0], s[1..][0]);
      }
      assert s == [s[0]] + s[1..];
    }
  }

  /** The ids of `s`, in order. */
  function IdsOf(s: seq<MediaTheme>): (ids: seq<int>)
    ensures |ids| == |s|
    ensures forall i | 0 <= i < |s| :: ids[i] == s[i].id
  {
    seq(|s|, i requires 0 <= i < |s| => s[i].id)
  }

  /** LINQ `Skip(skip).Take(take)` over an in-memory list: a non-positive
      skip skips nothing, a non-positive take takes nothing, and both stop
      at the end of the list. */
  function SkipTake<T>(s: seq<T>, skip: int, take: int): (r: seq<T>)
    ensures |r| <= if take > 0 then take else 0
    ensures var from := if skip > 0 then skip else 0;
            var room := if from < |s| then |s| - from else 0;
            && |r| == (if take <= 0 then 0 else if take < room then take else room)
            && forall i | 0 <= i < |r| :: r[i] == s[from + i]
  {
    var from := if skip <= 0 then 0 else if skip > |s| then |s| else skip;
    var upto := if take <= 0 then from else if take > |s| - from then |s| else from + take;
    s[from..upto]
  }

  /** A page holds only rows of the list, in the list's order. */
  lemma SkipTakeWithin(s: seq<MediaTheme>, skip: int, take: int)
    ensures forall x | x in SkipTake(s, skip, take) :: x in s
    ensures IdsDescending(s) ==> IdsDescending(SkipTake(s, skip, take))
  {
    var r := SkipTake(s, skip, take);
    var from := if skip > 0 then skip else 0;
    forall x | x in r ensures x in s {
      var i :| 0 <= i < |r| && r[i] == x;
      assert r[i] == s[from + i];
    }
    if IdsDescending(s) {
      forall i, j | 0 <= i < j < |r| ensures r[i].id > r[j].id {
        assert r[i] == s[from + i] && r[j] == s[from + j];
      }
    }
  }

  /** Every position of a list lies on exactly the page its index falls in:
      paging with a positive page size loses and repeats nothing. */
  lemma {:induction false} PageHolds<T>(s: seq<T>, pageSize: int, pageIndex: int, i: int)
    requires pageSize > 0 && pageIndex >= 0
    requires pageIndex * pageSize <= i < (pageIndex + 1) * pageSize && i < |s|
    ensures i - pageIndex * pageSize < |SkipTake(s, pageIndex * pageSize, pageSize)|
    ensures SkipTake(s, pageIndex * pageSize, pageSize)[i - pageIndex * pageSize] == s[i]
  {
    var skip := pageIndex * pageSize;
    assert 0 <= skip <= i;
    assert i - skip < pageSize by {
      assert (pageIndex + 1) * pageSize == skip + pageSize;
    }
  }

  /** `ArticleSet`: one page of items and the number of rows the filtered
      query holds before paging. */
  datatype ArticleSet = ArticleSet(items: seq<MediaTheme>, totalCount: int)

  /** `FilterOptions` reduced to the fields the repositories read. */
  datatype FilterOptions = FilterOptions(pageIndex: Int32, pageSize: Int32, searchQuery: Option<String>)

  /** Row ids strictly decrease along `s`: `ORDER BY Id DESC`. */
  predicate IdsDescending(s: seq<MediaTheme>) {
    forall i, j | 0 <= i < j < |s| :: s[i].id > s[j].id
  }

  /** In a newest-first list the head is the newest row, and the tail is
      the rest of the list, itself newest first. */
  lemma HeadAndTail(a: seq<MediaTheme>)
    requires IdsDescending(a) && a != []
    ensures forall x | x in a :: x == a[0] || x.id < a[0].id
    ensures forall x :: x in a[1..] <==> x in a && x != a[0]
    ensures IdsDescending(a[1..])
  {
    forall x | x in a ensures x == a[0] || x.id < a[0].id {
      var i :| 0 <= i < |a| && a[i] == x;
    }
    forall x ensures x in a[1..] <==> x in a && x != a[0] {
      if x in a && x != a[0] {
        var i :| 0 <= i < |a| && a[i] == x;
        assert a[1..][i - 1] == x;
      }
      if x in a[1..] {
        var i :| 0 <= i < |a[1..]| && a[1..][i] == x;
        assert a[i + 1] == x;
      }
    }
  }

  /** A row newer than every row of a newest-first list can head it. */
  lemma PrependNewest(x: MediaTheme, r: seq<MediaTheme>)
    requires IdsDescending(r)
    requires forall y | y in r :: y.id < x.id
    ensures IdsDescending([x] + r)
  {
    forall i, j | 0 <= i < j < |[x] + r| ensures ([x] + r)[i].id > ([x] + r)[j].id {
      if i == 0 {
        assert ([x] + r)[j] == r[j - 1] && r[j - 1] in r;
      } else {
        assert ([x] + r)[i] == r[i - 1] && ([x] + r)[j] == r[j - 1];
      }
    }
  }

  /** The rows of `s` whose name is not null and contains `q` (ordinal),
      in their original order. */
  function KeepNamed(s: seq<MediaTheme>, q: String): (r: seq<MediaTheme>)
    ensures |r| <= |s|
    ensures forall x :: x in r <==> x in s && x.name.Some? && Contains(x.name.value, q)
    ensures IdsDescending(s) ==> IdsDescending(r)
  {
    if |s| == 0 then []
    else
      var rest := KeepNamed(s[1..], q);
      if s[0].name.Some? && Contains(s[0].name.value, q) then
        assert IdsDescending(s) ==> IdsDescending([s[0]] + rest) by {
          if IdsDescending(s) {
            HeadAndTail(s);
            PrependNewest(s[0], rest);
          }
        }
        [s[0]] + rest
      else
        rest
  }
}
