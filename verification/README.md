# MediaTheme repositories in Dafny

This project models the repository layer of `Azunt.MediaThemeManagement`,
which stores media themes in one `MediaThemes` table. The layer has three
implementations of the same interface:

- `MediaThemeRepository`: Entity Framework Core, where the database runs the LINQ queries;
- `MediaThemeRepositoryAdoNet`: hand-written SQL;
- `MediaThemeRepositoryDapper`: the same SQL, sent through Dapper.

The table is a map from `Id` to an immutable `MediaTheme` record (module
`Themes`). Each repository operation is a pure function from a table to a
`Step`: the new table paired with the value the C# method returns.

Rows are soft-deleted. The `IsDeleted` flag is set and never cleared by a
delete, and every read filters on it (`Themes.Live`). A C# `null` is an
`Option`. A thrown exception is the `Err` case of a `Result`.

Modules:

- `Values`: 32-bit integers with C#'s unchecked wrap-around, `Option`, `Result`.
- `Text`: .NET `IsNullOrEmpty` / `IsNullOrWhiteSpace`, substring search, and a
  collation given as per-character weights. `Ordinal` is ordinal (code-point) matching.
- `IntSets`: least and greatest elements of integer sets, and sets listed in
  ascending or descending order.
- `Themes`: the record, the table, the soft-delete filter, and the reorder
  neighbourhood (`Side`, `IsNearest`, `Pick`, `Swap`).
- `Listing`: sort keys, the sort itself, LINQ `Skip`/`Take`, and the in-memory name filter.
- `SqlStatements`: each SQL statement the ADO.NET and Dapper repositories send,
  plus their shared in-memory search and paging.
- `EfCoreRepository`, `AdoNetRepository`, `DapperRepository`: one function per
  repository method.
- `RepositoryLaws`: laws relating the operations to each other, and how the
  three implementations agree and differ. This covers:
  - the `MoveUp`/`MoveDown` round trip;
  - permutation of display orders by the reorders;
  - delete idempotence;
  - add/get round trips;
  - concrete tables that show each difference.

Where `TOP 1` or `FirstOrDefault` can choose among rows that tie on
`DisplayOrder`, the choice is a parameter `tie`. `Themes.PickCovers` shows
that every tied row can be chosen. When display orders are distinct,
`Themes.PickUnique` shows that the choice is forced. In the same way, the
Entity Framework paged query takes the order in which the engine meets the
matching rows as a parameter, `arrival`. This parameter stands for the
engine's freedom to order tied rows. `EfCoreRepository.QueryCovers` shows
that every sorted listing of the matching rows is reachable. Each page request runs its own query, so two requests may order tied
rows differently (`RepositoryLaws.EfPagesMayRepeat`).

The three implementations differ in error handling and defaults:

- Only the ADO.NET reorder catches a failure and returns false. The Entity
  Framework and Dapper reorders let exceptions escape.
- The Entity Framework `UpdateAsync` throws when no row has the model's id. It
  does not return false (`Err(ConcurrencyConflict)`).
- Dapper stores a null `Active` as null. It does not default it to true.

## Model

| member | source | states |
|---|---|---|
| `Values.Wrap32` | src/Azunt.MediaThemeManagement/Azunt.MediaThemeManagement/03_Repositories/EfCore/MediaThemeRepository.cs:66 | unchecked C# `int` arithmetic: the result is congruent to the exact value modulo 2^32, equals it when it fits, and `int.MaxValue + 1` gives `int.MinValue` |
| `Text.EmptyIsBlank` | src/Azunt.MediaThemeManagement/Azunt.MediaThemeManagement/03_Repositories/AdoNet/MediaThemeRepositoryAdoNet.cs:124 | a null-or-empty query is also null-or-whitespace, so a query the database filter ignores is ignored by the in-memory filter too |
| `Text.OrdinalContains` | src/Azunt.MediaThemeManagement/Azunt.MediaThemeManagement/03_Repositories/EfCore/MediaThemeRepository.cs:124-127 | under the ordinal collation, the database's name match is exactly the in-memory `string.Contains` |
| `Text.LexLeTotal` | src/Azunt.MediaThemeManagement/Azunt.MediaThemeManagement/03_Repositories/EfCore/MediaThemeRepository.cs:131-132 | any two weight sequences are comparable lexicographically |
| `Text.LexLeTransitive` | src/Azunt.MediaThemeManagement/Azunt.MediaThemeManagement/03_Repositories/EfCore/MediaThemeRepository.cs:131-132 | the lexicographic order is transitive |
| `Text.NameLeTotal` | src/Azunt.MediaThemeManagement/Azunt.MediaThemeManagement/03_Repositories/EfCore/MediaThemeRepository.cs:131-132 | ordering by `Name`, with null first, compares any two names |
| `Text.NameLeTransitive` | src/Azunt.MediaThemeManagement/Azunt.MediaThemeManagement/03_Repositories/EfCore/MediaThemeRepository.cs:131-132 | ordering by `Name` is transitive, so `OrderBy(m => m.Name)` is well defined |
| `Themes.LiveRows` | src/Azunt.MediaThemeManagement/Azunt.MediaThemeManagement/03_Repositories/EfCore/MediaThemeRepository.cs:76-77 | `Where(m => !m.IsDeleted)` yields each stored non-deleted row exactly once, and nothing else |
| `Themes.MaxLiveOrder` | src/Azunt.MediaThemeManagement/Azunt.MediaThemeManagement/03_Repositories/EfCore/MediaThemeRepository.cs:62-64 | `MaxAsync((int?)DisplayOrder)` over non-deleted rows is null exactly when there are none; otherwise it is a live row's order that no live order exceeds |
| `Themes.SetOrder` | src/Azunt.MediaThemeManagement/Azunt.MediaThemeManagement/03_Repositories/AdoNet/MediaThemeRepositoryAdoNet.cs:188 | `UPDATE ... SET DisplayOrder = @NewOrder WHERE Id = @Id` changes that one field of that one row, with no deleted filter |
| `Themes.Swap` | src/Azunt.MediaThemeManagement/Azunt.MediaThemeManagement/03_Repositories/EfCore/MediaThemeRepository.cs:182-189 | the swap exchanges the two rows' display orders and leaves every other row, and every other field, unchanged |
| `Themes.Side` | src/Azunt.MediaThemeManagement/Azunt.MediaThemeManagement/03_Repositories/EfCore/MediaThemeRepository.cs:175-176 | the neighbour query selects exactly the non-deleted rows strictly below (up) or above (down) the target's order |
| `Themes.NearestUpMeans` | src/Azunt.MediaThemeManagement/Azunt.MediaThemeManagement/03_Repositories/EfCore/MediaThemeRepository.cs:175-178 | the row moving up swaps with is live, has an order below the target's, and has the greatest such order |
| `Themes.NearestDownMeans` | src/Azunt.MediaThemeManagement/Azunt.MediaThemeManagement/03_Repositories/EfCore/MediaThemeRepository.cs:201-204 | the row moving down swaps with is live, has an order above the target's, and has the least such order |
| `Themes.SideFacts` | src/Azunt.MediaThemeManagement/Azunt.MediaThemeManagement/03_Repositories/EfCore/MediaThemeRepository.cs:175-180 | a neighbour exists exactly when some live row lies strictly on that side; a nearest row lies there and no live row on that side is nearer |
| `Themes.NearestOrder` | src/Azunt.MediaThemeManagement/Azunt.MediaThemeManagement/03_Repositories/EfCore/MediaThemeRepository.cs:177 | `ORDER BY DisplayOrder DESC` / `ASC` puts first an order held by a row on that side, with no row on that side nearer |
| `Themes.Nearest` | src/Azunt.MediaThemeManagement/Azunt.MediaThemeManagement/03_Repositories/EfCore/MediaThemeRepository.cs:175-178 | the set of rows `FirstOrDefault` may return is non-empty, and is exactly the nearest rows |
| `Themes.Pick` | src/Azunt.MediaThemeManagement/Azunt.MediaThemeManagement/03_Repositories/EfCore/MediaThemeRepository.cs:178 | whatever row the engine picks first is a nearest neighbour |
| `Themes.PickCovers` | src/Azunt.MediaThemeManagement/Azunt.MediaThemeManagement/03_Repositories/AdoNet/MediaThemeRepositoryAdoNet.cs:170-173 | every tied nearest row is a possible answer of `TOP 1`, so the model leaves out none of the engine's choices |
| `Themes.PickUnique` | src/Azunt.MediaThemeManagement/Azunt.MediaThemeManagement/03_Repositories/AdoNet/MediaThemeRepositoryAdoNet.cs:170-173 | with distinct live orders, `TOP 1` has exactly one possible answer |
| `Themes.SwapKeepsLiveIds` | src/Azunt.MediaThemeManagement/Azunt.MediaThemeManagement/03_Repositories/EfCore/MediaThemeRepository.cs:182-189 | a swap neither hides nor reveals any row |
| `Themes.SwapKeepsLiveOrders` | src/Azunt.MediaThemeManagement/Azunt.MediaThemeManagement/03_Repositories/Dapper/MediaThemeRepositoryDapper.cs:134-139 | swapping two live rows leaves the multiset of live display orders unchanged |
| `Themes.SwapKeepsDistinct` | src/Azunt.MediaThemeManagement/Azunt.MediaThemeManagement/03_Repositories/Dapper/MediaThemeRepositoryDapper.cs:134-139 | swapping two live rows keeps live display orders pairwise distinct |
| `Listing.ParseSortOrder` | src/Azunt.MediaThemeManagement/Azunt.MediaThemeManagement/03_Repositories/EfCore/MediaThemeRepository.cs:129-135 | `"Name"` selects name ascending and `"NameDesc"` name descending, and only those strings do; every other string, `"DisplayOrder"` included, selects display order |
| `Listing.BeforeTotal` | src/Azunt.MediaThemeManagement/Azunt.MediaThemeManagement/03_Repositories/EfCore/MediaThemeRepository.cs:129-135 | under each sort key any two rows are comparable |
| `Listing.BeforeTransitive` | src/Azunt.MediaThemeManagement/Azunt.MediaThemeManagement/03_Repositories/EfCore/MediaThemeRepository.cs:129-135 | each sort key orders rows transitively |
| `Listing.Sort` | src/Azunt.MediaThemeManagement/Azunt.MediaThemeManagement/03_Repositories/EfCore/MediaThemeRepository.cs:129-135 | `OrderBy` returns a permutation of its input that is sorted under the key |
| `Listing.SkipTake` | src/Azunt.MediaThemeManagement/Azunt.MediaThemeManagement/03_Repositories/AdoNet/MediaThemeRepositoryAdoNet.cs:128-131 | LINQ `Skip(n).Take(m)`: a negative skip skips nothing, a non-positive take takes nothing, and otherwise the page holds the elements from position `n` on, at most `m` of them |
| `Listing.PageHolds` | src/Azunt.MediaThemeManagement/Azunt.MediaThemeManagement/03_Repositories/AdoNet/MediaThemeRepositoryAdoNet.cs:128-131 | with a positive page size, every position of one fixed list (the in-memory `filtered`) appears on the page its index falls in, at the expected offset |
| `Listing.SkipTakeWithin` | src/Azunt.MediaThemeManagement/Azunt.MediaThemeManagement/03_Repositories/AdoNet/MediaThemeRepositoryAdoNet.cs:128-131 | a page holds only rows of the list and keeps the list's newest-first order |
| `Listing.KeepNamed` | src/Azunt.MediaThemeManagement/Azunt.MediaThemeManagement/03_Repositories/AdoNet/MediaThemeRepositoryAdoNet.cs:126 | `Where(m => m.Name != null && m.Name.Contains(q))` keeps exactly the rows with a non-null name containing `q`, and keeps newest-first order |
| `SqlStatements.DescendingUnique` | src/Azunt.MediaThemeManagement/Azunt.MediaThemeManagement/03_Repositories/AdoNet/MediaThemeRepositoryAdoNet.cs:49 | two lists ordered `Id DESC` that hold the same rows are the same list |
| `SqlStatements.Project` | src/Azunt.MediaThemeManagement/Azunt.MediaThemeManagement/03_Repositories/AdoNet/MediaThemeRepositoryAdoNet.cs:55-62 | a row read back carries its id, `Active`, `Created`, `CreatedBy` and `Name`; `DisplayOrder` reads as 0 and `IsDeleted` as false, because those columns are not selected |
| `SqlStatements.SelectLive` | src/Azunt.MediaThemeManagement/Azunt.MediaThemeManagement/03_Repositories/AdoNet/MediaThemeRepositoryAdoNet.cs:49 | the list SELECT returns the projection of every live row, only those, once each, in strictly descending id order |
| `SqlStatements.SelectById` | src/Azunt.MediaThemeManagement/Azunt.MediaThemeManagement/03_Repositories/AdoNet/MediaThemeRepositoryAdoNet.cs:72 | the by-id SELECT finds a row exactly when that id is live, and returns its projection |
| `SqlStatements.InsertRow` | src/Azunt.MediaThemeManagement/Azunt.MediaThemeManagement/03_Repositories/AdoNet/MediaThemeRepositoryAdoNet.cs:25-28 | the INSERT adds one row under the new id, not deleted, with the column default order, and changes no existing row |
| `SqlStatements.UpdateActiveName` | src/Azunt.MediaThemeManagement/Azunt.MediaThemeManagement/03_Repositories/AdoNet/MediaThemeRepositoryAdoNet.cs:96-100 | the UPDATE affects one row exactly when the id is live, and changes only its `Active` and `Name` |
| `SqlStatements.SoftDelete` | src/Azunt.MediaThemeManagement/Azunt.MediaThemeManagement/03_Repositories/AdoNet/MediaThemeRepositoryAdoNet.cs:113 | the soft delete affects one row exactly when the id is live, and sets only its deleted flag |
| `SqlStatements.SelectOrderRow` | src/Azunt.MediaThemeManagement/Azunt.MediaThemeManagement/03_Repositories/AdoNet/MediaThemeRepositoryAdoNet.cs:158-165 | the target SELECT finds a row exactly when the id is live, and reads its current order |
| `SqlStatements.SelectNeighbour` | src/Azunt.MediaThemeManagement/Azunt.MediaThemeManagement/03_Repositories/AdoNet/MediaThemeRepositoryAdoNet.cs:169-180 | the `TOP 1` neighbour SELECT finds nothing exactly when no live row lies on that side; otherwise it returns a nearest row with its current order |
| `SqlStatements.SwapOrders` | src/Azunt.MediaThemeManagement/Azunt.MediaThemeManagement/03_Repositories/AdoNet/MediaThemeRepositoryAdoNet.cs:186-198 | the two UPDATEs, fed the orders just read, perform exactly the swap |
| `SqlStatements.Search` | src/Azunt.MediaThemeManagement/Azunt.MediaThemeManagement/03_Repositories/AdoNet/MediaThemeRepositoryAdoNet.cs:124-126 | the in-memory filter keeps exactly the rows the query matches (all when it is blank), and keeps newest-first order |
| `SqlStatements.Where` | src/Azunt.MediaThemeManagement/Azunt.MediaThemeManagement/03_Repositories/AdoNet/MediaThemeRepositoryAdoNet.cs:139-142 | the per-row filter of the options overload keeps exactly the matching rows |
| `SqlStatements.SearchIsWhere` | src/Azunt.MediaThemeManagement/Azunt.MediaThemeManagement/03_Repositories/AdoNet/MediaThemeRepositoryAdoNet.cs:136-142 | testing for a blank query once, or once per row, filters identically |
| `SqlStatements.ProjectRowsMembers` | src/Azunt.MediaThemeManagement/Azunt.MediaThemeManagement/03_Repositories/AdoNet/MediaThemeRepositoryAdoNet.cs:53-63 | the reader loop yields the projection of each selected row and nothing else |
| `SqlStatements.NewestFirstMembers` | src/Azunt.MediaThemeManagement/Azunt.MediaThemeManagement/03_Repositories/AdoNet/MediaThemeRepositoryAdoNet.cs:49-63 | reading a set of rows `ORDER BY Id DESC` yields exactly their projections, ids strictly descending |
| `SqlStatements.SearchSelectsMatches` | src/Azunt.MediaThemeManagement/Azunt.MediaThemeManagement/03_Repositories/AdoNet/MediaThemeRepositoryAdoNet.cs:123-126 | filtering the full newest-first list in memory gives the same list a `WHERE` on the matching rows would return |
| `SqlStatements.MemoryPage` | src/Azunt.MediaThemeManagement/Azunt.MediaThemeManagement/03_Repositories/AdoNet/MediaThemeRepositoryAdoNet.cs:128-133 | the total is the filtered count before slicing; the items are the `Skip(pageIndex * pageSize).Take(pageSize)` window, with the product wrapped to 32 bits, and hold at most `pageSize` rows |
| `EfCoreRepository.AddDefault` | src/Azunt.MediaThemeManagement/Azunt.MediaThemeManagement/03_Repositories/EfCore/MediaThemeRepository.cs:45-53 | the stored and returned row is the model with the issued id, the current time and the deleted flag cleared; no existing row changes |
| `EfCoreRepository.Add` | src/Azunt.MediaThemeManagement/Azunt.MediaThemeManagement/03_Repositories/EfCore/MediaThemeRepository.cs:55-71 | the row is stored as returned: model fields, issued id, current time, not deleted. Its order is 1 on an empty table and one more than some live order, above every live order, unless a live row holds `int.MaxValue`; then it wraps to `int.MinValue`. Deleted rows are untouched |
| `EfCoreRepository.AddChecked` | src/Azunt.MediaThemeManagement/Azunt.MediaThemeManagement/03_Repositories/EfCore/MediaThemeRepository.cs:55-71 | the corrected insert fails, changing nothing, exactly when a live row holds `int.MaxValue`; otherwise the new row's order is 1 or one more than a live order, and above every live order |
| `EfCoreRepository.GetAll` | src/Azunt.MediaThemeManagement/Azunt.MediaThemeManagement/03_Repositories/EfCore/MediaThemeRepository.cs:73-81 | returns exactly the non-deleted rows, each once (a permutation of them), in non-decreasing display order |
| `EfCoreRepository.GetById` | src/Azunt.MediaThemeManagement/Azunt.MediaThemeManagement/03_Repositories/EfCore/MediaThemeRepository.cs:83-90 | the stored row when that id is live, else the empty sentinel with id 0 |
| `EfCoreRepository.Update` | src/Azunt.MediaThemeManagement/Azunt.MediaThemeManagement/03_Repositories/EfCore/MediaThemeRepository.cs:92-98 | overwrites the whole row with the model's id, deleted flag and display order included, with no soft-delete guard; with no such row it fails and changes nothing |
| `EfCoreRepository.Delete` | src/Azunt.MediaThemeManagement/Azunt.MediaThemeManagement/03_Repositories/EfCore/MediaThemeRepository.cs:100-109 | true exactly when the id is live, and then only the deleted flag of that row changes; otherwise false with no change |
| `EfCoreRepository.Query` | src/Azunt.MediaThemeManagement/Azunt.MediaThemeManagement/03_Repositories/EfCore/MediaThemeRepository.cs:119-135 | the filtered query holds exactly the live rows the search matches under the collation, once each, sorted by the chosen key, for every order in which the engine meets the rows |
| `EfCoreRepository.QueryCovers` | src/Azunt.MediaThemeManagement/Azunt.MediaThemeManagement/03_Repositories/EfCore/MediaThemeRepository.cs:129-135 | every sorted list that names each matching live row once is the query's result for some arrival order, so no order SQL Server may give tied rows is excluded |
| `EfCoreRepository.GetPage` | src/Azunt.MediaThemeManagement/Azunt.MediaThemeManagement/03_Repositories/EfCore/MediaThemeRepository.cs:111-144 | fails exactly when the wrapped offset or the page size is negative. Otherwise the total is the filtered count before slicing, and the items are the offset window of the sorted query, in the tie order of this request: at most `pageSize` rows, all live and matching |
| `EfCoreRepository.GetPageWithOptions` | src/Azunt.MediaThemeManagement/Azunt.MediaThemeManagement/03_Repositories/EfCore/MediaThemeRepository.cs:146-167 | the options overload is the paged query with display-order sorting |
| `EfCoreRepository.Move` | src/Azunt.MediaThemeManagement/Azunt.MediaThemeManagement/03_Repositories/EfCore/MediaThemeRepository.cs:169-219 | true exactly when the target is live and some live row lies on that side. Then the table is the swap with a nearest such row; otherwise it is unchanged |
| `EfCoreRepository.MoveUp` | src/Azunt.MediaThemeManagement/Azunt.MediaThemeManagement/03_Repositories/EfCore/MediaThemeRepository.cs:169-193 | false with no change when the target is missing, deleted or has no live row below it; otherwise it swaps with a nearest lower row and nothing else changes |
| `EfCoreRepository.MoveDown` | src/Azunt.MediaThemeManagement/Azunt.MediaThemeManagement/03_Repositories/EfCore/MediaThemeRepository.cs:195-219 | the mirror image of `MoveUp`, swapping with a nearest higher row |
| `AdoNetRepository.Add` | src/Azunt.MediaThemeManagement/Azunt.MediaThemeManagement/03_Repositories/AdoNet/MediaThemeRepositoryAdoNet.cs:21-42 | with no id returned it fails and inserts nothing. Otherwise it inserts one row with `Active ?? true`, the current time, not deleted, with the column default order, and returns the model with only its id set |
| `AdoNetRepository.GetAll` | src/Azunt.MediaThemeManagement/Azunt.MediaThemeManagement/03_Repositories/AdoNet/MediaThemeRepositoryAdoNet.cs:44-66 | exactly the projections of the live rows, newest id first |
| `AdoNetRepository.GetById` | src/Azunt.MediaThemeManagement/Azunt.MediaThemeManagement/03_Repositories/AdoNet/MediaThemeRepositoryAdoNet.cs:68-90 | for a live id, a fresh row holding the five selected columns, with `DisplayOrder` 0 and `IsDeleted` false; else the empty sentinel |
| `AdoNetRepository.Update` | src/Azunt.MediaThemeManagement/Azunt.MediaThemeManagement/03_Repositories/AdoNet/MediaThemeRepositoryAdoNet.cs:92-107 | true exactly when the id is live; then only `Active` (null becomes true) and `Name` change |
| `AdoNetRepository.Delete` | src/Azunt.MediaThemeManagement/Azunt.MediaThemeManagement/03_Repositories/AdoNet/MediaThemeRepositoryAdoNet.cs:109-118 | true exactly when the id is live, and then only that row's deleted flag changes |
| `AdoNetRepository.GetPage` | src/Azunt.MediaThemeManagement/Azunt.MediaThemeManagement/03_Repositories/AdoNet/MediaThemeRepositoryAdoNet.cs:120-134 | the total is the number of live rows the query matches (all when it is blank). The items are the wrapped `Skip`/`Take` window of those rows, newest first whatever `sortOrder` says, at most `pageSize` of them |
| `AdoNetRepository.GetPageWithOptions` | src/Azunt.MediaThemeManagement/Azunt.MediaThemeManagement/03_Repositories/AdoNet/MediaThemeRepositoryAdoNet.cs:136-150 | the options overload returns what the paged query returns for any `sortOrder` |
| `AdoNetRepository.Move` | src/Azunt.MediaThemeManagement/Azunt.MediaThemeManagement/03_Repositories/AdoNet/MediaThemeRepositoryAdoNet.cs:152-266 | true exactly when the target is live, a live row lies on that side, and the transaction does not fault. Then the table is the swap with a nearest row; otherwise, rollback included, it is unchanged |
| `AdoNetRepository.MoveUp` | src/Azunt.MediaThemeManagement/Azunt.MediaThemeManagement/03_Repositories/AdoNet/MediaThemeRepositoryAdoNet.cs:152-208 | false with no change when the target is missing or deleted, nothing lies below it, or the transaction rolls back; otherwise it swaps with a nearest lower row |
| `AdoNetRepository.MoveDown` | src/Azunt.MediaThemeManagement/Azunt.MediaThemeManagement/03_Repositories/AdoNet/MediaThemeRepositoryAdoNet.cs:210-266 | the mirror image of `MoveUp` |
| `DapperRepository.Add` | src/Azunt.MediaThemeManagement/Azunt.MediaThemeManagement/03_Repositories/Dapper/MediaThemeRepositoryDapper.cs:21-33 | returns the model with the current time and the issued id, or id 0 when none comes back, in which case nothing is inserted. Otherwise it inserts one row with `Active` as given (null stays null), not deleted, with the column default order |
| `DapperRepository.GetAll` | src/Azunt.MediaThemeManagement/Azunt.MediaThemeManagement/03_Repositories/Dapper/MediaThemeRepositoryDapper.cs:35-45 | exactly the projections of the live rows, newest id first |
| `DapperRepository.GetById` | src/Azunt.MediaThemeManagement/Azunt.MediaThemeManagement/03_Repositories/Dapper/MediaThemeRepositoryDapper.cs:47-56 | for a live id, a row mapped from the five selected columns, with `DisplayOrder` 0 and `IsDeleted` false; else the empty sentinel |
| `DapperRepository.Update` | src/Azunt.MediaThemeManagement/Azunt.MediaThemeManagement/03_Repositories/Dapper/MediaThemeRepositoryDapper.cs:58-69 | true exactly when the id is live; then only `Active` (as given) and `Name` change |
| `DapperRepository.Delete` | src/Azunt.MediaThemeManagement/Azunt.MediaThemeManagement/03_Repositories/Dapper/MediaThemeRepositoryDapper.cs:71-80 | true exactly when the id is live, and then only that row's deleted flag changes |
| `DapperRepository.GetPage` | src/Azunt.MediaThemeManagement/Azunt.MediaThemeManagement/03_Repositories/Dapper/MediaThemeRepositoryDapper.cs:82-96 | the total is the number of matching live rows. The items are their wrapped `Skip`/`Take` window, newest first, with `sortOrder` ignored, at most `pageSize` of them |
| `DapperRepository.GetPageWithOptions` | src/Azunt.MediaThemeManagement/Azunt.MediaThemeManagement/03_Repositories/Dapper/MediaThemeRepositoryDapper.cs:98-112 | the options overload returns what the paged query returns for any `sortOrder` |
| `DapperRepository.Move` | src/Azunt.MediaThemeManagement/Azunt.MediaThemeManagement/03_Repositories/Dapper/MediaThemeRepositoryDapper.cs:114-170 | true exactly when the target is live with a non-zero id, a live row lies on that side, and the row picked is not id 0. Then the table is the swap with that nearest row; otherwise it is unchanged. With no live row 0, a live non-zero target with a neighbour always moves |
| `DapperRepository.MoveUp` | src/Azunt.MediaThemeManagement/Azunt.MediaThemeManagement/03_Repositories/Dapper/MediaThemeRepositoryDapper.cs:114-141 | as the ADO.NET `MoveUp`, but id 0 reads as "not found" for the target and for the neighbour |
| `DapperRepository.MoveDown` | src/Azunt.MediaThemeManagement/Azunt.MediaThemeManagement/03_Repositories/Dapper/MediaThemeRepositoryDapper.cs:143-170 | the mirror image of `MoveUp` |
| `RepositoryLaws.SwapTwice` | src/Azunt.MediaThemeManagement/Azunt.MediaThemeManagement/03_Repositories/EfCore/MediaThemeRepository.cs:182-189 | the swap is an involution |
| `RepositoryLaws.NearestUnique` | src/Azunt.MediaThemeManagement/Azunt.MediaThemeManagement/03_Repositories/EfCore/MediaThemeRepository.cs:175-178 | with distinct live orders there is one nearest neighbour |
| `RepositoryLaws.UpSwapLeavesNeighbourBelow` | src/Azunt.MediaThemeManagement/Azunt.MediaThemeManagement/03_Repositories/EfCore/MediaThemeRepository.cs:169-193 | after moving up past `n` with distinct orders, `n` is the nearest row below the moved row |
| `RepositoryLaws.DownSwapLeavesNeighbourAbove` | src/Azunt.MediaThemeManagement/Azunt.MediaThemeManagement/03_Repositories/EfCore/MediaThemeRepository.cs:195-219 | after moving down past `n` with distinct orders, `n` is the nearest row above the moved row |
| `RepositoryLaws.MoveTo` | src/Azunt.MediaThemeManagement/Azunt.MediaThemeManagement/03_Repositories/EfCore/MediaThemeRepository.cs:169-219 | with distinct live orders, a reorder of a live row with a neighbour succeeds and swaps with that one neighbour |
| `RepositoryLaws.MoveUpThenDown` | src/Azunt.MediaThemeManagement/Azunt.MediaThemeManagement/03_Repositories/EfCore/MediaThemeRepository.cs:169-219 | with distinct live orders, a successful `MoveUp` followed by `MoveDown` of the same row succeeds and restores the table exactly |
| `RepositoryLaws.MoveDownThenUp` | src/Azunt.MediaThemeManagement/Azunt.MediaThemeManagement/03_Repositories/EfCore/MediaThemeRepository.cs:169-219 | with distinct live orders, a successful `MoveDown` followed by `MoveUp` restores the table exactly |
| `RepositoryLaws.MovePreservesOrders` | src/Azunt.MediaThemeManagement/Azunt.MediaThemeManagement/03_Repositories/EfCore/MediaThemeRepository.cs:182-191 | a reorder keeps the multiset of live display orders and the set of live rows, and keeps distinct orders distinct |
| `RepositoryLaws.AdoMovePreservesOrders` | src/Azunt.MediaThemeManagement/Azunt.MediaThemeManagement/03_Repositories/AdoNet/MediaThemeRepositoryAdoNet.cs:183-207 | the transactional reorder, committed or rolled back, keeps the multiset of live orders and the set of live rows |
| `RepositoryLaws.DapperMovePreservesOrders` | src/Azunt.MediaThemeManagement/Azunt.MediaThemeManagement/03_Repositories/Dapper/MediaThemeRepositoryDapper.cs:134-139 | the Dapper reorder keeps the multiset of live orders and the set of live rows |
| `RepositoryLaws.AdoMoveAgreesWithEf` | src/Azunt.MediaThemeManagement/Azunt.MediaThemeManagement/03_Repositories/AdoNet/MediaThemeRepositoryAdoNet.cs:152-208 | without a fault, the ADO.NET reorder gives the same table and result as the Entity Framework one, for every tie choice |
| `RepositoryLaws.DapperMoveAgreesWithEf` | src/Azunt.MediaThemeManagement/Azunt.MediaThemeManagement/03_Repositories/Dapper/MediaThemeRepositoryDapper.cs:126-130 | when no live row has id 0 and the target id is not 0, the Dapper reorder equals the Entity Framework one |
| `RepositoryLaws.DapperSkipsIdZero` | src/Azunt.MediaThemeManagement/Azunt.MediaThemeManagement/03_Repositories/Dapper/MediaThemeRepositoryDapper.cs:156 | on a table with a live row 0, Entity Framework moves that row down and Dapper reports false |
| `RepositoryLaws.SqlReadsAgree` | src/Azunt.MediaThemeManagement/Azunt.MediaThemeManagement/03_Repositories/Dapper/MediaThemeRepositoryDapper.cs:35-112 | the Dapper reads (list, by id, both paged queries) return exactly what the ADO.NET reads return on every table |
| `RepositoryLaws.TiedQuery` | src/Azunt.MediaThemeManagement/Azunt.MediaThemeManagement/03_Repositories/EfCore/MediaThemeRepository.cs:129-135 | on two live rows with equal display orders, the query lists them in whichever order the engine meets them |
| `RepositoryLaws.TiedPage` | src/Azunt.MediaThemeManagement/Azunt.MediaThemeManagement/03_Repositories/EfCore/MediaThemeRepository.cs:137-143 | on those two rows, page `i` of size 1 holds the `i`-th row of that request's query, with total 2 |
| `RepositoryLaws.EfPagesMayRepeat` | src/Azunt.MediaThemeManagement/Azunt.MediaThemeManagement/03_Repositories/EfCore/MediaThemeRepository.cs:129-143 | two requests for pages 0 and 1 that meet the tied rows in different orders both return the same row, and the other row is never shown |
| `RepositoryLaws.DeletesAgree` | src/Azunt.MediaThemeManagement/Azunt.MediaThemeManagement/03_Repositories/AdoNet/MediaThemeRepositoryAdoNet.cs:109-118 | the three soft deletes give the same table and result |
| `RepositoryLaws.DeleteTwice` | src/Azunt.MediaThemeManagement/Azunt.MediaThemeManagement/03_Repositories/EfCore/MediaThemeRepository.cs:100-109 | a second delete of the same id returns false and changes nothing |
| `RepositoryLaws.DeleteHides` | src/Azunt.MediaThemeManagement/Azunt.MediaThemeManagement/03_Repositories/EfCore/MediaThemeRepository.cs:83-90 | after a delete, lookup by that id yields the sentinel, and the live rows are the previous ones minus that id |
| `RepositoryLaws.SqlUpdatesAgree` | src/Azunt.MediaThemeManagement/Azunt.MediaThemeManagement/03_Repositories/Dapper/MediaThemeRepositoryDapper.cs:58-69 | the two SQL updates agree when `Active` is set; with a null `Active` ADO.NET stores true and Dapper stores null |
| `RepositoryLaws.EfUpdateRevives` | src/Azunt.MediaThemeManagement/Azunt.MediaThemeManagement/03_Repositories/EfCore/MediaThemeRepository.cs:92-98 | the Entity Framework update can clear the deleted flag of a deleted row, while both SQL updates return false and change nothing |
| `RepositoryLaws.AddThenGet` | src/Azunt.MediaThemeManagement/Azunt.MediaThemeManagement/03_Repositories/EfCore/MediaThemeRepository.cs:55-90 | a row just added reads back by its id: as returned (Entity Framework), or as its selected columns (ADO.NET with `Active ?? true`, Dapper as given) |
| `RepositoryLaws.UpdateThenGet` | src/Azunt.MediaThemeManagement/Azunt.MediaThemeManagement/03_Repositories/EfCore/MediaThemeRepository.cs:92-98 | a row just updated with a non-deleted model reads back as that model |
| `RepositoryLaws.SqlAddKeepsOrdersZero` | src/Azunt.MediaThemeManagement/Azunt.MediaThemeManagement/03_Repositories/AdoNet/MediaThemeRepositoryAdoNet.cs:25-28 | SQL inserts keep every live display order at 0 |
| `RepositoryLaws.ZeroOrdersBlockMoves` | src/Azunt.MediaThemeManagement/Azunt.MediaThemeManagement/03_Repositories/AdoNet/MediaThemeRepositoryAdoNet.cs:169-177 | when every live order is 0, no reorder in any repository finds a neighbour |
| `RepositoryLaws.MoveUpExample` | src/Azunt.MediaThemeManagement/Azunt.MediaThemeManagement/03_Repositories/EfCore/MediaThemeRepository.cs:169-193 | orders 1, 2, 3: moving the third up gives orders 1, 3, 2 |
| `RepositoryLaws.AddWrapsPastMax` | src/Azunt.MediaThemeManagement/Azunt.MediaThemeManagement/03_Repositories/EfCore/MediaThemeRepository.cs:62-66 | on a table whose one live row holds `int.MaxValue`, the added row gets `int.MinValue` and sorts before that row |
| `RepositoryLaws.AddAtMaxMisplaces` | src/Azunt.MediaThemeManagement/Azunt.MediaThemeManagement/03_Repositories/EfCore/MediaThemeRepository.cs:62-66 | whenever a live row holds `int.MaxValue`, the row `Add` inserts sorts below it, and `AddChecked` refuses instead |
| `RepositoryLaws.AddCheckedAgrees` | src/Azunt.MediaThemeManagement/Azunt.MediaThemeManagement/03_Repositories/EfCore/MediaThemeRepository.cs:55-71 | below the overflow, the corrected insert is exactly the insert as written |
| `RepositoryLaws.AddBelowMax` | src/Azunt.MediaThemeManagement/Azunt.MediaThemeManagement/03_Repositories/EfCore/MediaThemeRepository.cs:62-70 | when every live order is below `int.MaxValue`, the maximum plus one fits, and `AddAsync` stores and returns the model with that order |

## Left out

- Connections, `DbContext` life cycle and transactions are not modelled. Each operation is one atomic step on the table. Concurrent callers, and the race between a reorder's reads and its UPDATEs, are not modelled.
- The clock is an input (`now`). Identity values are an input too (`newId`, `issued`), constrained only to be positive and unused.
- Store failures are left out of the Entity Framework and Dapper reorders and inserts: connectivity, constraints, and the exception Dapper's transaction would propagate. Only the ADO.NET reorder has a modelled failure, the `fault` flag, because only it catches and rolls back.
- `EfCoreRepository.Add` does not model a model whose `Id` is already set. The ORM would try to insert that id, which the identity column refuses. The model always inserts under an issued id.
- `AdoNetRepository.Add` does not model the `(long)` cast of the returned scalar failing for a non-`long` value.
- Ids are `long` in the source and unbounded here. Identity exhaustion is not modelled.
- The column default for `DisplayOrder` is assumed to be 0 (`ColumnDefaultOrder`). The table definition is not part of this model.
- Strings are sequences of Unicode scalar values. The lone UTF-16 surrogates a .NET string may hold are not modelled. Ordinal matching agrees with .NET on well-formed text.
- Collations are modelled as per-character weights. SQL Server's padding of trailing blanks in comparisons, and the `LIKE` escaping of `Contains`, are not modelled.
- `EfCoreRepository.GetAll` does not fix the order of rows that tie on `DisplayOrder`. The database promises none; the contract states sortedness and the set of rows.
- `EfCoreRepository.GetPage` treats a page size of 0 as an empty page. SQL Server's handling of `FETCH NEXT 0 ROWS` is not modelled.
- `totalCount` is an unbounded count. A count beyond `int.MaxValue` is not modelled.
- `searchField` and the parent identifier are ignored by every implementation, and are left out of the model. `FilterOptions` is reduced to page index, page size and query.
- Validation attributes on `Name` (required, at most 100 characters) are not modelled. No repository method enforces them.
- Dependency-injection wiring, the `DbContext` configuration, the Blazor UI and the Excel export are not modelled: they are not repository logic.

## Findings

| source | as written | input that shows it | evidently intended | confidence | as-written member | corrected member |
|---|---|---|---|---|---|---|
| src/Azunt.MediaThemeManagement/Azunt.MediaThemeManagement/03_Repositories/EfCore/MediaThemeRepository.cs:62-66 | the new display order is `maxDisplayOrder + 1` in unchecked `int` arithmetic | one live row with `DisplayOrder = int.MaxValue` (reachable through `UpdateAsync`, which writes any order); `AddAsync` then stores `int.MinValue`, and the new row is listed first instead of last | a new row goes after every live row, or the insert fails | not executed; medium | `EfCoreRepository.Add`, exhibited by `RepositoryLaws.AddWrapsPastMax` and `RepositoryLaws.AddAtMaxMisplaces` | `EfCoreRepository.AddChecked`, related to the original by `RepositoryLaws.AddCheckedAgrees` |
