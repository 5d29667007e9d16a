# MonoVehicle listings in Dafny

A model of the read side of MonoVehicle, a small ASP.NET Core MVC application
that manages vehicle makes (manufacturers) and vehicle models. It covers:

- `PaginatedList<T>`, which turns an ordered source, a 1-based page index
  and a page size into one page of items plus `PageIndex`, `TotalPages`,
  `HasPreviousPage` and `HasNextPage`;
- the `Index` action of `VehicleModelsController`, which sets the sort-link
  toggles, decides the effective filter and page (a new search term restarts
  at page 1, otherwise `currentFilter` and `pageNumber` carry over), keeps the
  models whose make's name contains the term, orders them by one of six keys
  and pages them three at a time;
- the `Index` action of `VehicleMakesController`, which filters makes on
  name or abbreviation, orders them by one of four keys and returns the
  whole list, unpaged;
- the data-annotation rules on `VehicleMake` and `VehicleModel`.

Files and modules:

| file | module | models |
|---|---|---|
| `nullable.dfy` | `Nullable` | C# `null` and `int?` as `Option`, `??` as `GetOr` |
| `text.dfy` | `Text` | `IsNullOrEmpty`, whitespace, the case fold, `Contains`, the order on string keys |
| `linq.dfy` | `Linq` | `Where`, `OrderBy` / `OrderByDescending` |
| `pagination.dfy` | `Pagination` | `MonoVehicle/PaginatedList.cs` |
| `vehicles.dfy` | `Vehicles` | `MonoVehicle/Models/VehicleMake.cs`, `MonoVehicle/Models/VehicleModel.cs` |
| `makes_listing.dfy` | `MakesListing` | `VehicleMakesController.Index` |
| `models_listing.dfy` | `ModelsListing` | `VehicleModelsController.Index` |

The entity store is a `seq` of records; each `VehicleModel` carries its
`VehicleMake`, which is what `Include(v => v.Make)` loads. A controller action
is a method whose inputs are the store and the query parameters (`null`
being `None`) and whose outputs are the `ViewData` entries it writes, as a
record with one field per entry (`MakesViewData`, `ModelsViewData`), and the
result handed to the view. `PaginatedList<T>` is a class: its
constructor sets `PageIndex` and `TotalPages` and appends the items to the
list (the field `Items`), and `Create` (the source's `CreateAsync`) counts
the whole source and takes one page of it.

Sorting is specified, as the database leaves the order of equal keys open,
by two facts only: the output is ordered by the key (null first when
ascending, as SQL Server orders it) and it is a permutation of the input.
Filtering is specified by multiplicities: a record that matches appears as
often as in the store, any other not at all.

## Model

| member | source | states |
|---|---|---|
| `Pagination.TotalPagesFor` | MonoVehicle/PaginatedList.cs:19 | the page count is the ceiling of count / pageSize: `(pages - 1) * pageSize < count <= pages * pageSize` |
| `Pagination.TotalPagesZeroIffEmpty` | MonoVehicle/PaginatedList.cs:19 | for count >= 0 the page count is never negative and is 0 exactly when there are no items |
| `Pagination.TakeSkipSplit` | MonoVehicle/PaginatedList.cs:46 | for every n, `Take(n)` followed by `Skip(n)` gives back the whole source: the two operators split it without losing or repeating an item |
| `Pagination.SkipSkip` | MonoVehicle/PaginatedList.cs:46 | skipping a and then b items (a, b >= 0) is skipping a + b items, so consecutive pages start where the previous one ended |
| `Pagination.PageSliceItems` | MonoVehicle/PaginatedList.cs:46 | page p holds the source items from position (p - 1) * pageSize on (from 0 when negative), at most pageSize of them, in source order, and exactly that many when the source has them |
| `Pagination.PaginatedList.constructor` | MonoVehicle/PaginatedList.cs:14-23 | `PageIndex` is stored exactly as passed (no clamping), `TotalPages` is the ceiling of count / pageSize, the list holds exactly the given items in order |
| `Pagination.PaginatedList.Create` | MonoVehicle/PaginatedList.cs:40-49 | a new list whose page count comes from the length of the whole source, not of the page, and whose items are that page's slice |
| `Pagination.ItemOnItsPage` | MonoVehicle/PaginatedList.cs:40-48 | every source item i lies on page i / pageSize + 1, which is within the page count, at position i % pageSize |
| `Pagination.PastLastPage` | MonoVehicle/PaginatedList.cs:32-46 | a page index beyond the last page gives an empty page and no next page, and, for a non-empty source, a previous page; it is not an error |
| `Pagination.HasNextIffNextPageNonEmpty` | MonoVehicle/PaginatedList.cs:32-36 | from page 1 on, `HasNextPage` holds exactly when the following page has items |
| `Pagination.HasPreviousIffItemsBefore` | MonoVehicle/PaginatedList.cs:26-30 | from page 1 on, `HasPreviousPage` holds exactly when the page starts after the first source item |
| `Pagination.SinglePage` | MonoVehicle/PaginatedList.cs:40-48 | a non-empty source of at most pageSize items makes one page, and page 1 is the whole source |
| `Pagination.SevenItemsSecondPage` | MonoVehicle/PaginatedList.cs:19-46 | seven items at three per page: three pages, page 2 is items 4 to 6, both links enabled |
| `Text.ContainsIffOccurs` | MonoVehicle/Controllers/VehicleMakesController.cs:34-36 | the substring scan succeeds exactly when the term occurs, case-insensitively, at some position |
| `Text.ContainsLength` | MonoVehicle/Controllers/VehicleMakesController.cs:35-36 | the empty term is in every string; a term longer than the string is not |
| `Text.ContainsIgnoresCase` | MonoVehicle/Controllers/VehicleModelsController.cs:50-53 | upper-casing the search term finds exactly the same strings |
| `Text.FoldProperties` | MonoVehicle/Controllers/VehicleMakesController.cs:34 | the case fold is idempotent, and it maps the lower-case form of every upper-case ASCII letter back to that letter |
| `Text.KeyLeTotal` | MonoVehicle/Controllers/VehicleMakesController.cs:39-53 | any two nullable string keys are comparable |
| `Text.KeyLeTransitive` | MonoVehicle/Controllers/VehicleMakesController.cs:39-53 | the key order is transitive, so a sorted order exists |
| `Text.KeyLeReflexive` | MonoVehicle/Controllers/VehicleMakesController.cs:39-53 | every key is ordered before or equal to itself |
| `Linq.Where` | MonoVehicle/Controllers/VehicleModelsController.cs:53 | the filter keeps every element that satisfies the predicate, as often as it occurs, and no other |
| `MakesListing.ListedMembers` | MonoVehicle/Controllers/VehicleMakesController.cs:29-37 | a listing that keeps each listed make as often as stored contains a make exactly when the store has it and it is listed |
| `Linq.OrderBy` | MonoVehicle/Controllers/VehicleModelsController.cs:56-76 | the sort returns a permutation of its input ordered by the key, ascending or descending |
| `Vehicles.NameRule` | MonoVehicle/Models/VehicleMake.cs:14-17 | a `Name` (of a make, and by the same rule at VehicleModel.cs:15-18 of a model) is valid iff present, not whitespace-only and 2 to 100 characters long |
| `Vehicles.BlankNameRejected` | MonoVehicle/Models/VehicleModel.cs:15-18 | a two-space name is rejected although long enough; "VW" is accepted |
| `Vehicles.MakeAbrvExactlyThree` | MonoVehicle/Models/VehicleMake.cs:19-22 | a non-blank make abbreviation is valid iff it has exactly 3 characters |
| `Vehicles.ModelAbrvRelaxesMakeAbrv` | MonoVehicle/Models/VehicleModel.cs:20-22 | every valid make abbreviation is a valid model abbreviation; "ABCDE" is valid for a model and not for a make |
| `Vehicles.ModelAbrvUnbounded` | MonoVehicle/Models/VehicleModel.cs:20-22 | a model abbreviation has no upper length bound: there is a valid one of every length |
| `Vehicles.ValidityIgnoresKeys` | MonoVehicle/Models/VehicleModel.cs:11-24 | validity depends on neither `Id`, `MakeId` nor the `Make` navigation |
| `MakesListing.MakeMatchesIffOccurs` | MonoVehicle/Controllers/VehicleMakesController.cs:32-37 | a make matches the search exactly when the term occurs in its name or its abbreviation |
| `MakesListing.Index` | MonoVehicle/Controllers/VehicleMakesController.cs:23-56 | sets `NameSortParm` to "name_desc" iff the sort key is null or empty (else ""), `AbrvSortParm` to "abrv_desc" iff it is "Abrv" (else "Abrv"), echoes `searchString` as `CurrentFilter`; returns every matching make (all of them for a null or empty term) exactly as often as stored, ordered by name descending, abbreviation ascending or descending for the three keys and by name ascending otherwise |
| `ModelsListing.ModelMatchesIffMakeNameOccurs` | MonoVehicle/Controllers/VehicleModelsController.cs:47-54 | a model matches exactly when the term occurs in its make's name; its own name and abbreviation are not searched |
| `ModelsListing.Index` | MonoVehicle/Controllers/VehicleModelsController.cs:24-84 | echoes the sort key as `CurrentSort`, sets the three toggles; a non-null `searchString` (even empty) becomes the filter and resets the page to 1, otherwise `currentFilter` is the filter and the page is `pageNumber ?? 1`; the page is, at size 3, a slice of some complete listing of the matching models, ordered by the requested key (name ascending for unknown or null keys), with the page count taken from that whole listing |

## Left out

- The `Details`, `Create`, `Edit`, `EditPost`, `Delete` and `DeleteConfirmed` actions of both controllers: they are persistence, form binding, redirects and `TempData` messages over a store this model does not have.
- `async`/`await`, `CountAsync`, `ToListAsync`, `AsNoTracking` and the translation of queries to SQL: the store is an in-memory sequence and every operator is applied to it directly.
- Case-insensitive comparison and ordering come from the database collation, not from the code. The model compares through a fold of ASCII letters and orders strings lexicographically by folded code point; the collation's own rules (accents, culture, other scripts) are not modelled.
- `Pagination.TotalPagesFor`: the source computes `Math.Ceiling(count / (double)pageSize)` in floating point; the model uses exact integer ceiling division and requires `pageSize >= 1` (the only call site passes 3). Rounding of very large counts is not modelled.
- 32-bit `int` overflow, including of `(pageIndex - 1) * pageSize`: integers are unbounded.
- `Pagination.Skip`: a negative skip (a page index of 0 or less) skips nothing, as LINQ to objects does; a database provider that rejects a negative offset is not modelled.
- `Pagination.HasNextIffNextPageNonEmpty` and `Pagination.HasPreviousIffItemsBefore` are stated for page indexes of 1 or more only; for smaller indexes `HasNextPage` can hold over an empty source.
- `Linq.OrderBy`: the order of records with equal keys is left to the database, so only sortedness and permutation are stated.
- The `VehicleModels` collection of `VehicleMake` is not represented: it carries no constraint and no listing reads it.
- A model whose make cannot be loaded: the make reference is a required foreign key, joined as an inner join, so every model in the store carries its make.
- `VehicleModelViewModel` and `MonoVehicle/Migrations/20201024153828_ChangeModelAbrvLength.cs` are not part of this model: no listing builds the view model, and the migration only documents that the 3-character limit on model abbreviations was dropped.
- `ViewData` entries other than the sort toggles, `CurrentSort` and `CurrentFilter`, and all HTML rendering.
- String lengths are counted in Unicode scalar values; .NET counts UTF-16 code units, so characters outside the Basic Multilingual Plane count once here and twice there.
- `VehicleMakesController.Index` returns the whole list unpaged, and `VehicleModelsController.Index` pages `VehicleModel` records directly; no flattened view row is built (`VehicleModelViewModel` is not used by any listing).
