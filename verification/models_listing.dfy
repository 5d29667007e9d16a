/**
 * `VehicleModelsController.Index`: the paged list of models, searched on
 * the name of their make, sorted by one of six keys, three per page.
 */
module ModelsListing {
  import opened Nullable
  import opened Text
  import opened Linq
  import opened Pagination
  import opened Vehicles

  /** The `ViewData` entries the action writes for the view. */
  datatype ModelsViewData = ModelsViewData(currentSort: Option<string>, nameSortParm: string, abrvSortParm: string,
                                           makeSortParm: string, currentFilter: Option<string>)

  /** Rows per page of the models listing. */
  const PageSize := 3

  /** Sort key `m => m.Name`. */
  function Name(m: VehicleModel): Option<string> {
    m.name
  }

  /** Sort key `m => m.Abrv`. */
  function Abrv(m: VehicleModel): Option<string> {
    m.abrv
  }

  /** Sort key `m => m.Make.Name`. */
  function MakeName(m: VehicleModel): Option<string> {
    m.make.name
  }

  /** The search looks at the make's name only, never at the model's own fields. */
  predicate ModelMatches(m: VehicleModel, term: string) {
    FieldContains(m.make.name, term)
  }

  /** A model is listed when the effective filter is null or empty or when it matches it. */
  predicate Listed(m: VehicleModel, filter: Option<string>) {
    IsNullOrEmpty(filter) || ModelMatches(m, filter.value)
  }

  /**
   * A model matches exactly when the term occurs, ignoring case, in its
   * make's name; its own name and abbreviation do not matter.
   */
  lemma ModelMatchesIffMakeNameOccurs(m: VehicleModel, term: string, name: Option<string>, abrv: Option<string>)
    ensures ModelMatches(m, term) <==> m.make.name.Some? && exists i :: OccursAt(m.make.name.value, term, i)
    ensures ModelMatches(m.(name := name, abrv := abrv), term) == ModelMatches(m, term)
  {
    if m.make.name.Some? { ContainsIffOccurs(m.make.name.value, term); }
  }

  /** `o` is ordered as the sort key `sortOrder` asks; an unknown or null key orders by name. */
  ghost predicate OrderedFor(o: seq<VehicleModel>, sortOrder: Option<string>) {
    if sortOrder == Some("name_desc") then SortedBy(o, Name, Descending)
    else if sortOrder == Some("Abrv") then SortedBy(o, Abrv, Ascending)
    else if sortOrder == Some("abrv_desc") then SortedBy(o, Abrv, Descending)
    else if sortOrder == Some("make_desc") then SortedBy(o, MakeName, Descending)
    else if sortOrder == Some("MakeName") then SortedBy(o, MakeName, Ascending)
    else SortedBy(o, Name, Ascending)
  }

  /** `o` is a complete listing: exactly the listed models, each as often as stored, in the requested order. */
  ghost predicate ListingOf(o: seq<VehicleModel>, models: seq<VehicleModel>, filter: Option<string>, sortOrder: Option<string>) {
    && OrderedFor(o, sortOrder)
    && forall m :: multiset(o)[m] == if Listed(m, filter) then multiset(models)[m] else 0
  }

  /**
   * The action: echo the sort key, set the sort-link toggles, decide the
   * effective filter and page (a new search term restarts at page 1),
   * filter and order the models, and take the requested page of three.
   */
  method Index(models: seq<VehicleModel>, sortOrder: Option<string>, currentFilter: Option<string>,
               searchString: Option<string>, pageNumber: Option<int>)
    returns (viewData: ModelsViewData, page: PaginatedList<VehicleModel>)
    ensures fresh(page)
    ensures viewData.currentSort == sortOrder
    ensures viewData.nameSortParm == if IsNullOrEmpty(sortOrder) then "name_desc" else ""
    ensures viewData.abrvSortParm == if sortOrder == Some("Abrv") then "abrv_desc" else "Abrv"
    ensures viewData.makeSortParm == if sortOrder == Some("MakeName") then "make_desc" else "MakeName"
    ensures searchString.Some? ==> viewData.currentFilter == searchString && page.PageIndex == 1
    ensures searchString.None? ==> viewData.currentFilter == currentFilter && page.PageIndex == pageNumber.GetOr(1)
    ensures exists o :: ListingOf(o, models, viewData.currentFilter, sortOrder)
                        && page.TotalPages == TotalPagesFor(|o|, PageSize)
                        && page.Items == PageSlice(o, page.PageIndex, PageSize)
  {
    var currentSort := sortOrder;
    var nameSortParm := if IsNullOrEmpty(sortOrder) then "name_desc" else "";
    var abrvSortParm := if sortOrder == Some("Abrv") then "abrv_desc" else "Abrv";
    var makeSortParm := if sortOrder == Some("MakeName") then "make_desc" else "MakeName";

    var pageNumber := pageNumber;
    var searchString := searchString;
    if searchString.Some? {
      pageNumber := Some(1);
    } else {
      searchString := currentFilter;
    }
    viewData := ModelsViewData(currentSort, nameSortParm, abrvSortParm, makeSortParm, searchString);

    var rows := models;
    if !IsNullOrEmpty(searchString) {
      var term := searchString.value;
      rows := Where(rows, m => ModelMatches(m, term));
    }
    assert forall m :: multiset(rows)[m] == if Listed(m, searchString) then multiset(models)[m] else 0;
    ghost var matched := rows;

    if sortOrder == Some("name_desc") {
      rows := OrderBy(rows, Name, Descending);
    } else if sortOrder == Some("Abrv") {
      rows := OrderBy(rows, Abrv, Ascending);
    } else if sortOrder == Some("abrv_desc") {
      rows := OrderBy(rows, Abrv, Descending);
    } else if sortOrder == Some("make_desc") {
      rows := OrderBy(rows, MakeName, Descending);
    } else if sortOrder == Some("MakeName") {
      rows := OrderBy(rows, MakeName, Ascending);
    } else {
      rows := OrderBy(rows, Name, Ascending);
    }
    assert OrderedFor(rows, sortOrder);
    assert multiset(rows) == multiset(matched);
    assert ListingOf(rows, models, searchString, sortOrder);

    page := PaginatedList.Create(rows, pageNumber.GetOr(1), PageSize);
  }
}
