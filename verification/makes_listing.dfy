/**
 * `VehicleMakesController.Index`: the list of makes, searched on name or
 * abbreviation and sorted by one of four keys.  This listing is not paged.
 */
module MakesListing {
  import opened Nullable
  import opened Text
  import opened Linq
  import opened Vehicles

  /** The `ViewData` entries the action writes for the view. */
  datatype MakesViewData = MakesViewData(nameSortParm: string, abrvSortParm: string, currentFilter: Option<string>)

  /** Sort key `m => m.Name`. */
  function Name(m: VehicleMake): Option<string> {
    m.name
  }

  /** Sort key `m => m.Abrv`. */
  function Abrv(m: VehicleMake): Option<string> {
    m.abrv
  }

  /** The search: the term occurs in the make's name or in its abbreviation. */
  predicate MakeMatches(m: VehicleMake, term: string) {
    FieldContains(m.name, term) || FieldContains(m.abrv, term)
  }

  /** A make is listed when there is no search term or when it matches the term. */
  predicate Listed(m: VehicleMake, searchString: Option<string>) {
    IsNullOrEmpty(searchString) || MakeMatches(m, searchString.value)
  }

  /** A make matches exactly when the term occurs, ignoring case, somewhere in its name or its abbreviation. */
  lemma MakeMatchesIffOccurs(m: VehicleMake, term: string)
    ensures MakeMatches(m, term) <==>
      || (m.name.Some? && exists i :: OccursAt(m.name.value, term, i))
      || (m.abrv.Some? && exists i :: OccursAt(m.abrv.value, term, i))
  {
    if m.name.Some? { ContainsIffOccurs(m.name.value, term); }
    if m.abrv.Some? { ContainsIffOccurs(m.abrv.value, term); }
  }

  /** A listing that keeps the listed makes with their multiplicities holds exactly the listed makes of the store. */
  lemma ListedMembers(listing: seq<VehicleMake>, makes: seq<VehicleMake>, searchString: Option<string>)
    requires forall m :: multiset(listing)[m] == if Listed(m, searchString) then multiset(makes)[m] else 0
    ensures forall m :: m in listing <==> m in makes && Listed(m, searchString)
  {
    forall m ensures m in listing <==> m in makes && Listed(m, searchString) {
      assert m in listing <==> m in multiset(listing);
      assert m in makes <==> m in multiset(makes);
    }
  }

  /**
   * The action: set the sort-link toggles and the echoed filter, filter
   * the makes when a term is given, order them by the requested key.
   */
  method Index(makes: seq<VehicleMake>, sortOrder: Option<string>, searchString: Option<string>)
    returns (viewData: MakesViewData, listing: seq<VehicleMake>)
    ensures viewData.nameSortParm == if IsNullOrEmpty(sortOrder) then "name_desc" else ""
    ensures viewData.abrvSortParm == if sortOrder == Some("Abrv") then "abrv_desc" else "Abrv"
    ensures viewData.currentFilter == searchString
    ensures forall m :: multiset(listing)[m] == if Listed(m, searchString) then multiset(makes)[m] else 0
    ensures forall m :: m in listing <==> m in makes && Listed(m, searchString)
    ensures IsNullOrEmpty(searchString) ==> multiset(listing) == multiset(makes)
    ensures sortOrder == Some("name_desc") ==> SortedBy(listing, Name, Descending)
    ensures sortOrder == Some("Abrv") ==> SortedBy(listing, Abrv, Ascending)
    ensures sortOrder == Some("abrv_desc") ==> SortedBy(listing, Abrv, Descending)
    ensures sortOrder !in {Some("name_desc"), Some("Abrv"), Some("abrv_desc")} ==> SortedBy(listing, Name, Ascending)
  {
    var nameSortParm := if IsNullOrEmpty(sortOrder) then "name_desc" else "";
    var abrvSortParm := if sortOrder == Some("Abrv") then "abrv_desc" else "Abrv";
    viewData := MakesViewData(nameSortParm, abrvSortParm, searchString);

    listing := makes;
    if !IsNullOrEmpty(searchString) {
      var term := searchString.value;
      listing := Where(listing, m => MakeMatches(m, term));
    }
    assert forall m :: multiset(listing)[m] == if Listed(m, searchString) then multiset(makes)[m] else 0;
    ghost var matched := listing;

    if sortOrder == Some("name_desc") {
      listing := OrderBy(listing, Name, Descending);
    } else if sortOrder == Some("Abrv") {
      listing := OrderBy(listing, Abrv, Ascending);
    } else if sortOrder == Some("abrv_desc") {
      listing := OrderBy(listing, Abrv, Descending);
    } else {
      listing := OrderBy(listing, Name, Ascending);
    }
    assert multiset(listing) == multiset(matched);
    ListedMembers(listing, makes, searchString);
  }
}
