/**
 * The directory controller: the memoised visible list derived from the
 * catalog and the filter state, and the controller state that the user's
 * events update (filter fields, favorites, the expanded card).
 */
module Directory {
  import opened Text
  import opened Doctors

  datatype Option<T> = None | Some(value: T)

  // ---------------------------------------------------------------------
  // The visible list

  /**
   * `filteredDoctors`: the catalog filtered, then stably sorted by the key.
   * The result is a permutation of the filtered records, ordered by the
   * comparator, with every tie class in catalog order.
   */
  function VisibleList(catalog: seq<Doctor>, f: Filters): (r: seq<Doctor>)
    ensures multiset(r) == multiset(FilterCatalog(catalog, f))
    ensures Sorted(KeyOf(f.sortBy), r)
    ensures forall p :: TiedWith(KeyOf(f.sortBy), r, p) == TiedWith(KeyOf(f.sortBy), FilterCatalog(catalog, f), p)
  {
    var key, filtered := KeyOf(f.sortBy), FilterCatalog(catalog, f);
    StableSortSorted(key, filtered);
    forall p ensures TiedWith(key, StableSort(key, filtered), p) == TiedWith(key, filtered, p) {
      StableSortKeepsTies(key, filtered, p);
    }
    StableSort(key, filtered)
  }

  /** Soundness: every visible record comes from the catalog and passes all four filters. */
  lemma VisibleSound(catalog: seq<Doctor>, f: Filters)
    ensures forall d :: d in VisibleList(catalog, f) ==> d in catalog && Passes(d, f)
  {
    var r := VisibleList(catalog, f);
    forall d | d in r ensures d in FilterCatalog(catalog, f) {
      assert d in multiset(r);
    }
  }

  /**
   * Completeness: the visible list is a permutation of the ordered filter of
   * the catalog, so a passing record is shown as often as the catalog holds
   * it, and a failing one never.
   */
  lemma VisibleCount(catalog: seq<Doctor>, f: Filters, d: Doctor)
    ensures multiset(VisibleList(catalog, f)) == multiset(FilterCatalog(catalog, f))
    ensures multiset(VisibleList(catalog, f))[d] == if Passes(d, f) then multiset(catalog)[d] else 0
  {
    FilterCount(catalog, f, d);
  }

  /** No two catalog records share an id. */
  predicate UniqueIds(catalog: seq<Doctor>) {
    forall i, j :: 0 <= i < j < |catalog| ==> catalog[i].id != catalog[j].id
  }

  lemma {:induction false} UniqueOccursOnce(catalog: seq<Doctor>, d: Doctor)
    requires UniqueIds(catalog) && d in catalog
    ensures multiset(catalog)[d] == 1
  {
    var h, t := catalog[0], catalog[1..];
    assert catalog == [h] + t;
    if d == h {
      assert d !in t by {
        forall k | 0 <= k < |t| ensures t[k] != d {
          assert catalog[0].id != catalog[k + 1].id;
        }
      }
    } else {
      UniqueOccursOnce(t, d);
    }
  }

  /** With unique ids, each catalog record that passes the filters is shown exactly once. */
  lemma VisibleExactlyOnce(catalog: seq<Doctor>, f: Filters, d: Doctor)
    requires UniqueIds(catalog) && d in catalog && Passes(d, f)
    ensures multiset(VisibleList(catalog, f))[d] == 1
  {
    VisibleCount(catalog, f, d);
    UniqueOccursOnce(catalog, d);
  }

  /** An empty search term and empty selectors show the whole catalog, in some order. */
  lemma VisibleNoFilters(catalog: seq<Doctor>, sortBy: string)
    ensures multiset(VisibleList(catalog, Filters("", "", "", "", sortBy))) == multiset(catalog)
    ensures FilterCatalog(catalog, Filters("", "", "", "", sortBy)) == catalog
  {
    var f := Filters("", "", "", "", sortBy);
    forall d | d in catalog ensures Passes(d, f) {
      EmptyFiltersPassAll(d, sortBy);
    }
    FilterKeepsAll(catalog, f);
  }

  /** Sorting by rating lists ratings from highest to lowest. */
  lemma VisibleRatingOrder(catalog: seq<Doctor>, f: Filters)
    requires f.sortBy == "rating"
    ensures var r := VisibleList(catalog, f);
      forall i, j :: 0 <= i < j < |r| ==> r[i].rating >= r[j].rating
  {
  }

  /** Sorting by experience lists years of experience from most to fewest. */
  lemma VisibleExperienceOrder(catalog: seq<Doctor>, f: Filters)
    requires f.sortBy == "experience"
    ensures var r := VisibleList(catalog, f);
      forall i, j :: 0 <= i < j < |r| ==> r[i].experience >= r[j].experience
  {
  }

  /** Sorting by name lists names in ascending string order. */
  lemma VisibleNameOrder(catalog: seq<Doctor>, f: Filters)
    requires f.sortBy == "name"
    ensures var r := VisibleList(catalog, f);
      forall i, j :: 0 <= i < j < |r| ==> LexCompare(r[i].name, r[j].name) <= 0
  {
  }

  /** An unrecognised sort key keeps the filtered records in catalog order. */
  lemma VisibleDefaultOrder(catalog: seq<Doctor>, f: Filters)
    requires f.sortBy != "rating" && f.sortBy != "experience" && f.sortBy != "name"
    ensures VisibleList(catalog, f) == FilterCatalog(catalog, f)
  {
    StableSortDefaultKey(KeyOf(f.sortBy), FilterCatalog(catalog, f));
  }

  /** Under any key, records that compare equal keep their catalog order. */
  lemma VisibleTiesKeepCatalogOrder(catalog: seq<Doctor>, f: Filters, p: Doctor)
    ensures TiedWith(KeyOf(f.sortBy), VisibleList(catalog, f), p) == TiedWith(KeyOf(f.sortBy), FilterCatalog(catalog, f), p)
  {
  }

  /**
   * The visible list is the only arrangement a stable sort may produce: any
   * permutation of the filtered records that is ordered by the comparator and
   * keeps tied records in catalog order is the visible list.
   */
  lemma VisibleIsTheStableSort(catalog: seq<Doctor>, f: Filters, out: seq<Doctor>)
    requires multiset(out) == multiset(FilterCatalog(catalog, f))
    requires Sorted(KeyOf(f.sortBy), out)
    requires forall p :: TiedWith(KeyOf(f.sortBy), out, p) == TiedWith(KeyOf(f.sortBy), FilterCatalog(catalog, f), p)
    ensures out == VisibleList(catalog, f)
  {
    SortedTiesDetermine(KeyOf(f.sortBy), out, VisibleList(catalog, f));
  }

  // ---------------------------------------------------------------------
  // Pure transitions of the controller state

  /** The new favorites set after `toggleFavorite(id)`. */
  function ToggleMember(favorites: set<string>, id: string): (r: set<string>)
    ensures id in r <==> id !in favorites
    ensures forall other :: other != id ==> (other in r <==> other in favorites)
  {
    if id in favorites then favorites - {id} else favorites + {id}
  }

  /** Toggling the same id twice restores the original set. */
  lemma ToggleMemberInvolution(favorites: set<string>, id: string)
    ensures ToggleMember(ToggleMember(favorites, id), id) == favorites
  {
  }

  /** The new expanded id after the card of `id` is clicked. */
  function ExpandToggle(expanded: Option<string>, id: string): (r: Option<string>)
    ensures r == None <==> expanded == Some(id)
    ensures r != None ==> r == Some(id)
  {
    if expanded == Some(id) then None else Some(id)
  }

  /** Clicking the same card twice from the collapsed state collapses it again. */
  lemma ExpandTwiceCollapses(id: string)
    ensures ExpandToggle(ExpandToggle(None, id), id) == None
  {
  }

  /** After two clicks on different cards only the second is expanded. */
  lemma ExpandOtherReplaces(expanded: Option<string>, a: string, b: string)
    requires a != b
    ensures ExpandToggle(ExpandToggle(expanded, a), b) == Some(b)
  {
  }

  // ---------------------------------------------------------------------
  // The controller

  /** The state the directory page holds, with the handlers that change it. */
  class Controller {
    const catalog: seq<Doctor>
    var searchTerm: string
    var selectedSpecialty: string
    var selectedLocation: string
    var selectedAvailability: string
    var sortBy: string
    var expandedDoctorId: Option<string>
    var favorites: set<string>

    /** An expanded id always names a catalog record. */
    ghost predicate Valid()
      reads this
    {
      expandedDoctorId.Some? ==> exists d :: d in catalog && d.id == expandedDoctorId.value
    }

    function CurrentFilters(): Filters
      reads this
    {
      Filters(searchTerm, selectedSpecialty, selectedLocation, selectedAvailability, sortBy)
    }

    /** The list the page renders for the current state. */
    function FilteredDoctors(): (r: seq<Doctor>)
      reads this
      ensures forall d :: d in r ==> d in catalog && Passes(d, CurrentFilters())
    {
      VisibleSound(catalog, CurrentFilters());
      VisibleList(catalog, CurrentFilters())
    }

    /** The initial state: no search, no selections, sorted by rating, nothing expanded or favorite. */
    constructor (catalog: seq<Doctor>)
      ensures Valid()
      ensures this.catalog == catalog
      ensures CurrentFilters() == Filters("", "", "", "", "rating")
      ensures expandedDoctorId == None && favorites == {}
    {
      this.catalog := catalog;
      searchTerm, selectedSpecialty, selectedLocation, selectedAvailability := "", "", "", "";
      sortBy := "rating";
      expandedDoctorId := None;
      favorites := {};
    }

    method SetSearchTerm(term: string)
      requires Valid()
      modifies this`searchTerm
      ensures Valid()
      ensures searchTerm == term
    {
      searchTerm := term;
    }

    method SetSelectedSpecialty(specialty: string)
      requires Valid()
      modifies this`selectedSpecialty
      ensures Valid()
      ensures selectedSpecialty == specialty
    {
      selectedSpecialty := specialty;
    }

    method SetSelectedLocation(location: string)
      requires Valid()
      modifies this`selectedLocation
      ensures Valid()
      ensures selectedLocation == location
    {
      selectedLocation := location;
    }

    method SetSelectedAvailability(availability: string)
      requires Valid()
      modifies this`selectedAvailability
      ensures Valid()
      ensures selectedAvailability == availability
    {
      selectedAvailability := availability;
    }

    method SetSortBy(key: string)
      requires Valid()
      modifies this`sortBy
      ensures Valid()
      ensures sortBy == key
    {
      sortBy := key;
    }

    /** Copy the favorites set, flip `doctorId` in the copy, and store the copy. */
    method ToggleFavorite(doctorId: string)
      requires Valid()
      modifies this`favorites
      ensures Valid()
      ensures favorites == ToggleMember(old(favorites), doctorId)
    {
      var newFavorites := favorites;
      if doctorId in newFavorites {
        newFavorites := newFavorites - {doctorId};
      } else {
        newFavorites := newFavorites + {doctorId};
      }
      favorites := newFavorites;
    }

    /** The click handler of a rendered card: collapse it if expanded, else expand it alone. */
    method OnExpand(doctor: Doctor)
      requires Valid() && doctor in FilteredDoctors()
      modifies this`expandedDoctorId
      ensures Valid()
      ensures expandedDoctorId == ExpandToggle(old(expandedDoctorId), doctor.id)
    {
      expandedDoctorId := ExpandToggle(expandedDoctorId, doctor.id);
    }
  }

  /** Two favorite toggles of the same id leave the controller's favorites as they were. */
  method ToggleFavoriteTwice(c: Controller, doctorId: string)
    requires c.Valid()
    modifies c`favorites
    ensures c.Valid()
    ensures c.favorites == old(c.favorites)
  {
    c.ToggleFavorite(doctorId);
    c.ToggleFavorite(doctorId);
    ToggleMemberInvolution(old(c.favorites), doctorId);
  }
}
