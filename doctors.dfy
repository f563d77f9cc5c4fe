/**
 * The doctor record, the four conjunctive filters of the directory, the
 * sort comparator selected by the sort key, and the stable sort that
 * `Array.prototype.sort` performs with it.
 */
module Doctors {
  import opened Text

  /** One catalog record; the catalog itself never changes. */
  datatype Doctor = Doctor(
    id: string,
    name: string,
    specialty: string,
    location: string,
    availability: seq<string>,
    rating: real,
    experience: int)

  /**
   * The filter state. A selector holding the empty string selects nothing,
   * as the source's `!selected` test treats `''` as "no filter".
   */
  datatype Filters = Filters(
    searchTerm: string,
    specialty: string,
    location: string,
    availability: string,
    sortBy: string)

  // ---------------------------------------------------------------------
  // Filtering

  /** Case-insensitive substring match of the search term on name or specialty. */
  predicate MatchesSearch(d: Doctor, term: string) {
    Includes(Lower(d.name), Lower(term)) || Includes(Lower(d.specialty), Lower(term))
  }

  /** Terms that agree up to the case of each character match the same records. */
  lemma SearchCaseless(d: Doctor, t: string, u: string)
    requires |t| == |u| && forall i :: 0 <= i < |t| ==> LowerChar(t[i]) == LowerChar(u[i])
    ensures MatchesSearch(d, t) == MatchesSearch(d, u)
  {
    assert Lower(t) == Lower(u);
  }

  predicate MatchesSpecialty(d: Doctor, selected: string) {
    selected == "" || d.specialty == selected
  }

  predicate MatchesLocation(d: Doctor, selected: string) {
    selected == "" || d.location == selected
  }

  predicate MatchesAvailability(d: Doctor, selected: string) {
    selected == "" || selected in d.availability
  }

  /** The conjunction the `.filter` callback returns. */
  predicate Passes(d: Doctor, f: Filters) {
    && MatchesSearch(d, f.searchTerm)
    && MatchesSpecialty(d, f.specialty)
    && MatchesLocation(d, f.location)
    && MatchesAvailability(d, f.availability)
  }

  /** `catalog.filter(...)`: the passing records, in catalog order. */
  function FilterCatalog(catalog: seq<Doctor>, f: Filters): (r: seq<Doctor>)
    ensures |r| <= |catalog|
    ensures forall d :: d in r ==> d in catalog && Passes(d, f)
  {
    if catalog == [] then []
    else (if Passes(catalog[0], f) then [catalog[0]] else []) + FilterCatalog(catalog[1..], f)
  }

  /** Each passing record occurs in the filtered list as often as in the catalog; others never. */
  lemma {:induction false} FilterCount(catalog: seq<Doctor>, f: Filters, d: Doctor)
    ensures multiset(FilterCatalog(catalog, f))[d] == if Passes(d, f) then multiset(catalog)[d] else 0
  {
    if catalog != [] {
      FilterCount(catalog[1..], f, d);
      assert catalog == [catalog[0]] + catalog[1..];
    }
  }

  /** A filter that every record passes leaves the catalog as it is. */
  lemma {:induction false} FilterKeepsAll(catalog: seq<Doctor>, f: Filters)
    requires forall d :: d in catalog ==> Passes(d, f)
    ensures FilterCatalog(catalog, f) == catalog
  {
    if catalog != [] {
      FilterKeepsAll(catalog[1..], f);
    }
  }

  /** An empty search term and empty selectors let every record through. */
  lemma EmptyFiltersPassAll(d: Doctor, sortBy: string)
    ensures Passes(d, Filters("", "", "", "", sortBy))
  {
    IncludesEmpty(Lower(d.name));
  }

  // ---------------------------------------------------------------------
  // The comparator

  /** The arms of the comparator's `switch`; `Unsorted` is its `default`. */
  datatype SortKey = ByRating | ByExperience | ByName | Unsorted

  /** The arm of the `switch` that a sort key string selects. */
  function KeyOf(sortBy: string): (k: SortKey)
    ensures k == ByRating <==> sortBy == "rating"
    ensures k == ByExperience <==> sortBy == "experience"
    ensures k == ByName <==> sortBy == "name"
  {
    match sortBy
    case "rating" => ByRating
    case "experience" => ByExperience
    case "name" => ByName
    case _ => Unsorted
  }

  /**
   * The comparator passed to `.sort`: negative when `a` goes first. Rating
   * and experience sort descending, name ascending, any other key ties all.
   */
  function SortCompare(key: SortKey, a: Doctor, b: Doctor): real {
    match key
    case ByRating => b.rating - a.rating
    case ByExperience => (b.experience - a.experience) as real
    case ByName => LexCompare(a.name, b.name) as real
    case Unsorted => 0.0
  }

  /** `a` may stand before `b`. */
  predicate Precedes(key: SortKey, a: Doctor, b: Doctor) {
    SortCompare(key, a, b) <= 0.0
  }

  /** `a` and `b` compare equal, so a stable sort keeps their input order. */
  predicate Tied(key: SortKey, a: Doctor, b: Doctor) {
    SortCompare(key, a, b) == 0.0
  }

  // For every key the comparator is consistent: "may precede" is a total
  // preorder and "tied" is the equivalence it induces.

  lemma PrecedesTotal(key: SortKey, a: Doctor, b: Doctor)
    ensures Precedes(key, a, b) || Precedes(key, b, a)
  {
    if key == ByName {
      LexCompareAntisymmetric(a.name, b.name);
    }
  }

  lemma PrecedesTransitive(key: SortKey, a: Doctor, b: Doctor, c: Doctor)
    requires Precedes(key, a, b) && Precedes(key, b, c)
    ensures Precedes(key, a, c)
  {
    if key == ByName {
      LexCompareTransitive(a.name, b.name, c.name);
    }
  }

  lemma TiedReflexive(key: SortKey, a: Doctor)
    ensures Tied(key, a, a)
  {
    if key == ByName {
      LexCompareZeroIffEqual(a.name, a.name);
    }
  }

  lemma TiedSymmetric(key: SortKey, a: Doctor, b: Doctor)
    requires Tied(key, a, b)
    ensures Tied(key, b, a)
  {
    if key == ByName {
      LexCompareAntisymmetric(a.name, b.name);
    }
  }

  lemma TiedTransitive(key: SortKey, a: Doctor, b: Doctor, c: Doctor)
    requires Tied(key, a, b) && Tied(key, b, c)
    ensures Tied(key, a, c)
  {
    if key == ByName {
      LexCompareZeroIffEqual(a.name, b.name);
      LexCompareZeroIffEqual(b.name, c.name);
      LexCompareZeroIffEqual(a.name, c.name);
    }
  }

  /** Each of two records may precede the other only when they are tied. */
  lemma TiedOfMutual(key: SortKey, a: Doctor, b: Doctor)
    requires Precedes(key, a, b) && Precedes(key, b, a)
    ensures Tied(key, a, b)
  {
    if key == ByName {
      LexCompareAntisymmetric(a.name, b.name);
    }
  }

  // ---------------------------------------------------------------------
  // Stable sorting

  /** Every earlier element may precede every later one. */
  ghost predicate Sorted(key: SortKey, s: seq<Doctor>) {
    forall i, j :: 0 <= i < j < |s| ==> Precedes(key, s[i], s[j])
  }

  /** The elements of `s` tied with `p`, in their order in `s`. */
  function TiedWith(key: SortKey, s: seq<Doctor>, p: Doctor): seq<Doctor> {
    if s == [] then []
    else (if Tied(key, s[0], p) then [s[0]] else []) + TiedWith(key, s[1..], p)
  }

  /**
   * Insert `x`, which stood before every element of `r` in the input, into
   * `r`: it goes before the first element it may precede.
   */
  function Insert(key: SortKey, x: Doctor, r: seq<Doctor>): (out: seq<Doctor>)
    ensures multiset(out) == multiset(r) + multiset{x}
  {
    if r == [] then [x]
    else if Precedes(key, x, r[0]) then [x] + r
    else
      assert r == [r[0]] + r[1..];
      [r[0]] + Insert(key, x, r[1..])
  }

  /** Stable insertion sort: a reference for `s.sort(comparator)`. */
  function StableSort(key: SortKey, s: seq<Doctor>): (out: seq<Doctor>)
    ensures multiset(out) == multiset(s)
  {
    if s == [] then []
    else
      assert s == [s[0]] + s[1..];
      Insert(key, s[0], StableSort(key, s[1..]))
  }

  lemma {:induction false} InsertSorted(key: SortKey, x: Doctor, r: seq<Doctor>)
    requires Sorted(key, r)
    ensures Sorted(key, Insert(key, x, r))
  {
    if r == [] {
    } else if Precedes(key, x, r[0]) {
      forall j | 0 < j < |r| ensures Precedes(key, x, r[j]) {
        PrecedesTransitive(key, x, r[0], r[j]);
      }
    } else {
      var tail := Insert(key, x, r[1..]);
      InsertSorted(key, x, r[1..]);
      PrecedesTotal(key, x, r[0]);
      forall j | 0 <= j < |tail| ensures Precedes(key, r[0], tail[j]) {
        assert tail[j] in multiset(tail);
        if tail[j] != x {
          assert tail[j] in r[1..];
        }
      }
    }
  }

  /** The sort's output is ordered by the comparator. */
  lemma {:induction false} StableSortSorted(key: SortKey, s: seq<Doctor>)
    ensures Sorted(key, StableSort(key, s))
  {
    if s != [] {
      StableSortSorted(key, s[1..]);
      InsertSorted(key, s[0], StableSort(key, s[1..]));
    }
  }

  lemma TiedWithCons(key: SortKey, h: Doctor, t: seq<Doctor>, p: Doctor)
    ensures TiedWith(key, [h] + t, p) == (if Tied(key, h, p) then [h] else []) + TiedWith(key, t, p)
  {
    assert ([h] + t)[1..] == t;
  }

  /** Inserting `x` puts it in front of everything it is tied with. */
  lemma {:induction false} InsertTiedWith(key: SortKey, x: Doctor, r: seq<Doctor>, p: Doctor)
    ensures TiedWith(key, Insert(key, x, r), p)
         == (if Tied(key, x, p) then [x] else []) + TiedWith(key, r, p)
  {
    if r == [] {
      assert Insert(key, x, r) == [x] + [];
      TiedWithCons(key, x, [], p);
    } else if Precedes(key, x, r[0]) {
      assert Insert(key, x, r) == [x] + r;
      TiedWithCons(key, x, r, p);
    } else {
      var y, rest := r[0], r[1..];
      var tail := Insert(key, x, rest);
      assert Insert(key, x, r) == [y] + tail;
      assert r == [y] + rest;
      InsertTiedWith(key, x, rest, p);
      TiedWithCons(key, y, tail, p);
      TiedWithCons(key, y, rest, p);
      if Tied(key, x, p) {
        // y does not tie with x, so it cannot tie with p.
        assert !Tied(key, y, p) by {
          if Tied(key, y, p) {
            TiedSymmetric(key, y, p);
            TiedTransitive(key, x, p, y);
          }
        }
        assert TiedWith(key, [y] + tail, p) == TiedWith(key, tail, p) == [x] + TiedWith(key, rest, p);
        assert TiedWith(key, r, p) == TiedWith(key, rest, p);
      } else {
        var hy := if Tied(key, y, p) then [y] else [];
        assert TiedWith(key, tail, p) == TiedWith(key, rest, p);
        assert TiedWith(key, [y] + tail, p) == hy + TiedWith(key, rest, p) == TiedWith(key, r, p);
      }
    }
  }

  /** Stability: the elements tied with any `p` keep their input order. */
  lemma {:induction false} StableSortKeepsTies(key: SortKey, s: seq<Doctor>, p: Doctor)
    ensures TiedWith(key, StableSort(key, s), p) == TiedWith(key, s, p)
  {
    if s != [] {
      StableSortKeepsTies(key, s[1..], p);
      InsertTiedWith(key, s[0], StableSort(key, s[1..]), p);
    }
  }

  /** Under the comparator's default arm the sort changes nothing. */
  lemma {:induction false} StableSortDefaultKey(key: SortKey, s: seq<Doctor>)
    requires key == Unsorted
    ensures StableSort(key, s) == s
  {
    if s != [] {
      StableSortDefaultKey(key, s[1..]);
      assert s == [s[0]] + s[1..];
    }
  }

  /**
   * A sorted and stable arrangement is unique: two sorted permutations of
   * each other whose tie classes come in the same orders are equal.
   */
  lemma {:induction false} SortedTiesDetermine(key: SortKey, a: seq<Doctor>, b: seq<Doctor>)
    requires multiset(a) == multiset(b)
    requires Sorted(key, a) && Sorted(key, b)
    requires forall p :: TiedWith(key, a, p) == TiedWith(key, b, p)
    ensures a == b
    decreases |a|
  {
    assert |a| == |multiset(a)| == |multiset(b)| == |b|;
    if a != [] {
      assert TiedWith(key, a, a[0]) == TiedWith(key, b, a[0]);
      assert TiedWith(key, a, b[0]) == TiedWith(key, b, b[0]);
      SortedHeadsAgree(key, a, b);
      forall p ensures TiedWith(key, a[1..], p) == TiedWith(key, b[1..], p) {
        TailsKeepTies(key, a, b, p);
      }
      TailsPermutation(a, b);
      SortedTiesDetermine(key, a[1..], b[1..]);
      assert a == [a[0]] + a[1..] && b == [b[0]] + b[1..];
    }
  }

  /** The head of a sorted sequence may precede each of its records. */
  lemma HeadPrecedesMember(key: SortKey, s: seq<Doctor>, d: Doctor)
    requires Sorted(key, s) && d in s
    ensures Precedes(key, s[0], d)
  {
    var k :| 0 <= k < |s| && s[k] == d;
    if k == 0 {
      TiedReflexive(key, d);
    }
  }

  /** A record is tied with itself, so it heads its own tie class in a list it heads. */
  lemma HeadOfOwnTies(key: SortKey, s: seq<Doctor>)
    requires s != []
    ensures TiedWith(key, s, s[0]) != [] && TiedWith(key, s, s[0])[0] == s[0]
  {
    TiedReflexive(key, s[0]);
  }

  /**
   * Two non-empty sorted sequences in which the tie classes of both heads
   * come in the same order start with the same record.
   */
  lemma SortedHeadsAgree(key: SortKey, a: seq<Doctor>, b: seq<Doctor>)
    requires a != [] && b != []
    requires Sorted(key, a) && Sorted(key, b)
    requires TiedWith(key, a, a[0]) == TiedWith(key, b, a[0])
    requires TiedWith(key, a, b[0]) == TiedWith(key, b, b[0])
    ensures a[0] == b[0]
  {
    var x, y := a[0], b[0];
    // Each head occurs in the other sequence, so each may precede the other.
    HeadOfOwnTies(key, a);
    HeadOfOwnTies(key, b);
    TiedWithMembers(key, b, x);
    TiedWithMembers(key, a, y);
    HeadPrecedesMember(key, b, x);
    HeadPrecedesMember(key, a, y);
    TiedOfMutual(key, y, x);
    // So y is tied with x and heads x's tie class in b.
    assert TiedWith(key, b, x)[0] == y;
  }

  /** Dropping a common head from two permutations of each other leaves permutations. */
  lemma TailsPermutation(a: seq<Doctor>, b: seq<Doctor>)
    requires a != [] && b != [] && a[0] == b[0] && multiset(a) == multiset(b)
    ensures multiset(a[1..]) == multiset(b[1..])
  {
    var x := a[0];
    assert a == [x] + a[1..] && b == [x] + b[1..];
    assert multiset(a[1..]) == multiset(a) - multiset{x} by {
      assert multiset(a) == multiset{x} + multiset(a[1..]);
    }
    assert multiset(b[1..]) == multiset(b) - multiset{x} by {
      assert multiset(b) == multiset{x} + multiset(b[1..]);
    }
  }

  /** Dropping a common head keeps the tie orders equal. */
  lemma TailsKeepTies(key: SortKey, a: seq<Doctor>, b: seq<Doctor>, p: Doctor)
    requires a != [] && b != [] && a[0] == b[0]
    requires TiedWith(key, a, p) == TiedWith(key, b, p)
    ensures TiedWith(key, a[1..], p) == TiedWith(key, b[1..], p)
  {
    var x := a[0];
    var ta, tb := TiedWith(key, a[1..], p), TiedWith(key, b[1..], p);
    var h := if Tied(key, x, p) then [x] else [];
    assert a == [x] + a[1..] && b == [x] + b[1..];
    TiedWithCons(key, x, a[1..], p);
    TiedWithCons(key, x, b[1..], p);
    assert ta == (h + ta)[|h|..] && tb == (h + tb)[|h|..];
  }

  /** `TiedWith(s, p)` holds exactly the elements of `s` tied with `p`. */
  lemma {:induction false} TiedWithMembers(key: SortKey, s: seq<Doctor>, p: Doctor)
    ensures forall d :: d in TiedWith(key, s, p) <==> d in s && Tied(key, d, p)
  {
    if s != [] {
      TiedWithMembers(key, s[1..], p);
      assert s == [s[0]] + s[1..];
    }
  }
}
