# Doctor directory: a verified model of the directory controller

The doctor directory is a React page. It searches, filters, sorts and marks
favorites in a fixed catalog of doctor records. All of its logic is in the
`App` component (`src/App.tsx`):

- the memoised `filteredDoctors` list: the catalog filtered by four
  conjunctive predicates, then sorted by the selected key;
- `toggleFavorite`, which flips one id in the favorites set;
- the `onExpand` card handler, which expands one card or collapses it.

This project models that controller in Dafny and proves its properties.

Modules:

- `Text` (`text.dfy`) models the string operations the filter and the
  comparator call: `toLowerCase` as ASCII `Lower`, `includes` as `Includes`,
  and `localeCompare` as the code-point lexicographic `LexCompare`.
- `Doctors` (`doctors.dfy`) holds the `Doctor` record and the filter state
  `Filters`. It also holds the four filter predicates and `FilterCatalog`,
  which models `Array.prototype.filter`. The comparator is `SortCompare`,
  chosen through `KeyOf`, which models the `switch` on `sortBy`. `StableSort`
  models `Array.prototype.sort`. Since ES2019 (section 23.1.3.30 of ECMA-262,
  2023 edition) that sort must be stable. `StableSort` is a stable insertion
  sort. `SortedTiesDetermine` proves it is the only result a stable sort may
  give.
- `Directory` (`directory.dfy`) holds `VisibleList`, which models the
  memoised `filteredDoctors`. It holds the lemmas about `VisibleList`, the
  pure state transitions `ToggleMember` and `ExpandToggle`, and the
  `Controller` class. The class's fields are the page's `useState` variables.
  Its methods are the setters and handlers.
- `Scenario` (`scenario.dfy`) is a worked two-record example: Alice, a
  cardiologist rated 4.8, and Bob, a dermatologist rated 4.2.

Modelling decisions:

- A selector's "nothing selected" value is the empty string, as in the
  source. The tests `!selectedSpecialty` and friends treat `''` as no filter.
- An empty search term needs no special case. `includes('')` is always true
  (`Text.IncludesEmpty`).
- `rating` is a `real` and `experience` an `int`. The comparators subtract
  them as the source does. Only the sign of the result matters.
- `availability` is a sequence of slot names, because the source calls the
  array method `includes` on it.
- The sort key is a free string, as the code's `useState('rating')` allows.
  A key other than `rating`, `experience` or `name` takes the comparator's
  `default` arm, which returns 0. The model follows the code here, not a
  fixed set of three keys.
- An expanded id always names a catalog record. The code does not check
  this. It holds because `onExpand` is bound only to cards of the rendered
  list (`src/App.tsx:86-91`). `Controller.OnExpand` takes that as its
  precondition and keeps the invariant `Controller.Valid`.
- `toggleFavorite` performs no existence check, and neither does
  `ToggleFavorite`.

## Model

| member | source | states |
|---|---|---|
| `Text.LowerChar` | src/App.tsx:20-21 | one character lowered is never an ASCII capital; it is unchanged exactly when it was not a capital, and a capital becomes its own small letter (code plus 32) |
| `Text.LowerCharCaseless` | src/App.tsx:20-21 | two characters lower to the same one exactly when they are equal or one is the other's capital |
| `Text.Includes` | src/App.tsx:20-21 | the empty term is included in every string, and an included term is no longer than the string (its full meaning is `IncludesIffOccurs`) |
| `Text.Lower` | src/App.tsx:20-21 | lowercasing keeps the length and lowers each character in place, leaving no ASCII capital |
| `Text.LowerIdempotent` | src/App.tsx:20-21 | lowercasing an already lowercased string changes nothing |
| `Text.IncludesIffOccurs` | src/App.tsx:20-21 | `includes(s, t)` holds exactly when `t` occurs in `s` at some index |
| `Text.NotIncludedWithoutFirstChar` | src/App.tsx:20-21 | a non-empty term whose first character does not occur in `s` is not included in `s` |
| `Text.IncludesEmpty` | src/App.tsx:20-21 | every string includes the empty search term |
| `Text.LexCompare` | src/App.tsx:35-36 | the name comparison returns -1, 0 or 1 |
| `Text.LexCompareAntisymmetric` | src/App.tsx:35-36 | swapping the names negates the comparison |
| `Text.LexCompareZeroIffEqual` | src/App.tsx:35-36 | the name comparison is 0 exactly for equal names |
| `Text.LexCompareTransitive` | src/App.tsx:35-36 | "sorts no later than" on names is transitive |
| `Doctors.MatchesSearch` | src/App.tsx:20-21 | the search predicate: the lowered term is included in the lowered name or the lowered specialty |
| `Doctors.SearchCaseless` | src/App.tsx:20-21 | the search is case-insensitive: two terms that agree up to the case of each character match the same records |
| `Doctors.MatchesSpecialty` | src/App.tsx:22 | the specialty predicate: no selection, or the specialty equals the selection |
| `Doctors.MatchesLocation` | src/App.tsx:23 | the location predicate: no selection, or the location equals the selection |
| `Doctors.MatchesAvailability` | src/App.tsx:24-25 | the availability predicate: no selection, or the selection is one of the record's slots |
| `Doctors.Passes` | src/App.tsx:27 | the filter callback: the conjunction of the four predicates |
| `Doctors.FilterCatalog` | src/App.tsx:18-28 | every record the filter keeps is a catalog record that passes all four predicates, and the result is no longer than the catalog |
| `Doctors.FilterCount` | src/App.tsx:18-28 | a passing record is kept as many times as the catalog holds it, and a failing record never |
| `Doctors.FilterKeepsAll` | src/App.tsx:18-28 | when every record passes, the filter returns the catalog unchanged, in order |
| `Doctors.EmptyFiltersPassAll` | src/App.tsx:20-25 | with an empty search term and three empty selectors, every record passes |
| `Doctors.KeyOf` | src/App.tsx:30-38 | the `switch` picks the rating, experience or name arm exactly for those key strings |
| `Doctors.SortCompare` | src/App.tsx:29-39 | the comparator: `b.rating - a.rating`, `b.experience - a.experience`, the name comparison, or 0 for any other key; its laws are the six lemmas below |
| `Doctors.PrecedesTotal` | src/App.tsx:29-40 | for every key, of two records at least one may precede the other |
| `Doctors.PrecedesTransitive` | src/App.tsx:29-40 | for every key, "may precede" is transitive |
| `Doctors.TiedReflexive` | src/App.tsx:29-40 | for every key, a record ties with itself |
| `Doctors.TiedSymmetric` | src/App.tsx:29-40 | for every key, ties are symmetric |
| `Doctors.TiedTransitive` | src/App.tsx:29-40 | for every key, ties are transitive |
| `Doctors.TiedOfMutual` | src/App.tsx:29-40 | two records that may each precede the other are tied |
| `Doctors.Insert` | src/App.tsx:29-40 | inserting a record adds exactly that record to the multiset of elements |
| `Doctors.StableSort` | src/App.tsx:29-40 | the sort's output is a permutation of its input |
| `Doctors.InsertSorted` | src/App.tsx:29-40 | inserting into a sorted list gives a sorted list |
| `Doctors.StableSortSorted` | src/App.tsx:29-40 | in the sort's output every record may precede every later one |
| `Doctors.InsertTiedWith` | src/App.tsx:29-40 | an inserted record goes in front of everything it ties with |
| `Doctors.StableSortKeepsTies` | src/App.tsx:29-40 | stability: for every record, the records tied with it keep their input order |
| `Doctors.StableSortDefaultKey` | src/App.tsx:37-38 | under the `default` arm the sort returns its input unchanged |
| `Doctors.HeadPrecedesMember` | src/App.tsx:29-40 | the head of a sorted list may precede each of its records |
| `Doctors.HeadOfOwnTies` | src/App.tsx:29-40 | the head of a list heads its own tie class there |
| `Doctors.SortedHeadsAgree` | src/App.tsx:29-40 | two sorted lists whose heads' tie classes come in the same order start with the same record |
| `Doctors.TailsPermutation` | src/App.tsx:29-40 | removing a common head from two permutations of each other leaves permutations |
| `Doctors.TailsKeepTies` | src/App.tsx:29-40 | removing a common head keeps the tie orders equal |
| `Doctors.SortedTiesDetermine` | src/App.tsx:29-40 | two sorted permutations of each other with equal tie orders are equal, so a stable sort has one result |
| `Directory.VisibleList` | src/App.tsx:17-41 | the visible list is a permutation of the filtered catalog, ordered by the comparator of the selected key, with every tie class in catalog order |
| `Directory.VisibleSound` | src/App.tsx:17-28 | every visible record is a catalog record that passes search, specialty, location and availability |
| `Directory.VisibleCount` | src/App.tsx:17-29 | the visible list is a permutation of the ordered filter; each passing record appears as often as in the catalog, each failing record never |
| `Directory.UniqueOccursOnce` | src/App.tsx:86-88 | in a catalog with unique ids each record occurs once |
| `Directory.VisibleExactlyOnce` | src/App.tsx:17-29 | with unique ids, every passing catalog record appears exactly once |
| `Directory.VisibleNoFilters` | src/App.tsx:20-25 | with empty search and selectors, the filter keeps the whole catalog in order and the visible list is a permutation of it |
| `Directory.VisibleRatingOrder` | src/App.tsx:31-32 | sorted by `rating`, ratings never increase along the list |
| `Directory.VisibleExperienceOrder` | src/App.tsx:33-34 | sorted by `experience`, experience never increases along the list |
| `Directory.VisibleNameOrder` | src/App.tsx:35-36 | sorted by `name`, names never decrease in string order |
| `Directory.VisibleDefaultOrder` | src/App.tsx:37-38 | an unrecognised key gives exactly the ordered filter of the catalog |
| `Directory.VisibleTiesKeepCatalogOrder` | src/App.tsx:29-40 | under any key, records that compare equal keep their catalog order |
| `Directory.VisibleIsTheStableSort` | src/App.tsx:29-40 | any sorted, tie-order-preserving permutation of the filtered records is the visible list |
| `Directory.ToggleMember` | src/App.tsx:44-51 | toggling flips the id's membership and leaves every other id's membership unchanged |
| `Directory.ToggleMemberInvolution` | src/App.tsx:43-53 | toggling the same id twice restores the favorites set |
| `Directory.ExpandToggle` | src/App.tsx:91 | the result is null exactly when the clicked id was expanded; otherwise it is the clicked id |
| `Directory.ExpandTwiceCollapses` | src/App.tsx:91 | two clicks on the same card, starting collapsed, end collapsed |
| `Directory.ExpandOtherReplaces` | src/App.tsx:91 | after clicks on two different cards only the second is expanded |
| `Directory.Controller.FilteredDoctors` | src/App.tsx:17-41 | the list rendered for the current state holds only catalog records passing the current filters |
| `Directory.Controller.constructor` | src/App.tsx:9-15 | the initial state: empty search and selectors, key `rating`, nothing expanded, no favorites |
| `Directory.Controller.SetSearchTerm` | src/App.tsx:73-74 | the search change sets the search term and nothing else, and keeps `Valid` |
| `Directory.Controller.SetSelectedSpecialty` | src/App.tsx:75-76 | the specialty change sets that selector and nothing else, and keeps `Valid` |
| `Directory.Controller.SetSelectedLocation` | src/App.tsx:77-78 | the location change sets that selector and nothing else, and keeps `Valid` |
| `Directory.Controller.SetSelectedAvailability` | src/App.tsx:79-80 | the availability change sets that selector and nothing else, and keeps `Valid` |
| `Directory.Controller.SetSortBy` | src/App.tsx:81-82 | the sort change sets the key and nothing else, and keeps `Valid` |
| `Directory.Controller.ToggleFavorite` | src/App.tsx:43-53 | the new favorites set is the old one with the id toggled; nothing else changes, and `Valid` is kept |
| `Directory.Controller.OnExpand` | src/App.tsx:86-91 | clicking a rendered card sets the expanded id to the toggled value and keeps the expanded id inside the catalog |
| `Directory.ToggleFavoriteTwice` | src/App.tsx:43-53 | two toggles of one id leave the controller's favorites unchanged |
| `Scenario.FilterPair` | src/App.tsx:18-28 | filtering a two-record catalog keeps each passing record, in order |
| `Scenario.SortPair` | src/App.tsx:29-40 | two records already in comparator order stay in that order |
| `Scenario.ScenarioNoFilters` | src/App.tsx:17-41 | with no filters and key `rating`, the list for Alice (4.8) and Bob (4.2) is Alice then Bob |
| `Scenario.NoBAfterLower` | src/App.tsx:20-21 | a string without `b` or `B` lowercases to one without `b` |
| `Scenario.AliceMissesBob` | src/App.tsx:20-21 | the term "bob" matches neither Alice's name nor her specialty |
| `Scenario.BobMatchesBob` | src/App.tsx:20-21 | the term "bob" matches Bob's name |
| `Scenario.ScenarioSearchBob` | src/App.tsx:17-41 | searching "bob" shows only Bob |
| `Scenario.ScenarioCardiology` | src/App.tsx:17-41 | selecting Cardiology shows only Alice |
| `Scenario.ScenarioNoMatch` | src/App.tsx:17-41 | a location neither doctor has gives the empty list |

## Left out

- JSX rendering is not modelled, because it is presentation only. This covers the markup, the header count, the empty-state message and the per-card `expanded` and `isFavorite` flags (`src/App.tsx:55-105`). The flags read the controller's fields directly.
- The `DoctorCard` and `SearchFilters` components and the `doctors` dataset are not part of this model. The catalog is a parameter: any `seq<Doctor>`, held by `Controller` as a constant.
- React's `useState` and `useMemo` machinery, re-render scheduling and updater batching are not modelled. State is plain fields updated at once, and the memoised list is the pure function `VisibleList`.
- Text.Lower: lowercases ASCII letters only, because Unicode case mapping is a library call the model cannot see.
- Text.LexCompare: models `localeCompare` as lexicographic order on Unicode code points, because locale collation is a library call the model cannot see. It is still a consistent comparator, which is what the sort lemmas need. A Dafny `char` is a code point, not a UTF-16 code unit, so above U+FFFF even plain code-unit order differs: `LexCompare` puts U+1F600 after U+FFFF, while UTF-16 order puts it first.
- Floating-point arithmetic is not modelled. `rating` is an exact `real` and `experience` an `int`, so NaN and rounding in `b.rating - a.rating` are not captured.
- The at-most-one-expanded-card rule is not a separate lemma. It follows from the type: `expandedDoctorId` is an `Option` holding at most one id.
