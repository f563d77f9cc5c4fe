/**
 * A worked example of the directory with two records: Alice, a
 * cardiologist rated 4.8, and Bob, a dermatologist rated 4.2.
 */
module Scenario {
  import opened Text
  import opened Doctors
  import opened Directory

  const Alice := Doctor("1", "Alice", "Cardiology", "Boston", ["Morning"], 4.8, 10)
  const Bob := Doctor("2", "Bob", "Dermatology", "Boston", ["Evening"], 4.2, 5)

  /** The filter of a two-record catalog keeps each record that passes, in order. */
  lemma FilterPair(a: Doctor, b: Doctor, f: Filters)
    ensures FilterCatalog([a, b], f)
         == (if Passes(a, f) then [a] else []) + (if Passes(b, f) then [b] else [])
  {
    assert [a, b][1..] == [b];
    assert [b][1..] == [];
  }

  /** Two records already in comparator order stay as they are. */
  lemma SortPair(key: SortKey, a: Doctor, b: Doctor)
    requires Precedes(key, a, b)
    ensures StableSort(key, [a, b]) == [a, b]
  {
    assert [a, b][1..] == [b] && [b][1..] == [];
    assert StableSort(key, [b]) == [b];
  }

  /** With no filters and the rating key, Alice (4.8) comes before Bob (4.2). */
  lemma ScenarioNoFilters()
    ensures VisibleList([Alice, Bob], Filters("", "", "", "", "rating")) == [Alice, Bob]
  {
    VisibleNoFilters([Alice, Bob], "rating");
    SortPair(ByRating, Alice, Bob);
  }

  /** A string with no 'b' or 'B' lowercases to one without 'b'. */
  lemma NoBAfterLower(s: string)
    requires forall i :: 0 <= i < |s| ==> s[i] != 'b' && s[i] != 'B'
    ensures 'b' !in Lower(s)
  {
    var l := Lower(s);
    forall i | 0 <= i < |l| ensures l[i] != 'b' {
      assert l[i] == LowerChar(s[i]);
    }
  }

  lemma AliceMissesBob()
    ensures !MatchesSearch(Alice, "bob")
  {
    assert Lower("bob") == "bob";
    NoBAfterLower("Alice");
    NoBAfterLower("Cardiology");
    NotIncludedWithoutFirstChar(Lower("Alice"), "bob");
    NotIncludedWithoutFirstChar(Lower("Cardiology"), "bob");
  }

  lemma BobMatchesBob()
    ensures MatchesSearch(Bob, "bob")
  {
    assert Lower("bob") == "bob";
    assert Lower("Bob") == "bob";
    assert Includes("bob", "bob");
  }

  /** Searching "bob" keeps only Bob. */
  lemma ScenarioSearchBob()
    ensures VisibleList([Alice, Bob], Filters("bob", "", "", "", "rating")) == [Bob]
  {
    var f := Filters("bob", "", "", "", "rating");
    AliceMissesBob();
    BobMatchesBob();
    FilterPair(Alice, Bob, f);
    assert FilterCatalog([Alice, Bob], f) == [Bob];
  }

  /** Selecting the Cardiology specialty keeps only Alice. */
  lemma ScenarioCardiology()
    ensures VisibleList([Alice, Bob], Filters("", "Cardiology", "", "", "rating")) == [Alice]
  {
    var f := Filters("", "Cardiology", "", "", "rating");
    EmptyFiltersPassAll(Alice, "rating");
    assert Passes(Alice, f);
    assert !MatchesSpecialty(Bob, "Cardiology") by {
      assert "Dermatology"[0] != "Cardiology"[0];
    }
    FilterPair(Alice, Bob, f);
    assert FilterCatalog([Alice, Bob], f) == [Alice];
  }

  /** A location neither record has leaves the list empty. */
  lemma ScenarioNoMatch()
    ensures VisibleList([Alice, Bob], Filters("", "", "Chicago", "", "rating")) == []
  {
    var f := Filters("", "", "Chicago", "", "rating");
    assert !MatchesLocation(Alice, "Chicago") by {
      assert "Boston"[0] != "Chicago"[0];
    }
    FilterPair(Alice, Bob, f);
    assert FilterCatalog([Alice, Bob], f) == [];
  }
}
