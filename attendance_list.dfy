/** The list view's filter: the selected group, a case-insensitive name
    search, and an optional "eligible only" toggle; then the two counts shown
    above the list. */
module AttendanceList {
  import opened JsStrings
  import opened Seqs
  import opened Types

  /** The test each person must pass to be listed. */
  predicate Listed(person: Person, gender: Gender, searchTerm: string, showOnlyEligible: bool)
    ensures Listed(person, gender, searchTerm, showOnlyEligible) ==>
              && person.gender == gender
              && |searchTerm| <= |person.name|
              && (showOnlyEligible ==> person.isEligible)
  {
    && person.gender == gender
    && Includes(ToLower(person.name), ToLower(searchTerm))
    && (if showOnlyEligible then person.isEligible else true)
  }

  /** `Listed` with the view's settings fixed, as the test handed to `filter`. */
  function ListTest(gender: Gender, searchTerm: string, showOnlyEligible: bool): Person -> bool {
    p => Listed(p, gender, searchTerm, showOnlyEligible)
  }

  /** `filteredPeople`. */
  function FilteredPeople(people: seq<Person>, gender: Gender, searchTerm: string, showOnlyEligible: bool)
    : (r: seq<Person>)
    ensures |r| <= |people|
    ensures forall p :: p in r ==> p in people && Listed(p, gender, searchTerm, showOnlyEligible)
  {
    Filter(ListTest(gender, searchTerm, showOnlyEligible), people)
  }

  predicate IsEligible(p: Person) { p.isEligible }

  /** The two numbers shown above the list. */
  datatype Counts = Counts(eligibleCount: nat, totalCount: nat)

  /** `eligibleCount` and `totalCount`, both taken on the filtered list: the
      eligible count never exceeds the total, and with the toggle on the two
      are equal. */
  function CountsOf(people: seq<Person>, gender: Gender, searchTerm: string, showOnlyEligible: bool)
    : (c: Counts)
    ensures c.totalCount == |FilteredPeople(people, gender, searchTerm, showOnlyEligible)|
    ensures c.eligibleCount <= c.totalCount
    ensures showOnlyEligible ==> c.eligibleCount == c.totalCount
  {
    var filtered := FilteredPeople(people, gender, searchTerm, showOnlyEligible);
    ListedEligibleWhenToggled(people, gender, searchTerm, showOnlyEligible);
    Counts(|Filter(IsEligible, filtered)|, |filtered|)
  }

  /** The eligible count is, whichever way the toggle is set, the number
      of people who are in the selected group, match the search and are
      eligible. */
  lemma EligibleCountIsEligibleListed(people: seq<Person>, gender: Gender, searchTerm: string, showOnlyEligible: bool)
    ensures CountsOf(people, gender, searchTerm, showOnlyEligible).eligibleCount
            == |FilteredPeople(people, gender, searchTerm, true)|
  {
    ToggleOnKeepsEligibleCount(people, gender, searchTerm);
    ListedEligibleWhenToggled(people, gender, searchTerm, true);
  }

  /** With the toggle on, every listed person is eligible, so counting the
      eligible ones keeps the whole list. */
  lemma ListedEligibleWhenToggled(people: seq<Person>, gender: Gender, searchTerm: string, showOnlyEligible: bool)
    ensures showOnlyEligible ==>
              var r := FilteredPeople(people, gender, searchTerm, showOnlyEligible);
              (forall p :: p in r ==> p.isEligible) && Filter(IsEligible, r) == r
  {
    if showOnlyEligible {
      var r := FilteredPeople(people, gender, searchTerm, showOnlyEligible);
      assert forall i :: 0 <= i < |r| ==> r[i] in r;
      FilterAllPass(IsEligible, r);
    }
  }

  /** A person is listed exactly when they are in the selected group, the
      lower-cased search term occurs somewhere in their lower-cased name, and,
      with the toggle on, they are eligible. */
  lemma ListedIff(person: Person, gender: Gender, searchTerm: string, showOnlyEligible: bool)
    ensures Listed(person, gender, searchTerm, showOnlyEligible) <==>
              && person.gender == gender
              && (exists i: nat :: OccursAt(ToLower(person.name), ToLower(searchTerm), i))
              && (showOnlyEligible ==> person.isEligible)
  {
    IncludesIffOccurs(ToLower(person.name), ToLower(searchTerm));
  }

  /** An empty search term matches every name. */
  lemma EmptySearchMatchesEveryName(person: Person, gender: Gender, showOnlyEligible: bool)
    ensures Listed(person, gender, "", showOnlyEligible) <==>
              person.gender == gender && (showOnlyEligible ==> person.isEligible)
  {
    IncludesEmpty(ToLower(person.name));
  }

  /** With the toggle off, eligibility has no bearing on who is listed. */
  lemma ToggleOffIgnoresEligibility(person: Person, gender: Gender, searchTerm: string, b: bool)
    ensures Listed(person, gender, searchTerm, false) == Listed(person.(isEligible := b), gender, searchTerm, false)
  {
  }

  /** A person of the people is listed exactly when they pass the test. */
  lemma FilteredMembership(people: seq<Person>, gender: Gender, searchTerm: string, showOnlyEligible: bool, p: Person)
    ensures p in FilteredPeople(people, gender, searchTerm, showOnlyEligible) <==>
              p in people && Listed(p, gender, searchTerm, showOnlyEligible)
  {
    FilterMembership(ListTest(gender, searchTerm, showOnlyEligible), people, p);
  }

  /** The filtered list is the subsequence of `people` at an increasing
      choice of positions, which are exactly the positions whose person
      passes the test. */
  lemma FilteredIsSubsequence(people: seq<Person>, gender: Gender, searchTerm: string, showOnlyEligible: bool)
    ensures exists idx: seq<nat> ::
              && SubsequenceAt(FilteredPeople(people, gender, searchTerm, showOnlyEligible), people, idx)
              && (forall i :: 0 <= i < |people| ==>
                    (i in idx <==> Listed(people[i], gender, searchTerm, showOnlyEligible)))
  {
    var test := ListTest(gender, searchTerm, showOnlyEligible);
    var idx := Kept(test, people);
    FilterIsSubsequence(test, people);
    assert SubsequenceAt(FilteredPeople(people, gender, searchTerm, showOnlyEligible), people, idx);
    assert forall i :: 0 <= i < |people| ==>
             (i in idx <==> Listed(people[i], gender, searchTerm, showOnlyEligible)) by {
      assert forall x :: test(x) == Listed(x, gender, searchTerm, showOnlyEligible);
    }
  }

  /** Filtering the filtered list again with the same settings changes nothing. */
  lemma FilterAgainUnchanged(people: seq<Person>, gender: Gender, searchTerm: string, showOnlyEligible: bool)
    ensures var r := FilteredPeople(people, gender, searchTerm, showOnlyEligible);
            FilteredPeople(r, gender, searchTerm, showOnlyEligible) == r
  {
    FilterIdempotent(ListTest(gender, searchTerm, showOnlyEligible), people);
  }

  /** Turning the toggle on lists the eligible part of what was listed with
      it off: the total never grows and the eligible count stays the same. */
  lemma ToggleOnKeepsEligibleCount(people: seq<Person>, gender: Gender, searchTerm: string)
    ensures FilteredPeople(people, gender, searchTerm, true)
            == Filter(IsEligible, FilteredPeople(people, gender, searchTerm, false))
    ensures CountsOf(people, gender, searchTerm, true).totalCount
            <= CountsOf(people, gender, searchTerm, false).totalCount
    ensures CountsOf(people, gender, searchTerm, true).eligibleCount
            == CountsOf(people, gender, searchTerm, false).eligibleCount
  {
    var on := ListTest(gender, searchTerm, true);
    var off := ListTest(gender, searchTerm, false);
    FilterFilter(IsEligible, off, on, people);
    FilterIdempotent(IsEligible, Filter(off, people));
  }
}
