/**
 * `SearchStudentProfileController`: the loaded profiles, and the ones that pass all five
 * search filters (name substring, academic status, language, database, preferred role),
 * both in case-insensitive name order.
 */
module SearchStudentProfileController {
  import opened Wrappers
  import opened Seqs
  import opened JavaStrings
  import opened CaseInsensitiveOrder
  import opened StudentProfiles
  import opened StoredFiles
  import ProfileRepository

  /** `matchesName`: an empty filter matches; otherwise a case-insensitive substring test. */
  predicate MatchesName(fullName: string, filter: string) {
    filter == "" || Contains(Lower(fullName), Lower(filter))
  }

  /** `matchesSingleValue`: an empty filter matches; otherwise the value must be present and equal ignoring case. */
  predicate MatchesSingleValue(candidate: Option<string>, filter: string) {
    filter == "" || (candidate.Some? && EqualsIgnoreCase(candidate.value, filter))
  }

  /** `matchesCollection`: an empty filter matches; otherwise some element must equal it ignoring case. */
  predicate MatchesCollection(values: seq<string>, filter: string) {
    filter == "" || exists i | 0 <= i < |values| :: EqualsIgnoreCase(values[i], filter)
  }

  /** The name filter is a substring search on the lower-cased strings. */
  lemma MatchesNameMeaning(fullName: string, filter: string)
    ensures MatchesName(fullName, filter) <==> filter == "" || exists k :: OccursAt(Lower(fullName), Lower(filter), k)
  {
    IndexOfIsFirst(Lower(fullName), Lower(filter));
  }

  /** Every name contains its own name filter, whatever the case of either. */
  lemma NameMatchesItself(fullName: string, filter: string)
    requires EqualsIgnoreCase(fullName, filter)
    ensures MatchesName(fullName, filter)
  {
    IndexOfIsFirst(Lower(fullName), Lower(filter));
    assert OccursAt(Lower(fullName), Lower(filter), 0);
  }

  /** The single-value and collection filters do not see the case of the filter. */
  lemma FiltersIgnoreCase(candidate: Option<string>, values: seq<string>, filter: string, filter': string)
    requires Lower(filter) == Lower(filter')
    ensures MatchesSingleValue(candidate, filter) <==> MatchesSingleValue(candidate, filter')
    ensures MatchesCollection(values, filter) <==> MatchesCollection(values, filter')
  {
    assert |filter| == |Lower(filter)| == |filter'|;
  }

  /** An empty collection never matches a non-empty filter; a missing value never matches one either. */
  lemma NothingMatchesNothing(filter: string)
    requires filter != ""
    ensures !MatchesCollection([], filter) && !MatchesSingleValue(None, filter)
  {
  }

  /** The raw widget values; `null` where a combo box has no selection. */
  datatype FilterInputs = FilterInputs(name: Option<string>, status: Option<string>, language: Option<string>,
                                       database: Option<string>, role: Option<string>)

  /** The five filters after `normalize`/`valueOrEmpty`. */
  datatype Criteria = Criteria(name: string, status: string, language: string, database: string, role: string)

  /** `normalize` and `valueOrEmpty` both map `null` to `""` and trim anything else. */
  function CriteriaOf(inputs: FilterInputs): (c: Criteria)
    ensures IsTrimmed(c.name) && IsTrimmed(c.status) && IsTrimmed(c.language) && IsTrimmed(c.database) && IsTrimmed(c.role)
    ensures inputs.name.None? ==> c.name == ""
    ensures inputs.status.None? ==> c.status == ""
    ensures inputs.language.None? ==> c.language == ""
    ensures inputs.database.None? ==> c.database == ""
    ensures inputs.role.None? ==> c.role == ""
  {
    Criteria(TrimOrEmpty(inputs.name), TrimOrEmpty(inputs.status), TrimOrEmpty(inputs.language),
             TrimOrEmpty(inputs.database), TrimOrEmpty(inputs.role))
  }

  /** The five `filter` stages of `applyFilters`, all of which must pass. */
  predicate Matches(p: Profile, c: Criteria) {
    MatchesName(p.fullName, c.name)
    && MatchesSingleValue(p.academicStatus, c.status)
    && MatchesCollection(p.programmingLanguages, c.language)
    && MatchesCollection(p.databases, c.database)
    && MatchesSingleValue(p.preferredRole, c.role)
  }

  /** The stream of `applyFilters`: the profiles that pass, in their order. */
  function Matching(profiles: seq<Profile>, c: Criteria): seq<Profile> {
    Filter(profiles, p => Matches(p, c))
  }

  /** Exactly the profiles that pass all five filters are kept, each no more often than it occurs. */
  lemma MatchingExactly(profiles: seq<Profile>, c: Criteria)
    ensures |Matching(profiles, c)| <= |profiles|
    ensures forall p | p in Matching(profiles, c) :: p in profiles && Matches(p, c)
    ensures forall i | 0 <= i < |profiles| && Matches(profiles[i], c) :: profiles[i] in Matching(profiles, c)
    ensures multiset(Matching(profiles, c)) <= multiset(profiles)
  {
    FilterMembers(profiles, p => Matches(p, c));
    FilterSubMultiset(profiles, p => Matches(p, c));
  }

  /** With every filter empty, nothing is filtered out. */
  lemma EmptyCriteriaKeepAll(profiles: seq<Profile>)
    ensures Matching(profiles, Criteria("", "", "", "", "")) == profiles
  {
    var c := Criteria("", "", "", "", "");
    assert forall i | 0 <= i < |profiles| :: Matches(profiles[i], c);
    FilterKeepsAll(profiles, p => Matches(p, c));
  }

  /** Blank inputs give empty filters. */
  lemma NoInputsNoCriteria()
    ensures CriteriaOf(FilterInputs(None, None, None, None, None)) == Criteria("", "", "", "", "")
  {
  }

  /** The filtered profiles once sorted: in name order, and exactly those that pass. */
  lemma SortedMatches(profiles: seq<Profile>, c: Criteria)
    ensures SortedBy(SortBy(Matching(profiles, c), FullNameOf), FullNameOf)
    ensures multiset(SortBy(Matching(profiles, c), FullNameOf)) <= multiset(profiles)
    ensures forall p :: p in SortBy(Matching(profiles, c), FullNameOf) <==> p in profiles && Matches(p, c)
  {
    var matches := Matching(profiles, c);
    MatchingExactly(profiles, c);
    SortBySorted(matches, FullNameOf);
    var r := SortBy(matches, FullNameOf);
    assert forall p :: p in r <==> p in multiset(matches);
    assert forall p :: p in matches <==> p in multiset(matches);
    forall p | p in profiles && Matches(p, c) ensures p in matches {
      var i :| 0 <= i < |profiles| && profiles[i] == p;
    }
  }

  class SearchScreen {
    /** `allProfiles` */
    var allProfiles: seq<Profile>
    /** `filteredProfiles`, the table's items. */
    var filteredProfiles: seq<Profile>

    constructor()
      ensures allProfiles == [] && filteredProfiles == []
    {
      allProfiles := [];
      filteredProfiles := [];
    }

    /**
     * `loadProfiles`: the loaded profiles in name order. A read error is caught and empties
     * the list (`false` in Java); a column that is not Base64 throws out of the method
     * before `allProfiles` is touched.
     */
    method LoadProfiles(file: StoredFile) returns (outcome: ProfileRepository.LoadOutcome)
      modifies this
      ensures outcome == ProfileRepository.OutcomeOf(ProfileRepository.Loaded(file))
      ensures outcome == ProfileRepository.ProfilesLoaded ==>
        allProfiles == ProfileRepository.Loaded(file).value && SortedBy(allProfiles, FullNameOf)
      ensures outcome == ProfileRepository.LoadCaught ==> allProfiles == []
      ensures outcome == ProfileRepository.LoadEscaped ==> allProfiles == old(allProfiles)
      ensures filteredProfiles == old(filteredProfiles)
    {
      var stored := ProfileRepository.Loaded(file);
      outcome := ProfileRepository.OutcomeOf(stored);
      if stored.Ok? {
        ProfileRepository.LoadedSorted(file);
        SortBySortedIdentity(stored.value, FullNameOf);
        allProfiles := SortBy(stored.value, FullNameOf);
      } else if outcome == ProfileRepository.LoadCaught {
        allProfiles := [];
      }
    }

    /** `applyFilters`: the profiles that pass every filter, sorted by name; `allProfiles` is untouched. */
    method ApplyFilters(inputs: FilterInputs)
      modifies this
      ensures allProfiles == old(allProfiles)
      ensures filteredProfiles == SortBy(Matching(allProfiles, CriteriaOf(inputs)), FullNameOf)
    {
      var criteria := CriteriaOf(inputs);
      filteredProfiles := SortBy(Matching(allProfiles, criteria), FullNameOf);
    }
  }
}
