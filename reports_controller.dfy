/**
 * `ReportsController`: the loaded profiles in name order, and the ones shown for the
 * selected report, whitelisted or blacklisted.
 */
module ReportsController {
  import opened Wrappers
  import opened Seqs
  import opened CaseInsensitiveOrder
  import opened StudentProfiles
  import opened StoredFiles
  import ProfileRepository
  import ReportStudentDetailController

  /** `ReportFilter` */
  datatype ReportFilter = Whitelist | Blacklist

  /** The stream predicate of `applyFilter`. */
  predicate InReport(p: Profile, filter: ReportFilter) {
    if filter == Whitelist then p.whitelist else p.blacklist
  }

  /** The profiles of one report, in their loaded order. */
  function Report(profiles: seq<Profile>, filter: ReportFilter): seq<Profile> {
    Filter(profiles, p => InReport(p, filter))
  }

  /** A report holds exactly the flagged profiles, never more often than loaded. */
  lemma ReportExactly(profiles: seq<Profile>, filter: ReportFilter)
    ensures |Report(profiles, filter)| <= |profiles|
    ensures forall p | p in Report(profiles, filter) :: p in profiles && InReport(p, filter)
    ensures forall i | 0 <= i < |profiles| && InReport(profiles[i], filter) :: profiles[i] in Report(profiles, filter)
    ensures multiset(Report(profiles, filter)) <= multiset(profiles)
  {
    FilterMembers(profiles, p => InReport(p, filter));
    FilterSubMultiset(profiles, p => InReport(p, filter));
  }

  /** The loaded order is kept: the report of two runs of profiles is the two reports, one after the other. */
  lemma ReportConcat(a: seq<Profile>, b: seq<Profile>, filter: ReportFilter)
    ensures Report(a + b, filter) == Report(a, filter) + Report(b, filter)
  {
    FilterConcat(a, b, p => InReport(p, filter));
  }

  /** The label of the flags column. */
  function FlagsColumnLabel(p: Profile): (r: string)
    ensures r == "" <==> !p.whitelist && !p.blacklist
  {
    if p.whitelist then "Whitelist" else if p.blacklist then "Blacklist" else ""
  }

  /** The report table's flags column and the detail page's flag label always agree. */
  lemma FlagLabelsAgree(p: Profile)
    ensures FlagsColumnLabel(p) == ReportStudentDetailController.FlagLabel(p)
  {
  }

  class ReportsScreen {
    /** `allProfiles` */
    var allProfiles: seq<Profile>
    /** `displayedProfiles`, the table's items. */
    var displayedProfiles: seq<Profile>
    /** `currentFilter` */
    var currentFilter: ReportFilter

    constructor()
      ensures allProfiles == [] && displayedProfiles == [] && currentFilter == Whitelist
    {
      allProfiles := [];
      displayedProfiles := [];
      currentFilter := Whitelist;
    }

    /**
     * `refreshFromStorage`: the loaded profiles sorted by name. A read error is caught and
     * leaves no profiles; a column that is not Base64 throws out of the method before
     * `allProfiles` is assigned.
     */
    method RefreshFromStorage(file: StoredFile) returns (outcome: ProfileRepository.LoadOutcome)
      modifies this
      ensures outcome == ProfileRepository.OutcomeOf(ProfileRepository.Loaded(file))
      ensures outcome == ProfileRepository.ProfilesLoaded ==>
        allProfiles == ProfileRepository.Loaded(file).value && SortedBy(allProfiles, FullNameOf)
      ensures outcome == ProfileRepository.LoadCaught ==> allProfiles == []
      ensures outcome == ProfileRepository.LoadEscaped ==> allProfiles == old(allProfiles)
      ensures displayedProfiles == old(displayedProfiles) && currentFilter == old(currentFilter)
    {
      var stored := ProfileRepository.Loaded(file);
      outcome := ProfileRepository.OutcomeOf(stored);
      if stored.Ok? {
        ProfileRepository.LoadedSorted(file);
        SortBySortedIdentity(stored.value, FullNameOf);
        allProfiles := SortBy(stored.value, FullNameOf);
      } else if outcome == ProfileRepository.LoadCaught {
        allProfiles := [];
      }
    }

    /** `applyFilter`: the report of the current filter; the early exit on an empty list agrees with it. */
    method ApplyFilter()
      modifies this
      ensures displayedProfiles == Report(allProfiles, currentFilter)
      ensures allProfiles == old(allProfiles) && currentFilter == old(currentFilter)
    {
      if allProfiles == [] {
        displayedProfiles := [];
        return;
      }
      displayedProfiles := Report(allProfiles, currentFilter);
    }

    /** `setInitialFilter`: `null` changes nothing; a filter is selected and applied. */
    method SetInitialFilter(filter: Option<ReportFilter>)
      modifies this
      ensures allProfiles == old(allProfiles)
      ensures filter.None? ==> displayedProfiles == old(displayedProfiles) && currentFilter == old(currentFilter)
      ensures filter.Some? ==> currentFilter == filter.value && displayedProfiles == Report(allProfiles, filter.value)
    {
      if filter.None? {
        return;
      }
      currentFilter := filter.value;
      ApplyFilter();
    }

    /** The whitelist and blacklist radio buttons' handlers. */
    method SelectReport(filter: ReportFilter)
      modifies this
      ensures currentFilter == filter && allProfiles == old(allProfiles)
      ensures displayedProfiles == Report(allProfiles, filter)
    {
      currentFilter := filter;
      ApplyFilter();
    }
  }
}
