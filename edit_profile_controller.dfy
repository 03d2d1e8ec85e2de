/**
 * `EditStudentProfileController`: the screen that edits one stored profile. It fills the
 * form from the profile, re-checks it on save with the creation chain minus the uniqueness
 * test, re-reads the comments from the text area line by line, and hands the result to the
 * repository's `updateProfile`, remembering the new name when that succeeds.
 */
module EditStudentProfileController {
  import opened Wrappers
  import opened Seqs
  import opened JavaStrings
  import opened StoredFiles
  import opened StudentProfiles
  import opened ProfileForm
  import opened SearchReturn
  import LanguageRepository

  /** `DATABASE_OPTIONS` */
  const DatabaseOptions: seq<string> := ["MySQL", "Postgres", "MongoDB", "SQLite", "Oracle"]

  datatype EditOutcome = EditRejected(error: FormError) | ProfileUpdated(profile: Profile) | UpdateRefused | UpdateError

  /** `items.stream().anyMatch(existing -> existing.equalsIgnoreCase(value))` */
  predicate ContainsIgnoreCase(items: seq<string>, value: string) {
    exists i | 0 <= i < |items| :: EqualsIgnoreCase(items[i], value)
  }

  /** `findIndexCaseInsensitive`: the first index whose item equals `value` ignoring case, or -1 when there is none. */
  method FindIndexCaseInsensitive(items: seq<string>, value: string) returns (index: int)
    ensures -1 <= index < |items|
    ensures index == -1 <==> !ContainsIgnoreCase(items, value)
    ensures index >= 0 ==> EqualsIgnoreCase(items[index], value)
    ensures index >= 0 ==> forall j | 0 <= j < index :: !EqualsIgnoreCase(items[j], value)
  {
    for i := 0 to |items|
      invariant forall j | 0 <= j < i :: !EqualsIgnoreCase(items[j], value)
    {
      if EqualsIgnoreCase(items[i], value) {
        return i;
      }
    }
    return -1;
  }

  /** The list after `ensureItemsPresent`: each non-blank value with no match so far, ignoring case, is appended. */
  function WithItems(items: seq<string>, values: seq<string>): seq<string>
    decreases |values|
  {
    if values == [] then items
    else
      var before := WithItems(items, values[..|values| - 1]);
      var v := values[|values| - 1];
      if IsBlank(v) || ContainsIgnoreCase(before, v) then before else before + [v]
  }

  /** `ensureItemsPresent`, on the list's items. */
  method EnsureItemsPresent(items: seq<string>, values: seq<string>) returns (result: seq<string>)
    ensures result == WithItems(items, values)
  {
    result := items;
    for i := 0 to |values|
      invariant result == WithItems(items, values[..i])
    {
      assert values[..i + 1][..i] == values[..i];
      var value := values[i];
      if IsBlank(value) {
        continue;
      }
      if !ContainsIgnoreCase(result, value) {
        result := result + [value];
      }
    }
    assert values[..|values|] == values;
  }

  /**
   * `ensureItemsPresent` only appends: the old items stay in front, and each added item is a
   * non-blank value that matched nothing before it, ignoring case.
   */
  lemma {:induction false} WithItemsAppends(items: seq<string>, values: seq<string>)
    ensures var r := WithItems(items, values);
      |items| <= |r| && r[..|items|] == items
      && forall k | |items| <= k < |r| :: r[k] in values && !IsBlank(r[k]) && !ContainsIgnoreCase(r[..k], r[k])
    decreases |values|
  {
    if values != [] {
      var init := values[..|values| - 1];
      WithItemsAppends(items, init);
      var before := WithItems(items, init);
      var v := values[|values| - 1];
      var r := WithItems(items, values);
      if !(IsBlank(v) || ContainsIgnoreCase(before, v)) {
        assert r == before + [v];
        forall k | |items| <= k < |r|
          ensures r[k] in values && !IsBlank(r[k]) && !ContainsIgnoreCase(r[..k], r[k])
        {
          if k < |before| {
            assert r[..k] == before[..k];
            assert r[k] == before[k];
            assert before[k] in init;
          } else {
            assert r[..k] == before;
          }
        }
      }
    }
  }

  /** After `ensureItemsPresent` every non-blank value matches some item, ignoring case. */
  lemma {:induction false} WithItemsCovers(items: seq<string>, values: seq<string>)
    ensures forall i | 0 <= i < |values| :: IsBlank(values[i]) || ContainsIgnoreCase(WithItems(items, values), values[i])
    decreases |values|
  {
    if values != [] {
      var init := values[..|values| - 1];
      WithItemsCovers(items, init);
      var before := WithItems(items, init);
      var v := values[|values| - 1];
      var r := WithItems(items, values);
      WithItemsAppends(items, init);
      assert before <= r;
      forall i | 0 <= i < |values| && !IsBlank(values[i])
        ensures ContainsIgnoreCase(r, values[i])
      {
        if i < |init| {
          assert values[i] == init[i];
          var j :| 0 <= j < |before| && EqualsIgnoreCase(before[j], values[i]);
          assert r[j] == before[j];
        } else if !ContainsIgnoreCase(before, v) {
          assert r[|before|] == v;
          assert EqualsIgnoreCase(v, v);
        } else {
          var j :| 0 <= j < |before| && EqualsIgnoreCase(before[j], v);
          assert r[j] == before[j];
        }
      }
    }
  }

  /** Filling a `LinkedHashSet` from `s` in order: each element is added unless already there. */
  method LinkedSetOf(s: seq<string>) returns (r: seq<string>)
    ensures r == Distinct(s)
  {
    r := [];
    for i := 0 to |s|
      invariant r == Distinct(s[..i])
    {
      var x := s[i];
      LinkedSetStep(s, i, r);
      if x !in r {
        r := r + [x];
      }
    }
    assert s[..|s|] == s;
  }

  /** An element is kept by `Distinct` exactly when it occurs. */
  lemma DistinctHas(s: seq<string>, x: string)
    ensures x in Distinct(s) <==> x in s
  {
    if x in s {
      var i :| 0 <= i < |s| && s[i] == x;
    }
  }

  /** One step of `LinkedSetOf`: adding `s[i]` to the set of `s[..i]` gives the set of `s[..i + 1]`. */
  lemma LinkedSetStep(s: seq<string>, i: nat, r: seq<string>)
    requires i < |s| && r == Distinct(s[..i])
    ensures (if s[i] in r then r else r + [s[i]]) == Distinct(s[..i + 1])
  {
    DistinctSnoc(s[..i], s[i]);
    DistinctHas(s[..i], s[i]);
    assert s[..i + 1] == s[..i] + [s[i]];
  }

  /**
   * The merged language list: the stored names without repeats, then the profile's own
   * languages that are not stored, without repeats; a stored list without repeats comes
   * first unchanged.
   */
  lemma MergedLanguages(stored: seq<string>, preferred: seq<string>)
    ensures Distinct(stored + preferred) == Distinct(stored) + Absent(Distinct(preferred), stored)
    ensures (forall i, j | 0 <= i < j < |stored| :: stored[i] != stored[j]) ==>
      Distinct(stored + preferred) == stored + Absent(Distinct(preferred), stored)
  {
    DistinctConcat(stored, preferred);
    if forall i, j | 0 <= i < j < |stored| :: stored[i] != stored[j] {
      DistinctOfDistinct(stored);
    }
  }

  class EditProfileScreen {
    /** The stored name of the profile being edited; `null` until `setProfile`. */
    var originalName: Option<string>
    var returnFilters: SearchFilters
    var successMessageOnReturn: Option<string>
    var languageItems: seq<string>
    var languagesDisabled: bool
    var databaseItems: seq<string>
    /** The comments text area. */
    var commentsText: string
    /** The job-status, job-details and list controls. */
    const controls: FormControls

    /**
     * `initialize`: "unemployed" selected with the job field empty and disabled, neither list
     * ticked, the database options listed, and the stored languages loaded, the list disabled
     * when there are none.
     */
    constructor(languageFile: StoredFile)
      ensures controls.Valid() && fresh(controls)
      ensures controls.jobToggle == Some(UnemployedRadio) && controls.jobDetailsText == "" && controls.jobDetailsDisabled
      ensures !controls.whitelistChecked && !controls.blacklistChecked
      ensures commentsText == "" && (languagesDisabled <==> languageItems == [])
      ensures originalName == None && returnFilters == NoFilters && successMessageOnReturn == None
      ensures databaseItems == DatabaseOptions
      ensures LanguageRepository.LoadAll(languageFile).Some? ==> languageItems == Distinct(LanguageRepository.LoadAll(languageFile).value)
      ensures LanguageRepository.LoadAll(languageFile).None? ==> languageItems == []
    {
      originalName := None;
      returnFilters := NoFilters;
      successMessageOnReturn := None;
      databaseItems := DatabaseOptions;
      commentsText := "";
      controls := new FormControls();
      new;
      LoadLanguages(languageFile, []);
      assert LanguageRepository.LoadAll(languageFile).Some? ==> LanguageRepository.LoadAll(languageFile).value + [] == LanguageRepository.LoadAll(languageFile).value;
    }

    /** `setReturnState` */
    method SetReturnState(name: Option<string>, status: Option<string>, language: Option<string>,
                          database: Option<string>, role: Option<string>)
      modifies this`returnFilters
      ensures returnFilters == ReturnFilters(name, status, language, database, role)
    {
      returnFilters := ReturnFilters(name, status, language, database, role);
    }

    /**
     * `loadLanguages`: the stored names merged with the given ones in a `LinkedHashSet`, or
     * just the given ones when the stored names cannot be read; an empty list is disabled.
     */
    method LoadLanguages(languageFile: StoredFile, preferred: seq<string>)
      modifies this`languageItems, this`languagesDisabled
      ensures LanguageRepository.LoadAll(languageFile).Some? ==> languageItems == Distinct(LanguageRepository.LoadAll(languageFile).value + preferred)
      ensures LanguageRepository.LoadAll(languageFile).None? ==> languageItems == preferred
      ensures languagesDisabled <==> languageItems == []
    {
      var stored := LanguageRepository.LoadAll(languageFile);
      if stored.Some? {
        languageItems := LinkedSetOf(stored.value + preferred);
      } else {
        languageItems := preferred;
      }
      languagesDisabled := languageItems == [];
    }

    /**
     * `setProfile`: remembers the name and fills the form: the job toggle and text, the
     * languages merged with the profile's, its databases added to the options, the comments
     * one per line, and the list check-boxes, whose listeners let the blacklist win a tie.
     */
    method SetProfile(profile: Profile, languageFile: StoredFile, lineSep: string)
      requires controls.Valid()
      modifies this`originalName, this`languageItems, this`languagesDisabled, this`databaseItems, this`commentsText, controls
      ensures controls.Valid() && originalName == Some(profile.fullName)
      ensures controls.jobToggle == Some(if profile.employed then EmployedRadio else UnemployedRadio)
      ensures controls.jobDetailsText == profile.jobDetails.GetOr("")
      ensures LanguageRepository.LoadAll(languageFile).Some? ==>
        languageItems == Distinct(LanguageRepository.LoadAll(languageFile).value + profile.programmingLanguages)
      ensures LanguageRepository.LoadAll(languageFile).None? ==> languageItems == profile.programmingLanguages
      ensures databaseItems == WithItems(old(databaseItems), profile.databases)
      ensures commentsText == Join(profile.comments, lineSep)
      ensures controls.blacklistChecked == profile.blacklist
      ensures controls.whitelistChecked == (profile.whitelist && !profile.blacklist)
    {
      originalName := Some(profile.fullName);
      controls.SelectJobStatus(Some(if profile.employed then EmployedRadio else UnemployedRadio));
      controls.SetJobDetails(profile.jobDetails.GetOr(""));
      LoadLanguages(languageFile, profile.programmingLanguages);
      databaseItems := EnsureItemsPresent(databaseItems, profile.databases);
      commentsText := Join(profile.comments, lineSep);
      controls.SetWhitelist(profile.whitelist);
      controls.SetBlacklist(profile.blacklist);
    }

    /**
     * `onSaveProfile`: the form is checked as `CheckEdit` does, with the comments read back
     * from the text area; an accepted profile goes to `updateProfile`, and only when that
     * reports success does the screen take on its name and a message for the search screen.
     */
    method OnSaveProfile(entries: Entries, update: UpdateResult) returns (outcome: EditOutcome)
      modifies this`originalName, this`successMessageOnReturn
      ensures var checked := CheckEdit(controls.Values(entries), CommentLines(commentsText));
        && (outcome.EditRejected? <==> checked.Err?)
        && (outcome.EditRejected? ==> outcome.error == checked.error)
        && (outcome.ProfileUpdated? <==> checked.Ok? && update == Updated)
        && (outcome.ProfileUpdated? ==> outcome.profile == checked.value)
        && (outcome == UpdateRefused <==> checked.Ok? && update == NotUpdated)
      ensures outcome.ProfileUpdated? ==>
        originalName == Some(outcome.profile.fullName)
        && successMessageOnReturn == Some("Updated profile for " + outcome.profile.fullName + ".")
      ensures !outcome.ProfileUpdated? ==> originalName == old(originalName) && successMessageOnReturn == old(successMessageOnReturn)
    {
      var checked := CheckEdit(controls.Values(entries), CommentLines(commentsText));
      outcome := ApplyChecked(checked, update);
    }

    /** What `onSaveProfile` does once the form has been checked. */
    method ApplyChecked(checked: Result<Profile, FormError>, update: UpdateResult) returns (outcome: EditOutcome)
      modifies this`originalName, this`successMessageOnReturn
      ensures && (outcome.EditRejected? <==> checked.Err?)
        && (outcome.EditRejected? ==> outcome.error == checked.error)
        && (outcome.ProfileUpdated? <==> checked.Ok? && update == Updated)
        && (outcome.ProfileUpdated? ==> outcome.profile == checked.value)
        && (outcome == UpdateRefused <==> checked.Ok? && update == NotUpdated)
      ensures outcome.ProfileUpdated? ==>
        originalName == Some(outcome.profile.fullName)
        && successMessageOnReturn == Some("Updated profile for " + outcome.profile.fullName + ".")
      ensures !outcome.ProfileUpdated? ==> originalName == old(originalName) && successMessageOnReturn == old(successMessageOnReturn)
    {
      if checked.Err? {
        return EditRejected(checked.error);
      }
      var updatedProfile := checked.value;
      match update {
        case Updated =>
          originalName := Some(updatedProfile.fullName);
          successMessageOnReturn := Some("Updated profile for " + updatedProfile.fullName + ".");
          outcome := ProfileUpdated(updatedProfile);
        case NotUpdated =>
          outcome := UpdateRefused;
        case UpdateFailed =>
          outcome := UpdateError;
      }
    }
  }
}
