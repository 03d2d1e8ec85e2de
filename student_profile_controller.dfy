/**
 * `StudentProfileController`: the screen that defines a new student profile. It holds the
 * stored profiles (in case-insensitive name order), the comments added to the profile being
 * written, the languages offered for selection, and the form's controls. Saving checks the
 * form, adds the profile, re-sorts and rewrites the whole file; when the write fails the
 * new profile is taken out again.
 */
module StudentProfileController {
  import opened Wrappers
  import opened Seqs
  import opened JavaStrings
  import opened CaseInsensitiveOrder
  import opened StoredFiles
  import opened StudentProfiles
  import opened ProfileRepository
  import opened ProfileForm
  import LanguageRepository

  datatype SaveOutcome = Rejected(error: FormError) | Saved | SaveFailed

  /** A profile whose name matches no listed name ignoring case is a fresh key. */
  lemma FreshProfileName(before: seq<Profile>, p: Profile)
    requires !NameTaken(before, p.fullName)
    ensures forall i | 0 <= i < |before| :: !EqualsIgnoreCase(FullNameOf(before[i]), FullNameOf(p))
  {
  }

  /** On this screen the job field is emptied whenever it is disabled, so an unemployed student is saved without job details. */
  lemma UnemployedWithoutDetails(controls: FormControls, entries: Entries, comments: seq<string>, profiles: seq<Profile>)
    requires controls.Valid() && controls.JobFieldCleared()
    requires CheckNew(controls.Values(entries), comments, profiles).Ok?
    ensures var p := CheckNew(controls.Values(entries), comments, profiles).value;
      !p.employed ==> p.jobDetails == Some("")
  {
    var form := controls.Values(entries);
    CheckNewProfile(form, comments, profiles);
    if !form.employed {
      assert form.jobDetails == Some("");
      assert Trim("") == "";
    }
  }

  /** The `profiles` list behind the table, which `sortProfiles` keeps in case-insensitive name order. */
  class ProfileTable {
    var items: seq<Profile>

    ghost predicate Valid()
      reads this
    {
      SortedBy(items, FullNameOf)
    }

    constructor()
      ensures Valid() && items == []
    {
      items := [];
    }

    /** `profiles.setAll(stored)` followed by `sortProfiles()`. */
    method SetAllSorted(stored: seq<Profile>)
      modifies this
      ensures Valid() && items == SortBy(stored, FullNameOf)
    {
      items := SortBy(stored, FullNameOf);
      SortBySorted(stored, FullNameOf);
    }

    /**
     * `profiles.add(profile)` followed by `sortProfiles()`, for a profile whose name is not
     * listed yet: the list stays sorted, gains exactly that profile, and taking the first
     * equal profile out again gives back the old list.
     */
    method AddSorted(profile: Profile)
      requires Valid() && !NameTaken(items, profile.fullName)
      modifies this
      ensures Valid() && items == SortBy(old(items) + [profile], FullNameOf)
      ensures RemoveFirst(items, profile) == old(items)
      ensures UniqueKeys(old(items), FullNameOf) ==> UniqueKeys(items, FullNameOf)
    {
      var after := SortBy(items + [profile], FullNameOf);
      FreshProfileName(items, profile);
      AddFresh(items, profile, FullNameOf, after);
      items := after;
    }

    /** `profiles.remove(profile)`: the first element equal to it goes. */
    method Remove(profile: Profile)
      modifies this
      ensures items == RemoveFirst(old(items), profile)
    {
      items := RemoveFirst(items, profile);
    }
  }

  class CreateProfileScreen {
    /** The `profiles` list behind the table. */
    const table: ProfileTable
    /** The profile repository, with its storage file. */
    const repository: StudentProfileRepository
    /** The `comments` list of the profile being written. */
    var comments: seq<string>
    /** The language names offered in `languagesListView`, and whether that list is disabled. */
    var languageOptions: seq<string>
    var languagesDisabled: bool
    /** The job-status, job-details and list controls. */
    const controls: FormControls

    /** The controls are consistent, and the job field is empty while disabled. */
    ghost predicate ControlsAgree()
      reads controls
    {
      controls.Valid() && controls.JobFieldCleared()
    }

    /** The controller as the FXML loader creates it: no profiles or comments yet, and `initializeJobStatusControls` applied. */
    constructor(profileFile: StoredFile)
      ensures table.Valid() && ControlsAgree()
      ensures fresh(table) && fresh(repository) && fresh(controls)
      ensures repository.file == profileFile && table.items == [] && comments == [] && languageOptions == []
      ensures controls.jobToggle == Some(UnemployedRadio) && !controls.whitelistChecked && !controls.blacklistChecked
    {
      table := new ProfileTable();
      repository := new StudentProfileRepository(profileFile);
      comments := [];
      languageOptions := [];
      languagesDisabled := false;
      controls := new FormControls();
    }

    /**
     * `initialize`'s loading steps: the languages, then the profiles. When `loadProfiles`
     * ends with the decoder's exception, `initialize` ends with it too.
     */
    method Initialize(languageFile: StoredFile) returns (outcome: LoadOutcome)
      requires table.Valid()
      modifies this`languageOptions, this`languagesDisabled, table
      ensures table.Valid()
      ensures LanguageRepository.LoadAll(languageFile).Some? ==> languageOptions == LanguageRepository.LoadAll(languageFile).value
      ensures outcome == OutcomeOf(Loaded(repository.file))
      ensures outcome == ProfilesLoaded ==> table.items == SortBy(Loaded(repository.file).value, FullNameOf)
      ensures outcome != ProfilesLoaded ==> table.items == old(table.items)
    {
      LoadLanguages(languageFile);
      outcome := LoadProfiles();
    }

    /** `loadLanguages`: the stored names are offered; the list is disabled when there are none or they cannot be read. */
    method LoadLanguages(languageFile: StoredFile)
      modifies this`languageOptions, this`languagesDisabled
      ensures LanguageRepository.LoadAll(languageFile).Some? ==>
        languageOptions == LanguageRepository.LoadAll(languageFile).value && (languagesDisabled <==> languageOptions == [])
      ensures LanguageRepository.LoadAll(languageFile).None? ==> languageOptions == old(languageOptions) && languagesDisabled
    {
      var stored := LanguageRepository.LoadAll(languageFile);
      if stored.Some? {
        languageOptions := stored.value;
        languagesDisabled := stored.value == [];
      } else {
        languagesDisabled := true;
      }
    }

    /**
     * `loadProfiles`: the table shows the stored profiles, sorted. A read error is caught
     * (`false` in Java) and a column that is not Base64 throws out of the method; either
     * way the table is left as it was.
     */
    method LoadProfiles() returns (outcome: LoadOutcome)
      requires table.Valid()
      modifies table
      ensures table.Valid()
      ensures outcome == OutcomeOf(Loaded(repository.file))
      ensures outcome == ProfilesLoaded ==> table.items == SortBy(Loaded(repository.file).value, FullNameOf)
      ensures outcome != ProfilesLoaded ==> table.items == old(table.items)
    {
      var stored := repository.LoadAll();
      outcome := OutcomeOf(stored);
      if stored.Ok? {
        table.SetAllSorted(stored.value);
      }
    }

    /** Typing into the job-details field, which only an enabled field accepts. */
    method TypeJobDetails(text: string)
      requires ControlsAgree() && !controls.jobDetailsDisabled
      modifies controls
      ensures ControlsAgree() && controls.jobDetailsText == text
    {
      controls.SetJobDetails(text);
    }

    /**
     * `onAddComment`: a blank entry is refused; otherwise the trimmed entry, stamped with
     * today's date, is appended to the comments.
     */
    method OnAddComment(text: Option<string>, today: Date) returns (added: bool)
      modifies this`comments
      ensures added <==> TrimOrEmpty(text) != ""
      ensures added ==> comments == old(comments) + [Stamped(IsoDate(today), TrimOrEmpty(text))]
      ensures !added ==> comments == old(comments)
    {
      var entry := TrimOrEmpty(text);
      if entry == "" {
        return false;
      }
      comments := comments + [Stamped(IsoDate(today), entry)];
      added := true;
    }

    /** `clearForm`: no comments, "unemployed" selected, the job field empty, and neither list ticked. */
    method ClearForm()
      requires ControlsAgree()
      modifies this`comments, controls
      ensures ControlsAgree() && comments == []
      ensures controls.jobToggle == Some(UnemployedRadio) && controls.jobDetailsText == ""
      ensures !controls.whitelistChecked && !controls.blacklistChecked
    {
      comments := [];
      controls.SelectJobStatus(Some(UnemployedRadio));
      controls.SetJobDetails("");
      controls.SetWhitelist(false);
      controls.SetBlacklist(false);
    }

    /**
     * `onSaveProfile`: the form is checked as `CheckNew` does against the profiles on screen;
     * an accepted profile is added, the list re-sorted and saved, and the form cleared; when
     * the write fails the profile is removed again and nothing else changes.
     */
    method OnSaveProfile(entries: Entries, lineSep: string, write: WriteResult) returns (outcome: SaveOutcome)
      requires table.Valid() && ControlsAgree()
      modifies this`comments, table, repository, controls
      ensures table.Valid() && ControlsAgree()
      ensures var checked := CheckNew(old(controls.Values(entries)), old(comments), old(table.items));
        && (outcome.Rejected? <==> checked.Err?)
        && (outcome.Rejected? ==> outcome.error == checked.error)
        && (outcome == Saved <==> checked.Ok? && write.Completed?)
        && (outcome == Saved ==> table.items == SortBy(old(table.items) + [checked.value], FullNameOf))
        && (outcome == SaveFailed ==>
              repository.file == AfterWrite(old(repository.file), SavedText(SortBy(old(table.items) + [checked.value], FullNameOf), lineSep), write))
      ensures outcome == Saved ==> repository.file == SavedFile(table.items, lineSep) && comments == []
      ensures outcome == Saved ==> !controls.whitelistChecked && !controls.blacklistChecked
      ensures outcome == Saved ==> controls.jobToggle == Some(UnemployedRadio)
      ensures outcome != Saved ==> unchanged(this, controls) && table.items == old(table.items)
      ensures outcome.Rejected? ==> repository.file == old(repository.file)
      ensures UniqueKeys(old(table.items), FullNameOf) ==> UniqueKeys(table.items, FullNameOf)
    {
      var checked := CheckNew(controls.Values(entries), comments, table.items);
      if checked.Err? {
        return Rejected(checked.error);
      }
      var saved := SaveAccepted(checked.value, lineSep, write);
      outcome := if saved then Saved else SaveFailed;
    }

    /**
     * The part of `onSaveProfile` after the checks: the profile is added and the list
     * re-sorted and written; when the write fails the profile is removed again, otherwise
     * the form is cleared.
     */
    method SaveAccepted(profile: Profile, lineSep: string, write: WriteResult) returns (saved: bool)
      requires table.Valid() && ControlsAgree() && !NameTaken(table.items, profile.fullName)
      modifies this`comments, table, repository, controls
      ensures table.Valid() && ControlsAgree() && saved == write.Completed?
      ensures saved ==>
        table.items == SortBy(old(table.items) + [profile], FullNameOf)
        && repository.file == SavedFile(table.items, lineSep) && comments == []
        && !controls.whitelistChecked && !controls.blacklistChecked
        && controls.jobToggle == Some(UnemployedRadio)
      ensures !saved ==>
        unchanged(this, controls) && table.items == old(table.items)
        && repository.file == AfterWrite(old(repository.file), SavedText(SortBy(old(table.items) + [profile], FullNameOf), lineSep), write)
      ensures UniqueKeys(old(table.items), FullNameOf) ==> UniqueKeys(table.items, FullNameOf)
    {
      saved := AddAndWrite(profile, lineSep, write);
      if saved {
        ghost var items, file := table.items, repository.file;
        ClearForm();
        assert table.items == items && repository.file == file;
      }
    }

    /**
     * `profiles.add`, `sortProfiles` and `saveAll`, with `profiles.remove` when the write
     * fails; the file is then what the failed write left.
     */
    method AddAndWrite(profile: Profile, lineSep: string, write: WriteResult) returns (saved: bool)
      requires table.Valid() && !NameTaken(table.items, profile.fullName)
      modifies table, repository
      ensures table.Valid() && saved == write.Completed?
      ensures saved ==>
        table.items == SortBy(old(table.items) + [profile], FullNameOf)
        && repository.file == SavedFile(table.items, lineSep)
      ensures !saved ==>
        table.items == old(table.items)
        && repository.file == AfterWrite(old(repository.file), SavedText(SortBy(old(table.items) + [profile], FullNameOf), lineSep), write)
      ensures UniqueKeys(old(table.items), FullNameOf) ==> UniqueKeys(table.items, FullNameOf)
    {
      table.AddSorted(profile);
      var written := repository.SaveAll(table.items, lineSep, write);
      if written.Err? {
        table.Remove(profile);
        return false;
      }
      saved := true;
    }
  }
}
