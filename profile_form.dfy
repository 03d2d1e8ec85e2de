/**
 * The profile form shared by the create and edit screens: the values read from its
 * controls, and the chain of checks both `onSaveProfile` handlers run before they build
 * a `StudentProfile`. The create screen also rejects a name that an existing profile
 * already has, ignoring case; the edit screen does not.
 */
module ProfileForm {
  import opened Wrappers
  import opened JavaStrings
  import opened StudentProfiles

  /**
   * The controls' values: `null` where a text field or combo box is empty; `employed`
   * says whether the employed radio button is the selected toggle.
   */
  datatype FormValues = FormValues(fullName: Option<string>, academicStatus: Option<string>, employed: bool,
                                   jobDetails: Option<string>, languages: seq<string>, databases: seq<string>,
                                   preferredRole: Option<string>, whitelist: bool, blacklist: bool)

  /** The selected toggle of the job-status group. */
  datatype JobToggle = EmployedRadio | UnemployedRadio

  /** What was typed or selected in the controls that `FormControls` does not cover. */
  datatype Entries = Entries(fullName: Option<string>, academicStatus: Option<string>, languages: seq<string>,
                             databases: seq<string>, preferredRole: Option<string>)

  /** The reasons a form is rejected, in the order they are checked. */
  datatype FormError = NameRequired | DuplicateName | StatusRequired | JobDetailsRequired
                     | LanguageRequired | DatabaseRequired | RoleRequired | BothLists

  /** `value != null && !value.isBlank()` */
  predicate IsPresent(value: Option<string>) {
    value.Some? && !IsBlank(value.value)
  }

  /** `anyMatch(profile -> profile.getFullName().equalsIgnoreCase(name))` */
  predicate NameTaken(profiles: seq<Profile>, name: string) {
    exists i | 0 <= i < |profiles| :: EqualsIgnoreCase(profiles[i].fullName, name)
  }

  /** The first of the checks after the name that fails, if any. */
  function DetailsError(form: FormValues): Option<FormError> {
    if !IsPresent(form.academicStatus) then Some(StatusRequired)
    else if form.employed && TrimOrEmpty(form.jobDetails) == "" then Some(JobDetailsRequired)
    else if form.languages == [] then Some(LanguageRequired)
    else if form.databases == [] then Some(DatabaseRequired)
    else if !IsPresent(form.preferredRole) then Some(RoleRequired)
    else if form.whitelist && form.blacklist then Some(BothLists)
    else None
  }

  /** The `StudentProfile` built from a form that passed, with the trimmed name and job details. */
  function ProfileOf(form: FormValues, name: string, comments: seq<string>): Profile {
    Profile(name, form.academicStatus, form.employed, Some(TrimOrEmpty(form.jobDetails)), form.languages,
            form.databases, form.preferredRole, comments, form.whitelist, form.blacklist)
  }

  /** What every saved profile satisfies. */
  predicate IsValidProfile(p: Profile) {
    p.fullName != "" && IsTrimmed(p.fullName)
    && IsPresent(p.academicStatus)
    && p.jobDetails.Some? && IsTrimmed(p.jobDetails.value) && (p.employed ==> p.jobDetails.value != "")
    && p.programmingLanguages != [] && p.databases != []
    && IsPresent(p.preferredRole)
    && !(p.whitelist && p.blacklist)
  }

  /** The create screen's checks: name, uniqueness, then the details. */
  function CheckNew(form: FormValues, comments: seq<string>, profiles: seq<Profile>): (r: Result<Profile, FormError>)
    ensures r.Ok? ==> IsValidProfile(r.value) && !NameTaken(profiles, r.value.fullName)
  {
    var name := TrimOrEmpty(form.fullName);
    if name == "" then Err(NameRequired)
    else if NameTaken(profiles, name) then Err(DuplicateName)
    else match DetailsError(form)
      case Some(e) => Err(e)
      case None => Ok(ProfileOf(form, name, comments))
  }

  /** The edit screen's checks: the same chain without the uniqueness test. */
  function CheckEdit(form: FormValues, comments: seq<string>): (r: Result<Profile, FormError>)
    ensures r.Ok? ==> IsValidProfile(r.value)
  {
    var name := TrimOrEmpty(form.fullName);
    if name == "" then Err(NameRequired)
    else match DetailsError(form)
      case Some(e) => Err(e)
      case None => Ok(ProfileOf(form, name, comments))
  }

  /**
   * The checks run in order: each error is reported exactly when every earlier check
   * passed and its own fails, and a form passes exactly when all of them pass.
   */
  lemma CheckNewOrder(form: FormValues, comments: seq<string>, profiles: seq<Profile>)
    ensures var name := TrimOrEmpty(form.fullName);
      var named := name != "" && !NameTaken(profiles, name);
      var status := named && IsPresent(form.academicStatus);
      var job := status && !(form.employed && TrimOrEmpty(form.jobDetails) == "");
      var languages := job && form.languages != [];
      var databases := languages && form.databases != [];
      var role := databases && IsPresent(form.preferredRole);
      (CheckNew(form, comments, profiles) == Err(NameRequired) <==> name == "")
      && (CheckNew(form, comments, profiles) == Err(DuplicateName) <==> name != "" && NameTaken(profiles, name))
      && (CheckNew(form, comments, profiles) == Err(StatusRequired) <==> named && !IsPresent(form.academicStatus))
      && (CheckNew(form, comments, profiles) == Err(JobDetailsRequired) <==> status && form.employed && TrimOrEmpty(form.jobDetails) == "")
      && (CheckNew(form, comments, profiles) == Err(LanguageRequired) <==> job && form.languages == [])
      && (CheckNew(form, comments, profiles) == Err(DatabaseRequired) <==> languages && form.databases == [])
      && (CheckNew(form, comments, profiles) == Err(RoleRequired) <==> databases && !IsPresent(form.preferredRole))
      && (CheckNew(form, comments, profiles) == Err(BothLists) <==> role && form.whitelist && form.blacklist)
      && (CheckNew(form, comments, profiles).Ok? <==> role && !(form.whitelist && form.blacklist))
  {
  }

  /** A form that passes gives the profile of its trimmed name, its values and the given comments. */
  lemma CheckNewProfile(form: FormValues, comments: seq<string>, profiles: seq<Profile>)
    requires CheckNew(form, comments, profiles).Ok?
    ensures CheckNew(form, comments, profiles).value == ProfileOf(form, Trim(form.fullName.value), comments)
    ensures form.fullName.Some? && Trim(form.fullName.value) != ""
    ensures !NameTaken(profiles, Trim(form.fullName.value))
  {
  }

  /** Editing checks what creating checks, except that a taken name is accepted. */
  lemma EditIsNewWithoutUniqueness(form: FormValues, comments: seq<string>, profiles: seq<Profile>)
    ensures CheckEdit(form, comments) == CheckNew(form, comments, [])
    ensures !NameTaken(profiles, TrimOrEmpty(form.fullName)) ==> CheckNew(form, comments, profiles) == CheckEdit(form, comments)
    ensures CheckNew(form, comments, profiles).Ok? ==> CheckEdit(form, comments) == CheckNew(form, comments, profiles)
  {
  }

  /**
   * The controls whose listeners keep each other consistent on both profile screens: the
   * job-status radio buttons and the job-details field they enable, and the whitelist and
   * blacklist check-boxes, each of which clears the other when ticked.
   */
  class FormControls {
    /** The selected toggle; `None` when neither radio button is selected. */
    var jobToggle: Option<JobToggle>
    var jobDetailsText: string
    var jobDetailsDisabled: bool
    var whitelistChecked: bool
    var blacklistChecked: bool

    /** At most one list is ticked, and the job field is disabled exactly when "employed" is not selected. */
    predicate Valid()
      reads this
    {
      !(whitelistChecked && blacklistChecked) && (jobDetailsDisabled <==> jobToggle != Some(EmployedRadio))
    }

    /** The job field holds no text while it is disabled. */
    predicate JobFieldCleared()
      reads this
    {
      jobDetailsDisabled ==> jobDetailsText == ""
    }

    /** `initializeJobStatusControls`: "unemployed" selected and the job field disabled; nothing ticked. */
    constructor()
      ensures Valid() && JobFieldCleared()
      ensures jobToggle == Some(UnemployedRadio) && jobDetailsText == "" && !whitelistChecked && !blacklistChecked
    {
      jobToggle := Some(UnemployedRadio);
      jobDetailsText := "";
      jobDetailsDisabled := true;
      whitelistChecked := false;
      blacklistChecked := false;
    }

    /** The values `onSaveProfile` reads from these controls and the others. */
    function Values(entries: Entries): (form: FormValues)
      reads this
      ensures form.employed <==> jobToggle == Some(EmployedRadio)
      ensures form.jobDetails == Some(jobDetailsText)
      ensures form.whitelist == whitelistChecked && form.blacklist == blacklistChecked
      ensures form.fullName == entries.fullName && form.academicStatus == entries.academicStatus
      ensures form.languages == entries.languages && form.databases == entries.databases
      ensures form.preferredRole == entries.preferredRole
    {
      FormValues(entries.fullName, entries.academicStatus, jobToggle == Some(EmployedRadio), Some(jobDetailsText),
                 entries.languages, entries.databases, entries.preferredRole, whitelistChecked, blacklistChecked)
    }

    /**
     * `selectToggle`, then `handleJobStatusChange` when the selection changed: the job field
     * is enabled only for "employed", and emptied otherwise.
     */
    method SelectJobStatus(toggle: Option<JobToggle>)
      requires Valid()
      modifies this
      ensures Valid() && jobToggle == toggle
      ensures whitelistChecked == old(whitelistChecked) && blacklistChecked == old(blacklistChecked)
      ensures toggle == old(jobToggle) ==> jobDetailsText == old(jobDetailsText)
      ensures toggle != old(jobToggle) && toggle != Some(EmployedRadio) ==> jobDetailsText == ""
      ensures toggle == Some(EmployedRadio) ==> jobDetailsText == old(jobDetailsText)
      ensures old(JobFieldCleared()) ==> JobFieldCleared()
    {
      if toggle != jobToggle {
        jobToggle := toggle;
        jobDetailsDisabled := toggle != Some(EmployedRadio);
        if jobDetailsDisabled {
          jobDetailsText := "";
        }
      }
    }

    /** `jobDetailsField.setText`. */
    method SetJobDetails(text: string)
      modifies this
      ensures jobDetailsText == text
      ensures jobToggle == old(jobToggle) && jobDetailsDisabled == old(jobDetailsDisabled)
      ensures whitelistChecked == old(whitelistChecked) && blacklistChecked == old(blacklistChecked)
    {
      jobDetailsText := text;
    }

    /** Setting the whitelist check-box, then `handleWhitelistChange`: ticking it clears the blacklist box. */
    method SetWhitelist(selected: bool)
      requires Valid()
      modifies this
      ensures Valid() && whitelistChecked == selected
      ensures blacklistChecked == (old(blacklistChecked) && !selected)
      ensures jobToggle == old(jobToggle) && jobDetailsText == old(jobDetailsText) && jobDetailsDisabled == old(jobDetailsDisabled)
    {
      whitelistChecked := selected;
      if selected {
        blacklistChecked := false;
      }
    }

    /** Setting the blacklist check-box, then `handleBlacklistChange`: ticking it clears the whitelist box. */
    method SetBlacklist(selected: bool)
      requires Valid()
      modifies this
      ensures Valid() && blacklistChecked == selected
      ensures whitelistChecked == (old(whitelistChecked) && !selected)
      ensures jobToggle == old(jobToggle) && jobDetailsText == old(jobDetailsText) && jobDetailsDisabled == old(jobDetailsDisabled)
    {
      blacklistChecked := selected;
      if selected {
        whitelistChecked := false;
      }
    }
  }

  /** Forms read from consistent controls never tick both lists, so they are never refused with `BothLists`. */
  lemma NeverBothLists(controls: FormControls, entries: Entries, comments: seq<string>, profiles: seq<Profile>)
    requires controls.Valid()
    ensures CheckNew(controls.Values(entries), comments, profiles) != Err(BothLists)
    ensures CheckEdit(controls.Values(entries), comments) != Err(BothLists)
  {
  }
}
