/**
 * `ViewStudentCommentsController`: the screen that lists one profile's comments and adds a
 * new one. The typed text is trimmed, its line feeds become spaces, runs of spaces shrink to
 * one, and the result is stamped with the day's date and appended to the profile, which the
 * repository's `updateProfile` then stores.
 */
module ViewStudentCommentsController {
  import opened Wrappers
  import opened Seqs
  import opened JavaStrings
  import opened StudentProfiles
  import opened SearchReturn

  /** `replaceAll("\r?\n", " ")`: each line feed, with the carriage return just before it if any, becomes one space. */
  function ReplaceLineFeeds(s: string): (r: string)
    ensures |r| <= |s|
    decreases |s|
  {
    if s == [] then []
    else if |s| >= 2 && s[0] == '\r' && s[1] == '\n' then " " + ReplaceLineFeeds(s[2..])
    else if s[0] == '\n' then " " + ReplaceLineFeeds(s[1..])
    else [s[0]] + ReplaceLineFeeds(s[1..])
  }

  /** No line feed is left, and every other character comes from the input. */
  lemma {:induction false} ReplaceRemovesLineFeeds(s: string)
    ensures forall c | c in ReplaceLineFeeds(s) :: c == ' ' || (c in s && c != '\n')
    decreases |s|
  {
    if s != [] {
      var k := if |s| >= 2 && s[0] == '\r' && s[1] == '\n' then 2 else 1;
      ReplaceRemovesLineFeeds(s[k..]);
      var head := if k == 2 || s[0] == '\n' then ' ' else s[0];
      assert ReplaceLineFeeds(s) == [head] + ReplaceLineFeeds(s[k..]);
      assert forall c | c in s[k..] :: c in s;
    }
  }

  /** Without carriage returns the replacement works character by character: each line feed becomes a space, nothing else moves. */
  lemma {:induction false} ReplaceWithoutReturns(s: string)
    requires '\r' !in s
    ensures |ReplaceLineFeeds(s)| == |s|
    ensures forall i | 0 <= i < |s| :: ReplaceLineFeeds(s)[i] == if s[i] == '\n' then ' ' else s[i]
    decreases |s|
  {
    if s != [] {
      assert s[0] != '\r' && '\r' !in s[1..];
      ReplaceWithoutReturns(s[1..]);
      var r := ReplaceLineFeeds(s);
      assert r == [if s[0] == '\n' then ' ' else s[0]] + ReplaceLineFeeds(s[1..]);
      forall i | 0 <= i < |s|
        ensures r[i] == if s[i] == '\n' then ' ' else s[i]
      {
        if i > 0 {
          assert r[i] == ReplaceLineFeeds(s[1..])[i - 1];
        }
      }
    }
  }

  /** A text starting with anything but a line break keeps its first character. */
  lemma ReplaceKeepsFirst(s: string)
    requires s != [] && s[0] != '\r' && s[0] != '\n'
    ensures ReplaceLineFeeds(s) != [] && ReplaceLineFeeds(s)[0] == s[0]
  {
  }

  /** No two spaces in a row. */
  predicate SingleSpaced(s: string) {
    forall i | 0 <= i < |s| - 1 :: !(s[i] == ' ' && s[i + 1] == ' ')
  }

  /**
   * `replaceAll("\s+", " ")`. In a Java string literal `\s` is the space escape, so the
   * pattern is `" +"`: every run of spaces becomes one space, and tabs or other blanks stay.
   */
  function CollapseSpaces(s: string): (r: string)
    ensures |r| <= |s|
    ensures r == [] <==> s == []
    ensures s != [] ==> r[0] == s[0] && r[|r| - 1] == s[|s| - 1]
    decreases |s|
  {
    if |s| <= 1 then s
    else if s[0] == ' ' && s[1] == ' ' then CollapseSpaces(s[1..])
    else [s[0]] + CollapseSpaces(s[1..])
  }

  /** Collapsing leaves no two spaces in a row and brings in no new character. */
  lemma {:induction false} CollapseShape(s: string)
    ensures SingleSpaced(CollapseSpaces(s))
    ensures forall c | c in CollapseSpaces(s) :: c in s
    decreases |s|
  {
    if |s| > 1 {
      CollapseShape(s[1..]);
      var rest := CollapseSpaces(s[1..]);
      assert forall c | c in s[1..] :: c in s;
      if !(s[0] == ' ' && s[1] == ' ') {
        var r := [s[0]] + rest;
        assert CollapseSpaces(s) == r;
        forall i | 0 <= i < |r| - 1
          ensures !(r[i] == ' ' && r[i + 1] == ' ')
        {
          if i > 0 {
            assert r[i] == rest[i - 1] && r[i + 1] == rest[i];
          }
        }
      }
    }
  }

  function IsNotSpace(c: char): bool {
    c != ' '
  }

  /** Collapsing removes spaces only: the other characters are all kept, in order. */
  lemma {:induction false} CollapseKeepsWords(s: string)
    ensures Filter(CollapseSpaces(s), IsNotSpace) == Filter(s, IsNotSpace)
    decreases |s|
  {
    if |s| > 1 {
      CollapseKeepsWords(s[1..]);
      FilterConcat([s[0]], s[1..], IsNotSpace);
      assert [s[0]] + s[1..] == s;
      if !(s[0] == ' ' && s[1] == ' ') {
        FilterConcat([s[0]], CollapseSpaces(s[1..]), IsNotSpace);
      } else {
        assert Filter([s[0]], IsNotSpace) == [] by {
          assert [s[0]][..0] == [];
        }
      }
    }
  }

  /** A single-spaced text is left as it is, so collapsing twice is collapsing once. */
  lemma {:induction false} CollapseOfSingleSpaced(s: string)
    requires SingleSpaced(s)
    ensures CollapseSpaces(s) == s
    decreases |s|
  {
    if |s| > 1 {
      assert SingleSpaced(s[1..]) by {
        forall i | 0 <= i < |s[1..]| - 1
          ensures !(s[1..][i] == ' ' && s[1..][i + 1] == ' ')
        {
          assert s[1..][i] == s[i + 1] && s[1..][i + 1] == s[i + 2];
        }
      }
      CollapseOfSingleSpaced(s[1..]);
      assert !(s[0] == ' ' && s[1] == ' ');
      assert [s[0]] + s[1..] == s;
    }
  }

  lemma CollapseIdempotent(s: string)
    ensures CollapseSpaces(CollapseSpaces(s)) == CollapseSpaces(s)
  {
    CollapseShape(s);
    CollapseOfSingleSpaced(CollapseSpaces(s));
  }

  /** The text that is stamped and stored, from the already trimmed input. */
  function Sanitize(entered: string): string {
    CollapseSpaces(Trim(ReplaceLineFeeds(entered)))
  }

  /** A sanitized comment is trimmed, single-spaced and free of line feeds. */
  lemma SanitizeShape(entered: string)
    ensures var r := Sanitize(entered);
      IsTrimmed(r) && SingleSpaced(r) && '\n' !in r
  {
    var t := Trim(ReplaceLineFeeds(entered));
    var r := CollapseSpaces(t);
    ReplaceRemovesLineFeeds(entered);
    TrimChars(ReplaceLineFeeds(entered));
    CollapseShape(t);
    if r != [] {
      assert r[0] == t[0] && r[|r| - 1] == t[|t| - 1];
    }
  }

  /**
   * The second emptiness check after sanitizing never rejects anything: a non-empty trimmed
   * input starts with a character that neither replacing nor trimming removes.
   */
  lemma SecondCheckDead(entered: string)
    requires entered != "" && IsTrimmed(entered)
    ensures Sanitize(entered) != ""
  {
    ReplaceKeepsFirst(entered);
    var s := ReplaceLineFeeds(entered);
    assert !IsTrimmable(s[0]);
  }

  /** A lone carriage return is not a match of `\r?\n`, so it stays in the comment. */
  lemma LoneReturnKept()
    ensures Sanitize("a\rb") == "a\rb"
    ensures HasLineBreak(Sanitize("a\rb"))
  {
    var s: string := "a\rb";
    assert ReplaceLineFeeds(s) == [s[0]] + ReplaceLineFeeds(s[1..]);
    assert ReplaceLineFeeds(s[1..]) == [s[1]] + ReplaceLineFeeds(s[2..]);
    assert ReplaceLineFeeds(s[2..]) == [s[2]] + ReplaceLineFeeds(s[3..]);
    assert ReplaceLineFeeds(s) == s;
    assert Trim(s) == s by {
      TrimOfTrimmed(s);
    }
    assert SingleSpaced(s);
    CollapseOfSingleSpaced(s);
    assert IsLineBreak(Sanitize(s)[1]);
  }

  /** Tabs are not spaces to `" +"`: a run of them is kept. */
  lemma TabsKept()
    ensures Sanitize("a\t\tb") == "a\t\tb"
  {
    var s: string := "a\t\tb";
    assert '\r' !in s;
    ReplaceWithoutReturns(s);
    assert ReplaceLineFeeds(s) == s;
    TrimOfTrimmed(s);
    assert SingleSpaced(s);
    CollapseOfSingleSpaced(s);
  }

  /** `String.format("%s - %s", date, sanitized)` with the day's date in ISO form. */
  function StampedComment(entered: string, today: Date): string {
    Stamped(IsoDate(today), Sanitize(entered))
  }

  /** Input whose only line breaks are line feeds sanitizes to a single line. */
  lemma SanitizedOneLine(entered: string)
    requires forall c | c in entered :: IsLineBreak(c) ==> c == '\n'
    ensures !HasLineBreak(Sanitize(entered))
  {
    var s := ReplaceLineFeeds(entered);
    ReplaceRemovesLineFeeds(entered);
    TrimChars(s);
    CollapseShape(Trim(s));
    var r := Sanitize(entered);
    forall k | 0 <= k < |r|
      ensures !IsLineBreak(r[k])
    {
      assert r[k] in Trim(s);
      assert r[k] in s;
    }
  }

  /** A trimmed one-line text stamped with a date is a clean comment. */
  lemma StampedIsClean(d: Date, text: string)
    requires text != "" && IsTrimmed(text) && !HasLineBreak(text)
    ensures IsCleanComment(Stamped(IsoDate(d), text))
  {
    var date := IsoDate(d);
    var c := Stamped(date, text);
    IsoDateShape(d);
    assert c[0] == date[0] && c[|c| - 1] == text[|text| - 1];
    forall k | 0 <= k < |c|
      ensures !IsLineBreak(c[k])
    {
      if k < |date| {
        assert c[k] == date[k];
      } else if k < |date| + 3 {
        assert c[k] == " - "[k - |date|];
      } else {
        assert c[k] == text[k - |date| - 3];
      }
    }
  }

  /**
   * A comment added from input whose only line breaks are line feeds is a clean comment:
   * trimmed, non-empty and on one line.
   */
  lemma AddedCommentIsClean(input: string, today: Date)
    requires Trim(input) != ""
    requires forall c | c in input :: IsLineBreak(c) ==> c == '\n'
    ensures IsCleanComment(StampedComment(Trim(input), today))
  {
    var entered := Trim(input);
    SanitizeShape(entered);
    SecondCheckDead(entered);
    SanitizedOneLine(entered);
    StampedIsClean(today, Sanitize(entered));
  }

  /**
   * The comment `onAddComment` stores for the typed input: none when the trimmed input is
   * empty, or when the sanitized text is; otherwise the sanitized text stamped with `today`.
   */
  function AddedComment(input: string, today: Date): Option<string> {
    var entered := Trim(input);
    if entered == "" then None
    else
      var sanitized := Sanitize(entered);
      if sanitized == "" then None
      else Some(Stamped(IsoDate(today), sanitized))
  }

  /**
   * Only a blank input is refused, and an accepted one is stored as its sanitized text
   * under the day's date.
   */
  lemma AddedCommentWhenNonBlank(input: string, today: Date)
    ensures AddedComment(input, today).None? <==> Trim(input) == ""
    ensures AddedComment(input, today).Some? ==>
      AddedComment(input, today).value == StampedComment(Trim(input), today)
      && DatePrefix(AddedComment(input, today).value) == Some(IsoDate(today))
  {
    var entered := Trim(input);
    if entered != "" {
      SecondCheckDead(entered);
      StampedOnDate(today, Sanitize(entered));
    }
  }

  /** The profile with one more comment at the end, everything else as it was. */
  function WithComment(p: Profile, comment: string): (r: Profile)
    ensures r.comments == p.comments + [comment]
    ensures r.(comments := p.comments) == p
  {
    p.(comments := p.comments + [comment])
  }

  /**
   * A comment added here survives the edit screen: when the profile's comments are clean,
   * joining them into the text area and reading the lines back gives them all, the new one last.
   */
  lemma AddedCommentSurvivesEditing(p: Profile, input: string, today: Date, lineSep: string)
    requires lineSep == "\n" || lineSep == "\r\n"
    requires forall i | 0 <= i < |p.comments| :: IsCleanComment(p.comments[i])
    requires Trim(input) != ""
    requires forall c | c in input :: IsLineBreak(c) ==> c == '\n'
    ensures var q := WithComment(p, StampedComment(Trim(input), today));
      CommentLines(Join(q.comments, lineSep)) == q.comments
  {
    var c := StampedComment(Trim(input), today);
    var cs := p.comments + [c];
    AddedCommentIsClean(input, today);
    assert forall i | 0 <= i < |cs| :: IsCleanComment(cs[i]) by {
      forall i | 0 <= i < |cs|
        ensures IsCleanComment(cs[i])
      {
        if i < |p.comments| {
          assert cs[i] == p.comments[i];
        }
      }
    }
    CommentLinesOfJoin(cs, lineSep);
  }

  datatype CommentOutcome = CommentRequired | CommentAdded(comment: string) | CommentNotSaved

  class CommentsScreen {
    /** The profile shown; `null` until `setProfile`. */
    var currentProfile: Option<Profile>
    /** The items of the comment list. */
    var comments: seq<string>
    /** The text typed into the comment area. */
    var commentInput: string
    var returnFilters: SearchFilters
    var successMessageOnReturn: Option<string>

    /** The list shows the current profile's comments. */
    ghost predicate Valid()
      reads this`currentProfile, this`comments
    {
      currentProfile.Some? ==> comments == currentProfile.value.comments
    }

    constructor()
      ensures Valid()
      ensures currentProfile == None && comments == [] && commentInput == ""
      ensures returnFilters == NoFilters && successMessageOnReturn == None
    {
      currentProfile := None;
      comments := [];
      commentInput := "";
      returnFilters := NoFilters;
      successMessageOnReturn := None;
    }

    /** `setProfile`: shows the profile's comments and clears the input. */
    method SetProfile(profile: Profile)
      modifies this`currentProfile, this`comments, this`commentInput
      ensures Valid()
      ensures currentProfile == Some(profile) && comments == profile.comments && commentInput == ""
    {
      currentProfile := Some(profile);
      comments := profile.comments;
      commentInput := "";
    }

    /** `setReturnState` */
    method SetReturnState(name: Option<string>, status: Option<string>, language: Option<string>,
                          database: Option<string>, role: Option<string>)
      modifies this`returnFilters
      ensures returnFilters == ReturnFilters(name, status, language, database, role)
    {
      returnFilters := ReturnFilters(name, status, language, database, role);
    }

    method TypeComment(text: string)
      modifies this`commentInput
      ensures commentInput == text
    {
      commentInput := text;
    }

    /**
     * `onAddComment`: an input that is blank once trimmed is refused; otherwise the sanitized
     * text, stamped with `today`, is appended to the profile, and only when `updateProfile`
     * reports success does the screen show the new profile and clear the input. Only a
     * non-blank input reads `currentProfile`, which `setProfile` must have set by then.
     */
    method OnAddComment(today: Date, update: UpdateResult) returns (outcome: CommentOutcome)
      requires Valid() && (currentProfile.Some? || AddedComment(commentInput, today).None?)
      modifies this`currentProfile, this`comments, this`commentInput, this`successMessageOnReturn
      ensures Valid()
      ensures var added := AddedComment(old(commentInput), today);
        && (outcome == CommentRequired <==> added.None?)
        && (outcome.CommentAdded? <==> added.Some? && update == Updated)
        && (outcome.CommentAdded? ==> outcome.comment == added.value)
      ensures outcome.CommentAdded? ==>
        currentProfile == Some(WithComment(old(currentProfile).value, outcome.comment))
        && commentInput == ""
        && successMessageOnReturn == Some("Added comment for " + currentProfile.value.fullName + ".")
      ensures !outcome.CommentAdded? ==> unchanged(this)
    {
      var added := AddedComment(commentInput, today);
      if added.None? {
        return CommentRequired;
      }
      var stamped := added.value;
      var updatedProfile := WithComment(currentProfile.value, stamped);
      if update != Updated {
        return CommentNotSaved;
      }
      currentProfile := Some(updatedProfile);
      comments := updatedProfile.comments;
      commentInput := "";
      successMessageOnReturn := Some("Added comment for " + updatedProfile.fullName + ".");
      outcome := CommentAdded(stamped);
    }
  }
}
