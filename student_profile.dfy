/**
 * The student profile record (`StudentProfile`) and its display helpers.
 *
 * A profile is a value: the constructor's `List.copyOf` calls make the three lists
 * independent of the caller's, which a Dafny sequence is by construction.
 * `List.copyOf` also rejects `null` elements, so the lists hold strings only.
 */
module StudentProfiles {
  import opened Wrappers
  import opened Seqs
  import opened JavaStrings

  datatype Profile = Profile(
    fullName: string,
    academicStatus: Option<string>,
    employed: bool,
    jobDetails: Option<string>,
    programmingLanguages: seq<string>,
    databases: seq<string>,
    preferredRole: Option<string>,
    comments: seq<string>,
    whitelist: bool,
    blacklist: bool)

  /** `StudentProfile::getFullName`, the sort key of every profile list. */
  function FullNameOf(p: Profile): string {
    p.fullName
  }

  /** `getJobDetailsDisplay`: the details when they say something, else `""` for an employed student and `"N/A"` otherwise. */
  function JobDetailsDisplay(p: Profile): (r: string)
    ensures p.jobDetails.Some? && !IsBlank(p.jobDetails.value) ==> r == p.jobDetails.value
    ensures r == "" <==> p.employed && (p.jobDetails.None? || IsBlank(p.jobDetails.value))
    ensures r != "" && r != "N/A" ==> p.jobDetails == Some(r)
    ensures !p.employed && (p.jobDetails.None? || IsBlank(p.jobDetails.value)) ==> r == "N/A"
  {
    if p.jobDetails.Some? && !IsBlank(p.jobDetails.value) then p.jobDetails.value
    else if p.employed then ""
    else "N/A"
  }

  /** `getJobStatusLabel` */
  function JobStatusLabel(p: Profile): (r: string)
    ensures r == "Employed" <==> p.employed
    ensures r == "Employed" || r == "Not Employed"
  {
    if p.employed then "Employed" else "Not Employed"
  }

  /** `getWhitelistLabel` */
  function WhitelistLabel(p: Profile): (r: string)
    ensures r == "Yes" <==> p.whitelist
    ensures r == "Yes" || r == "No"
  {
    if p.whitelist then "Yes" else "No"
  }

  /** `getBlacklistLabel` */
  function BlacklistLabel(p: Profile): (r: string)
    ensures r == "Yes" <==> p.blacklist
    ensures r == "Yes" || r == "No"
  {
    if p.blacklist then "Yes" else "No"
  }

  /** `formatLanguages`: the languages in their stored order, joined by `", "`. */
  function FormatLanguages(p: Profile): (r: string)
    ensures p.programmingLanguages == [] ==> r == ""
    ensures |p.programmingLanguages| == 1 ==> r == p.programmingLanguages[0]
  {
    Join(p.programmingLanguages, ", ")
  }

  /** `formatDatabases` */
  function FormatDatabases(p: Profile): (r: string)
    ensures p.databases == [] ==> r == ""
    ensures |p.databases| == 1 ==> r == p.databases[0]
  {
    Join(p.databases, ", ")
  }

  /** The languages shown read back in order: each one more is one more `", "` and the name. */
  lemma FormatLanguagesAppend(p: Profile, language: string)
    requires p.programmingLanguages != []
    ensures FormatLanguages(p.(programmingLanguages := p.programmingLanguages + [language]))
         == FormatLanguages(p) + ", " + language
  {
    JoinAppend(p.programmingLanguages, language, ", ");
  }

  /** The databases shown read back in order: each one more is one more `", "` and the name. */
  lemma FormatDatabasesAppend(p: Profile, database: string)
    requires p.databases != []
    ensures FormatDatabases(p.(databases := p.databases + [database])) == FormatDatabases(p) + ", " + database
  {
    JoinAppend(p.databases, database, ", ");
  }

  /** `c.indexOf(" - ")`, searching from index `k` one character at a time. */
  function DashFrom(c: string, k: nat): (r: int)
    requires k <= |c|
    ensures r == -1 || (k <= r && r + 3 <= |c|)
    decreases |c| - k
  {
    if k + 3 > |c| then -1
    else if c[k] == ' ' && c[k + 1] == '-' && c[k + 2] == ' ' then k
    else DashFrom(c, k + 1)
  }

  /** The character-by-character search is `indexOf` of the three-character separator. */
  lemma {:induction false} DashFromIsIndexFrom(c: string, k: nat)
    requires k <= |c|
    ensures DashFrom(c, k) == IndexFrom(c, " - ", k)
    decreases |c| - k
  {
    if k + 3 <= |c| {
      assert OccursAt(c, " - ", k) <==> c[k] == ' ' && c[k + 1] == '-' && c[k + 2] == ' ' by {
        assert |" - "| == 3;
        if c[k] == ' ' && c[k + 1] == '-' && c[k + 2] == ' ' {
          assert c[k..k + 3] == " - ";
        }
      }
      if k + 3 < |c| {
        DashFromIsIndexFrom(c, k + 1);
      }
    }
  }

  /** The date prefix of a comment: the text before its first `" - "`, when that starts at index 8 or later. */
  function DatePrefix(c: string): Option<string> {
    var dash := DashFrom(c, 0);
    if dash > 0 && dash >= 8 then Some(c[..dash]) else None
  }

  /** `String.format("%s - %s", date, text)`: how a comment is stamped when it is added. */
  function Stamped(date: string, text: string): string {
    date + " - " + text
  }

  lemma {:induction false} DashFromStamped(date: string, text: string, k: nat)
    requires k <= |date| && forall i | 0 <= i < |date| :: date[i] != ' '
    ensures DashFrom(Stamped(date, text), k) == |date|
    decreases |date| - k
  {
    var c := Stamped(date, text);
    if k < |date| {
      assert c[k] == date[k];
      DashFromStamped(date, text, k + 1);
    } else {
      assert c[k] == ' ' && c[k + 1] == '-' && c[k + 2] == ' ';
    }
  }

  /** A comment stamped with a date of at least eight characters and no space is grouped under exactly that date. */
  lemma StampedDatePrefix(date: string, text: string)
    requires |date| >= 8 && forall i | 0 <= i < |date| :: date[i] != ' '
    ensures DatePrefix(Stamped(date, text)) == Some(date)
  {
    DashFromStamped(date, text, 0);
    assert Stamped(date, text)[..|date|] == date;
  }

  /**
   * A calendar date, as `LocalDate` holds it, for years 1 to 9999: outside them
   * `DateTimeFormatter` prints a sign or the year of era, which `IsoDate` does not.
   */
  datatype Date = Date(year: nat, month: nat, day: nat)

  predicate IsDigit(c: char) {
    '0' <= c <= '9'
  }

  /** The decimal digits of `n`, left-padded with zeros to at least `width` characters. */
  function Digits(n: nat, width: nat): (r: string)
    ensures |r| >= width
    ensures forall i | 0 <= i < |r| :: IsDigit(r[i])
    decreases n + width
  {
    if n == 0 && width == 0 then ""
    else Digits(n / 10, if width == 0 then 0 else width - 1) + [('0' as int + n % 10) as char]
  }

  /** `DateTimeFormatter.ofPattern("yyyy-MM-dd")` applied to a date. */
  function IsoDate(d: Date): string {
    Digits(d.year, 4) + "-" + Digits(d.month, 2) + "-" + Digits(d.day, 2)
  }

  /** A formatted date is at least ten characters long and holds no space. */
  lemma IsoDateShape(d: Date)
    ensures |IsoDate(d)| >= 10
    ensures forall i | 0 <= i < |IsoDate(d)| :: IsDigit(IsoDate(d)[i]) || IsoDate(d)[i] == '-'
    ensures forall i | 0 <= i < |IsoDate(d)| :: IsoDate(d)[i] != ' '
  {
    var y, m, dd := Digits(d.year, 4), Digits(d.month, 2), Digits(d.day, 2);
    var s := IsoDate(d);
    forall i | 0 <= i < |s|
      ensures IsDigit(s[i]) || s[i] == '-'
    {
      if i < |y| {
        assert s[i] == y[i];
      } else if i == |y| || i == |y| + 1 + |m| {
        assert s[i] == '-';
      } else if i < |y| + 1 + |m| {
        assert s[i] == m[i - |y| - 1];
      } else {
        assert s[i] == dd[i - |y| - 2 - |m|];
      }
    }
  }

  /** A comment stamped on a date is grouped under that date when the comments are shown. */
  lemma StampedOnDate(d: Date, text: string)
    ensures DatePrefix(Stamped(IsoDate(d), text)) == Some(IsoDate(d))
  {
    IsoDateShape(d);
    StampedDatePrefix(IsoDate(d), text);
  }

  /** A comment has a date prefix exactly when its first `" - "` starts at index 8 or later; the prefix is what precedes it. */
  lemma DatePrefixIsBeforeFirstDash(c: string)
    ensures DatePrefix(c).Some? <==> exists k | 8 <= k :: OccursAt(c, " - ", k) && forall j | 0 <= j < k :: !OccursAt(c, " - ", j)
    ensures DatePrefix(c).Some? ==> var d := DatePrefix(c).value;
      |d| >= 8 && OccursAt(c, " - ", |d|) && d == c[..|d|] && forall j | 0 <= j < |d| :: !OccursAt(c, " - ", j)
  {
    DashFromIsIndexFrom(c, 0);
    IndexOfIsFirst(c, " - ");
  }

  /** The date of the last dated comment in `cs`, if any. */
  function LastDate(cs: seq<string>): Option<string> {
    if cs == [] then None
    else
      var d := DatePrefix(cs[|cs| - 1]);
      if d.Some? then d else LastDate(cs[..|cs| - 1])
  }

  /** `LastDate` is the date of the last comment that has one, and `None` when none has. */
  lemma {:induction false} LastDateIsLast(cs: seq<string>)
    ensures LastDate(cs).None? <==> forall i | 0 <= i < |cs| :: DatePrefix(cs[i]).None?
    ensures LastDate(cs).Some? ==> exists i | 0 <= i < |cs| ::
      DatePrefix(cs[i]) == LastDate(cs) && forall j | i < j < |cs| :: DatePrefix(cs[j]).None?
  {
    if cs != [] {
      var init := cs[..|cs| - 1];
      LastDateIsLast(init);
      assert forall i | 0 <= i < |init| :: init[i] == cs[i];
      if DatePrefix(cs[|cs| - 1]).None? && LastDate(init).Some? {
        var i :| 0 <= i < |init| && DatePrefix(init[i]) == LastDate(init)
          && forall j | i < j < |init| :: DatePrefix(init[j]).None?;
        assert DatePrefix(cs[i]) == LastDate(cs);
      }
    }
  }

  /** A comment dated differently from the most recent dated comment before it. */
  predicate StartsNewDay(done: seq<string>, c: string) {
    var d, previous := DatePrefix(c), LastDate(done);
    d.Some? && previous.Some? && d.value != previous.value
  }

  /** What goes before comment `c`: nothing before the first, a blank line before a new day, else a line break. */
  function Separator(done: seq<string>, c: string, lineSep: string): string {
    if done == [] then "" else if StartsNewDay(done, c) then lineSep + lineSep else lineSep
  }

  /** The non-blank comments `cs`, each preceded by its separator. */
  function Rendered(cs: seq<string>, lineSep: string): string {
    if cs == [] then ""
    else
      var done := cs[..|cs| - 1];
      Rendered(done, lineSep) + Separator(done, cs[|cs| - 1], lineSep) + cs[|cs| - 1]
  }

  /** The text `formatComments` produces: the non-blank comments in order, grouped by day. */
  function CommentsText(comments: seq<string>, lineSep: string): string {
    Rendered(Filter(comments, IsNonBlank), lineSep)
  }

  lemma FilterSnoc(s: seq<string>, c: string)
    ensures Filter(s + [c], IsNonBlank) == Filter(s, IsNonBlank) + (if IsNonBlank(c) then [c] else [])
  {
    assert (s + [c])[..|s|] == s;
  }

  /** One more comment adds its separator and itself, and moves the last date on when it is dated. */
  lemma RenderedSnoc(done: seq<string>, c: string, lineSep: string)
    ensures Rendered(done + [c], lineSep) == Rendered(done, lineSep) + Separator(done, c, lineSep) + c
    ensures LastDate(done + [c]) == if DatePrefix(c).Some? then DatePrefix(c) else LastDate(done)
  {
    var cs := done + [c];
    assert cs[..|cs| - 1] == done;
  }

  lemma NonBlankNonEmpty(c: string)
    requires IsNonBlank(c)
    ensures c != ""
  {
  }

  /** Rendering a list of non-empty comments is empty only for the empty list. */
  lemma RenderedEmpty(cs: seq<string>, lineSep: string)
    requires forall i | 0 <= i < |cs| :: cs[i] != ""
    ensures Rendered(cs, lineSep) == "" <==> cs == []
  {
    if cs != [] {
      assert cs[|cs| - 1] != "";
    }
  }

  /**
   * `formatComments`: walks the comments once, remembering the most recent date prefix,
   * and puts a blank line before each comment whose date differs from it.
   */
  method FormatComments(comments: seq<string>, lineSep: string) returns (out: string)
    ensures out == CommentsText(comments, lineSep)
    ensures out == "" <==> forall i | 0 <= i < |comments| :: IsBlank(comments[i])
  {
    if |comments| == 0 {
      return "";
    }
    out := "";
    var previousDate: Option<string> := None;
    ghost var kept: seq<string> := [];
    var i := 0;
    while i < |comments|
      invariant 0 <= i <= |comments|
      invariant kept == Filter(comments[..i], IsNonBlank)
      invariant out == Rendered(kept, lineSep)
      invariant previousDate == LastDate(kept)
      invariant out == "" <==> kept == []
    {
      out, previousDate, kept := FormatNext(comments, i, lineSep, out, previousDate, kept);
      i := i + 1;
    }
    assert comments[..i] == comments;
    assert kept == [] <==> forall i | 0 <= i < |comments| :: IsBlank(comments[i]) by {
      FilterEmpty(comments, IsNonBlank);
    }
  }

  /** One turn of the `formatComments` loop: comment `i` is skipped when blank and appended otherwise. */
  method FormatNext(comments: seq<string>, i: nat, lineSep: string, out: string, previousDate: Option<string>,
                    ghost kept: seq<string>)
    returns (out': string, previousDate': Option<string>, ghost kept': seq<string>)
    requires i < |comments| && kept == Filter(comments[..i], IsNonBlank)
    requires out == Rendered(kept, lineSep) && previousDate == LastDate(kept)
    requires out == "" <==> kept == []
    ensures kept' == Filter(comments[..i + 1], IsNonBlank)
    ensures out' == Rendered(kept', lineSep) && previousDate' == LastDate(kept')
    ensures out' == "" <==> kept' == []
  {
    var c := comments[i];
    FilterPrefixStep(comments, i);
    if IsBlank(c) {
      return out, previousDate, kept;
    }
    out', previousDate' := AppendComment(out, previousDate, c, lineSep, kept);
    kept' := kept + [c];
  }

  /** The body of the `formatComments` loop for one non-blank comment `c`, after the comments `kept`. */
  method AppendComment(out: string, previousDate: Option<string>, c: string, lineSep: string, ghost kept: seq<string>)
    returns (out': string, previousDate': Option<string>)
    requires out == Rendered(kept, lineSep) && previousDate == LastDate(kept)
    requires out == "" <==> kept == []
    requires IsNonBlank(c)
    ensures out' == Rendered(kept + [c], lineSep) && previousDate' == LastDate(kept + [c])
    ensures out' != ""
  {
    var datePrefix := DatePrefix(c);
    FormatStep(kept, c, lineSep, out, previousDate.Some? && datePrefix.Some? && datePrefix.value != previousDate.value);
    LastDateSnoc(kept, c);
    out' := out;
    if previousDate.Some? && datePrefix.Some? && datePrefix.value != previousDate.value {
      out' := out' + lineSep;
    }
    if |out'| > 0 {
      out' := out' + lineSep;
    }
    out' := out' + c;
    previousDate' := if datePrefix.Some? then datePrefix else previousDate;
  }

  lemma FilterPrefixStep(comments: seq<string>, i: nat)
    requires i < |comments|
    ensures Filter(comments[..i + 1], IsNonBlank)
         == Filter(comments[..i], IsNonBlank) + (if IsNonBlank(comments[i]) then [comments[i]] else [])
  {
    assert comments[..i + 1] == comments[..i] + [comments[i]];
    FilterSnoc(comments[..i], comments[i]);
  }

  /** One step of `formatComments`: the separator it writes before a non-blank comment is the one `Rendered` puts there. */
  lemma FormatStep(kept: seq<string>, c: string, lineSep: string, out: string, newDay: bool)
    requires out == Rendered(kept, lineSep)
    requires out == "" <==> kept == []
    requires newDay == StartsNewDay(kept, c)
    requires IsNonBlank(c)
    ensures var first := if newDay then out + lineSep else out;
      var second := if |first| > 0 then first + lineSep else first;
      second + c == Rendered(kept + [c], lineSep) && second + c != ""
  {
    NonBlankNonEmpty(c);
    var sep := Separator(kept, c, lineSep);
    assert Rendered(kept + [c], lineSep) == out + sep + c by {
      RenderedSnoc(kept, c, lineSep);
    }
    assert sep == if out == "" then "" else if newDay then lineSep + lineSep else lineSep;
    SeparatorWritten(out, lineSep, c, newDay);
  }

  /** The two optional appends of the loop write the separator that `Separator` describes. */
  lemma SeparatorWritten(out: string, lineSep: string, c: string, newDay: bool)
    requires out == "" ==> !newDay
    ensures var first := if newDay then out + lineSep else out;
      var second := if |first| > 0 then first + lineSep else first;
      second + c == out + (if out == "" then "" else if newDay then lineSep + lineSep else lineSep) + c
  {
    if newDay {
      assert out + lineSep + lineSep + c == out + (lineSep + lineSep) + c;
    }
  }

  lemma LastDateSnoc(kept: seq<string>, c: string)
    ensures LastDate(kept + [c]) == if DatePrefix(c).Some? then DatePrefix(c) else LastDate(kept)
  {
    assert (kept + [c])[..|kept|] == kept;
  }

  /** The comment pipeline of the edit form: split at every `\R`, trim each line, drop the empty ones. */
  function CommentLines(text: string): seq<string> {
    Filter(Map(SplitLines(text), Trim), IsNonEmpty)
  }

  lemma EmptyLinesDropped(xs: seq<string>)
    requires forall i | 0 <= i < |xs| :: xs[i] == ""
    ensures Filter(Map(xs, Trim), IsNonEmpty) == []
  {
    var m := Map(xs, Trim);
    forall i | 0 <= i < |m| ensures !IsNonEmpty(m[i]) {
      assert m[i] == Trim(xs[i]);
    }
    FilterEmpty(m, IsNonEmpty);
  }

  /** Dropping the trailing empty pieces changes nothing once empty lines are filtered out. */
  lemma CommentLinesPieces(text: string)
    ensures CommentLines(text) == Filter(Map(LinePieces(text), Trim), IsNonEmpty)
  {
    if HasLineBreak(text) {
      var pieces := LinePieces(text);
      var kept := DropTrailingEmpty(pieces);
      var rest := pieces[|kept|..];
      assert pieces == kept + rest;
      MapConcat(kept, rest, Trim);
      FilterConcat(Map(kept, Trim), Map(rest, Trim), IsNonEmpty);
      EmptyLinesDropped(rest);
    } else {
      LinePiecesSingle(text);
    }
  }

  /** A comment that re-parses as itself: trimmed, non-empty and on one line. */
  predicate IsCleanComment(c: string) {
    c != "" && IsTrimmed(c) && !HasLineBreak(c)
  }

  /** A text without line breaks does not end in a lone carriage return. */
  lemma NoBreakEnd(a: string)
    requires !HasLineBreak(a)
    ensures a == [] || a[|a| - 1] != '\r'
  {
    if a != [] {
      assert !IsLineBreak(a[|a| - 1]);
    }
  }

  lemma {:induction false} LinePiecesOfJoin(xs: seq<string>, lineSep: string)
    requires lineSep == "\n" || lineSep == "\r\n"
    requires |xs| >= 1
    requires forall i | 0 <= i < |xs| :: !HasLineBreak(xs[i])
    ensures LinePieces(Join(xs, lineSep)) == xs
  {
    LinePiecesSingle(xs[0]);
    if |xs| > 1 {
      var rest := xs[1..];
      assert Join(xs, lineSep) == xs[0] + lineSep + Join(rest, lineSep);
      NoBreakEnd(xs[0]);
      LinePiecesJoin(xs[0], lineSep, Join(rest, lineSep));
      LinePiecesOfJoin(rest, lineSep);
      assert xs == [xs[0]] + rest;
    }
  }

  lemma CleanLinesKept(xs: seq<string>)
    requires forall i | 0 <= i < |xs| :: IsCleanComment(xs[i])
    ensures Filter(Map(xs, Trim), IsNonEmpty) == xs
  {
    forall i | 0 <= i < |xs| ensures Trim(xs[i]) == xs[i] {
      TrimOfTrimmed(xs[i]);
    }
    assert Map(xs, Trim) == xs;
    FilterKeepsAll(xs, IsNonEmpty);
  }

  lemma NoLinesInEmpty()
    ensures Filter(Map(LinePieces(""), Trim), IsNonEmpty) == []
  {
    LinePiecesSingle("");
    EmptyLinesDropped([""]);
  }

  /**
   * The edit form shows the comments joined by the line separator and parses them back
   * line by line: every clean comment list survives the trip.
   */
  lemma CommentLinesOfJoin(cs: seq<string>, lineSep: string)
    requires lineSep == "\n" || lineSep == "\r\n"
    requires forall i | 0 <= i < |cs| :: IsCleanComment(cs[i])
    ensures CommentLines(Join(cs, lineSep)) == cs
  {
    CommentLinesPieces(Join(cs, lineSep));
    if cs == [] {
      NoLinesInEmpty();
    } else {
      LinePiecesOfJoin(cs, lineSep);
      CleanLinesKept(cs);
    }
  }

  /** A line break before a one-line text splits off an empty line and that text. */
  lemma LinePiecesLeadingBreak(lineSep: string, c: string)
    requires lineSep == "\n" || lineSep == "\r\n"
    requires !HasLineBreak(c)
    ensures LinePieces(lineSep + c) == ["", c]
  {
    assert lineSep + c == "" + lineSep + c;
    LinePiecesJoin("", lineSep, c);
    LinePiecesSingle("");
    LinePiecesSingle(c);
  }

  /** Two line breaks before a one-line comment split off an empty line and then that comment. */
  lemma LinePiecesAfterBlankLine(r: string, lineSep: string, c: string)
    requires lineSep == "\n" || lineSep == "\r\n"
    requires r == [] || r[|r| - 1] != '\r'
    requires !HasLineBreak(c)
    ensures LinePieces(r + (lineSep + lineSep) + c) == LinePieces(r) + ["", c]
  {
    var t := lineSep + c;
    assert r + (lineSep + lineSep) + c == r + lineSep + t;
    LinePiecesJoin(r, lineSep, t);
    LinePiecesLeadingBreak(lineSep, c);
  }

  lemma RenderedEndsClean(cs: seq<string>, lineSep: string)
    requires cs != []
    requires forall i | 0 <= i < |cs| :: IsCleanComment(cs[i])
    ensures var r := Rendered(cs, lineSep); r != [] && r[|r| - 1] != '\r'
  {
    var c := cs[|cs| - 1];
    assert IsCleanComment(c);
    NoBreakEnd(c);
  }

  lemma {:induction false} RenderedLines(cs: seq<string>, lineSep: string)
    requires lineSep == "\n" || lineSep == "\r\n"
    requires forall i | 0 <= i < |cs| :: IsCleanComment(cs[i])
    ensures Filter(Map(LinePieces(Rendered(cs, lineSep)), Trim), IsNonEmpty) == cs
  {
    if cs == [] {
      NoLinesInEmpty();
    } else {
      var done, c := cs[..|cs| - 1], cs[|cs| - 1];
      assert cs == done + [c];
      RenderedLines(done, lineSep);
      RenderedLinesSnoc(done, c, lineSep);
    }
  }

  lemma RenderedLinesSnoc(done: seq<string>, c: string, lineSep: string)
    requires lineSep == "\n" || lineSep == "\r\n"
    requires forall i | 0 <= i < |done| :: IsCleanComment(done[i])
    requires IsCleanComment(c)
    requires Filter(Map(LinePieces(Rendered(done, lineSep)), Trim), IsNonEmpty) == done
    ensures Filter(Map(LinePieces(Rendered(done + [c], lineSep)), Trim), IsNonEmpty) == done + [c]
  {
    RenderedSnoc(done, c, lineSep);
    if done == [] {
      assert Rendered(done + [c], lineSep) == c;
      assert done + [c] == [c];
      LinePiecesSingle(c);
      CleanLinesKept([c]);
    } else {
      var gap := StartsNewDay(done, c);
      RenderedEndsClean(done, lineSep);
      assert Separator(done, c, lineSep) == if gap then lineSep + lineSep else lineSep;
      ReadBackStep(Rendered(done, lineSep), lineSep, c, gap, done);
    }
  }

  /** Reading back one more comment after its separator yields the lines read so far and that comment. */
  lemma ReadBackStep(r: string, lineSep: string, c: string, gap: bool, done: seq<string>)
    requires lineSep == "\n" || lineSep == "\r\n"
    requires r == [] || r[|r| - 1] != '\r'
    requires IsCleanComment(c)
    requires Filter(Map(LinePieces(r), Trim), IsNonEmpty) == done
    ensures Filter(Map(LinePieces(r + (if gap then lineSep + lineSep else lineSep) + c), Trim), IsNonEmpty) == done + [c]
  {
    var tail: seq<string> := if gap then ["", c] else [c];
    if gap {
      LinePiecesAfterBlankLine(r, lineSep, c);
    } else {
      LinePiecesJoin(r, lineSep, c);
      LinePiecesSingle(c);
    }
    MapConcat(LinePieces(r), tail, Trim);
    FilterConcat(Map(LinePieces(r), Trim), Map(tail, Trim), IsNonEmpty);
    TailLines(c, gap);
  }

  lemma TailLines(c: string, gap: bool)
    requires IsCleanComment(c)
    ensures Filter(Map(if gap then ["", c] else [c], Trim), IsNonEmpty) == [c]
  {
    TrimOfTrimmed(c);
    var tail: seq<string> := if gap then ["", c] else [c];
    var m := Map(tail, Trim);
    if gap {
      assert m == [""] + [c];
      FilterConcat([""], [c], IsNonEmpty);
      EmptyLinesDropped([""]);
      assert Map([""], Trim) == [""];
    } else {
      assert m == [c];
    }
  }

  /**
   * `formatComments` loses nothing: reading its output back line by line, trimmed and
   * without the blank lines, gives the non-blank comments in their order.
   */
  lemma FormatCommentsReadBack(comments: seq<string>, lineSep: string)
    requires lineSep == "\n" || lineSep == "\r\n"
    requires forall i | 0 <= i < |comments| :: IsTrimmed(comments[i]) && !HasLineBreak(comments[i])
    ensures CommentLines(CommentsText(comments, lineSep)) == Filter(comments, IsNonBlank)
  {
    var cs := Filter(comments, IsNonBlank);
    FilterMembers(comments, IsNonBlank);
    forall i | 0 <= i < |cs| ensures IsCleanComment(cs[i]) {
      assert cs[i] in comments;
      NonBlankNonEmpty(cs[i]);
    }
    CommentLinesPieces(CommentsText(comments, lineSep));
    RenderedLines(cs, lineSep);
  }
}
