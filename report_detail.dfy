/**
 * `ReportStudentDetailController`: the detail page of one profile. Each stored comment
 * becomes a `CommentEntry` whose date is the text before the first line break (when
 * that break is not the first character), and whose preview is cut to 90 characters.
 */
module ReportStudentDetailController {
  import opened Wrappers
  import opened Seqs
  import opened JavaStrings
  import opened StudentProfiles

  const PreviewLimit: nat := 90
  const PreviewCut: nat := 87
  const Ellipsis: string := "..."

  /** The date, preview and full text of one comment row. */
  datatype CommentEntry = CommentEntry(date: string, preview: string, fullText: string)

  /** `text.length() > 90 ? text.substring(0, 87) + "..." : text` */
  function Preview(text: string): (r: string)
    ensures |r| <= PreviewLimit
    ensures |text| <= PreviewLimit ==> r == text
    ensures |text| > PreviewLimit ==> |r| == PreviewLimit && r[..PreviewCut] == text[..PreviewCut] && r[PreviewCut..] == Ellipsis
  {
    if |text| > PreviewLimit then text[..PreviewCut] + Ellipsis else text
  }

  /** `CommentEntry.from` */
  function From(storedValue: Option<string>): (r: CommentEntry)
    ensures r.fullText == storedValue.GetOr("")
    ensures |r.preview| <= PreviewLimit
  {
    var stored := storedValue.GetOr("");
    var newlineIndex := if storedValue.Some? then IndexOf(stored, "\n") else -1;
    if newlineIndex > 0 then
      CommentEntry(Trim(stored[..newlineIndex]), Preview(Trim(stored[newlineIndex + 1..])), stored)
    else
      CommentEntry("", Preview(stored), stored)
  }

  /** A one-character pattern occurs exactly where that character is. */
  lemma OccursAtChar(s: string, c: char, k: int)
    ensures OccursAt(s, [c], k) <==> 0 <= k < |s| && s[k] == c
  {
    if 0 <= k < |s| {
      assert s[k..k + 1] == [s[k]];
    }
  }

  /** With a first line break after at least one character, the date is the trimmed first line and the text the trimmed rest. */
  lemma FromDated(s: string, k: nat)
    requires 0 < k < |s| && s[k] == '\n'
    requires forall j | 0 <= j < k :: s[j] != '\n'
    ensures From(Some(s)) == CommentEntry(Trim(s[..k]), Preview(Trim(s[k + 1..])), s)
  {
    FirstNewlineIndex(s, k);
    FromAtNewline(s, k);
  }

  /** The entry of a value whose first line feed `indexOf` finds at `k > 0`. */
  lemma FromAtNewline(s: string, k: nat)
    requires 0 < k < |s| && IndexOf(s, "\n") == k
    ensures From(Some(s)) == CommentEntry(Trim(s[..k]), Preview(Trim(s[k + 1..])), s)
  {
  }

  /** `indexOf("\n")` finds the first line feed. */
  lemma FirstNewlineIndex(s: string, k: nat)
    requires k < |s| && s[k] == '\n'
    requires forall j | 0 <= j < k :: s[j] != '\n'
    ensures IndexOf(s, "\n") == k
  {
    var i := IndexOf(s, "\n");
    IndexOfIsFirst(s, "\n");
    OccursAtChar(s, '\n', k);
    assert i != -1;
    OccursAtChar(s, '\n', i);
  }

  /** Without a line break, or with one as the very first character, there is no date and the text is everything. */
  lemma FromUndated(s: string)
    requires (forall j | 0 <= j < |s| :: s[j] != '\n') || (s != [] && s[0] == '\n')
    ensures From(Some(s)) == CommentEntry("", Preview(s), s)
  {
    IndexOfIsFirst(s, "\n");
    var i := IndexOf(s, "\n");
    if i != -1 {
      OccursAtChar(s, '\n', i);
      OccursAtChar(s, '\n', 0);
    }
  }

  /** A `null` value is an empty, undated entry. */
  lemma FromNull()
    ensures From(None) == CommentEntry("", "", "")
  {
  }

  /** The entry of a comment that `toCommentEntries` keeps. */
  function EntryOf(comment: string): CommentEntry {
    From(Some(comment))
  }

  /** `toCommentEntries`: one entry per non-blank comment, in order; a `null` list gives none. */
  method ToCommentEntries(storedComments: Option<seq<string>>) returns (entries: seq<CommentEntry>)
    ensures storedComments.None? ==> entries == []
    ensures storedComments.Some? ==> entries == Map(Filter(storedComments.value, IsNonBlank), EntryOf)
  {
    entries := [];
    if storedComments.None? {
      return;
    }
    var comments := storedComments.value;
    for i := 0 to |comments|
      invariant entries == Map(Filter(comments[..i], IsNonBlank), EntryOf)
    {
      var comment := comments[i];
      FilterSnoc(comments[..i], comment);
      assert comments[..i + 1] == comments[..i] + [comment];
      MapConcat(Filter(comments[..i], IsNonBlank), if IsNonBlank(comment) then [comment] else [], EntryOf);
      if IsBlank(comment) {
        continue;
      }
      assert Map([comment], EntryOf) == [EntryOf(comment)];
      entries := entries + [EntryOf(comment)];
    }
    assert comments[..|comments|] == comments;
  }

  /** The entries are the non-blank comments, in order, each shown in full. */
  lemma EntriesShowComments(comments: seq<string>)
    ensures |Map(Filter(comments, IsNonBlank), EntryOf)| == |Filter(comments, IsNonBlank)|
    ensures forall i | 0 <= i < |Filter(comments, IsNonBlank)| ::
      Map(Filter(comments, IsNonBlank), EntryOf)[i].fullText == Filter(comments, IsNonBlank)[i]
      && !IsBlank(Map(Filter(comments, IsNonBlank), EntryOf)[i].fullText)
  {
    var kept := Filter(comments, IsNonBlank);
    FilterMembers(comments, IsNonBlank);
    var entries := Map(kept, EntryOf);
    forall i | 0 <= i < |kept| ensures entries[i].fullText == kept[i] && !IsBlank(kept[i]) {
      assert entries[i] == EntryOf(kept[i]);
      assert kept[i] in kept;
    }
  }

  /** `buildFlagLabel`: whitelist wins over blacklist, and neither flag gives `""`. */
  function FlagLabel(p: Profile): (r: string)
    ensures r == "Whitelist" <==> p.whitelist
    ensures r == "Blacklist" <==> !p.whitelist && p.blacklist
    ensures r == "" <==> !p.whitelist && !p.blacklist
  {
    if p.whitelist then "Whitelist"
    else if p.blacklist then "Blacklist"
    else ""
  }
}
