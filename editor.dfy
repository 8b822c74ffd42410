/**
 * The chaptered document editor (`AdvancedEditor`): document title, ordered
 * chapters, the active chapter, the shared editing surface and the flags its
 * handlers update. Each handler is one atomic transition; where the handler
 * changes the active chapter or the number of chapters, the activation effect
 * that reloads the surface is part of the same transition.
 */
module AdvancedEditor {
  import opened Wrappers
  import opened JsString
  import opened Markup
  import opened ChapterIds
  import opened SplitEngine
  import opened ChapterStore

  /** Document title used when the caller passes none. */
  const DefaultDocumentTitle: string := "새로운 자료"
  /** What the surface shows for a chapter without content, and for the seeded chapter without extracted text. */
  const EmptyPlaceholder: Markup := [Html("<p>내용을 입력하세요...</p>")]
  /** The label ids the label picker offers. */
  const LabelIds: set<string> := {"red", "orange", "yellow", "green", "blue", "purple", "gray"}

  datatype Refusal = LastChapter | BlankChapterTitle | NothingToSplit | BlankDocumentTitle
  datatype Outcome = Applied | Cancelled | Refused(why: Refusal)

  /** What `onPublish` receives. */
  datatype Publication = Publication(title: string, chapters: seq<Chapter>, labelId: Option<string>)

  /** `content || placeholder`: what the surface displays for a stored content. */
  function Shown(content: Markup): (m: Markup)
    ensures |Render(m)| > 0
    ensures |Render(content)| > 0 ==> m == content
  {
    if Render(content) == [] then EmptyPlaceholder else content
  }

  /**
   * The activation effect: when the active id is non-empty and names a chapter,
   * the first such chapter's content (or the placeholder) replaces the surface.
   */
  function Loaded(chs: seq<Chapter>, activeId: string, surface: Markup): (m: Markup)
    ensures activeId == "" || IndexOf(chs, activeId) == |chs| ==> m == surface
    ensures activeId != "" && IndexOf(chs, activeId) < |chs| ==>
              |Render(m)| > 0 && Displays(m, chs[IndexOf(chs, activeId)].content)
  {
    var k := IndexOf(chs, activeId);
    if activeId != "" && k < |chs| then Shown(chs[k].content) else surface
  }

  /** The surface holds a chapter's content, or the placeholder standing for empty content. */
  predicate Displays(surface: Markup, content: Markup) {
    surface == content || surface == Shown(content)
  }

  /** A chapter added by "add chapter" is displayed as it is stored. */
  lemma {:induction false} NewChapterShown()
    ensures Shown(NewChapterContent) == NewChapterContent
  {
    assert Render(NewChapterContent) == "<p>새 챕터의 내용을 입력하세요...</p>" + Render([]);
  }

  predicate NonEmptyIds(chs: seq<Chapter>) {
    forall i :: 0 <= i < |chs| ==> chs[i].id != ""
  }

  /**
   * At least one chapter, unique non-empty ids, the active id names a chapter,
   * and the surface displays the active chapter's content.
   */
  ghost predicate Consistent(chs: seq<Chapter>, activeId: string, surface: Markup)
    ensures Consistent(chs, activeId, surface) ==> activeId != "" && HasId(chs, activeId)
  {
    && |chs| >= 1
    && UniqueIds(chs)
    && NonEmptyIds(chs)
    && IndexOf(chs, activeId) < |chs|
    && Displays(surface, chs[IndexOf(chs, activeId)].content)
  }

  class Editor {
    const initialTitle: string
    var title: string               // materialTitle
    var labelId: Option<string>     // selectedLabel
    var splitMode: bool             // isSplitMode
    var unsaved: bool               // hasUnsavedChanges
    var chapters: seq<Chapter>
    var activeId: string            // activeChapterId
    var editingId: Option<string>   // editingChapterId
    var editingTitle: string
    var surface: Markup             // the editing surface's buffer

    /** The editor's invariant: its state is `Consistent`. */
    ghost predicate Valid()
      reads this
      ensures Valid() ==> |chapters| >= 1 && HasId(chapters, activeId)
    {
      Consistent(chapters, activeId, surface)
    }

    /**
     * Mount and the initial-data effect: the supplied chapters with the first one
     * active, or else one chapter "1" holding the extracted text or the placeholder;
     * the surface then loads the active chapter.
     */
    constructor (initialTitle: Option<string>, initialChapters: seq<Chapter>, extractedText: Markup)
      ensures this.initialTitle == initialTitle.GetOr(DefaultDocumentTitle) && title == this.initialTitle
      ensures |initialChapters| > 0 ==> chapters == initialChapters && activeId == initialChapters[0].id
      ensures |initialChapters| == 0 ==> chapters == [Chapter("1", "챕터 1", Shown(extractedText))] && activeId == "1"
      ensures surface == Loaded(chapters, activeId, EmptyPlaceholder)
      ensures !unsaved && splitMode && labelId == None && editingId == None && editingTitle == ""
      ensures UniqueIds(initialChapters) && NonEmptyIds(initialChapters) ==> Valid()
    {
      this.initialTitle := initialTitle.GetOr(DefaultDocumentTitle);
      title := initialTitle.GetOr(DefaultDocumentTitle);
      labelId := None;
      splitMode := true;
      unsaved := false;
      editingId := None;
      editingTitle := "";
      var seeded := if |initialChapters| > 0 then initialChapters
                    else [Chapter("1", "챕터 1", Shown(extractedText))];
      chapters := seeded;
      activeId := seeded[0].id;
      surface := Loaded(seeded, seeded[0].id, EmptyPlaceholder);
    }

    /** Clicking a chapter tab makes it active; a change of active chapter reloads the surface. */
    method Activate(id: string)
      modifies this`activeId, this`surface
      ensures activeId == id
      ensures surface == if id != old(activeId) then Loaded(chapters, id, old(surface)) else old(surface)
      ensures old(Valid()) && IndexOf(chapters, id) < |chapters| ==> Valid()
    {
      if id != activeId {
        activeId := id;
        surface := Loaded(chapters, activeId, surface);
      }
    }

    /**
     * `handleUpdate`: the surface now holds `buffer`; it is written into every chapter
     * with the active id, and the document is marked as having unsaved changes.
     */
    method Edit(buffer: Markup)
      modifies this`surface, this`chapters, this`unsaved
      ensures surface == buffer && unsaved
      ensures chapters == Rewritten(old(chapters), activeId, buffer)
      ensures old(Valid()) ==> Valid()
    {
      ghost var before := chapters;
      surface := buffer;
      chapters := Rewritten(chapters, activeId, buffer);
      unsaved := true;
      SameIdsAgree(before, chapters, activeId);
    }

    /** `insertChapterBreak`: a marker goes in at the cursor, the edit is synced, split mode is on. */
    method InsertChapterBreak(at: nat)
      requires at <= |surface|
      modifies this`surface, this`chapters, this`unsaved, this`splitMode
      ensures surface == old(surface)[..at] + [Break] + old(surface)[at..]
      ensures chapters == Rewritten(old(chapters), activeId, surface)
      ensures unsaved && splitMode
      ensures old(Valid()) ==> Valid()
    {
      Edit(surface[..at] + [Break] + surface[at..]);
      splitMode := true;
    }

    /** `handleAddChapter`: a fresh chapter is appended and becomes active. */
    method AddChapter()
      modifies this`chapters, this`activeId, this`surface
      ensures chapters == WithNewChapter(old(chapters))
      ensures activeId == AllocatedId(old(chapters), 0)
      ensures surface == NewChapterContent
      ensures old(Valid()) ==> Valid()
    {
      var id := AllocatedId(chapters, 0);
      AddKeepsValid(chapters, activeId, surface);
      chapters := WithNewChapter(chapters);
      activeId := id;
      surface := Loaded(chapters, activeId, surface);
    }

    /** The facts behind `AddChapter`: the new chapter is found at the end and its content is loaded. */
    static lemma {:induction false} AddKeepsValid(before: seq<Chapter>, active: string, surface: Markup)
      ensures Loaded(WithNewChapter(before), AllocatedId(before, 0), surface) == NewChapterContent
      ensures Consistent(before, active, surface) ==>
                Consistent(WithNewChapter(before), AllocatedId(before, 0), NewChapterContent)
    {
      NewChapterFoundLast(before);
      NewChapterShown();
      if Consistent(before, active, surface) {
        WithNewChapterUnique(before);
        NewChapterNonEmptyIds(before);
      }
    }

    static lemma {:induction false} NewChapterFoundLast(before: seq<Chapter>)
      ensures var after := WithNewChapter(before);
        IndexOf(after, AllocatedId(before, 0)) == |before| && after[|before|].content == NewChapterContent
    {
      var after, id := WithNewChapter(before), AllocatedId(before, 0);
      forall j | 0 <= j < |before| ensures after[j].id != id {
        assert after[j] == before[j];
      }
      IndexOfAt(after, id, |before|);
    }

    static lemma {:induction false} NewChapterNonEmptyIds(before: seq<Chapter>)
      requires NonEmptyIds(before)
      ensures NonEmptyIds(WithNewChapter(before))
    {
      var after := WithNewChapter(before);
      forall i | 0 <= i < |after| ensures after[i].id != "" {
        if i < |before| {
          assert after[i] == before[i];
        }
      }
    }

    /**
     * `handleDeleteChapter`: refused when only one chapter is left; otherwise, once
     * confirmed, every chapter with the id is removed, and if it was active the
     * first remaining chapter becomes active.
     */
    method DeleteChapter(id: string, confirmed: bool) returns (outcome: Outcome)
      modifies this`chapters, this`activeId, this`surface
      ensures old(|chapters|) == 1 ==> outcome == Refused(LastChapter)
      ensures old(|chapters|) != 1 && !confirmed ==> outcome == Cancelled
      ensures outcome == Applied <==> old(|chapters|) != 1 && confirmed
      ensures outcome != Applied ==> chapters == old(chapters) && activeId == old(activeId) && surface == old(surface)
      ensures outcome == Applied ==>
        && chapters == WithoutId(old(chapters), id)
        && activeId == (if old(activeId) == id && |chapters| > 0 then chapters[0].id else old(activeId))
        && surface == if activeId != old(activeId) || |chapters| != old(|chapters|)
                      then Loaded(chapters, activeId, old(surface)) else old(surface)
      ensures old(Valid()) ==> Valid()
    {
      if |chapters| == 1 {
        return Refused(LastChapter);
      }
      if !confirmed {
        return Cancelled;
      }
      ghost var was := Valid();
      var before, beforeActive := chapters, activeId;
      chapters := WithoutId(chapters, id);
      if activeId == id && |chapters| > 0 {
        activeId := chapters[0].id;
      }
      if activeId != beforeActive || |chapters| != |before| {
        surface := Loaded(chapters, activeId, surface);
      }
      outcome := Applied;
      if was {
        DeleteKeepsValid(before, id, beforeActive);
      }
    }

    /** The facts behind `DeleteChapter` preserving `Valid`. */
    static lemma {:induction false} DeleteKeepsValid(before: seq<Chapter>, id: string, active: string)
      requires |before| >= 2 && UniqueIds(before) && NonEmptyIds(before)
      requires IndexOf(before, active) < |before|
      ensures var after := WithoutId(before, id);
        && |after| >= 1 && UniqueIds(after) && NonEmptyIds(after)
        && (active != id ==> IndexOf(after, active) < |after|)
        && (active == id ==> after[0].id != id && IndexOf(after, after[0].id) == 0)
        && (|after| == |before| ==> after == before)
    {
      var after := WithoutId(before, id);
      WithoutIdUnique(before, id);
      if HasId(before, id) {
        WithoutUniqueId(before, id);
      } else {
        WithoutAbsentId(before, id);
      }
      var k := IndexOf(before, active);
      if active != id {
        WithoutIdMembers(before, id, before[k]);
        var j :| 0 <= j < |after| && after[j] == before[k];
        assert after[j].id == active;
      }
      forall i | 0 <= i < |after| ensures after[i].id != "" {
        WithoutIdMembers(before, id, after[i]);
      }
      IndexOfAt(after, after[0].id, 0);
    }

    /** `handleEditChapterTitle`: start editing a chapter's title. */
    method BeginTitleEdit(id: string, current: string)
      modifies this`editingId, this`editingTitle
      ensures editingId == Some(id) && editingTitle == current
    {
      editingId := Some(id);
      editingTitle := current;
    }

    /** Typing in the title field. */
    method SetEditingTitle(text: string)
      modifies this`editingTitle
      ensures editingTitle == text
    {
      editingTitle := text;
    }

    /**
     * `handleSaveChapterTitle`: a title that trims to nothing is refused and nothing
     * changes; otherwise the untrimmed title replaces the title of the chapters with
     * that id and title editing ends.
     */
    method SaveChapterTitle(id: string) returns (outcome: Outcome)
      modifies this`chapters, this`editingId
      ensures Trim(editingTitle) == [] ==>
        outcome == Refused(BlankChapterTitle) && chapters == old(chapters) && editingId == old(editingId)
      ensures Trim(editingTitle) != [] ==>
        outcome == Applied && chapters == Retitled(old(chapters), id, editingTitle) && editingId == None
      ensures old(Valid()) ==> Valid()
    {
      if Trim(editingTitle) == [] {
        return Refused(BlankChapterTitle);
      }
      Retitle(id);
      outcome := Applied;
    }

    /** The accepted branch of `handleSaveChapterTitle`: retitle and stop editing. */
    method Retitle(id: string)
      modifies this`chapters, this`editingId
      ensures chapters == Retitled(old(chapters), id, editingTitle) && editingId == None
      ensures old(Valid()) ==> Valid()
    {
      RetitleKeepsValid(chapters, id, editingTitle, activeId, surface);
      chapters := Retitled(chapters, id, editingTitle);
      editingId := None;
    }

    /** Retitling changes no id and no content, so the invariant holds on. */
    static lemma {:induction false} RetitleKeepsValid(before: seq<Chapter>, id: string, title: string, active: string, surface: Markup)
      ensures Consistent(before, active, surface) ==> Consistent(Retitled(before, id, title), active, surface)
    {
      var after := Retitled(before, id, title);
      SameIdsAgree(before, after, active);
    }

    /**
     * `splitByChapterBreaks`: the surface's markup is cut into fragments; with fewer
     * than two the split is refused and nothing changes; otherwise the active chapter
     * takes fragment 0, the others are appended as new chapters, split mode ends and
     * the surface reloads the active chapter. The count is what the success notice reports.
     */
    method SplitByChapterBreaks() returns (outcome: Outcome, count: nat)
      modifies this`chapters, this`splitMode, this`surface
      ensures |Parts(old(surface))| <= 1 ==>
        && outcome == Refused(NothingToSplit) && count == 0
        && chapters == old(chapters) && splitMode == old(splitMode) && surface == old(surface)
      ensures |Parts(old(surface))| >= 2 ==>
        && outcome == Applied && count == |Parts(old(surface))|
        && chapters == SplitChapters(old(chapters), activeId, Parts(old(surface)))
        && !splitMode
        && surface == Loaded(chapters, activeId, old(surface))
      ensures old(Valid()) && outcome == Applied ==> surface == Parts(old(surface))[0]
      ensures old(Valid()) ==> Valid()
    {
      var parts := Parts(surface);
      if |parts| <= 1 {
        return Refused(NothingToSplit), 0;
      }
      SplitKeepsValid(chapters, activeId, surface, parts);
      chapters := SplitChapters(chapters, activeId, parts);
      splitMode := false;
      surface := Loaded(chapters, activeId, surface);
      outcome, count := Applied, |parts|;
    }

    /**
     * The facts behind `SplitByChapterBreaks`: the active chapter stays where it was and
     * holds fragment 0, which the surface then shows; the appended ids are fresh.
     */
    static lemma {:induction false} SplitKeepsValid(before: seq<Chapter>, active: string, surface: Markup, parts: seq<Markup>)
      requires |parts| >= 2 && |Render(parts[0])| > 0
      ensures var after := SplitChapters(before, active, parts);
        Consistent(before, active, surface) ==>
          Loaded(after, active, surface) == parts[0] && Consistent(after, active, parts[0])
    {
      if Consistent(before, active, surface) {
        var after := SplitChapters(before, active, parts);
        SplitKeepsUniqueIds(before, active, parts);
        assert HasId(before, active) by {
          assert before[IndexOf(before, active)].id == active;
        }
        SplitKeepsActive(before, active, parts);
        SplitNonEmptyIds(before, active, parts);
      }
    }

    static lemma {:induction false} SplitNonEmptyIds(before: seq<Chapter>, active: string, parts: seq<Markup>)
      requires |parts| >= 2 && NonEmptyIds(before)
      ensures NonEmptyIds(SplitChapters(before, active, parts))
    {
      var after := SplitChapters(before, active, parts);
      SplitAt(before, active, parts);
      forall i | 0 <= i < |after| ensures after[i].id != "" {
        if i >= |before| {
          assert after[i].id == AllocatedId(before, i - |before|);
        }
      }
    }

    /**
     * Editing the document title; the title effect then marks unsaved changes when the
     * title actually changed and differs from the initial title.
     */
    method SetTitle(text: string)
      modifies this`title, this`unsaved
      ensures title == text
      ensures unsaved == (old(unsaved) || (text != old(title) && text != initialTitle))
    {
      if text != title {
        title := text;
        if text != initialTitle {
          unsaved := true;
        }
      }
    }

    /** Picking a colour in the label picker. */
    method SelectLabel(id: string)
      requires id in LabelIds
      modifies this`labelId
      ensures labelId == Some(id)
    {
      labelId := Some(id);
    }

    /**
     * `handlePublish`: a document title that trims to nothing is refused and the
     * unsaved flag stays; otherwise the flag is cleared and the title, chapters and
     * label are handed to `onPublish` as they are.
     */
    method Publish() returns (sent: Option<Publication>)
      modifies this`unsaved
      ensures Trim(title) == [] ==> sent == None && unsaved == old(unsaved)
      ensures Trim(title) != [] ==> sent == Some(Publication(title, chapters, labelId)) && !unsaved
    {
      if Trim(title) == [] {
        return None;
      }
      unsaved := false;
      sent := Some(Publication(title, chapters, labelId));
    }

    /** `handleBackClick`: leaving happens at once without unsaved changes, otherwise only on confirmation. */
    method Back(confirmed: bool) returns (leave: bool)
      ensures leave <==> !unsaved || confirmed
    {
      leave := !unsaved || confirmed;
    }
  }

  /**
   * Switching away from an edited chapter and back shows exactly the edited content:
   * nothing from another chapter bleeds into it.
   */
  method SwitchRoundTrip(e: Editor, a: string, b: string, buffer: Markup)
    requires e.Valid() && a != b
    requires IndexOf(e.chapters, a) < |e.chapters| && IndexOf(e.chapters, b) < |e.chapters|
    modifies e
    ensures e.Valid() && e.activeId == a
    ensures e.surface == Shown(buffer)
    ensures |Render(buffer)| > 0 ==> e.surface == buffer
  {
    e.Activate(a);
    e.Edit(buffer);
    SameIdsAgree(old(e.chapters), e.chapters, b);
    e.Activate(b);
    e.Activate(a);
  }
}
