/**
 One render cycle of the viva tab, and a session as a run of cycles.

 Each user interaction re-runs the tab from the top: the question file is
 loaded and its header resolved, the session's cursor is initialised if it
 is missing, the rows are filtered and ordered by the picked sections, the
 cursor is clamped to the filtered list, a pressed button moves it, and the
 question under the cursor is shown. The rendering surface, the file system
 and the random source are outside the model: the parsed file, the picked
 sections, the pressed button and the random draw are inputs.
 */
module Viva {
  import opened Schema
  import opened Sections
  import opened Cursor

  datatype Option<+T> = None | Some(value: T) {
    function GetOr(default: T): T {
      match this
      case Some(v) => v
      case None => default
    }
  }

  /** A parsed question file: its header and its records. */
  datatype Frame = Frame(columns: seq<string>, rows: seq<Row>)

  /** What the tab keeps in the session between reruns; `None` until the tab
      first stores a cursor. */
  datatype Session = Session(currentIndex: Option<int>)

  const FreshSession: Session := Session(None)

  /** What one cycle puts on the screen. `position` and `count` are the k and
      N of the "Question k of N" label; `total` is the number of loaded rows.
      `MissingColumn` is the KeyError the tab raises when it reads a column
      the resolved header lacks; `DuplicateColumn` is the ValueError of a sort
      by a label the header holds more than once. */
  datatype View =
    | CouldNotLoad
    | MissingColumn(column: string)
    | DuplicateColumn(column: string)
    | NothingSelected(total: nat)
    | Showing(row: Row, position: int, count: nat, total: nat)

  datatype Cycle = Cycle(session: Session, view: View)

  /** One user interaction: the sections picked in the filter (in pick order)
      and the button pressed, if any. */
  datatype Interaction = Interaction(sel: seq<string>, press: Option<Action>)

  /** The question loader. `parsed` is what the CSV parser produced, `None`
      when it raised; the loader then resolves the header. */
  function LoadQaData(parsed: Option<Frame>): (r: Option<Frame>)
    ensures r.Some? <==> parsed.Some?
    ensures r.Some? ==> r.value.rows == parsed.value.rows
    ensures r.Some? ==> r.value.columns == ResolveColumns(parsed.value.columns)
    ensures r.Some? ==> |r.value.columns| == |parsed.value.columns|
    ensures r.Some? ==> QuestionNumberHeader !in r.value.columns
  {
    match parsed
    case None => None
    case Some(f) => Some(Frame(ResolveColumns(f.columns), f.rows))
  }

  /** The cursor is never stored negative. */
  predicate IndexOk(s: Session) {
    s.currentIndex.Some? ==> s.currentIndex.value >= 0
  }

  /** The multiselect offers the distinct sections of the loaded rows, and
      returns a duplicate-free choice among them. */
  predicate SelectionOk(rows: seq<Row>, sel: seq<string>) {
    Distinct(sel) && forall k | 0 <= k < |sel| :: Offered(rows, sel[k])
  }

  /** What the widgets can hand to one cycle: a selection the multiselect can
      produce, and a random draw within the filtered list. */
  predicate InputOk(parsed: Option<Frame>, sel: seq<string>, press: Option<Action>) {
    parsed.Some? ==>
      && SelectionOk(parsed.value.rows, sel)
      && (press.Some? ==> Drawable(press.value, |FilterAndOrder(parsed.value.rows, sel)|))
  }

  /** The tail of a cycle over a non-empty filtered list: clamp the stored
      cursor, apply the pressed button, and show the question under the
      cursor. */
  function ShowQuestion(filtered: seq<Row>, total: nat, index: int, press: Option<Action>): (c: Cycle)
    requires |filtered| > 0 && index >= 0
    requires press.Some? ==> Drawable(press.value, |filtered|)
    ensures c.view.Showing?
    ensures 1 <= c.view.position <= c.view.count == |filtered|
    ensures c.view.total == total
    ensures c.view.row == filtered[c.view.position - 1]
    ensures c.session == Session(Some(c.view.position - 1))
    ensures press.None? && index < |filtered| ==> c.view.position == index + 1
    ensures press.None? && index >= |filtered| ==> c.view.position == |filtered|
    ensures press == Some(First) ==> c.view.position == 1
    ensures press == Some(Last) ==> c.view.position == |filtered|
    ensures press.Some? && press.value.Random? ==> c.view.position == press.value.roll + 1
    ensures press == Some(Previous) ==> c.view.position == Max(Min(index, |filtered| - 1), 1)
    ensures press == Some(Next) ==> c.view.position == Min(index + 2, |filtered|)
  {
    var n := |filtered|;
    var clamped := Clamp(index, n);
    var j := if press.Some? then Apply(clamped, n, press.value) else clamped;
    Cycle(Session(Some(j)), Showing(filtered[j], j + 1, n, total))
  }

  /** True when the loaded frame is present and has rows: `df is not None and
      not df.empty`. */
  predicate Loaded(parsed: Option<Frame>) {
    parsed.Some? && |parsed.value.rows| > 0
  }

  /** The header the loader hands to the tab. */
  function Header(parsed: Option<Frame>): seq<string>
    requires parsed.Some?
  {
    LoadQaData(parsed).value.columns
  }

  /** The cycle of a loaded frame that has rows and a Section column: the
      session cursor is initialised, the pick is filtered and sorted (which
      needs exactly one question_num column), and the question under the clamped and moved cursor
      is shown (which reads Question, then Answer). */
  function RenderLoaded(cols: seq<string>, rows: seq<Row>, s: Session, sel: seq<string>, press: Option<Action>): (c: Cycle)
    requires IndexOk(s)
    requires SelectionOk(rows, sel)
    requires press.Some? ==> Drawable(press.value, |FilterAndOrder(rows, sel)|)
    ensures IndexOk(c.session)
    ensures !c.view.CouldNotLoad? && c.view != MissingColumn(SectionColumn)
    ensures c.view.NothingSelected? <==> |sel| == 0
    ensures c.view.NothingSelected? ==> c == Cycle(Session(Some(s.currentIndex.GetOr(0))), NothingSelected(|rows|))
    ensures c.view == MissingColumn(QuestionNumColumn) <==> |sel| > 0 && QuestionNumColumn !in cols
    ensures c.view == MissingColumn(QuestionNumColumn) ==> c.session == Session(Some(s.currentIndex.GetOr(0)))
    ensures c.view.DuplicateColumn? <==> |sel| > 0 && multiset(cols)[QuestionNumColumn] > 1
    ensures c.view.DuplicateColumn? ==>
      c == Cycle(Session(Some(s.currentIndex.GetOr(0))), DuplicateColumn(QuestionNumColumn))
    ensures |sel| > 0 && multiset(cols)[QuestionNumColumn] == 1 ==>
      && |FilterAndOrder(rows, sel)| > 0
      && var shown := ShowQuestion(FilterAndOrder(rows, sel), |rows|, s.currentIndex.GetOr(0), press);
      && c.session == shown.session
      && (c.view == MissingColumn(QuestionColumn) <==> QuestionColumn !in cols)
      && (c.view == MissingColumn(AnswerColumn) <==> QuestionColumn in cols && AnswerColumn !in cols)
      && (c.view.Showing? <==> QuestionColumn in cols && AnswerColumn in cols)
      && (c.view.Showing? ==> c == shown)
  {
    var index := s.currentIndex.GetOr(0);
    if |sel| > 0 && QuestionNumColumn !in cols then
      Cycle(Session(Some(index)), MissingColumn(QuestionNumColumn))
    else if |sel| > 0 && multiset(cols)[QuestionNumColumn] > 1 then
      Cycle(Session(Some(index)), DuplicateColumn(QuestionNumColumn))
    else
      var filtered := FilterAndOrder(rows, sel);
      if |filtered| == 0 then
        assert |sel| == 0 by {
          if |sel| > 0 {
            PickedSectionsAppear(rows, sel, 0);
          }
        }
        Cycle(Session(Some(index)), NothingSelected(|rows|))
      else
        var shown := ShowQuestion(filtered, |rows|, index, press);
        if QuestionColumn !in cols then Cycle(shown.session, MissingColumn(QuestionColumn))
        else if AnswerColumn !in cols then Cycle(shown.session, MissingColumn(AnswerColumn))
        else shown
  }

  /** One run of the viva tab. */
  function Render(parsed: Option<Frame>, s: Session, sel: seq<string>, press: Option<Action>): (c: Cycle)
    requires IndexOk(s)
    requires InputOk(parsed, sel, press)
    ensures IndexOk(c.session)
    ensures c.view.CouldNotLoad? <==> !Loaded(parsed)
    ensures c.view == MissingColumn(SectionColumn) <==> Loaded(parsed) && SectionColumn !in Header(parsed)
    ensures c.view.CouldNotLoad? || c.view == MissingColumn(SectionColumn) ==> c.session == s
    ensures Loaded(parsed) && SectionColumn in Header(parsed) ==>
      c == RenderLoaded(Header(parsed), parsed.value.rows, s, sel, press)
  {
    var loaded := LoadQaData(parsed);
    if loaded.None? || |loaded.value.rows| == 0 then Cycle(s, CouldNotLoad)
    else if SectionColumn !in loaded.value.columns then Cycle(s, MissingColumn(SectionColumn))
    else RenderLoaded(loaded.value.columns, loaded.value.rows, s, sel, press)
  }

  /** A loaded cycle that shows a question shows the one ShowQuestion picks
      from the stored cursor and the press, over the filtered and ordered
      pick. */
  lemma RenderLoadedShowsCursorRow(cols: seq<string>, rows: seq<Row>, s: Session, sel: seq<string>, press: Option<Action>)
    requires IndexOk(s)
    requires SelectionOk(rows, sel)
    requires press.Some? ==> Drawable(press.value, |FilterAndOrder(rows, sel)|)
    ensures var c := RenderLoaded(cols, rows, s, sel, press);
      c.view.Showing? ==>
        && |FilterAndOrder(rows, sel)| > 0
        && c == ShowQuestion(FilterAndOrder(rows, sel), |rows|, s.currentIndex.GetOr(0), press)
  {
    var c := RenderLoaded(cols, rows, s, sel, press);
    if c.view.Showing? {
      assert |sel| > 0 && QuestionNumColumn in cols;
    }
  }

  /** The "Question k of N" label of a shown cycle is consistent with the
      list it was drawn from: N is the list's length, at most the `total`
      loaded rows, and the shown row is the list's k-th. */
  predicate LabelsRowOf(c: Cycle, filtered: seq<Row>, total: nat) {
    && c.view.Showing?
    && 1 <= c.view.position <= c.view.count == |filtered| <= c.view.total == total
    && c.view.row == filtered[c.view.position - 1]
  }

  /** Any cycle ShowQuestion produces labels its row with the row's own
      1-based position in the list. */
  lemma ShownRowUnderCursor(c: Cycle, filtered: seq<Row>, total: nat, index: int, press: Option<Action>)
    requires |filtered| > 0 && index >= 0
    requires press.Some? ==> Drawable(press.value, |filtered|)
    requires c == ShowQuestion(filtered, total, index, press)
    requires |filtered| <= total
    ensures LabelsRowOf(c, filtered, total)
  {
  }

  /** The shown question of a cycle is the one ShowQuestion picks from the
      stored cursor and the press, over the filtered and ordered pick. */
  lemma RenderShowsCursorRow(parsed: Option<Frame>, s: Session, sel: seq<string>, press: Option<Action>)
    requires IndexOk(s)
    requires InputOk(parsed, sel, press)
    ensures Render(parsed, s, sel, press).view.Showing? ==>
      Loaded(parsed) && |FilterAndOrder(parsed.value.rows, sel)| > 0
    ensures Render(parsed, s, sel, press).view.Showing? ==>
      Render(parsed, s, sel, press) ==
        ShowQuestion(FilterAndOrder(parsed.value.rows, sel), |parsed.value.rows|, s.currentIndex.GetOr(0), press)
  {
    var c := Render(parsed, s, sel, press);
    if c.view.Showing? {
      assert Loaded(parsed) && SectionColumn in Header(parsed);
      RenderLoadedShowsCursorRow(Header(parsed), parsed.value.rows, s, sel, press);
    }
  }

  /** A loaded cycle that shows a question labels it with its place in the
      filtered and ordered pick. */
  lemma RenderLoadedLabelsShownRow(cols: seq<string>, rows: seq<Row>, s: Session, sel: seq<string>, press: Option<Action>)
    requires IndexOk(s)
    requires SelectionOk(rows, sel)
    requires press.Some? ==> Drawable(press.value, |FilterAndOrder(rows, sel)|)
    ensures var c := RenderLoaded(cols, rows, s, sel, press);
      c.view.Showing? ==> LabelsRowOf(c, FilterAndOrder(rows, sel), |rows|)
  {
    var c := RenderLoaded(cols, rows, s, sel, press);
    if c.view.Showing? {
      RenderLoadedShowsCursorRow(cols, rows, s, sel, press);
      var filtered := FilterAndOrder(rows, sel);
      assert |filtered| <= |rows|;
      ShownRowUnderCursor(c, filtered, |rows|, s.currentIndex.GetOr(0), press);
    }
  }

  /** Every shown question is labelled with its place in the filtered and
      ordered pick, and the label's N never exceeds the loaded rows. */
  lemma RenderLabelsShownRow(parsed: Option<Frame>, s: Session, sel: seq<string>, press: Option<Action>)
    requires IndexOk(s)
    requires InputOk(parsed, sel, press)
    ensures var c := Render(parsed, s, sel, press);
      c.view.Showing? ==> parsed.Some? && LabelsRowOf(c, FilterAndOrder(parsed.value.rows, sel), |parsed.value.rows|)
  {
    var c := Render(parsed, s, sel, press);
    if c.view.Showing? {
      assert Loaded(parsed) && SectionColumn in Header(parsed);
      RenderLoadedLabelsShownRow(Header(parsed), parsed.value.rows, s, sel, press);
    }
  }

  /** A header that resolves to all four columns the tab reads never hits a
      missing column; it shows a question exactly when something is picked
      and question_num is not repeated. */
  lemma FullHeaderNeverMissesColumn(parsed: Option<Frame>, s: Session, sel: seq<string>, press: Option<Action>)
    requires IndexOk(s)
    requires InputOk(parsed, sel, press)
    requires Loaded(parsed)
    requires forall k | 0 <= k < |FourColumnNames| :: FourColumnNames[k] in Header(parsed)
    ensures !Render(parsed, s, sel, press).view.MissingColumn?
    ensures Render(parsed, s, sel, press).view.Showing? <==>
      |sel| > 0 && multiset(Header(parsed))[QuestionNumColumn] == 1
    ensures Render(parsed, s, sel, press).view.DuplicateColumn? <==>
      |sel| > 0 && multiset(Header(parsed))[QuestionNumColumn] > 1
  {
    var cols := Header(parsed);
    FourColumnsPresent(cols);
    assert Render(parsed, s, sel, press) == RenderLoaded(cols, parsed.value.rows, s, sel, press);
    RenderLoadedWithColumns(cols, parsed.value.rows, s, sel, press);
  }

  lemma FourColumnsPresent(cols: seq<string>)
    requires forall k | 0 <= k < |FourColumnNames| :: FourColumnNames[k] in cols
    ensures SectionColumn in cols && QuestionNumColumn in cols
    ensures QuestionColumn in cols && AnswerColumn in cols
  {
    assert FourColumnNames[0] == SectionColumn && FourColumnNames[1] == QuestionNumColumn;
    assert FourColumnNames[2] == QuestionColumn && FourColumnNames[3] == AnswerColumn;
  }

  /** With question_num, Question and Answer all present, a loaded cycle
      shows a question exactly when something is picked and question_num is
      not repeated. */
  lemma RenderLoadedWithColumns(cols: seq<string>, rows: seq<Row>, s: Session, sel: seq<string>, press: Option<Action>)
    requires IndexOk(s)
    requires SelectionOk(rows, sel)
    requires press.Some? ==> Drawable(press.value, |FilterAndOrder(rows, sel)|)
    requires QuestionNumColumn in cols && QuestionColumn in cols && AnswerColumn in cols
    ensures !RenderLoaded(cols, rows, s, sel, press).view.MissingColumn?
    ensures RenderLoaded(cols, rows, s, sel, press).view.Showing? <==>
      |sel| > 0 && multiset(cols)[QuestionNumColumn] == 1
    ensures RenderLoaded(cols, rows, s, sel, press).view.DuplicateColumn? <==>
      |sel| > 0 && multiset(cols)[QuestionNumColumn] > 1
  {
    var c := RenderLoaded(cols, rows, s, sel, press);
    if |sel| == 0 {
      assert c.view.NothingSelected?;
    } else if multiset(cols)[QuestionNumColumn] > 1 {
      assert c.view.DuplicateColumn?;
    } else {
      assert c.view.Showing?;
    }
  }

  /** The loader's positional naming of a 4-column file supplies every column
      the tab reads, so such a file shows a question exactly when something is
      picked. */
  lemma FourColumnFileNeverMissesColumn(f: Frame, s: Session, sel: seq<string>, press: Option<Action>)
    requires IndexOk(s)
    requires InputOk(Some(f), sel, press)
    requires |f.columns| == 4 && QuestionNumberHeader !in f.columns && |f.rows| > 0
    ensures !Render(Some(f), s, sel, press).view.MissingColumn?
    ensures !Render(Some(f), s, sel, press).view.DuplicateColumn?
    ensures Render(Some(f), s, sel, press).view.Showing? <==> |sel| > 0
  {
    assert Header(Some(f)) == FourColumnNames;
    QuestionNumCountAfterResolve(f.columns);
    assert forall k | 0 <= k < |FourColumnNames| :: FourColumnNames[k] in Header(Some(f));
    FullHeaderNeverMissesColumn(Some(f), s, sel, press);
  }

  /** A file with both a "Question Number" and a "question_num" column gets
      two question_num columns from the rename, so the sort of any non-empty
      pick fails after the cursor was initialised. */
  lemma RepeatedQuestionNumFails(f: Frame, s: Session, sel: seq<string>, press: Option<Action>)
    requires IndexOk(s)
    requires InputOk(Some(f), sel, press)
    requires QuestionNumberHeader in f.columns && QuestionNumColumn in f.columns
    requires SectionColumn in f.columns && |f.rows| > 0 && |sel| > 0
    ensures Render(Some(f), s, sel, press) ==
      Cycle(Session(Some(s.currentIndex.GetOr(0))), DuplicateColumn(QuestionNumColumn))
  {
    SectionColumnAfterResolve(f.columns);
    QuestionNumCountAfterResolve(f.columns);
    var cols := Header(Some(f));
    assert Render(Some(f), s, sel, press) == RenderLoaded(cols, f.rows, s, sel, press);
  }

  /** The session after a run of interactions. */
  function Run(parsed: Option<Frame>, s: Session, steps: seq<Interaction>): (s': Session)
    requires IndexOk(s)
    requires forall k | 0 <= k < |steps| :: InputOk(parsed, steps[k].sel, steps[k].press)
    ensures IndexOk(s')
    decreases |steps|
  {
    if |steps| == 0 then s
    else Run(parsed, Render(parsed, s, steps[0].sel, steps[0].press).session, steps[1..])
  }

  /** Whatever the user did before, in whatever order, and however the section
      pick changed, the next cycle that shows a question shows a loaded row of
      a picked section, and its "Question k of N" label has 1 <= k <= N. */
  lemma ShownQuestionAlwaysExists(parsed: Option<Frame>, steps: seq<Interaction>, sel: seq<string>, press: Option<Action>)
    requires forall k | 0 <= k < |steps| :: InputOk(parsed, steps[k].sel, steps[k].press)
    requires InputOk(parsed, sel, press)
    ensures
      var c := Render(parsed, Run(parsed, FreshSession, steps), sel, press);
      c.view.Showing? ==>
        && 1 <= c.view.position <= c.view.count
        && c.view.row in parsed.value.rows
        && c.view.row.section in sel
  {
    var c := Render(parsed, Run(parsed, FreshSession, steps), sel, press);
    if c.view.Showing? {
      FilteredRowsArePicked(parsed.value.rows, sel);
    }
  }

  /** The rerun after a press re-renders the question the press moved to, and
      rendering again without a press changes nothing. */
  lemma RerunIsStable(parsed: Option<Frame>, s: Session, sel: seq<string>, press: Option<Action>)
    requires IndexOk(s)
    requires InputOk(parsed, sel, press)
    ensures
      var c := Render(parsed, s, sel, press);
      Render(parsed, c.session, sel, None) == c
  {
    var c := Render(parsed, s, sel, press);
    if Loaded(parsed) && SectionColumn in Header(parsed) {
      var cols, rows := Header(parsed), parsed.value.rows;
      assert c == RenderLoaded(cols, rows, s, sel, press);
      assert Render(parsed, c.session, sel, None) == RenderLoaded(cols, rows, c.session, sel, None);
      RenderLoadedRerunIsStable(cols, rows, s, sel, press);
    }
  }

  /** The loaded part of a cycle is stable under a rerun without a press. */
  lemma RenderLoadedRerunIsStable(cols: seq<string>, rows: seq<Row>, s: Session, sel: seq<string>, press: Option<Action>)
    requires IndexOk(s)
    requires SelectionOk(rows, sel)
    requires press.Some? ==> Drawable(press.value, |FilterAndOrder(rows, sel)|)
    ensures
      var c := RenderLoaded(cols, rows, s, sel, press);
      RenderLoaded(cols, rows, c.session, sel, None) == c
  {
    var c := RenderLoaded(cols, rows, s, sel, press);
    if |sel| > 0 && multiset(cols)[QuestionNumColumn] == 1 {
      var filtered := FilterAndOrder(rows, sel);
      ShowQuestionRerunIsStable(filtered, |rows|, s.currentIndex.GetOr(0), press);
    }
  }

  /** Showing the question the cursor was left on, with no press, shows it
      again and stores the same cursor. */
  lemma ShowQuestionRerunIsStable(filtered: seq<Row>, total: nat, index: int, press: Option<Action>)
    requires |filtered| > 0 && index >= 0
    requires press.Some? ==> Drawable(press.value, |filtered|)
    ensures
      var c := ShowQuestion(filtered, total, index, press);
      ShowQuestion(filtered, total, c.session.currentIndex.value, None) == c
  {
  }

  /** A fresh session opens on the first question of the filtered list. */
  lemma FreshSessionShowsFirst(parsed: Option<Frame>, sel: seq<string>)
    requires InputOk(parsed, sel, None)
    ensures
      var c := Render(parsed, FreshSession, sel, None);
      c.view.Showing? ==> c.view.position == 1
  {
  }

  /** A failed or empty load never touches the session. */
  lemma FailedLoadKeepsSession(s: Session, sel: seq<string>, press: Option<Action>)
    requires IndexOk(s)
    ensures Render(None, s, sel, press) == Cycle(s, CouldNotLoad)
  {
  }

  /** A 3-column file without a "Question Number" header gets no Section
      column, so the tab cannot render it: it does not fall back to one
      implicit section. */
  lemma ThreeColumnFileMissesSection(f: Frame, s: Session, sel: seq<string>, press: Option<Action>)
    requires IndexOk(s)
    requires InputOk(Some(f), sel, press)
    requires |f.columns| == 3 && QuestionNumberHeader !in f.columns && |f.rows| > 0
    ensures Render(Some(f), s, sel, press) == Cycle(s, MissingColumn(SectionColumn))
  {
    SectionColumnAfterResolve(f.columns);
  }
}
