/**
 The column-schema resolution of the question loader (`load_qa_data`).

 After the file is parsed, its header row is normalised so that the rest of
 the application can refer to fixed column names:
 - a column literally called "Question Number" is renamed to "question_num";
 - otherwise a 4-column file gets the positional names
   Section, question_num, Question, Answer;
 - otherwise a 3-column file gets question_num, Question, Answer;
 - any other header passes through unchanged.
 */
module Schema {

  const QuestionNumberHeader: string := "Question Number"
  const QuestionNumColumn: string := "question_num"
  const SectionColumn: string := "Section"
  const QuestionColumn: string := "Question"
  const AnswerColumn: string := "Answer"

  const FourColumnNames: seq<string> := [SectionColumn, QuestionNumColumn, QuestionColumn, AnswerColumn]
  const ThreeColumnNames: seq<string> := [QuestionNumColumn, QuestionColumn, AnswerColumn]

  /** The rename map {"Question Number": "question_num"} applied to every column
      label; pandas renames every occurrence of a duplicated label. */
  function RenameQuestionNumber(cols: seq<string>): (r: seq<string>)
    ensures |r| == |cols|
    ensures forall i | 0 <= i < |r| ::
      r[i] == (if cols[i] == QuestionNumberHeader then QuestionNumColumn else cols[i])
    ensures QuestionNumberHeader !in r
  {
    if |cols| == 0 then []
    else
      var head := if cols[0] == QuestionNumberHeader then QuestionNumColumn else cols[0];
      [head] + RenameQuestionNumber(cols[1..])
  }

  /** The header the loader hands to the rest of the application. */
  function ResolveColumns(cols: seq<string>): (r: seq<string>)
    ensures |r| == |cols|
    ensures QuestionNumberHeader in cols ==>
      && QuestionNumberHeader !in r
      && QuestionNumColumn in r
      && forall i | 0 <= i < |cols| ::
           r[i] == (if cols[i] == QuestionNumberHeader then QuestionNumColumn else cols[i])
    ensures QuestionNumberHeader !in cols && |cols| == 4 ==> r == FourColumnNames
    ensures QuestionNumberHeader !in cols && |cols| == 3 ==> r == ThreeColumnNames
    ensures QuestionNumberHeader !in cols && |cols| != 3 && |cols| != 4 ==> r == cols
  {
    if QuestionNumberHeader in cols then
      var r := RenameQuestionNumber(cols);
      assert QuestionNumColumn in r by {
        var i :| 0 <= i < |cols| && cols[i] == QuestionNumberHeader;
        assert r[i] == QuestionNumColumn;
      }
      r
    else if |cols| == 4 then FourColumnNames
    else if |cols| == 3 then ThreeColumnNames
    else cols
  }

  /** The viva tab reads the "Section" column unguarded, so whether the resolved
      header has one decides whether the tab can render at all. */
  lemma SectionColumnAfterResolve(cols: seq<string>)
    ensures SectionColumn in ResolveColumns(cols) <==>
      || (QuestionNumberHeader !in cols && |cols| == 4)
      || (SectionColumn in cols && (QuestionNumberHeader in cols || (|cols| != 3 && |cols| != 4)))
  {
    var r := ResolveColumns(cols);
    if QuestionNumberHeader in cols {
      if SectionColumn in cols {
        var i :| 0 <= i < |cols| && cols[i] == SectionColumn;
        assert r[i] == SectionColumn;
      }
      if SectionColumn in r {
        var i :| 0 <= i < |r| && r[i] == SectionColumn;
        assert cols[i] == SectionColumn;
      }
    } else if |cols| == 4 {
      assert r[0] == SectionColumn;
    } else if |cols| == 3 {
      assert SectionColumn !in ThreeColumnNames;
    }
  }

  /** A question-number column exists after resolution exactly when the file had
      one under either name or its width triggered positional naming. */
  lemma QuestionNumAfterResolve(cols: seq<string>)
    ensures QuestionNumColumn in ResolveColumns(cols) <==>
      QuestionNumColumn in cols || QuestionNumberHeader in cols || |cols| == 3 || |cols| == 4
  {
    var r := ResolveColumns(cols);
    if QuestionNumberHeader in cols && QuestionNumColumn in cols {
      var i :| 0 <= i < |cols| && cols[i] == QuestionNumColumn;
      assert r[i] == QuestionNumColumn;
    } else if QuestionNumberHeader !in cols && |cols| == 4 {
      assert r[1] == QuestionNumColumn;
    } else if QuestionNumberHeader !in cols && |cols| == 3 {
      assert r[0] == QuestionNumColumn;
    }
  }

  /** Renaming every `a` label to `b` adds the `a` labels to the `b` count. */
  lemma {:induction false} RenamedLabelCount(cols: seq<string>, r: seq<string>, a: string, b: string)
    requires a != b && |r| == |cols|
    requires forall i | 0 <= i < |cols| :: r[i] == (if cols[i] == a then b else cols[i])
    ensures multiset(r)[b] == multiset(cols)[a] + multiset(cols)[b]
  {
    if |cols| > 0 {
      RenamedLabelCount(cols[1..], r[1..], a, b);
      assert cols == [cols[0]] + cols[1..];
      assert r == [r[0]] + r[1..];
    }
  }

  /** The rename turns every "Question Number" label into one more
      "question_num" label; pandas keeps repeated labels side by side. */
  lemma RenameCountsQuestionNum(cols: seq<string>)
    ensures multiset(RenameQuestionNumber(cols))[QuestionNumColumn] ==
      multiset(cols)[QuestionNumberHeader] + multiset(cols)[QuestionNumColumn]
  {
    assert QuestionNumberHeader[0] != QuestionNumColumn[0];
    RenamedLabelCount(cols, RenameQuestionNumber(cols), QuestionNumberHeader, QuestionNumColumn);
  }

  /** How many "question_num" columns the resolved header has: the sort of the
      viva tab needs exactly one. Only a file with both a "Question Number" and
      a "question_num" column ends up with more. */
  lemma QuestionNumCountAfterResolve(cols: seq<string>)
    ensures multiset(ResolveColumns(cols))[QuestionNumColumn] ==
      if QuestionNumberHeader in cols then
        multiset(cols)[QuestionNumberHeader] + multiset(cols)[QuestionNumColumn]
      else if |cols| == 3 || |cols| == 4 then 1
      else multiset(cols)[QuestionNumColumn]
  {
    if QuestionNumberHeader in cols {
      RenameCountsQuestionNum(cols);
    } else if |cols| == 4 {
      assert multiset(FourColumnNames) == multiset{SectionColumn, QuestionNumColumn, QuestionColumn, AnswerColumn};
    } else if |cols| == 3 {
      assert multiset(ThreeColumnNames) == multiset{QuestionNumColumn, QuestionColumn, AnswerColumn};
    }
  }

  /** Without a "Question Number" header, resolving an already resolved header
      changes nothing: the positional names are themselves stable. */
  lemma ResolveStableWithoutHeader(cols: seq<string>)
    requires QuestionNumberHeader !in cols
    ensures ResolveColumns(ResolveColumns(cols)) == ResolveColumns(cols)
  {
    var r := ResolveColumns(cols);
    if |cols| == 4 {
      assert QuestionNumberHeader !in FourColumnNames;
    } else if |cols| == 3 {
      assert QuestionNumberHeader !in ThreeColumnNames;
    }
  }
}
