/**
 The section filter and orderer of the viva tab.

 Given the loaded question rows and the sections the user picked, in the order
 they were picked, the tab keeps only the rows of picked sections and orders
 them by the section's position in the pick list (an ordered categorical),
 then by question number. An empty pick list shows nothing at all.
 */
module Sections {

  /** One question record, after the loader has resolved the column names. */
  datatype Row = Row(section: string, questionNum: int, question: string, answer: string)

  predicate Distinct<T(==)>(s: seq<T>) {
    forall i, j | 0 <= i < j < |s| :: s[i] != s[j]
  }

  /** True when some loaded row belongs to section `s`: the multiselect offers
      exactly the distinct sections of the rows. */
  predicate Offered(rows: seq<Row>, s: string) {
    exists i | 0 <= i < |rows| :: rows[i].section == s
  }

  /** The sort rank of section `s`: the index of its first occurrence in the
      pick list, which is the ordered categorical's code for a picked section.
      An unpicked section gets |sel|; such rows are filtered out before the
      sort, so that value never orders anything. */
  function Position(sel: seq<string>, s: string): (p: nat)
    ensures p <= |sel|
    ensures p < |sel| <==> s in sel
    ensures p < |sel| ==> sel[p] == s
    ensures forall k | 0 <= k < p :: sel[k] != s
  {
    if |sel| == 0 then 0
    else if sel[0] == s then 0
    else 1 + Position(sel[1..], s)
  }

  /** The composite sort key: position of the section in the pick list, then
      question number. */
  predicate KeyLe(sel: seq<string>, a: Row, b: Row) {
    var pa := Position(sel, a.section);
    var pb := Position(sel, b.section);
    pa < pb || (pa == pb && a.questionNum <= b.questionNum)
  }

  predicate SortedBy(sel: seq<string>, s: seq<Row>) {
    forall i, j | 0 <= i < j < |s| :: KeyLe(sel, s[i], s[j])
  }

  /** Inserts `x` in front of the first row it does not follow. */
  function Insert(sel: seq<string>, x: Row, s: seq<Row>): (r: seq<Row>)
    requires SortedBy(sel, s)
    ensures multiset(r) == multiset(s) + multiset{x}
    ensures SortedBy(sel, r)
  {
    if |s| == 0 then [x]
    else if KeyLe(sel, x, s[0]) then [x] + s
    else
      SortedTail(sel, s);
      var rest := Insert(sel, x, s[1..]);
      assert s == [s[0]] + s[1..];
      LowerBoundKept(sel, s[0], s[1..], x, rest);
      ConsSorted(sel, s[0], rest);
      [s[0]] + rest
  }

  /** The tail of a sorted list is sorted, and its head precedes all of it. */
  lemma SortedTail(sel: seq<string>, s: seq<Row>)
    requires SortedBy(sel, s) && |s| > 0
    ensures SortedBy(sel, s[1..])
    ensures forall j | 0 <= j < |s[1..]| :: KeyLe(sel, s[0], s[1..][j])
  {
    var t := s[1..];
    forall i, j | 0 <= i < j < |t| ensures KeyLe(sel, t[i], t[j]) {
      assert t[i] == s[i + 1] && t[j] == s[j + 1];
    }
    forall j | 0 <= j < |t| ensures KeyLe(sel, s[0], t[j]) {
      assert t[j] == s[j + 1];
    }
  }

  /** A row that precedes every row of `tail` and also `x` precedes every row
      of any rearrangement of `tail` plus `x`. */
  lemma LowerBoundKept(sel: seq<string>, h: Row, tail: seq<Row>, x: Row, rest: seq<Row>)
    requires forall j | 0 <= j < |tail| :: KeyLe(sel, h, tail[j])
    requires KeyLe(sel, h, x)
    requires multiset(rest) == multiset(tail) + multiset{x}
    ensures forall j | 0 <= j < |rest| :: KeyLe(sel, h, rest[j])
  {
    forall j | 0 <= j < |rest| ensures KeyLe(sel, h, rest[j]) {
      assert rest[j] in multiset(rest);
      if rest[j] != x {
        assert rest[j] in multiset(tail);
        var k :| 0 <= k < |tail| && tail[k] == rest[j];
      }
    }
  }

  /** Putting a lower bound in front of a sorted list keeps it sorted. */
  lemma ConsSorted(sel: seq<string>, h: Row, rest: seq<Row>)
    requires SortedBy(sel, rest)
    requires forall j | 0 <= j < |rest| :: KeyLe(sel, h, rest[j])
    ensures SortedBy(sel, [h] + rest)
  {
    var r := [h] + rest;
    forall i, j | 0 <= i < j < |r| ensures KeyLe(sel, r[i], r[j]) {
      if i == 0 {
        assert r[j] == rest[j - 1];
      } else {
        assert r[i] == rest[i - 1] && r[j] == rest[j - 1];
      }
    }
  }

  /** Insertion sort by the composite key. */
  function SortRows(sel: seq<string>, s: seq<Row>): (r: seq<Row>)
    ensures multiset(r) == multiset(s)
    ensures SortedBy(sel, r)
  {
    if |s| == 0 then []
    else
      assert s == [s[0]] + s[1..];
      Insert(sel, s[0], SortRows(sel, s[1..]))
  }

  /** Keeps the rows whose section was picked, in their loaded order. */
  function Select(rows: seq<Row>, sel: seq<string>): (r: seq<Row>)
    ensures |r| <= |rows|
    ensures forall x :: multiset(r)[x] == if x.section in sel then multiset(rows)[x] else 0
  {
    if |rows| == 0 then []
    else
      assert rows == [rows[0]] + rows[1..];
      if rows[0].section in sel then [rows[0]] + Select(rows[1..], sel)
      else Select(rows[1..], sel)
  }

  /** The filtered, ordered question list the viva tab pages through. The pick
      list must be duplicate-free: an ordered categorical with a repeated
      category is refused. */
  function FilterAndOrder(rows: seq<Row>, sel: seq<string>): (r: seq<Row>)
    requires Distinct(sel)
    ensures |sel| == 0 ==> r == []
    ensures forall x :: multiset(r)[x] == if x.section in sel then multiset(rows)[x] else 0
    ensures SortedBy(sel, r)
    ensures |r| <= |rows|
  {
    if |sel| == 0 then []
    else SortRows(sel, Select(rows, sel))
  }

  /** Every kept row belongs to a picked section and was loaded. */
  lemma FilteredRowsArePicked(rows: seq<Row>, sel: seq<string>)
    requires Distinct(sel)
    ensures forall i | 0 <= i < |FilterAndOrder(rows, sel)| ::
      FilterAndOrder(rows, sel)[i].section in sel && FilterAndOrder(rows, sel)[i] in rows
  {
    var r := FilterAndOrder(rows, sel);
    forall i | 0 <= i < |r| ensures r[i].section in sel && r[i] in rows {
      assert r[i] in multiset(r);
      assert multiset(rows)[r[i]] > 0;
    }
  }

  /** In a key-sorted list of picked rows, rows of different sections appear
      in pick order. */
  lemma SortedPickOrder(sel: seq<string>, r: seq<Row>, i: int, j: int)
    requires SortedBy(sel, r)
    requires 0 <= i < |r| && 0 <= j < |r|
    requires r[i].section in sel && r[j].section in sel && r[i].section != r[j].section
    ensures i < j <==> Position(sel, r[i].section) < Position(sel, r[j].section)
  {
    var pi, pj := Position(sel, r[i].section), Position(sel, r[j].section);
    assert pi != pj by {
      assert sel[pi] == r[i].section && sel[pj] == r[j].section;
    }
    if i > j {
      assert KeyLe(sel, r[j], r[i]);
    }
  }

  /** Rows of differently ranked sections appear in pick order, in both
      directions: r[i] comes first exactly when its section was picked first. */
  lemma PickOrderBetweenSections(rows: seq<Row>, sel: seq<string>)
    requires Distinct(sel)
    ensures var r := FilterAndOrder(rows, sel);
      forall i, j | 0 <= i < |r| && 0 <= j < |r| && r[i].section != r[j].section ::
        i < j <==> Position(sel, r[i].section) < Position(sel, r[j].section)
  {
    var r := FilterAndOrder(rows, sel);
    FilteredRowsArePicked(rows, sel);
    forall i, j | 0 <= i < |r| && 0 <= j < |r| && r[i].section != r[j].section
      ensures i < j <==> Position(sel, r[i].section) < Position(sel, r[j].section)
    {
      SortedPickOrder(sel, r, i, j);
    }
  }

  /** Within one section, question numbers never decrease. */
  lemma QuestionOrderWithinSection(rows: seq<Row>, sel: seq<string>)
    requires Distinct(sel)
    ensures var r := FilterAndOrder(rows, sel);
      forall i, j | 0 <= i < j < |r| && r[i].section == r[j].section :: r[i].questionNum <= r[j].questionNum
  {
    var r := FilterAndOrder(rows, sel);
    forall i, j | 0 <= i < j < |r| && r[i].section == r[j].section
      ensures r[i].questionNum <= r[j].questionNum
    {
      assert KeyLe(sel, r[i], r[j]);
    }
  }

  /** Every picked section that the rows offer contributes at least one row, so
      a non-empty pick drawn from the rows never shows an empty list. */
  lemma PickedSectionsAppear(rows: seq<Row>, sel: seq<string>, k: int)
    requires Distinct(sel)
    requires 0 <= k < |sel|
    requires Offered(rows, sel[k])
    ensures exists i | 0 <= i < |FilterAndOrder(rows, sel)| :: FilterAndOrder(rows, sel)[i].section == sel[k]
    ensures |FilterAndOrder(rows, sel)| > 0
  {
    var r := FilterAndOrder(rows, sel);
    var m :| 0 <= m < |rows| && rows[m].section == sel[k];
    assert rows[m] in multiset(rows);
    assert rows[m] in multiset(r);
    var i :| 0 <= i < |r| && r[i] == rows[m];
  }

  /** Picking every section the rows offer (the multiselect's default) keeps
      every row: "Showing N of N questions". */
  lemma AllSectionsKeepEveryRow(rows: seq<Row>, sel: seq<string>)
    requires Distinct(sel)
    requires forall i | 0 <= i < |rows| :: rows[i].section in sel
    ensures multiset(FilterAndOrder(rows, sel)) == multiset(rows)
    ensures |FilterAndOrder(rows, sel)| == |rows|
  {
    var r := FilterAndOrder(rows, sel);
    forall x: Row | x in multiset(rows) ensures x.section in sel {
      var i :| 0 <= i < |rows| && rows[i] == x;
    }
    assert multiset(r) == multiset(rows);
    assert |multiset(r)| == |multiset(rows)|;
  }

  /** Picking SectionB before SectionA lists SectionB's question first, then
      SectionA's in question-number order. */
  lemma PickOrderExample()
    ensures
      var a1 := Row("SectionA", 1, "Q1", "A1");
      var a2 := Row("SectionA", 2, "Q2", "A2");
      var b1 := Row("SectionB", 1, "Q3", "A3");
      FilterAndOrder([a1, a2, b1], ["SectionB", "SectionA"]) == [b1, a1, a2]
  {
    var a1 := Row("SectionA", 1, "Q1", "A1");
    var a2 := Row("SectionA", 2, "Q2", "A2");
    var b1 := Row("SectionB", 1, "Q3", "A3");
    var sel := ["SectionB", "SectionA"];
    ExampleKeys(a1, a2, b1, sel);
    ExampleSelect(a1, a2, b1, sel);
    ExampleSort(a1, a2, b1, sel);
  }

  /** The sort keys of the three example rows. */
  lemma ExampleKeys(a1: Row, a2: Row, b1: Row, sel: seq<string>)
    requires sel == ["SectionB", "SectionA"]
    requires a1.section == "SectionA" && a2.section == "SectionA" && b1.section == "SectionB"
    requires a1.questionNum < a2.questionNum
    ensures "SectionA" in sel && "SectionB" in sel
    ensures KeyLe(sel, a1, a2) && !KeyLe(sel, a2, b1) && !KeyLe(sel, a1, b1)
  {
    assert Position(sel, "SectionB") == 0;
    assert sel[1..] == ["SectionA"];
    assert Position(sel, "SectionA") == 1;
  }

  /** Three rows of picked sections all survive the filter, in order. */
  lemma ExampleSelect(a1: Row, a2: Row, b1: Row, sel: seq<string>)
    requires a1.section in sel && a2.section in sel && b1.section in sel
    ensures Select([a1, a2, b1], sel) == [a1, a2, b1]
  {
    var rows := [a1, a2, b1];
    assert rows[0] == a1 && rows[1] == a2 && rows[2] == b1;
    SelectKeepsPickedRows(rows, sel);
  }

  /** When every row belongs to a picked section the filter keeps the list as
      it is, loaded order included. */
  lemma {:induction false} SelectKeepsPickedRows(rows: seq<Row>, sel: seq<string>)
    requires forall i | 0 <= i < |rows| :: rows[i].section in sel
    ensures Select(rows, sel) == rows
  {
    if |rows| > 0 {
      SelectKeepsPickedRows(rows[1..], sel);
      assert rows == [rows[0]] + rows[1..];
    }
  }

  /** Insertion sort of three rows whose keys order them as third, first, second. */
  lemma ExampleSort(a1: Row, a2: Row, b1: Row, sel: seq<string>)
    requires KeyLe(sel, a1, a2) && !KeyLe(sel, a2, b1) && !KeyLe(sel, a1, b1)
    ensures SortRows(sel, [a1, a2, b1]) == [b1, a1, a2]
  {
    assert [a1, a2, b1][1..] == [a2, b1];
    assert [a2, b1][1..] == [b1];
    assert [b1][1..] == [];
    assert [b1, a2][1..] == [a2];
    assert SortRows(sel, [b1]) == [b1];
    assert SortRows(sel, [a2, b1]) == [b1, a2];
    assert Insert(sel, a1, [b1, a2]) == [b1, a1, a2];
  }
}
