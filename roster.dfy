/**
  The roster loading of the `__main__` block of `main.py`: every `tbody` of the
  document, in document order, is a table; a table whose header row has two
  cells, the second reading "Student Information" once stripped, contributes
  one student per further row, in order. The first failure aborts the load.
*/
module Roster {
  import opened Wrappers
  import opened Strings
  import opened Students

  /** The rows (`tr` children) of one `tbody`. */
  type Table = seq<Row>

  /** Why loading stops: a `tbody` without rows (`rows[0]` raises), or a data
      row of a qualifying table that `from_row` cannot read. */
  datatype ParseError = EmptyTable | BadRow(reason: RowError)

  const SectionLabel: string := "Student Information"

  /** The header test: exactly two cells, the second one's stripped text being
      the section label. */
  predicate Qualifies(header: Row) {
    |header.tds| == 2 && Strip(header.tds[1]) == SectionLabel
  }

  /** One student per row, appended in row order; the first bad row stops. */
  function RowsStudents(rows: seq<Row>): Result<seq<Student>, ParseError> {
    if |rows| == 0 then Ok([])
    else
      match RowsStudents(rows[..|rows| - 1])
      case Err(e) => Err(e)
      case Ok(s) =>
        match FromRow(rows[|rows| - 1])
        case Err(e) => Err(BadRow(e))
        case Ok(st) => Ok(s + [st])
  }

  /** What one table contributes. */
  function TableStudents(t: Table): Result<seq<Student>, ParseError> {
    if |t| == 0 then Err(EmptyTable)
    else if !Qualifies(t[0]) then Ok([])
    else RowsStudents(t[1..])
  }

  /** The students of the whole document, table after table. */
  function Roster(doc: seq<Table>): Result<seq<Student>, ParseError> {
    if |doc| == 0 then Ok([])
    else
      match Roster(doc[..|doc| - 1])
      case Err(e) => Err(e)
      case Ok(s) =>
        match TableStudents(doc[|doc| - 1])
        case Err(e) => Err(e)
        case Ok(t) => Ok(s + t)
  }

  /** Two loads one after the other: the first error wins, otherwise the
      students are concatenated. */
  function Then(a: Result<seq<Student>, ParseError>, b: Result<seq<Student>, ParseError>): Result<seq<Student>, ParseError> {
    match a
    case Err(e) => Err(e)
    case Ok(x) =>
      match b
      case Err(e) => Err(e)
      case Ok(y) => Ok(x + y)
  }

  /** All rows are read exactly when each of them is, and then the i-th
      student is the one read from the i-th row. */
  lemma {:induction false} RowsStudentsSpec(rows: seq<Row>)
    ensures RowsStudents(rows).Ok? <==> forall j :: 0 <= j < |rows| ==> FromRow(rows[j]).Ok?
    ensures RowsStudents(rows).Ok? ==>
              |RowsStudents(rows).value| == |rows|
              && forall j :: 0 <= j < |rows| ==> FromRow(rows[j]) == Ok(RowsStudents(rows).value[j])
  {
    if |rows| > 0 {
      var init := rows[..|rows| - 1];
      RowsStudentsSpec(init);
      assert forall j :: 0 <= j < |init| ==> init[j] == rows[j];
    }
  }

  /** A table whose header does not qualify contributes no students. */
  lemma NonQualifyingTable(t: Table)
    requires |t| > 0 && !Qualifies(t[0])
    ensures TableStudents(t) == Ok([])
  {
  }

  /** A qualifying table is read exactly when every row after the header is,
      and then yields one student per such row, in row order. */
  lemma QualifyingTable(t: Table)
    requires |t| > 0 && Qualifies(t[0])
    ensures TableStudents(t).Ok? <==> forall j :: 1 <= j < |t| ==> FromRow(t[j]).Ok?
    ensures TableStudents(t).Ok? ==>
              |TableStudents(t).value| == |t| - 1
              && forall j :: 1 <= j < |t| ==> FromRow(t[j]) == Ok(TableStudents(t).value[j - 1])
  {
    RowsStudentsSpec(t[1..]);
    assert forall j :: 1 <= j < |t| ==> t[1..][j - 1] == t[j];
  }

  /** Loading a document made of two parts is loading the first, then the
      second: table order is kept across tables. */
  lemma {:induction false} RosterAppend(a: seq<Table>, b: seq<Table>)
    ensures Roster(a + b) == Then(Roster(a), Roster(b))
  {
    if |b| == 0 {
      assert a + b == a;
      ThenOkEmpty(Roster(a));
    } else {
      var b' := b[..|b| - 1];
      var last := b[|b| - 1];
      assert (a + b)[..|a + b| - 1] == a + b';
      assert (a + b)[|a + b| - 1] == last;
      RosterStep(a + b);
      RosterStep(b);
      RosterAppend(a, b');
      ThenAssoc(Roster(a), Roster(b'), TableStudents(last));
    }
  }

  lemma RosterStep(doc: seq<Table>)
    requires |doc| > 0
    ensures Roster(doc) == Then(Roster(doc[..|doc| - 1]), TableStudents(doc[|doc| - 1]))
  {
  }

  lemma ThenOkEmpty(a: Result<seq<Student>, ParseError>)
    ensures Then(a, Ok([])) == a
  {
    if a.Ok? {
      assert a.value + [] == a.value;
    }
  }

  lemma ThenAssoc(a: Result<seq<Student>, ParseError>, b: Result<seq<Student>, ParseError>, c: Result<seq<Student>, ParseError>)
    ensures Then(Then(a, b), c) == Then(a, Then(b, c))
  {
    if a.Ok? && b.Ok? && c.Ok? {
      assert a.value + b.value + c.value == a.value + (b.value + c.value);
    }
  }

  /** The document loads exactly when every one of its tables does. */
  lemma {:induction false} RosterOkIff(doc: seq<Table>)
    ensures Roster(doc).Ok? <==> forall i :: 0 <= i < |doc| ==> TableStudents(doc[i]).Ok?
  {
    if |doc| > 0 {
      var init := doc[..|doc| - 1];
      RosterOkIff(init);
      assert forall i :: 0 <= i < |init| ==> init[i] == doc[i];
    }
  }

  lemma {:induction false} RowsErrorPropagates(rows: seq<Row>, n: nat, e: ParseError)
    requires n <= |rows| && RowsStudents(rows[..n]) == Err(e)
    ensures RowsStudents(rows) == Err(e)
    decreases |rows| - n
  {
    if n < |rows| {
      assert rows[..n + 1][..n] == rows[..n];
      RowsErrorPropagates(rows, n + 1, e);
    } else {
      assert rows[..n] == rows;
    }
  }

  lemma {:induction false} RosterErrorPropagates(doc: seq<Table>, n: nat, e: ParseError)
    requires n <= |doc| && Roster(doc[..n]) == Err(e)
    ensures Roster(doc) == Err(e)
    decreases |doc| - n
  {
    if n < |doc| {
      assert doc[..n + 1][..n] == doc[..n];
      RosterErrorPropagates(doc, n + 1, e);
    } else {
      assert doc[..n] == doc;
    }
  }

  lemma RowsSnoc(rows: seq<Row>, n: nat)
    requires n < |rows|
    ensures RowsStudents(rows[..n + 1]) ==
              match RowsStudents(rows[..n])
              case Err(e) => Err(e)
              case Ok(s) =>
                match FromRow(rows[n])
                case Err(e) => Err(BadRow(e))
                case Ok(st) => Ok(s + [st])
  {
    assert rows[..n + 1][..n] == rows[..n];
  }

  /** The loop of the `__main__` block, over tables and then over the rows of
      each qualifying table, appending each student read. */
  method LoadRoster(doc: seq<Table>) returns (r: Result<seq<Student>, ParseError>)
    ensures r == Roster(doc)
  {
    var students: seq<Student> := [];
    var i := 0;
    while i < |doc|
      invariant 0 <= i <= |doc|
      invariant Roster(doc[..i]) == Ok(students)
    {
      assert doc[..i + 1][..i] == doc[..i];
      assert doc[..i + 1][i] == doc[i];
      var rows := doc[i];
      if |rows| == 0 {
        RosterErrorPropagates(doc, i + 1, EmptyTable);
        return Err(EmptyTable);
      }
      if |rows[0].tds| == 2 && Strip(rows[0].tds[1]) == SectionLabel {
        var data := rows[1..];
        ghost var before := students;
        var j := 0;
        while j < |data|
          invariant 0 <= j <= |data|
          invariant RowsStudents(data[..j]).Ok?
          invariant students == before + RowsStudents(data[..j]).value
        {
          RowsSnoc(data, j);
          var student := FromRow(data[j]);
          if student.Err? {
            RowsErrorPropagates(data, j + 1, BadRow(student.error));
            RosterErrorPropagates(doc, i + 1, BadRow(student.error));
            return Err(BadRow(student.error));
          }
          students := students + [student.value];
          j := j + 1;
        }
        assert data[..j] == data;
      } else {
        assert students + [] == students;
      }
      i := i + 1;
    }
    assert doc[..i] == doc;
    r := Ok(students);
  }
}
