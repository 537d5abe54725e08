/**
  The `Student` record of `main.py`: its fields, the display name
  `first_last` and the field picking of `from_row`.
*/
module Students {
  import opened Wrappers
  import opened Strings

  /** One student of the roster. `imageSrc` is the photo reference taken from
      the row; the lazily loaded picture is not part of the model. */
  datatype Student = Student(name: string, email: string, idNum: string, imageSrc: string)

  /** One row of a roster table as the HTML parser sees it:
      `tds`   the texts of every `td` inside the row (what the header test reads),
      `info`  the texts of the `td` cells of the nested table in the row's second
              cell (name, email, cell phone, advisors, id, class, majors),
      `photo` the `src` of the first image in the row's first cell. */
  datatype Row = Row(tds: seq<string>, info: seq<string>, photo: string)

  /** Why a data row yields no student: `info_cells[4]` is missing, or
      `split("ID: ")` gives no second piece. */
  datatype RowError = TooFewInfoCells | MissingIdLabel

  const IdLabel: string := "ID: "

  /** `Student.first_last`: `"Last, First"` becomes `"First Last"`. The tuple
      unpacking of `name.split(",")` raises unless there are exactly two
      pieces, which is `None` here. */
  function FirstLast(name: string): Option<string> {
    var parts := Split(name, ",");
    if |parts| != 2 then None
    else Some(Strip(parts[1]) + " " + Strip(parts[0]))
  }

  /** The display name exists exactly when the name holds one comma. */
  lemma FirstLastDefinedIff(name: string)
    ensures FirstLast(name).Some? <==> CountChar(name, ',') == 1
  {
    SplitCharPieces(name, ',');
  }

  /** With its one comma at index `i`, the display name is the stripped text
      after the comma, a single space, then the stripped text before it. */
  lemma FirstLastAt(name: string, i: nat)
    requires i < |name| && name[i] == ','
    requires ',' !in name[..i] && ',' !in name[i + 1..]
    ensures FirstLast(name) == Some(Strip(name[i + 1..]) + " " + Strip(name[..i]))
  {
    SplitAtOnlyComma(name, i);
  }

  lemma SplitAtOnlyComma(name: string, i: nat)
    requires i < |name| && name[i] == ','
    requires ',' !in name[..i] && ',' !in name[i + 1..]
    ensures Split(name, ",") == [name[..i], name[i + 1..]]
  {
    assert "," == [','];
    FirstCharAt(name, ',', i);
    AbsentCharNotFound(name[i + 1..], ',');
  }

  /** The field logic of `Student.from_row`: name and email are info cells 0
      and 1 unchanged, the id is the second piece of info cell 4 split on
      `"ID: "`, and the photo reference is kept as given. */
  function FromRow(row: Row): Result<Student, RowError> {
    if |row.info| < 5 then Err(TooFewInfoCells)
    else
      var pieces := Split(row.info[4], IdLabel);
      if |pieces| < 2 then Err(MissingIdLabel)
      else Ok(Student(row.info[0], row.info[1], pieces[1], row.photo))
  }

  /** A row yields a student exactly when it has at least five info cells and
      the fifth holds `"ID: "`; otherwise the error names which index fails. */
  lemma FromRowOkIff(row: Row)
    ensures FromRow(row).Ok? <==> |row.info| >= 5 && FindFirst(row.info[4], IdLabel).Some?
    ensures |row.info| < 5 ==> FromRow(row) == Err(TooFewInfoCells)
    ensures |row.info| >= 5 && FindFirst(row.info[4], IdLabel).None? ==> FromRow(row) == Err(MissingIdLabel)
  {
    if |row.info| >= 5 {
      if FindFirst(row.info[4], IdLabel).Some? {
        SplitSecondPiece(row.info[4], IdLabel);
      }
    }
  }

  /** What a student read from a row holds: name and email exactly as written,
      the photo reference of the row, and the id is the text right after the
      first `"ID: "` of info cell 4, up to the next `"ID: "` if there is one,
      not trimmed. */
  lemma FromRowFields(row: Row)
    requires FromRow(row).Ok?
    ensures var st := FromRow(row).value;
            && st.name == row.info[0] && st.email == row.info[1] && st.imageSrc == row.photo
            && FindFirst(row.info[4], IdLabel).Some?
            && var rest := row.info[4][FindFirst(row.info[4], IdLabel).value + |IdLabel|..];
               && |st.idNum| <= |rest| && st.idNum == rest[..|st.idNum|]
               && FindFirst(st.idNum, IdLabel).None?
               && (|st.idNum| == |rest| || OccursAt(rest, IdLabel, |st.idNum|))
  {
    FromRowOkIff(row);
    SplitSecondPiece(row.info[4], IdLabel);
  }
}
