/**
 * `validate_csv` of qa_processor.py. The file system and the pandas parser
 * are inputs: whether the path exists, and what `pd.read_csv` produced
 * (a table, or one of the exceptions it raises).
 */
module CsvValidation {
  import opened Wrappers
  import opened Text

  /** One row of the data frame. `None` is a missing value (`NaN`), which is
      also what `read_csv` makes of an empty field. */
  datatype Row = Row(question: Option<string>, answer: Option<string>, status: Option<string>)

  /** The columns the processor looks at, and the rows. */
  datatype Table = Table(hasQuestion: bool, hasAnswer: bool, hasStatus: bool, rows: seq<Row>)

  /** What `pd.read_csv(file_path)` does: returns a table, or raises
      `EmptyDataError`, `ParserError` or another exception with a message. */
  datatype ReadResult = Parsed(table: Table) | EmptyData | ParseFailure | ReadFailed(message: string)

  /** The failures `validate_csv` reports, in the order it checks for them. */
  datatype ValidationError =
    | FileNotFound(path: string)
    | NotCsv
    | EmptyFile
    | InvalidFormat
    | Unreadable(message: string)
    | MissingQuestionColumn
    | EmptyQuestions(count: nat)
    | DuplicateQuestions(count: nat)

  /** The message `validate_csv` returns for each failure. */
  function Message(e: ValidationError): string
  {
    match e
    case FileNotFound(path) => "File not found: " + path
    case NotCsv => "File must be a CSV file"
    case EmptyFile => "The CSV file is empty"
    case InvalidFormat => "Invalid CSV format"
    case Unreadable(message) => message
    case MissingQuestionColumn => "CSV must contain 'Question' column"
    case EmptyQuestions(n) => "Found " + NatToString(n) + " empty questions in the CSV"
    case DuplicateQuestions(n) => "Found " + NatToString(n) + " duplicate questions in the CSV"
  }

  /** `df['Question'].isna().sum()`. */
  function MissingCount(rows: seq<Row>): (n: nat)
    ensures n <= |rows|
    ensures n == 0 <==> forall i :: 0 <= i < |rows| ==> rows[i].question.Some?
  {
    if rows == [] then 0
    else (if rows[0].question.None? then 1 else 0) + MissingCount(rows[1..])
  }

  /** The questions, in row order, once none is missing. */
  function Questions(rows: seq<Row>): (qs: seq<string>)
    requires forall i :: 0 <= i < |rows| ==> rows[i].question.Some?
    ensures |qs| == |rows|
    ensures forall i :: 0 <= i < |rows| ==> qs[i] == rows[i].question.value
  {
    seq(|rows|, i requires 0 <= i < |rows| => rows[i].question.value)
  }

  /** `Series.duplicated().sum()`: the number of entries equal to an earlier
      entry. */
  function DuplicateCount(xs: seq<string>): nat {
    if xs == [] then 0
    else
      var init := xs[..|xs| - 1];
      DuplicateCount(init) + (if xs[|xs| - 1] in init then 1 else 0)
  }

  /** `validate_csv(file_path)`: the table, or the first check that fails. */
  function Validate(path: string, present: bool, read: ReadResult): Result<Table, ValidationError> {
    if !present then Err(FileNotFound(path))
    else if !EndsWith(Lower(path), ".csv") then Err(NotCsv)
    else match read
      case EmptyData => Err(EmptyFile)
      case ParseFailure => Err(InvalidFormat)
      case ReadFailed(message) => Err(Unreadable(message))
      case Parsed(t) =>
        if !t.hasQuestion then Err(MissingQuestionColumn)
        else if MissingCount(t.rows) > 0 then Err(EmptyQuestions(MissingCount(t.rows)))
        else if DuplicateCount(Questions(t.rows)) > 0 then Err(DuplicateQuestions(DuplicateCount(Questions(t.rows))))
        else Ok(t)
  }

  /** The questions as a set. */
  function Distinct(xs: seq<string>): set<string> {
    set x | x in xs
  }

  /** The duplicate count is the number of entries less the number of
      distinct entries. */
  lemma {:induction false} DuplicateCountDistinct(xs: seq<string>)
    ensures DuplicateCount(xs) + |Distinct(xs)| == |xs|
  {
    if xs != [] {
      var init, x := xs[..|xs| - 1], xs[|xs| - 1];
      DuplicateCountDistinct(init);
      assert xs == init + [x];
      assert Distinct(xs) == Distinct(init) + {x};
    }
  }

  /** No duplicates are reported exactly when all questions differ. */
  lemma {:induction false} NoDuplicatesIff(xs: seq<string>)
    ensures DuplicateCount(xs) == 0 <==> forall i, j :: 0 <= i < j < |xs| ==> xs[i] != xs[j]
  {
    if xs != [] {
      var init, x := xs[..|xs| - 1], xs[|xs| - 1];
      NoDuplicatesIff(init);
      if DuplicateCount(xs) == 0 {
        forall i, j | 0 <= i < j < |xs| ensures xs[i] != xs[j] {
          if j < |xs| - 1 {
            assert xs[i] == init[i] && xs[j] == init[j];
          } else {
            assert xs[i] == init[i];
          }
        }
      } else if x in init {
        var i :| 0 <= i < |init| && init[i] == x;
        assert xs[i] == xs[|xs| - 1];
      } else {
        var i, j :| 0 <= i < j < |init| && init[i] == init[j];
        assert xs[i] == xs[j];
      }
    }
  }

  /** The checks come in a fixed order and the first failing one decides:
      the table is accepted exactly when every check passes. */
  lemma ValidateOk(path: string, present: bool, read: ReadResult)
    ensures Validate(path, present, read).Ok? <==>
      && present
      && EndsWith(Lower(path), ".csv")
      && read.Parsed?
      && read.table.hasQuestion
      && (forall i :: 0 <= i < |read.table.rows| ==> read.table.rows[i].question.Some?)
      && (forall i, j :: 0 <= i < j < |read.table.rows| ==>
            read.table.rows[i].question.value != read.table.rows[j].question.value)
    ensures Validate(path, present, read).Ok? ==> Validate(path, present, read).value == read.table
  {
    if present && EndsWith(Lower(path), ".csv") && read.Parsed? && read.table.hasQuestion && MissingCount(read.table.rows) == 0 {
      var qs := Questions(read.table.rows);
      NoDuplicatesIff(qs);
    }
  }

  /** Each check is reached only when the checks before it passed, and the
      first one that fails is the error. */
  lemma ValidateOrder(path: string, present: bool, read: ReadResult)
    ensures Validate(path, present, read) == Err(FileNotFound(path)) <==> !present
    ensures Validate(path, present, read) == Err(NotCsv) <==> present && !EndsWith(Lower(path), ".csv")
    ensures Validate(path, present, read) == Err(EmptyFile) <==>
      present && EndsWith(Lower(path), ".csv") && read.EmptyData?
    ensures Validate(path, present, read) == Err(InvalidFormat) <==>
      present && EndsWith(Lower(path), ".csv") && read.ParseFailure?
    ensures present && EndsWith(Lower(path), ".csv") && read.ReadFailed? ==>
      Validate(path, present, read) == Err(Unreadable(read.message))
    ensures Validate(path, present, read).Err? && Validate(path, present, read).error.MissingQuestionColumn? <==>
      present && EndsWith(Lower(path), ".csv") && read.Parsed? && !read.table.hasQuestion
    ensures Validate(path, present, read).Err? && Validate(path, present, read).error.EmptyQuestions? <==>
      present && EndsWith(Lower(path), ".csv") && read.Parsed? && read.table.hasQuestion
      && exists i :: 0 <= i < |read.table.rows| && read.table.rows[i].question.None?
    ensures Validate(path, present, read).Err? && Validate(path, present, read).error.DuplicateQuestions? <==>
      present && EndsWith(Lower(path), ".csv") && read.Parsed? && read.table.hasQuestion
      && (forall i :: 0 <= i < |read.table.rows| ==> read.table.rows[i].question.Some?)
      && exists i, j :: 0 <= i < j < |read.table.rows| &&
           read.table.rows[i].question.value == read.table.rows[j].question.value
    ensures Validate(path, present, read).Err? && Validate(path, present, read).error.DuplicateQuestions? ==>
      Validate(path, present, read).error.count + |Distinct(Questions(read.table.rows))| == |read.table.rows|
  {
    if present && EndsWith(Lower(path), ".csv") && read.Parsed? && read.table.hasQuestion && MissingCount(read.table.rows) == 0 {
      var qs := Questions(read.table.rows);
      DuplicateCountDistinct(qs);
      NoDuplicatesIff(qs);
    }
  }

  /** The extension check ignores case and looks at the last four
      characters only: a path passes exactly when it ends in a dot followed
      by `c`, `s` and `v`, each in either case. */
  lemma ExtensionCheck(path: string)
    ensures EndsWith(Lower(path), ".csv") <==>
      |path| >= 4 && path[|path| - 4] == '.' && path[|path| - 3] in "cC"
      && path[|path| - 2] in "sS" && path[|path| - 1] in "vV"
  {
    var n := |path|;
    if n >= 4 {
      var l := Lower(path);
      assert l[n - 4..] == [l[n - 4], l[n - 3], l[n - 2], l[n - 1]];
    }
  }
}

