/**
 * `process_qa_file` of qa_processor.py: the batch window, the added
 * `Status`/`Answer` columns, and the loop that answers every row not yet
 * completed, writing `Answer` and `Status` in place.
 *
 * The answer service is an oracle per row: `service(i)(k)` is what attempt
 * `k` for row `i` yields.
 */
module BatchProcessor {
  import opened Wrappers
  import opened CsvValidation
  import opened QnaDatabase
  import opened AnswerService

  const Pending: string := "pending"
  const Completed: string := "completed"
  const Failed: string := "error"

  /** Python's `x or d` for an optional integer: `None` and `0` both give `d`. */
  function OrDefault(x: Option<int>, d: int): (r: int)
    ensures x.None? || x.value == 0 ==> r == d
    ensures x.Some? && x.value != 0 ==> r == x.value
  {
    if x.Some? && x.value != 0 then x.value else d
  }

  function Min(a: int, b: int): int {
    if a <= b then a else b
  }

  /** The `(start_index, end_index)` pair `process_qa_file` computes from its
      optional arguments for a table of `total` rows. */
  function Window(total: nat, batchSize: Option<int>, startIndex: Option<int>, endIndex: Option<int>): (w: (int, int))
    ensures w.0 == OrDefault(startIndex, 0)
    ensures w.1 <= total
    ensures endIndex.Some? && endIndex.value != 0 ==> w.1 <= endIndex.value
    ensures batchSize.Some? && batchSize.value != 0 ==> w.1 <= w.0 + batchSize.value
    ensures w.1 == total
      || (endIndex.Some? && endIndex.value != 0 && w.1 == endIndex.value)
      || (batchSize.Some? && batchSize.value != 0 && w.1 == w.0 + batchSize.value)
  {
    var start := OrDefault(startIndex, 0);
    var end := Min(OrDefault(endIndex, total), total);
    if batchSize.Some? && batchSize.value != 0 then (start, Min(start + batchSize.value, end)) else (start, end)
  }

  /** A passed `end_index=0` counts as absent: it means "to the end". */
  lemma ZeroEndIsAbsent(total: nat, batchSize: Option<int>, startIndex: Option<int>)
    ensures Window(total, batchSize, startIndex, Some(0)) == Window(total, batchSize, startIndex, None)
    ensures batchSize.None? ==> Window(total, batchSize, startIndex, Some(0)).1 == total
  {
  }

  /** A passed `batch_size=0` counts as absent: it means "no batch limit". */
  lemma ZeroBatchIsAbsent(total: nat, startIndex: Option<int>, endIndex: Option<int>)
    ensures Window(total, Some(0), startIndex, endIndex) == Window(total, None, startIndex, endIndex)
  {
  }

  /** The frame the loop works on: `Status` set to `'pending'` when the
      column is missing, `Answer` set to `''` when that column is missing. */
  function PrepareColumns(t: Table): (rows: seq<Row>)
    ensures |rows| == |t.rows|
    ensures forall i :: 0 <= i < |rows| ==>
      && rows[i].question == t.rows[i].question
      && rows[i].status == (if t.hasStatus then t.rows[i].status else Some(Pending))
      && rows[i].answer == (if t.hasAnswer then t.rows[i].answer else Some(""))
  {
    seq(|t.rows|, i requires 0 <= i < |t.rows| =>
      Row(t.rows[i].question,
          if t.hasAnswer then t.rows[i].answer else Some(""),
          if t.hasStatus then t.rows[i].status else Some(Pending)))
  }

  predicate HasQuestions(rows: seq<Row>) {
    forall i :: 0 <= i < |rows| ==> rows[i].question.Some?
  }

  /** What one iteration of the row loop does. */
  datatype Outcome = Continue(row: Row, entries: Entries) | Abort

  /** The row after `generate_answer` returned `g`, or raised `APIError`:
      an answer (possibly `None`) is written with status completed; a
      failure changes only the status. */
  function Record(row: Row, g: Generated): (r: Row)
    requires !g.Crash?
    ensures g.Answer? ==> r == row.(answer := Some(g.text), status := Some(Completed))
    ensures g.NoAnswer? ==> r == row.(answer := None, status := Some(Completed))
    ensures g.ApiError? ==> r == row.(status := Some(Failed))
  {
    match g
    case Answer(text) => row.(answer := Some(text), status := Some(Completed))
    case NoAnswer => row.(answer := None, status := Some(Completed))
    case ApiError => row.(status := Some(Failed))
  }

  /** `generate_answer(question)` for the row at a given index: its outcome
      and the cache afterwards. */
  type Generator = (Entries, string, nat) -> (Generated, Entries)

  /** The generator of the batch: the default retry count, the cache's
      similarity test, and the service's replies for that row. */
  function Generate(similar: (string, string) -> bool, service: nat -> nat -> Reply): Generator {
    (es: Entries, question: string, i: nat) => GenerateSpec(es, question, DefaultRetryCount, similar, service(i))
  }

  /** The generator the loop uses applies `generate_answer` with row `i`'s
      replies. */
  lemma GenerateApplies(similar: (string, string) -> bool, service: nat -> nat -> Reply,
                        es: Entries, question: string, i: nat)
    ensures Generate(similar, service)(es, question, i)
      == GenerateSpec(es, question, DefaultRetryCount, similar, service(i))
  {
  }

  /** One iteration for row `i`: skip it when completed; otherwise generate
      an answer and record it, or mark the row as failed on `APIError`; any
      other exception ends the whole run. */
  function Step(row: Row, es: Entries, gen: Generator, i: nat): Outcome
    requires row.question.Some?
  {
    if row.status == Some(Completed) then Continue(row, es)
    else
      var (g, es') := gen(es, row.question.value, i);
      if g.Crash? then Abort else Continue(Record(row, g), es')
  }

  /** A completed row is left as it is, with no call to the generator; any
      other row is recorded with what the generator returned for it, unless
      that was the escaping exception. A step that does not abort handles
      its row as `Handled` says and leaves it finished. */
  lemma StepShape(row: Row, es: Entries, gen: Generator, i: nat)
    requires row.question.Some?
    ensures row.status == Some(Completed) ==> Step(row, es, gen, i) == Continue(row, es)
    ensures row.status != Some(Completed) ==>
      var (g, es') := gen(es, row.question.value, i);
      Step(row, es, gen, i) == if g.Crash? then Abort else Continue(Record(row, g), es')
    ensures Step(row, es, gen, i).Continue? ==>
      var r := Step(row, es, gen, i).row;
      && Handled(row, r) && Finished(r) && r.question == row.question
  {
  }

  /** The frame, the cache, and whether an exception escaped the loop. */
  datatype BatchState = BatchState(rows: seq<Row>, entries: Entries, aborted: bool)

  /** The row loop from row `i` on. */
  function Run(rows: seq<Row>, es: Entries, gen: Generator, i: nat): (st: BatchState)
    requires i <= |rows| && HasQuestions(rows)
    ensures |st.rows| == |rows|
    decreases |rows| - i
  {
    if i == |rows| then BatchState(rows, es, false)
    else match Step(rows[i], es, gen, i)
      case Abort => BatchState(rows, es, true)
      case Continue(r, es') => Run(rows[i := r], es', gen, i + 1)
  }

  /** A row the loop is done with: completed or failed. */
  predicate Finished(r: Row) {
    r.status == Some(Completed) || r.status == Some(Failed)
  }

  /** What the loop may do to a row: leave it alone, write its answer and
      mark it completed, or mark it failed and change nothing else. */
  predicate Handled(before: Row, after: Row) {
    || after == before
    || after == before.(answer := after.answer, status := Some(Completed))
    || after == before.(status := Some(Failed))
  }

  /** The row loop from row `i`: rows before `i` are untouched, completed
      rows are skipped, every other row is handled as `Handled` says, and a
      loop that runs to the end leaves every row from `i` on finished. */
  lemma {:induction false} RunShape(rows: seq<Row>, es: Entries, gen: Generator, i: nat)
    requires i <= |rows| && HasQuestions(rows)
    ensures var st := Run(rows, es, gen, i);
      && |st.rows| == |rows|
      && (forall j :: 0 <= j < i ==> st.rows[j] == rows[j])
      && (forall j :: i <= j < |rows| && rows[j].status == Some(Completed) ==> st.rows[j] == rows[j])
      && (forall j :: i <= j < |rows| ==> Handled(rows[j], st.rows[j]))
      && (!st.aborted ==> forall j :: i <= j < |rows| ==> Finished(st.rows[j]))
    decreases |rows| - i
  {
    if i < |rows| {
      match Step(rows[i], es, gen, i)
      case Abort =>
      case Continue(r, es') =>
        StepShape(rows[i], es, gen, i);
        RunShape(rows[i := r], es', gen, i + 1);
    }
  }

  /** The cache when the loop reaches row `j`, having started at row `i`. */
  function CacheAt(rows: seq<Row>, es: Entries, gen: Generator, i: nat, j: nat): Entries
    requires i <= j <= |rows| && HasQuestions(rows)
    decreases j - i
  {
    if i == j then es
    else match Step(rows[i], es, gen, i)
      case Abort => es
      case Continue(r, es') => CacheAt(rows[i := r], es', gen, i + 1, j)
  }

  /** A loop that runs to the end leaves each row from `i` on as one step
      made it, given that row as read and the cache as it was when the loop
      reached it; the cache after that step is the one the next row sees.
      With `StepShape` and `Record` this pins each row's new answer and
      status. */
  lemma {:induction false} RunRows(rows: seq<Row>, es: Entries, gen: Generator, i: nat)
    requires i <= |rows| && HasQuestions(rows)
    ensures !Run(rows, es, gen, i).aborted ==> forall j :: i <= j < |rows| ==>
      Step(rows[j], CacheAt(rows, es, gen, i, j), gen, j)
        == Continue(Run(rows, es, gen, i).rows[j], CacheAt(rows, es, gen, i, j + 1))
    decreases |rows| - i
  {
    if i < |rows| {
      match Step(rows[i], es, gen, i)
      case Abort =>
      case Continue(r, es') =>
        var next := rows[i := r];
        StepShape(rows[i], es, gen, i);
        RunRows(next, es', gen, i + 1);
        RunShape(next, es', gen, i + 1);
        forall j | i < j <= |rows| ensures CacheAt(rows, es, gen, i, j) == CacheAt(next, es', gen, i + 1, j) {
        }
        assert CacheAt(rows, es, gen, i, i) == es;
        assert forall j :: i < j < |rows| ==> next[j] == rows[j];
    }
  }

  /** Number of rows whose `Status` is `s`. */
  function CountStatus(rows: seq<Row>, s: string): (n: nat)
    ensures n <= |rows|
  {
    if rows == [] then 0
    else (if rows[0].status == Some(s) then 1 else 0) + CountStatus(rows[1..], s)
  }

  /** When every row is finished, the completed and the failed rows add up
      to all rows. */
  lemma {:induction false} FinishedCounts(rows: seq<Row>)
    requires forall j :: 0 <= j < |rows| ==> Finished(rows[j])
    ensures CountStatus(rows, Completed) + CountStatus(rows, Failed) == |rows|
  {
    if rows != [] {
      assert Finished(rows[0]);
      FinishedCounts(rows[1..]);
    }
  }

  /** The retry loop ends with the escaping exception exactly when its last
      request got a reply without an `answer`. */
  lemma RetryCrash(service: nat -> Reply, retryCount: nat)
    ensures var (g, m) := Retry(service, retryCount, 0);
      g == Crash <==> 0 < m && service(m - 1).MissingAnswer?
  {
    if retryCount > 0 {
      RetryFrom(service, retryCount, 0);
    }
  }

  /** A generator that never raises anything but `APIError` lets the loop
      visit every row. */
  lemma {:induction false} NeverAborts(rows: seq<Row>, es: Entries, gen: Generator, i: nat)
    requires i <= |rows| && HasQuestions(rows)
    requires forall es: Entries, q: string, k: nat :: !gen(es, q, k).0.Crash?
    ensures !Run(rows, es, gen, i).aborted
    decreases |rows| - i
  {
    if i < |rows| {
      match Step(rows[i], es, gen, i)
      case Abort =>
      case Continue(r, es') =>
        NeverAborts(rows[i := r], es', gen, i + 1);
    }
  }

  /** One row's failure never ends the batch: as long as the service never
      answers without an `answer` field, the loop visits every row. */
  lemma NoMissingAnswerNeverAborts(rows: seq<Row>, es: Entries, similar: (string, string) -> bool,
                                   service: nat -> nat -> Reply)
    requires HasQuestions(rows)
    requires forall r: nat, k: nat :: !service(r)(k).MissingAnswer?
    ensures !Run(rows, es, Generate(similar, service), 0).aborted
  {
    var gen := Generate(similar, service);
    forall es: Entries, q: string, k: nat ensures !gen(es, q, k).0.Crash? {
      RetryCrash(service(k), DefaultRetryCount);
    }
    NeverAborts(rows, es, gen, 0);
  }

  /** One turn of the loop over a completed row. */
  lemma RunSkips(rows: seq<Row>, es: Entries, gen: Generator, i: nat)
    requires i < |rows| && HasQuestions(rows) && rows[i].status == Some(Completed)
    ensures Run(rows, es, gen, i) == Run(rows, es, gen, i + 1)
  {
    assert rows[i := rows[i]] == rows;
  }

  /** One turn of the loop whose generator call let the exception escape. */
  lemma RunAborts(rows: seq<Row>, es: Entries, gen: Generator, i: nat, g: Generated, es': Entries)
    requires i < |rows| && HasQuestions(rows) && rows[i].status != Some(Completed)
    requires gen(es, rows[i].question.value, i) == (g, es') && g.Crash?
    ensures Run(rows, es, gen, i) == BatchState(rows, es, true)
  {
  }

  /** One turn of the loop that records the generator's outcome. */
  lemma RunRecords(rows: seq<Row>, es: Entries, gen: Generator, i: nat, g: Generated, es': Entries)
    requires i < |rows| && HasQuestions(rows) && rows[i].status != Some(Completed)
    requires gen(es, rows[i].question.value, i) == (g, es') && !g.Crash?
    ensures HasQuestions(rows[i := Record(rows[i], g)])
    ensures Run(rows, es, gen, i) == Run(rows[i := Record(rows[i], g)], es', gen, i + 1)
  {
  }

  /** One turn of the loop over a row that is not completed: generate its
      answer and record it in place, unless an exception other than
      `APIError` escaped. */
  method ProcessRow(frame: array<Row>, db: QnaStore, similar: (string, string) -> bool,
                    service: nat -> nat -> Reply, i: nat) returns (aborted: bool)
    requires db.Valid() && HasQuestions(frame[..])
    requires i < frame.Length && frame[i].status != Some(Completed)
    modifies frame, db
    ensures db.Valid() && HasQuestions(frame[..])
    ensures Run(old(frame[..]), old(db.entries), Generate(similar, service), i)
      == if aborted then BatchState(frame[..], db.entries, true)
         else Run(frame[..], db.entries, Generate(similar, service), i + 1)
  {
    ghost var gen := Generate(similar, service);
    ghost var before, es := frame[..], db.entries;
    var row := frame[i];
    var g, attempts, waits := GenerateAnswer(db, row.question.value, DefaultRetryCount, similar, service(i));
    GenerateApplies(similar, service, es, row.question.value, i);
    if g.Crash? {
      RunAborts(before, es, gen, i, g, db.entries);
      return true;
    }
    RunRecords(before, es, gen, i, g, db.entries);
    frame[i] := Record(row, g);
    assert frame[..] == before[i := Record(row, g)];
    return false;
  }

  /** The `for index, row in df.iterrows()` loop over the frame, with the
      cache as `db`. It returns whether an exception other than `APIError`
      escaped. */
  method ProcessRows(frame: array<Row>, db: QnaStore, similar: (string, string) -> bool,
                     service: nat -> nat -> Reply) returns (aborted: bool)
    requires db.Valid() && HasQuestions(frame[..])
    modifies frame, db
    ensures db.Valid()
    ensures Run(old(frame[..]), old(db.entries), Generate(similar, service), 0)
      == BatchState(frame[..], db.entries, aborted)
  {
    ghost var gen := Generate(similar, service);
    var i := 0;
    while i < frame.Length
      invariant 0 <= i <= frame.Length
      invariant db.Valid() && HasQuestions(frame[..])
      invariant Run(old(frame[..]), old(db.entries), gen, 0) == Run(frame[..], db.entries, gen, i)
    {
      if frame[i].status == Some(Completed) {
        RunSkips(frame[..], db.entries, gen, i);
      } else {
        aborted := ProcessRow(frame, db, similar, service, i);
        if aborted {
          return;
        }
      }
      i := i + 1;
    }
    return false;
  }

  /** `process_qa_file(file_path, batch_size, start_index, end_index)` after
      the health check (`serverUp`): validation, the window (computed and
      then not used), the new columns, the row loop and the summary counts.
      `ok` is its return value; `rows` is the final frame. */
  method ProcessQaFile(serverUp: bool, path: string, present: bool, read: ReadResult,
                       batchSize: Option<int>, startIndex: Option<int>, endIndex: Option<int>,
                       db: QnaStore, similar: (string, string) -> bool, service: nat -> nat -> Reply)
    returns (ok: bool, rows: seq<Row>, completed: nat, errors: nat)
    requires db.Valid()
    modifies db
    ensures db.Valid()
    ensures ok <==> (serverUp && Validate(path, present, read).Ok?
      && !Run(PrepareColumns(read.table), old(db.entries), Generate(similar, service), 0).aborted)
    ensures ok ==> (rows == Run(PrepareColumns(read.table), old(db.entries), Generate(similar, service), 0).rows
      && completed == CountStatus(rows, Completed) && errors == CountStatus(rows, Failed)
      && completed + errors == |read.table.rows|)
    ensures serverUp && Validate(path, present, read).Ok? ==>
      db.entries == Run(PrepareColumns(read.table), old(db.entries), Generate(similar, service), 0).entries
    ensures !(serverUp && Validate(path, present, read).Ok?) ==> db.entries == old(db.entries)
  {
    rows, completed, errors := [], 0, 0;
    if !serverUp {
      return false, rows, completed, errors;
    }
    var checked := Validate(path, present, read);
    if checked.Err? {
      return false, rows, completed, errors;
    }
    ValidateOk(path, present, read);
    var t := checked.value;
    var window := Window(|t.rows|, batchSize, startIndex, endIndex);
    var prepared := PrepareColumns(t);
    var frame := new Row[|prepared|](i requires 0 <= i < |prepared| => prepared[i]);
    assert frame[..] == prepared;
    var aborted := ProcessRows(frame, db, similar, service);
    if aborted {
      return false, rows, completed, errors;
    }
    rows := frame[..];
    RunShape(prepared, old(db.entries), Generate(similar, service), 0);
    FinishedCounts(rows);
    completed, errors := CountStatus(rows, Completed), CountStatus(rows, Failed);
    ok := true;
  }
}
