/**
 * The `CSVManager` of public/js/csv-manager.js: the client's pending batch
 * `processedData`, the status line, and the handlers that process a file,
 * edit one answer, commit the batch and download it as CSV.
 *
 * The `fetch` round trips are inputs: what the server answered, or the
 * message of the error thrown on the way. The DOM is reduced to the status
 * line and the commit button's `disabled` flag.
 */
module CsvManagement {
  import opened Wrappers
  import opened CsvExport

  /** What `showStatus(message, type)` leaves on the page; `isError` is the
      `'error'` type, shown as `alert-danger`. */
  datatype Status = Status(message: string, isError: bool)

  /** How the `POST /process-csv` round trip ends: a thrown error (network
      failure, or a body that is not JSON) with its message; a response
      whose `ok` is false; or a JSON body. */
  datatype ProcessResponse =
    | ProcessThrew(message: string)
    | ProcessNotOk
    | ProcessBody(success: bool, data: seq<ProcessedRow>)

  /** How the `POST /commit-csv` round trip ends. */
  datatype CommitResponse = CommitThrew(message: string) | CommitNotOk | CommitBody(success: bool)

  const SelectFile: string := "Please select a CSV file"
  const ProcessDone: string := "Processing complete! Review the answers before committing."
  const ProcessFailed: string := "Failed to process CSV"
  const AnswerUpdated: string := "Answer updated"
  const NothingToCommit: string := "No processed data to commit"
  const Committed: string := "Successfully added to library!"
  const CommitFailed: string := "Failed to commit to library"
  const NothingToDownload: string := "No processed data to download"

  /** The status and the new data after `processCSV` received `response`:
      the data is replaced only by a successful body. */
  function ProcessOutcome(old_data: Option<seq<ProcessedRow>>, old_status: Option<Status>,
                          response: ProcessResponse): (r: (Option<seq<ProcessedRow>>, Option<Status>))
    ensures r.0 != old_data ==> response.ProcessBody? && response.success && r.0 == Some(response.data)
    ensures response.ProcessBody? && response.success ==> r == (Some(response.data), Some(Status(ProcessDone, false)))
    ensures r.1 != old_status ==> r.1.Some?
    ensures r.1.Some? && r.1.value.isError <==>
      !response.ProcessBody? || (old_status.Some? && old_status.value.isError && !response.success)
  {
    match response
    case ProcessThrew(message) => (old_data, Some(Status("Error processing CSV: " + message, true)))
    case ProcessNotOk => (old_data, Some(Status("Error processing CSV: " + ProcessFailed, true)))
    case ProcessBody(success, data) =>
      if success then (Some(data), Some(Status(ProcessDone, false))) else (old_data, old_status)
  }

  /** The status after `commitToLibrary` sent a batch and got `response`. */
  function CommitOutcome(old_status: Option<Status>, response: CommitResponse): (r: Option<Status>)
    ensures response == CommitBody(true) ==> r == Some(Status(Committed, false))
    ensures response.CommitBody? && !response.success ==> r == old_status
    ensures !response.CommitBody? ==> r.Some? && r.value.isError
  {
    match response
    case CommitThrew(message) => Some(Status("Error committing to library: " + message, true))
    case CommitNotOk => Some(Status("Error committing to library: " + CommitFailed, true))
    case CommitBody(success) => if success then Some(Status(Committed, false)) else old_status
  }

  /** `processedData` with the answer of row `index` replaced. */
  function WithAnswer(data: seq<ProcessedRow>, index: nat, answer: string): (d: seq<ProcessedRow>)
    requires index < |data|
    ensures |d| == |data|
    ensures d[index] == ProcessedRow(data[index].question, answer)
    ensures forall i :: 0 <= i < |data| && i != index ==> d[i] == data[i]
  {
    data[index := data[index].(answer := answer)]
  }

  /** Editing a row and then editing it back restores the batch. */
  lemma EditBack(data: seq<ProcessedRow>, index: nat, answer: string)
    requires index < |data|
    ensures WithAnswer(WithAnswer(data, index, answer), index, data[index].answer) == data
  {
  }

  /** Only the edited row's answer reaches the download. */
  lemma EditedDownload(data: seq<ProcessedRow>, index: nat, answer: string)
    requires index < |data|
    ensures ParseRecords(ConvertToCsv(WithAnswer(data, index, answer))) == Some(Records(WithAnswer(data, index, answer)))
    ensures Records(WithAnswer(data, index, answer))[index + 1] == [data[index].question, answer]
  {
    ConvertRoundTrip(WithAnswer(data, index, answer));
  }

  class CsvManager {
    /** `this.processedData`: `None` is `null`. */
    var processedData: Option<seq<ProcessedRow>>
    /** The status line, `None` before any message. */
    var status: Option<Status>
    /** `commitBtn.disabled`. */
    var commitDisabled: bool

    /** `new CSVManager()`; the commit button starts as the page has it. */
    constructor(commitDisabled: bool)
      ensures processedData == None && status == None
      ensures this.commitDisabled == commitDisabled
    {
      processedData := None;
      status := None;
      this.commitDisabled := commitDisabled;
    }

    /** `processCSV()`. `fileSelected` says whether the file input holds a
        file; `requested` says whether the request was sent. Without a file
        nothing is sent and only the status changes; otherwise the data is
        replaced only when the body reports success, which also enables the
        commit button. */
    method ProcessCsv(fileSelected: bool, response: ProcessResponse) returns (requested: bool)
      modifies this
      ensures requested == fileSelected
      ensures !fileSelected ==> (processedData == old(processedData)
        && status == Some(Status(SelectFile, true)) && commitDisabled == old(commitDisabled))
      ensures fileSelected ==> (processedData, status) == ProcessOutcome(old(processedData), old(status), response)
      ensures commitDisabled == if fileSelected && response.ProcessBody? && response.success then false
                                else old(commitDisabled)
    {
      if !fileSelected {
        status := Some(Status(SelectFile, true));
        return false;
      }
      requested := true;
      match response
      case ProcessThrew(message) =>
        status := Some(Status("Error processing CSV: " + message, true));
      case ProcessNotOk =>
        status := Some(Status("Error processing CSV: " + ProcessFailed, true));
      case ProcessBody(success, data) =>
        if success {
          processedData := Some(data);
          commitDisabled := false;
          status := Some(Status(ProcessDone, false));
        }
    }

    /** The Save Edit handler for the row at `index`: that row's answer
        becomes the textarea's text and nothing else in the batch changes.
        The buttons exist only for rendered rows, hence the precondition. */
    method SaveEdit(index: nat, newAnswer: string)
      requires processedData.Some? && index < |processedData.value|
      modifies this
      ensures processedData == Some(WithAnswer(old(processedData.value), index, newAnswer))
      ensures status == Some(Status(AnswerUpdated, false))
      ensures commitDisabled == old(commitDisabled)
    {
      var data := processedData.value;
      processedData := Some(data[index := data[index].(answer := newAnswer)]);
      status := Some(Status(AnswerUpdated, false));
    }

    /** `commitToLibrary()`. `requested` says whether the batch was sent. */
    method CommitToLibrary(response: CommitResponse) returns (requested: bool)
      modifies this
      ensures requested <==> old(processedData).Some?
      ensures processedData == old(processedData)
      ensures old(processedData).None? ==> (status == Some(Status(NothingToCommit, true))
        && commitDisabled == old(commitDisabled))
      ensures old(processedData).Some? ==> (status == CommitOutcome(old(status), response)
        && commitDisabled == (response == CommitBody(true) || old(commitDisabled)))
    {
      if processedData.None? {
        status := Some(Status(NothingToCommit, true));
        return false;
      }
      requested := true;
      match response
      case CommitThrew(message) =>
        status := Some(Status("Error committing to library: " + message, true));
      case CommitNotOk =>
        status := Some(Status("Error committing to library: " + CommitFailed, true));
      case CommitBody(success) =>
        if success {
          status := Some(Status(Committed, false));
          commitDisabled := true;
        }
    }

    /** `downloadProcessedCSV()`: the text of `processed_questions.csv`, or
        the error status when there is no batch. */
    method DownloadProcessedCsv() returns (csv: Option<string>)
      modifies this
      ensures processedData == old(processedData) && commitDisabled == old(commitDisabled)
      ensures csv.None? <==> processedData.None?
      ensures csv.Some? ==> csv.value == ConvertToCsv(processedData.value) && status == old(status)
      ensures csv.None? ==> status == Some(Status(NothingToDownload, true))
    {
      if processedData.None? {
        status := Some(Status(NothingToDownload, true));
        return None;
      }
      return Some(ConvertToCsv(processedData.value));
    }
  }
}
