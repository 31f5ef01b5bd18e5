/**
 The upload page of the web client: it accepts a CV and a job description
 as PDF files, sends them for evaluation, and appends each report it gets
 back to the shared history.
 */
module Evaluator {
  import opened Wrappers
  import opened Report
  import opened Dashboard

  /** The browser's `File`: name, MIME type and size in bytes. */
  datatype File = File(name: string, mimeType: string, size: int)

  /** Which drop zone or file input the file came from (`type` is 'cv' or 'jd'). */
  datatype Slot = CvSlot | JobSlot

  /** The component's state: the two chosen files, the last report, the busy flag and the error banner. */
  datatype PageState = PageState(
    cvFile: Option<File>,
    jobFile: Option<File>,
    report: Option<MatchReport>,
    isEvaluating: bool,
    error: Option<string>)

  const PdfType := "application/pdf"
  const MaxUploadBytes := 5 * 1024 * 1024
  const UploadError := "Please upload a PDF file under 5MB"
  const MissingFilesError := "Please upload both CV and Job Description"
  const EvaluationError := "Failed to evaluate CV. Please try again."

  /** The test shared by the file input and the drop zone. */
  predicate Acceptable(file: Option<File>) {
    file.Some? && file.value.mimeType == PdfType && file.value.size <= MaxUploadBytes
  }

  /**
   `handleFileUpload` and `handleDrop`: an acceptable file fills the slot it
   was given for and clears the error; anything else only sets the error.
   */
  function ChooseFile(s: PageState, file: Option<File>, slot: Slot): (r: PageState)
    ensures Acceptable(file) ==> r.error.None?
    ensures Acceptable(file) && slot == CvSlot ==> r.cvFile == file && r.jobFile == s.jobFile
    ensures Acceptable(file) && slot == JobSlot ==> r.jobFile == file && r.cvFile == s.cvFile
    ensures !Acceptable(file) ==> r.cvFile == s.cvFile && r.jobFile == s.jobFile && r.error == Some(UploadError)
    ensures r.report == s.report && r.isEvaluating == s.isEvaluating
  {
    if Acceptable(file) then
      if slot == CvSlot then s.(cvFile := file, error := None)
      else s.(jobFile := file, error := None)
    else
      s.(error := Some(UploadError))
  }

  /** What the request to the evaluation endpoint came back with. */
  datatype ApiReply =
    | Evaluated(report: MatchReport)   // status 2xx with a parsed report
    | Failed                           // network error, non-2xx status or unreadable body

  /** The page and the history once `evaluateCV` has finished, and whether a request went out. */
  datatype AfterEvaluation = AfterEvaluation(page: PageState, history: seq<Evaluation>, requested: bool)

  /**
   `evaluateCV`, with the server's answer as a parameter. Without both files
   nothing is sent; otherwise the busy flag ends cleared and the history grows
   by one entry exactly when a report came back.
   */
  function EvaluateCV(s: PageState, history: seq<Evaluation>, reply: ApiReply): (r: AfterEvaluation)
    ensures s.cvFile.None? || s.jobFile.None? ==>
      r == AfterEvaluation(s.(error := Some(MissingFilesError)), history, false)
    ensures s.cvFile.Some? && s.jobFile.Some? ==>
      && r.requested
      && !r.page.isEvaluating
      && r.page.cvFile == s.cvFile && r.page.jobFile == s.jobFile
    ensures s.cvFile.Some? && s.jobFile.Some? && reply.Evaluated? ==>
      && |r.history| == |history| + 1 && r.history[..|history|] == history
      && r.history[|history|].filename == s.cvFile.value.name
      && r.history[|history|].matchScore == reply.report.matchScore
      && r.history[|history|].sections == reply.report.sections
      && r.page.report == Some(reply.report)
      && r.page.error.None?
    ensures s.cvFile.Some? && s.jobFile.Some? && reply.Failed? ==>
      && r.history == history
      && r.page.report == s.report
      && r.page.error == Some(EvaluationError)
  {
    if s.cvFile.None? || s.jobFile.None? then
      AfterEvaluation(s.(error := Some(MissingFilesError)), history, false)
    else
      var started := s.(isEvaluating := true, error := None);
      match reply
      case Evaluated(report) =>
        AfterEvaluation(started.(report := Some(report), isEvaluating := false),
                       history + [Evaluation(s.cvFile.value.name, report.matchScore, report.sections)], true)
      case Failed =>
        AfterEvaluation(started.(error := Some(EvaluationError), isEvaluating := false), history, true)
  }

  /** The history only ever grows at its end: earlier entries are never changed or reordered. */
  lemma HistoryOnlyAppends(s: PageState, history: seq<Evaluation>, reply: ApiReply)
    ensures var r := EvaluateCV(s, history, reply).history;
      && |history| <= |r| <= |history| + 1
      && r[..|history|] == history
  {
  }

  /** Choosing a file never touches the other slot, whatever the file. */
  lemma ChooseFileLeavesOtherSlot(s: PageState, file: Option<File>)
    ensures ChooseFile(s, file, CvSlot).jobFile == s.jobFile
    ensures ChooseFile(s, file, JobSlot).cvFile == s.cvFile
  {
  }
}
