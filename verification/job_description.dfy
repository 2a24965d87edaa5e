/** The job-description slot: `handleJobDescriptionFileChange` and
    `handleClearJobDescription` of frontend/src/App.tsx. The file is only
    held locally; it is sent with the ranking request. */
module JobDescription {
  import opened Wrappers
  import opened WorkflowState

  /** `handleJobDescriptionFileChange`: only the first picked file is looked
      at; a PDF replaces the selection, anything else is refused and leaves
      the previous selection in place. An empty pick does nothing. */
  function SelectJobDescription(s: State, files: seq<File>): (r: Step)
    ensures |files| == 0 ==> r == NoOp(s)
    ensures |files| > 0 && !IsPdf(files[0]) ==> r == Refused(s, JobDescriptionNotPdf)
    ensures |files| > 0 && IsPdf(files[0]) ==>
      && r.state == s.(jobDescriptionFile := Some(files[0]))
      && r.notices == [JobDescriptionSelected(files[0].name)]
    ensures r.requests == []
  {
    if |files| == 0 then NoOp(s)
    else
      var file := files[0];
      if !IsPdf(file) then Refused(s, JobDescriptionNotPdf)
      else Step(s.(jobDescriptionFile := Some(file)), [JobDescriptionSelected(file.name)], [])
  }

  /** `handleClearJobDescription`: drops the file and the extracted text,
      and nothing else. */
  function ClearJobDescription(s: State): (r: Step)
    ensures r.state.jobDescriptionFile.None? && r.state.jobDescriptionText == ""
    ensures r.state.(jobDescriptionFile := s.jobDescriptionFile,
                     jobDescriptionText := s.jobDescriptionText) == s
    ensures r.notices == [JobDescriptionCleared] && r.requests == []
  {
    Step(s.(jobDescriptionFile := None, jobDescriptionText := ""), [JobDescriptionCleared], [])
  }

  /** Selecting a job description never touches the extracted text or the
      ranked results, accepted or not. */
  lemma SelectKeepsTextAndResults(s: State, files: seq<File>)
    ensures SelectJobDescription(s, files).state.jobDescriptionText == s.jobDescriptionText
    ensures SelectJobDescription(s, files).state.rankedResumes == s.rankedResumes
    ensures SelectJobDescription(s, files).state.jobDescriptionFile.Some?
            <==> s.jobDescriptionFile.Some? || (|files| > 0 && IsPdf(files[0]))
  {
  }

  /** Clearing forgets any earlier selection: select-then-clear ends in the
      same state as clearing alone, and clearing twice is clearing once. */
  lemma ClearForgetsSelection(s: State, files: seq<File>)
    ensures ClearJobDescription(SelectJobDescription(s, files).state).state == ClearJobDescription(s).state
    ensures ClearJobDescription(ClearJobDescription(s).state).state == ClearJobDescription(s).state
  {
  }
}
