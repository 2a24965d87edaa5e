/** The data the ranking workflow controller (`App` in frontend/src/App.tsx)
    holds, the replies the ranking service can give, and the observable
    effects of a handler: the notifications it raises and the requests it
    would send. */
module WorkflowState {
  import opened Wrappers

  /** The only MIME type the client accepts, for resumes and job descriptions alike. */
  const PdfMime: string := "application/pdf"

  /** A browser `File` as far as the client looks at it. */
  datatype File = File(name: string, size: nat, mime: string)

  predicate IsPdf(f: File) {
    f.mime == PdfMime
  }

  /** A resume the service accepted, with the id it assigned. */
  datatype ResumeFile = ResumeFile(id: string, file: File, textPreview: string)

  /** One entry of the service's ranked list. The score is carried through
      unchanged; the client never inspects it. */
  datatype ServiceEntry = ServiceEntry(
    resumeId: string,
    filename: string,
    score: real,
    snippet: string,
    fullText: string)

  /** A ranked result as the client stores it: the service entry plus the
      two optional view fields `feedback?` and `showFeedback?`. */
  datatype RankedResume = RankedResume(
    entry: ServiceEntry,
    feedback: Option<string>,
    showFeedback: Option<bool>)

  /** Reply of `POST /upload_resume/` for one file. */
  datatype UploadReply = Uploaded(resumeId: string) | UploadRejected

  /** Reply of `POST /rank_resumes/`. */
  datatype RankReply = Ranked(entries: seq<ServiceEntry>, jdText: string) | RankRejected

  /** Reply of `POST /llm_feedback/`. */
  datatype FeedbackReply = FeedbackText(text: string) | FeedbackRejected

  /** A resume file picked by the user, paired with the reply the upload
      endpoint gives if the file is sent. */
  datatype Selection = Selection(file: File, reply: UploadReply)

  /** The kinds of toast the handlers raise. */
  datatype Notice =
    | NotPdf(fileName: string)
    | DuplicateSkipped(fileName: string)
    | UploadSucceeded(fileName: string)
    | UploadFailed(fileName: string)
    | ResumeRemoved
    | JobDescriptionNotPdf
    | JobDescriptionSelected(fileName: string)
    | JobDescriptionCleared
    | MissingJobDescription
    | NoResumes
    | RankingSucceeded
    | RankingFailed
    | MissingJobDescriptionText
    | FeedbackGenerated
    | FeedbackFailed

  /** The requests a handler sends to the ranking service. */
  datatype Request =
    | UploadResume(file: File)
    | RankResumes(jdFile: File)
    | LlmFeedback(resumeText: string, jdText: string)

  /** The controller's state: the seven `useState` slots of `App`. */
  datatype State = State(
    resumeFiles: seq<ResumeFile>,
    jobDescriptionFile: Option<File>,
    jobDescriptionText: string,
    rankedResumes: seq<RankedResume>,
    isRanking: bool,
    isUploadingResumes: bool,
    feedbackLoadingResumeId: Option<string>)

  /** What one handler invocation produces. */
  datatype Step = Step(state: State, notices: seq<Notice>, requests: seq<Request>)

  /** The state when the page is first rendered. */
  const Init: State := State([], None, "", [], false, false, None)

  /** No upload, ranking or feedback request is in flight. */
  predicate Settled(s: State) {
    !s.isRanking && !s.isUploadingResumes && s.feedbackLoadingResumeId.None?
  }

  /** Extracted job-description text only exists while a job description is selected. */
  predicate Coherent(s: State) {
    s.jobDescriptionText != "" ==> s.jobDescriptionFile.Some?
  }

  /** A handler that did nothing: same state, no toast, no request. */
  function NoOp(s: State): (r: Step) {
    Step(s, [], [])
  }

  /** A handler that only raised `n`: same state and no request. */
  function Refused(s: State, n: Notice): (r: Step) {
    Step(s, [n], [])
  }
}
