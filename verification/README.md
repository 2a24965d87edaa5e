# Resume ranker: the ranking workflow controller

This project models the client-side workflow controller of the resume-ranker
web page, the `App` component in `frontend/src/App.tsx`. The controller holds
seven slots of state:

- the uploaded resumes;
- the selected job-description file;
- the job-description text the service extracted;
- the ranked results;
- two busy flags;
- the id of the resume whose feedback is being generated.

It talks to a ranking service through three endpoints: `upload_resume`,
`rank_resumes` and `llm_feedback`.

Every network round-trip becomes a parameter: the reply the service gives.
With that, each handler is a pure function. Most take a `State` and the
user's input to a `Step`, which holds three things:

- the new state;
- the kinds of toast the handler raises (`Notice`);
- the requests it sends (`Request`).

"No network call" is `requests == []`. Two are simpler because they raise
no toast and send nothing. `ToggleFeedbackVisibility` returns only the new
`State`. `DownloadFeedback` reads no state and returns the `Download` it
builds, a file name and a content.

Modules:

- `WorkflowState`: files, resumes, service entries, ranked results, replies,
  notices, requests, the state record and two state invariants. `Settled`
  means nothing is in flight. `Coherent` means extracted text implies a
  selected job description.
- `ResumeUploads`: duplicate detection, the two-pass resume batch and removal
  by id. `ResumeFileChange` is a reference definition built from filter and
  flat-map. `HandleResumeFileChange` is the handler as written, with its
  validation loop and its upload loop, and it is proved equal to the
  reference.
- `JobDescription`: selecting and clearing the job description.
- `Ranking`: the ranking handler, split at its await into `BeginRanking` and
  `FinishRanking`.
- `Feedback`: the feedback handler (also split at its await), the visibility
  toggle and the download file name.
- `Text`: first-occurrence search and removal, the model of JavaScript's
  `String.prototype.replace` with a string pattern and an empty replacement.
- `Controller`: a session as a sequence of events. It proves that the
  invariants hold in every state between handled events (each handler run
  to completion), and that feedback is refused until a ranking that ran has
  produced text.
- `Seqs`, `Wrappers`: generic helpers. `Seqs` has order-preserving filter
  and flat-map with their lemmas; `Wrappers` has `Option`.

Worth knowing about the code:

- **Duplicate check.** A picked file is only compared with the list as it
  was before the batch. So the same file picked twice in one batch is
  uploaded twice, and the list can hold two resumes with the same name and
  size (`SameFileTwiceInOneBatch`).
- **Selecting a job description.** Selecting leaves the extracted text
  alone. Only clearing and ranking reset it (`SelectKeepsTextAndResults`).
- **Exporting feedback.** There is no export error. The download button is
  only rendered when feedback exists.
- **Download name.** The name drops the first `".pdf"` wherever it occurs,
  case-sensitively (`DownloadNameFirstOccurrenceOnly`,
  `DownloadNameCaseSensitive`).

## Model

| member | source | states |
|---|---|---|
| ResumeUploads.IsDuplicateFile | frontend/src/App.tsx:39-45 | a picked file is a duplicate exactly when some listed resume has the same file name and byte size |
| ResumeUploads.ResumeFileChange | frontend/src/App.tsx:47-108 | the list becomes the old list followed by the batch's new entries; nothing else changes except the upload flag; the flag is down afterwards unless nothing was eligible, in which case the state is untouched; one upload request per eligible file, in order, and none exactly when nothing is eligible |
| ResumeUploads.ValidateBatch | frontend/src/App.tsx:51-63 | the validation loop collects exactly the eligible files, in selection order, and raises the per-file rejection toasts |
| ResumeUploads.UploadAll | frontend/src/App.tsx:71-101 | the upload loop sends every file, keeps the accepted entries in order, counts them, and reports each success or failure |
| ResumeUploads.HandleResumeFileChange | frontend/src/App.tsx:47-108 | the two-loop handler as written yields exactly the reference transition, early return and conditional append included |
| ResumeUploads.NewEntriesOfOne | frontend/src/App.tsx:52-96 | one picked file adds its own entry (service id, file, preview text) iff it is a PDF, not a duplicate of the old list, and accepted; otherwise it adds nothing |
| ResumeUploads.BatchIsCompositional | frontend/src/App.tsx:51-105 | files of one batch are not checked against each other: the entries of a concatenated batch are the entries of its parts, in order |
| ResumeUploads.FailedUploadDropped | frontend/src/App.tsx:78-101 | a failed upload is dropped and the files before and after it are added as if it had not been picked |
| ResumeUploads.NewEntriesMembership | frontend/src/App.tsx:52-105 | an entry is appended iff some picked file was a PDF, not a duplicate of the old list, and accepted under that entry's id |
| ResumeUploads.RejectionsReported | frontend/src/App.tsx:54-61 | every non-PDF is reported as not a PDF and every duplicate PDF as a skipped duplicate |
| ResumeUploads.SameFileTwiceInOneBatch | frontend/src/App.tsx:40-63 | the same PDF picked twice in one batch, both uploads succeeding, yields two entries with the same name and size |
| ResumeUploads.DuplicateAcrossBatches | frontend/src/App.tsx:58-68 | for any list, picking a PDF whose name and size match a listed resume is skipped with a warning: state unchanged, nothing sent |
| ResumeUploads.DuplicateScenario | frontend/src/App.tsx:58-68 | picking a.pdf again after it was uploaded leaves exactly the one entry already listed |
| ResumeUploads.NonPdfRejected | frontend/src/App.tsx:54-68 | a non-PDF pick is refused locally: state unchanged, one error toast, nothing sent |
| ResumeUploads.RemoveResume | frontend/src/App.tsx:110-113 | after removal a resume is listed iff it was listed and has another id; nothing else in the state changes; nothing is sent |
| ResumeUploads.RemoveResumeKeepsOrder | frontend/src/App.tsx:110-111 | removal keeps the remaining resumes in their original order |
| ResumeUploads.RemoveResumeKeepsCount | frontend/src/App.tsx:110-111 | removal keeps every resume with another id exactly as often as it was listed |
| ResumeUploads.RemoveUnknownId | frontend/src/App.tsx:110-111 | removing an id nobody has leaves the state unchanged |
| JobDescription.SelectJobDescription | frontend/src/App.tsx:115-127 | an empty pick does nothing; a non-PDF first file is refused and the previous selection stays; a PDF replaces the selection and nothing else; nothing is sent |
| JobDescription.ClearJobDescription | frontend/src/App.tsx:129-134 | clearing empties the file and the extracted text and changes nothing else |
| JobDescription.SelectKeepsTextAndResults | frontend/src/App.tsx:115-127 | selecting never changes the extracted text or the results; a file is selected afterwards iff one was before or the first pick is a PDF |
| JobDescription.ClearForgetsSelection | frontend/src/App.tsx:129-134 | select-then-clear equals clear, and clear is idempotent |
| Ranking.BeginRanking | frontend/src/App.tsx:146-151 | while a ranking is in flight the flag is up and the results and the extracted text are empty; the job description is sent |
| Ranking.FinishRanking | frontend/src/App.tsx:153-173 | a successful reply is stored verbatim: same length, order and entries, each hidden and without feedback; its text is stored; a failed reply leaves the results as they were; the flag is down in every case |
| Ranking.HandleRankResumes | frontend/src/App.tsx:136-174 | a missing job description is reported before an empty resume list, and either abort changes nothing and sends nothing; otherwise exactly one ranking request; success stores the reply verbatim; failure leaves results and text empty; the flag is down afterwards |
| Ranking.AbortIgnoresReply | frontend/src/App.tsx:136-144 | when a precondition fails the reply cannot influence the outcome, the state is unchanged and no request is made |
| Ranking.RankingReplacesResults | frontend/src/App.tsx:146-166 | results are replaced, never merged: states differing only in old results, text or flag rank identically |
| Ranking.RankingKeepsServiceOrder | frontend/src/App.tsx:164-165 | the service's first entry is the first result and its second the second, entries (scores included) unchanged |
| Text.IndexOf | frontend/src/App.tsx:224 | the search finds the first index where the pattern occurs, and none exactly when it occurs nowhere |
| Text.RemoveFirst | frontend/src/App.tsx:224 | the first occurrence is cut out and the rest kept; a string without the pattern is returned unchanged |
| Feedback.BeginFeedback | frontend/src/App.tsx:176-195 | a request for the id already in flight is dropped; with empty job-description text it is refused; otherwise the id is marked and the resume's full text is sent with the job-description text |
| Feedback.FinishFeedback | frontend/src/App.tsx:197-216 | success attaches and reveals the text on exactly the entries with that id; failure leaves the results unchanged; service data and order are kept; the marker is cleared in every case |
| Feedback.HandleGetLLMFeedback | frontend/src/App.tsx:176-217 | the handler run to completion: the in-flight guard, then the missing-text refusal, then exactly one request; the results change only on matching ids and only on success; the marker ends empty |
| Feedback.AtMostOneInFlight | frontend/src/App.tsx:177-183 | once a request is in flight, asking again for the same resume sends nothing and changes nothing |
| Feedback.FeedbackStoredAndShown | frontend/src/App.tsx:202-209 | feedback "Good fit" for r1 is stored on r1's result and shown |
| Feedback.ToggleFeedbackVisibility | frontend/src/App.tsx:232-238 | the toggle changes an entry iff its id matches and then flips whether it is shown (an absent flag counts as hidden); entries, feedback and the rest of the state are kept |
| Feedback.ToggleUnknownId | frontend/src/App.tsx:232-238 | toggling an unknown id yields an identical state |
| Feedback.ToggleTwice | frontend/src/App.tsx:232-238 | toggling twice restores the state iff every matching entry already had an explicit flag |
| Feedback.DownloadFileName | frontend/src/App.tsx:224 | the name is "feedback_" + the resume's file name + ".txt", with the first ".pdf" cut out when there is one and nothing cut when there is none |
| Feedback.DownloadNameWithoutPdf | frontend/src/App.tsx:224 | a name without ".pdf" is kept whole between prefix and suffix |
| Feedback.DownloadNameStripsFirst | frontend/src/App.tsx:224 | the first ".pdf" is cut out wherever it stands and what follows it is kept |
| Feedback.DownloadNameOfPdf | frontend/src/App.tsx:224 | "x.pdf" with no earlier ".pdf" becomes "feedback_x.txt" |
| Feedback.DownloadNameFirstOccurrenceOnly | frontend/src/App.tsx:224 | "cv.pdf.pdf" becomes "feedback_cv.pdf.txt" |
| Feedback.DownloadNameCaseSensitive | frontend/src/App.tsx:224 | "CV.PDF" keeps its extension: "feedback_CV.PDF.txt" |
| Feedback.DownloadFeedback | frontend/src/App.tsx:219-224 | the download is a plain-text file holding the stored feedback, named "feedback_" + the resume's file name without its first ".pdf" + ".txt" |
| Controller.Apply | frontend/src/App.tsx:276-436 | each state-changing user action of the page is wired to its handler; only picking resumes, ranking and asking for feedback ever send a request, and a toggle raises no toast and sends nothing. A toggle event is accepted for any id, although the page renders the toggle button only for results that have feedback (frontend/src/App.tsx:431), so the event set over-approximates the page |
| Controller.ApplyKeepsInvariants | frontend/src/App.tsx:27-238 | every handler run to completion leaves nothing in flight and keeps extracted text tied to a selected job description |
| Controller.RunKeepsInvariants | frontend/src/App.tsx:27-238 | the same holds after any sequence of handled events |
| Controller.RunTextSource | frontend/src/App.tsx:129-166 | extracted text is non-empty after a session only if it was before, or some ranking click whose preconditions held at that point (so its request was sent) received a reply carrying text |
| Controller.FeedbackBeforeRankingRefused | frontend/src/App.tsx:176-181 | from the initial state, in a session where every ranking click carrying a text reply was refused by its preconditions, feedback is refused with the missing-text error, the state is unchanged and nothing is sent |

## Left out

- Networking (`fetch`, `FormData`, JSON parsing) is replaced by reply parameters. A malformed or missing field in a reply (for example no `resume_id`) is not modelled.
- Toasts are modelled by kind and file name only. Their message text is left out, including the service's `detail` message. So is the "Feedback downloaded!" toast, and so is `console.error`.
- React scheduling is left out: `useState` batching, stale closures, overlapping batches or rankings, and replies arriving out of order. Handlers run one at a time to completion. Only the feedback and ranking handlers expose their in-flight phase (`BeginFeedback`, `BeginRanking`). The upload batch's in-flight state (flag up, list unchanged) is not exposed.
- The feedback marker is a single slot: a second id overwrites it and any completion clears it. Only the same-id guard is modelled.
- The download click is not a `Controller.Event`. It changes no state and sends nothing. Its only effect besides the file (`DownloadFeedback`) is the "Feedback downloaded!" toast, which is left out above.
- The file-input resets (`value = ''`) and the Blob/URL/anchor mechanics of the download are left out. Only the file name and content of the download are kept.
- The button-disabled guards of the page markup are left out, for ranking (frontend/src/App.tsx:372) and for feedback (frontend/src/App.tsx:420). The handlers are modelled without them, as written.
- `score` is a float the client never inspects. It is a `real` carried through unchanged.
- Extra fields the service might add to a ranked entry are not kept. The object spread would keep them, but the service sends exactly five.
- The backend (backend/main.py: PDF parsing, embeddings, vector search, the language-model call) is out of scope. So are the presentational components (EnhancedProgress, DarkModeToggle, ProfessionalFooter).
- ResumeUploads.ResumeFileChange: its own contract covers state and requests but not the exact toast sequence. That sequence is pinned down by `HandleResumeFileChange`'s equality with the reference definition and by `RejectionsReported`.
