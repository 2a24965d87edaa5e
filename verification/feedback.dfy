/** Per-result feedback: `handleGetLLMFeedback`, `toggleFeedbackVisibility`
    and the file name chosen by `handleDownloadFeedback` in
    frontend/src/App.tsx. */
module Feedback {
  import opened Wrappers
  import opened Text
  import opened WorkflowState

  /** JavaScript truthiness of `showFeedback?`: an absent flag reads as false. */
  function IsShown(r: RankedResume): (shown: bool) {
    r.showFeedback.GetOr(false)
  }

  /** The array `map` that rewrites the entries with a given id and keeps the rest. */
  function UpdateById(rs: seq<RankedResume>, id: string, f: RankedResume -> RankedResume): (r: seq<RankedResume>) {
    seq(|rs|, i requires 0 <= i < |rs| => if rs[i].entry.resumeId == id then f(rs[i]) else rs[i])
  }

  function WithFeedback(text: string): (attach: RankedResume -> RankedResume) {
    (r: RankedResume) => r.(feedback := Some(text), showFeedback := Some(true))
  }

  function Flip(r: RankedResume): (f: RankedResume)
    ensures f != r && IsShown(f) == !IsShown(r)
  {
    r.(showFeedback := Some(!IsShown(r)))
  }

  /** `after` is `before` with `text` attached to, and revealed on, exactly
      the entries whose id is `id`. */
  ghost predicate FeedbackAttached(before: seq<RankedResume>, after: seq<RankedResume>, id: string, text: string) {
    && |after| == |before|
    && forall i :: 0 <= i < |before| ==>
         if before[i].entry.resumeId == id
         then after[i] == before[i].(feedback := Some(text), showFeedback := Some(true))
         else after[i] == before[i]
  }

  /** The service data of every result, in order: what feedback handling
      must never change. */
  ghost predicate SameEntries(before: seq<RankedResume>, after: seq<RankedResume>) {
    |after| == |before| && forall i :: 0 <= i < |before| ==> after[i].entry == before[i].entry
  }

  predicate FeedbackInFlight(s: State, id: string) {
    s.feedbackLoadingResumeId == Some(id)
  }

  /** Start of a feedback request: a second request for the id already in
      flight is dropped; without extracted job-description text the request
      is refused; otherwise the id is marked and the resume's full text is
      sent with the job-description text. */
  function BeginFeedback(s: State, resume: RankedResume): (r: Step)
    ensures FeedbackInFlight(s, resume.entry.resumeId) ==> r == NoOp(s)
    ensures !FeedbackInFlight(s, resume.entry.resumeId) && s.jobDescriptionText == "" ==>
      r == Refused(s, MissingJobDescriptionText)
    ensures !FeedbackInFlight(s, resume.entry.resumeId) && s.jobDescriptionText != "" ==>
      && r.state == s.(feedbackLoadingResumeId := Some(resume.entry.resumeId))
      && r.notices == []
      && r.requests == [LlmFeedback(resume.entry.fullText, s.jobDescriptionText)]
  {
    var id := resume.entry.resumeId;
    if FeedbackInFlight(s, id) then NoOp(s)
    else if s.jobDescriptionText == "" then Refused(s, MissingJobDescriptionText)
    else Step(s.(feedbackLoadingResumeId := Some(id)), [],
              [LlmFeedback(resume.entry.fullText, s.jobDescriptionText)])
  }

  /** Arrival of the feedback reply: on success attach and reveal the text on
      the matching results; in every case clear the in-flight marker. */
  function FinishFeedback(s: State, resume: RankedResume, reply: FeedbackReply): (r: Step)
    ensures r.state.feedbackLoadingResumeId.None? && r.requests == []
    ensures r.state.(rankedResumes := s.rankedResumes, feedbackLoadingResumeId := s.feedbackLoadingResumeId) == s
    ensures SameEntries(s.rankedResumes, r.state.rankedResumes)
    ensures reply.FeedbackText? ==>
      FeedbackAttached(s.rankedResumes, r.state.rankedResumes, resume.entry.resumeId, reply.text)
      && r.notices == [FeedbackGenerated]
    ensures reply.FeedbackRejected? ==>
      r.state.rankedResumes == s.rankedResumes && r.notices == [FeedbackFailed]
  {
    match reply
    case FeedbackText(text) =>
      Step(s.(rankedResumes := UpdateById(s.rankedResumes, resume.entry.resumeId, WithFeedback(text)),
              feedbackLoadingResumeId := None),
           [FeedbackGenerated], [])
    case FeedbackRejected =>
      Step(s.(feedbackLoadingResumeId := None), [FeedbackFailed], [])
  }

  /** `handleGetLLMFeedback` run to completion. */
  function HandleGetLLMFeedback(s: State, resume: RankedResume, reply: FeedbackReply): (r: Step)
    ensures FeedbackInFlight(s, resume.entry.resumeId) ==> r == NoOp(s)
    ensures !FeedbackInFlight(s, resume.entry.resumeId) && s.jobDescriptionText == "" ==>
      r == Refused(s, MissingJobDescriptionText)
    ensures !FeedbackInFlight(s, resume.entry.resumeId) && s.jobDescriptionText != "" ==>
      && r.requests == [LlmFeedback(resume.entry.fullText, s.jobDescriptionText)]
      && r.state.feedbackLoadingResumeId.None?
      && r.state.(rankedResumes := s.rankedResumes, feedbackLoadingResumeId := s.feedbackLoadingResumeId) == s
      && SameEntries(s.rankedResumes, r.state.rankedResumes)
      && (reply.FeedbackText? ==>
            FeedbackAttached(s.rankedResumes, r.state.rankedResumes, resume.entry.resumeId, reply.text))
      && (reply.FeedbackRejected? ==> r.state.rankedResumes == s.rankedResumes)
  {
    var begun := BeginFeedback(s, resume);
    if begun.requests == [] then begun
    else
      var done := FinishFeedback(begun.state, resume, reply);
      Step(done.state, begun.notices + done.notices, begun.requests + done.requests)
  }

  /** At most one request per id is in flight: once a request has been sent,
      asking again for the same resume before the reply arrives sends
      nothing and changes nothing, whatever that second reply would be. */
  lemma AtMostOneInFlight(s: State, resume: RankedResume, reply: FeedbackReply)
    requires BeginFeedback(s, resume).requests != []
    ensures HandleGetLLMFeedback(BeginFeedback(s, resume).state, resume, reply)
            == NoOp(BeginFeedback(s, resume).state)
  {
  }

  /** Feedback for "r1" that succeeds with "Good fit" is stored on r1 and shown. */
  lemma FeedbackStoredAndShown(s: State, resume: RankedResume, i: int)
    requires resume.entry.resumeId == "r1" && s.feedbackLoadingResumeId.None? && s.jobDescriptionText != ""
    requires 0 <= i < |s.rankedResumes| && s.rankedResumes[i].entry.resumeId == "r1"
    ensures var r := HandleGetLLMFeedback(s, resume, FeedbackText("Good fit")).state.rankedResumes[i];
      r.feedback == Some("Good fit") && IsShown(r)
  {
  }

  /** `toggleFeedbackVisibility`: flips the shown flag of the entries with
      this id (an absent flag counts as hidden) and touches nothing else. */
  function ToggleFeedbackVisibility(s: State, id: string): (r: State)
    ensures SameEntries(s.rankedResumes, r.rankedResumes)
    ensures forall i :: 0 <= i < |s.rankedResumes| ==>
      && r.rankedResumes[i].feedback == s.rankedResumes[i].feedback
      && (r.rankedResumes[i] != s.rankedResumes[i] <==> s.rankedResumes[i].entry.resumeId == id)
      && (s.rankedResumes[i].entry.resumeId == id ==> IsShown(r.rankedResumes[i]) == !IsShown(s.rankedResumes[i]))
    ensures r == s.(rankedResumes := r.rankedResumes)
  {
    var toggled := UpdateById(s.rankedResumes, id, Flip);
    assert forall i :: 0 <= i < |toggled| && s.rankedResumes[i].entry.resumeId == id ==>
      toggled[i] == Flip(s.rankedResumes[i]);
    s.(rankedResumes := toggled)
  }

  /** Toggling an id that no result has leaves the state identical. */
  lemma ToggleUnknownId(s: State, id: string)
    requires forall i :: 0 <= i < |s.rankedResumes| ==> s.rankedResumes[i].entry.resumeId != id
    ensures ToggleFeedbackVisibility(s, id) == s
  {
    assert ToggleFeedbackVisibility(s, id).rankedResumes == s.rankedResumes;
  }

  /** Toggling twice restores the state exactly when every matching result
      already had a flag: an absent flag comes back as an explicit `false`. */
  lemma ToggleTwice(s: State, id: string)
    ensures ToggleFeedbackVisibility(ToggleFeedbackVisibility(s, id), id) == s
        <==> forall i :: 0 <= i < |s.rankedResumes| && s.rankedResumes[i].entry.resumeId == id ==>
               s.rankedResumes[i].showFeedback.Some?
  {
    var rs := s.rankedResumes;
    var twice := ToggleFeedbackVisibility(ToggleFeedbackVisibility(s, id), id);
    if forall i :: 0 <= i < |rs| && rs[i].entry.resumeId == id ==> rs[i].showFeedback.Some? {
      assert |twice.rankedResumes| == |rs|;
      forall i | 0 <= i < |rs| ensures twice.rankedResumes[i] == rs[i] {
        if rs[i].entry.resumeId == id {
          assert twice.rankedResumes[i] == Flip(Flip(rs[i]));
        }
      }
      assert twice.rankedResumes == rs;
    } else {
      var i :| 0 <= i < |rs| && rs[i].entry.resumeId == id && rs[i].showFeedback.None?;
      assert twice.rankedResumes[i] == Flip(Flip(rs[i]));
      assert twice.rankedResumes[i].showFeedback == Some(false);
    }
  }

  const FeedbackPrefix: string := "feedback_"
  const PdfSuffix: string := ".pdf"
  const TextSuffix: string := ".txt"

  /** The name of the downloaded feedback file for a resume file name. */
  function DownloadFileName(filename: string): (r: string)
    ensures |r| >= |FeedbackPrefix| + |TextSuffix|
    ensures r[..|FeedbackPrefix|] == FeedbackPrefix && r[|r| - |TextSuffix|..] == TextSuffix
    ensures Absent(filename, PdfSuffix) ==> |r| == |FeedbackPrefix| + |filename| + |TextSuffix|
    ensures !Absent(filename, PdfSuffix) ==> |r| == |FeedbackPrefix| + |filename| - |PdfSuffix| + |TextSuffix|
    ensures Absent(filename, PdfSuffix) ==> r == FeedbackPrefix + filename + TextSuffix
    ensures forall i: nat :: IsFirstOccurrence(filename, PdfSuffix, i) ==>
      r == FeedbackPrefix + filename[..i] + filename[i + |PdfSuffix|..] + TextSuffix
  {
    FeedbackPrefix + RemoveFirst(filename, PdfSuffix) + TextSuffix
  }

  /** A name without ".pdf" anywhere is kept whole. */
  lemma DownloadNameWithoutPdf(filename: string)
    requires Absent(filename, PdfSuffix)
    ensures DownloadFileName(filename) == FeedbackPrefix + filename + TextSuffix
  {
  }

  /** The first ".pdf" is cut out wherever it stands, and whatever follows
      it is kept. */
  lemma DownloadNameStripsFirst(base: string, rest: string)
    requires Absent(base, PdfSuffix)
    ensures DownloadFileName(base + PdfSuffix + rest) == FeedbackPrefix + base + rest + TextSuffix
  {
    var s := base + PdfSuffix + rest;
    var n := |base|;
    assert s[n..n + 4] == PdfSuffix;
    forall j: nat | j < n ensures !OccursAt(s, PdfSuffix, j) {
      if j + 4 <= n {
        assert s[j..j + 4] == base[j..j + 4];
        assert !OccursAt(base, PdfSuffix, j);
      } else {
        assert s[n] == '.';
        assert j + 4 > n ==> s[j..j + 4][n - j] == s[n];
      }
    }
    assert IsFirstOccurrence(s, PdfSuffix, n);
    assert s[..n] == base;
    assert s[n + 4..] == rest;
  }

  /** A name ending in ".pdf", with no earlier ".pdf", loses exactly that
      extension. */
  lemma DownloadNameOfPdf(base: string)
    requires Absent(base, PdfSuffix)
    ensures DownloadFileName(base + PdfSuffix) == FeedbackPrefix + base + TextSuffix
  {
    DownloadNameStripsFirst(base, "");
    assert base + PdfSuffix + "" == base + PdfSuffix;
    assert base + "" == base;
  }

  /** Only the first ".pdf" is removed: a doubled extension keeps one. */
  lemma DownloadNameFirstOccurrenceOnly()
    ensures DownloadFileName("cv.pdf.pdf") == "feedback_cv.pdf.txt"
  {
    DownloadNameStripsFirst("cv", PdfSuffix);
    assert "cv" + PdfSuffix + PdfSuffix == "cv.pdf.pdf";
    assert FeedbackPrefix + "cv" + PdfSuffix + TextSuffix == "feedback_cv.pdf.txt";
  }

  /** The match is case-sensitive: an upper-case extension stays. */
  lemma DownloadNameCaseSensitive()
    ensures DownloadFileName("CV.PDF") == "feedback_CV.PDF.txt"
  {
    var s := "CV.PDF";
    assert forall k :: 0 <= k < |s| ==> s[k] != 'p';
    forall j: nat | j + 4 <= |s| ensures !OccursAt(s, PdfSuffix, j) {
      assert s[j..j + 4][1] == s[j + 1];
    }
  }

  /** The downloaded artifact: a plain-text file holding the stored feedback. */
  datatype Download = Download(fileName: string, content: string, mime: string)

  /** `handleDownloadFeedback`, without the browser mechanics. */
  function DownloadFeedback(feedback: string, filename: string): (d: Download)
    ensures d.content == feedback && d.mime == "text/plain"
    ensures d.fileName == DownloadFileName(filename)
    ensures Absent(filename, PdfSuffix) ==> d.fileName == FeedbackPrefix + filename + TextSuffix
    ensures forall i: nat :: IsFirstOccurrence(filename, PdfSuffix, i) ==>
      d.fileName == FeedbackPrefix + filename[..i] + filename[i + |PdfSuffix|..] + TextSuffix
  {
    Download(DownloadFileName(filename), feedback, "text/plain")
  }
}
