/** The controller as a state machine: every state-changing user action of
    the page is an event carrying the service replies it will meet, and a
    session is the left fold of its events over the initial state. */
module Controller {
  import opened WorkflowState
  import opened ResumeUploads
  import opened JobDescription
  import opened Ranking
  import opened Feedback

  datatype Event =
    | PickedResumes(batch: seq<Selection>)
    | RemoveClicked(id: string)
    | PickedJobDescription(files: seq<File>)
    | ClearClicked
    | RankClicked(rankReply: RankReply)
    | FeedbackClicked(resume: RankedResume, feedbackReply: FeedbackReply)
    | ToggleClicked(id: string)

  /** The handler each event is wired to. Only picking resumes, ranking and
      asking for feedback ever reach the service. */
  function Apply(s: State, e: Event): (r: Step)
    ensures r.requests != [] ==> e.PickedResumes? || e.RankClicked? || e.FeedbackClicked?
    ensures e.ToggleClicked? ==> r.notices == [] && r.requests == []
  {
    match e
    case PickedResumes(batch) => ResumeFileChange(s, batch)
    case RemoveClicked(id) => RemoveResume(s, id)
    case PickedJobDescription(files) => SelectJobDescription(s, files)
    case ClearClicked => ClearJobDescription(s)
    case RankClicked(reply) => HandleRankResumes(s, reply)
    case FeedbackClicked(resume, reply) => HandleGetLLMFeedback(s, resume, reply)
    case ToggleClicked(id) => NoOp(ToggleFeedbackVisibility(s, id))
  }

  /** The state after handling `evs` in order, each to completion. */
  function Run(s: State, evs: seq<Event>): (r: State)
    decreases |evs|
  {
    if |evs| == 0 then s else Run(Apply(s, evs[0]).state, evs[1..])
  }

  /** A ranking reply that carries extracted job-description text. */
  predicate SuppliesText(e: Event) {
    e.RankClicked? && e.rankReply.Ranked? && e.rankReply.jdText != ""
  }

  /** Every handler, run to completion, leaves nothing in flight and keeps
      extracted text tied to a selected job description. */
  lemma ApplyKeepsInvariants(s: State, e: Event)
    requires Settled(s) && Coherent(s)
    ensures Settled(Apply(s, e).state) && Coherent(Apply(s, e).state)
  {
  }

  /** Only a ranking that actually ran, and whose reply carried text, can
      make the extracted text non-empty. */
  lemma ApplyTextSource(s: State, e: Event)
    requires Apply(s, e).state.jobDescriptionText != ""
    ensures s.jobDescriptionText != "" || (SuppliesText(e) && CanRank(s))
  {
  }

  /** Running a prefix of a session is running its first event, then the
      matching prefix of the rest. */
  lemma RunPrefix(s: State, evs: seq<Event>, k: int)
    requires 0 < k <= |evs|
    ensures Run(s, evs[..k]) == Run(Apply(s, evs[0]).state, evs[1..][..k - 1])
  {
    assert evs[..k][0] == evs[0];
    assert evs[..k][1..] == evs[1..][..k - 1];
  }

  lemma {:induction false} RunKeepsInvariants(s: State, evs: seq<Event>)
    requires Settled(s) && Coherent(s)
    ensures Settled(Run(s, evs)) && Coherent(Run(s, evs))
    decreases |evs|
  {
    if |evs| > 0 {
      ApplyKeepsInvariants(s, evs[0]);
      RunKeepsInvariants(Apply(s, evs[0]).state, evs[1..]);
    }
  }

  lemma {:induction false} RunTextSource(s: State, evs: seq<Event>)
    requires Run(s, evs).jobDescriptionText != ""
    ensures s.jobDescriptionText != "" ||
      exists k :: 0 <= k < |evs| && SuppliesText(evs[k]) && CanRank(Run(s, evs[..k]))
    decreases |evs|
  {
    if |evs| > 0 {
      var next := Apply(s, evs[0]).state;
      RunTextSource(next, evs[1..]);
      if next.jobDescriptionText != "" {
        ApplyTextSource(s, evs[0]);
        if s.jobDescriptionText == "" {
          assert evs[..0] == [];
          assert SuppliesText(evs[0]) && CanRank(Run(s, evs[..0]));
        }
      } else {
        var k :| 0 <= k < |evs[1..]| && SuppliesText(evs[1..][k]) && CanRank(Run(next, evs[1..][..k]));
        RunPrefix(s, evs, k + 1);
        assert SuppliesText(evs[k + 1]) && CanRank(Run(s, evs[..k + 1]));
      }
    }
  }

  /** Feedback asked for in a session where no ranking that ran has produced
      text is refused with `MissingJobDescriptionText`, changes nothing and
      sends nothing. A ranking click refused for want of a job description or
      of resumes never receives its reply, so it does not count. */
  lemma FeedbackBeforeRankingRefused(evs: seq<Event>, resume: RankedResume, reply: FeedbackReply)
    requires forall k :: 0 <= k < |evs| && SuppliesText(evs[k]) ==> !CanRank(Run(Init, evs[..k]))
    ensures HandleGetLLMFeedback(Run(Init, evs), resume, reply)
            == Refused(Run(Init, evs), MissingJobDescriptionText)
  {
    RunKeepsInvariants(Init, evs);
    if Run(Init, evs).jobDescriptionText != "" {
      RunTextSource(Init, evs);
    }
  }
}
