/** `handleRankResumes` of frontend/src/App.tsx, split at its one suspension
    point: `BeginRanking` is what happens before the request is awaited,
    `FinishRanking` what happens when the reply arrives. */
module Ranking {
  import opened Wrappers
  import opened WorkflowState

  /** A service entry as stored by a successful ranking: no feedback yet and
      the feedback panel hidden. */
  function FreshResult(e: ServiceEntry): (r: RankedResume) {
    RankedResume(e, None, Some(false))
  }

  /** `results` is the service's list stored verbatim: same length, same
      order, same entries, each freshly hidden and without feedback. */
  ghost predicate StoredVerbatim(results: seq<RankedResume>, entries: seq<ServiceEntry>) {
    && |results| == |entries|
    && forall i :: 0 <= i < |results| ==>
         results[i].entry == entries[i] && results[i].feedback.None? && results[i].showFeedback == Some(false)
  }

  /** Start of a ranking: raise the flag, empty the results and the extracted
      text, and send the job description. */
  function BeginRanking(s: State, jd: File): (r: Step)
    ensures r.state.isRanking && r.state.rankedResumes == [] && r.state.jobDescriptionText == ""
    ensures r.state.(isRanking := s.isRanking, rankedResumes := s.rankedResumes,
                     jobDescriptionText := s.jobDescriptionText) == s
    ensures r.notices == [] && r.requests == [RankResumes(jd)]
  {
    Step(s.(isRanking := true, rankedResumes := [], jobDescriptionText := ""), [], [RankResumes(jd)])
  }

  /** Arrival of the ranking reply: on success store the list and the text;
      in every case lower the flag. */
  function FinishRanking(s: State, reply: RankReply): (r: Step)
    ensures !r.state.isRanking && r.requests == []
    ensures reply.Ranked? ==>
      && StoredVerbatim(r.state.rankedResumes, reply.entries)
      && r.state.jobDescriptionText == reply.jdText
      && r.state == s.(rankedResumes := r.state.rankedResumes, jobDescriptionText := reply.jdText, isRanking := false)
      && r.notices == [RankingSucceeded]
    ensures reply.RankRejected? ==>
      r.state == s.(isRanking := false) && r.notices == [RankingFailed]
  {
    match reply
    case Ranked(entries, jdText) =>
      var results := seq(|entries|, i requires 0 <= i < |entries| => FreshResult(entries[i]));
      Step(s.(rankedResumes := results, jobDescriptionText := jdText, isRanking := false),
           [RankingSucceeded], [])
    case RankRejected =>
      Step(s.(isRanking := false), [RankingFailed], [])
  }

  /** The ranking can start: a job description is selected and at least one
      resume is listed. */
  predicate CanRank(s: State) {
    s.jobDescriptionFile.Some? && |s.resumeFiles| > 0
  }

  /** `handleRankResumes`: the missing job description is reported before the
      empty resume list, and either abort leaves the state alone and sends
      nothing. Otherwise the previous results are discarded, not merged, and
      the flag is down again once the reply is handled. */
  function HandleRankResumes(s: State, reply: RankReply): (r: Step)
    ensures s.jobDescriptionFile.None? ==> r == Refused(s, MissingJobDescription)
    ensures s.jobDescriptionFile.Some? && |s.resumeFiles| == 0 ==> r == Refused(s, NoResumes)
    ensures CanRank(s) ==>
      && r.requests == [RankResumes(s.jobDescriptionFile.value)]
      && !r.state.isRanking
      && r.state.resumeFiles == s.resumeFiles
      && r.state.jobDescriptionFile == s.jobDescriptionFile
      && r.state.isUploadingResumes == s.isUploadingResumes
      && r.state.feedbackLoadingResumeId == s.feedbackLoadingResumeId
    ensures CanRank(s) && reply.Ranked? ==>
      && StoredVerbatim(r.state.rankedResumes, reply.entries)
      && r.state.jobDescriptionText == reply.jdText
      && r.notices == [RankingSucceeded]
    ensures CanRank(s) && reply.RankRejected? ==>
      && r.state.rankedResumes == [] && r.state.jobDescriptionText == ""
      && r.notices == [RankingFailed]
  {
    if s.jobDescriptionFile.None? then Refused(s, MissingJobDescription)
    else if |s.resumeFiles| == 0 then Refused(s, NoResumes)
    else
      var begun := BeginRanking(s, s.jobDescriptionFile.value);
      var done := FinishRanking(begun.state, reply);
      Step(done.state, begun.notices + done.notices, begun.requests + done.requests)
  }

  /** The reply cannot matter when a precondition fails: no request is made. */
  lemma AbortIgnoresReply(s: State, a: RankReply, b: RankReply)
    requires !CanRank(s)
    ensures HandleRankResumes(s, a) == HandleRankResumes(s, b)
    ensures HandleRankResumes(s, a).state == s && HandleRankResumes(s, a).requests == []
  {
  }

  /** Ranking replaces the previous outcome: two states that differ only in
      their old results, extracted text or ranking flag end up identical. */
  lemma RankingReplacesResults(s1: State, s2: State, reply: RankReply)
    requires CanRank(s1)
    requires s1.(rankedResumes := [], jobDescriptionText := "", isRanking := false)
          == s2.(rankedResumes := [], jobDescriptionText := "", isRanking := false)
    ensures HandleRankResumes(s1, reply) == HandleRankResumes(s2, reply)
  {
  }

  /** The service's order is kept: the first entry returned (score
      included) is the first result, the second the second. */
  lemma RankingKeepsServiceOrder(s: State, e1: ServiceEntry, e2: ServiceEntry, text: string)
    requires CanRank(s)
    ensures var r := HandleRankResumes(s, Ranked([e1, e2], text)).state.rankedResumes;
      |r| == 2 && r[0].entry == e1 && r[1].entry == e2
  {
  }
}
