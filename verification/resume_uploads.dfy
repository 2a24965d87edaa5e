/** The resume list: `isDuplicateFile`, `handleResumeFileChange` and
    `handleRemoveResume` of frontend/src/App.tsx. */
module ResumeUploads {
  import opened Seqs
  import opened WorkflowState

  predicate SameNameAndSize(a: File, b: File) {
    a.name == b.name && a.size == b.size
  }

  /** Some resume already in the list has the picked file's name and byte size. */
  function IsDuplicateFile(existing: seq<ResumeFile>, f: File): (r: bool)
    ensures r <==> exists i :: 0 <= i < |existing| && SameNameAndSize(existing[i].file, f)
  {
    |existing| > 0 && (SameNameAndSize(existing[0].file, f) || IsDuplicateFile(existing[1..], f))
  }

  /** A picked file passes validation against the list as it was when the
      batch started: it is a PDF and not a duplicate of a listed resume. */
  function EligibleFor(existing: seq<ResumeFile>): (eligible: Selection -> bool) {
    (sel: Selection) => IsPdf(sel.file) && !IsDuplicateFile(existing, sel.file)
  }

  /** The files of a batch that will be uploaded, in selection order. */
  function Eligible(existing: seq<ResumeFile>, batch: seq<Selection>): (r: seq<Selection>) {
    Filter(EligibleFor(existing), batch)
  }

  /** The toast the validation pass raises for one picked file. */
  function ValidationNoticeFor(existing: seq<ResumeFile>): (notice: Selection -> seq<Notice>) {
    (sel: Selection) =>
      if !IsPdf(sel.file) then [NotPdf(sel.file.name)]
      else if IsDuplicateFile(existing, sel.file) then [DuplicateSkipped(sel.file.name)]
      else []
  }

  /** The list entry built for a file the service accepted under `id`. */
  function NewResume(id: string, f: File): (r: ResumeFile) {
    ResumeFile(id, f, "Successfully uploaded: " + f.name)
  }

  /** The entry an uploaded file contributes: one on success, none on failure. */
  function AcceptedEntry(sel: Selection): (r: seq<ResumeFile>) {
    match sel.reply
    case Uploaded(id) => [NewResume(id, sel.file)]
    case UploadRejected => []
  }

  /** The toast the upload pass raises for one file. */
  function UploadNotice(sel: Selection): (r: seq<Notice>) {
    match sel.reply
    case Uploaded(_) => [UploadSucceeded(sel.file.name)]
    case UploadRejected => [UploadFailed(sel.file.name)]
  }

  /** One upload request per file, in order. */
  function UploadRequests(files: seq<Selection>): (r: seq<Request>) {
    seq(|files|, i requires 0 <= i < |files| => UploadResume(files[i].file))
  }

  /** The entries a batch appends to the list. */
  function NewEntries(existing: seq<ResumeFile>, batch: seq<Selection>): (r: seq<ResumeFile>) {
    FlatMap(AcceptedEntry, Eligible(existing, batch))
  }

  /** Reference definition of `handleResumeFileChange`: validate every
      picked file against the old list, upload the eligible ones in order,
      append the accepted ones. A batch with nothing eligible changes no state
      and never raises the upload flag. */
  function ResumeFileChange(s: State, batch: seq<Selection>): (r: Step)
    ensures r.state.resumeFiles == s.resumeFiles + NewEntries(s.resumeFiles, batch)
    ensures r.state.(resumeFiles := s.resumeFiles, isUploadingResumes := s.isUploadingResumes) == s
    ensures Eligible(s.resumeFiles, batch) == [] ==> r.state == s
    ensures r.state.isUploadingResumes <==> s.isUploadingResumes && Eligible(s.resumeFiles, batch) == []
    ensures r.requests == UploadRequests(Eligible(s.resumeFiles, batch))
    ensures r.requests == [] <==> Eligible(s.resumeFiles, batch) == []
  {
    var eligible := Eligible(s.resumeFiles, batch);
    var checks := FlatMap(ValidationNoticeFor(s.resumeFiles), batch);
    if |eligible| == 0 then
      Step(s, checks, [])
    else
      Step(s.(resumeFiles := s.resumeFiles + FlatMap(AcceptedEntry, eligible),
              isUploadingResumes := false),
           checks + FlatMap(UploadNotice, eligible),
           UploadRequests(eligible))
  }

  /** The validation loop of `handleResumeFileChange`: every picked file is
      checked against the list as it was when the batch started. */
  method ValidateBatch(existing: seq<ResumeFile>, batch: seq<Selection>)
    returns (newFilesToAdd: seq<Selection>, notices: seq<Notice>)
    ensures newFilesToAdd == Eligible(existing, batch)
    ensures notices == FlatMap(ValidationNoticeFor(existing), batch)
  {
    newFilesToAdd := [];
    notices := [];
    for i := 0 to |batch|
      invariant newFilesToAdd == Eligible(existing, batch[..i])
      invariant notices == FlatMap(ValidationNoticeFor(existing), batch[..i])
    {
      var sel := batch[i];
      assert batch[..i + 1] == batch[..i] + [sel];
      FilterAppend(EligibleFor(existing), batch[..i], [sel]);
      FilterOne(EligibleFor(existing), sel);
      FlatMapAppend(ValidationNoticeFor(existing), batch[..i], [sel]);
      FlatMapOne(ValidationNoticeFor(existing), sel);
      if !IsPdf(sel.file) {
        notices := notices + [NotPdf(sel.file.name)];
      } else if IsDuplicateFile(existing, sel.file) {
        notices := notices + [DuplicateSkipped(sel.file.name)];
      } else {
        newFilesToAdd := newFilesToAdd + [sel];
      }
    }
    assert batch[..|batch|] == batch;
  }

  /** The upload loop of `handleResumeFileChange`: one request per file, in
      order; a failure is reported and the loop goes on with the next file. */
  method UploadAll(files: seq<Selection>)
    returns (uploaded: seq<ResumeFile>, successfulUploads: nat, notices: seq<Notice>, requests: seq<Request>)
    ensures uploaded == FlatMap(AcceptedEntry, files)
    ensures successfulUploads == |uploaded|
    ensures notices == FlatMap(UploadNotice, files)
    ensures requests == UploadRequests(files)
  {
    uploaded, successfulUploads, notices, requests := [], 0, [], [];
    for j := 0 to |files|
      invariant uploaded == FlatMap(AcceptedEntry, files[..j])
      invariant successfulUploads == |uploaded|
      invariant requests == UploadRequests(files[..j])
      invariant notices == FlatMap(UploadNotice, files[..j])
    {
      var sel := files[j];
      assert files[..j + 1] == files[..j] + [sel];
      FlatMapAppend(AcceptedEntry, files[..j], [sel]);
      FlatMapOne(AcceptedEntry, sel);
      FlatMapAppend(UploadNotice, files[..j], [sel]);
      FlatMapOne(UploadNotice, sel);
      requests := requests + [UploadResume(sel.file)];
      match sel.reply {
        case Uploaded(id) =>
          uploaded := uploaded + [NewResume(id, sel.file)];
          notices := notices + [UploadSucceeded(sel.file.name)];
          successfulUploads := successfulUploads + 1;
        case UploadRejected =>
          notices := notices + [UploadFailed(sel.file.name)];
      }
    }
    assert files[..|files|] == files;
  }

  /** `handleResumeFileChange` as written: validate, return early when
      nothing is eligible, otherwise upload and append the accepted entries
      once every file has been attempted. */
  method HandleResumeFileChange(s: State, batch: seq<Selection>) returns (step: Step)
    ensures step == ResumeFileChange(s, batch)
  {
    var newFilesToAdd, checks := ValidateBatch(s.resumeFiles, batch);
    if |newFilesToAdd| == 0 {
      return Step(s, checks, []);
    }
    var uploaded, successfulUploads, uploadNotices, requests := UploadAll(newFilesToAdd);
    var resumeFiles := s.resumeFiles;
    if successfulUploads > 0 {
      resumeFiles := resumeFiles + uploaded;
    }
    step := Step(s.(resumeFiles := resumeFiles, isUploadingResumes := false),
                 checks + uploadNotices, requests);
  }

  /** A single picked file contributes exactly its own entry, or nothing. */
  lemma NewEntriesOfOne(existing: seq<ResumeFile>, sel: Selection)
    ensures NewEntries(existing, [sel]) ==
      if IsPdf(sel.file) && !IsDuplicateFile(existing, sel.file) && sel.reply.Uploaded?
      then [NewResume(sel.reply.resumeId, sel.file)]
      else []
  {
    FilterOne(EligibleFor(existing), sel);
    if EligibleFor(existing)(sel) {
      FlatMapOne(AcceptedEntry, sel);
    }
  }

  /** Files of one batch are judged independently of each other: the
      entries of a concatenated batch are the entries of its parts, in order. */
  lemma BatchIsCompositional(existing: seq<ResumeFile>, a: seq<Selection>, b: seq<Selection>)
    ensures NewEntries(existing, a + b) == NewEntries(existing, a) + NewEntries(existing, b)
  {
    FilterAppend(EligibleFor(existing), a, b);
    FlatMapAppend(AcceptedEntry, Eligible(existing, a), Eligible(existing, b));
  }

  /** A failed upload is dropped without affecting the files around it. */
  lemma FailedUploadDropped(existing: seq<ResumeFile>, a: seq<Selection>, f: File, b: seq<Selection>)
    ensures NewEntries(existing, a + [Selection(f, UploadRejected)] + b)
         == NewEntries(existing, a) + NewEntries(existing, b)
  {
    var x := Selection(f, UploadRejected);
    BatchIsCompositional(existing, a + [x], b);
    BatchIsCompositional(existing, a, [x]);
    NewEntriesOfOne(existing, x);
  }

  /** An entry is appended exactly when some picked file was a PDF, not a
      duplicate of the old list, and accepted by the service under that id. */
  lemma {:induction false} NewEntriesMembership(existing: seq<ResumeFile>, batch: seq<Selection>, rf: ResumeFile)
    ensures rf in NewEntries(existing, batch) <==>
      exists i :: 0 <= i < |batch| && IsPdf(batch[i].file) && !IsDuplicateFile(existing, batch[i].file)
                  && batch[i].reply == Uploaded(rf.id) && rf == NewResume(rf.id, batch[i].file)
    decreases |batch|
  {
    if |batch| > 0 {
      var sel := batch[0];
      assert batch == [sel] + batch[1..];
      BatchIsCompositional(existing, [sel], batch[1..]);
      NewEntriesOfOne(existing, sel);
      NewEntriesMembership(existing, batch[1..], rf);
      var rest := batch[1..];
      assert forall i :: 0 < i < |batch| ==> batch[i] == rest[i - 1];
    }
  }

  /** Every rejected file is reported: a non-PDF as `NotPdf`, a duplicate as
      `DuplicateSkipped`. */
  lemma RejectionsReported(s: State, batch: seq<Selection>, i: int)
    requires 0 <= i < |batch|
    ensures !IsPdf(batch[i].file) ==> NotPdf(batch[i].file.name) in ResumeFileChange(s, batch).notices
    ensures IsPdf(batch[i].file) && IsDuplicateFile(s.resumeFiles, batch[i].file) ==>
      DuplicateSkipped(batch[i].file.name) in ResumeFileChange(s, batch).notices
  {
    var f := ValidationNoticeFor(s.resumeFiles);
    var n := f(batch[i]);
    if |n| > 0 {
      FlatMapIncludes(f, batch, i, n[0]);
    }
  }

  /** The same file picked twice in one batch passes validation twice, so the
      list can hold two entries with equal name and size. */
  lemma SameFileTwiceInOneBatch(f: File, id1: string, id2: string)
    requires IsPdf(f)
    ensures var r := ResumeFileChange(Init, [Selection(f, Uploaded(id1)), Selection(f, Uploaded(id2))]);
      r.state.resumeFiles == [NewResume(id1, f), NewResume(id2, f)]
  {
    var x := Selection(f, Uploaded(id1));
    var y := Selection(f, Uploaded(id2));
    assert [x, y] == [x] + [y];
    BatchIsCompositional([], [x], [y]);
    NewEntriesOfOne([], x);
    NewEntriesOfOne([], y);
  }

  /** Picking a PDF whose name and size match an already listed resume is
      skipped with a warning: state unchanged, nothing sent. */
  lemma DuplicateAcrossBatches(s: State, g: File, reply: UploadReply)
    requires IsPdf(g) && IsDuplicateFile(s.resumeFiles, g)
    ensures ResumeFileChange(s, [Selection(g, reply)]) == Refused(s, DuplicateSkipped(g.name))
  {
    var sel := Selection(g, reply);
    FilterOne(EligibleFor(s.resumeFiles), sel);
    FlatMapOne(ValidationNoticeFor(s.resumeFiles), sel);
  }

  /** Picking a.pdf again after it was uploaded leaves the one listed entry. */
  lemma DuplicateScenario(s: State, f: File, id: string, reply: UploadReply)
    requires IsPdf(f) && s.resumeFiles == [NewResume(id, f)]
    ensures ResumeFileChange(s, [Selection(f, reply)]).state.resumeFiles == [NewResume(id, f)]
  {
    assert SameNameAndSize(s.resumeFiles[0].file, f);
    DuplicateAcrossBatches(s, f, reply);
  }

  /** A non-PDF is refused locally: state unchanged, one error, no request. */
  lemma NonPdfRejected(s: State, f: File, reply: UploadReply)
    requires !IsPdf(f)
    ensures ResumeFileChange(s, [Selection(f, reply)]) == Refused(s, NotPdf(f.name))
  {
    var sel := Selection(f, reply);
    FilterOne(EligibleFor(s.resumeFiles), sel);
    FlatMapOne(ValidationNoticeFor(s.resumeFiles), sel);
  }

  function IdIsNot(id: string): (keep: ResumeFile -> bool) {
    (rf: ResumeFile) => rf.id != id
  }

  /** `handleRemoveResume`: drop every entry with this id; nothing is sent. */
  function RemoveResume(s: State, id: string): (r: Step)
    ensures forall rf :: rf in r.state.resumeFiles <==> rf in s.resumeFiles && rf.id != id
    ensures r.state == s.(resumeFiles := r.state.resumeFiles)
    ensures r.notices == [ResumeRemoved] && r.requests == []
  {
    Step(s.(resumeFiles := Filter(IdIsNot(id), s.resumeFiles)), [ResumeRemoved], [])
  }

  /** Removal keeps the remaining entries in their original order. */
  lemma RemoveResumeKeepsOrder(s: State, id: string)
    ensures IsSubseq(RemoveResume(s, id).state.resumeFiles, s.resumeFiles)
  {
    FilterIsSubseq(IdIsNot(id), s.resumeFiles);
  }

  /** Removal keeps every entry with another id as often as it was listed. */
  lemma RemoveResumeKeepsCount(s: State, id: string, rf: ResumeFile)
    requires rf.id != id
    ensures multiset(RemoveResume(s, id).state.resumeFiles)[rf] == multiset(s.resumeFiles)[rf]
  {
    FilterMultiplicity(IdIsNot(id), s.resumeFiles, rf);
  }

  /** Removing an id that is not listed leaves the state as it was. */
  lemma RemoveUnknownId(s: State, id: string)
    requires forall i :: 0 <= i < |s.resumeFiles| ==> s.resumeFiles[i].id != id
    ensures RemoveResume(s, id).state == s
  {
    FilterAll(IdIsNot(id), s.resumeFiles);
  }
}
