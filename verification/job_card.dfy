/** A job card: whether its bookmark shows "saved", how a toggle reply changes that,
    and the description preview. */
module JobCard {
  import opened Base
  import opened Tables
  import opened Models
  import opened Joins
  import opened UserController
  import opened SavedJobController

  // ----- the saved check on load ---------------------------------------------------

  /** `jobs.some(item => item.jobId._id === job._id)` over the caller's saved list.
      A record whose job was deleted populates to null, and reading `_id` of it throws:
      `None` is that exception, met before any match. */
  function CheckSaved(list: seq<SavedJobView>, jobId: Id): (r: Option<bool>)
    ensures r == Some(false) <==> forall i :: 0 <= i < |list| ==> list[i].job.Some? && list[i].job.value.id != jobId
    ensures r == Some(true) <==>
              exists i :: && 0 <= i < |list| && list[i].job.Some? && list[i].job.value.id == jobId
                          && forall j :: 0 <= j < i ==> list[j].job.Some?
  {
    if list == [] then Some(false)
    else if list[0].job.None? then None
    else if list[0].job.value.id == jobId then Some(true)
    else
      var rest := CheckSaved(list[1..], jobId);
      assert forall i :: 1 <= i < |list| ==> list[i] == list[1..][i - 1];
      rest
  }

  /** The card's flag after the load check: a thrown check leaves it as it was. */
  function SavedAfterCheck(prior: bool, check: Option<bool>): (saved: bool)
    ensures check.None? ==> saved == prior
    ensures check.Some? ==> saved == check.value
  {
    if check.None? then prior else check.value
  }

  /** While every saved job of the caller still exists, the load check reports exactly
      whether the server holds a record for (caller, job). */
  lemma CheckMatchesServer(s: Store, userId: string, jobId: Id)
    requires userId != ""
    requires forall k :: 0 <= k < |s.savedJobs| && s.savedJobs[k].val.userId == userId ==>
               HasId(s.jobs, s.savedJobs[k].val.jobId)
    ensures CheckSaved(GetSavedJobs(s, Auth(Some(userId))).jobs, jobId) == Some(IsSaved(s.savedJobs, userId, jobId))
  {
    SavedListOf(s, userId);
    CheckOverRecords(s, userId, jobId);
  }

  lemma CheckOverRecords(s: Store, userId: string, jobId: Id)
    requires forall k :: 0 <= k < |s.savedJobs| && s.savedJobs[k].val.userId == userId ==>
               HasId(s.jobs, s.savedJobs[k].val.jobId)
    ensures CheckSaved(SavedViewsOf(s, Where(s.savedJobs, SavedBy(userId))), jobId) == Some(IsSaved(s.savedJobs, userId, jobId))
  {
    var list := SavedViewsOf(s, Where(s.savedJobs, SavedBy(userId)));
    MineResolve(s, userId);
    CheckSavedAllPresent(list, jobId);
    if IsSaved(s.savedJobs, userId, jobId) {
      SavedPairListed(s, userId, jobId);
    } else {
      UnsavedPairUnlisted(s, userId, jobId);
    }
  }

  /** Some entry of the list carries job `jobId`. */
  predicate ListsJob(list: seq<SavedJobView>, jobId: Id) {
    exists i :: 0 <= i < |list| && list[i].job.Some? && list[i].job.value.id == jobId
  }

  lemma SavedPairListed(s: Store, userId: string, jobId: Id)
    requires forall k :: 0 <= k < |s.savedJobs| && s.savedJobs[k].val.userId == userId ==>
               HasId(s.jobs, s.savedJobs[k].val.jobId)
    requires IsSaved(s.savedJobs, userId, jobId)
    ensures ListsJob(SavedViewsOf(s, Where(s.savedJobs, SavedBy(userId))), jobId)
  {
    var mine := Where(s.savedJobs, SavedBy(userId));
    var list := SavedViewsOf(s, mine);
    MineResolve(s, userId);
    var k :| 0 <= k < |s.savedJobs| && s.savedJobs[k].val.userId == userId && s.savedJobs[k].val.jobId == jobId;
    assert s.savedJobs[k] in mine;
    var i :| 0 <= i < |mine| && mine[i] == s.savedJobs[k];
    assert i < |list| && list[i].job.value.id == mine[i].val.jobId;
  }

  lemma UnsavedPairUnlisted(s: Store, userId: string, jobId: Id)
    requires forall k :: 0 <= k < |s.savedJobs| && s.savedJobs[k].val.userId == userId ==>
               HasId(s.jobs, s.savedJobs[k].val.jobId)
    requires !IsSaved(s.savedJobs, userId, jobId)
    ensures var list := SavedViewsOf(s, Where(s.savedJobs, SavedBy(userId)));
            forall i :: 0 <= i < |list| && list[i].job.Some? ==> list[i].job.value.id != jobId
  {
    var mine := Where(s.savedJobs, SavedBy(userId));
    var list := SavedViewsOf(s, mine);
    MineResolve(s, userId);
    forall i | 0 <= i < |list| && list[i].job.Some?
      ensures list[i].job.value.id != jobId
    {
      assert mine[i] in s.savedJobs;
    }
  }

  lemma SavedListOf(s: Store, userId: string)
    requires userId != ""
    ensures GetSavedJobs(s, Auth(Some(userId))).jobs == SavedViewsOf(s, Where(s.savedJobs, SavedBy(userId)))
  {
  }

  /** When every record still has its job, the check is plain membership. */
  lemma CheckSavedAllPresent(list: seq<SavedJobView>, jobId: Id)
    requires forall i :: 0 <= i < |list| ==> list[i].job.Some?
    ensures CheckSaved(list, jobId) == Some(exists i :: 0 <= i < |list| && list[i].job.value.id == jobId)
  {
    if exists i :: 0 <= i < |list| && list[i].job.value.id == jobId {
      var i :| 0 <= i < |list| && list[i].job.value.id == jobId;
      assert forall j :: 0 <= j < i ==> list[j].job.Some?;
    }
  }

  /** The caller's populated records all carry their job, in the order of the records. */
  lemma MineResolve(s: Store, userId: string)
    requires forall k :: 0 <= k < |s.savedJobs| && s.savedJobs[k].val.userId == userId ==>
               HasId(s.jobs, s.savedJobs[k].val.jobId)
    ensures var mine := Where(s.savedJobs, SavedBy(userId));
            var list := SavedViewsOf(s, mine);
            forall i :: 0 <= i < |list| ==> list[i].job.Some? && list[i].job.value.id == mine[i].val.jobId
  {
    var mine := Where(s.savedJobs, SavedBy(userId));
    forall i | 0 <= i < |mine|
      ensures HasId(s.jobs, mine[i].val.jobId)
    {
      assert mine[i] in s.savedJobs;
    }
  }

  // ----- the toggle ----------------------------------------------------------------

  /** How the toggle request came back: a reply body, or a thrown request. */
  datatype ToggleReply = Replied(message: Message) | Failed

  /** `setSaved(res.data.message === "Job saved")`; a thrown request changes nothing. */
  function SavedAfterToggle(prior: bool, reply: ToggleReply): (saved: bool)
    ensures reply.Failed? ==> saved == prior
    ensures reply.Replied? ==> (saved <==> reply.message == Says("Job saved"))
  {
    match reply
    case Failed => prior
    case Replied(m) => m == Says("Job saved")
  }

  /** After a toggle the bookmark agrees with the server: it shows "saved" exactly when
      a record for (caller, job) now exists. */
  lemma ToggleUpdatesCard(s: Store, userId: string, jobId: Id, now: nat, prior: bool)
    requires AtMostOnePerPair(s.savedJobs)
    requires userId != ""
    ensures var o := ToggleSaveJob(s, Auth(Some(userId)), Given(jobId), now);
            SavedAfterToggle(prior, Replied(o.response.message)) == IsSaved(o.store.savedJobs, userId, jobId)
  {
    ToggleFlipsPair(s, userId, jobId, now);
    if IsSaved(s.savedJobs, userId, jobId) {
      var k :| 0 <= k < |s.savedJobs| && s.savedJobs[k].val.userId == userId && s.savedJobs[k].val.jobId == jobId;
      assert SavedPair(userId, jobId)(s.savedJobs[k].val);
    }
  }

  // ----- the description preview --------------------------------------------------

  const PreviewLength: nat := 158

  /** The first 158 characters of a description (all of it when shorter). */
  function Head(d: string): (h: string)
    ensures |h| == if |d| < PreviewLength then |d| else PreviewLength
    ensures h == d[..|h|]
  {
    JsSlice(d, 0, PreviewLength)
  }

  /** `job.description?.slice(0, 158) + "..." || ""` as written: the concatenation is
      never falsy (a missing description becomes the text "undefined..."), so the `""`
      fallback is never taken. */
  function PreviewAsWritten(description: Option<string>): (p: string)
    ensures |p| >= 3 && p[|p| - 3..] == "..."
  {
    (if description.None? then "undefined" else Head(description.value)) + "..."
  }

  lemma PreviewFallbackDead(description: Option<string>)
    ensures PreviewAsWritten(description) != ""
    ensures description.None? ==> PreviewAsWritten(description) == "undefined..."
  {
  }

  /** The preview as evidently intended: empty without a description, otherwise its
      first 158 characters followed by "...". */
  function Preview(description: Option<string>): (p: string)
    ensures description.None? ==> p == ""
    ensures description.Some? ==>
              && |p| == |Head(description.value)| + 3 && |p| <= PreviewLength + 3
              && p[..|p| - 3] == description.value[..|p| - 3]
              && p[|p| - 3..] == "..."
  {
    if description.None? then "" else Head(description.value) + "..."
  }

  /** The two previews differ only when the description is missing. */
  lemma PreviewAgreesWhenPresent(d: string)
    ensures Preview(Some(d)) == PreviewAsWritten(Some(d))
  {
  }
}
