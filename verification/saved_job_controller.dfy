/** The routed saved-job handlers: the toggle and the listing. The SavedJob schema
    declares no uniqueness on (userId, jobId); "at most one record per pair" holds only
    because every write goes through the toggle, applied one request at a time. */
module SavedJobController {
  import opened Base
  import opened Tables
  import opened Models
  import opened Joins
  import opened UserController

  // ----- toggleSaveJob -------------------------------------------------------------

  function ToggleSaveJob(s: Store, auth: AuthContext, jobId: IdArg, now: nat): (o: Outcome)
    ensures !o.response.success ==> o.store == s
    ensures o.store == s.(savedJobs := o.store.savedJobs)
    // `req.auth.userId` throws when there is no `req.auth`
    ensures auth.NoAuth? ==> o.response == ServerError
    ensures auth.Auth? && (jobId.Missing? || !Truthy(auth.userId)) ==>
              o.response == Fail(400, "Job ID and User ID required")
    ensures auth.Auth? && Truthy(auth.userId) && jobId.Malformed? ==> o.response == ServerError
    ensures o.response.success <==> auth.Auth? && Truthy(auth.userId) && jobId.Given?
    // an existing record for the pair: exactly that record is removed
    ensures o.response.success && Find(s.savedJobs, SavedPair(auth.userId.value, jobId.id)).Some? ==>
              && o.response.message == Says("Job unsaved")
              && o.store.savedJobs == RemoveAt(s.savedJobs, Find(s.savedJobs, SavedPair(auth.userId.value, jobId.id)).value)
    // none: exactly one record {userId, jobId} is added
    ensures o.response.success && Find(s.savedJobs, SavedPair(auth.userId.value, jobId.id)).None? ==>
              && o.response.message == Says("Job saved")
              && |o.store.savedJobs| == |s.savedJobs| + 1
              && o.store.savedJobs[..|s.savedJobs|] == s.savedJobs
              && o.store.savedJobs[|s.savedJobs|].val == SavedJob(auth.userId.value, jobId.id, now)
  {
    if auth.NoAuth? then Outcome(s, ServerError)
    else if jobId.Missing? || !Truthy(auth.userId) then Outcome(s, Fail(400, "Job ID and User ID required"))
    else if jobId.Malformed? then Outcome(s, ServerError)
    else ToggleSaved(s, auth.userId.value, jobId.id, now)
  }

  /** With both ids present, the unrouted `saveJob` and the routed toggle agree. */
  lemma SaveJobAgreesWithToggle(s: Store, auth: AuthContext, jobId: IdArg, now: nat)
    requires auth.Auth? && Truthy(auth.userId) && jobId.Given?
    ensures SaveJob(s, auth, jobId, now) == ToggleSaveJob(s, auth, jobId, now)
  {
  }

  // ----- the pair invariant --------------------------------------------------------

  predicate SamePair(a: SavedJob, b: SavedJob) {
    a.userId == b.userId && a.jobId == b.jobId
  }

  predicate AtMostOnePerPair(t: Table<SavedJob>) {
    forall i, j :: 0 <= i < j < |t| ==> !SamePair(t[i].val, t[j].val)
  }

  predicate IsSaved(t: Table<SavedJob>, userId: string, jobId: Id) {
    exists i :: 0 <= i < |t| && t[i].val.userId == userId && t[i].val.jobId == jobId
  }

  /** The (userId, jobId) pairs that are saved. */
  function Pairs(t: Table<SavedJob>): set<(string, Id)> {
    set i | 0 <= i < |t| :: (t[i].val.userId, t[i].val.jobId)
  }

  /** One toggle flips the pair, keeps the invariant, and leaves every record of every
      other pair where it was. */
  lemma ToggleFlipsPair(s: Store, userId: string, jobId: Id, now: nat)
    requires AtMostOnePerPair(s.savedJobs)
    ensures var t := ToggleSaved(s, userId, jobId, now).store.savedJobs;
            && AtMostOnePerPair(t)
            && (IsSaved(t, userId, jobId) <==> !IsSaved(s.savedJobs, userId, jobId))
            && forall r: Row<SavedJob> :: !(r.val.userId == userId && r.val.jobId == jobId) ==> (r in t <==> r in s.savedJobs)
  {
    if Find(s.savedJobs, SavedPair(userId, jobId)).Some? {
      ToggleRemovesPair(s, userId, jobId, now);
    } else {
      ToggleAddsPair(s, userId, jobId, now);
    }
  }

  /** The removing half of ToggleFlipsPair. */
  lemma ToggleRemovesPair(s: Store, userId: string, jobId: Id, now: nat)
    requires AtMostOnePerPair(s.savedJobs)
    requires Find(s.savedJobs, SavedPair(userId, jobId)).Some?
    ensures var t := ToggleSaved(s, userId, jobId, now).store.savedJobs;
            && AtMostOnePerPair(t)
            && !IsSaved(t, userId, jobId)
            && forall r: Row<SavedJob> :: !(r.val.userId == userId && r.val.jobId == jobId) ==> (r in t <==> r in s.savedJobs)
  {
    var b := s.savedJobs;
    var t := ToggleSaved(s, userId, jobId, now).store.savedJobs;
    var k := Find(b, SavedPair(userId, jobId)).value;
    assert t == b[..k] + b[k + 1..];
    assert b == b[..k] + [b[k]] + b[k + 1..];
    forall i | 0 <= i < |t|
      ensures !(t[i].val.userId == userId && t[i].val.jobId == jobId)
    {
      if i < k { assert t[i] == b[i]; } else { assert t[i] == b[i + 1]; }
    }
  }

  /** The adding half of ToggleFlipsPair. */
  lemma ToggleAddsPair(s: Store, userId: string, jobId: Id, now: nat)
    requires AtMostOnePerPair(s.savedJobs)
    requires Find(s.savedJobs, SavedPair(userId, jobId)).None?
    ensures var t := ToggleSaved(s, userId, jobId, now).store.savedJobs;
            && AtMostOnePerPair(t)
            && IsSaved(t, userId, jobId)
            && forall r: Row<SavedJob> :: !(r.val.userId == userId && r.val.jobId == jobId) ==> (r in t <==> r in s.savedJobs)
  {
    var b := s.savedJobs;
    var t := ToggleSaved(s, userId, jobId, now).store.savedJobs;
    assert t == b + [t[|b|]];
    assert t[|b|].val == SavedJob(userId, jobId, now);
  }

  /** Two tables that agree on one pair's presence and on every record of every other
      pair save the same pairs. */
  lemma PairsAgree(a: Table<SavedJob>, b: Table<SavedJob>, userId: string, jobId: Id)
    requires IsSaved(a, userId, jobId) <==> IsSaved(b, userId, jobId)
    requires forall r: Row<SavedJob> :: !(r.val.userId == userId && r.val.jobId == jobId) ==> (r in a <==> r in b)
    ensures Pairs(a) == Pairs(b)
  {
    forall p | p in Pairs(a)
      ensures p in Pairs(b)
    {
      var i :| 0 <= i < |a| && p == (a[i].val.userId, a[i].val.jobId);
      if p != (userId, jobId) {
        assert a[i] in b;
        var m :| 0 <= m < |b| && b[m] == a[i];
      } else {
        var m :| 0 <= m < |b| && b[m].val.userId == userId && b[m].val.jobId == jobId;
      }
    }
    forall p | p in Pairs(b)
      ensures p in Pairs(a)
    {
      var i :| 0 <= i < |b| && p == (b[i].val.userId, b[i].val.jobId);
      if p != (userId, jobId) {
        assert b[i] in a;
        var m :| 0 <= m < |a| && a[m] == b[i];
      } else {
        var m :| 0 <= m < |a| && a[m].val.userId == userId && a[m].val.jobId == jobId;
      }
    }
  }

  /** Two consecutive toggles of a pair restore the set of saved pairs; when the pair
      was not saved they restore the very same records. */
  lemma ToggleTwiceRestores(s: Store, userId: string, jobId: Id, now1: nat, now2: nat)
    requires AtMostOnePerPair(s.savedJobs)
    ensures var o1 := ToggleSaved(s, userId, jobId, now1);
            var o2 := ToggleSaved(o1.store, userId, jobId, now2);
            && Pairs(o2.store.savedJobs) == Pairs(s.savedJobs)
            && (!IsSaved(s.savedJobs, userId, jobId) ==> o2.store == s)
  {
    var b := s.savedJobs;
    var o1 := ToggleSaved(s, userId, jobId, now1);
    var o2 := ToggleSaved(o1.store, userId, jobId, now2);
    ToggleFlipsPair(s, userId, jobId, now1);
    ToggleFlipsPair(o1.store, userId, jobId, now2);
    PairsAgree(o2.store.savedJobs, b, userId, jobId);
    if !IsSaved(b, userId, jobId) {
      var t1 := o1.store.savedJobs;
      assert Find(b, SavedPair(userId, jobId)).None?;
      assert Find(t1, SavedPair(userId, jobId)) == Some(|b|) by {
        assert forall j :: 0 <= j < |b| ==> t1[j] == b[j];
      }
      assert o2.store.savedJobs == t1[..|b|];
    }
  }

  /** Toggling one pair `n` times: it ends saved exactly when it started unsaved and `n`
      is odd, or started saved and `n` is even; the invariant holds throughout. */
  function ToggleRepeatedly(s: Store, userId: string, jobId: Id, nows: seq<nat>): Store
    decreases |nows|
  {
    if nows == [] then s
    else ToggleRepeatedly(ToggleSaved(s, userId, jobId, nows[0]).store, userId, jobId, nows[1..])
  }

  /** Parity of a count, by recursion so that each toggle flips it. */
  predicate Odd(n: nat) {
    n > 0 && !Odd(n - 1)
  }

  lemma {:induction false} ToggleParity(s: Store, userId: string, jobId: Id, nows: seq<nat>)
    requires AtMostOnePerPair(s.savedJobs)
    decreases |nows|
    ensures var e := ToggleRepeatedly(s, userId, jobId, nows).savedJobs;
            && AtMostOnePerPair(e)
            && (IsSaved(e, userId, jobId) <==> (IsSaved(s.savedJobs, userId, jobId) != Odd(|nows|)))
  {
    if nows != [] {
      var s1 := ToggleSaved(s, userId, jobId, nows[0]).store;
      ToggleFlipsPair(s, userId, jobId, nows[0]);
      var b0 := IsSaved(s.savedJobs, userId, jobId);
      var b1 := IsSaved(s1.savedJobs, userId, jobId);
      assert b1 == !b0;
      ToggleParity(s1, userId, jobId, nows[1..]);
      var e := ToggleRepeatedly(s1, userId, jobId, nows[1..]).savedJobs;
      assert ToggleRepeatedly(s, userId, jobId, nows).savedJobs == e;
      assert Odd(|nows|) == !Odd(|nows[1..]|);
    }
  }

  /** Any sequence of toggle requests, for any users and jobs, keeps at most one record
      per pair. */
  datatype ToggleRequest = ToggleRequest(auth: AuthContext, jobId: IdArg, now: nat)

  function RunToggles(s: Store, reqs: seq<ToggleRequest>): Store
    decreases |reqs|
  {
    if reqs == [] then s
    else RunToggles(ToggleSaveJob(s, reqs[0].auth, reqs[0].jobId, reqs[0].now).store, reqs[1..])
  }

  lemma {:induction false} TogglesKeepAtMostOne(s: Store, reqs: seq<ToggleRequest>)
    requires AtMostOnePerPair(s.savedJobs)
    decreases |reqs|
    ensures AtMostOnePerPair(RunToggles(s, reqs).savedJobs)
  {
    if reqs != [] {
      var r := reqs[0];
      var o := ToggleSaveJob(s, r.auth, r.jobId, r.now);
      if o.response.success {
        ToggleFlipsPair(s, r.auth.userId.value, r.jobId.id, r.now);
      }
      TogglesKeepAtMostOne(o.store, reqs[1..]);
    }
  }

  // ----- getSavedJobs --------------------------------------------------------------

  /** A saved record with `jobId` populated, and inside it `companyId` populated in full. */
  datatype SavedJobView = SavedJobView(id: Id, userId: string, job: Option<JobListing>, createdAt: nat)

  function SavedViewOf(s: Store, r: Row<SavedJob>): SavedJobView {
    var k := FindId(s.jobs, r.val.jobId);
    SavedJobView(r.id, r.val.userId, if k.Some? then Some(ListingOf(s, s.jobs[k.value], true)) else None, r.val.createdAt)
  }

  function SavedViewsOf(s: Store, t: Table<SavedJob>): (r: seq<SavedJobView>)
    ensures |r| == |t|
    ensures forall i :: 0 <= i < |t| ==> r[i] == SavedViewOf(s, t[i])
  {
    if t == [] then [] else [SavedViewOf(s, t[0])] + SavedViewsOf(s, t[1..])
  }

  datatype SavedJobsResult = SavedJobsResult(response: Response, jobs: seq<SavedJobView>)

  function GetSavedJobs(s: Store, auth: AuthContext): (r: SavedJobsResult)
    ensures auth.NoAuth? ==> r.response == ServerError && r.jobs == []
    ensures auth.Auth? && !Truthy(auth.userId) ==> r == SavedJobsResult(Fail(401, "Unauthorized"), [])
    ensures r.response.success <==> auth.Auth? && Truthy(auth.userId)
    // exactly the caller's records, in natural order
    ensures r.response.success ==>
              && |r.jobs| == Count(s.savedJobs, SavedBy(auth.userId.value))
              && (forall i :: 0 <= i < |r.jobs| ==> r.jobs[i].userId == auth.userId.value)
              && (forall k :: 0 <= k < |s.savedJobs| && s.savedJobs[k].val.userId == auth.userId.value ==>
                    SavedViewOf(s, s.savedJobs[k]) in r.jobs)
              && r.jobs == SavedViewsOf(s, Where(s.savedJobs, SavedBy(auth.userId.value)))
    // the nested join does not project the company's password away
    ensures forall i :: 0 <= i < |r.jobs| && r.jobs[i].job.Some? && r.jobs[i].job.value.company.Some? ==>
              r.jobs[i].job.value.company.value.password.Some?
  {
    if auth.NoAuth? then SavedJobsResult(ServerError, [])
    else if !Truthy(auth.userId) then SavedJobsResult(Fail(401, "Unauthorized"), [])
    else
      var mine := Where(s.savedJobs, SavedBy(auth.userId.value));
      assert forall k :: 0 <= k < |s.savedJobs| && s.savedJobs[k].val.userId == auth.userId.value ==>
               s.savedJobs[k] in mine;
      SavedJobsResult(Response(200, true, Silent), SavedViewsOf(s, mine))
  }
}
