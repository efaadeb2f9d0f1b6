/** The public job reads: the visible listings, one job by id, and every job. */
module JobController {
  import opened Base
  import opened Tables
  import opened Models
  import opened Joins
  import opened CompanyController

  /** `{ visible: true }` on jobs. */
  function VisibleJobs(): Job -> bool {
    (j: Job) => j.visible
  }

  datatype JobsResult = JobsResult(response: Response, jobs: seq<JobListing>)

  /** `getJobs`: the visible jobs in natural order, each company without its password. */
  function GetJobs(s: Store): (r: JobsResult)
    ensures r.response == Response(200, true, Silent)
    ensures |r.jobs| == Count(s.jobs, VisibleJobs())
    ensures forall i :: 0 <= i < |r.jobs| ==>
              && r.jobs[i].job.visible
              && Row(r.jobs[i].id, r.jobs[i].job) in s.jobs
              && r.jobs[i] == ListingOf(s, Row(r.jobs[i].id, r.jobs[i].job), false)
    ensures forall k :: 0 <= k < |s.jobs| && s.jobs[k].val.visible ==> ListingOf(s, s.jobs[k], false) in r.jobs
    ensures forall i :: 0 <= i < |r.jobs| && r.jobs[i].company.Some? ==> r.jobs[i].company.value.password.None?
  {
    var shown := Where(s.jobs, VisibleJobs());
    var r := ListingsOf(s, shown, false);
    assert forall k :: 0 <= k < |s.jobs| && s.jobs[k].val.visible ==> ListingOf(s, s.jobs[k], false) in r by {
      forall k | 0 <= k < |s.jobs| && s.jobs[k].val.visible
        ensures ListingOf(s, s.jobs[k], false) in r
      {
        assert s.jobs[k] in shown;
        var i :| 0 <= i < |shown| && shown[i] == s.jobs[k];
        assert r[i] == ListingOf(s, s.jobs[k], false);
      }
    }
    JobsResult(Response(200, true, Silent), r)
  }

  datatype JobResult = JobResult(response: Response, job: Option<JobListing>)

  /** `getJobById`: the id format is checked before any lookup, and a present job is
      returned whether or not it is visible. */
  function GetJobById(s: Store, id: IdArg): (r: JobResult)
    ensures !id.Given? ==> r == JobResult(Fail(400, "Invalid job ID format"), None)
    ensures id.Given? && !HasId(s.jobs, id.id) ==> r == JobResult(Fail(404, "Job not found"), None)
    ensures r.response.success <==> id.Given? && HasId(s.jobs, id.id)
    ensures r.response.success ==>
              && r.response == Response(200, true, Silent)
              && r.job.Some? && r.job.value.id == id.id
              && Row(id.id, r.job.value.job) in s.jobs
              && (r.job.value.company.Some? ==> r.job.value.company.value.password.None?)
    // the job's company is joined, without its password
    ensures r.response.success ==> r.job.value == ListingOf(s, s.jobs[FindId(s.jobs, id.id).value], false)
  {
    match id
    case Missing => JobResult(Fail(400, "Invalid job ID format"), None)
    case Malformed => JobResult(Fail(400, "Invalid job ID format"), None)
    case Given(jid) =>
      match FindId(s.jobs, jid)
      case None => JobResult(Fail(404, "Job not found"), None)
      case Some(k) => JobResult(Response(200, true, Silent), Some(ListingOf(s, s.jobs[k], false)))
  }

  /** `getAllJobs`: every job, unfiltered, with the company populated in full. */
  function GetAllJobs(s: Store): (r: JobsResult)
    ensures r.response == Response(200, true, Silent)
    ensures |r.jobs| == |s.jobs|
    ensures forall i :: 0 <= i < |s.jobs| ==> r.jobs[i].id == s.jobs[i].id && r.jobs[i].job == s.jobs[i].val
    // every job's company is joined whenever it still exists, password included
    ensures forall i :: 0 <= i < |s.jobs| ==> r.jobs[i] == ListingOf(s, s.jobs[i], true)
    ensures forall i :: 0 <= i < |s.jobs| ==> (r.jobs[i].company.Some? <==> HasId(s.companies, s.jobs[i].val.companyId))
    ensures forall i :: 0 <= i < |r.jobs| && r.jobs[i].company.Some? ==> r.jobs[i].company.value.password.Some?
  {
    JobsResult(Response(200, true, Silent), ListingsOf(s, s.jobs, true))
  }

  /** A listing with the company's password removed. */
  function WithoutPassword(l: JobListing): JobListing {
    l.(company := if l.company.Some? then Some(l.company.value.(password := None)) else None)
  }

  /** The visible listings, each without the company's password. */
  function PublicOf(ls: seq<JobListing>): seq<JobListing> {
    if ls == [] then []
    else if ls[0].job.visible then [WithoutPassword(ls[0])] + PublicOf(ls[1..])
    else PublicOf(ls[1..])
  }

  lemma {:induction false} PublicPart(s: Store, t: Table<Job>)
    ensures PublicOf(ListingsOf(s, t, true)) == ListingsOf(s, Where(t, VisibleJobs()), false)
  {
    if t != [] {
      var ls := ListingsOf(s, t, true);
      assert ls[1..] == ListingsOf(s, t[1..], true);
      assert WithoutPassword(ListingOf(s, t[0], true)) == ListingOf(s, t[0], false);
      PublicPart(s, t[1..]);
    }
  }

  /** The public board is the full job list cut down to its visible jobs, in the same
      order, with the company passwords removed. */
  lemma BoardIsPublicPartOfAll(s: Store)
    ensures PublicOf(GetAllJobs(s).jobs) == GetJobs(s).jobs
  {
    PublicPart(s, s.jobs);
  }

  /** Whether a job with id `jid` is among the listings. */
  predicate Listed(jobs: seq<JobListing>, jid: Id) {
    exists i :: 0 <= i < |jobs| && jobs[i].id == jid
  }

  /** A job a company has just posted is on the public board. */
  lemma PostedJobIsListed(s: Store, caller: Id, b: JobBody, now: nat)
    requires JobBodyComplete(b)
    ensures var o := PostJob(s, caller, b, now);
            Listed(GetJobs(o.store).jobs, o.store.jobs[|s.jobs|].id)
  {
    var o := PostJob(s, caller, b, now);
    var k := |s.jobs|;
    assert o.store.jobs[k].val.visible;
    var r := GetJobs(o.store).jobs;
    assert ListingOf(o.store, o.store.jobs[k], false) in r;
  }

  /** Hiding a visible job takes it off the public board, but `getJobById` still
      returns it. */
  lemma HiddenJobStillById(s: Store, caller: Id, jid: Id)
    requires UniqueIds(s.jobs)
    requires HasId(s.jobs, jid)
    requires var k := FindId(s.jobs, jid).value; s.jobs[k].val.companyId == caller && s.jobs[k].val.visible
    ensures var o := ChangeVisibility(s, caller, Given(jid));
            && o.response.success
            && !Listed(GetJobs(o.store).jobs, jid)
            && GetJobById(o.store, Given(jid)).response.success
  {
    var o := ChangeVisibility(s, caller, Given(jid));
    var k := FindId(s.jobs, jid).value;
    var t := o.store.jobs;
    assert !t[k].val.visible;
    assert forall j :: 0 <= j < |t| && j != k ==> t[j].id != jid;
    assert t[k].id == jid;
  }
}
