/** Mongoose `populate` joins, modelled as projections: a reference to a document that
    no longer exists populates to `null` (here `None`). Each `populate(path, select)`
    keeps only the selected fields. */
module Joins {
  import opened Base
  import opened Tables
  import opened Models

  /** A populated company; `password` is present only when the join did not exclude it. */
  datatype CompanyView = CompanyView(profile: CompanyProfile, password: Option<string>)

  function PopulateCompany(companies: Table<Company>, id: Id, withPassword: bool): (r: Option<CompanyView>)
    ensures r.Some? <==> HasId(companies, id)
    ensures r.Some? ==> r.value.profile.id == id
    ensures r.Some? ==> (r.value.password.Some? <==> withPassword)
  {
    match FindId(companies, id)
    case None => None
    case Some(i) =>
      Some(CompanyView(ProfileOf(companies[i]), if withPassword then Some(companies[i].val.password) else None))
  }

  /** A job with its `companyId` populated. */
  datatype JobListing = JobListing(id: Id, job: Job, company: Option<CompanyView>)

  function ListingOf(s: Store, r: Row<Job>, withPassword: bool): (l: JobListing)
    ensures l.id == r.id && l.job == r.val
    ensures l.company.Some? <==> HasId(s.companies, r.val.companyId)
    ensures l.company.Some? ==> l.company.value.profile.id == r.val.companyId
    ensures l.company.Some? ==> (l.company.value.password.Some? <==> withPassword)
  {
    JobListing(r.id, r.val, PopulateCompany(s.companies, r.val.companyId, withPassword))
  }

  function ListingsOf(s: Store, t: Table<Job>, withPassword: bool): (r: seq<JobListing>)
    ensures |r| == |t|
    ensures forall i :: 0 <= i < |t| ==> r[i] == ListingOf(s, t[i], withPassword)
  {
    if t == [] then [] else [ListingOf(s, t[0], withPassword)] + ListingsOf(s, t[1..], withPassword)
  }

  /** `populate('userId', 'name email image resume')`. */
  datatype UserSummary = UserSummary(id: Id, name: string, email: string, image: string, resume: string)

  function PopulateUser(users: Table<User>, id: Id): (r: Option<UserSummary>)
    ensures r.Some? <==> HasId(users, id)
    ensures r.Some? ==> r.value.id == id
  {
    match FindId(users, id)
    case None => None
    case Some(i) =>
      var u := users[i].val;
      Some(UserSummary(id, u.name, u.email, u.image, u.resume))
  }

  /** `populate('jobId', …)`: the company-side join omits the description, the
      candidate-side join includes it. */
  datatype JobSummary = JobSummary(
    id: Id, title: string, description: Option<string>, location: string,
    category: string, level: string, salary: string)

  function PopulateJob(jobs: Table<Job>, id: Id, withDescription: bool): (r: Option<JobSummary>)
    ensures r.Some? <==> HasId(jobs, id)
    ensures r.Some? ==> r.value.id == id && (r.value.description.Some? <==> withDescription)
  {
    match FindId(jobs, id)
    case None => None
    case Some(i) =>
      var j := jobs[i].val;
      Some(JobSummary(id, j.title, if withDescription then Some(j.description) else None,
                      j.location, j.category, j.level, j.salary))
  }

  /** An application with its three references populated. */
  datatype ApplicationView = ApplicationView(
    id: Id, user: Option<UserSummary>, company: Option<CompanyProfile>,
    job: Option<JobSummary>, status: string, date: nat)

  function ApplicationViewOf(s: Store, r: Row<JobApplication>, withDescription: bool): (v: ApplicationView)
    ensures v.id == r.id && v.status == r.val.status && v.date == r.val.date
    ensures v.user.Some? <==> HasId(s.users, r.val.userId)
    ensures v.job.Some? <==> HasId(s.jobs, r.val.jobId)
  {
    var c := PopulateCompany(s.companies, r.val.companyId, false);
    ApplicationView(
      r.id,
      PopulateUser(s.users, r.val.userId),
      if c.Some? then Some(c.value.profile) else None,
      PopulateJob(s.jobs, r.val.jobId, withDescription),
      r.val.status,
      r.val.date)
  }

  function ApplicationViewsOf(s: Store, t: Table<JobApplication>, withDescription: bool): (r: seq<ApplicationView>)
    ensures |r| == |t|
    ensures forall i :: 0 <= i < |t| ==> r[i] == ApplicationViewOf(s, t[i], withDescription)
  {
    if t == [] then [] else [ApplicationViewOf(s, t[0], withDescription)] + ApplicationViewsOf(s, t[1..], withDescription)
  }
}
