/** The company-side handlers: registration and login, posting jobs, listing the
    company's jobs and applicants, deciding applications and toggling job visibility.
    Every handler behind `protectCompany` receives the resolved company id `caller`. */
module CompanyController {
  import opened Base
  import opened Tables
  import opened Models
  import opened Joins
  import opened CompanyAuth

  // ----- registerCompany -----------------------------------------------------------

  datatype RegisterBody = RegisterBody(name: Option<string>, email: Option<string>, password: Option<string>, hasImage: bool)

  predicate RegisterComplete(b: RegisterBody) {
    Truthy(b.name) && Truthy(b.email) && Truthy(b.password) && b.hasImage
  }

  function CompanyWithEmail(email: string): Company -> bool {
    (c: Company) => c.email == email
  }

  predicate EmailRegistered(companies: Table<Company>, email: string) {
    exists i :: 0 <= i < |companies| && companies[i].val.email == email
  }

  /** `hash` is what `bcrypt.hash(password, 10)` returns; `upload` is the logo upload. */
  function RegisterCompany(s: Store, b: RegisterBody, hash: string, upload: UploadOutcome): (o: Outcome)
    ensures !RegisterComplete(b) ==> o == Outcome(s, Fail(400, "Missing details"))
    ensures RegisterComplete(b) && EmailRegistered(s.companies, b.email.value) ==>
              o == Outcome(s, Fail(400, "Company already registered"))
    ensures o.response.success <==>
              RegisterComplete(b) && !EmailRegistered(s.companies, b.email.value) && upload.Uploaded?
    ensures !o.response.success ==> o.store == s
    ensures o.response.success ==>
              && o.response.code == 201
              && o.store == s.(companies := o.store.companies)
              && |o.store.companies| == |s.companies| + 1
              && o.store.companies[..|s.companies|] == s.companies
              && o.store.companies[|s.companies|].val == Company(b.name.value, b.email.value, hash, upload.url)
  {
    if !RegisterComplete(b) then Outcome(s, Fail(400, "Missing details"))
    else if Find(s.companies, CompanyWithEmail(b.email.value)).Some? then
      Outcome(s, Fail(400, "Company already registered"))
    else match upload
      case UploadFailed => Outcome(s, ServerError)
      case Uploaded(url) =>
        var c := Company(b.name.value, b.email.value, hash, url);
        Outcome(s.(companies := Insert(s.companies, c)), Response(201, true, Silent))
  }

  // ----- loginCompany --------------------------------------------------------------

  /** A parsed body; `otherKeys` says whether it has keys besides `email`/`password`. */
  datatype LoginBody = LoginBody(email: Option<string>, password: Option<string>, otherKeys: bool)

  datatype LoginResult = LoginResult(response: Response, company: Option<CompanyProfile>)

  /** A missing body and `{}` are both "empty". */
  predicate BodyEmpty(body: Option<LoginBody>) {
    body.None? || (body.value.email.None? && body.value.password.None? && !body.value.otherKeys)
  }

  /** `compare(password, hash)` is `bcrypt.compare`. */
  function LoginCompany(s: Store, body: Option<LoginBody>, compare: (string, string) -> bool): (r: LoginResult)
    ensures BodyEmpty(body) ==> r.response == Fail(400, "Request body is empty or not parsed correctly")
    ensures !BodyEmpty(body) && !(Truthy(body.value.email) && Truthy(body.value.password)) ==>
              r.response == Fail(400, "Email and password are required")
    ensures !BodyEmpty(body) && Truthy(body.value.email) && Truthy(body.value.password) ==>
              (r.response.code == 404 <==> !EmailRegistered(s.companies, body.value.email.value))
    ensures r.response.code == 404 ==> r.response.message == Says("Company not found")
    ensures r.response.code == 401 ==> r.response.message == Says("Invalid email or password")
    // a registered email with a failed comparison is answered 401
    ensures !BodyEmpty(body) && Truthy(body.value.email) && Truthy(body.value.password)
            && EmailRegistered(s.companies, body.value.email.value) && !r.response.success ==>
              r.response == Fail(401, "Invalid email or password")
    // success means the first company with that email has a matching hash
    ensures r.response.success <==>
              && !BodyEmpty(body) && Truthy(body.value.email) && Truthy(body.value.password)
              && var k := Find(s.companies, CompanyWithEmail(body.value.email.value));
                 k.Some? && compare(body.value.password.value, s.companies[k.value].val.password)
    ensures r.company.Some? <==> r.response.success
    ensures r.company.Some? ==> r.company.value.email == body.value.email.value
    ensures r.company.Some? ==>
              r.company.value == ProfileOf(s.companies[Find(s.companies, CompanyWithEmail(body.value.email.value)).value])
  {
    if BodyEmpty(body) then LoginResult(Fail(400, "Request body is empty or not parsed correctly"), None)
    else if !Truthy(body.value.email) || !Truthy(body.value.password) then
      LoginResult(Fail(400, "Email and password are required"), None)
    else match Find(s.companies, CompanyWithEmail(body.value.email.value))
      case None => LoginResult(Fail(404, "Company not found"), None)
      case Some(k) =>
        if compare(body.value.password.value, s.companies[k].val.password) then
          LoginResult(Response(200, true, Silent), Some(ProfileOf(s.companies[k])))
        else LoginResult(Fail(401, "Invalid email or password"), None)
  }

  /** A company that has just registered can log in with the same email and password
      (when the hash oracle matches them) and receives its own new profile. */
  lemma RegisterThenLogin(s: Store, b: RegisterBody, hash: string, upload: UploadOutcome,
                          compare: (string, string) -> bool, otherKeys: bool)
    requires RegisterCompany(s, b, hash, upload).response.success
    requires compare(b.password.value, hash)
    ensures var s1 := RegisterCompany(s, b, hash, upload).store;
            var r := LoginCompany(s1, Some(LoginBody(b.email, b.password, otherKeys)), compare);
            && r.response.success
            && r.company == Some(ProfileOf(s1.companies[|s.companies|]))
  {
    RegisteredFoundLast(s, b, hash, upload);
  }

  /** After a registration the email lookup finds the appended company. */
  lemma RegisteredFoundLast(s: Store, b: RegisterBody, hash: string, upload: UploadOutcome)
    requires RegisterCompany(s, b, hash, upload).response.success
    ensures Find(RegisterCompany(s, b, hash, upload).store.companies, CompanyWithEmail(b.email.value)) == Some(|s.companies|)
  {
    var s1 := RegisterCompany(s, b, hash, upload).store;
    var n := |s.companies|;
    assert forall j :: 0 <= j < n ==> s1.companies[j] == s.companies[j];
    assert CompanyWithEmail(b.email.value)(s1.companies[n].val);
  }

  /** A token that verifies to the id of the company that just logged in lets exactly
      that company through `protectCompany`, with the profile the login returned. */
  lemma LoginTokenAdmits(s: Store, body: Option<LoginBody>, compare: (string, string) -> bool,
                         h: Headers, verify: string -> VerifyOutcome)
    requires UniqueIds(s.companies)
    requires LoginCompany(s, body, compare).company.Some?
    requires Truthy(SelectToken(h))
    requires verify(SelectToken(h).value) == Decoded(Given(LoginCompany(s, body, compare).company.value.id))
    ensures ProtectCompany(h, verify, s.companies) == Next(LoginCompany(s, body, compare).company.value)
  {
    var k := Find(s.companies, CompanyWithEmail(body.value.email.value)).value;
    assert FindId(s.companies, s.companies[k].id) == Some(k);
  }

  // ----- postJob -------------------------------------------------------------------

  datatype JobBody = JobBody(
    title: Option<string>, description: Option<string>, location: Option<string>,
    salary: Option<string>, level: Option<string>, category: Option<string>)

  predicate JobBodyComplete(b: JobBody) {
    Truthy(b.title) && Truthy(b.description) && Truthy(b.location)
    && Truthy(b.salary) && Truthy(b.level) && Truthy(b.category)
  }

  function PostJob(s: Store, caller: Id, b: JobBody, now: nat): (o: Outcome)
    ensures !JobBodyComplete(b) ==> o == Outcome(s, Fail(400, "Missing required job details"))
    ensures JobBodyComplete(b) ==>
              && o.response == Response(201, true, Silent)
              && o.store == s.(jobs := o.store.jobs)
              && |o.store.jobs| == |s.jobs| + 1
              && o.store.jobs[..|s.jobs|] == s.jobs
              && !HasId(s.jobs, o.store.jobs[|s.jobs|].id)
              && var j := o.store.jobs[|s.jobs|].val;
                 && j.companyId == caller && j.visible && j.date == now
                 && j.title == b.title.value && j.description == b.description.value
                 && j.location == b.location.value && j.salary == b.salary.value
                 && j.level == b.level.value && j.category == b.category.value
  {
    if !JobBodyComplete(b) then Outcome(s, Fail(400, "Missing required job details"))
    else
      var j := Job(b.title.value, b.description.value, b.location.value, b.salary.value,
                   b.level.value, b.category.value, caller, now, true);
      Outcome(s.(jobs := Insert(s.jobs, j)), Response(201, true, Silent))
  }

  // ----- getCompanyJobApplicants ---------------------------------------------------

  /** The applications whose denormalised `companyId` is the caller, in natural order,
      with user, company and job populated. */
  function GetCompanyJobApplicants(s: Store, caller: Id): (r: seq<ApplicationView>)
    ensures |r| == Count(s.applications, ApplicationsFor(caller))
    ensures forall i :: 0 <= i < |r| ==>
              exists k :: 0 <= k < |s.applications| && s.applications[k].val.companyId == caller
                          && r[i] == ApplicationViewOf(s, s.applications[k], false)
    ensures forall k :: 0 <= k < |s.applications| && s.applications[k].val.companyId == caller ==>
              exists i :: 0 <= i < |r| && r[i] == ApplicationViewOf(s, s.applications[k], false)
  {
    var mine := Where(s.applications, ApplicationsFor(caller));
    var r := ApplicationViewsOf(s, mine, false);
    assert forall i :: 0 <= i < |r| ==> r[i] == ApplicationViewOf(s, mine[i], false);
    assert forall k :: 0 <= k < |s.applications| && s.applications[k].val.companyId == caller ==>
             s.applications[k] in mine;
    r
  }

  // ----- getCompanyPostedJobs ------------------------------------------------------

  datatype PostedJob = PostedJob(id: Id, job: Job, applicants: nat)

  /** The number of applications, by anyone, to job `jobId`. */
  function ApplicantCount(apps: Table<JobApplication>, jobId: Id): nat {
    Count(apps, ApplicationsTo(jobId))
  }

  function PostedJobsOf(s: Store, t: Table<Job>): (r: seq<PostedJob>)
    ensures |r| == |t|
    ensures forall i :: 0 <= i < |t| ==>
              r[i] == PostedJob(t[i].id, t[i].val, ApplicantCount(s.applications, t[i].id))
  {
    if t == [] then []
    else [PostedJob(t[0].id, t[0].val, ApplicantCount(s.applications, t[0].id))] + PostedJobsOf(s, t[1..])
  }

  function GetCompanyPostedJobs(s: Store, caller: Id): (r: seq<PostedJob>)
    ensures forall i :: 0 <= i < |r| ==>
              && r[i].job.companyId == caller
              && Row(r[i].id, r[i].job) in s.jobs
              && r[i].applicants == ApplicantCount(s.applications, r[i].id)
    ensures forall k :: 0 <= k < |s.jobs| && s.jobs[k].val.companyId == caller ==>
              exists i :: 0 <= i < |r| && r[i].id == s.jobs[k].id && r[i].job == s.jobs[k].val
    // each of the caller's jobs once, in natural order
    ensures |r| == Count(s.jobs, JobsOf(caller))
    ensures r == PostedJobsOf(s, Where(s.jobs, JobsOf(caller)))
  {
    var mine := Where(s.jobs, JobsOf(caller));
    var r := PostedJobsOf(s, mine);
    assert forall k :: 0 <= k < |s.jobs| && s.jobs[k].val.companyId == caller ==> s.jobs[k] in mine;
    r
  }

  // ----- updateJobApplicationStatus ------------------------------------------------

  /** Accepted and rejected are final, in any letter case (`status?.toLowerCase()`). */
  predicate IsFinal(status: string) {
    ToLower(status) == "accepted" || ToLower(status) == "rejected"
  }

  /** Finality depends on the letters only, not on their case. */
  lemma FinalIgnoresCase(status: string)
    ensures IsFinal(status) <==> IsFinal(ToLower(status))
  {
    ToLowerIdempotent(status);
  }

  /** The status is replaced by the requested string as given: there is no check that
      the caller owns the job, nor on the requested value. */
  function UpdateJobApplicationStatus(s: Store, id: IdArg, status: Option<string>): (o: Outcome)
    ensures !o.response.success ==> o.store == s
    ensures id.Missing? || !Truthy(status) ==> o.response == Fail(400, "Missing ID or status")
    ensures id.Malformed? && Truthy(status) ==> o.response == ServerError
    ensures id.Given? && Truthy(status) && !HasId(s.applications, id.id) ==>
              o.response == Fail(404, "Application not found")
    ensures id.Given? && Truthy(status) && HasId(s.applications, id.id) ==>
              var k := FindId(s.applications, id.id).value;
              && (IsFinal(s.applications[k].val.status) ==> o.response == Fail(400, "Status already finalized"))
              && (!IsFinal(s.applications[k].val.status) ==>
                    && o.response == Response(200, true, Says("Status updated successfully"))
                    && o.store == s.(applications := o.store.applications)
                    && |o.store.applications| == |s.applications|
                    && o.store.applications[k] == Row(id.id, s.applications[k].val.(status := status.value))
                    && forall j :: 0 <= j < |s.applications| && j != k ==> o.store.applications[j] == s.applications[j])
  {
    if id.Missing? || !Truthy(status) then Outcome(s, Fail(400, "Missing ID or status"))
    else if id.Malformed? then Outcome(s, ServerError)
    else match FindId(s.applications, id.id)
      case None => Outcome(s, Fail(404, "Application not found"))
      case Some(k) =>
        var a := s.applications[k].val;
        if IsFinal(a.status) then Outcome(s, Fail(400, "Status already finalized"))
        else
          Outcome(s.(applications := Replace(s.applications, k, a.(status := status.value))),
                  Response(200, true, Says("Status updated successfully")))
  }

  /** One `PATCH` status request, as the route receives it. */
  datatype StatusRequest = StatusRequest(id: IdArg, status: Option<string>)

  function RunStatusUpdates(s: Store, reqs: seq<StatusRequest>): Store
    decreases |reqs|
  {
    if reqs == [] then s
    else RunStatusUpdates(UpdateJobApplicationStatus(s, reqs[0].id, reqs[0].status).store, reqs[1..])
  }

  /** A finalized application is terminal: whatever requests follow, from any company and
      with any status text, it keeps its row (and status) and every later update of it is
      refused with "Status already finalized". */
  lemma {:induction false} FinalIsTerminal(s: Store, reqs: seq<StatusRequest>, k: nat)
    requires k < |s.applications| && IsFinal(s.applications[k].val.status)
    requires FindId(s.applications, s.applications[k].id) == Some(k)
    decreases |reqs|
    ensures var e := RunStatusUpdates(s, reqs);
            && |e.applications| == |s.applications|
            && e.applications[k] == s.applications[k]
            && FindId(e.applications, s.applications[k].id) == Some(k)
    ensures forall status: Option<string> | Truthy(status) ::
              UpdateJobApplicationStatus(RunStatusUpdates(s, reqs), Given(s.applications[k].id), status)
                == Outcome(RunStatusUpdates(s, reqs), Fail(400, "Status already finalized"))
  {
    if reqs != [] {
      var r := reqs[0];
      var o := UpdateJobApplicationStatus(s, r.id, r.status);
      if o.response.success {
        var k' := FindId(s.applications, r.id.id).value;
        assert k' != k;
        FindIdStable(s.applications, o.store.applications, s.applications[k].id);
      }
      assert o.store.applications[k] == s.applications[k];
      FinalIsTerminal(o.store, reqs[1..], k);
    }
  }

  // ----- ChangeVisibility ----------------------------------------------------------

  function ChangeVisibility(s: Store, caller: Id, id: IdArg): (o: Outcome)
    ensures !o.response.success ==> o.store == s
    ensures id.Missing? ==> o.response == Fail(400, "Job ID is required")
    ensures id.Malformed? ==> o.response == ServerError
    ensures id.Given? && !HasId(s.jobs, id.id) ==> o.response == Fail(404, "Job not found")
    ensures id.Given? && HasId(s.jobs, id.id) ==>
              var k := FindId(s.jobs, id.id).value;
              && (s.jobs[k].val.companyId != caller ==>
                    o.response == Fail(403, "Unauthorized to change visibility"))
              && (s.jobs[k].val.companyId == caller ==>
                    && o.response == Response(200, true, Silent)
                    && o.store == s.(jobs := o.store.jobs)
                    && |o.store.jobs| == |s.jobs|
                    && o.store.jobs[k] == Row(id.id, s.jobs[k].val.(visible := !s.jobs[k].val.visible))
                    && forall j :: 0 <= j < |s.jobs| && j != k ==> o.store.jobs[j] == s.jobs[j])
  {
    match id
    case Missing => Outcome(s, Fail(400, "Job ID is required"))
    case Malformed => Outcome(s, ServerError)
    case Given(jid) =>
      match FindId(s.jobs, jid)
      case None => Outcome(s, Fail(404, "Job not found"))
      case Some(k) =>
        var j := s.jobs[k].val;
        if j.companyId == caller then
          Outcome(s.(jobs := Replace(s.jobs, k, j.(visible := !j.visible))), Response(200, true, Silent))
        else Outcome(s, Fail(403, "Unauthorized to change visibility"))
  }

  /** Two owner calls put the job, and the whole store, back as it was. */
  lemma ChangeVisibilityTwice(s: Store, caller: Id, jid: Id)
    requires HasId(s.jobs, jid)
    requires s.jobs[FindId(s.jobs, jid).value].val.companyId == caller
    ensures var o1 := ChangeVisibility(s, caller, Given(jid));
            var o2 := ChangeVisibility(o1.store, caller, Given(jid));
            o1.response.success && o2.response.success && o2.store == s
  {
    var k := FindId(s.jobs, jid).value;
    var o1 := ChangeVisibility(s, caller, Given(jid));
    assert FindId(o1.store.jobs, jid) == Some(k) by {
      FindIdStable(s.jobs, o1.store.jobs, jid);
    }
    var o2 := ChangeVisibility(o1.store, caller, Given(jid));
    assert o2.store.jobs == s.jobs;
  }

  /** Changing a row's document without changing ids leaves id lookups where they were. */
  lemma {:induction false} FindIdStable<T>(a: Table<T>, b: Table<T>, id: Id)
    requires |a| == |b| && forall i :: 0 <= i < |a| ==> a[i].id == b[i].id
    ensures FindId(a, id) == FindId(b, id)
  {
    if a != [] {
      FindIdStable(a[1..], b[1..], id);
    }
  }

  /** A company that does not own the job can never change its visibility. */
  lemma NonOwnerForbidden(s: Store, caller: Id, jid: Id)
    requires HasId(s.jobs, jid)
    requires s.jobs[FindId(s.jobs, jid).value].val.companyId != caller
    ensures ChangeVisibility(s, caller, Given(jid)) == Outcome(s, Fail(403, "Unauthorized to change visibility"))
  {
  }
}
