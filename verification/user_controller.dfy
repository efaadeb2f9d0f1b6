/** The candidate-side handlers. Identity comes from the external identity provider's
    middleware as `req.auth`, whose `userId` is the provider's subject id (`clerkId`). */
module UserController {
  import opened Base
  import opened Tables
  import opened Models
  import opened Joins

  /** `req.auth`: absent, or present with an optional subject id. */
  datatype AuthContext = NoAuth | Auth(userId: Option<string>)

  /** `req.auth?.userId`. */
  function ClerkIdOf(a: AuthContext): Option<string> {
    if a.Auth? then a.userId else None
  }

  const InternalError := Fail(500, "Internal server error")
  const PlaceholderImage := "https://via.placeholder.com/150"
  const PlaceholderEmail := "noemail@example.com"

  // ----- saveJob (the unrouted twin of toggleSaveJob) ------------------------------

  /** The shared toggle step once both ids are known: delete the first record for the
      pair if there is one, otherwise create one. */
  function ToggleSaved(s: Store, userId: string, jobId: Id, now: nat): (o: Outcome)
    ensures o.store == s.(savedJobs := o.store.savedJobs)
    ensures o.response.success
    ensures match Find(s.savedJobs, SavedPair(userId, jobId))
            case Some(k) =>
              && o.response == Response(200, true, Says("Job unsaved"))
              && o.store.savedJobs == RemoveAt(s.savedJobs, k)
            case None =>
              && o.response == Response(200, true, Says("Job saved"))
              && |o.store.savedJobs| == |s.savedJobs| + 1
              && o.store.savedJobs[..|s.savedJobs|] == s.savedJobs
              && o.store.savedJobs[|s.savedJobs|].val == SavedJob(userId, jobId, now)
  {
    match Find(s.savedJobs, SavedPair(userId, jobId))
    case Some(k) => Outcome(s.(savedJobs := RemoveAt(s.savedJobs, k)), Response(200, true, Says("Job unsaved")))
    case None =>
      Outcome(s.(savedJobs := Insert(s.savedJobs, NewSavedJob(userId, jobId, now))), Response(200, true, Says("Job saved")))
  }

  /** `saveJob`: no check for missing ids. A missing `req.auth` throws; a falsy id
      finds no record and then fails the schema's `required` validation; a malformed
      job id throws a CastError. All of these answer 500 and change nothing. */
  function SaveJob(s: Store, auth: AuthContext, jobId: IdArg, now: nat): (o: Outcome)
    ensures !o.response.success ==> o == Outcome(s, ServerError)
    ensures o.response.success <==> auth.Auth? && Truthy(auth.userId) && jobId.Given?
    ensures o.response.success ==> o == ToggleSaved(s, auth.userId.value, jobId.id, now)
  {
    if auth.NoAuth? || !Truthy(auth.userId) || !jobId.Given? then Outcome(s, ServerError)
    else ToggleSaved(s, auth.userId.value, jobId.id, now)
  }

  // ----- syncUser ------------------------------------------------------------------

  datatype SyncBody = SyncBody(clerkId: Option<string>, name: Option<string>, email: Option<string>, image: Option<string>)

  /** Upsert by `clerkId`: create with placeholders, or overwrite the profile fields that
      were supplied truthy. Create and save fail (500) on the unique email index. */
  function SyncUser(s: Store, b: SyncBody): (o: Outcome)
    ensures o.store == s.(users := o.store.users)
    ensures !Truthy(b.clerkId) ==> o == Outcome(s, Fail(400, "Clerk ID is required"))
    ensures !o.response.success ==> o.store == s
    ensures o.response.success ==> o.response == Response(200, true, Silent)
    ensures UsersOk(s.users) ==> UsersOk(o.store.users)
    // an unknown subject is created unless its email (or the placeholder) is taken
    ensures Truthy(b.clerkId) && FindUser(s.users, b.clerkId.value).None? ==>
              (o.response.success <==> EmailFree(s.users, OrElse(b.email, "noemail@example.com"), None))
    // a known subject is saved unless the merged record is invalid or its new email is taken
    ensures Truthy(b.clerkId) && FindUser(s.users, b.clerkId.value).Some? ==>
              var k := FindUser(s.users, b.clerkId.value).value;
              var u := s.users[k].val;
              var u' := u.(name := OrElse(b.name, u.name), email := OrElse(b.email, u.email), image := OrElse(b.image, u.image));
              (o.response.success <==> UserValid(u') && (u'.email == u.email || EmailFree(s.users, u'.email, Some(s.users[k].id))))
    // an unknown subject is created with the placeholders and no resume
    ensures Truthy(b.clerkId) && FindUser(s.users, b.clerkId.value).None? && o.response.success ==>
              && |o.store.users| == |s.users| + 1
              && o.store.users[..|s.users|] == s.users
              && o.store.users[|s.users|].val ==
                   User(clerkId := b.clerkId.value, name := OrElse(b.name, "Unknown User"),
                        email := OrElse(b.email, "noemail@example.com"),
                        image := OrElse(b.image, "https://via.placeholder.com/150"), resume := "")
    // a known subject keeps its id, clerkId and resume; only truthy fields overwrite
    ensures Truthy(b.clerkId) && FindUser(s.users, b.clerkId.value).Some? && o.response.success ==>
              var k := FindUser(s.users, b.clerkId.value).value;
              var u := s.users[k].val;
              && |o.store.users| == |s.users|
              && o.store.users[k] == Row(s.users[k].id,
                   User(u.clerkId, OrElse(b.name, u.name), OrElse(b.email, u.email), u.resume, OrElse(b.image, u.image)))
              && forall j :: 0 <= j < |s.users| && j != k ==> o.store.users[j] == s.users[j]
  {
    if !Truthy(b.clerkId) then Outcome(s, Fail(400, "Clerk ID is required"))
    else match FindUser(s.users, b.clerkId.value)
      case None =>
        var u := User(clerkId := b.clerkId.value, name := OrElse(b.name, "Unknown User"),
                      email := OrElse(b.email, PlaceholderEmail), image := OrElse(b.image, PlaceholderImage),
                      resume := NoResume);
        (match CreateUser(s.users, u)
         case None => Outcome(s, InternalError)
         case Some(t) => Outcome(s.(users := t), Response(200, true, Silent)))
      case Some(k) =>
        var u := s.users[k].val;
        var u' := u.(name := OrElse(b.name, u.name), email := OrElse(b.email, u.email), image := OrElse(b.image, u.image));
        (match SaveUser(s.users, k, u')
         case None => Outcome(s, InternalError)
         case Some(t) => Outcome(s.(users := t), Response(200, true, Silent)))
  }

  /** Replaying a sync changes nothing more: the upsert is idempotent. */
  lemma SyncUserIdempotent(s: Store, b: SyncBody)
    requires SyncUser(s, b).response.success
    ensures SyncUser(SyncUser(s, b).store, b) == SyncUser(s, b)
  {
    var o := SyncUser(s, b);
    var c := b.clerkId.value;
    match FindUser(s.users, c)
    case None =>
      var k := |s.users|;
      assert o.store.users[..k] == s.users;
      assert FindUser(o.store.users, c) == Some(k) by {
        assert forall j :: 0 <= j < k ==> o.store.users[j] == s.users[j];
      }
      assert o.store.users[k := o.store.users[k]] == o.store.users;
    case Some(k) =>
      assert FindUser(o.store.users, c) == Some(k) by {
        assert forall j :: 0 <= j < k ==> o.store.users[j] == s.users[j];
      }
      assert o.store.users[k := o.store.users[k]] == o.store.users;
  }

  // ----- getUserData ---------------------------------------------------------------

  /** Get-or-create by the authenticated subject id. */
  function GetUserData(s: Store, auth: AuthContext): (o: Outcome)
    ensures o.store == s.(users := o.store.users)
    ensures !Truthy(ClerkIdOf(auth)) ==> o == Outcome(s, Fail(401, "Unauthorized"))
    ensures !o.response.success ==> o.store == s
    ensures UsersOk(s.users) ==> UsersOk(o.store.users)
    ensures Truthy(ClerkIdOf(auth)) && FindUser(s.users, ClerkIdOf(auth).value).Some? ==>
              o == Outcome(s, Response(200, true, Silent))
    ensures Truthy(ClerkIdOf(auth)) && FindUser(s.users, ClerkIdOf(auth).value).None? ==>
              if EmailFree(s.users, "noemail@example.com", None) then
                && o.response == Response(200, true, Silent)
                && o.store.users == s.users + [Row(FreshId(s.users),
                     User(clerkId := ClerkIdOf(auth).value, name := "Unnamed User", email := "noemail@example.com",
                          image := "https://via.placeholder.com/150", resume := ""))]
              else o == Outcome(s, Fail(500, "Internal server error"))
  {
    var c := ClerkIdOf(auth);
    if !Truthy(c) then Outcome(s, Fail(401, "Unauthorized"))
    else match FindUser(s.users, c.value)
      case Some(_) => Outcome(s, Response(200, true, Silent))
      case None =>
        var u := User(clerkId := c.value, name := "Unnamed User", email := PlaceholderEmail,
                      image := PlaceholderImage, resume := NoResume);
        match CreateUser(s.users, u)
        case None => Outcome(s, InternalError)
        case Some(t) => Outcome(s.(users := t), Response(200, true, Silent))
  }

  /** A second call creates nothing new. */
  lemma GetUserDataIdempotent(s: Store, auth: AuthContext)
    ensures GetUserData(GetUserData(s, auth).store, auth).store == GetUserData(s, auth).store
  {
    var o := GetUserData(s, auth);
    var c := ClerkIdOf(auth);
    if Truthy(c) && FindUser(s.users, c.value).None? && o.response.success {
      var k := |s.users|;
      assert o.store.users[k].val.clerkId == c.value;
      assert FindUser(o.store.users, c.value).Some?;
    }
  }

  /** All lazily provisioned users share one placeholder email, which the unique index
      forbids: once one exists, provisioning any other new subject fails with 500. */
  lemma PlaceholderEmailCollision(s: Store, first: string, second: string)
    requires first != "" && second != "" && first != second
    requires FindUser(s.users, first).None? && FindUser(s.users, second).None?
    requires EmailFree(s.users, "noemail@example.com", None)
    ensures var o1 := GetUserData(s, Auth(Some(first)));
            var o2 := GetUserData(o1.store, Auth(Some(second)));
            o1.response.success && o2 == Outcome(o1.store, Fail(500, "Internal server error"))
  {
    var o1 := GetUserData(s, Auth(Some(first)));
    var t := o1.store.users;
    assert t[|s.users|].val.clerkId == first;
    assert FindUser(t, second).None? by {
      forall i | 0 <= i < |t|
        ensures t[i].val.clerkId != second
      {
        if i < |s.users| { assert t[i] == s.users[i]; }
      }
    }
    assert t[|s.users|].val.email == "noemail@example.com";
    assert !EmailFree(t, "noemail@example.com", None);
  }

  // ----- getUserJobApplications ----------------------------------------------------

  /** Newest first: dates never increase along the list. */
  predicate NewestFirst(t: Table<JobApplication>) {
    forall i, j :: 0 <= i < j < |t| ==> t[i].val.date >= t[j].val.date
  }

  /** Putting a row no older than the current head in front keeps the order. */
  lemma ConsNewestFirst(h: Row<JobApplication>, t: Table<JobApplication>)
    requires NewestFirst(t)
    requires t == [] || h.val.date >= t[0].val.date
    ensures NewestFirst([h] + t)
  {
    var r := [h] + t;
    forall i, j | 0 <= i < j < |r|
      ensures r[i].val.date >= r[j].val.date
    {
      if i == 0 && j > 1 {
        assert r[1] == t[0] && r[j] == t[j - 1];
      }
    }
  }

  /** Inserts `x` before the first row that is strictly older (a stable sort). */
  function InsertByDate(x: Row<JobApplication>, t: Table<JobApplication>): (r: Table<JobApplication>)
    requires NewestFirst(t)
    ensures multiset(r) == multiset(t) + multiset{x}
    ensures |r| == |t| + 1 && (r[0] == x || (t != [] && r[0] == t[0]))
    ensures NewestFirst(r)
  {
    if t == [] || t[0].val.date < x.val.date then
      ConsNewestFirst(x, t);
      [x] + t
    else
      var rest := InsertByDate(x, t[1..]);
      assert t == [t[0]] + t[1..];
      ConsNewestFirst(t[0], rest);
      [t[0]] + rest
  }

  /** `.sort({ date: -1 })`. */
  function SortNewestFirst(t: Table<JobApplication>): (r: Table<JobApplication>)
    ensures multiset(r) == multiset(t)
    ensures NewestFirst(r)
  {
    if t == [] then []
    else
      assert t == [t[0]] + t[1..];
      InsertByDate(t[0], SortNewestFirst(t[1..]))
  }

  datatype ApplicationsResult = ApplicationsResult(response: Response, applications: seq<ApplicationView>)

  function GetUserJobApplications(s: Store, auth: AuthContext): (r: ApplicationsResult)
    ensures !Truthy(ClerkIdOf(auth)) ==> r == ApplicationsResult(Fail(401, "Unauthorized"), [])
    ensures Truthy(ClerkIdOf(auth)) && FindUser(s.users, ClerkIdOf(auth).value).None? ==>
              r == ApplicationsResult(Fail(404, "User not found"), [])
    ensures r.response.success <==> Truthy(ClerkIdOf(auth)) && FindUser(s.users, ClerkIdOf(auth).value).Some?
    // exactly the caller's applications, each once, newest first
    ensures r.response.success ==>
              var me := s.users[FindUser(s.users, ClerkIdOf(auth).value).value].id;
              exists t: Table<JobApplication> ::
                && multiset(t) == multiset(Where(s.applications, ApplicationsBy(me)))
                && NewestFirst(t)
                && r.applications == ApplicationViewsOf(s, t, true)
  {
    var c := ClerkIdOf(auth);
    if !Truthy(c) then ApplicationsResult(Fail(401, "Unauthorized"), [])
    else match FindUser(s.users, c.value)
      case None => ApplicationsResult(Fail(404, "User not found"), [])
      case Some(k) =>
        var t := SortNewestFirst(Where(s.applications, ApplicationsBy(s.users[k].id)));
        ApplicationsResult(Response(200, true, Silent), ApplicationViewsOf(s, t, true))
  }

  // ----- applyForJob ---------------------------------------------------------------

  /** The checks run in this order: missing ids, unknown user, an existing application
      for (job, user) (before the job is looked up), unknown job. */
  function ApplyForJob(s: Store, auth: AuthContext, jobId: IdArg, now: nat): (o: Outcome)
    ensures !o.response.success ==> o.store == s
    ensures o.store == s.(applications := o.store.applications)
    ensures !Truthy(ClerkIdOf(auth)) || jobId.Missing? ==> o.response == Fail(400, "Job ID and User ID required")
    ensures Truthy(ClerkIdOf(auth)) && !jobId.Missing? ==>
              var u := FindUser(s.users, ClerkIdOf(auth).value);
              && (u.None? ==> o.response == Fail(404, "User not found"))
              && (u.Some? && jobId.Malformed? ==> o.response == InternalError)
              && (u.Some? && jobId.Given? ==>
                    var me := s.users[u.value].id;
                    && (Find(s.applications, ApplicationOf(me, jobId.id)).Some? ==>
                          o.response == Fail(400, "Already applied"))
                    && (Find(s.applications, ApplicationOf(me, jobId.id)).None? && !HasId(s.jobs, jobId.id) ==>
                          o.response == Fail(404, "Job not found"))
                    && (Find(s.applications, ApplicationOf(me, jobId.id)).None? && HasId(s.jobs, jobId.id) ==>
                          && o.response == Response(201, true, Says("Applied successfully"))
                          && |o.store.applications| == |s.applications| + 1
                          && o.store.applications[..|s.applications|] == s.applications
                          && o.store.applications[|s.applications|].val ==
                               NewApplication(me, s.jobs[FindId(s.jobs, jobId.id).value].val.companyId, jobId.id, now)))
  {
    var c := ClerkIdOf(auth);
    if !Truthy(c) || jobId.Missing? then Outcome(s, Fail(400, "Job ID and User ID required"))
    else match FindUser(s.users, c.value)
      case None => Outcome(s, Fail(404, "User not found"))
      case Some(k) =>
        if jobId.Malformed? then Outcome(s, InternalError)
        else
          var me := s.users[k].id;
          if Find(s.applications, ApplicationOf(me, jobId.id)).Some? then Outcome(s, Fail(400, "Already applied"))
          else match FindId(s.jobs, jobId.id)
            case None => Outcome(s, Fail(404, "Job not found"))
            case Some(j) =>
              var a := NewApplication(me, s.jobs[j].val.companyId, jobId.id, now);
              Outcome(s.(applications := Insert(s.applications, a)), Response(201, true, Says("Applied successfully")))
  }

  /** At most one application per (user, job). The schema does not declare it; only the
      apply handler's duplicate guard keeps it. */
  predicate OneApplicationPerPair(t: Table<JobApplication>) {
    forall i, j :: 0 <= i < j < |t| ==> !(t[i].val.userId == t[j].val.userId && t[i].val.jobId == t[j].val.jobId)
  }

  lemma ApplyKeepsOnePerPair(s: Store, auth: AuthContext, jobId: IdArg, now: nat)
    requires OneApplicationPerPair(s.applications)
    ensures OneApplicationPerPair(ApplyForJob(s, auth, jobId, now).store.applications)
  {
    var o := ApplyForJob(s, auth, jobId, now);
    if o.response.success {
      var me := s.users[FindUser(s.users, ClerkIdOf(auth).value).value].id;
      var t := o.store.applications;
      var n := |s.applications|;
      assert Find(s.applications, ApplicationOf(me, jobId.id)).None?;
      forall i | 0 <= i < n
        ensures !(t[i].val.userId == t[n].val.userId && t[i].val.jobId == t[n].val.jobId)
      {
        assert t[i] == s.applications[i];
        assert !ApplicationOf(me, jobId.id)(s.applications[i].val);
      }
      assert forall i :: 0 <= i < n ==> t[i] == s.applications[i];
    }
  }

  /** Applying again to the same job is refused and changes nothing. */
  lemma ApplyTwiceRefused(s: Store, auth: AuthContext, jobId: Id, now1: nat, now2: nat)
    requires ApplyForJob(s, auth, Given(jobId), now1).response.success
    ensures var s1 := ApplyForJob(s, auth, Given(jobId), now1).store;
            ApplyForJob(s1, auth, Given(jobId), now2) == Outcome(s1, Fail(400, "Already applied"))
  {
    var s1 := ApplyForJob(s, auth, Given(jobId), now1).store;
    var k := FindUser(s.users, ClerkIdOf(auth).value).value;
    var me := s.users[k].id;
    var n := |s.applications|;
    assert ApplicationOf(me, jobId)(s1.applications[n].val);
  }

  /** A successful application adds exactly one to the job's applicant count. */
  lemma ApplyAddsApplicant(s: Store, auth: AuthContext, jobId: Id, now: nat)
    requires ApplyForJob(s, auth, Given(jobId), now).response.success
    ensures var s1 := ApplyForJob(s, auth, Given(jobId), now).store;
            Count(s1.applications, ApplicationsTo(jobId)) == Count(s.applications, ApplicationsTo(jobId)) + 1
  {
    var s1 := ApplyForJob(s, auth, Given(jobId), now).store;
    var n := |s.applications|;
    assert s1.applications == s.applications + [s1.applications[n]];
    WhereAppend(s.applications, [s1.applications[n]], ApplicationsTo(jobId));
  }

  /** A successful application shows up in the candidate's own list of applications. */
  lemma AppliedJobListed(s: Store, auth: AuthContext, jobId: Id, now: nat)
    requires ApplyForJob(s, auth, Given(jobId), now).response.success
    ensures var s1 := ApplyForJob(s, auth, Given(jobId), now).store;
            var r := GetUserJobApplications(s1, auth);
            && r.response.success
            && ApplicationViewOf(s1, s1.applications[|s.applications|], true) in r.applications
  {
    var s1 := ApplyForJob(s, auth, Given(jobId), now).store;
    var n := |s.applications|;
    var k := FindUser(s.users, ClerkIdOf(auth).value).value;
    var me := s.users[k].id;
    assert s1.users == s.users;
    var mine := Where(s1.applications, ApplicationsBy(me));
    assert s1.applications[n] in mine;
    var t := SortNewestFirst(mine);
    assert s1.applications[n] in multiset(t);
    var i :| 0 <= i < |t| && t[i] == s1.applications[n];
    var views := ApplicationViewsOf(s1, t, true);
    assert views[i] == ApplicationViewOf(s1, s1.applications[n], true);
  }

  // ----- updateUserResume ----------------------------------------------------------

  /** `file` says whether multer left a file on the request; `upload` is the object
      store's answer, reached only after every check has passed. */
  function UpdateUserResume(s: Store, auth: AuthContext, file: bool, upload: UploadOutcome): (o: Outcome)
    ensures !o.response.success ==> o.store == s
    ensures o.store == s.(users := o.store.users)
    ensures !Truthy(ClerkIdOf(auth)) ==> o.response == Fail(401, "Unauthorized")
    ensures Truthy(ClerkIdOf(auth)) && !file ==> o.response == Fail(400, "Resume file required")
    ensures Truthy(ClerkIdOf(auth)) && file && FindUser(s.users, ClerkIdOf(auth).value).None? ==>
              o.response == Fail(404, "User not found")
    // `user.save()` re-validates the whole document, so a stored user that lacks a
    // required field cannot take a resume
    ensures o.response.success <==>
              && Truthy(ClerkIdOf(auth)) && file && upload.Uploaded?
              && var k := FindUser(s.users, ClerkIdOf(auth).value);
                 k.Some? && UserValid(s.users[k.value].val)
    ensures UsersOk(s.users) ==> UsersOk(o.store.users)
    ensures o.response.success ==>
              var k := FindUser(s.users, ClerkIdOf(auth).value).value;
              && |o.store.users| == |s.users|
              && o.store.users[k] == Row(s.users[k].id, s.users[k].val.(resume := upload.url))
              && forall j :: 0 <= j < |s.users| && j != k ==> o.store.users[j] == s.users[j]
  {
    var c := ClerkIdOf(auth);
    if !Truthy(c) then Outcome(s, Fail(401, "Unauthorized"))
    else if !file then Outcome(s, Fail(400, "Resume file required"))
    else match FindUser(s.users, c.value)
      case None => Outcome(s, Fail(404, "User not found"))
      case Some(k) =>
        match upload
        case UploadFailed => Outcome(s, InternalError)
        case Uploaded(url) =>
          match SaveUser(s.users, k, s.users[k].val.(resume := url))
          case None => Outcome(s, InternalError)
          case Some(users) => Outcome(s.(users := users), Response(200, true, Says("Resume uploaded")))
  }
}
