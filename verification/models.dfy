/** The persisted records of the job board (the Mongoose schemas), the store that
    holds one table per collection, and the response shape every handler returns. */
module Models {
  import opened Base
  import opened Tables

  /** A company account. `password` is the opaque bcrypt hash. The Company schema
      file is not part of this model; the fields are those the controllers use. */
  datatype Company = Company(name: string, email: string, password: string, image: string)

  /** A company with its password projected away (`select('-password')`). */
  datatype CompanyProfile = CompanyProfile(id: Id, name: string, email: string, image: string)

  function ProfileOf(r: Row<Company>): (p: CompanyProfile)
    ensures p.id == r.id && p.name == r.val.name && p.email == r.val.email && p.image == r.val.image
  {
    CompanyProfile(r.id, r.val.name, r.val.email, r.val.image)
  }

  /** A candidate, bound to the identity provider's subject id `clerkId`. */
  datatype User = User(clerkId: string, name: string, email: string, resume: string, image: string)

  /** A posting, owned by the company `companyId`. The Job schema file is not part of this
      model; the fields are those `postJob` stores. */
  datatype Job = Job(
    title: string, description: string, location: string, salary: string,
    level: string, category: string, companyId: Id, date: nat, visible: bool)

  /** An application of user `userId` to job `jobId`; `companyId` is copied from the job. */
  datatype JobApplication = JobApplication(userId: Id, companyId: Id, jobId: Id, status: string, date: nat)

  /** A bookmark: `userId` is the identity provider's subject id, not a User `_id`. */
  datatype SavedJob = SavedJob(userId: string, jobId: Id, createdAt: nat)

  datatype Store = Store(
    companies: Table<Company>,
    users: Table<User>,
    jobs: Table<Job>,
    applications: Table<JobApplication>,
    savedJobs: Table<SavedJob>)

  /** The `message` of a response: a fixed text, the text of a caught exception, or
      none (a success answer that carries only its payload). */
  datatype Message = Says(text: string) | Thrown | Silent

  /** `res.status(code).json({ success, message })`. */
  datatype Response = Response(code: nat, success: bool, message: Message)

  function Fail(code: nat, text: string): Response {
    Response(code, false, Says(text))
  }

  /** What a state-changing handler leaves behind. */
  datatype Outcome = Outcome(store: Store, response: Response)

  /** An object-store upload (Cloudinary): the durable URL, or a rejected upload. */
  datatype UploadOutcome = Uploaded(url: string) | UploadFailed

  /** Any exception caught by a handler's `catch` block. */
  const ServerError := Response(500, false, Thrown)

  /** An id taken from a request: falsy (`!id`), a string that is not an ObjectId (a
      query with it throws a CastError), or a well-formed ObjectId. */
  datatype IdArg = Missing | Malformed | Given(id: Id)

  // ----- JobApplication schema -----------------------------------------------------

  const PendingStatus := "Pending"

  /** `JobApplication.create({ companyId, userId, jobId, date })`: every reference and the
      date are required, and the status takes its schema default. */
  function NewApplication(userId: Id, companyId: Id, jobId: Id, date: nat): (a: JobApplication)
    ensures a.status == "Pending"
    ensures a.userId == userId && a.companyId == companyId && a.jobId == jobId && a.date == date
  {
    JobApplication(userId, companyId, jobId, PendingStatus, date)
  }

  // ----- SavedJob schema -----------------------------------------------------------

  /** `SavedJob.create({ userId, jobId })`: `createdAt` defaults to the creation time. */
  function NewSavedJob(userId: string, jobId: Id, now: nat): (s: SavedJob)
    ensures s.userId == userId && s.jobId == jobId && s.createdAt == now
  {
    SavedJob(userId, jobId, now)
  }

  // ----- User schema ----------------------------------------------------------------

  /** The empty resume: the schema default, meaning "no resume uploaded". */
  const NoResume := ""

  /** Mongoose's `required` validator rejects missing and empty strings. */
  predicate UserValid(u: User) {
    u.clerkId != "" && u.name != "" && u.email != "" && u.image != ""
  }

  /** `email` carries a unique index; `clerkId` does not. */
  predicate EmailsUnique(users: Table<User>) {
    forall i, j :: 0 <= i < j < |users| ==> users[i].val.email != users[j].val.email
  }

  /** Whether no user other than the one with id `except` holds `email`. */
  predicate EmailFree(users: Table<User>, email: string, except: Option<Id>) {
    forall i :: 0 <= i < |users| && users[i].val.email == email ==> except == Some(users[i].id)
  }

  /** A users table as the database can hold it: distinct ids and the unique email index. */
  predicate UsersOk(users: Table<User>) {
    UniqueIds(users) && EmailsUnique(users)
  }

  /** `User.create(u)`: fails on a validation error or a duplicate email (E11000). */
  function CreateUser(users: Table<User>, u: User): (r: Option<Table<User>>)
    ensures r.Some? <==> UserValid(u) && EmailFree(users, u.email, None)
    ensures r.Some? ==> |r.value| == |users| + 1 && r.value[..|users|] == users && r.value[|users|].val == u
    ensures r.Some? && UsersOk(users) ==> UsersOk(r.value)
  {
    if UserValid(u) && EmailFree(users, u.email, None) then
      var t := Insert(users, u);
      assert forall i :: 0 <= i < |users| ==> t[i] == users[i];
      Some(t)
    else None
  }

  /** `user.save()` for the user at position `i`: fails on a validation error or when
      another user already holds the new email. Saving an unchanged email never trips
      the index, because `save` only writes the modified paths. */
  function SaveUser(users: Table<User>, i: nat, u: User): (r: Option<Table<User>>)
    requires i < |users|
    ensures r.Some? <==> UserValid(u) && (u.email == users[i].val.email || EmailFree(users, u.email, Some(users[i].id)))
    ensures r.Some? ==> r.value == Replace(users, i, u)
    ensures r.Some? && UsersOk(users) ==> UsersOk(r.value)
  {
    if UserValid(u) && (u.email == users[i].val.email || EmailFree(users, u.email, Some(users[i].id))) then
      var t := Replace(users, i, u);
      assert UsersOk(users) ==> EmailsUnique(t) by {
        if UsersOk(users) {
          forall a, b | 0 <= a < b < |t|
            ensures t[a].val.email != t[b].val.email
          {
            if a == i || b == i {
              var o := if a == i then b else a;
              assert t[o] == users[o];
            }
          }
        }
      }
      Some(t)
    else None
  }

  // ----- Query filters --------------------------------------------------------------

  /** `{ companyId }` on jobs. */
  function JobsOf(companyId: Id): Job -> bool {
    (j: Job) => j.companyId == companyId
  }

  /** `{ jobId }` on applications. */
  function ApplicationsTo(jobId: Id): JobApplication -> bool {
    (a: JobApplication) => a.jobId == jobId
  }

  /** `{ companyId }` on applications. */
  function ApplicationsFor(companyId: Id): JobApplication -> bool {
    (a: JobApplication) => a.companyId == companyId
  }

  /** `{ userId }` on applications. */
  function ApplicationsBy(userId: Id): JobApplication -> bool {
    (a: JobApplication) => a.userId == userId
  }

  /** `{ jobId, userId }` on applications. */
  function ApplicationOf(userId: Id, jobId: Id): JobApplication -> bool {
    (a: JobApplication) => a.userId == userId && a.jobId == jobId
  }

  /** `{ userId }` on saved jobs. */
  function SavedBy(userId: string): SavedJob -> bool {
    (b: SavedJob) => b.userId == userId
  }

  /** `{ userId, jobId }` on saved jobs. */
  function SavedPair(userId: string, jobId: Id): SavedJob -> bool {
    (b: SavedJob) => b.userId == userId && b.jobId == jobId
  }

  /** `{ clerkId }` on users. */
  function UserWithClerkId(clerkId: string): User -> bool {
    (u: User) => u.clerkId == clerkId
  }

  /** The user whose `clerkId` matches: `User.findOne({ clerkId })`. */
  function FindUser(users: Table<User>, clerkId: string): (r: Option<nat>)
    ensures r.Some? ==> r.value < |users| && users[r.value].val.clerkId == clerkId
    ensures r.None? ==> forall i :: 0 <= i < |users| ==> users[i].val.clerkId != clerkId
    ensures r.Some? ==> forall j :: 0 <= j < r.value ==> users[j].val.clerkId != clerkId
  {
    Find(users, UserWithClerkId(clerkId))
  }
}
