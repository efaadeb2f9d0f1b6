/** The `/api/users` router: which handlers sit behind the identity provider's
    `requireAuth` guard, and the resume upload stage (PDF only, at most 5 MiB) that runs
    before `updateUserResume`. */
module UserRoutes {
  import opened Base
  import opened Tables
  import opened Models
  import opened UserController

  const PdfMime := "application/pdf"

  /** The upload size limit: 5 MiB. */
  const MaxResumeBytes: nat := 5 * 1024 * 1024

  /** The multipart part named `resume`, as the upload middleware sees it. */
  datatype ResumeFile = ResumeFile(mimetype: string, size: nat)

  datatype FilterVerdict = Accept | RejectFile(error: string)

  /** The upload's `fileFilter`: the declared mimetype must be exactly the PDF type. */
  function FileFilter(f: ResumeFile): (v: FilterVerdict)
    ensures v.Accept? <==> f.mimetype == "application/pdf"
    ensures v.RejectFile? ==> v.error == "Only PDF files are allowed!"
  {
    if f.mimetype == PdfMime then Accept else RejectFile("Only PDF files are allowed!")
  }

  datatype UserRoute = SyncRoute | DataRoute | ApplicationsRoute | ApplyJobRoute | UpdateResumeRoute

  /** What reaches the handler, or why the request stopped in the middleware chain.
      `session` is the identity provider's subject id of a signed-in caller. */
  datatype Admission = Refused(error: string) | Admitted(auth: AuthContext, file: Option<ResumeFile>)

  const Unauthenticated := "Unauthenticated"
  const FileTooLarge := "File too large"

  /** The middleware chain of one route: the guard (on every route except `/sync`),
      then, on `/update-resume` only, the upload stage. A request without a file passes
      the upload stage and reaches the handler with no file. */
  function Admit(route: UserRoute, session: Option<string>, file: Option<ResumeFile>): (a: Admission)
    ensures route.SyncRoute? ==> a.Admitted?
    ensures !route.SyncRoute? && session.None? ==> a == Refused("Unauthenticated")
    ensures a.Admitted? && !route.SyncRoute? ==> session.Some? && a.auth == Auth(session)
    ensures a.Admitted? && a.file.Some? ==>
              && route.UpdateResumeRoute?
              && a.file.value.mimetype == "application/pdf"
              && a.file.value.size <= 5 * 1024 * 1024
    ensures route.UpdateResumeRoute? && session.Some? ==>
              (a.Admitted? <==> file.None? || (file.value.mimetype == "application/pdf" && file.value.size <= MaxResumeBytes))
    ensures route.UpdateResumeRoute? && a.Admitted? ==> a.file == file
    ensures route.UpdateResumeRoute? && session.Some? && file.Some? && file.value.mimetype != "application/pdf" ==>
              a == Refused("Only PDF files are allowed!")
  {
    if !route.SyncRoute? && session.None? then Refused(Unauthenticated)
    else if !route.UpdateResumeRoute? || file.None? then
      Admitted(Auth(session), None)
    else match FileFilter(file.value)
      case RejectFile(e) => Refused(e)
      case Accept =>
        if file.value.size > MaxResumeBytes then Refused(FileTooLarge)
        else Admitted(Auth(session), file)
  }

  /** Through the router, a resume is stored only for a signed-in caller who sent a PDF
      within the size limit, and then it is the uploaded URL. */
  lemma StoredResumeWasPdf(s: Store, session: Option<string>, file: Option<ResumeFile>, upload: UploadOutcome)
    requires var a := Admit(UpdateResumeRoute, session, file);
             a.Admitted? && UpdateUserResume(s, a.auth, a.file.Some?, upload).response.success
    ensures session.Some? && session.value != ""
    ensures file.Some? && file.value.mimetype == PdfMime && file.value.size <= MaxResumeBytes
    ensures upload.Uploaded?
    ensures var o := UpdateUserResume(s, Auth(session), true, upload);
            var k := FindUser(s.users, session.value).value;
            o.store.users[k].val.resume == upload.url
  {
  }
}
