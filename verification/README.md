# Job board core, modelled in Dafny

A model of the business rules of a MERN job board: companies register, log in,
post jobs, decide applications and hide or show their jobs; candidates, known
through an external identity provider (Clerk), are synced or provisioned on
first use, apply for jobs, upload a PDF resume and bookmark ("save") jobs. The
model also covers the pure logic of four client pages and components (the
applications page, the company's applicant list, the saved-jobs pager and the
job card), plus two maintenance scripts that repair stored user data.

Every server handler is a pure function `(Store, request) -> Outcome(store,
response)`, and its `response` is `Response(code, success, message)`. The store
holds one table per MongoDB collection. A table is a sequence of `Row(id, val)`
in natural (insertion) order, because `findOne` returns the first matching
document and neither `clerkId` nor the (user, job) pairs carry a unique index.
A new document gets an id larger than any present id. An id read from a request
is `Missing` (falsy), `Malformed` (a query with it throws a CastError) or
`Given(id)`. A text field of a request body is an `Option<string>`, and it is
truthy when present and non-empty. Populate joins are projections that give
`None` for a dangling reference.

The password hash (bcrypt), token verification (jwt), the object-store upload
(Cloudinary) and the clock are not computed. Each one is a parameter: a hash
string, a `compare` function, a `verify` function, an `UploadOutcome` and a
`now: nat`. The identity provider's `requireAuth` is modelled as an optional
session subject id.

Modules and files, following the program's structure:

- `base.dfy`: `Option`, JavaScript truthiness, ASCII lower-casing, `trim` and `slice`.
- `tables.dfy`: collections as ordered tables, with `findOne`, `findById`, `create`, `save`, `deleteOne` and `find`.
- `models.dfy`: the schemas, the store, responses and the query filters.
- `joins.dfy`: the populate projections.
- `company_auth.dfy`: `protectCompany`.
- `company_controller.dfy`, `user_controller.dfy`, `saved_job_controller.dfy` and `job_controller.dfy`: the handlers.
- `user_routes.dfy`: the user router and its upload filter.
- `applications_page.dfy`, `view_applications.dfy`, `saved_jobs_page.dfy` and `job_card.dfy`: the client helpers.
- `clerk_sync_script.dfy` and `fix_user_ids_script.dfy`: the two maintenance scripts.

## Model

| member | source | states |
|---|---|---|
| CompanyController.RegisterCompany | server/controllers/companyController.js:8-63 | Missing details give 400, and so does an email that is already registered; success (201) needs complete details, a new email and a completed upload, and appends exactly one company holding the hash and the uploaded URL; every failure leaves the store unchanged |
| CompanyController.LoginCompany | server/controllers/companyController.js:67-118 | An empty body gives 400, and so does a missing email or password; 404 exactly when no company has the email; success exactly when the first company with that email passes the password comparison, and it then returns that company's password-free profile; a registered email whose comparison fails gives 401 "Invalid email or password" |
| CompanyController.RegisterThenLogin | server/controllers/companyController.js:42-110 | A company that has just registered logs in with the same credentials and receives its own new profile |
| CompanyController.LoginTokenAdmits | server/controllers/companyController.js:97-110 | A token that verifies to the id of the company that just logged in lets that same company through the company guard, with the profile the login returned (company ids unique) |
| CompanyController.PostJob | server/controllers/companyController.js:129-170 | Any falsy field gives 400 and no job; otherwise exactly one job is appended under a fresh id, with the caller as owner, `visible` true, the request's fields and the current time, and nothing else changes |
| CompanyController.GetCompanyJobApplicants | server/controllers/companyController.js:173-188 | Exactly the applications whose `companyId` is the caller, each once, with user, company and job populated |
| CompanyController.GetCompanyPostedJobs | server/controllers/companyController.js:191-208 | Exactly the caller's jobs, each once and in natural order (as many as the caller has), each with the number of applications to it |
| CompanyController.UpdateJobApplicationStatus | server/controllers/companyController.js:212-242 | 400 without an id or status, 404 for an unknown id, 400 once the stored status is accepted or rejected in any letter case; otherwise only that application's status is replaced, by the given text, with no owner check; every failure leaves the store unchanged |
| CompanyController.FinalIsTerminal | server/controllers/companyController.js:226-231 | After any sequence of status requests, a finalized application keeps its row and position, and any further update of it is refused with "Status already finalized" |
| CompanyController.FinalIgnoresCase | server/controllers/companyController.js:226-229 | Whether a status is final does not depend on the case of its letters |
| CompanyController.ChangeVisibility | server/controllers/companyController.js:246-280 | 400 without an id, 404 for an absent job, 403 for a non-owner, none of which changes the store; the owner's call negates `visible` of that job only |
| CompanyController.ChangeVisibilityTwice | server/controllers/companyController.js:269-272 | Two owner calls both succeed and restore the whole store |
| CompanyController.NonOwnerForbidden | server/controllers/companyController.js:269-275 | A caller who does not own the job always gets 403 and the store is unchanged |
| CompanyAuth.SelectToken | server/middleware/authMiddleware.js:6 | A usable token is found exactly when either header carries one; the `authorization` header wins when both do |
| CompanyAuth.ProtectCompany | server/middleware/authMiddleware.js:4-58 | No token gives 401; `next` runs exactly when the token verifies to an id of an existing company, and it then receives that company without its password; each verification failure has its own answer (401 invalid, 401 expired, 401 no id, 404 unknown company, 500 otherwise) |
| CompanyAuth.TokenHeaderFallback | server/middleware/authMiddleware.js:6 | With no usable `authorization` header, the decision is the one the `token` header alone would get |
| Models.CreateUser | server/models/User.js:3-9 | Creation succeeds exactly when the required fields are non-empty and no user holds the email; it appends one user and keeps ids and emails unique |
| Models.SaveUser | server/models/User.js:3-9 | Saving succeeds exactly when the required fields are non-empty and the email is unchanged or free; it replaces that one row and keeps ids and emails unique |
| UserController.ToggleSaved | server/controllers/savedJobController.js:16-26 | An existing record for the pair is removed with "Job unsaved"; otherwise one record {userId, jobId, now} is appended with "Job saved"; other collections are untouched |
| UserController.SaveJob | server/controllers/userController.js:9-25 | Succeeds exactly with an auth context, a truthy user id and a valid job id, and then toggles; anything else answers 500 and changes nothing |
| SavedJobController.SaveJobAgreesWithToggle | server/controllers/userController.js:14-21 | With both ids present the unrouted `saveJob` and the routed toggle give the same outcome |
| UserController.SyncUser | server/controllers/userController.js:49-77 | 400 without `clerkId`. An unknown subject is created exactly when its email (or the "noemail@example.com" placeholder) is free, with the "Unknown User" and placeholder-image defaults and an empty resume. A known subject is saved exactly when the merged record is valid and its email is unchanged or free; only its truthy fields are overwritten, and it keeps its id, `clerkId` and resume. A failure leaves the store unchanged, and the email index stays unique |
| UserController.SyncUserIdempotent | server/controllers/userController.js:56-70 | Replaying a successful sync leaves the store and the answer as they were |
| UserController.GetUserData | server/controllers/userController.js:80-101 | 401 without a subject id; a known subject answers 200 with the store unchanged; an unknown one is created as "Unnamed User" with the placeholder email and image, or 500 when the placeholder email is taken |
| UserController.GetUserDataIdempotent | server/controllers/userController.js:85-94 | A second call creates nothing new |
| UserController.PlaceholderEmailCollision | server/controllers/userController.js:87-93 | Once one subject has been provisioned, provisioning a second new subject fails with 500, because both get the same placeholder email and the email is unique |
| UserController.InsertByDate | server/controllers/userController.js:116 | Inserting into a newest-first list keeps it newest first and adds exactly that row |
| UserController.SortNewestFirst | server/controllers/userController.js:116 | The result is a permutation of the input, ordered newest first |
| UserController.GetUserJobApplications | server/controllers/userController.js:104-123 | 401 without a subject id, 404 for an unknown user; otherwise a permutation of exactly the caller's applications, newest first, populated |
| UserController.ApplyForJob | server/controllers/userController.js:126-157 | The checks in order: 400 for missing ids, 404 for an unknown user, 400 "Already applied" (before the job is looked up), 404 for an unknown job; success appends exactly one "Pending" application with the user's id and the job's `companyId`; every failure leaves the store unchanged |
| UserController.ApplyKeepsOnePerPair | server/controllers/userController.js:138-139 | Applying keeps at most one application per (user, job) |
| UserController.ApplyTwiceRefused | server/controllers/userController.js:138-139 | A second application to the same job is refused and changes nothing |
| UserController.ApplyAddsApplicant | server/controllers/userController.js:144-150 | A successful application raises the job's applicant count by exactly one |
| UserController.AppliedJobListed | server/controllers/userController.js:109-118 | A new application appears in the candidate's own application list |
| UserController.UpdateUserResume | server/controllers/userController.js:160-192 | 401, 400 and 404 come before any upload; success exactly when the upload resolves and the user still passes validation, and then only that user's resume becomes the returned URL; otherwise the store is unchanged |
| UserRoutes.Admit | server/routes/userRoutes.js:40-44 | `/sync` is never guarded; every other route refuses a request without a session; on `/update-resume` a file reaches the handler only if it is a PDF of at most 5 × 1024 × 1024 bytes |
| UserRoutes.StoredResumeWasPdf | server/routes/userRoutes.js:44 | A resume stored through the router came from a signed-in caller's PDF within the size limit, and the stored value is the uploaded URL |
| SavedJobController.ToggleSaveJob | server/controllers/savedJobController.js:4-31 | No auth context gives 500; a missing id gives 400; a malformed job id gives 500; otherwise the pair's record is removed ("Job unsaved") or exactly one is added ("Job saved"); only the saved-jobs collection can change |
| SavedJobController.ToggleFlipsPair | server/controllers/savedJobController.js:16-26 | One toggle flips whether the pair is saved, keeps at most one record per pair, and keeps every record of every other pair |
| SavedJobController.ToggleTwiceRestores | server/controllers/savedJobController.js:16-26 | Two toggles restore the set of saved pairs, and restore the store exactly when the pair started unsaved |
| SavedJobController.ToggleParity | server/controllers/savedJobController.js:16-26 | After n toggles of one pair it is saved exactly when its starting state differs from the parity of n |
| SavedJobController.TogglesKeepAtMostOne | server/controllers/savedJobController.js:16-26 | Any sequence of toggle requests, for any users and jobs, keeps at most one record per pair |
| SavedJobController.GetSavedJobs | server/controllers/savedJobController.js:34-53 | No auth context gives 500, no user id gives 401; otherwise exactly the caller's records, in natural order, with the job and its full company populated |
| JobController.GetJobs | server/controllers/jobcontroller.js:6-17 | Exactly the visible jobs, each once, with the company's password excluded |
| JobController.GetJobById | server/controllers/jobcontroller.js:20-48 | A malformed id gives 400 before any lookup; an absent id gives 404; a present job is returned whatever its visibility, with its company joined and without the company's password |
| JobController.GetAllJobs | server/controllers/jobcontroller.js:51-59 | Every job, unfiltered and in order, with its company joined (password included) exactly when that company still exists |
| JobController.BoardIsPublicPartOfAll | server/controllers/jobcontroller.js:6-11 | The public board is the full job list cut down to its visible jobs, in the same order, with the company passwords removed |
| JobController.PostedJobIsListed | server/controllers/companyController.js:152-165 | A job that has just been posted is on the public board |
| JobController.HiddenJobStillById | server/controllers/jobcontroller.js:32-42 | A job its owner has just hidden leaves the public board but is still returned by id |
| ApplicationsPage.NormalizeStatus | client/src/pages/Applications.jsx:11-19 | The label is always one of "Pending", "Accepted" and "Rejected"; accepted and rejected in any letter case map to their labels, and anything else, absent included, reads "Pending" |
| ApplicationsPage.NormalizeIdempotent | client/src/pages/Applications.jsx:11-19 | Normalising a label gives the label back |
| ApplicationsPage.NormalizeIgnoresCase | client/src/pages/Applications.jsx:11 | Lower-casing the input first does not change the label |
| ApplicationsPage.BadgeShowsFinal | client/src/pages/Applications.jsx:12-19 | The badge shows a decided state exactly for the statuses the server treats as final |
| ApplicationsPage.KeptFrom | client/src/pages/Applications.jsx:93-99 | The kept positions are increasing, each is the first with its key, and every first occurrence is kept |
| ApplicationsPage.DedupFirstProperties | client/src/pages/Applications.jsx:93-99 | The filter's result is an order-preserving subsequence with pairwise distinct keys, and every key of the input survives |
| ApplicationsPage.AsWrittenOnePerJob | client/src/pages/Applications.jsx:93-99 | As written, the filter keeps exactly one application per job, whatever their statuses |
| ApplicationsPage.StatusKeyIgnored | client/src/pages/Applications.jsx:97 | As written, two applications to one job with different statuses collapse to one; the intended key keeps both |
| ApplicationsPage.UniqueApplicationsDistinct | client/src/pages/Applications.jsx:93-99 | With the intended key no two kept entries share both job and status, and every (job, status) of the input is kept |
| ApplicationsPage.UploadPanelShown | client/src/pages/Applications.jsx:181 | The upload form is always shown in edit mode; outside it, exactly when the stored resume is the empty string |
| ApplicationsPage.NewUserSeesUploadForm | client/src/pages/Applications.jsx:181 | A user that `getUserData` has just provisioned is offered the upload form |
| ApplicationsPage.UploadedUserSeesResume | client/src/pages/Applications.jsx:181 | After a successful upload with a non-empty URL the form is hidden |
| ViewApplicationsPage.Reverse | client/src/pages/ViewApplications.jsx:18 | The fetched list is stored in reverse order |
| ViewApplicationsPage.Relabel | client/src/pages/ViewApplications.jsx:37 | Exactly the entries with the matching id get the new status, and all others are identical |
| ViewApplicationsPage.LocalStatusUpdate | client/src/pages/ViewApplications.jsx:34-44 | A declined or failed request leaves the list unchanged; a successful one changes only the status of the matching entries |
| ViewApplicationsPage.ApplicantsFollowStatus | client/src/pages/ViewApplications.jsx:36-38 | Replacing a status in the store relabels the company's populated applicant list entry by entry |
| ViewApplicationsPage.ServerReplacesStatus | server/controllers/companyController.js:234-235 | A successful status update replaces the status of the one row carrying the id and nothing else |
| ViewApplicationsPage.ClientMirrorsServer | client/src/pages/ViewApplications.jsx:36-38 | After an accepted status change, the page's local list equals what a fresh fetch would show |
| ViewApplicationsPage.Rendered | client/src/pages/ViewApplications.jsx:84 | Exactly the entries whose job and user both populated are rendered |
| ViewApplicationsPage.RenderedAppend | client/src/pages/ViewApplications.jsx:84 | The filter keeps the list order: it distributes over concatenation |
| ViewApplicationsPage.FetchedNewestFirst | client/src/pages/ViewApplications.jsx:18 | The page holds the company's applications, most recently created first |
| ViewApplicationsPage.RenderedRowResolves | client/src/pages/ViewApplications.jsx:84 | Every rendered row is an application to the company whose candidate and job are both still stored |
| ViewApplicationsPage.OfferedActionsSucceed | client/src/pages/ViewApplications.jsx:116-130 | Accept and Reject are offered only for non-final statuses, and either click on a stored application succeeds |
| ViewApplicationsPage.UndecidedWithoutButtons | client/src/pages/ViewApplications.jsx:116 | Every stored status that is neither empty, pending in any letter case, nor final gets no buttons, although the server would still change it to any non-empty status; "Interview" is one such status |
| ViewApplicationsPage.ActionsOffered | client/src/pages/ViewApplications.jsx:116 | The Accept and Reject buttons are offered for an empty status and for "pending" in any letter case, and never for a status the server treats as final |
| ViewApplicationsPage.BadgeOf | client/src/pages/ViewApplications.jsx:133-140 | Green exactly for accepted and red exactly for rejected, in any letter case, so the badge is yellow exactly for the statuses the server still lets change; the text falls back to "Pending" |
| ViewApplicationsPage.BadgeYellowIffOpen | client/src/pages/ViewApplications.jsx:133-138 | For any stored application and any non-empty new status, its badge is yellow exactly when the server's status update succeeds |
| SavedJobsPage.Present | client/src/pages/SavedJobs.jsx:42-44 | Records whose job is gone are dropped, every present job is kept, and the list is strictly shorter when some job is gone |
| SavedJobsPage.PresentAppend | client/src/pages/SavedJobs.jsx:42-44 | The filter keeps the list order: it distributes over concatenation |
| SavedJobsPage.CurrentJobs | client/src/pages/SavedJobs.jsx:40-45 | Page p shows the slice [(p−1)·6, p·6) of the present jobs, at most six, and nothing past their end |
| SavedJobsPage.EveryPageNonEmpty | client/src/pages/SavedJobs.jsx:40-47 | With the count taken from the present jobs, every numbered page is non-empty and all but the last are full |
| SavedJobsPage.PagesCoverAll | client/src/pages/SavedJobs.jsx:40-45 | Reading the numbered pages in order gives every present job exactly once, in order |
| SavedJobsPage.TrailingEmptyPage | client/src/pages/SavedJobs.jsx:47 | As written, when some job is gone and the present jobs fill whole pages, the page count is too large and its last page is empty |
| SavedJobsPage.TotalPagesAsWritten | client/src/pages/SavedJobs.jsx:47 | As written, the fewest pages of six that hold all the saved records, so never fewer than the pages the shown jobs need |
| SavedJobsPage.TotalPages | client/src/pages/SavedJobs.jsx:47 | Corrected: the fewest pages of six that hold all the shown jobs |
| SavedJobsPage.Navigate | client/src/pages/SavedJobs.jsx:49-51 | Prev goes back one page, or stays on page 1 from page 1 or below; next goes forward one page, or stays on the last page from it or beyond; a number goes to that page |
| SavedJobsPage.NavigationStaysInRange | client/src/pages/SavedJobs.jsx:49-51 | Any use of the offered controls from a numbered page stays on a numbered page |
| JobCard.CheckSaved | client/src/components/JobCard.jsx:27-29 | True exactly when a saved record for the job comes before any record whose job is gone; false exactly when no record matches and none is gone; a gone job met first throws |
| JobCard.CheckMatchesServer | client/src/components/JobCard.jsx:27-30 | While all of the caller's saved jobs exist, the check reports exactly whether the server holds the pair |
| JobCard.ToggleUpdatesCard | client/src/components/JobCard.jsx:48 | After a toggle the card's flag agrees with whether the server now holds the pair |
| JobCard.PreviewFallbackDead | client/src/components/JobCard.jsx:90 | As written the preview is never empty, and a missing description shows "undefined..." |
| JobCard.PreviewAsWritten | client/src/components/JobCard.jsx:90 | As written, the preview always ends in "...", so it is never empty |
| JobCard.Preview | client/src/components/JobCard.jsx:90 | The preview is the first 158 characters of the description followed by "...", and empty without a description |
| JobCard.PreviewAgreesWhenPresent | client/src/components/JobCard.jsx:90 | With a description present the two previews agree |
| ClerkSyncScript.DisplayName | server/scripts/syncUsersFromClerk.js:17 | The display name is the username, or a non-empty name with no surrounding white space; with no first or last name it is the username |
| ClerkSyncScript.DisplayNameCases | server/scripts/syncUsersFromClerk.js:17 | Without names the username is used; a lone first name is used without the separating space |
| ClerkSyncScript.SyncOne | server/scripts/syncUsersFromClerk.js:15-35 | An unknown subject and an email held by another user both leave the users unchanged; a write sets name, email and image of that user only; ids, `clerkId`s and resumes never change; the email index stays unique |
| ClerkSyncScript.SyncUsersFromClerk | server/scripts/syncUsersFromClerk.js:13-39 | The loop keeps the number of users and each user's id and `clerkId`, and a list of provider users none of whom is stored changes nothing |
| ClerkSyncScript.SyncPreservesUsers | server/scripts/syncUsersFromClerk.js:13-39 | The whole script never creates or deletes a user, keeps every id, `clerkId` and resume, and keeps the email index unique |
| ClerkSyncScript.UnknownUserIgnored | server/scripts/syncUsersFromClerk.js:33-35 | A provider user with no stored counterpart changes nothing |
| ClerkSyncScript.ValidUpdateWritten | server/scripts/syncUsersFromClerk.js:28-31 | A complete update whose email no one else holds is written in full |
| FixUserIdsScript.LookupKey | server/scripts/fixUserIds.js:14 | The populated user's `clerkId`; a dangling reference has no key; a `RefClerk` reference keys on its stored identity-provider id, following the script's intent (see Left out) |
| FixUserIdsScript.Resolve | server/scripts/fixUserIds.js:14-19 | Resolves exactly when there is a key and some user has that `clerkId`, and then to the first such user |
| FixUserIdsScript.FixOne | server/scripts/fixUserIds.js:16-25 | An unresolved reference is left alone; a resolved one becomes the resolved user's id |
| FixUserIdsScript.FixUserRefs | server/scripts/fixUserIds.js:13-26 | Every application is fixed in place, in order, and none is added or removed |
| FixUserIdsScript.ResolveById | server/scripts/fixUserIds.js:14 | A reference to a user's id resolves to the first user with that user's `clerkId` |
| FixUserIdsScript.FixedRefsPointHome | server/scripts/fixUserIds.js:21-24 | Afterwards every resolved application points at its resolved user and resolves to that user again; the rest are untouched |
| FixUserIdsScript.FixIdempotent | server/scripts/fixUserIds.js:21-24 | A second run writes nothing |
| FixUserIdsScript.SharedClerkIdRepoints | server/scripts/fixUserIds.js:14 | `clerkId` is not unique, so an application of the second of two users sharing one is moved to the first |

## Left out

- Text is ASCII: `toLowerCase` folds only A–Z, `trim` strips only the common ASCII whitespace, and `slice` counts characters rather than UTF-16 code units.
- Request bodies are strings or absent. Non-string JSON values (numbers, arrays, objects) are not modelled.
- Each handler call is one atomic step. The races between a find and the create or delete that follows it, in apply, toggle and status update, are not modelled.
- bcrypt, jwt signing and verification, Cloudinary and the clock are parameters, not computations. So is the JSON response token returned by `generateToken`.
- Database failures other than validation, the unique email index and CastErrors are not modelled. Neither are the 500 answers they would cause.
- `getCompanyJobApplicants` answers 200 with `success: false` when it catches an error. That path cannot arise in the model, since nothing fails.
- The Company and Job schema files are not part of this model. Their fields are those the controllers read and write.
- `getCompanyData` and `testEndpoint` in the company controller only echo the request. They are not modelled.
- The unrouted `getSavedJobs` in the user controller is not modelled. The routed handler in the saved-job controller is.
- `deleteInvalidJobApplications` is a single query with no logic. It is not modelled.
- Not modelled: the other route files, server boot, Sentry, the client context, the navbar, and React rendering, effects and toasts.
- UserRoutes.Admit: the identity provider's `requireAuth` is modelled as a session that is present or absent. Multer's own error answers are refusals carrying the error text, and their HTTP status codes are not modelled.
- FixUserIdsScript.ResolveById: it assumes every stored user has a non-empty `clerkId`, as the schema requires. With an empty one, the script's fallback to the raw reference would throw a CastError, which the model does not follow.
- ClerkSyncScript.SyncOne: a missing email, name or image makes `save` fail validation, and the script then catches the error and moves on. The model leaves the user unchanged in that case; it does not model the duplicate-email query for an absent email.
- ViewApplicationsPage.ActionsOffered: takes the status as a string, so the source's branch for an absent status is not expressed; a stored application always has a status, because the schema defaults it to "Pending" and an update needs a truthy one.
- FixUserIdsScript.LookupKey: a `RefClerk` reference, a raw identity-provider id stored where the schema declares an ObjectId, follows the intent of `app.userId?.clerkId || app.userId`. Mongoose's ObjectId cast on load is not modelled: it would throw a CastError or leave the field unset, so the real script never re-points such an application.
- UserController.GetUserData: the response is modelled as a silent success, so the returned user document is not part of the contract; the contract pins the store instead. The same holds for the user document that `syncUser` returns.
- UserController.GetUserJobApplications: the sort is stated as a newest-first permutation. Among applications with equal dates, the order the database returns is not pinned down.

## Findings

| source | as written | input that shows it | evidently intended | confidence | as-written member | corrected member |
|---|---|---|---|---|---|---|
| client/src/pages/Applications.jsx:97 | the dedup key compares `j.Status`, a field no record has, so the key is the job alone | two applications to job 7 with statuses "Pending" and "Rejected": only the first is shown | compare the job and `status` | medium, not executed | ApplicationsPage.StatusKeyIgnored | ApplicationsPage.UniqueApplicationsDistinct |
| client/src/pages/SavedJobs.jsx:47 | the page count uses the list before records of deleted jobs are dropped | seven saved records, one of them for a deleted job: two pages, the second empty, and on it the buttons disappear | count pages from the jobs actually shown | high, not executed | SavedJobsPage.TrailingEmptyPage | SavedJobsPage.EveryPageNonEmpty |
| client/src/components/JobCard.jsx:90 | `description?.slice(0, 158) + "..."` is never falsy, so the fallback to `""` is dead | a job without a description: the preview reads "undefined..." | an empty preview without a description | low, not executed | JobCard.PreviewFallbackDead | JobCard.Preview |
