/** The company's "View Applications" page: the fetched list (stored reversed), the
    local update after a status change, the rows it renders, when it offers the
    Accept/Reject buttons and how it colours a decided status. */
module ViewApplicationsPage {
  import opened Base
  import opened Tables
  import opened Models
  import opened Joins
  import opened CompanyController

  function Reverse<T>(xs: seq<T>): (r: seq<T>)
    ensures |r| == |xs|
    ensures forall i :: 0 <= i < |xs| ==> r[i] == xs[|xs| - 1 - i]
  {
    if xs == [] then [] else Reverse(xs[1..]) + [xs[0]]
  }

  /** The list the page keeps after a successful fetch: `data.applications.reverse()`. */
  function Fetched(s: Store, caller: Id): seq<ApplicationView> {
    Reverse(GetCompanyJobApplicants(s, caller))
  }

  /** The page lists the company's applications most recently created first. */
  lemma FetchedNewestFirst(s: Store, caller: Id)
    ensures |Fetched(s, caller)| == Count(s.applications, ApplicationsFor(caller))
    ensures forall i :: 0 <= i < |Fetched(s, caller)| ==>
              Fetched(s, caller)[i] == NewestFirstView(s, Where(s.applications, ApplicationsFor(caller)), i)
  {
    var mine := Where(s.applications, ApplicationsFor(caller));
    assert Fetched(s, caller) == Reverse(ApplicationViewsOf(s, mine, false));
    ReversedViews(s, mine);
  }

  /** The view of the `i`-th application counted from the end of `t`. */
  function NewestFirstView(s: Store, t: Table<JobApplication>, i: nat): ApplicationView
    requires i < |t|
  {
    ApplicationViewOf(s, t[|t| - 1 - i], false)
  }

  lemma ReversedViews(s: Store, t: Table<JobApplication>)
    ensures var r := Reverse(ApplicationViewsOf(s, t, false));
            && |r| == |t|
            && forall i :: 0 <= i < |t| ==> r[i] == NewestFirstView(s, t, i)
  {
    var g := ApplicationViewsOf(s, t, false);
    var r := Reverse(g);
    forall i | 0 <= i < |r|
      ensures r[i] == NewestFirstView(s, t, i)
    {
      var j := |t| - 1 - i;
      assert r[i] == g[j];
    }
  }

  /** `prev.map(app => app._id === id ? { ...app, status } : app)`. */
  function Relabel(xs: seq<ApplicationView>, id: Id, status: string): (r: seq<ApplicationView>)
    ensures |r| == |xs|
    ensures forall i :: 0 <= i < |xs| ==>
              r[i] == if xs[i].id == id then xs[i].(status := status) else xs[i]
  {
    if xs == [] then [] else [if xs[0].id == id then xs[0].(status := status) else xs[0]] + Relabel(xs[1..], id, status)
  }

  /** How the status request came back: `success: true`, `success: false`, or thrown. */
  datatype StatusReply = Succeeded | Declined(message: Message) | Errored

  /** The page's list after a status request: only a successful reply touches it. */
  function LocalStatusUpdate(xs: seq<ApplicationView>, id: Id, status: string, reply: StatusReply): (r: seq<ApplicationView>)
    ensures !reply.Succeeded? ==> r == xs
    ensures |r| == |xs|
    ensures reply.Succeeded? ==>
              forall i :: 0 <= i < |xs| ==>
                && r[i].id == xs[i].id && r[i].user == xs[i].user && r[i].company == xs[i].company
                && r[i].job == xs[i].job && r[i].date == xs[i].date
                && r[i].status == (if xs[i].id == id then status else xs[i].status)
  {
    if reply.Succeeded? then Relabel(xs, id, status) else xs
  }

  /** `t2` is `t` with the status of every row carrying `id` set to `status`. */
  predicate StatusReplaced(t: Table<JobApplication>, t2: Table<JobApplication>, id: Id, status: string) {
    && |t2| == |t|
    && forall i :: 0 <= i < |t| ==>
         t2[i] == if t[i].id == id then Row(id, t[i].val.(status := status)) else t[i]
  }

  /** The company's populated applicant list follows a status replacement row by row. */
  lemma {:induction false} ApplicantsFollowStatus(
    s: Store, s2: Store, t: Table<JobApplication>, t2: Table<JobApplication>, caller: Id, id: Id, status: string)
    requires s2 == s.(applications := s2.applications)
    requires StatusReplaced(t, t2, id, status)
    ensures ApplicationViewsOf(s2, Where(t2, ApplicationsFor(caller)), false)
              == Relabel(ApplicationViewsOf(s, Where(t, ApplicationsFor(caller)), false), id, status)
  {
    if t != [] {
      var p := ApplicationsFor(caller);
      ApplicantsFollowStatus(s, s2, t[1..], t2[1..], caller, id, status);
      assert p(t2[0].val) == p(t[0].val);
      var v := ApplicationViewOf(s, t[0], false);
      assert ApplicationViewOf(s2, t2[0], false) == if v.id == id then v.(status := status) else v;
    }
  }

  /** After the server accepts a status change, the page's local list is exactly what a
      fresh fetch would show: the client mirrors the server. */
  lemma ClientMirrorsServer(s: Store, caller: Id, id: Id, status: string)
    requires UniqueIds(s.applications)
    requires status != ""
    requires UpdateJobApplicationStatus(s, Given(id), Some(status)).response.success
    ensures var o := UpdateJobApplicationStatus(s, Given(id), Some(status));
            LocalStatusUpdate(Fetched(s, caller), id, status, Succeeded) == Fetched(o.store, caller)
  {
    var o := UpdateJobApplicationStatus(s, Given(id), Some(status));
    ServerReplacesStatus(s, id, status);
    ApplicantsFollowStatus(s, o.store, s.applications, o.store.applications, caller, id, status);
    var before := GetCompanyJobApplicants(s, caller);
    var after := GetCompanyJobApplicants(o.store, caller);
    assert after == Relabel(before, id, status);
    RelabelReverse(before, id, status);
  }

  /** A successful update replaces the status of the one row carrying the id. */
  lemma ServerReplacesStatus(s: Store, id: Id, status: string)
    requires UniqueIds(s.applications)
    requires UpdateJobApplicationStatus(s, Given(id), Some(status)).response.success
    ensures var o := UpdateJobApplicationStatus(s, Given(id), Some(status));
            && o.store == s.(applications := o.store.applications)
            && StatusReplaced(s.applications, o.store.applications, id, status)
  {
    var o := UpdateJobApplicationStatus(s, Given(id), Some(status));
    var k := FindId(s.applications, id).value;
    forall i | 0 <= i < |s.applications|
      ensures o.store.applications[i] ==
                if s.applications[i].id == id then Row(id, s.applications[i].val.(status := status)) else s.applications[i]
    {
      if i != k {
        assert s.applications[i].id != id;
      }
    }
  }

  lemma RelabelReverse(xs: seq<ApplicationView>, id: Id, status: string)
    ensures Relabel(Reverse(xs), id, status) == Reverse(Relabel(xs, id, status))
  {
    var a := Relabel(Reverse(xs), id, status);
    var b := Reverse(Relabel(xs, id, status));
    assert forall i :: 0 <= i < |xs| ==> a[i] == b[i];
  }

  /** `filter(item => item.jobId && item.userId)`: rows whose user and job still exist. */
  function Rendered(xs: seq<ApplicationView>): (r: seq<ApplicationView>)
    ensures |r| <= |xs|
    ensures forall i :: 0 <= i < |r| ==> r[i] in xs && r[i].job.Some? && r[i].user.Some?
    ensures forall i :: 0 <= i < |xs| && xs[i].job.Some? && xs[i].user.Some? ==> xs[i] in r
  {
    if xs == [] then []
    else if xs[0].job.Some? && xs[0].user.Some? then [xs[0]] + Rendered(xs[1..])
    else Rendered(xs[1..])
  }

  /** `filter` keeps the list's order: it distributes over concatenation. */
  lemma {:induction false} RenderedAppend(a: seq<ApplicationView>, b: seq<ApplicationView>)
    ensures Rendered(a + b) == Rendered(a) + Rendered(b)
  {
    if a == [] {
      assert a + b == b;
    } else {
      assert (a + b)[1..] == a[1..] + b;
      RenderedAppend(a[1..], b);
    }
  }

  /** The stored application behind a row: it is addressed to `caller`, and its
      candidate and job are both still in the store. */
  predicate BackedByApplication(s: Store, caller: Id, v: ApplicationView) {
    exists k :: && 0 <= k < |s.applications| && s.applications[k].id == v.id
                && s.applications[k].val.companyId == caller
                && HasId(s.users, s.applications[k].val.userId)
                && HasId(s.jobs, s.applications[k].val.jobId)
  }

  /** Every rendered row is an application to the company whose candidate and job are
      both still in the store. */
  lemma RenderedRowResolves(s: Store, caller: Id)
    ensures forall v :: v in Rendered(Fetched(s, caller)) ==> BackedByApplication(s, caller, v)
  {
    forall v | v in Rendered(Fetched(s, caller))
      ensures BackedByApplication(s, caller, v)
    {
      RowResolves(s, caller, v);
    }
  }

  lemma RowResolves(s: Store, caller: Id, v: ApplicationView)
    requires v in Rendered(Fetched(s, caller))
    ensures BackedByApplication(s, caller, v)
  {
    RenderedFromApplicants(s, caller, v);
    ApplicantResolves(s, caller, v);
  }

  /** A fetched applicant whose job and user were populated is backed by a stored
      application to `caller`. */
  lemma ApplicantResolves(s: Store, caller: Id, v: ApplicationView)
    requires v in GetCompanyJobApplicants(s, caller) && v.job.Some? && v.user.Some?
    ensures BackedByApplication(s, caller, v)
  {
    var mine := Where(s.applications, ApplicationsFor(caller));
    assert GetCompanyJobApplicants(s, caller) == ApplicationViewsOf(s, mine, false);
    ViewResolves(s, caller, mine, v);
  }

  lemma ViewResolves(s: Store, caller: Id, mine: Table<JobApplication>, v: ApplicationView)
    requires mine == Where(s.applications, ApplicationsFor(caller))
    requires v in ApplicationViewsOf(s, mine, false) && v.job.Some? && v.user.Some?
    ensures BackedByApplication(s, caller, v)
  {
    var g := ApplicationViewsOf(s, mine, false);
    var i :| 0 <= i < |g| && g[i] == v;
    assert mine[i] in s.applications && mine[i].val.companyId == caller;
    var k :| 0 <= k < |s.applications| && s.applications[k] == mine[i];
    assert v == ApplicationViewOf(s, s.applications[k], false);
  }

  /** A rendered row is one of the fetched applicants, with job and user populated. */
  lemma RenderedFromApplicants(s: Store, caller: Id, v: ApplicationView)
    requires v in Rendered(Fetched(s, caller))
    ensures v in GetCompanyJobApplicants(s, caller) && v.job.Some? && v.user.Some?
  {
    InRendered(Fetched(s, caller), v);
    InReverse(GetCompanyJobApplicants(s, caller), v);
  }

  lemma InRendered(xs: seq<ApplicationView>, v: ApplicationView)
    requires v in Rendered(xs)
    ensures v in xs && v.job.Some? && v.user.Some?
  {
    var i :| 0 <= i < |Rendered(xs)| && Rendered(xs)[i] == v;
  }

  lemma InReverse<T>(xs: seq<T>, v: T)
    requires v in Reverse(xs)
    ensures v in xs
  {
    var a :| 0 <= a < |xs| && Reverse(xs)[a] == v;
    assert xs[|xs| - 1 - a] == v;
  }

  /** Accept/Reject are offered for an empty status or "pending" in any letter case.
      The source also offers them for an absent status; a stored application always has
      one, since the schema defaults it to "Pending" and an update needs a truthy one. */
  function ActionsOffered(status: string): (offered: bool)
    ensures offered ==> !IsFinal(status)
    ensures status == "" || ToLower(status) == "pending" ==> offered
  {
    status == "" || ToLower(status) == "pending"
  }

  /** The buttons are never offered for a status the server would refuse to change, and
      clicking either one on a stored application succeeds. */
  lemma OfferedActionsSucceed(s: Store, id: Id, choice: string)
    requires HasId(s.applications, id)
    requires ActionsOffered(s.applications[FindId(s.applications, id).value].val.status)
    requires choice == "Accepted" || choice == "Rejected"
    ensures !IsFinal(s.applications[FindId(s.applications, id).value].val.status)
    ensures UpdateJobApplicationStatus(s, Given(id), Some(choice)).response.success
  {
    var st := s.applications[FindId(s.applications, id).value].val.status;
    if st == "" {
      assert ToLower(st) == "";
    }
  }

  /** A stored status that is neither empty, pending nor final (such as "Interview",
      set through the unrestricted update) gets no buttons, although the server would
      still accept a change of it. */
  lemma UndecidedWithoutButtons(s: Store, id: Id, choice: string)
    requires HasId(s.applications, id)
    requires var st := s.applications[FindId(s.applications, id).value].val.status;
             st != "" && ToLower(st) != "pending" && !IsFinal(st)
    requires choice != ""
    ensures !ActionsOffered(s.applications[FindId(s.applications, id).value].val.status)
    ensures UpdateJobApplicationStatus(s, Given(id), Some(choice)).response.success
    ensures !ActionsOffered("Interview") && !IsFinal("Interview")
  {
    assert ToLower("Interview")[0] == 'i';
  }

  datatype BadgeColor = Green | Red | Yellow

  /** The colour and text of the badge shown when no buttons are offered. */
  datatype Badge = Badge(color: BadgeColor, text: string)

  function BadgeOf(status: string): (b: Badge)
    ensures b.color.Green? <==> ToLower(status) == "accepted"
    ensures b.color.Red? <==> ToLower(status) == "rejected"
    ensures b.text == (if status == "" then "Pending" else status)
    // yellow marks exactly the statuses the server still lets change
    ensures b.color.Yellow? <==> !IsFinal(status)
  {
    var raw := ToLower(status);
    Badge(if raw == "accepted" then Green else if raw == "rejected" then Red else Yellow,
          if status != "" then status else "Pending")
  }

  /** A stored application's badge is yellow exactly when the server would still
      accept a change of its status. */
  lemma BadgeYellowIffOpen(s: Store, id: Id, choice: string)
    requires HasId(s.applications, id)
    requires choice != ""
    ensures var st := s.applications[FindId(s.applications, id).value].val.status;
            BadgeOf(st).color.Yellow? <==> UpdateJobApplicationStatus(s, Given(id), Some(choice)).response.success
  {
  }
}
