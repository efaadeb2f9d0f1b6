/** The candidate's "Applications" page: the status badge's normalisation, the
    de-duplication of the fetched applications, and which resume panel is shown. */
module ApplicationsPage {
  import opened Base
  import opened Tables
  import opened Models
  import opened Joins
  import opened CompanyController
  import opened UserController

  // ----- StatusBadge ---------------------------------------------------------------

  predicate IsBadgeLabel(l: string) {
    l == "Pending" || l == "Accepted" || l == "Rejected"
  }

  /** The badge label of a status: pending, accepted and rejected in any letter case
      map to their capitalised form; anything else, absent included, reads "Pending". */
  function NormalizeStatus(status: Option<string>): (l: string)
    ensures IsBadgeLabel(l)
    ensures status.Some? && ToLower(status.value) == "accepted" ==> l == "Accepted"
    ensures status.Some? && ToLower(status.value) == "rejected" ==> l == "Rejected"
    ensures l == "Pending" <==>
              status.None? || (ToLower(status.value) != "accepted" && ToLower(status.value) != "rejected")
  {
    if status.None? then "Pending"
    else
      var raw := ToLower(status.value);
      if raw == "pending" then "Pending"
      else if raw == "accepted" then "Accepted"
      else if raw == "rejected" then "Rejected"
      else "Pending"
  }

  /** A label normalises to itself, so normalising twice is normalising once. */
  lemma NormalizeIdempotent(status: Option<string>)
    ensures NormalizeStatus(Some(NormalizeStatus(status))) == NormalizeStatus(status)
  {
    LowerOfLabel("Pending", "pending");
    LowerOfLabel("Accepted", "accepted");
    LowerOfLabel("Rejected", "rejected");
  }

  lemma LowerOfLabel(word: string, lower: string)
    requires |word| == |lower|
    requires forall i :: 0 <= i < |word| ==> LowerChar(word[i]) == lower[i]
    ensures ToLower(word) == lower
  {
  }

  /** Letter case does not matter. */
  lemma NormalizeIgnoresCase(status: string)
    ensures NormalizeStatus(Some(ToLower(status))) == NormalizeStatus(Some(status))
  {
    ToLowerIdempotent(status);
  }

  /** The badge agrees with the server's status machine: it shows a decided state
      exactly for the statuses the server treats as final. */
  lemma BadgeShowsFinal(status: string)
    ensures NormalizeStatus(Some(status)) != "Pending" <==> IsFinal(status)
  {
  }

  // ----- uniqueApplications --------------------------------------------------------

  /** Position `i` holds the first element with its key
      (`index === self.findIndex(j => key(j) === key(xs[i]))`). */
  predicate IsFirst<T, K(==)>(xs: seq<T>, key: T -> K, i: nat)
    requires i < |xs|
  {
    forall j :: 0 <= j < i ==> key(xs[j]) != key(xs[i])
  }

  /** The positions the filter keeps, from `from` on. */
  function KeptFrom<T, K(==)>(xs: seq<T>, key: T -> K, from: nat): (ks: seq<nat>)
    requires from <= |xs|
    decreases |xs| - from
    ensures |ks| <= |xs| - from
    ensures forall m :: 0 <= m < |ks| ==> from <= ks[m] < |xs| && IsFirst(xs, key, ks[m])
    ensures forall m, n :: 0 <= m < n < |ks| ==> ks[m] < ks[n]
    ensures forall i :: from <= i < |xs| && IsFirst(xs, key, i) ==> i in ks
  {
    if from == |xs| then []
    else
      var rest := KeptFrom(xs, key, from + 1);
      if IsFirst(xs, key, from) then [from] + rest else rest
  }

  /** `xs.filter((x, index, self) => index === self.findIndex(…same key…))`. */
  function DedupFirst<T, K(==)>(xs: seq<T>, key: T -> K): (r: seq<T>)
    ensures |r| <= |xs|
  {
    var ks := KeptFrom(xs, key, 0);
    seq(|ks|, m requires 0 <= m < |ks| => xs[ks[m]])
  }

  /** Every index has a first occurrence of its key at or before it. */
  lemma {:induction false} FirstOccurrence<T, K>(xs: seq<T>, key: T -> K, i: nat) returns (f: nat)
    requires i < |xs|
    decreases i
    ensures f <= i && key(xs[f]) == key(xs[i]) && IsFirst(xs, key, f)
  {
    if IsFirst(xs, key, i) {
      f := i;
    } else {
      var j :| 0 <= j < i && key(xs[j]) == key(xs[i]);
      f := FirstOccurrence(xs, key, j);
    }
  }

  /** The first occurrence of the key of `xs[i]` survives the filter, at position `m`. */
  lemma DedupCovers<T, K>(xs: seq<T>, key: T -> K, i: nat) returns (m: nat)
    requires i < |xs|
    ensures m < |DedupFirst(xs, key)| && key(DedupFirst(xs, key)[m]) == key(xs[i])
  {
    var ks := KeptFrom(xs, key, 0);
    var f := FirstOccurrence(xs, key, i);
    assert f in ks;
    m :| 0 <= m < |ks| && ks[m] == f;
  }

  /** The filter's result is an order-preserving subsequence of its input, its keys are
      pairwise distinct, and every key of the input survives, carried by its first
      occurrence. */
  lemma DedupFirstProperties<T, K>(xs: seq<T>, key: T -> K)
    ensures var r := DedupFirst(xs, key);
            var ks := KeptFrom(xs, key, 0);
            && |r| == |ks|
            && (forall m :: 0 <= m < |r| ==> ks[m] < |xs| && r[m] == xs[ks[m]])
            && (forall m, n :: 0 <= m < n < |ks| ==> ks[m] < ks[n])
            && (forall m, n :: 0 <= m < n < |r| ==> key(r[m]) != key(r[n]))
            && (forall i :: 0 <= i < |xs| ==> exists m :: 0 <= m < |r| && key(r[m]) == key(xs[i]))
  {
    var r := DedupFirst(xs, key);
    var ks := KeptFrom(xs, key, 0);
    forall m, n | 0 <= m < n < |r|
      ensures key(r[m]) != key(r[n])
    {
      assert IsFirst(xs, key, ks[n]);
    }
    forall i | 0 <= i < |xs|
      ensures exists m :: 0 <= m < |r| && key(r[m]) == key(xs[i])
    {
      var f := FirstOccurrence(xs, key, i);
      assert f in ks;
      var m :| 0 <= m < |ks| && ks[m] == f;
      assert r[m] == xs[f];
    }
  }

  /** The populated job's id, `job.jobId?._id`. */
  function JobRef(v: ApplicationView): Option<Id> {
    if v.job.Some? then Some(v.job.value.id) else None
  }

  /** The key as written compares `j.Status`, a field the server's records never carry
      (their field is `status`), so its second half is always undefined. */
  function AsWrittenKey(v: ApplicationView): (Option<Id>, Option<string>) {
    (JobRef(v), None)
  }

  function UniqueApplicationsAsWritten(apps: seq<ApplicationView>): seq<ApplicationView> {
    DedupFirst(apps, AsWrittenKey)
  }

  /** As written the filter keeps exactly one application per job, whatever the
      statuses: the kept entries have pairwise distinct jobs and every job survives. */
  lemma AsWrittenOnePerJob(apps: seq<ApplicationView>)
    ensures var r := UniqueApplicationsAsWritten(apps);
            && (forall m, n :: 0 <= m < n < |r| ==> JobRef(r[m]) != JobRef(r[n]))
            && (forall i :: 0 <= i < |apps| ==> JobSurvives(r, apps[i]))
  {
    AsWrittenJobsDistinct(apps);
    AsWrittenJobsCovered(apps);
  }

  lemma AsWrittenJobsDistinct(apps: seq<ApplicationView>)
    ensures var r := UniqueApplicationsAsWritten(apps);
            forall m, n :: 0 <= m < n < |r| ==> JobRef(r[m]) != JobRef(r[n])
  {
    DedupFirstProperties(apps, AsWrittenKey);
    var r := UniqueApplicationsAsWritten(apps);
    forall m, n | 0 <= m < n < |r|
      ensures JobRef(r[m]) != JobRef(r[n])
    {
      assert AsWrittenKey(r[m]) != AsWrittenKey(r[n]);
    }
  }

  /** Some kept entry is for the same job as `v`. */
  predicate JobSurvives(r: seq<ApplicationView>, v: ApplicationView) {
    exists m :: 0 <= m < |r| && JobRef(r[m]) == JobRef(v)
  }

  lemma AsWrittenJobsCovered(apps: seq<ApplicationView>)
    ensures forall i :: 0 <= i < |apps| ==> JobSurvives(UniqueApplicationsAsWritten(apps), apps[i])
  {
    var r := UniqueApplicationsAsWritten(apps);
    forall i | 0 <= i < |apps|
      ensures JobSurvives(r, apps[i])
    {
      var m := DedupCovers(apps, AsWrittenKey, i);
      assert JobRef(r[m]) == JobRef(apps[i]);
    }
  }

  /** The key as evidently intended: the job together with the application's status. */
  function IntendedKey(v: ApplicationView): (Option<Id>, Option<string>) {
    (JobRef(v), Some(v.status))
  }

  function UniqueApplications(apps: seq<ApplicationView>): seq<ApplicationView> {
    DedupFirst(apps, IntendedKey)
  }

  /** As written, two applications to the same job with different statuses collapse to
      the first one; the intended key keeps both. */
  lemma StatusKeyIgnored()
    ensures var j := Some(JobSummary(7, "t", Some("d"), "l", "c", "v", "s"));
            var a := ApplicationView(1, None, None, j, "Pending", 2);
            var b := ApplicationView(2, None, None, j, "Rejected", 1);
            && UniqueApplicationsAsWritten([a, b]) == [a]
            && UniqueApplications([a, b]) == [a, b]
  {
    var j := Some(JobSummary(7, "t", Some("d"), "l", "c", "v", "s"));
    var a := ApplicationView(1, None, None, j, "Pending", 2);
    var b := ApplicationView(2, None, None, j, "Rejected", 1);
    assert IsFirst([a, b], AsWrittenKey, 0);
    assert AsWrittenKey([a, b][0]) == AsWrittenKey([a, b][1]);
    assert !IsFirst([a, b], AsWrittenKey, 1);
    assert KeptFrom([a, b], AsWrittenKey, 0) == [0];
    assert IsFirst([a, b], IntendedKey, 1);
    assert KeptFrom([a, b], IntendedKey, 0) == [0, 1];
  }

  /** With the intended key, two entries are merged only when both their job and
      their status agree. */
  lemma UniqueApplicationsDistinct(apps: seq<ApplicationView>)
    ensures var r := UniqueApplications(apps);
            && |r| <= |apps|
            && (forall m, n :: 0 <= m < n < |r| ==> JobRef(r[m]) != JobRef(r[n]) || r[m].status != r[n].status)
            && (forall i :: 0 <= i < |apps| ==> PairSurvives(r, apps[i]))
  {
    assert |UniqueApplications(apps)| <= |apps|;
    IntendedPairsDistinct(apps);
    IntendedPairsCovered(apps);
  }

  lemma IntendedPairsDistinct(apps: seq<ApplicationView>)
    ensures var r := UniqueApplications(apps);
            forall m, n :: 0 <= m < n < |r| ==> JobRef(r[m]) != JobRef(r[n]) || r[m].status != r[n].status
  {
    DedupFirstProperties(apps, IntendedKey);
    var r := UniqueApplications(apps);
    forall m, n | 0 <= m < n < |r|
      ensures JobRef(r[m]) != JobRef(r[n]) || r[m].status != r[n].status
    {
      assert IntendedKey(r[m]) != IntendedKey(r[n]);
    }
  }

  /** Some kept entry has the job and the status of `v`. */
  predicate PairSurvives(r: seq<ApplicationView>, v: ApplicationView) {
    exists m :: 0 <= m < |r| && JobRef(r[m]) == JobRef(v) && r[m].status == v.status
  }

  lemma IntendedPairsCovered(apps: seq<ApplicationView>)
    ensures forall i :: 0 <= i < |apps| ==> PairSurvives(UniqueApplications(apps), apps[i])
  {
    var r := UniqueApplications(apps);
    forall i | 0 <= i < |apps|
      ensures PairSurvives(r, apps[i])
    {
      var m := DedupCovers(apps, IntendedKey, i);
      assert IntendedKey(r[m]) == IntendedKey(apps[i]);
      assert JobRef(r[m]) == JobRef(apps[i]) && r[m].status == apps[i].status;
    }
  }

  // ----- resume panel --------------------------------------------------------------

  /** The upload form is shown while editing, or when the stored resume is exactly "". */
  function UploadPanelShown(isEdit: bool, resume: Option<string>): (shown: bool)
    ensures isEdit ==> shown
    ensures !isEdit ==> (shown <==> resume == Some(""))
  {
    isEdit || resume == Some("")
  }

  /** A user that `getUserData` has just created is offered the upload form. */
  lemma NewUserSeesUploadForm(s: Store, clerkId: string)
    requires clerkId != ""
    requires FindUser(s.users, clerkId).None? && EmailFree(s.users, PlaceholderEmail, None)
    ensures var o := GetUserData(s, Auth(Some(clerkId)));
            var k := FindUser(o.store.users, clerkId);
            && k.Some?
            && UploadPanelShown(false, Some(o.store.users[k.value].val.resume))
  {
    var o := GetUserData(s, Auth(Some(clerkId)));
    assert o.store.users[|s.users|].val.clerkId == clerkId;
  }

  /** After a resume upload the form is hidden, unless the object store handed back
      an empty URL. */
  lemma UploadedUserSeesResume(s: Store, clerkId: string, url: string)
    requires url != ""
    requires UpdateUserResume(s, Auth(Some(clerkId)), true, Uploaded(url)).response.success
    ensures var o := UpdateUserResume(s, Auth(Some(clerkId)), true, Uploaded(url));
            var k := FindUser(o.store.users, clerkId);
            && k.Some?
            && !UploadPanelShown(false, Some(o.store.users[k.value].val.resume))
  {
    var o := UpdateUserResume(s, Auth(Some(clerkId)), true, Uploaded(url));
    var k := FindUser(s.users, clerkId).value;
    assert FindUser(o.store.users, clerkId) == Some(k) by {
      assert forall j :: 0 <= j < |s.users| ==> o.store.users[j].val.clerkId == s.users[j].val.clerkId;
    }
  }
}
