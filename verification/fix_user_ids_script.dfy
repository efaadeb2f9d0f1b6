/** The maintenance script that repairs the `userId` reference of job applications:
    each application is re-pointed to the user found by identity-provider id. */
module FixUserIdsScript {
  import opened Base
  import opened Tables
  import opened Models

  /** An application's stored `userId`: a User `_id`, or (in documents written before
      the reference became an ObjectId) the identity provider's id as a raw string. */
  datatype UserRef = RefId(id: Id) | RefClerk(clerkId: string)

  /** Every stored user has its required `clerkId`. */
  predicate ClerkIdsPresent(users: Table<User>) {
    forall i :: 0 <= i < |users| ==> users[i].val.clerkId != ""
  }

  /** `app.userId?.clerkId || app.userId` after `populate('userId')`: the referenced
      user's `clerkId`, or the raw string. A reference to a missing user populates to
      null, and a query for a null `clerkId` finds nobody. */
  function LookupKey(users: Table<User>, ref: UserRef): (key: Option<string>)
    ensures ref.RefClerk? ==> key == Some(ref.clerkId)
    ensures ref.RefId? ==> (key.Some? <==> HasId(users, ref.id))
    ensures ref.RefId? && key.Some? ==> key.value == users[FindId(users, ref.id).value].val.clerkId
  {
    match ref
    case RefClerk(c) => Some(c)
    case RefId(id) =>
      match FindId(users, id)
      case None => None
      case Some(k) => Some(users[k].val.clerkId)
  }

  /** The position of `User.findOne({ clerkId: key })`, if any. */
  function Resolve(users: Table<User>, ref: UserRef): (k: Option<nat>)
    ensures k.Some? ==> k.value < |users|
    ensures k.Some? <==> LookupKey(users, ref).Some? && FindUser(users, LookupKey(users, ref).value).Some?
    // the first user with the key's `clerkId`
    ensures k.Some? ==> users[k.value].val.clerkId == LookupKey(users, ref).value
    ensures k.Some? ==> forall j :: 0 <= j < k.value ==> users[j].val.clerkId != LookupKey(users, ref).value
  {
    var key := LookupKey(users, ref);
    if key.None? then None else FindUser(users, key.value)
  }

  /** Whether the script writes this application: it resolved to a user whose `_id`
      differs from the stored reference (a raw string never equals an `_id`). */
  predicate Rewrites(users: Table<User>, ref: UserRef) {
    var k := Resolve(users, ref);
    k.Some? && ref != RefId(users[k.value].id)
  }

  /** One pass of the loop: skip an unresolved application, otherwise point it at the user. */
  function FixOne(users: Table<User>, ref: UserRef): (r: UserRef)
    ensures Resolve(users, ref).None? ==> r == ref
    ensures Resolve(users, ref).Some? ==> r == RefId(users[Resolve(users, ref).value].id)
    ensures !Rewrites(users, ref) ==> r == ref
  {
    if Rewrites(users, ref) then RefId(users[Resolve(users, ref).value].id) else ref
  }

  /** The whole script over the applications' `userId` column, in natural order. */
  function FixUserRefs(users: Table<User>, apps: Table<UserRef>): (r: Table<UserRef>)
    ensures |r| == |apps|
    ensures forall i :: 0 <= i < |apps| ==> r[i] == Row(apps[i].id, FixOne(users, apps[i].val))
  {
    if apps == [] then [] else [Row(apps[0].id, FixOne(users, apps[0].val))] + FixUserRefs(users, apps[1..])
  }

  /** A reference to a user's `_id` resolves back to the first user with that user's
      `clerkId`. */
  lemma ResolveById(users: Table<User>, k: nat)
    requires UniqueIds(users) && ClerkIdsPresent(users)
    requires k < |users|
    ensures Resolve(users, RefId(users[k].id)) == FindUser(users, users[k].val.clerkId)
  {
  }

  /** Afterwards every application that resolved points at its user, and resolves to
      that same user again; the others are untouched. */
  lemma FixedRefsPointHome(users: Table<User>, apps: Table<UserRef>)
    requires UniqueIds(users) && ClerkIdsPresent(users)
    ensures var r := FixUserRefs(users, apps);
            forall i :: 0 <= i < |apps| ==>
              match Resolve(users, apps[i].val)
              case None => r[i] == apps[i]
              case Some(k) => r[i].val == RefId(users[k].id) && Resolve(users, r[i].val) == Some(k)
  {
    var r := FixUserRefs(users, apps);
    forall i | 0 <= i < |apps|
      ensures match Resolve(users, apps[i].val)
              case None => r[i] == apps[i]
              case Some(k) => r[i].val == RefId(users[k].id) && Resolve(users, r[i].val) == Some(k)
    {
      match Resolve(users, apps[i].val)
      case None =>
      case Some(k) =>
        ResolveById(users, k);
        assert users[k].val.clerkId == LookupKey(users, apps[i].val).value;
    }
  }

  /** Running the script a second time writes nothing. */
  lemma FixIdempotent(users: Table<User>, apps: Table<UserRef>)
    requires UniqueIds(users) && ClerkIdsPresent(users)
    ensures var r := FixUserRefs(users, apps);
            && FixUserRefs(users, r) == r
            && forall i :: 0 <= i < |r| ==> !Rewrites(users, r[i].val)
  {
    var r := FixUserRefs(users, apps);
    FixedRefsPointHome(users, apps);
    forall i | 0 <= i < |r|
      ensures !Rewrites(users, r[i].val)
    {
      match Resolve(users, apps[i].val)
      case None =>
      case Some(k) =>
    }
    var r2 := FixUserRefs(users, r);
    assert forall i :: 0 <= i < |r| ==> r2[i] == r[i];
  }

  /** `clerkId` is not unique: an application of the second of two users sharing a
      `clerkId` is re-pointed to the first. */
  lemma SharedClerkIdRepoints(users: Table<User>, first: nat, second: nat)
    requires UniqueIds(users) && ClerkIdsPresent(users)
    requires first < second < |users|
    requires users[first].val.clerkId == users[second].val.clerkId
    requires forall j :: 0 <= j < first ==> users[j].val.clerkId != users[first].val.clerkId
    ensures FixOne(users, RefId(users[second].id)) == RefId(users[first].id)
  {
    ResolveById(users, second);
  }
}
