/** The maintenance script that copies name, email and image from the identity
    provider's user list onto the users already stored. It never creates a user, and it
    skips a user whose new email another user already holds. */
module ClerkSyncScript {
  import opened Base
  import opened Tables
  import opened Models

  /** One entry of the identity provider's user list. */
  datatype ClerkUser = ClerkUser(
    id: string, firstName: Option<string>, lastName: Option<string>,
    username: Option<string>, emailAddresses: seq<string>, imageUrl: Option<string>)

  /** `` `${first || ''} ${last || ''}`.trim() || username ``. */
  function DisplayName(c: ClerkUser): (name: Option<string>)
    ensures var full := Trim(OrElse(c.firstName, "") + " " + OrElse(c.lastName, ""));
            && (full != "" ==> name == Some(full))
            && (full == "" ==> name == c.username)
    // the result is the username, or a non-empty name without surrounding white space
    ensures name == c.username ||
            (name.Some? && name.value != "" && !IsSpace(name.value[0]) && !IsSpace(name.value[|name.value| - 1]))
    ensures !Truthy(c.firstName) && !Truthy(c.lastName) ==> name == c.username
  {
    var full := Trim(OrElse(c.firstName, "") + " " + OrElse(c.lastName, ""));
    assert full == [] || (!IsSpace(full[0]) && !IsSpace(full[|full| - 1]));
    assert !Truthy(c.firstName) && !Truthy(c.lastName) ==> full == "" by {
      if !Truthy(c.firstName) && !Truthy(c.lastName) {
        NoNamesTrimEmpty(c);
      }
    }
    if full != "" then Some(full) else c.username
  }

  /** With no names at all the display name is the username; a first name alone is
      used without the separating space. */
  lemma DisplayNameCases(c: ClerkUser, first: string)
    ensures !Truthy(c.firstName) && !Truthy(c.lastName) ==> DisplayName(c) == c.username
    ensures c.firstName == Some(first) && !Truthy(c.lastName) && first != "" && !IsSpace(first[0]) && !IsSpace(first[|first| - 1]) ==>
              DisplayName(c) == Some(first)
  {
    if !Truthy(c.firstName) && !Truthy(c.lastName) {
      TrimAllSpace(" ");
    }
    if c.firstName == Some(first) && !Truthy(c.lastName) && first != "" && !IsSpace(first[0]) && !IsSpace(first[|first| - 1]) {
      assert OrElse(c.firstName, "") + " " + OrElse(c.lastName, "") == first + " ";
      TrimTrailingSpace(first);
    }
  }

  /** Without a first or last name the joined name is a lone space, which trims away. */
  lemma NoNamesTrimEmpty(c: ClerkUser)
    requires !Truthy(c.firstName) && !Truthy(c.lastName)
    ensures Trim(OrElse(c.firstName, "") + " " + OrElse(c.lastName, "")) == ""
  {
    assert OrElse(c.firstName, "") + " " + OrElse(c.lastName, "") == " ";
    TrimAllSpace(" ");
  }

  lemma TrimAllSpace(s: string)
    requires AllSpace(s)
    ensures Trim(s) == ""
  {
  }

  /** Trimming a word followed by one space gives back the word. */
  lemma TrimTrailingSpace(w: string)
    requires w != [] && !IsSpace(w[0]) && !IsSpace(w[|w| - 1])
    ensures Trim(w + " ") == w
  {
    var s := w + " ";
    assert s[..|s| - 1] == w;
    assert TrimEnd(s) == TrimEnd(w) == w;
    assert TrimStart(w) == w;
  }

  /** `emailAddresses?.[0]?.emailAddress`. */
  function PrimaryEmail(c: ClerkUser): (e: Option<string>)
    ensures e.Some? <==> |c.emailAddresses| > 0
    ensures e.Some? ==> e.value == c.emailAddresses[0]
  {
    if |c.emailAddresses| > 0 then Some(c.emailAddresses[0]) else None
  }

  /** One pass of the loop. An absent email, name or image makes the `save`
      fail validation; the error is caught and the user is left as it was. */
  function SyncOne(users: Table<User>, c: ClerkUser): (r: Table<User>)
    ensures |r| == |users|
    ensures forall i :: 0 <= i < |users| ==>
              && r[i].id == users[i].id && r[i].val.clerkId == users[i].val.clerkId
              && r[i].val.resume == users[i].val.resume
    ensures FindUser(users, c.id).None? ==> r == users
    ensures FindUser(users, c.id).Some? && PrimaryEmail(c).Some? ==>
              var k := FindUser(users, c.id).value;
              !EmailFree(users, PrimaryEmail(c).value, Some(users[k].id)) ==> r == users
    ensures r != users ==>
              var k := FindUser(users, c.id).value;
              && DisplayName(c).Some? && PrimaryEmail(c).Some? && c.imageUrl.Some?
              && r[k].val == users[k].val.(name := DisplayName(c).value, email := PrimaryEmail(c).value, image := c.imageUrl.value)
              && forall j :: 0 <= j < |users| && j != k ==> r[j] == users[j]
    ensures UsersOk(users) ==> UsersOk(r)
  {
    match FindUser(users, c.id)
    case None => users
    case Some(k) =>
      var name := DisplayName(c);
      var email := PrimaryEmail(c);
      if email.None? || !EmailFree(users, email.value, Some(users[k].id)) then users
      else if name.None? || c.imageUrl.None? then users
      else
        match SaveUser(users, k, users[k].val.(name := name.value, email := email.value, image := c.imageUrl.value))
        case None => users
        case Some(t) => t
  }

  /** The whole script: the provider's users in list order. */
  function SyncUsersFromClerk(users: Table<User>, clerkUsers: seq<ClerkUser>): (r: Table<User>)
    decreases |clerkUsers|
    ensures |r| == |users|
    ensures forall i :: 0 <= i < |users| ==> r[i].id == users[i].id && r[i].val.clerkId == users[i].val.clerkId
    // a list whose users are none of them stored changes nothing
    ensures (forall j :: 0 <= j < |clerkUsers| ==> FindUser(users, clerkUsers[j].id).None?) ==> r == users
  {
    if clerkUsers == [] then users else SyncUsersFromClerk(SyncOne(users, clerkUsers[0]), clerkUsers[1..])
  }

  /** The script keeps the unique email index intact, never creates or deletes a user,
      and never touches a user's id, identity-provider id or resume. */
  lemma {:induction false} SyncPreservesUsers(users: Table<User>, clerkUsers: seq<ClerkUser>)
    decreases |clerkUsers|
    ensures var r := SyncUsersFromClerk(users, clerkUsers);
            && |r| == |users|
            && (UsersOk(users) ==> UsersOk(r))
            && forall i :: 0 <= i < |users| ==>
                 && r[i].id == users[i].id && r[i].val.clerkId == users[i].val.clerkId
                 && r[i].val.resume == users[i].val.resume
  {
    if clerkUsers != [] {
      SyncPreservesUsers(SyncOne(users, clerkUsers[0]), clerkUsers[1..]);
    }
  }

  /** A provider user with no stored counterpart changes nothing. */
  lemma UnknownUserIgnored(users: Table<User>, c: ClerkUser)
    requires forall i :: 0 <= i < |users| ==> users[i].val.clerkId != c.id
    ensures SyncOne(users, c) == users
  {
  }

  /** A valid update whose email no one else holds is written in full. */
  lemma ValidUpdateWritten(users: Table<User>, c: ClerkUser)
    requires c.id != "" && FindUser(users, c.id).Some?
    requires DisplayName(c).Some? && DisplayName(c).value != ""
    requires PrimaryEmail(c).Some? && PrimaryEmail(c).value != ""
    requires c.imageUrl.Some? && c.imageUrl.value != ""
    requires EmailFree(users, PrimaryEmail(c).value, Some(users[FindUser(users, c.id).value].id))
    ensures var k := FindUser(users, c.id).value;
            var r := SyncOne(users, c);
            && r[k].val.name == DisplayName(c).value
            && r[k].val.email == PrimaryEmail(c).value
            && r[k].val.image == c.imageUrl.value
  {
    var k := FindUser(users, c.id).value;
    var u := users[k].val.(name := DisplayName(c).value, email := PrimaryEmail(c).value, image := c.imageUrl.value);
    assert UserValid(u);
    assert SaveUser(users, k, u).Some?;
  }
}
