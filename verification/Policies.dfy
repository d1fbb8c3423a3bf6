/** The opkssh policy: editing, loading and enforcing it (opkssh/policy). */
module Policies {
  import opened Common
  import opened ByteStrings
  import opened Jose

  datatype User = User(email: Bytes, principals: seq<Bytes>)

  /** The policy lets the holder of an email act as a principal. */
  predicate Grants(users: seq<User>, email: Bytes, principal: Bytes) {
    exists i :: 0 <= i < |users| && users[i].email == email && principal in users[i].principals
  }

  // ---------------------------------------------------------------------------
  // Editing
  // ---------------------------------------------------------------------------

  function WithPrincipal(user: User, principal: Bytes, email: Bytes): User {
    if user.email == email && principal !in user.principals then user.(principals := user.principals + [principal])
    else user
  }

  function Updated(users: seq<User>, principal: Bytes, email: Bytes): (r: seq<User>)
    ensures |r| == |users|
  {
    seq(|users|, i requires 0 <= i < |users| => WithPrincipal(users[i], principal, email))
  }

  predicate HasUser(users: seq<User>, email: Bytes) {
    exists i :: 0 <= i < |users| && users[i].email == email
  }

  /** Every entry of the email gets the principal; without an entry a new one is appended. */
  function Allowed(users: seq<User>, principal: Bytes, email: Bytes): seq<User> {
    if HasUser(users, email) then Updated(users, principal, email)
    else Updated(users, principal, email) + [User(email, [principal])]
  }

  class Policy {
    var users: seq<User>

    constructor (users: seq<User>)
      ensures this.users == users
    {
      this.users := users;
    }

    method AddAllowedPrincipal(principal: Bytes, userEmail: Bytes)
      modifies this
      ensures users == Allowed(old(users), principal, userEmail)
    {
      var userExists := false;
      if |users| != 0 {
        for i := 0 to |users|
          invariant |users| == |old(users)|
          invariant forall k :: 0 <= k < i ==> users[k] == WithPrincipal(old(users)[k], principal, userEmail)
          invariant forall k :: i <= k < |users| ==> users[k] == old(users)[k]
          invariant userExists <==> exists k :: 0 <= k < i && old(users)[k].email == userEmail
        {
          var user := users[i];
          if user.email == userEmail {
            var principalExists := false;
            for j := 0 to |user.principals|
              invariant principalExists <==> principal in user.principals[..j]
            {
              assert user.principals[..j + 1] == user.principals[..j] + [user.principals[j]];
              if user.principals[j] == principal {
                principalExists := true;
              }
            }
            assert user.principals[..|user.principals|] == user.principals;
            if !principalExists {
              users := users[i := User(user.email, user.principals + [principal])];
            }
            userExists := true;
          }
        }
      }
      assert users == Updated(old(users), principal, userEmail);
      if |users| == 0 || !userExists {
        users := users + [User(userEmail, [principal])];
      }
    }
  }

  /** Adding grants exactly the old pairs and the new one. */
  lemma AllowedGrants(users: seq<User>, principal: Bytes, email: Bytes, e: Bytes, p: Bytes)
    ensures Grants(Allowed(users, principal, email), e, p) <==> Grants(users, e, p) || (e == email && p == principal)
  {
    var after := Allowed(users, principal, email);
    if i :| 0 <= i < |users| && users[i].email == e && p in users[i].principals {
      assert after[i].email == e && p in after[i].principals;
    }
    if i :| 0 <= i < |after| && after[i].email == e && p in after[i].principals {
      if i < |users| && !(e == email && p == principal) {
        assert users[i].email == e && p in users[i].principals;
      }
    }
    if e == email && p == principal {
      if i :| 0 <= i < |users| && users[i].email == email {
        assert after[i].email == e && p in after[i].principals;
      } else {
        assert after[|users|] == User(email, [principal]);
      }
    }
  }

  /** Adding twice is adding once. */
  lemma AllowedIdempotent(users: seq<User>, principal: Bytes, email: Bytes)
    ensures Allowed(Allowed(users, principal, email), principal, email) == Allowed(users, principal, email)
  {
    var after := Allowed(users, principal, email);
    assert HasUser(after, email) by {
      if i :| 0 <= i < |users| && users[i].email == email {
        assert after[i].email == email;
      } else {
        assert after[|users|].email == email;
      }
    }
    assert Updated(after, principal, email) == after;
  }

  /** Nothing changes exactly when the email has an entry and all its entries hold the principal. */
  lemma AllowedUnchanged(users: seq<User>, principal: Bytes, email: Bytes)
    ensures Allowed(users, principal, email) == users <==>
              && HasUser(users, email)
              && forall i :: 0 <= i < |users| && users[i].email == email ==> principal in users[i].principals
  {
    var after := Updated(users, principal, email);
    if i :| 0 <= i < |users| && users[i].email == email && principal !in users[i].principals {
      assert |after[i].principals| == |users[i].principals| + 1;
    } else {
      assert after == users;
    }
  }

  // ---------------------------------------------------------------------------
  // Loading
  // ---------------------------------------------------------------------------

  /** The entries of a user policy that give access to the user, cut down to that. */
  function ValidEntries(users: seq<User>, username: Bytes): seq<User> {
    if users == [] then []
    else
      var last := users[|users| - 1];
      ValidEntries(users[..|users| - 1], username)
      + if username in last.principals then [User(last.email, [username])] else []
  }

  /** What remains of a user policy grants only the user, and that exactly where the policy did. */
  lemma {:induction false} ValidEntriesGrant(users: seq<User>, username: Bytes, e: Bytes, p: Bytes)
    ensures Grants(ValidEntries(users, username), e, p) <==> p == username && Grants(users, e, username)
  {
    if users != [] {
      var init, last := users[..|users| - 1], users[|users| - 1];
      ValidEntriesGrant(init, username, e, p);
      GrantsSplit(init, last, e, username);
      assert users == init + [last];
      if username in last.principals {
        GrantsSplit(ValidEntries(init, username), User(last.email, [username]), e, p);
      } else {
        assert ValidEntries(users, username) == ValidEntries(init, username);
      }
    }
  }

  lemma GrantsSplit(users: seq<User>, user: User, e: Bytes, p: Bytes)
    ensures Grants(users + [user], e, p) <==> Grants(users, e, p) || (user.email == e && p in user.principals)
  {
    GrantsBoth(users, [user], e, p);
    assert Grants([user], e, p) <==> user.email == e && p in user.principals by {
      if user.email == e && p in user.principals {
        assert [user][0].email == e;
      }
    }
  }

  lemma GrantsBoth(users: seq<User>, more: seq<User>, e: Bytes, p: Bytes)
    ensures Grants(users + more, e, p) <==> Grants(users, e, p) || Grants(more, e, p)
  {
    var all := users + more;
    if i :| 0 <= i < |users| && users[i].email == e && p in users[i].principals {
      assert all[i].email == e && p in all[i].principals;
    }
    if i :| 0 <= i < |more| && more[i].email == e && p in more[i].principals {
      assert all[|users| + i].email == e && p in all[|users| + i].principals;
    }
    if i :| 0 <= i < |all| && all[i].email == e && p in all[i].principals {
      if i < |users| {
        assert users[i].email == e && p in users[i].principals;
      } else {
        assert more[i - |users|].email == e && p in more[i - |users|].principals;
      }
    }
  }

  /** A policy file: None if the user, the home directory or the file is missing or its permissions are wrong. */
  method LoadUserPolicy(file: Option<seq<User>>, username: Bytes, skipInvalidEntries: bool)
    returns (r: Option<seq<User>>)
    ensures r.Some? <==> file.Some?
    ensures r.Some? ==> r.value == if skipInvalidEntries then ValidEntries(file.value, username) else file.value
  {
    if file.None? {
      return None;
    }
    if skipInvalidEntries {
      var valid: seq<User> := [];
      for i := 0 to |file.value|
        invariant valid == ValidEntries(file.value[..i], username)
      {
        assert file.value[..i + 1][..i] == file.value[..i];
        var user := file.value[i];
        if username in user.principals {
          valid := valid + [User(user.email, [username])];
        }
      }
      assert file.value[..|file.value|] == file.value;
      return Some(valid);
    }
    return file;
  }

  /** Load: the system policy and what is valid of the user policy; an error if neither could be read. */
  method Load(rootFile: Option<seq<User>>, userFile: Option<seq<User>>, username: Bytes) returns (r: Option<seq<User>>)
    ensures r.Some? <==> rootFile.Some? || userFile.Some?
    ensures r.Some? ==> forall e, p :: Grants(r.value, e, p) <==>
              (rootFile.Some? && Grants(rootFile.value, e, p))
              || (userFile.Some? && p == username && Grants(userFile.value, e, username))
  {
    var users: seq<User> := [];
    var userPolicy := LoadUserPolicy(userFile, username, true);
    if rootFile.None? && userPolicy.None? {
      return None;
    }
    if rootFile.Some? {
      users := users + rootFile.value;
      assert users == rootFile.value;
    }
    ghost var root := users;
    if userPolicy.Some? {
      users := users + userPolicy.value;
    }
    forall e, p
      ensures Grants(users, e, p) <==>
              (rootFile.Some? && Grants(rootFile.value, e, p))
              || (userFile.Some? && p == username && Grants(userFile.value, e, username))
    {
      if userPolicy.Some? {
        GrantsBoth(root, userPolicy.value, e, p);
        ValidEntriesGrant(userFile.value, username, e, p);
      }
    }
    return Some(users);
  }

  // ---------------------------------------------------------------------------
  // Enforcing
  // ---------------------------------------------------------------------------

  /** The principals of a token's email, over the loaded policy. */
  method CheckLoaded(users: seq<User>, email: Bytes, principalDesired: Bytes) returns (ok: bool)
    ensures ok <==> Grants(users, email, principalDesired)
  {
    for i := 0 to |users|
      invariant forall k :: 0 <= k < i ==> !(users[k].email == email && principalDesired in users[k].principals)
    {
      if email == users[i].email {
        if principalDesired in users[i].principals {
          return true;
        }
      }
    }
    return false;
  }

  /** CheckPolicy with the loader of a user: the system policy decides for every principal, the file in the user's home
      directory only for that user. */
  method CheckPolicy(c: Codec, rootFile: Option<seq<User>>, userFile: Option<seq<User>>, username: Bytes,
                     payload: Bytes, principalDesired: Bytes) returns (ok: bool)
    ensures ok <==>
              && c.readEmail(payload).Some?
              && var email := c.readEmail(payload).value;
                 || (rootFile.Some? && Grants(rootFile.value, email, principalDesired))
                 || (userFile.Some? && principalDesired == username && Grants(userFile.value, email, username))
  {
    hide Grants;
    var policy := Load(rootFile, userFile, username);
    if policy.None? {
      return false;
    }
    var email := c.readEmail(payload);
    if email.None? {
      return false;
    }
    ok := CheckLoaded(policy.value, email.value, principalDesired);
  }
}
