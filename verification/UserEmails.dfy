/** The two searches for an email in samlidp/user.go, over the store. */
module UserEmails {
  import opened Wrappers
  import opened Store
  import opened Users

  const USERS := "/users/"

  /** How the store behaves during a search: whether the listing fails, which users cannot be read, and which are
      deleted between the listing and the reading. */
  datatype Faults = Faults(list: bool, unreadable: set<string>, deleted: set<string>)

  /** `emailOwner`: the name of another user with the email, if there is one. An error stands for a failing store. */
  method EmailOwner(c: Config, store: MemoryStore<User>, email: string, except: string, faults: Faults)
    returns (owner: Result<Option<string>, ()>)
    ensures var users := Under(store.data, USERS);
            match owner
            case Ok(Some(name)) =>
              name in users && name != except && name !in faults.deleted && c.fold(users[name].email) == c.fold(email)
            case Ok(None) =>
              && !faults.list
              && forall n :: n in users && n != except && n !in faults.deleted ==>
                   n !in faults.unreadable && c.fold(users[n].email) != c.fold(email)
            case Err(_) => faults.list || exists n :: n in users && n != except && n in faults.unreadable
    ensures faults.list ==> owner.Err?
  {
    if faults.list {
      return Err(());
    }
    var names := store.List(USERS);
    for i := 0 to |names|
      invariant forall k :: 0 <= k < i && names[k] != except && names[k] !in faults.deleted ==>
                  names[k] !in faults.unreadable && !SameEmail(c, Under(store.data, USERS)[names[k]].email, email)
    {
      UnderHas(store.data, USERS, names[i]);
      assert names[i] in names;
      if names[i] == except {
        continue;
      }
      if names[i] in faults.unreadable {
        return Err(());
      }
      if names[i] in faults.deleted {
        continue;
      }
      var other := store.Get(USERS + names[i]);
      if SameEmail(c, other.value.email, email) {
        return Ok(Some(names[i]));
      }
    }
    owner := Ok(None);
  }

  datatype UserEmail = UserEmail(name: string, email: string)

  /** The list that `checkUserEmails` builds: every non-empty email of the named users, with its owner. */
  ghost predicate Collected(users: map<string, User>, names: seq<string>, emails: seq<UserEmail>) {
    && (forall e :: e in emails ==> e.name in names && e.name in users && users[e.name].email == e.email != "")
    && (forall n :: n in names && n in users && users[n].email != "" ==> UserEmail(n, users[n].email) in emails)
  }

  ghost predicate Apart(c: Config, emails: seq<UserEmail>) {
    forall j, k :: 0 <= j < k < |emails| ==> !SameEmail(c, emails[j].email, emails[k].email)
  }

  lemma CollectNext(users: map<string, User>, names: seq<string>, i: nat, emails: seq<UserEmail>)
    requires i < |names| && names[i] in users && Collected(users, names[..i], emails)
    ensures users[names[i]].email == "" ==> Collected(users, names[..i + 1], emails)
    ensures users[names[i]].email != "" ==>
              Collected(users, names[..i + 1], emails + [UserEmail(names[i], users[names[i]].email)])
  {
    assert names[..i + 1] == names[..i] + [names[i]];
  }

  lemma ApartDistinct(c: Config, users: map<string, User>, names: seq<string>, emails: seq<UserEmail>)
    requires Collected(users, names, emails) && Apart(c, emails)
    requires forall n :: n in users ==> n in names
    ensures DistinctEmails(c, users)
  {
    forall a, b | a in users && b in users && a != b && users[a].email != "" && users[b].email != ""
      ensures !SameEmail(c, users[a].email, users[b].email)
    {
      assert UserEmail(a, users[a].email) in emails && UserEmail(b, users[b].email) in emails;
      var j: nat :| j < |emails| && emails[j] == UserEmail(a, users[a].email);
      var k: nat :| k < |emails| && emails[k] == UserEmail(b, users[b].email);
    }
  }

  /** `checkUserEmails`: it accepts exactly the stores which can be listed and read and in which no two users have
      the same email. */
  method CheckUserEmails(c: Config, store: MemoryStore<User>, listFails: bool, unreadable: set<string>) returns (ok: bool)
    ensures ok <==>
              !listFails && DistinctEmails(c, Under(store.data, USERS)) && Under(store.data, USERS).Keys !! unreadable
  {
    hide SameEmail, Under;
    if listFails {
      return false;
    }
    ghost var users := Under(store.data, USERS);
    var names := store.List(USERS);
    assert forall n :: n in users <==> n in names;
    var emails: seq<UserEmail> := [];
    for i := 0 to |names|
      invariant forall k :: 0 <= k < i ==> names[k] !in unreadable
      invariant Collected(users, names[..i], emails) && Apart(c, emails)
    {
      assert names[i] in names;
      UnderHas(store.data, USERS, names[i]);
      if names[i] in unreadable {
        return false;
      }
      var user := store.Get(USERS + names[i]);
      CollectNext(users, names, i, emails);
      if user.value.email == "" {
        continue;
      }
      for j := 0 to |emails|
        invariant forall k :: 0 <= k < j ==> !SameEmail(c, emails[k].email, user.value.email)
      {
        if SameEmail(c, emails[j].email, user.value.email) {
          Clash(c, users, names, i, emails, j);
          return false;
        }
      }
      emails := emails + [UserEmail(names[i], user.value.email)];
    }
    ok := true;
    assert names[..] == names;
    ApartDistinct(c, users, names, emails);
  }

  lemma Clash(c: Config, users: map<string, User>, names: seq<string>, i: nat, emails: seq<UserEmail>, j: nat)
    requires i < |names| && j < |emails| && names[i] in users && users[names[i]].email != ""
    requires forall k :: 0 <= k < i ==> names[k] != names[i]
    requires Collected(users, names[..i], emails)
    requires SameEmail(c, emails[j].email, users[names[i]].email)
    ensures !DistinctEmails(c, users)
  {
    var e := emails[j];
    assert e in emails && e.name in names[..i];
    assert users[e.name].email == e.email && e.name != names[i];
  }
}
