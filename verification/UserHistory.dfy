/** Where sessions and users come from, over any run of the state machine in Users: which requests there must have
    been for them. */
module UserHistory {
  import opened Wrappers
  import opened Users

  // ---------------------------------------------------------------- requests

  ghost predicate Asked(steps: seq<Step>, request: Request) {
    exists p: nat :: Begin(p, request) in steps
  }

  lemma AskedLater(steps: seq<Step>, step: Step, request: Request)
    ensures Asked(steps, request) ==> Asked(steps + [step], request)
    ensures step.Begin? && step.request == request ==> Asked(steps + [step], request)
  {
    if Asked(steps, request) {
      var p: nat :| Begin(p, request) in steps;
      assert Begin(p, request) in steps + [step];
    }
    if step.Begin? && step.request == request {
      assert Begin(step.p, request) in steps + [step];
    }
  }

  // ---------------------------------------------------------------- logins

  /** There was a login for the name, with a password that the hash of this version of the user verifies. */
  ghost predicate Granted(c: Config, s: State, steps: seq<Step>, stored: StoredSession) {
    var key := (stored.session.userName, stored.userRevision);
    key in s.versions && exists password ::
      Asked(steps, Login(stored.session.userName, password)) && c.verify(s.versions[key].hashedPassword, password)
  }

  ghost predicate FromStart(start: State, stored: StoredSession) {
    exists id :: id in start.sessions && start.sessions[id] == stored
  }

  /** The session was looked up at a time that was not after its end. */
  ghost predicate LookedUp(steps: seq<Step>, stored: StoredSession) {
    exists p: nat, now :: GetCookieSession(p, now, false) in steps && now <= stored.session.expireTime
  }

  ghost predicate Genuine(c: Config, start: State, s: State, steps: seq<Step>, stored: StoredSession) {
    FromStart(start, stored) || Granted(c, s, steps, stored)
  }

  ghost predicate LoginTrue(c: Config, start: State, s: State, steps: seq<Step>, r: Request) {
    match r
    case Login(name, password) => Asked(steps, Login(name, password))
    case LoginRead(user, password) => IsVersion(s, user) && Asked(steps, Login(user.name, password))
    case ExistingRead(stored, _) => Genuine(c, start, s, steps, stored) && LookedUp(steps, stored)
    case _ => true
  }

  ghost predicate LoginsTrue(c: Config, start: State, s: State, steps: seq<Step>) {
    && (forall p :: p in s.requests ==> LoginTrue(c, start, s, steps, s.requests[p]))
    && (forall id :: id in s.sessions ==> Genuine(c, start, s, steps, s.sessions[id]))
    && (forall r :: r in s.returned && r !in start.returned ==> Genuine(c, start, s, steps, r.stored) && LookedUp(steps, r.stored))
  }

  lemma GenuineLater(c: Config, start: State, s: State, t: State, steps: seq<Step>, step: Step, stored: StoredSession)
    requires Extends(s, t)
    ensures Genuine(c, start, s, steps, stored) ==> Genuine(c, start, t, steps + [step], stored)
    ensures LookedUp(steps, stored) ==> LookedUp(steps + [step], stored)
  {
    hide Asked;
    if Granted(c, s, steps, stored) {
      var key := (stored.session.userName, stored.userRevision);
      var password :| Asked(steps, Login(stored.session.userName, password)) && c.verify(s.versions[key].hashedPassword, password);
      AskedLater(steps, step, Login(stored.session.userName, password));
    }
    if LookedUp(steps, stored) {
      var p: nat, now :| GetCookieSession(p, now, false) in steps && now <= stored.session.expireTime;
      assert GetCookieSession(p, now, false) in steps + [step];
    }
  }

  lemma LoginTrueLater(c: Config, start: State, s: State, t: State, steps: seq<Step>, step: Step, r: Request)
    requires Extends(s, t) && LoginTrue(c, start, s, steps, r)
    ensures LoginTrue(c, start, t, steps + [step], r)
  {
    hide Asked, Genuine, LookedUp;
    match r
    case Login(name, password) => AskedLater(steps, step, Login(name, password));
    case LoginRead(user, password) => AskedLater(steps, step, Login(user.name, password));
    case ExistingRead(stored, _) => GenuineLater(c, start, s, t, steps, step, stored);
    case _ =>
  }

  /** The request of the step itself. */
  lemma OwnLoginTrue(c: Config, start: State, s: State, steps: seq<Step>, step: Step)
    requires UsersOk(s) && LoginsTrue(c, start, s, steps) && Next(c, s, step).Some? && Owner(step).Some?
    ensures var t := Next(c, s, step).value;
            step.p in t.requests ==> LoginTrue(c, start, t, steps + [step], t.requests[step.p])
  {
    hide Asked, Genuine, LookedUp, Local, SameUsers, SameSessions, Plain, FewerUsers, FewerSessions;
    StepFrame(c, s, step);
    var t := Next(c, s, step).value;
    if step.p in t.requests && (t.requests[step.p].Login? || t.requests[step.p].LoginRead? || t.requests[step.p].ExistingRead?) {
      if step.Begin? {
        AskedLater(steps, step, step.request);
      } else if step.GetLoginUser? {
        assert LoginTrue(c, start, s, steps, s.requests[step.p]);
        AskedLater(steps, step, s.requests[step.p]);
      } else if step.GetCookieSession? {
        CookieTrue(c, start, s, steps, step.p, step.now, step.fails);
      } else {
        OthersEnd(c, s, step);
        assert false;
      }
    }
  }

  /** No other step leaves a request in one of these states. */
  lemma OthersEnd(c: Config, s: State, step: Step)
    requires Next(c, s, step).Some? && Owner(step).Some?
    requires !step.Begin? && !step.GetLoginUser? && !step.GetCookieSession?
    ensures var t := Next(c, s, step).value;
            step.p in t.requests ==>
              var r := t.requests[step.p];
              !r.Login? && !r.LoginRead? && !r.ExistingRead?
  {
    hide Local, SameUsers, SameSessions, Plain, FewerUsers, FewerSessions, Extends;
  }

  lemma CookieTrue(c: Config, start: State, s: State, steps: seq<Step>, p: nat, now: int, fails: bool)
    requires LoginsTrue(c, start, s, steps) && NextGetCookieSession(s, p, now, fails).Some?
    ensures var t, step := NextGetCookieSession(s, p, now, fails).value, GetCookieSession(p, now, fails);
            p in t.requests ==> LoginTrue(c, start, t, steps + [step], t.requests[p])
  {
    hide Genuine;
    var t, step := NextGetCookieSession(s, p, now, fails).value, GetCookieSession(p, now, fails);
    if p in t.requests {
      var cookie := s.requests[p].cookie;
      var stored := s.sessions[cookie];
      assert Genuine(c, start, s, steps, stored);
      GenuineLater(c, start, s, t, steps, step, stored);
      assert step in steps + [step];
      assert LookedUp(steps + [step], stored);
    }
  }

  lemma StepSessionsTrue(c: Config, start: State, s: State, steps: seq<Step>, step: Step, id: string)
    requires LoginsTrue(c, start, s, steps) && Next(c, s, step).Some? && id in Next(c, s, step).value.sessions
    ensures Genuine(c, start, Next(c, s, step).value, steps + [step], Next(c, s, step).value.sessions[id])
  {
    hide Asked, LookedUp;
    StepFrame(c, s, step);
    var t := Next(c, s, step).value;
    if id in s.sessions && t.sessions[id] == s.sessions[id] {
      GenuineLater(c, start, s, t, steps, step, s.sessions[id]);
    } else {
      assert step.PutSession?;
      PutSessionAdds(c, s, step.p, step.id, step.index, step.expireTime, step.fails);
      var LoginRead(user, password) := s.requests[step.p];
      assert LoginTrue(c, start, s, steps, s.requests[step.p]);
      AskedLater(steps, step, Login(user.name, password));
      assert Granted(c, t, steps + [step], t.sessions[id]);
    }
  }

  /** A step that stores a session does so exactly when the password verifies against the record that was read, and the
      store does not fail. The session says what that record says, and nothing else changes. */
  lemma PutSessionAdds(c: Config, s: State, p: nat, id: string, index: string, expireTime: int, fails: bool)
    requires NextPutSession(c, s, p, id, index, expireTime, fails).Some?
    ensures p in s.requests && s.requests[p].LoginRead? && id !in s.sessions
    ensures var t, user := NextPutSession(c, s, p, id, index, expireTime, fails).value, s.requests[p].user;
            && (id in t.sessions <==> c.verify(user.hashedPassword, s.requests[p].password) && !fails)
            && (id in t.sessions ==>
                  var session := t.sessions[id].session;
                  && session.id == id && session.index == index && session.expireTime == expireTime
                  && session.nameID == user.email && session.userEmail == user.email && session.userName == user.name
                  && session.groups == user.groups && session.userDetails == user.details
                  && t.sessions[id].userRevision == user.revision)
            && t.sessions - {id} == s.sessions && p !in t.requests
  {
  }

  lemma StepReturnedTrue(c: Config, start: State, s: State, steps: seq<Step>, step: Step, r: Returned)
    requires LoginsTrue(c, start, s, steps) && Next(c, s, step).Some?
    requires r in Next(c, s, step).value.returned && r !in start.returned
    ensures Genuine(c, start, Next(c, s, step).value, steps + [step], r.stored) && LookedUp(steps + [step], r.stored)
  {
    hide Asked, LookedUp, Genuine;
    StepFrame(c, s, step);
    var t := Next(c, s, step).value;
    if r !in s.returned {
      assert step.GetSessionUser?;
      assert LoginTrue(c, start, s, steps, s.requests[step.p]);
      NewReturned(s, step.p, step.fails, r);
    }
    GenuineLater(c, start, s, t, steps, step, r.stored);
  }

  lemma NewReturned(s: State, p: nat, fails: bool, r: Returned)
    requires NextGetSessionUser(s, p, fails).Some? && r in NextGetSessionUser(s, p, fails).value.returned && r !in s.returned
    ensures s.requests[p].ExistingRead? && r.stored == s.requests[p].stored
  {
  }

  lemma StepLoginsTrue(c: Config, start: State, s: State, steps: seq<Step>, step: Step)
    requires UsersOk(s) && LoginsTrue(c, start, s, steps) && Next(c, s, step).Some?
    ensures LoginsTrue(c, start, Next(c, s, step).value, steps + [step])
  {
    StepFrame(c, s, step);
    var t := Next(c, s, step).value;
    if Owner(step).Some? { OwnLoginTrue(c, start, s, steps, step); }
    forall p | p in t.requests ensures LoginTrue(c, start, t, steps + [step], t.requests[p]) {
      if Owner(step) != Some(p) {
        hide Next, Asked, Genuine, LookedUp;
        assert LoginTrue(c, start, s, steps, s.requests[p]);
        LoginTrueLater(c, start, s, t, steps, step, s.requests[p]);
      }
    }
    forall id | id in t.sessions ensures Genuine(c, start, t, steps + [step], t.sessions[id]) {
      StepSessionsTrue(c, start, s, steps, step, id);
    }
    forall r | r in t.returned && r !in start.returned
      ensures Genuine(c, start, t, steps + [step], r.stored) && LookedUp(steps + [step], r.stored)
    {
      StepReturnedTrue(c, start, s, steps, step, r);
    }
  }

  lemma {:induction false} RunLoginsTrue(c: Config, start: State, s: State, before: seq<Step>, steps: seq<Step>)
    requires UsersOk(s) && LoginsTrue(c, start, s, before) && Run(c, s, steps).Some?
    ensures LoginsTrue(c, start, Run(c, s, steps).value, before + steps)
    decreases |steps|
  {
    hide LoginsTrue, Next, UsersOk;
    if steps == [] {
      assert before + [] == before;
    } else {
      StepLoginsTrue(c, start, s, before, steps[0]);
      StepUsersOk(c, s, steps[0]);
      RunLoginsTrue(c, start, Next(c, s, steps[0]).value, before + [steps[0]], steps[1..]);
      assert before + [steps[0]] + steps[1..] == before + steps;
    }
  }

  /** Over every run: a session that was not stored at the start was stored for a login of this run, with a password that
      the hash in the version of the user that it was made from verifies. */
  lemma SessionsNeedPasswords(c: Config, s: State, steps: seq<Step>, id: string)
    requires Init(s) && Run(c, s, steps).Some? && id in Run(c, s, steps).value.sessions
    requires forall other :: other in s.sessions ==> s.sessions[other] != Run(c, s, steps).value.sessions[id]
    ensures var t := Run(c, s, steps).value;
            var stored := t.sessions[id];
            var key := (stored.session.userName, stored.userRevision);
            && key in t.versions
            && exists p: nat, password ::
                 Begin(p, Login(stored.session.userName, password)) in steps
                 && c.verify(t.versions[key].hashedPassword, password)
  {
    hide Run, Init;
    StartsTrue(c, s);
    RunLoginsTrue(c, s, s, [], steps);
    assert [] + steps == steps;
    GrantedMeans(c, Run(c, s, steps).value, steps, Run(c, s, steps).value.sessions[id]);
  }

  lemma StartsTrue(c: Config, s: State)
    requires Init(s)
    ensures UsersOk(s) && LoginsTrue(c, s, s, [])
  {
    forall id | id in s.sessions ensures Genuine(c, s, s, [], s.sessions[id]) {
      assert FromStart(s, s.sessions[id]);
    }
  }

  lemma GrantedMeans(c: Config, t: State, steps: seq<Step>, stored: StoredSession)
    requires Granted(c, t, steps, stored)
    ensures var key := (stored.session.userName, stored.userRevision);
            && key in t.versions
            && exists p: nat, password ::
                 Begin(p, Login(stored.session.userName, password)) in steps
                 && c.verify(t.versions[key].hashedPassword, password)
  {
    var name := stored.session.userName;
    var key := (name, stored.userRevision);
    var password :| Asked(steps, Login(name, password)) && c.verify(t.versions[key].hashedPassword, password);
    var p: nat :| Begin(p, Login(name, password)) in steps;
  }

  /** Over every run: a session that is returned was looked up no later than its end, and was stored at the start or for
      a login as above. */
  lemma ReturnedInTime(c: Config, s: State, steps: seq<Step>, r: Returned)
    requires Init(s) && Run(c, s, steps).Some? && r in Run(c, s, steps).value.returned
    ensures exists p: nat, now :: GetCookieSession(p, now, false) in steps && now <= r.stored.session.expireTime
    ensures || (exists id :: id in s.sessions && s.sessions[id] == r.stored)
            || exists p: nat, password ::
                 && Begin(p, Login(r.user.name, password)) in steps
                 && c.verify(r.user.hashedPassword, password)
  {
    hide Run;
    StartsTrue(c, s);
    RunLoginsTrue(c, s, s, [], steps);
    assert [] + steps == steps;
    var t := Run(c, s, steps).value;
    RunCoherent(c, s, steps);
    assert IsVersion(t, r.user) && MadeFrom(r.stored, r.user);
    if !FromStart(s, r.stored) {
      GrantedMeans(c, t, steps, r.stored);
    }
  }

  // ---------------------------------------------------------------- users

  /** There was a request to store this user, and the password is the one that it gave, hashed, or, if it gave none, one
      that a version of the user had before, or the hash that came with the request. */
  ghost predicate Put(c: Config, s: State, steps: seq<Step>, user: User) {
    exists asked, plaintext ::
      && Asked(steps, PutUser(asked, plaintext)) && SameButSecrets(user, asked)
      && PasswordFrom(c, s, asked, plaintext, user.hashedPassword)
  }

  predicate SameButSecrets(user: User, asked: User) {
    user.name == asked.name && user.groups == asked.groups && user.email == asked.email && user.details == asked.details
  }

  ghost predicate PasswordFrom(c: Config, s: State, asked: User, plaintext: Option<string>, hash: string) {
    if plaintext.Some? then hash == c.hash(plaintext.value)
    else hash == asked.hashedPassword || exists revision ::
           (asked.name, revision) in s.versions && s.versions[(asked.name, revision)].hashedPassword == hash
  }

  ghost predicate PutTrue(c: Config, s: State, steps: seq<Step>, r: Request) {
    match r
    case PutUser(user, plaintext) => Asked(steps, PutUser(user, plaintext))
    case PutLocked(user, plaintext) => Asked(steps, PutUser(user, plaintext))
    case PutScanning(user, plaintext, _) => Asked(steps, PutUser(user, plaintext))
    case PutChecked(user, plaintext) => Asked(steps, PutUser(user, plaintext))
    case PutHashed(user) => Put(c, s, steps, user)
    case _ => true
  }

  ghost predicate PutsTrue(c: Config, start: State, s: State, steps: seq<Step>) {
    && (forall p :: p in s.requests ==> PutTrue(c, s, steps, s.requests[p]))
    && (forall key :: key in s.versions && key !in start.versions ==> Put(c, s, steps, s.versions[key]))
  }

  lemma PutLater(c: Config, s: State, t: State, steps: seq<Step>, step: Step, user: User)
    requires Extends(s, t) && Put(c, s, steps, user)
    ensures Put(c, t, steps + [step], user)
  {
    hide Asked;
    var asked, plaintext :| Asked(steps, PutUser(asked, plaintext)) && SameButSecrets(user, asked)
                         && PasswordFrom(c, s, asked, plaintext, user.hashedPassword);
    AskedLater(steps, step, PutUser(asked, plaintext));
    if plaintext.None? && user.hashedPassword != asked.hashedPassword {
      var revision :| (asked.name, revision) in s.versions && s.versions[(asked.name, revision)].hashedPassword == user.hashedPassword;
      assert (asked.name, revision) in t.versions;
    }
  }

  lemma PutTrueLater(c: Config, s: State, t: State, steps: seq<Step>, step: Step, r: Request)
    requires Extends(s, t) && PutTrue(c, s, steps, r)
    ensures PutTrue(c, t, steps + [step], r)
  {
    hide Asked, Put;
    match r
    case PutUser(user, plaintext) => AskedLater(steps, step, PutUser(user, plaintext));
    case PutLocked(user, plaintext) => AskedLater(steps, step, PutUser(user, plaintext));
    case PutScanning(user, plaintext, _) => AskedLater(steps, step, PutUser(user, plaintext));
    case PutChecked(user, plaintext) => AskedLater(steps, step, PutUser(user, plaintext));
    case PutHashed(user) => PutLater(c, s, t, steps, step, user);
    case _ =>
  }

  lemma OwnPutTrue(c: Config, s: State, steps: seq<Step>, step: Step)
    requires UsersOk(s) && Next(c, s, step).Some? && Owner(step).Some?
    requires step.p in s.requests ==> PutTrue(c, s, steps, s.requests[step.p])
    ensures var t := Next(c, s, step).value;
            step.p in t.requests ==> PutTrue(c, t, steps + [step], t.requests[step.p])
  {
    hide Asked, Put;
    var t := Next(c, s, step).value;
    if step.p in t.requests && IsPut(t.requests[step.p]) {
      if step.Begin? {
        AskedLater(steps, step, step.request);
      } else if step.SetPassword? {
        SetPasswordTrue(c, s, steps, step.p, step.fails);
      } else {
        SamePut(c, s, step);
        var r := s.requests[step.p];
        AskedLater(steps, step, PutUser(r.user, r.plaintext));
      }
    }
  }

  predicate IsPut(r: Request) {
    r.PutUser? || r.PutLocked? || r.PutScanning? || r.PutChecked? || r.PutHashed?
  }

  lemma SamePut(c: Config, s: State, step: Step)
    requires Next(c, s, step).Some? && Owner(step).Some? && !step.Begin? && !step.SetPassword?
    requires var t := Next(c, s, step).value; step.p in t.requests && IsPut(t.requests[step.p])
    ensures step.p in s.requests && IsPut(s.requests[step.p]) && !s.requests[step.p].PutHashed?
    ensures var q, r := Next(c, s, step).value.requests[step.p], s.requests[step.p];
            !q.PutHashed? && q.user == r.user && q.plaintext == r.plaintext
  {
    hide Local, SameUsers, SameSessions, Plain, FewerUsers, FewerSessions, Extends;
  }

  lemma SetPasswordTrue(c: Config, s: State, steps: seq<Step>, p: nat, fails: bool)
    requires UsersOk(s) && NextSetPassword(c, s, p, fails).Some? && PutTrue(c, s, steps, s.requests[p])
    ensures var t, step := NextSetPassword(c, s, p, fails).value, SetPassword(p, fails);
            p in t.requests ==> PutTrue(c, t, steps + [step], t.requests[p])
  {
    hide Asked;
    var t, step := NextSetPassword(c, s, p, fails).value, SetPassword(p, fails);
    if p in t.requests {
      var PutChecked(asked, plaintext) := s.requests[p];
      AskedLater(steps, step, PutUser(asked, plaintext));
      var user := t.requests[p].user;
      if plaintext.None? && asked.name in s.users {
        var current := s.users[asked.name];
        assert IsVersion(s, current);
        assert (asked.name, current.revision) in t.versions;
      }
      assert PasswordFrom(c, t, asked, plaintext, user.hashedPassword);
    }
  }

  lemma StepPutsTrue(c: Config, start: State, s: State, steps: seq<Step>, step: Step)
    requires UsersOk(s) && PutsTrue(c, start, s, steps) && Next(c, s, step).Some?
    ensures PutsTrue(c, start, Next(c, s, step).value, steps + [step])
  {
    hide Put, PutTrue;
    StepFrame(c, s, step);
    var t := Next(c, s, step).value;
    if Owner(step).Some? { OwnPutTrue(c, s, steps, step); }
    forall p | p in t.requests ensures PutTrue(c, t, steps + [step], t.requests[p]) {
      if Owner(step) != Some(p) {
        hide Next;
        assert PutTrue(c, s, steps, s.requests[p]);
        PutTrueLater(c, s, t, steps, step, s.requests[p]);
      }
    }
    forall key | key in t.versions && key !in start.versions ensures Put(c, t, steps + [step], t.versions[key]) {
      if key in s.versions {
        PutLater(c, s, t, steps, step, s.versions[key]);
      } else {
        NewVersion(c, s, steps, step, key);
      }
    }
  }

  lemma NewVersion(c: Config, s: State, steps: seq<Step>, step: Step, key: (string, string))
    requires Next(c, s, step).Some? && key in Next(c, s, step).value.versions && key !in s.versions
    requires forall p :: p in s.requests ==> PutTrue(c, s, steps, s.requests[p])
    ensures Put(c, Next(c, s, step).value, steps + [step], Next(c, s, step).value.versions[key])
  {
    hide Put;
    StepFrame(c, s, step);
    var t := Next(c, s, step).value;
    assert step.StoreUser?;
    assert PutTrue(c, s, steps, s.requests[step.p]);
    var user := s.requests[step.p].user;
    PutLater(c, s, t, steps, step, user);
    SamePutButRevision(c, t, steps + [step], user, step.revision);
  }

  lemma SamePutButRevision(c: Config, s: State, steps: seq<Step>, user: User, revision: string)
    requires Put(c, s, steps, user)
    ensures Put(c, s, steps, user.(revision := revision))
  {
    hide Asked;
    var asked, plaintext :| Asked(steps, PutUser(asked, plaintext)) && SameButSecrets(user, asked)
                         && PasswordFrom(c, s, asked, plaintext, user.hashedPassword);
    assert SameButSecrets(user.(revision := revision), asked);
  }

  lemma {:induction false} RunPutsTrue(c: Config, start: State, s: State, before: seq<Step>, steps: seq<Step>)
    requires UsersOk(s) && PutsTrue(c, start, s, before) && Run(c, s, steps).Some?
    ensures PutsTrue(c, start, Run(c, s, steps).value, before + steps)
    decreases |steps|
  {
    hide PutsTrue, Next, UsersOk;
    if steps == [] {
      assert before + [] == before;
    } else {
      StepPutsTrue(c, start, s, before, steps[0]);
      StepUsersOk(c, s, steps[0]);
      RunPutsTrue(c, start, Next(c, s, steps[0]).value, before + [steps[0]], steps[1..]);
      assert before + [steps[0]] + steps[1..] == before + steps;
    }
  }

  /** Over every run: a new version of a user was stored for a request of this run, with what that request says. Its hash
      is of the password that the request gives, or else was in use before, or came with the request. */
  lemma VersionsWereAsked(c: Config, s: State, steps: seq<Step>, key: (string, string))
    requires Init(s) && Run(c, s, steps).Some? && key in Run(c, s, steps).value.versions && key !in s.versions
    ensures var t := Run(c, s, steps).value;
            var user := t.versions[key];
            exists p: nat, asked, plaintext ::
              && Begin(p, PutUser(asked, plaintext)) in steps
              && user.name == asked.name && user.groups == asked.groups && user.email == asked.email
              && user.details == asked.details
              && (if plaintext.Some? then user.hashedPassword == c.hash(plaintext.value)
                  else || user.hashedPassword == asked.hashedPassword
                       || exists revision :: (asked.name, revision) in t.versions
                                          && t.versions[(asked.name, revision)].hashedPassword == user.hashedPassword)
  {
    hide Run;
    assert PutsTrue(c, s, s, []);
    RunPutsTrue(c, s, s, [], steps);
    assert [] + steps == steps;
    var t := Run(c, s, steps).value;
    var user := t.versions[key];
    assert Put(c, t, steps, user);
    var asked, plaintext :| Asked(steps, PutUser(asked, plaintext)) && SameButSecrets(user, asked)
                         && PasswordFrom(c, t, asked, plaintext, user.hashedPassword);
    var p: nat :| Begin(p, PutUser(asked, plaintext)) in steps;
  }

  // ---------------------------------------------------------------- ending sessions

  /** What a step does to the sessions: only four kinds of step touch them. */
  lemma SessionsAfter(c: Config, s: State, step: Step)
    requires Next(c, s, step).Some?
    ensures var t := Next(c, s, step).value;
            match step
            case PutSession(p, id, index, expireTime, fails) =>
              && id !in s.sessions && (id in t.sessions ==> t.sessions[id].session.id == id)
              && (forall k :: k in s.sessions ==> k in t.sessions && t.sessions[k] == s.sessions[k])
              && (forall k :: k in t.sessions && k != id ==> k in s.sessions)
            case DeleteOneSession(p, fails) =>
              && p in s.requests && s.requests[p].EndingOne?
              && t.sessions == if fails then s.sessions else s.sessions - {s.requests[p].id}
            case DeleteTerminated(p, fails) =>
              && p in s.requests && s.requests[p].Terminating?
              && t.sessions == if fails then s.sessions else s.sessions - {s.requests[p].id}
            case HandleDeleteSession(id) => t.sessions == s.sessions - {id}
            case _ => t.sessions == s.sessions
  {
    hide Local, SameUsers, Plain, FewerUsers, FewerSessions, Extends;
  }

  /** How far the request `p` has come with ending the sessions of the user, of those that there were before. */
  ghost predicate Sweeping(s: State, p: nat, name: string, before: map<string, StoredSession>) {
    && (forall id :: id in s.sessions && id in before ==> s.sessions[id] == before[id])
    && if p !in s.requests then Swept(s, name, before, {})
       else
         match s.requests[p]
         case Ending(n, _) => n == name
         case EndingEach(n, _, ids) => n == name && Swept(s, name, before, ids)
         case EndingOne(n, _, ids, _) => n == name && Swept(s, name, before, ids)
         case _ => false
  }

  /** None is left of the sessions of the user, but perhaps some of `ids`. */
  ghost predicate Swept(s: State, name: string, before: map<string, StoredSession>, ids: set<string>) {
    forall id :: id in before && before[id].session.userName == name ==> id in ids || id !in s.sessions
  }

  /** No call of the store fails for `p`, and the identifiers of new sessions are new. */
  predicate Smooth(step: Step, p: nat, before: map<string, StoredSession>) {
    match step
    case Begin(q, _) => q != p
    case PutSession(_, id, _, _, _) => id !in before
    case ListSessions(q, fails) => q == p ==> !fails
    case GetOneSession(q, _, fails) => q == p ==> !fails
    case DeleteOneSession(q, fails) => q == p ==> !fails
    case _ => true
  }

  lemma StepSweeping(c: Config, s: State, step: Step, p: nat, name: string, before: map<string, StoredSession>)
    requires Sweeping(s, p, name, before) && Next(c, s, step).Some? && Smooth(step, p, before)
    ensures Sweeping(Next(c, s, step).value, p, name, before)
  {
    hide Next, Extends, FewerUsers, Plain, Swept;
    StepFrame(c, s, step);
    if Owner(step) == Some(p) {
      OwnSweeping(c, s, step, p, name, before);
    } else {
      SessionsAfter(c, s, step);
      StillSweeping(s, Next(c, s, step).value, p, name, before);
    }
  }

  lemma StillSweeping(s: State, t: State, p: nat, name: string, before: map<string, StoredSession>)
    requires Sweeping(s, p, name, before) && (p in t.requests <==> p in s.requests)
    requires p in s.requests ==> t.requests[p] == s.requests[p]
    requires forall id :: id in before && id in t.sessions ==> id in s.sessions && t.sessions[id] == s.sessions[id]
    ensures Sweeping(t, p, name, before)
  {
  }

  lemma OwnSweeping(c: Config, s: State, step: Step, p: nat, name: string, before: map<string, StoredSession>)
    requires Sweeping(s, p, name, before) && Next(c, s, step).Some? && Smooth(step, p, before) && Owner(step) == Some(p)
    ensures Sweeping(Next(c, s, step).value, p, name, before)
  {
    hide Local, SameUsers, SameSessions, Plain, FewerUsers, FewerSessions, Extends;
    assert p in s.requests by { OwnerIsThere(c, s, step); }
    if step.ListSessions? {
    } else if step.GetOneSession? {
    } else if step.DeleteOneSession? {
    } else if step.EndEnding? {
    } else {
      OnlyEnding(c, s, step);
      assert false;
    }
  }

  lemma OwnerIsThere(c: Config, s: State, step: Step)
    requires Next(c, s, step).Some? && Owner(step).Some? && !step.Begin?
    ensures step.p in s.requests
  {
    hide Local, SameUsers, SameSessions, Plain, FewerUsers, FewerSessions, Extends;
  }

  lemma OnlyEnding(c: Config, s: State, step: Step)
    requires Next(c, s, step).Some? && Owner(step).Some? && !step.Begin?
    requires !step.ListSessions? && !step.GetOneSession? && !step.DeleteOneSession? && !step.EndEnding?
    ensures step.p in s.requests
    ensures !s.requests[step.p].Ending? && !s.requests[step.p].EndingEach? && !s.requests[step.p].EndingOne?
  {
    hide Local, SameUsers, SameSessions, Plain, FewerUsers, FewerSessions, Extends;
  }

  lemma {:induction false} RunSweeping(
      c: Config, s: State, steps: seq<Step>, p: nat, name: string, before: map<string, StoredSession>)
    requires Sweeping(s, p, name, before) && Run(c, s, steps).Some? && forall step :: step in steps ==> Smooth(step, p, before)
    ensures Sweeping(Run(c, s, steps).value, p, name, before)
    decreases |steps|
  {
    hide Sweeping, Next, Smooth;
    if steps != [] {
      assert steps[0] in steps;
      StepSweeping(c, s, steps[0], p, name, before);
      RunSweeping(c, Next(c, s, steps[0]).value, steps[1..], p, name, before);
    }
  }

  /** When ending the sessions of a user has come to its end, and the store did not fail it, none is left of those that
      there were when it began, whatever else went on. */
  lemma EndingEndsAll(c: Config, s: State, steps: seq<Step>, p: nat)
    requires p in s.requests && s.requests[p].Ending? && Run(c, s, steps).Some?
    requires p !in Run(c, s, steps).value.requests && forall step :: step in steps ==> Smooth(step, p, s.sessions)
    ensures forall id :: id in s.sessions && s.sessions[id].session.userName == s.requests[p].name ==>
              id !in Run(c, s, steps).value.sessions
  {
    hide Run;
    RunSweeping(c, s, steps, p, s.requests[p].name, s.sessions);
  }

  /** Storing or deleting a user goes on with ending the sessions, and when that has come to its end, none is left that the
      user had before. */
  lemma ChangeEndsAll(c: Config, s: State, step: Step, steps: seq<Step>)
    requires (step.StoreUser? || step.RemoveUser?) && !step.fails && Next(c, s, step).Some?
    requires Run(c, Next(c, s, step).value, steps).Some? && step.p !in Run(c, Next(c, s, step).value, steps).value.requests
    requires forall later :: later in steps ==> Smooth(later, step.p, s.sessions)
    ensures var name := if step.StoreUser? then s.requests[step.p].user.name else s.requests[step.p].name;
            forall id :: id in s.sessions && s.sessions[id].session.userName == name ==>
              id !in Run(c, Next(c, s, step).value, steps).value.sessions
  {
    hide Run, Smooth, Local, SameUsers, SameSessions, Plain, FewerUsers, FewerSessions, Extends;
    EndingEndsAll(c, Next(c, s, step).value, steps, step.p);
  }

  // ---------------------------------------------------------------- sessions that stay

  /** The request does not go about ending the session `id` of the user. */
  predicate Harmless(r: Request, id: string, name: string) {
    match r
    case PutUser(user, _) => user.name != name
    case PutLocked(user, _) => user.name != name
    case PutScanning(user, _, _) => user.name != name
    case PutChecked(user, _) => user.name != name
    case PutHashed(user) => user.name != name
    case DeleteUser(n) => n != name
    case Ending(n, _) => n != name
    case EndingEach(n, _, _) => n != name
    case EndingOne(n, _, _, i) => n != name && i != id
    case Existing(cookie, logout) => logout.Some? ==> cookie != id
    case ExistingRead(stored, logout) => logout.Some? ==> stored.session.id != id
    case Terminating(i) => i != id
    case _ => true
  }

  ghost predicate Staying(s: State, id: string, stored: StoredSession) {
    && id in s.sessions && s.sessions[id] == stored
    && (forall k :: k in s.sessions ==> s.sessions[k].session.id == k)
    && forall p :: p in s.requests ==> Harmless(s.requests[p], id, stored.session.userName)
  }

  /** Nobody changes or deletes the user, logs out with the session, or deletes it. */
  predicate Leaves(step: Step, id: string, name: string) {
    match step
    case Begin(_, request) => Harmless(request, id, name)
    case HandleDeleteSession(i) => i != id
    case _ => true
  }

  lemma StepStaying(c: Config, s: State, step: Step, id: string, stored: StoredSession)
    requires Staying(s, id, stored) && Next(c, s, step).Some? && Leaves(step, id, stored.session.userName)
    ensures Staying(Next(c, s, step).value, id, stored)
  {
    hide Next, Harmless, Leaves, Extends, FewerUsers, Plain;
    StepFrame(c, s, step);
    StaysStored(c, s, step, id, stored);
    if Owner(step).Some? { OwnHarmless(c, s, step, id, stored); }
    var t := Next(c, s, step).value;
    forall p | p in t.requests ensures Harmless(t.requests[p], id, stored.session.userName) {
      if Owner(step) != Some(p) {
        assert Harmless(s.requests[p], id, stored.session.userName);
      }
    }
  }

  lemma StaysStored(c: Config, s: State, step: Step, id: string, stored: StoredSession)
    requires Staying(s, id, stored) && Next(c, s, step).Some? && Leaves(step, id, stored.session.userName)
    ensures var t := Next(c, s, step).value;
            && id in t.sessions && t.sessions[id] == stored
            && forall k :: k in t.sessions ==> t.sessions[k].session.id == k
  {
    hide Next, Harmless;
    SessionsAfter(c, s, step);
    if step.DeleteOneSession? || step.DeleteTerminated? {
      assert Harmless(s.requests[step.p], id, stored.session.userName);
      HarmlessDelete(s.requests[step.p], id, stored.session.userName);
    }
  }

  lemma HarmlessDelete(r: Request, id: string, name: string)
    requires Harmless(r, id, name) && (r.EndingOne? || r.Terminating?)
    ensures r.id != id
  {
  }

  lemma OwnHarmless(c: Config, s: State, step: Step, id: string, stored: StoredSession)
    requires Staying(s, id, stored) && Next(c, s, step).Some? && Leaves(step, id, stored.session.userName) && Owner(step).Some?
    ensures var t := Next(c, s, step).value;
            step.p in t.requests ==> Harmless(t.requests[step.p], id, stored.session.userName)
  {
    if step.p in s.requests {
      assert Harmless(s.requests[step.p], id, stored.session.userName);
    }
    if step.GetOneSession? {
      ReadHarmless(s, step.p, step.id, step.fails, id, stored);
    } else if step.GetCookieSession? {
      CookieHarmless(s, step.p, step.now, step.fails, id, stored);
    } else {
      hide Staying;
      OtherHarmless(c, s, step, id, stored.session.userName);
    }
  }

  lemma ReadHarmless(s: State, p: nat, other: string, fails: bool, id: string, stored: StoredSession)
    requires Staying(s, id, stored) && NextGetOneSession(s, p, other, fails).Some?
    requires Harmless(s.requests[p], id, stored.session.userName)
    ensures var t := NextGetOneSession(s, p, other, fails).value;
            p in t.requests ==> Harmless(t.requests[p], id, stored.session.userName)
  {
  }

  lemma CookieHarmless(s: State, p: nat, now: int, fails: bool, id: string, stored: StoredSession)
    requires Staying(s, id, stored) && NextGetCookieSession(s, p, now, fails).Some?
    requires Harmless(s.requests[p], id, stored.session.userName)
    ensures var t := NextGetCookieSession(s, p, now, fails).value;
            p in t.requests ==> Harmless(t.requests[p], id, stored.session.userName)
  {
  }

  lemma OtherHarmless(c: Config, s: State, step: Step, id: string, name: string)
    requires Next(c, s, step).Some? && Owner(step).Some? && Leaves(step, id, name)
    requires step.p in s.requests ==> Harmless(s.requests[step.p], id, name)
    requires !step.GetOneSession? && !step.GetCookieSession?
    ensures var t := Next(c, s, step).value;
            step.p in t.requests ==> Harmless(t.requests[step.p], id, name)
  {
    hide Local, SameUsers, SameSessions, Plain, FewerUsers, FewerSessions, Extends, NextGetOneSession, NextGetCookieSession;
  }

  /** A session stays as it is as long as nobody changes or deletes its user, logs out with it, or deletes it, whatever
      happens to other users and sessions. */
  lemma {:induction false} SessionsStay(c: Config, s: State, steps: seq<Step>, id: string, stored: StoredSession)
    requires Staying(s, id, stored) && Run(c, s, steps).Some?
    requires forall step :: step in steps ==> Leaves(step, id, stored.session.userName)
    ensures id in Run(c, s, steps).value.sessions && Run(c, s, steps).value.sessions[id] == stored
    decreases |steps|
  {
    if steps != [] {
      hide Next, Leaves;
      assert steps[0] in steps;
      StepStaying(c, s, steps[0], id, stored);
      hide Staying;
      SessionsStay(c, Next(c, s, steps[0]).value, steps[1..], id, stored);
    }
  }

  /** A logout that nothing interrupts ends the session of the cookie if and only if there is one that has not expired, its
      user is as it says, and the request names its principal and, when it lists any, its index. */
  lemma LogoutEnds(c: Config, s: State, p: nat, cookie: string, request: LogoutRequest, now: int)
    requires p in s.requests && s.requests[p] == Existing(cookie, Some(request))
    ensures var t := AfterLogout(c, s, p, now);
            && t.Some? && p !in t.value.requests
            && t.value.sessions == (if && cookie in s.sessions && var session := s.sessions[cookie].session;
                                       && now <= session.expireTime
                                       && session.userName in s.users
                                       && s.users[session.userName].revision == s.sessions[cookie].userRevision
                                       && session.nameID == request.nameID
                                       && (request.sessionIndexes == [] || session.index in request.sessionIndexes)
                                    then s.sessions - {s.sessions[cookie].session.id} else s.sessions)
  {
    LogoutReads(c, s, p, cookie, request, now);
    var t := Next(c, s, GetCookieSession(p, now, false)).value;
    if p in t.requests {
      LogoutOfRead(c, t, p, s.sessions[cookie], request);
    }
    hide Next;
  }

  lemma LogoutReads(c: Config, s: State, p: nat, cookie: string, request: LogoutRequest, now: int)
    requires p in s.requests && s.requests[p] == Existing(cookie, Some(request))
    ensures var t := Next(c, s, GetCookieSession(p, now, false));
            && t.Some? && t.value.sessions == s.sessions && t.value.users == s.users
            && (p in t.value.requests <==> cookie in s.sessions && now <= s.sessions[cookie].session.expireTime)
            && (p in t.value.requests ==> t.value.requests[p] == ExistingRead(s.sessions[cookie], Some(request)))
  {
    hide Local, SameUsers, SameSessions, Plain;
  }

  lemma LogoutOfRead(c: Config, s: State, p: nat, stored: StoredSession, request: LogoutRequest)
    requires p in s.requests && s.requests[p] == ExistingRead(stored, Some(request))
    ensures var t := Next(c, s, GetSessionUser(p, false));
            && t.Some?
            && var session := stored.session;
            && var u := if p in t.value.requests then Next(c, t.value, DeleteTerminated(p, false)) else t;
            && u.Some? && p !in u.value.requests
            && u.value.sessions == (if && session.userName in s.users
                                       && s.users[session.userName].revision == stored.userRevision
                                       && session.nameID == request.nameID
                                       && (request.sessionIndexes == [] || session.index in request.sessionIndexes)
                                    then s.sessions - {session.id} else s.sessions)
  {
    hide Local, SameUsers, SameSessions, Plain, FewerSessions;
  }

  /** The steps of a logout, as far as they are needed. */
  function AfterLogout(c: Config, s: State, p: nat, now: int): Option<State>
    requires p in s.requests
  {
    match Next(c, s, GetCookieSession(p, now, false))
    case None => None
    case Some(t) =>
      if p !in t.requests then Some(t)
      else
        match Next(c, t, GetSessionUser(p, false))
        case None => None
        case Some(u) => if p !in u.requests then Some(u) else Next(c, u, DeleteTerminated(p, false))
  }

  predicate Fails(step: Step) {
    match step
    case GetLoginUser(_, fails) => fails
    case PutSession(_, _, _, _, fails) => fails
    case ListUsers(_, fails) => fails
    case GetOtherUser(_, _, fails) => fails
    case SetPassword(_, fails) => fails
    case StoreUser(_, _, fails) => fails
    case RemoveUser(_, fails) => fails
    case ListSessions(_, fails) => fails
    case GetOneSession(_, _, fails) => fails
    case DeleteOneSession(_, fails) => fails
    case GetCookieSession(_, _, fails) => fails
    case GetSessionUser(_, fails) => fails
    case DeleteTerminated(_, fails) => fails
    case _ => false
  }

  /** A call of the store that fails ends the request, and changes nothing that is stored. A user without an email
      needs no list. */
  lemma FailureEnds(c: Config, s: State, step: Step)
    requires Next(c, s, step).Some? && Fails(step)
    ensures var t := Next(c, s, step).value;
            && step.p in s.requests && t.users == s.users && t.versions == s.versions
            && t.sessions == s.sessions && t.returned == s.returned
            && (!(step.ListUsers? && s.requests[step.p].PutLocked? && s.requests[step.p].user.email == "") ==> t.requests == s.requests - {step.p})
  {
    hide Local, SameUsers, SameSessions, Plain, FewerUsers, FewerSessions, Extends;
  }

  // ---------------------------------------------------------------- emails that are refused

  /** A request that looks for its email does not look at its own user. */
  ghost predicate LooksElsewhere(s: State) {
    forall p :: p in s.requests && s.requests[p].PutScanning? ==> s.requests[p].user.name !in s.requests[p].remaining
  }

  lemma StepLooksElsewhere(c: Config, s: State, step: Step)
    requires LooksElsewhere(s) && Next(c, s, step).Some?
    ensures LooksElsewhere(Next(c, s, step).value)
  {
    StepFrame(c, s, step);
    var t := Next(c, s, step).value;
    if Owner(step).Some? { OwnLooksElsewhere(c, s, step); }
    hide Next;
    forall p | p in t.requests && t.requests[p].PutScanning? ensures t.requests[p].user.name !in t.requests[p].remaining {
      if Owner(step) != Some(p) {
        assert s.requests[p].user.name !in s.requests[p].remaining;
      }
    }
  }

  lemma OwnLooksElsewhere(c: Config, s: State, step: Step)
    requires LooksElsewhere(s) && Next(c, s, step).Some? && Owner(step).Some?
    ensures var t := Next(c, s, step).value;
            step.p in t.requests && t.requests[step.p].PutScanning? ==>
              t.requests[step.p].user.name !in t.requests[step.p].remaining
  {
    hide Local, SameUsers, SameSessions, Plain, FewerUsers, FewerSessions, Extends;
  }

  lemma {:induction false} RunLooksElsewhere(c: Config, s: State, steps: seq<Step>)
    requires LooksElsewhere(s) && Run(c, s, steps).Some?
    ensures LooksElsewhere(Run(c, s, steps).value)
    decreases |steps|
  {
    hide Next, LooksElsewhere;
    if steps != [] {
      StepLooksElsewhere(c, s, steps[0]);
      RunLooksElsewhere(c, Next(c, s, steps[0]).value, steps[1..]);
    }
  }

  /** When looking for the email ends a request and the store has not failed, another user has that email. */
  lemma RefusedForAnother(c: Config, start: State, steps: seq<Step>, p: nat, name: string)
    requires Init(start) && Run(c, start, steps).Some?
    requires var s := Run(c, start, steps).value;
             && Next(c, s, GetOtherUser(p, name, false)).Some?
             && p !in Next(c, s, GetOtherUser(p, name, false)).value.requests
    ensures var s := Run(c, start, steps).value;
            && p in s.requests && s.requests[p].PutScanning? && name in s.users && name != s.requests[p].user.name
            && c.fold(s.users[name].email) == c.fold(s.requests[p].user.email)
  {
    assert LooksElsewhere(start);
    RunLooksElsewhere(c, start, steps);
    hide Run;
    assert Next(c, Run(c, start, steps).value, GetOtherUser(p, name, false))
        == NextGetOther(c, Run(c, start, steps).value, p, name, false);
  }
}
