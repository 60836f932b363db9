/** Users, logins and sessions of the samlidp server (samlidp/user.go, samlidp/session.go) as a state
    machine. A step is one call of the store, or a lock being taken, so that requests interleave between
    any two calls, and each call may fail without effect. */
module Users {
  import opened Wrappers

  // ---------------------------------------------------------------- data

  datatype Details = Details(commonName: string, surname: string, givenName: string, scopedAffiliation: string)

  datatype User = User(
    name: string, hashedPassword: string, groups: seq<string>, email: string, details: Details, revision: string)

  datatype Session = Session(
    id: string, nameID: string, expireTime: int, index: string, userName: string, groups: seq<string>,
    userEmail: string, userDetails: Details)

  datatype StoredSession = StoredSession(session: Session, userRevision: string)

  /** The parts of a logout request that matter here. */
  datatype LogoutRequest = LogoutRequest(nameID: string, sessionIndexes: seq<string>)

  /** What the server takes from libraries: passwords are hashed and compared, and emails are compared
      by a folding of case. */
  datatype Config = Config(hash: string -> string, verify: (string, string) -> bool, fold: string -> string)

  /** How far a request has come. */
  datatype Request =
    // authenticate
    | Login(name: string, password: string)
    | LoginRead(user: User, password: string)
    // HandlePutUser
    | PutUser(user: User, plaintext: Option<string>)
    | PutLocked(user: User, plaintext: Option<string>)
    | PutScanning(user: User, plaintext: Option<string>, remaining: set<string>)
    | PutChecked(user: User, plaintext: Option<string>)
    | PutHashed(user: User)
    // HandleDeleteUser
    | DeleteUser(name: string)
    // endUserSessions, for either of these
    | Ending(name: string, locked: bool)
    | EndingEach(name: string, locked: bool, ids: set<string>)
    | EndingOne(name: string, locked: bool, ids: set<string>, id: string)
    // existingSession, for a logout or not
    | Existing(cookie: string, logout: Option<LogoutRequest>)
    | ExistingRead(stored: StoredSession, logout: Option<LogoutRequest>)
    // TerminateSession
    | Terminating(id: string)

  /** A session that existingSession returned, with the user record that it read. */
  datatype Returned = Returned(stored: StoredSession, user: User)

  datatype State = State(
    users: map<string, User>,
    sessions: map<string, StoredSession>,
    usersMu: Option<nat>,
    requests: map<nat, Request>,
    versions: map<(string, string), User>,  // history: every version of every user, by name and revision
    returned: set<Returned>)                // history

  datatype Step =
    | Begin(p: nat, request: Request)
    | GetLoginUser(p: nat, fails: bool)
    | PutSession(p: nat, id: string, index: string, expireTime: int, fails: bool)
    | Lock(p: nat)
    | ListUsers(p: nat, fails: bool)
    | GetOtherUser(p: nat, name: string, fails: bool)
    | EndScan(p: nat)
    | SetPassword(p: nat, fails: bool)
    | StoreUser(p: nat, revision: string, fails: bool)
    | RemoveUser(p: nat, fails: bool)
    | ListSessions(p: nat, fails: bool)
    | GetOneSession(p: nat, id: string, fails: bool)
    | DeleteOneSession(p: nat, fails: bool)
    | EndEnding(p: nat)
    | GetCookieSession(p: nat, now: int, fails: bool)
    | GetSessionUser(p: nat, fails: bool)
    | DeleteTerminated(p: nat, fails: bool)
    | HandleDeleteSession(id: string)

  predicate SameEmail(c: Config, a: string, b: string) {
    c.fold(a) == c.fold(b)
  }

  /** The session that a login makes from a user record. */
  function SessionOf(user: User, id: string, index: string, expireTime: int): StoredSession {
    StoredSession(
      Session(id, user.email, expireTime, index, user.name, user.groups, user.email, user.details), user.revision)
  }

  predicate IsNew(r: Request) {
    r.Login? || r.PutUser? || r.DeleteUser? || r.Existing?
  }

  // ---------------------------------------------------------------- steps

  function Goto(s: State, p: nat, r: Request): State {
    s.(requests := s.requests[p := r])
  }

  /** The request is answered. A lock it holds is released. */
  function Finish(s: State, p: nat): State {
    s.(requests := s.requests - {p}, usersMu := if s.usersMu == Some(p) then None else s.usersMu)
  }

  /** What every step of request `p` leaves alone: the other requests, and the lock, unless `p` takes it
      or gives it up. A request that holds the lock goes on holding it. */
  ghost predicate Local(s: State, t: State, p: nat) {
    && (forall q :: q != p ==>
          (q in t.requests <==> q in s.requests) && (q in s.requests ==> t.requests[q] == s.requests[q]))
    && (s.usersMu.Some? && s.usersMu != Some(p) ==> t.usersMu == s.usersMu)
    && (p in t.requests && HoldsLock(t.requests[p]) ==>
          t.usersMu == Some(p) || (p in s.requests && HoldsLock(s.requests[p]) && t.usersMu == s.usersMu))
  }

  predicate SameUsers(s: State, t: State) {
    t.users == s.users && t.versions == s.versions
  }

  predicate SameSessions(s: State, t: State) {
    t.sessions == s.sessions && t.returned == s.returned
  }

  /** Sessions go away only. */
  ghost predicate FewerSessions(s: State, t: State) {
    t.returned == s.returned && forall id :: id in t.sessions ==> id in s.sessions && t.sessions[id] == s.sessions[id]
  }

  /** The request carries neither a record that was read nor an email that was checked. */
  predicate Plain(s: State, p: nat) {
    p in s.requests ==>
      var r := s.requests[p];
      !r.LoginRead? && !r.ExistingRead? && !r.PutScanning? && !r.PutChecked? && !r.PutHashed?
  }

  /** The state after a step, or None when the step cannot be taken. New session IDs and revisions are
      taken to be fresh. */
  function Next(c: Config, s: State, step: Step): Option<State> {
    match step
    case Begin(p, request) => NextBegin(s, p, request)
    case GetLoginUser(p, fails) => NextLogin(s, p, fails)
    case PutSession(p, id, index, expireTime, fails) => NextPutSession(c, s, p, id, index, expireTime, fails)
    case Lock(p) => NextLock(s, p)
    case ListUsers(p, fails) => NextListUsers(s, p, fails)
    case GetOtherUser(p, name, fails) => NextGetOther(c, s, p, name, fails)
    case EndScan(p) => NextEndScan(s, p)
    case SetPassword(p, fails) => NextSetPassword(c, s, p, fails)
    case StoreUser(p, revision, fails) => NextStoreUser(s, p, revision, fails)
    case RemoveUser(p, fails) => NextRemoveUser(s, p, fails)
    case ListSessions(p, fails) => NextListSessions(s, p, fails)
    case GetOneSession(p, id, fails) => NextGetOneSession(s, p, id, fails)
    case DeleteOneSession(p, fails) => NextDeleteOneSession(s, p, fails)
    case EndEnding(p) => NextEndEnding(s, p)
    case GetCookieSession(p, now, fails) => NextGetCookieSession(s, p, now, fails)
    case GetSessionUser(p, fails) => NextGetSessionUser(s, p, fails)
    case DeleteTerminated(p, fails) => NextDeleteTerminated(s, p, fails)
    case HandleDeleteSession(id) => Some(s.(sessions := s.sessions - {id}))
  }

  function NextBegin(s: State, p: nat, request: Request): (t: Option<State>)
    ensures t.Some? ==> Local(s, t.value, p) && SameUsers(s, t.value) && SameSessions(s, t.value) && Plain(t.value, p)
  {
    if p in s.requests || !IsNew(request) then None else Some(Goto(s, p, request))
  }

  // authenticate

  function NextLogin(s: State, p: nat, fails: bool): (t: Option<State>)
    ensures t.Some? ==> Local(s, t.value, p) && SameUsers(s, t.value) && SameSessions(s, t.value)
  {
    if !(p in s.requests && s.requests[p].Login?) then None
    else
      var Login(name, password) := s.requests[p];
      if fails || name !in s.users then Some(Finish(s, p)) else Some(Goto(s, p, LoginRead(s.users[name], password)))
  }

  function NextPutSession(c: Config, s: State, p: nat, id: string, index: string, expireTime: int, fails: bool): (t: Option<State>)
    ensures t.Some? ==> Local(s, t.value, p) && SameUsers(s, t.value) && Plain(t.value, p)
  {
    if !(p in s.requests && s.requests[p].LoginRead?) || id in s.sessions then None
    else
      var LoginRead(user, password) := s.requests[p];
      if !c.verify(user.hashedPassword, password) || fails then Some(Finish(s, p))
      else Some(Finish(s, p).(sessions := s.sessions[id := SessionOf(user, id, index, expireTime)]))
  }

  // HandlePutUser

  function NextLock(s: State, p: nat): (t: Option<State>)
    ensures t.Some? ==> Local(s, t.value, p) && SameUsers(s, t.value) && SameSessions(s, t.value) && Plain(t.value, p)
  {
    if p in s.requests && s.requests[p].PutUser? && s.usersMu.None? then
      Some(Goto(s, p, PutLocked(s.requests[p].user, s.requests[p].plaintext)).(usersMu := Some(p)))
    else None
  }

  function NextListUsers(s: State, p: nat, fails: bool): (t: Option<State>)
    ensures t.Some? ==> Local(s, t.value, p) && SameUsers(s, t.value) && SameSessions(s, t.value)
  {
    if !(p in s.requests && s.requests[p].PutLocked?) then None
    else
      var PutLocked(user, plaintext) := s.requests[p];
      if user.email == "" then Some(Goto(s, p, PutChecked(user, plaintext)))
      else if fails then Some(Finish(s, p))
      else Some(Goto(s, p, PutScanning(user, plaintext, s.users.Keys - {user.name})))
  }

  function NextGetOther(c: Config, s: State, p: nat, name: string, fails: bool): (t: Option<State>)
    ensures t.Some? ==> Local(s, t.value, p) && SameUsers(s, t.value) && SameSessions(s, t.value)
  {
    if !(p in s.requests && s.requests[p].PutScanning? && name in s.requests[p].remaining) then None
    else
      var PutScanning(user, plaintext, remaining) := s.requests[p];
      if fails then Some(Finish(s, p))
      else if name in s.users && SameEmail(c, s.users[name].email, user.email) then Some(Finish(s, p))
      else Some(Goto(s, p, PutScanning(user, plaintext, remaining - {name})))
  }

  function NextEndScan(s: State, p: nat): (t: Option<State>)
    ensures t.Some? ==> Local(s, t.value, p) && SameUsers(s, t.value) && SameSessions(s, t.value)
  {
    if p in s.requests && s.requests[p].PutScanning? && s.requests[p].remaining == {} then
      Some(Goto(s, p, PutChecked(s.requests[p].user, s.requests[p].plaintext)))
    else None
  }

  function NextSetPassword(c: Config, s: State, p: nat, fails: bool): (t: Option<State>)
    ensures t.Some? ==> Local(s, t.value, p) && SameUsers(s, t.value) && SameSessions(s, t.value)
  {
    if !(p in s.requests && s.requests[p].PutChecked?) then None
    else
      var PutChecked(user, plaintext) := s.requests[p];
      if fails then Some(Finish(s, p))
      else if plaintext.Some? then Some(Goto(s, p, PutHashed(user.(hashedPassword := c.hash(plaintext.value)))))
      else if user.name in s.users then
        Some(Goto(s, p, PutHashed(user.(hashedPassword := s.users[user.name].hashedPassword))))
      else Some(Goto(s, p, PutHashed(user)))
  }

  function NextStoreUser(s: State, p: nat, revision: string, fails: bool): (t: Option<State>)
    ensures t.Some? ==> Local(s, t.value, p) && SameSessions(s, t.value) && Plain(t.value, p) && Extends(s, t.value)
  {
    if !(p in s.requests && s.requests[p].PutHashed?) || (s.requests[p].user.name, revision) in s.versions then None
    else if fails then Some(Finish(s, p))
    else
      var user := s.requests[p].user.(revision := revision);
      Some(Goto(s, p, Ending(user.name, true)).(
        users := s.users[user.name := user], versions := s.versions[(user.name, revision) := user]))
  }

  // HandleDeleteUser

  function NextRemoveUser(s: State, p: nat, fails: bool): (t: Option<State>)
    ensures t.Some? ==> Local(s, t.value, p) && SameSessions(s, t.value) && Plain(t.value, p)
    ensures t.Some? ==> t.value.versions == s.versions && FewerUsers(s, t.value)
  {
    if !(p in s.requests && s.requests[p].DeleteUser?) then None
    else if fails then Some(Finish(s, p))
    else
      var name := s.requests[p].name;
      Some(Goto(s, p, Ending(name, false)).(users := s.users - {name}))
  }

  /** Users go away only. */
  ghost predicate FewerUsers(s: State, t: State) {
    forall name :: name in t.users ==> name in s.users && t.users[name] == s.users[name]
  }

  // endUserSessions

  function NextListSessions(s: State, p: nat, fails: bool): (t: Option<State>)
    ensures t.Some? ==> Local(s, t.value, p) && SameUsers(s, t.value) && SameSessions(s, t.value) && Plain(t.value, p)
  {
    if !(p in s.requests && s.requests[p].Ending?) then None
    else if fails then Some(Finish(s, p))
    else Some(Goto(s, p, EndingEach(s.requests[p].name, s.requests[p].locked, s.sessions.Keys)))
  }

  function NextGetOneSession(s: State, p: nat, id: string, fails: bool): (t: Option<State>)
    ensures t.Some? ==> Local(s, t.value, p) && SameUsers(s, t.value) && SameSessions(s, t.value) && Plain(t.value, p)
  {
    if !(p in s.requests && s.requests[p].EndingEach? && id in s.requests[p].ids) then None
    else
      var EndingEach(name, locked, ids) := s.requests[p];
      if fails then Some(Finish(s, p))
      else if id !in s.sessions then Some(Goto(s, p, EndingEach(name, locked, ids - {id})))
      else if s.sessions[id].session.userName != name then Some(Goto(s, p, EndingEach(name, locked, ids - {id})))
      else Some(Goto(s, p, EndingOne(name, locked, ids, id)))
  }

  function NextDeleteOneSession(s: State, p: nat, fails: bool): (t: Option<State>)
    ensures t.Some? ==> Local(s, t.value, p) && SameUsers(s, t.value) && FewerSessions(s, t.value) && Plain(t.value, p)
  {
    if !(p in s.requests && s.requests[p].EndingOne?) then None
    else if fails then Some(Finish(s, p))
    else
      var EndingOne(name, locked, ids, id) := s.requests[p];
      Some(Goto(s, p, EndingEach(name, locked, ids - {id})).(sessions := s.sessions - {id}))
  }

  function NextEndEnding(s: State, p: nat): (t: Option<State>)
    ensures t.Some? ==> Local(s, t.value, p) && SameUsers(s, t.value) && SameSessions(s, t.value) && Plain(t.value, p)
  {
    if p in s.requests && s.requests[p].EndingEach? && s.requests[p].ids == {} then Some(Finish(s, p)) else None
  }

  // existingSession and TerminateSession

  function NextGetCookieSession(s: State, p: nat, now: int, fails: bool): (t: Option<State>)
    ensures t.Some? ==> Local(s, t.value, p) && SameUsers(s, t.value) && SameSessions(s, t.value)
  {
    if !(p in s.requests && s.requests[p].Existing?) then None
    else
      var Existing(cookie, logout) := s.requests[p];
      if fails || cookie !in s.sessions || s.sessions[cookie].session.expireTime < now then Some(Finish(s, p))
      else Some(Goto(s, p, ExistingRead(s.sessions[cookie], logout)))
  }

  function NextGetSessionUser(s: State, p: nat, fails: bool): (t: Option<State>)
    ensures t.Some? ==> Local(s, t.value, p) && SameUsers(s, t.value) && t.value.sessions == s.sessions && Plain(t.value, p)
  {
    if !(p in s.requests && s.requests[p].ExistingRead?) then None
    else
      var ExistingRead(stored, logout) := s.requests[p];
      var name := stored.session.userName;
      if fails || name !in s.users || s.users[name].revision != stored.userRevision then Some(Finish(s, p))
      else
        var s' := s.(returned := s.returned + {Returned(stored, s.users[name])});
        if logout.Some? && EndsSession(logout.value, stored.session) then Some(Goto(s', p, Terminating(stored.session.id)))
        else Some(Finish(s', p))
  }

  predicate EndsSession(request: LogoutRequest, session: Session) {
    && session.nameID == request.nameID
    && (request.sessionIndexes != [] ==> session.index in request.sessionIndexes)
  }

  function NextDeleteTerminated(s: State, p: nat, fails: bool): (t: Option<State>)
    ensures t.Some? ==> Local(s, t.value, p) && SameUsers(s, t.value) && FewerSessions(s, t.value) && Plain(t.value, p)
  {
    if !(p in s.requests && s.requests[p].Terminating?) then None
    else if fails then Some(Finish(s, p))
    else Some(Finish(s, p).(sessions := s.sessions - {s.requests[p].id}))
  }

  predicate HoldsLock(r: Request) {
    match r
    case PutLocked(_, _) => true
    case PutScanning(_, _, _) => true
    case PutChecked(_, _) => true
    case PutHashed(_) => true
    case Ending(_, locked) => locked
    case EndingEach(_, locked, _) => locked
    case EndingOne(_, locked, _, _) => locked
    case _ => false
  }

  /** Versions are only ever added. */
  ghost predicate Extends(s: State, t: State) {
    forall key :: key in s.versions ==> key in t.versions && t.versions[key] == s.versions[key]
  }

  function Run(c: Config, s: State, steps: seq<Step>): Option<State>
    decreases |steps|
  {
    if steps == [] then Some(s)
    else if Next(c, s, steps[0]).None? then None
    else Run(c, Next(c, s, steps[0]).value, steps[1..])
  }

  // ---------------------------------------------------------------- sessions agree with their users

  /** The record is the version of its user that has its revision. */
  predicate IsVersion(s: State, user: User) {
    (user.name, user.revision) in s.versions && s.versions[(user.name, user.revision)] == user
  }

  /** The session was made from `user`, and says what that record says. */
  predicate MadeFrom(stored: StoredSession, user: User) {
    stored == SessionOf(user, stored.session.id, stored.session.index, stored.session.expireTime)
  }

  /** The session was made from the version of its user that has its revision. */
  predicate FromVersion(s: State, stored: StoredSession) {
    var key := (stored.session.userName, stored.userRevision);
    key in s.versions && s.versions[key].name == key.0 && s.versions[key].revision == key.1
    && MadeFrom(stored, s.versions[key])
  }

  ghost predicate RequestOk(s: State, r: Request) {
    match r
    case LoginRead(user, _) => IsVersion(s, user)
    case ExistingRead(stored, _) => FromVersion(s, stored)
    case _ => true
  }

  ghost predicate UsersOk(s: State) {
    forall name :: name in s.users ==> s.users[name].name == name && IsVersion(s, s.users[name])
  }

  ghost predicate SessionsOk(s: State) {
    forall id :: id in s.sessions ==> FromVersion(s, s.sessions[id])
  }

  ghost predicate RequestsOk(s: State) {
    forall p :: p in s.requests ==> RequestOk(s, s.requests[p])
  }

  ghost predicate ReturnedOk(s: State) {
    forall r :: r in s.returned ==> IsVersion(s, r.user) && MadeFrom(r.stored, r.user)
  }

  ghost predicate Coherent(s: State) {
    UsersOk(s) && SessionsOk(s) && RequestsOk(s) && ReturnedOk(s)
  }

  /** The request that a step belongs to. */
  function Owner(step: Step): Option<nat> {
    if step.HandleDeleteSession? then None else Some(step.p)
  }

  /** The steps as their parts describe them. */
  lemma StepFrame(c: Config, s: State, step: Step)
    requires Next(c, s, step).Some?
    ensures var t := Next(c, s, step).value;
            && (if step.HandleDeleteSession? then t.requests == s.requests && t.usersMu == s.usersMu else Local(s, t, step.p))
            && Extends(s, t)
            && (!step.StoreUser? ==> t.versions == s.versions && FewerUsers(s, t))
            && (!step.StoreUser? && !step.RemoveUser? ==> SameUsers(s, t))
            && (!step.PutSession? && !step.GetSessionUser? ==> FewerSessions(s, t))
            && (!step.PutSession? ==> forall id :: id in t.sessions ==> id in s.sessions && t.sessions[id] == s.sessions[id])
            && (!step.GetSessionUser? ==> t.returned == s.returned)
            && (Owner(step).Some? && !Carries(step) ==> Plain(t, step.p))
  {
    hide Local, Plain, NextBegin, NextLogin, NextLock, NextListUsers, NextGetOther, NextEndScan, NextSetPassword,
         NextStoreUser, NextRemoveUser, NextListSessions, NextGetOneSession, NextDeleteOneSession, NextEndEnding,
         NextGetCookieSession, NextGetSessionUser, NextDeleteTerminated;
  }

  /** The steps after which a request carries something it has read or checked. */
  predicate Carries(step: Step) {
    step.GetLoginUser? || step.GetCookieSession? || step.ListUsers? || step.GetOtherUser? || step.EndScan? || step.SetPassword?
  }

  lemma StepUsersOk(c: Config, s: State, step: Step)
    requires UsersOk(s) && Next(c, s, step).Some?
    ensures UsersOk(Next(c, s, step).value)
  {
    StepFrame(c, s, step);
    if step.StoreUser? {
      StoreUsersOk(s, step.p, step.revision, step.fails);
    } else {
      hide Next;
    }
  }

  lemma StoreUsersOk(s: State, p: nat, revision: string, fails: bool)
    requires UsersOk(s) && NextStoreUser(s, p, revision, fails).Some?
    ensures UsersOk(NextStoreUser(s, p, revision, fails).value)
  {
  }

  lemma StepSessionsOk(c: Config, s: State, step: Step)
    requires SessionsOk(s) && RequestsOk(s) && Next(c, s, step).Some?
    ensures SessionsOk(Next(c, s, step).value)
  {
    StepFrame(c, s, step);
    if step.PutSession? {
      assert RequestOk(s, s.requests[step.p]);
      PutSessionsOk(c, s, step.p, step.id, step.index, step.expireTime, step.fails);
    } else {
      hide Next;
      var t := Next(c, s, step).value;
      forall id | id in t.sessions ensures FromVersion(t, t.sessions[id]) {
        assert FromVersion(s, s.sessions[id]);
      }
    }
  }

  lemma PutSessionsOk(c: Config, s: State, p: nat, id: string, index: string, expireTime: int, fails: bool)
    requires SessionsOk(s) && NextPutSession(c, s, p, id, index, expireTime, fails).Some?
    requires RequestOk(s, s.requests[p])
    ensures SessionsOk(NextPutSession(c, s, p, id, index, expireTime, fails).value)
  {
  }

  lemma StepRequestsOk(c: Config, s: State, step: Step)
    requires UsersOk(s) && SessionsOk(s) && RequestsOk(s) && Next(c, s, step).Some?
    ensures RequestsOk(Next(c, s, step).value)
  {
    StepFrame(c, s, step);
    if Owner(step).Some? { OwnRequestOk(c, s, step); }
    hide Next, UsersOk, SessionsOk;
    var t := Next(c, s, step).value;
    forall q | q in t.requests ensures RequestOk(t, t.requests[q]) {
      if Owner(step) != Some(q) {
        assert RequestOk(s, s.requests[q]);
      }
    }
  }

  lemma OwnRequestOk(c: Config, s: State, step: Step)
    requires UsersOk(s) && SessionsOk(s) && Next(c, s, step).Some? && Owner(step).Some?
    ensures var t := Next(c, s, step).value;
            step.p in t.requests ==> RequestOk(t, t.requests[step.p])
  {
    StepFrame(c, s, step);
    if step.GetLoginUser? {
      LoginReadOk(s, step.p, step.fails);
    } else if step.GetCookieSession? {
      ExistingReadOk(s, step.p, step.now, step.fails);
    } else if !Carries(step) {
      hide Next;
    }
  }

  lemma LoginReadOk(s: State, p: nat, fails: bool)
    requires UsersOk(s) && NextLogin(s, p, fails).Some?
    ensures var t := NextLogin(s, p, fails).value;
            p in t.requests ==> RequestOk(t, t.requests[p])
  {
  }

  lemma ExistingReadOk(s: State, p: nat, now: int, fails: bool)
    requires SessionsOk(s) && NextGetCookieSession(s, p, now, fails).Some?
    ensures var t := NextGetCookieSession(s, p, now, fails).value;
            p in t.requests ==> RequestOk(t, t.requests[p])
  {
  }

  lemma StepReturnedOk(c: Config, s: State, step: Step)
    requires UsersOk(s) && RequestsOk(s) && ReturnedOk(s) && Next(c, s, step).Some?
    ensures ReturnedOk(Next(c, s, step).value)
  {
    StepFrame(c, s, step);
    if step.GetSessionUser? {
      assert RequestOk(s, s.requests[step.p]);
      NewReturnedOk(s, step.p, step.fails);
    } else {
      hide Next;
      var t := Next(c, s, step).value;
      forall r | r in t.returned ensures IsVersion(t, r.user) { assert IsVersion(s, r.user); }
    }
  }

  lemma NewReturnedOk(s: State, p: nat, fails: bool)
    requires UsersOk(s) && ReturnedOk(s) && NextGetSessionUser(s, p, fails).Some?
    requires RequestOk(s, s.requests[p])
    ensures ReturnedOk(NextGetSessionUser(s, p, fails).value)
    ensures forall r :: r in NextGetSessionUser(s, p, fails).value.returned && r !in s.returned ==>
              Current(s, r.user.name, r.user.revision)
  {
  }

  lemma StepCoherent(c: Config, s: State, step: Step)
    requires Coherent(s) && Next(c, s, step).Some?
    ensures Coherent(Next(c, s, step).value)
  {
    hide Next, UsersOk, SessionsOk, RequestsOk, ReturnedOk;
    StepUsersOk(c, s, step);
    StepSessionsOk(c, s, step);
    StepRequestsOk(c, s, step);
    StepReturnedOk(c, s, step);
  }

  lemma {:induction false} RunCoherent(c: Config, s: State, steps: seq<Step>)
    requires Coherent(s) && Run(c, s, steps).Some?
    ensures Coherent(Run(c, s, steps).value)
    decreases |steps|
  {
    if steps != [] {
      StepCoherent(c, s, steps[0]);
      RunCoherent(c, Next(c, s, steps[0]).value, steps[1..]);
    }
  }

  /** A server that has just started on a store whose sessions were made from versions of its users. */
  ghost predicate Init(s: State) {
    s.requests == map[] && s.usersMu.None? && s.returned == {} && UsersOk(s) && SessionsOk(s)
  }

  /** Whatever happens in between, a session that existingSession returns was made from the very version
      of the user that it read, and asserts what that version says. */
  lemma ReturnedSessionsAgree(c: Config, s: State, steps: seq<Step>, r: Returned)
    requires Init(s) && Run(c, s, steps).Some? && r in Run(c, s, steps).value.returned
    ensures var session := r.stored.session;
            && r.stored.userRevision == r.user.revision && session.userName == r.user.name
            && session.nameID == r.user.email && session.userEmail == r.user.email
            && session.groups == r.user.groups && session.userDetails == r.user.details
            && IsVersion(Run(c, s, steps).value, r.user)
  {
    RunCoherent(c, s, steps);
  }

  /** A server with one user, on which nothing has happened yet. */
  function OneUser(user: User): State {
    State(map[user.name := user], map[], None, map[], map[(user.name, user.revision) := user], {})
  }

  function LoginSteps(user: User, password: string, id: string, index: string, expireTime: int): seq<Step> {
    [Begin(0, Login(user.name, password)), GetLoginUser(0, false), PutSession(0, id, index, expireTime, false)]
  }

  function ReturnSteps(id: string, now: int): seq<Step> {
    [Begin(0, Existing(id, None)), GetCookieSession(0, now, false), GetSessionUser(0, false)]
  }

  /** The state after the user has logged in, and nothing else has happened. */
  predicate LoggedIn(s: State, user: User, stored: StoredSession) {
    && user.name in s.users && s.users[user.name] == user && s.requests == map[] && s.returned == {}
    && s.sessions == map[stored.session.id := stored]
  }

  lemma LogsIn(c: Config, user: User, password: string, id: string, index: string, expireTime: int)
    requires c.verify(user.hashedPassword, password)
    ensures var t := Run(c, OneUser(user), LoginSteps(user, password, id, index, expireTime));
            t.Some? && LoggedIn(t.value, user, SessionOf(user, id, index, expireTime))
  {
    hide Local, SameUsers, SameSessions, Plain;
    var steps := LoginSteps(user, password, id, index, expireTime);
    var s0 := OneUser(user);
    var s1 := Goto(s0, 0, Login(user.name, password));
    assert NextBegin(s0, 0, Login(user.name, password)) == Some(s1);
    var s2 := Goto(s1, 0, LoginRead(user, password));
    assert NextLogin(s1, 0, false) == Some(s2);
    var s3 := Finish(s2, 0).(sessions := s2.sessions[id := SessionOf(user, id, index, expireTime)]);
    assert NextPutSession(c, s2, 0, id, index, expireTime, false) == Some(s3);
    hide NextBegin, NextLogin, NextPutSession, Run;
    RunThree(c, s0, steps, s1, s2, s3);
  }

  lemma Returns(c: Config, s: State, user: User, stored: StoredSession, now: int)
    requires LoggedIn(s, user, stored) && stored.userRevision == user.revision && stored.session.userName == user.name
    requires now <= stored.session.expireTime
    ensures var t := Run(c, s, ReturnSteps(stored.session.id, now));
            t.Some? && t.value.returned == {Returned(stored, user)}
  {
    hide Local, SameUsers, SameSessions, Plain;
    var id := stored.session.id;
    var s1 := Goto(s, 0, Existing(id, None));
    assert NextBegin(s, 0, Existing(id, None)) == Some(s1);
    var s2 := Goto(s1, 0, ExistingRead(stored, None));
    assert NextGetCookieSession(s1, 0, now, false) == Some(s2);
    var s3 := Finish(s2.(returned := s2.returned + {Returned(stored, user)}), 0);
    assert NextGetSessionUser(s2, 0, false) == Some(s3);
    hide NextBegin, NextGetCookieSession, NextGetSessionUser, Run;
    RunThree(c, s, ReturnSteps(id, now), s1, s2, s3);
  }

  /** There are runs in which a session is returned: a user logs in and comes back before the session expires. */
  lemma LoginIsReturned(c: Config, user: User, password: string, id: string, index: string, expireTime: int, now: int)
    requires c.verify(user.hashedPassword, password) && now <= expireTime
    ensures Init(OneUser(user))
    ensures var steps := LoginSteps(user, password, id, index, expireTime) + ReturnSteps(id, now);
            var end := Run(c, OneUser(user), steps);
            end.Some? && end.value.returned == {Returned(SessionOf(user, id, index, expireTime), user)}
  {
    hide Run, LoggedIn, LoginSteps, ReturnSteps;
    LogsIn(c, user, password, id, index, expireTime);
    var t := Run(c, OneUser(user), LoginSteps(user, password, id, index, expireTime)).value;
    Returns(c, t, user, SessionOf(user, id, index, expireTime), now);
    RunConcat(c, OneUser(user), LoginSteps(user, password, id, index, expireTime), ReturnSteps(id, now));
  }

  lemma RunThree(c: Config, s: State, steps: seq<Step>, t: State, u: State, v: State)
    requires |steps| == 3
    requires Next(c, s, steps[0]) == Some(t) && Next(c, t, steps[1]) == Some(u) && Next(c, u, steps[2]) == Some(v)
    ensures Run(c, s, steps) == Some(v)
  {
    hide Next;
    RunStep(c, s, steps, t);
    RunStep(c, t, steps[1..], u);
    RunStep(c, u, steps[2..], v);
    assert steps[1..][1..] == steps[2..] && steps[2..][1..] == [];
  }

  lemma {:induction false} RunConcat(c: Config, s: State, first: seq<Step>, rest: seq<Step>)
    requires Run(c, s, first).Some?
    ensures Run(c, s, first + rest) == Run(c, Run(c, s, first).value, rest)
    decreases |first|
  {
    hide Next;
    if first == [] {
      assert [] + rest == rest;
    } else {
      assert (first + rest)[0] == first[0] && (first + rest)[1..] == first[1..] + rest;
      RunConcat(c, Next(c, s, first[0]).value, first[1..], rest);
    }
  }

  lemma RunStep(c: Config, s: State, steps: seq<Step>, t: State)
    requires steps != [] && Next(c, s, steps[0]) == Some(t)
    ensures Run(c, s, steps) == Run(c, t, steps[1..])
  {
    hide Next;
  }

  // ---------------------------------------------------------------- a change revokes sessions for good

  predicate Current(s: State, name: string, revision: string) {
    name in s.users && s.users[name].revision == revision
  }

  /** A version that is in the past: the user has another one now, or none. */
  predicate Revoked(s: State, name: string, revision: string) {
    (name, revision) in s.versions && !Current(s, name, revision)
  }

  predicate Usable(s: State, id: string) {
    id in s.sessions && Current(s, s.sessions[id].session.userName, s.sessions[id].userRevision)
  }

  /** Storing or deleting the user puts every version before it in the past. */
  lemma ChangeRevokes(c: Config, s: State, step: Step, revision: string)
    requires Next(c, s, step).Some? && (step.StoreUser? || step.RemoveUser?) && !step.fails
    requires var name := if step.StoreUser? then s.requests[step.p].user.name else s.requests[step.p].name;
             (name, revision) in s.versions
    ensures var name := if step.StoreUser? then s.requests[step.p].user.name else s.requests[step.p].name;
            Revoked(Next(c, s, step).value, name, revision)
  {
  }

  lemma StepKeepsRevoked(c: Config, s: State, step: Step, name: string, revision: string)
    requires Next(c, s, step).Some? && Revoked(s, name, revision)
    ensures Revoked(Next(c, s, step).value, name, revision)
  {
    StepFrame(c, s, step);
    if step.StoreUser? {
      StoreKeepsRevoked(s, step.p, step.revision, step.fails, name, revision);
    } else {
      hide Next;
    }
  }

  lemma StoreKeepsRevoked(s: State, p: nat, latest: string, fails: bool, name: string, revision: string)
    requires NextStoreUser(s, p, latest, fails).Some? && Revoked(s, name, revision)
    ensures Revoked(NextStoreUser(s, p, latest, fails).value, name, revision)
  {
  }

  lemma StepReturnsCurrent(c: Config, s: State, step: Step, r: Returned)
    requires Coherent(s) && Next(c, s, step).Some? && r in Next(c, s, step).value.returned && r !in s.returned
    ensures Current(s, r.user.name, r.user.revision)
  {
    StepFrame(c, s, step);
    if step.GetSessionUser? {
      assert RequestOk(s, s.requests[step.p]);
      NewReturnedOk(s, step.p, step.fails);
    }
  }

  /** A version that is in the past stays there, and no session made from it is returned again, even if
      a login stored it late or the sessions could not all be deleted. */
  lemma {:induction false} RevokedForGood(c: Config, s: State, steps: seq<Step>, name: string, revision: string)
    requires Coherent(s) && Revoked(s, name, revision) && Run(c, s, steps).Some?
    ensures var t := Run(c, s, steps).value;
            && Revoked(t, name, revision)
            && (forall r :: r in t.returned && r.user.name == name && r.user.revision == revision ==> r in s.returned)
            && (forall id :: id in t.sessions && t.sessions[id].session.userName == name
                             && t.sessions[id].userRevision == revision ==>
                  !Usable(t, id))
    decreases |steps|
  {
    if steps != [] {
      var m := Next(c, s, steps[0]).value;
      StepKeepsRevoked(c, s, steps[0], name, revision);
      StepCoherent(c, s, steps[0]);
      RevokedForGood(c, m, steps[1..], name, revision);
      forall r | r in m.returned && r.user.name == name && r.user.revision == revision ensures r in s.returned {
        if r !in s.returned { StepReturnsCurrent(c, s, steps[0], r); }
      }
    }
  }

  // ---------------------------------------------------------------- principals stay distinct

  ghost predicate DistinctEmails(c: Config, users: map<string, User>) {
    forall a, b :: a in users && b in users && a != b && users[a].email != "" && users[b].email != "" ==>
      c.fold(users[a].email) != c.fold(users[b].email)
  }

  ghost predicate LockOk(s: State) {
    forall p :: p in s.requests && HoldsLock(s.requests[p]) ==> s.usersMu == Some(p)
  }

  /** No other user, but perhaps one of `unread`, has the email. */
  ghost predicate EmailFree(c: Config, users: map<string, User>, user: User, unread: set<string>) {
    forall n :: n in users && n != user.name && n !in unread ==> !SameEmail(c, users[n].email, user.email)
  }

  ghost predicate ScanOk(c: Config, users: map<string, User>, r: Request) {
    match r
    case PutScanning(user, _, remaining) => EmailFree(c, users, user, remaining)
    case PutChecked(user, _) => user.email != "" ==> EmailFree(c, users, user, {})
    case PutHashed(user) => user.email != "" ==> EmailFree(c, users, user, {})
    case _ => true
  }

  ghost predicate ScansOk(c: Config, s: State) {
    forall p :: p in s.requests ==> ScanOk(c, s.users, s.requests[p])
  }

  lemma StepLockOk(c: Config, s: State, step: Step)
    requires LockOk(s) && Next(c, s, step).Some?
    ensures LockOk(Next(c, s, step).value)
  {
    StepFrame(c, s, step);
    hide Next, HoldsLock;
    var t := Next(c, s, step).value;
    forall q | q in t.requests && HoldsLock(t.requests[q]) ensures t.usersMu == Some(q) {
      if Owner(step) != Some(q) {
        assert s.usersMu == Some(q);
      }
    }
  }

  lemma StepScansOk(c: Config, s: State, step: Step)
    requires LockOk(s) && ScansOk(c, s) && Next(c, s, step).Some?
    ensures ScansOk(c, Next(c, s, step).value)
  {
    StepFrame(c, s, step);
    if Owner(step).Some? { OwnScanOk(c, s, step); }
    if step.StoreUser? { assert HoldsLock(s.requests[step.p]); }
    hide Next;
    var t := Next(c, s, step).value;
    forall q | q in t.requests ensures ScanOk(c, t.users, t.requests[q]) {
      if Owner(step) != Some(q) {
        assert ScanOk(c, s.users, s.requests[q]);
      }
    }
  }

  lemma OwnScanOk(c: Config, s: State, step: Step)
    requires ScansOk(c, s) && Next(c, s, step).Some? && Owner(step).Some?
    ensures var t := Next(c, s, step).value;
            step.p in t.requests ==> ScanOk(c, t.users, t.requests[step.p])
  {
    StepFrame(c, s, step);
    if step.p in s.requests { assert ScanOk(c, s.users, s.requests[step.p]); }
    if step.ListUsers? {
      ListScanOk(c, s, step.p, step.fails);
    } else if step.GetOtherUser? {
      OtherScanOk(c, s, step.p, step.name, step.fails);
    } else if step.SetPassword? {
      PasswordScanOk(c, s, step.p, step.fails);
    } else if !Carries(step) {
      hide Next;
    }
  }

  lemma ListScanOk(c: Config, s: State, p: nat, fails: bool)
    requires NextListUsers(s, p, fails).Some?
    ensures var t := NextListUsers(s, p, fails).value;
            p in t.requests ==> ScanOk(c, t.users, t.requests[p])
  {
  }

  lemma OtherScanOk(c: Config, s: State, p: nat, name: string, fails: bool)
    requires NextGetOther(c, s, p, name, fails).Some? && ScanOk(c, s.users, s.requests[p])
    ensures var t := NextGetOther(c, s, p, name, fails).value;
            p in t.requests ==> ScanOk(c, t.users, t.requests[p])
  {
  }

  lemma PasswordScanOk(c: Config, s: State, p: nat, fails: bool)
    requires NextSetPassword(c, s, p, fails).Some? && ScanOk(c, s.users, s.requests[p])
    ensures var t := NextSetPassword(c, s, p, fails).value;
            p in t.requests ==> ScanOk(c, t.users, t.requests[p])
  {
  }

  lemma StepDistinctEmails(c: Config, s: State, step: Step)
    requires DistinctEmails(c, s.users) && ScansOk(c, s) && Next(c, s, step).Some?
    ensures DistinctEmails(c, Next(c, s, step).value.users)
  {
    StepFrame(c, s, step);
    if step.StoreUser? {
      assert ScanOk(c, s.users, s.requests[step.p]);
      StoreDistinct(c, s, step.p, step.revision, step.fails);
    } else {
      hide Next;
    }
  }

  lemma StoreDistinct(c: Config, s: State, p: nat, revision: string, fails: bool)
    requires DistinctEmails(c, s.users) && NextStoreUser(s, p, revision, fails).Some?
    requires ScanOk(c, s.users, s.requests[p])
    ensures DistinctEmails(c, NextStoreUser(s, p, revision, fails).value.users)
  {
  }

  /** From a store that checkUserEmails accepts, no run gives two users emails that differ in case only,
      although deletes do not take the lock. */
  lemma {:induction false} PrincipalsStayDistinct(c: Config, s: State, steps: seq<Step>)
    requires DistinctEmails(c, s.users) && LockOk(s) && ScansOk(c, s) && Run(c, s, steps).Some?
    ensures DistinctEmails(c, Run(c, s, steps).value.users)
    decreases |steps|
  {
    if steps != [] {
      StepDistinctEmails(c, s, steps[0]);
      StepLockOk(c, s, steps[0]);
      StepScansOk(c, s, steps[0]);
      PrincipalsStayDistinct(c, Next(c, s, steps[0]).value, steps[1..]);
    }
  }

  /** Two sessions in use with NameIDs that differ in case only belong to the same user. */
  lemma OnePrincipalOneUser(c: Config, s: State, steps: seq<Step>, i: string, j: string)
    requires Init(s) && DistinctEmails(c, s.users) && Run(c, s, steps).Some?
    requires var t := Run(c, s, steps).value;
             && Usable(t, i) && Usable(t, j)
             && t.sessions[i].session.nameID != "" && t.sessions[j].session.nameID != ""
             && c.fold(t.sessions[i].session.nameID) == c.fold(t.sessions[j].session.nameID)
    ensures var t := Run(c, s, steps).value;
            t.sessions[i].session.userName == t.sessions[j].session.userName
  {
    RunCoherent(c, s, steps);
    PrincipalsStayDistinct(c, s, steps);
    var t := Run(c, s, steps).value;
    assert FromVersion(t, t.sessions[i]) && FromVersion(t, t.sessions[j]);
  }
}
