/** What every run of the authentication manager keeps. */
module AuthSafety {
  import opened Text
  import opened AuthModel

  // ---- Well-formed users ----------------------------------------------------------------------

  /** Users are filed under their normalized names; a session that is not external belongs to a
      user by that exact name and carries the user's role. */
  ghost predicate Consistent(s: State) {
    && (forall k <- s.users :: Normalize(s.users[k].name) == k)
    && forall sid <- s.sessions :: !s.sessions[sid].external ==> SessionFits(s.users, s.sessions[sid])
  }

  predicate SessionFits(users: map<string, User>, x: Session) {
    var k := Normalize(x.user);
    k in users && users[k].name == x.user && users[k].role == x.role
  }

  lemma NormalizeOfTrim(name: string)
    ensures Normalize(Trim(name)) == Normalize(name)
  {
    hide Trim;
    TrimIsTrimmed(name);
    TrimIsTrimmed(Trim(name));
  }

  lemma SetRoleFits(s: State, k: string, role: string)
    requires Consistent(s) && k in s.users
    ensures Consistent(s.(users := s.users[k := s.users[k].(role := role)],
                          sessions := WithRole(s.sessions, s.users[k].name, role)))
  {
    hide Normalize;
  }

  lemma SetPasswordFits(s: State, c: Config, k: string, next: string, secret: string, must: bool, saved: bool)
    requires Consistent(s) && k in s.users
    ensures Consistent(SetPassword(s, c, k, next, secret, must, saved).0)
  {
    hide Normalize, ValidPassword;
  }

  lemma CreateUserFits(s: State, c: Config, e: Event)
    requires Consistent(s) && e.CreateUser?
    ensures Consistent(DoCreateUser(s, c, e).0)
  {
    hide Normalize, ValidPassword, Trim, ValidName;
    NormalizeOfTrim(e.username);
  }

  lemma SetDisabledFits(s: State, username: string, disabled: bool, saved: bool)
    requires Consistent(s)
    ensures Consistent(DoSetDisabled(s, username, disabled, saved).0)
  {
    hide Normalize, EnabledAdmins;
  }

  /** Changes to a user that leave name and role alone. */
  lemma UserChangeFits(s: State, k: string, u: User)
    requires Consistent(s) && k in s.users && u.name == s.users[k].name && u.role == s.users[k].role
    ensures Consistent(s.(users := s.users[k := u]))
  {
    hide Normalize;
  }

  lemma NewSessionFits(s: State, sid: string, x: Session)
    requires Consistent(s) && (!x.external ==> SessionFits(s.users, x))
    ensures Consistent(s.(sessions := s.sessions[sid := x]))
  {
    hide SessionFits, Normalize;
  }

  lemma MfaKeepsUser(u: User, c: Config, code: string, now: int)
    ensures CheckMfa(u, c, code, now).0.(recovery := u.recovery) == u
  {
    hide Trim, TimeCode, RecoveryHash;
  }

  lemma LoginFits(s: State, c: Config, username: string, password: string, code: string, ip: string,
                  issued: Option<string>, now: int)
    requires Consistent(s)
    ensures Consistent(DoLogin(s, c, username, password, code, ip, issued, now).0)
  {
    hide Normalize, Locked, Failed, FailureOf, CheckMfa, Consistent, FailureKey;
    var k := Normalize(username);
    FailuresDoNotMatter(s, DoLogin(s, c, username, password, code, ip, issued, now).0.failures);
    if Credentials(s, c, username, password, code, now) {
      MfaKeepsUser(s.users[k], c, code, now);
      var u := if s.users[k].totp then CheckMfa(s.users[k], c, code, now).0 else s.users[k];
      var fs := s.failures - {FailureKey(username, ip)};
      var s1 := s.(failures := fs);
      FailuresDoNotMatter(s, fs);
      UserChangeFits(s1, k, u);
      FiledUnder(s, k);
      NewSessionFits(s1.(users := s.users[k := u]), if issued.Some? then issued.value else "",
                     Session(u.name, u.role, now + c.idle, now + c.absolute, false));
    }
  }

  lemma FiledUnder(s: State, k: string)
    requires Consistent(s) && k in s.users
    ensures Normalize(s.users[k].name) == k
  {
    hide Normalize;
  }

  lemma FailuresDoNotMatter(s: State, fs: map<string, Failure>)
    requires Consistent(s)
    ensures Consistent(s.(failures := fs))
  {
    hide Normalize;
  }

  lemma TotpFits(s: State, c: Config, e: Event)
    requires Consistent(s) && (e.SetupTotp? || e.EnableTotp? || e.DisableTotp?)
    ensures Consistent(DoTotp(s, c, e).0)
  {
    hide Normalize, CheckMfa, Consistent, Hashes;
    var k := Normalize(e.username);
    if k in s.users {
      UserChangeFits(s, k, s.users[k]);
      if DoTotp(s, c, e).0.users != s.users { UserChangeFits(s, k, DoTotp(s, c, e).0.users[k]); }
    }
  }

  lemma FewerSessionsFit(s: State, sessions: map<string, Session>)
    requires Consistent(s)
    requires forall sid <- sessions :: sid in s.sessions && SameOwner(sessions[sid], s.sessions[sid])
    ensures Consistent(s.(sessions := sessions))
  {
    hide Normalize;
  }

  predicate SameOwner(x: Session, y: Session) { x.user == y.user && x.role == y.role && x.external == y.external }

  predicate SessionStep(e: Event) {
    e.Authenticate? || e.Revalidate? || e.Logout? || e.Prune? || e.RevokeSession? || e.RevokeOthers?
  }

  lemma CheckOnlyDrops(s: State, sid: string, now: int)
    ensures var s' := Check(s, sid, now).0; s' == s || s' == s.(sessions := s.sessions - {sid})
  {
    hide Normalize, Expired;
  }

  /** Requests and the ways to end sessions: no user and no owner of a session changes. */
  lemma SessionStepKeeps(s: State, c: Config, e: Event)
    requires SessionStep(e)
    ensures var s' := Step(s, c, e).0;
            && s'.users == s.users && s'.failures == s.failures
            && forall sid <- s'.sessions :: sid in s.sessions && SameOwner(s'.sessions[sid], s.sessions[sid])
  {
    hide Normalize, Expired, Check;
    if e.Authenticate? { CheckOnlyDrops(s, e.cookie, e.now); CheckAccepts(s, e.cookie, e.now); }
    if e.Revalidate? { CheckOnlyDrops(s, e.sid, e.now); }
  }

  lemma CheckAccepts(s: State, sid: string, now: int)
    ensures Check(s, sid, now).1.Accepted? ==> Check(s, sid, now).0 == s && sid in s.sessions
  {
    hide Normalize, Expired;
  }

  lemma SessionStepFits(s: State, c: Config, e: Event)
    requires Consistent(s) && SessionStep(e)
    ensures Consistent(Step(s, c, e).0)
  {
    hide Step, Consistent, SameOwner;
    SessionStepKeeps(s, c, e);
    FewerSessionsFit(s, Step(s, c, e).0.sessions);
  }

  lemma StepKeepsConsistent(s: State, c: Config, e: Event)
    requires Consistent(s)
    ensures Consistent(Step(s, c, e).0)
  {
    hide Normalize, EnabledAdmins, SetPassword, DoCreateUser, DoLogin, DoSetDisabled, DoTotp, WithRole, Consistent, Expired;
    match e
    case Login(username, password, code, ip, issued, now) => LoginFits(s, c, username, password, code, ip, issued, now);
    case ExternalLogin(username, role, issued, now) =>
      if issued.Some? {
        NewSessionFits(s, issued.value, Session(username, if ValidRole(role) then role else "viewer",
                                                now + c.idle, now + c.absolute, true));
      }
    case ChangePassword(username, current, next, secret, saved) =>
      if Normalize(username) in s.users { SetPasswordFits(s, c, Normalize(username), next, secret, false, saved); }
    case ResetPassword(username, next, secret, must, saved) =>
      if Normalize(username) in s.users { SetPasswordFits(s, c, Normalize(username), next, secret, must, saved); }
    case CreateUser(_, _, _, _, _, _) => CreateUserFits(s, c, e);
    case SetRole(username, role, saved) =>
      if Normalize(username) in s.users { SetRoleFits(s, Normalize(username), role); }
    case SetDisabled(username, disabled, saved) => SetDisabledFits(s, username, disabled, saved);
    case SetupTotp(_, _, _) => TotpFits(s, c, e);
    case EnableTotp(_, _, _, _, _) => TotpFits(s, c, e);
    case DisableTotp(_, _, _, _, _) => TotpFits(s, c, e);
    case _ => SessionStepFits(s, c, e);
  }

  // ---- An administrator remains -------------------------------------------------------------------

  ghost predicate HasAdmin(users: map<string, User>) {
    exists k :: k in users && EnabledAdmin(users[k])
  }

  lemma AdminsAreCounted(users: map<string, User>)
    ensures HasAdmin(users) <==> |EnabledAdmins(users)| > 0
  {
    if HasAdmin(users) {
      var k :| k in users && EnabledAdmin(users[k]);
      assert k in EnabledAdmins(users);
    } else {
      assert EnabledAdmins(users) == {};
    }
  }

  /** Changing one user: an administrator remains exactly when the user is one after the change, or
      another is left. */
  lemma AdminAfterUpdate(users: map<string, User>, k: string, u: User)
    requires k in users
    ensures HasAdmin(users[k := u]) <==> EnabledAdmin(u) || EnabledAdmins(users) - {k} != {}
    ensures EnabledAdmin(users[k]) ==> (|EnabledAdmins(users)| <= 1 <==> EnabledAdmins(users) - {k} == {})
    ensures !EnabledAdmin(users[k]) ==> (HasAdmin(users) <==> EnabledAdmins(users) - {k} != {})
  {
    var admins := EnabledAdmins(users);
    var users' := users[k := u];
    if EnabledAdmin(u) { assert k in users' && EnabledAdmin(users'[k]); }
    if HasAdmin(users') {
      var j :| j in users' && EnabledAdmin(users'[j]);
      assert j == k || j in admins - {k};
    }
    if admins - {k} != {} {
      var j :| j in admins - {k};
      assert j in users' && users'[j] == users[j];
    }
    if EnabledAdmin(users[k]) {
      assert k in admins;
      assert admins == (admins - {k}) + {k};
      assert |admins| == |admins - {k}| + 1;
    } else {
      AdminsAreCounted(users);
      assert admins - {k} == admins;
    }
  }

  /** The two guards are exact: with an administrator at hand, a role change or a disabling of an
      existing user is refused if and only if no enabled administrator would be left. */
  lemma GuardsAreExact(s: State, username: string, role: string, disabled: bool, saved: bool)
    requires HasAdmin(s.users) && Normalize(username) in s.users && ValidRole(role)
    ensures var k := Normalize(username); var u := s.users[k];
            && (DoSetRole(s, username, role, saved).1 == Denied <==> !HasAdmin(s.users[k := u.(role := role)]))
            && (DoSetDisabled(s, username, disabled, saved).1 == Denied <==> !HasAdmin(s.users[k := u.(disabled := disabled)]))
  {
    hide Normalize, EnabledAdmins, WithRole, WithoutUser, ValidRole, HasAdmin;
    var k := Normalize(username);
    AdminAfterUpdate(s.users, k, s.users[k].(role := role));
    AdminAfterUpdate(s.users, k, s.users[k].(disabled := disabled));
  }

  lemma GuardedStepKeepsAdmin(s: State, c: Config, e: Event)
    requires HasAdmin(s.users) && (e.SetRole? || e.SetDisabled?)
    ensures HasAdmin(Step(s, c, e).0.users)
  {
    hide Normalize, EnabledAdmins, WithRole, WithoutUser, HasAdmin;
    if Normalize(e.username) in s.users {
      if e.SetRole? && ValidRole(e.role) { GuardsAreExact(s, e.username, e.role, false, e.saved); }
      if e.SetDisabled? { GuardsAreExact(s, e.username, "admin", e.disabled, e.saved); }
    }
  }

  lemma PasswordStepKeepsAdmin(s: State, c: Config, e: Event)
    requires HasAdmin(s.users) && (e.ChangePassword? || e.ResetPassword?)
    ensures HasAdmin(Step(s, c, e).0.users)
  {
    hide Normalize, HasAdmin, ValidPassword, DropSessionsOf;
    var k := Normalize(e.username);
    if k in s.users {
      SameStanding(s.users, k, s.users[k].(secret := e.secret, mustChange := if e.ResetPassword? then e.must else false));
    }
  }

  lemma CreateStepKeepsAdmin(s: State, c: Config, e: Event)
    requires HasAdmin(s.users) && e.CreateUser?
    ensures HasAdmin(Step(s, c, e).0.users)
  {
    hide Normalize, HasAdmin, ValidPassword, ValidName, ValidRole, Trim;
    NewUserKeepsAdmin(s.users, Normalize(e.username), User(Trim(e.username), e.role, e.secret, e.must, false, false, "", []));
  }

  lemma StepKeepsAdmin(s: State, c: Config, e: Event)
    requires HasAdmin(s.users)
    ensures HasAdmin(Step(s, c, e).0.users)
  {
    hide Step, HasAdmin;
    match e
    case Login(_, _, _, _, _, _) => LoginKeepsAdmin(s, c, e);
    case ExternalLogin(_, _, _, _) => ExternalKeepsUsers(s, c, e);
    case SetRole(_, _, _) => GuardedStepKeepsAdmin(s, c, e);
    case SetDisabled(_, _, _) => GuardedStepKeepsAdmin(s, c, e);
    case ChangePassword(_, _, _, _, _) => PasswordStepKeepsAdmin(s, c, e);
    case ResetPassword(_, _, _, _, _) => PasswordStepKeepsAdmin(s, c, e);
    case CreateUser(_, _, _, _, _, _) => CreateStepKeepsAdmin(s, c, e);
    case SetupTotp(_, _, _) => TotpKeepsAdmin(s, c, e);
    case EnableTotp(_, _, _, _, _) => TotpKeepsAdmin(s, c, e);
    case DisableTotp(_, _, _, _, _) => TotpKeepsAdmin(s, c, e);
    case _ => SessionStepKeeps(s, c, e);
  }

  lemma ExternalKeepsUsers(s: State, c: Config, e: Event)
    requires e.ExternalLogin?
    ensures Step(s, c, e).0.users == s.users
  {}

  lemma LoginKeepsAdmin(s: State, c: Config, e: Event)
    requires HasAdmin(s.users) && e.Login?
    ensures HasAdmin(Step(s, c, e).0.users)
  {
    hide Normalize, CheckMfa, HasAdmin, Locked, Failed, FailureOf, FailureKey;
    var k := Normalize(e.username);
    if Credentials(s, c, e.username, e.password, e.code, e.now) {
      var u := s.users[k];
      MfaKeepsUser(u, c, e.code, e.now);
      SameStanding(s.users, k, if u.totp then CheckMfa(u, c, e.code, e.now).0 else u);
    }
  }

  lemma TotpKeepsAdmin(s: State, c: Config, e: Event)
    requires HasAdmin(s.users) && (e.SetupTotp? || e.EnableTotp? || e.DisableTotp?)
    ensures HasAdmin(Step(s, c, e).0.users)
  {
    hide Normalize, CheckMfa, Hashes, HasAdmin;
    var k := Normalize(e.username);
    if k in s.users { SameStanding(s.users, k, DoTotp(s, c, e).0.users[k]); }
  }

  lemma SameStanding(users: map<string, User>, k: string, u: User)
    requires HasAdmin(users) && k in users && u.role == users[k].role && u.disabled == users[k].disabled
    ensures HasAdmin(users[k := u])
  {
    var j :| j in users && EnabledAdmin(users[j]);
    assert EnabledAdmin(users[k := u][j]);
  }

  lemma NewUserKeepsAdmin(users: map<string, User>, k: string, u: User)
    requires HasAdmin(users)
    ensures k !in users ==> HasAdmin(users[k := u])
  {
    var j :| j in users && EnabledAdmin(users[j]);
    if k !in users { assert users[k := u][j] == users[j]; }
  }

  /** Over every run that starts with an enabled administrator, one exists. */
  lemma {:induction false} AdminRemains(s: State, c: Config, events: seq<Event>)
    requires HasAdmin(s.users) && Consistent(s)
    ensures HasAdmin(Run(s, c, events).users) && Consistent(Run(s, c, events))
    decreases |events|
  {
    hide Step, HasAdmin, Consistent;
    if events != [] {
      StepKeepsAdmin(s, c, events[0]);
      StepKeepsConsistent(s, c, events[0]);
      AdminRemains(Step(s, c, events[0]).0, c, events[1..]);
    }
  }

  // ---- Sessions ---------------------------------------------------------------------------------------

  /** A run with its history: for each session id when and by whom it was logged in, and when it
      was last used - at login or by an accepted request. */
  datatype Trace = Trace(state: State, born: map<string, int>, used: map<string, int>, owner: map<string, string>)

  /** The session id that a login of either kind hands out. */
  function Issued(s: State, c: Config, e: Event): Option<string> {
    if (e.Login? || e.ExternalLogin?) && Step(s, c, e).1.Accepted? then e.issued else None
  }

  function Traced(t: Trace, c: Config, e: Event): Trace {
    var (s', out) := Step(t.state, c, e);
    var id := Issued(t.state, c, e);
    if id.Some? then Trace(s', t.born[id.value := e.now], t.used[id.value := e.now], t.owner[id.value := out.name])
    else if e.Authenticate? && out.Accepted? then t.(state := s', used := t.used[e.cookie := e.now])
    else t.(state := s')
  }

  function TraceRun(t: Trace, c: Config, events: seq<Event>): Trace
    decreases |events|
  {
    if events == [] then t else TraceRun(Traced(t, c, events[0]), c, events[1..])
  }

  /** The deadlines of a session are what its history says. */
  ghost predicate Dated(t: Trace, c: Config) {
    forall sid <- t.state.sessions :: SessionDated(t, c, sid)
  }

  ghost predicate SessionDated(t: Trace, c: Config, sid: string)
    requires sid in t.state.sessions
  {
    var x := t.state.sessions[sid];
    && sid in t.born && sid in t.used && sid in t.owner
    && x.expires == t.used[sid] + c.idle && x.absolute == t.born[sid] + c.absolute && x.user == t.owner[sid]
  }

  /** Outside logins and accepted requests no session is added, and none changes its deadlines or
      its user: in particular revalidation never extends one. */
  lemma OnlyUseExtends(s: State, c: Config, e: Event, sid: string)
    requires sid in Step(s, c, e).0.sessions
    requires Issued(s, c, e) != Some(sid) && !(e.Authenticate? && e.cookie == sid)
    ensures sid in s.sessions
    ensures var x, x' := s.sessions[sid], Step(s, c, e).0.sessions[sid];
            x'.expires == x.expires && x'.absolute == x.absolute && x'.user == x.user && x'.external == x.external
  {
    hide Normalize, EnabledAdmins, ValidPassword, ValidName, Credentials, Locked, Expired, Failed, DoTotp, CheckMfa,
      ValidRole, Check, Trim;
    if SessionStep(e) {
      SessionStepKeepsDates(s, c, e, sid);
    } else if e.SetupTotp? || e.EnableTotp? || e.DisableTotp? {
      TotpKeepsSessions(s, c, e);
    }
  }

  lemma SessionStepKeepsDates(s: State, c: Config, e: Event, sid: string)
    requires SessionStep(e) && sid in Step(s, c, e).0.sessions && !(e.Authenticate? && e.cookie == sid)
    ensures sid in s.sessions && Step(s, c, e).0.sessions[sid] == s.sessions[sid]
  {
    hide Normalize, Expired, Check;
    if e.Authenticate? { CheckOnlyDrops(s, e.cookie, e.now); CheckAccepts(s, e.cookie, e.now); }
    if e.Revalidate? { CheckOnlyDrops(s, e.sid, e.now); }
  }

  lemma TotpKeepsSessions(s: State, c: Config, e: Event)
    requires e.SetupTotp? || e.EnableTotp? || e.DisableTotp?
    ensures DoTotp(s, c, e).0.sessions == s.sessions
  {
    hide Normalize, CheckMfa, Hashes;
  }

  /** What a login of either kind, and a request, do to the session they name. */
  lemma UsedStep(s: State, c: Config, e: Event)
    ensures var id := Issued(s, c, e); id.Some? ==>
              id.value in Step(s, c, e).0.sessions &&
              var x := Step(s, c, e).0.sessions[id.value];
              x.expires == e.now + c.idle && x.absolute == e.now + c.absolute && x.user == Step(s, c, e).1.name
              && x.external == e.ExternalLogin?
    ensures e.Authenticate? && e.cookie in Step(s, c, e).0.sessions ==>
              e.cookie in s.sessions &&
              var x := Step(s, c, e).0.sessions[e.cookie];
              if Step(s, c, e).1.Accepted? then x == s.sessions[e.cookie].(expires := e.now + c.idle)
              else x == s.sessions[e.cookie]
  {
    hide Normalize, Credentials, Locked, Expired, Failed, CheckMfa, ValidRole, DoTotp;
  }

  lemma TracedState(t: Trace, c: Config, e: Event)
    ensures Traced(t, c, e).state == Step(t.state, c, e).0
  {
    hide Step;
  }

  /** A session that was not named in the step keeps its history. */
  lemma TracedOthers(t: Trace, c: Config, e: Event, sid: string)
    requires Issued(t.state, c, e) != Some(sid) && !(e.Authenticate? && e.cookie == sid)
    ensures var t' := Traced(t, c, e);
            && (sid in t'.born <==> sid in t.born) && (sid in t.born ==> t'.born[sid] == t.born[sid])
            && (sid in t'.used <==> sid in t.used) && (sid in t.used ==> t'.used[sid] == t.used[sid])
            && (sid in t'.owner <==> sid in t.owner) && (sid in t.owner ==> t'.owner[sid] == t.owner[sid])
  {
    hide Step;
  }

  lemma TracedNamed(t: Trace, c: Config, e: Event, sid: string)
    requires Dated(t, c) && sid in Step(t.state, c, e).0.sessions
    requires Issued(t.state, c, e) == Some(sid) || (e.Authenticate? && e.cookie == sid)
    ensures Traced(t, c, e).state == Step(t.state, c, e).0 && SessionDated(Traced(t, c, e), c, sid)
  {
    hide Step;
    UsedStep(t.state, c, e);
  }

  lemma TracedKeepsDated(t: Trace, c: Config, e: Event)
    requires Dated(t, c)
    ensures Dated(Traced(t, c, e), c)
  {
    hide Step, Traced, Issued;
    var t' := Traced(t, c, e);
    TracedState(t, c, e);
    forall sid | sid in t'.state.sessions ensures SessionDated(t', c, sid) {
      if Issued(t.state, c, e) == Some(sid) || (e.Authenticate? && e.cookie == sid) {
        TracedNamed(t, c, e, sid);
      } else {
        OnlyUseExtends(t.state, c, e, sid);
        TracedOthers(t, c, e, sid);
        assert SessionDated(t, c, sid);
      }
    }
  }

  lemma {:induction false} TraceKeeps(t: Trace, c: Config, events: seq<Event>)
    requires Dated(t, c) && Consistent(t.state)
    ensures Dated(TraceRun(t, c, events), c) && Consistent(TraceRun(t, c, events).state)
    decreases |events|
  {
    hide Step, Dated, Consistent;
    if events != [] {
      TracedKeepsDated(t, c, events[0]);
      StepKeepsConsistent(t.state, c, events[0]);
      TraceKeeps(Traced(t, c, events[0]), c, events[1..]);
    }
  }

  /** Over every run: a session is accepted only as the user who logged in, within the idle time of
      the login or of the last accepted request, and within the absolute time of the login; unless
      it is external, the user exists, is enabled and has the role. */
  lemma AcceptedIsFresh(t: Trace, c: Config, events: seq<Event>, sid: string, now: int, e: Event)
    requires Dated(t, c) && Consistent(t.state)
    requires e == Authenticate(sid, now) || e == Revalidate(sid, now)
    ensures var t' := TraceRun(t, c, events); var out := Step(t'.state, c, e).1;
            out.Accepted? ==>
              && sid in t'.owner && sid in t'.used && sid in t'.born && out.name == t'.owner[sid]
              && now <= t'.used[sid] + c.idle && now <= t'.born[sid] + c.absolute
              && sid in t'.state.sessions
              && var k := Normalize(out.name);
                 (!t'.state.sessions[sid].external ==>
                   k in t'.state.users && !t'.state.users[k].disabled && out.role == t'.state.users[k].role)
  {
    hide Normalize, Step, SessionFits;
    TraceKeeps(t, c, events);
    var t' := TraceRun(t, c, events);
    AcceptedMeans(t'.state, c, e, sid, now);
    if Step(t'.state, c, e).1.Accepted? {
      assert SessionDated(t', c, sid);
      var x := t'.state.sessions[sid];
      if !x.external {
        FitsMeans(t'.state.users, x);
      }
    }
  }

  lemma FitsMeans(users: map<string, User>, x: Session)
    requires SessionFits(users, x)
    ensures var k := Normalize(x.user); k in users && users[k].name == x.user && users[k].role == x.role
  {
    hide Normalize;
  }

  lemma AcceptedMeans(s: State, c: Config, e: Event, sid: string, now: int)
    requires e == Authenticate(sid, now) || e == Revalidate(sid, now)
    ensures var out := Step(s, c, e).1;
            out.Accepted? <==>
              && sid != "" && sid in s.sessions
              && now <= s.sessions[sid].expires && now <= s.sessions[sid].absolute
              && var k := Normalize(s.sessions[sid].user);
                 s.sessions[sid].external || (k in s.users && !s.users[k].disabled)
    ensures var out := Step(s, c, e).1;
            out.Accepted? ==>
              var x := s.sessions[sid];
              out == if x.external then Accepted(x.user, x.role, false)
                     else var u := s.users[Normalize(x.user)]; Accepted(u.name, u.role, u.mustChange)
    ensures Step(s, c, e).1.Accepted? || Step(s, c, e).1 == Denied
  {
    hide Normalize;
  }

  /** A run that never uses the session, however often it revalidates it, leaves its deadlines alone:
      an unattended connection is refused after the idle time. */
  lemma {:induction false} UnattendedExpires(s: State, c: Config, events: seq<Event>, sid: string, now: int)
    requires Unused(events, sid) && sid in s.sessions
    requires now > s.sessions[sid].expires || now > s.sessions[sid].absolute
    ensures Step(Run(s, c, events), c, Authenticate(sid, now)).1 == Denied
    ensures Step(Run(s, c, events), c, Revalidate(sid, now)).1 == Denied
    decreases |events|
  {
    hide Step;
    if events == [] {
      AcceptedMeans(s, c, Authenticate(sid, now), sid, now);
      AcceptedMeans(s, c, Revalidate(sid, now), sid, now);
    } else {
      var s' := Step(s, c, events[0]).0;
      assert Unused(events[1..], sid);
      if sid in s'.sessions {
        OnlyUseExtends(s, c, events[0], sid);
        UnattendedExpires(s', c, events[1..], sid, now);
      } else {
        GoneStaysGone(s', c, events[1..], sid);
        AcceptedMeans(Run(s', c, events[1..]), c, Authenticate(sid, now), sid, now);
        AcceptedMeans(Run(s', c, events[1..]), c, Revalidate(sid, now), sid, now);
      }
    }
  }

  predicate Unused(events: seq<Event>, sid: string) {
    NoLoginAs(events, sid) && forall i :: 0 <= i < |events| ==> !(events[i].Authenticate? && events[i].cookie == sid)
  }

  // ---- Ended sessions stay ended ------------------------------------------------------------------------

  predicate NoLoginAs(events: seq<Event>, sid: string) {
    forall i :: 0 <= i < |events| ==> !((events[i].Login? || events[i].ExternalLogin?) && events[i].issued == Some(sid))
  }

  /** A session that is gone comes back only by a login that issues its id again. */
  lemma {:induction false} GoneStaysGone(s: State, c: Config, events: seq<Event>, sid: string)
    requires sid !in s.sessions && NoLoginAs(events, sid)
    ensures sid !in Run(s, c, events).sessions
    decreases |events|
  {
    hide Step;
    if events != [] {
      UsedStep(s, c, events[0]);
      var s' := Step(s, c, events[0]).0;
      if sid in s'.sessions && !(events[0].Authenticate? && events[0].cookie == sid) {
        OnlyUseExtends(s, c, events[0], sid);
      }
      GoneStaysGone(s', c, events[1..], sid);
    }
  }

  /** A successful password change, by the user or an administrator, ends every session of the user
      there was: none of them is accepted after any run in which no new login issues the same id. */
  lemma PasswordChangeEndsSessions(s: State, c: Config, change: Event, events: seq<Event>, sid: string, now: int)
    requires change.ChangePassword? || change.ResetPassword?
    requires Step(s, c, change).1 != Denied
    requires sid in s.sessions && Normalize(change.username) in s.users
             && s.sessions[sid].user == s.users[Normalize(change.username)].name
    requires NoLoginAs(events, sid)
    ensures Step(Run(Step(s, c, change).0, c, events), c, Authenticate(sid, now)).1 == Denied
    ensures Step(Run(Step(s, c, change).0, c, events), c, Revalidate(sid, now)).1 == Denied
  {
    hide Normalize, Run, Step;
    var s' := Run(Step(s, c, change).0, c, events);
    if sid != "" {
      ChangeDrops(s, c, change, sid);
      GoneStaysGone(Step(s, c, change).0, c, events, sid);
    }
    AcceptedMeans(s', c, Authenticate(sid, now), sid, now);
    AcceptedMeans(s', c, Revalidate(sid, now), sid, now);
  }

  lemma ChangeDrops(s: State, c: Config, change: Event, sid: string)
    requires (change.ChangePassword? || change.ResetPassword?) && Step(s, c, change).1 != Denied
    requires sid in s.sessions && sid != "" && Normalize(change.username) in s.users
             && s.sessions[sid].user == s.users[Normalize(change.username)].name
    ensures sid !in Step(s, c, change).0.sessions
  {
    hide Normalize, ValidPassword;
  }

  // ---- A disabled user stays out ----------------------------------------------------------------------

  predicate IsDisabled(s: State, k: string) { k in s.users && s.users[k].disabled }

  predicate NotEnabled(events: seq<Event>, k: string) {
    forall i :: 0 <= i < |events| ==> !(events[i].SetDisabled? && !events[i].disabled && Normalize(events[i].username) == k)
  }

  lemma DisablingDisables(s: State, c: Config, username: string, saved: bool, sid: string)
    requires Step(s, c, SetDisabled(username, true, saved)).1 != Denied
    ensures var k := Normalize(username); var s' := Step(s, c, SetDisabled(username, true, saved)).0;
            && k in s.users && IsDisabled(s', k)
            && (sid in s'.sessions ==> sid in s.sessions && s.sessions[sid].user != s.users[k].name)
  {
    hide Normalize, EnabledAdmins;
  }

  lemma StaysDisabledStep(s: State, c: Config, e: Event, k: string)
    requires IsDisabled(s, k) && !(e.SetDisabled? && !e.disabled && Normalize(e.username) == k)
    ensures IsDisabled(Step(s, c, e).0, k)
  {
    hide Normalize, EnabledAdmins, ValidPassword, ValidName, Credentials, Locked, Expired, Failed, CheckMfa,
      DropSessionsOf, WithRole, WithoutUser, Hashes;
    if e.Login? && Normalize(e.username) in s.users { MfaKeepsUser(s.users[Normalize(e.username)], c, e.code, e.now); }
  }

  lemma {:induction false} StaysDisabled(s: State, c: Config, events: seq<Event>, k: string)
    requires IsDisabled(s, k) && NotEnabled(events, k)
    ensures IsDisabled(Run(s, c, events), k)
    decreases |events|
  {
    hide Step, IsDisabled, Normalize;
    if events != [] {
      StaysDisabledStep(s, c, events[0], k);
      StaysDisabled(Step(s, c, events[0]).0, c, events[1..], k);
    }
  }

  lemma DisabledCannotLogin(s: State, c: Config, e: Event)
    requires e.Login? && IsDisabled(s, Normalize(e.username))
    ensures Step(s, c, e).1 == Denied
  {
    hide Normalize, Locked, Failed, CheckMfa;
  }

  /** After a user is disabled, over every run that does not enable the user again: every login of the
      user is refused, no session is accepted as the user by the local accounts, and the sessions
      there were - external ones under the same name included - are refused unless their id is
      issued again. */
  lemma DisabledStaysOut(s: State, c: Config, username: string, saved: bool, events: seq<Event>, e: Event, sid: string, now: int)
    requires Consistent(s) && Step(s, c, SetDisabled(username, true, saved)).1 != Denied
    requires NotEnabled(events, Normalize(username))
    ensures var k := Normalize(username);
            var s' := Run(Step(s, c, SetDisabled(username, true, saved)).0, c, events);
            && (e.Login? && Normalize(e.username) == k ==> Step(s', c, e).1 == Denied)
            && (e in {Authenticate(sid, now), Revalidate(sid, now)} && Step(s', c, e).1.Accepted? ==>
                 && sid in s'.sessions && (s'.sessions[sid].external || Normalize(Step(s', c, e).1.name) != k)
                 && (NoLoginAs(events, sid) ==> sid in s.sessions && s.sessions[sid].user != s.users[k].name))
  {
    hide Normalize, Run, Step, IsDisabled, NotEnabled, NoLoginAs, Consistent;
    var k := Normalize(username);
    var change := SetDisabled(username, true, saved);
    var s1 := Step(s, c, change).0;
    var s' := Run(s1, c, events);
    DisablingDisables(s, c, username, saved, sid);
    StaysDisabled(s1, c, events, k);
    StepKeepsConsistent(s, c, change);
    RunConsistent(s1, c, events);
    if e.Login? && Normalize(e.username) == k { DisabledCannotLogin(s', c, e); }
    if e in {Authenticate(sid, now), Revalidate(sid, now)} && Step(s', c, e).1.Accepted? {
      AcceptedMeans(s', c, e, sid, now);
      AcceptedIsEnabled(s', sid, k);
      if NoLoginAs(events, sid) && sid !in s1.sessions { GoneStaysGone(s1, c, events, sid); }
    }
  }

  lemma AcceptedIsEnabled(s: State, sid: string, k: string)
    requires Consistent(s) && sid in s.sessions && IsDisabled(s, k)
    ensures var x := s.sessions[sid];
            !x.external && Normalize(x.user) in s.users && !s.users[Normalize(x.user)].disabled ==>
              Normalize(s.users[Normalize(x.user)].name) != k
  {
    hide Normalize;
  }

  lemma {:induction false} RunConsistent(s: State, c: Config, events: seq<Event>)
    requires Consistent(s)
    ensures Consistent(Run(s, c, events))
    decreases |events|
  {
    hide Step, Consistent;
    if events != [] {
      StepKeepsConsistent(s, c, events[0]);
      RunConsistent(Step(s, c, events[0]).0, c, events[1..]);
    }
  }

  // ---- Recovery codes ---------------------------------------------------------------------------------

  lemma {:induction false} WithoutFirstRemoves(xs: seq<string>, h: string)
    requires h in xs
    ensures multiset(WithoutFirst(xs, h)) == multiset(xs) - multiset{h}
    decreases |xs|
  {
    assert xs == [xs[0]] + xs[1..];
    if xs[0] != h { WithoutFirstRemoves(xs[1..], h); }
  }

  /** How often a recovery code with this hash is left to the user. */
  function Left(s: State, k: string, h: string): nat {
    if k in s.users then multiset(s.users[k].recovery)[h] else 0
  }

  /** The login was let in by a recovery code with this hash. */
  predicate UsesCode(s: State, c: Config, e: Event, k: string, h: string) {
    && e.Login? && Normalize(e.username) == k && Step(s, c, e).1.Accepted?
    && k in s.users && s.users[k].totp && !TimeCode(s.users[k], c, e.code, e.now) && RecoveryHash(c, e.code) == h
  }

  function Uses(s: State, c: Config, events: seq<Event>, k: string, h: string): nat
    decreases |events|
  {
    if events == [] then 0
    else (if UsesCode(s, c, events[0], k, h) then 1 else 0) + Uses(Step(s, c, events[0]).0, c, events[1..], k, h)
  }

  predicate NoNewCodes(events: seq<Event>, k: string) {
    forall i :: 0 <= i < |events| ==> !(events[i].EnableTotp? && Normalize(events[i].username) == k)
  }

  lemma MfaUsesUp(u: User, c: Config, code: string, now: int, h: string)
    ensures var r := CheckMfa(u, c, code, now);
            multiset(r.0.recovery)[h] +
            (if r.1 && !TimeCode(u, c, code, now) && RecoveryHash(c, code) == h then 1 else 0) <= multiset(u.recovery)[h]
  {
    hide Trim, TimeCode, RecoveryHash, WithoutFirst;
    if RecoveryHash(c, code) in u.recovery { WithoutFirstRemoves(u.recovery, RecoveryHash(c, code)); }
  }

  lemma LoginUsesUp(s: State, c: Config, e: Event, k: string, h: string)
    requires e.Login?
    ensures (if UsesCode(s, c, e, k, h) then 1 else 0) + Left(Step(s, c, e).0, k, h) <= Left(s, k, h)
  {
    hide Normalize, Locked, Failed, CheckMfa, TimeCode, RecoveryHash, FailureKey, FailureOf;
    if Normalize(e.username) in s.users { MfaUsesUp(s.users[Normalize(e.username)], c, e.code, e.now, h); }
  }

  lemma UserStepKeepsCodes(s: State, c: Config, e: Event, k: string, h: string)
    requires !e.Login? && !e.ExternalLogin? && !SessionStep(e) && !(e.EnableTotp? && Normalize(e.username) == k)
    ensures Left(Step(s, c, e).0, k, h) <= Left(s, k, h)
  {
    hide Normalize, EnabledAdmins, ValidPassword, ValidName, CheckMfa, DropSessionsOf, WithRole, WithoutUser, Hashes,
      ValidRole, Trim;
  }

  lemma OtherKeepsCodes(s: State, c: Config, e: Event, k: string, h: string)
    requires !e.Login? && !(e.EnableTotp? && Normalize(e.username) == k)
    ensures Left(Step(s, c, e).0, k, h) <= Left(s, k, h)
  {
    hide Step, Normalize;
    if SessionStep(e) {
      SessionStepKeeps(s, c, e);
    } else if e.ExternalLogin? {
      ExternalKeepsUsers(s, c, e);
    } else {
      UserStepKeepsCodes(s, c, e, k, h);
    }
  }

  /** Over every run that issues no new codes, a recovery code lets its user in at most as often as it
      is on the list - once, when the codes differ - and what was used is no longer left. */
  lemma {:induction false} CodesAreUsedUp(s: State, c: Config, events: seq<Event>, k: string, h: string)
    requires NoNewCodes(events, k)
    ensures Uses(s, c, events, k, h) + Left(Run(s, c, events), k, h) <= Left(s, k, h)
    decreases |events|
  {
    hide Step, Normalize, UsesCode, Left;
    if events != [] {
      var e := events[0];
      if e.Login? { LoginUsesUp(s, c, e, k, h); } else { OtherKeepsCodes(s, c, e, k, h); NotUsed(s, c, e, k, h); }
      CodesAreUsedUp(Step(s, c, e).0, c, events[1..], k, h);
    }
  }

  lemma NotUsed(s: State, c: Config, e: Event, k: string, h: string)
    requires !e.Login?
    ensures !UsesCode(s, c, e, k, h)
  {
    hide Step, Normalize, TimeCode, RecoveryHash;
  }

  // ---- Lockout ------------------------------------------------------------------------------------------

  /** Failing logins of one user from one address, each within the window of the one before. */
  ghost predicate FailingLogins(events: seq<Event>, key: string, c: Config) {
    && (forall i :: 0 <= i < |events| ==> events[i].Login? && FailureKey(events[i].username, events[i].ip) == key)
    && forall i :: 0 < i < |events| ==> events[i].now - events[i - 1].now <= FAILURE_WINDOW
  }

  /** None of the logins is locked out before, and none has the right credentials. */
  ghost predicate AllFail(s: State, c: Config, events: seq<Event>)
    decreases |events|
  {
    events == [] ||
    (events[0].Login? && !Credentials(s, c, events[0].username, events[0].password, events[0].code, events[0].now)
     && !Locked(s, FailureKey(events[0].username, events[0].ip), events[0].now)
     && AllFail(Step(s, c, events[0]).0, c, events[1..]))
  }

  /** After as many failures in a row as are allowed, every login is refused for the lockout time,
      whatever the password. */
  lemma {:induction false} FailuresLock(s: State, c: Config, events: seq<Event>, key: string, e: Event)
    requires FailingLogins(events, key, c) && AllFail(s, c, events) && events != []
    requires var f := FailureOf(s, key);
             var before := if f.last.Some? && events[0].now - f.last.value <= FAILURE_WINDOW then f.count else 0;
             before + |events| == c.maxFailures
    requires e.Login? && FailureKey(e.username, e.ip) == key && e.now < events[|events| - 1].now + c.lockout
    ensures Step(Run(s, c, events), c, e).1 == Denied
    decreases |events|
  {
    hide Step, Run, Credentials, FailureKey;
    var first := events[0];
    FailedStep(s, c, first);
    var s' := Step(s, c, first).0;
    RunStep(s, c, events);
    if |events| == 1 {
      assert events[1..] == [];
      NothingRun(s', c);
      LockedIsDenied(s', c, e);
    } else {
      assert events[1].now - first.now <= FAILURE_WINDOW;
      FailuresLock(s', c, events[1..], key, e);
    }
  }

  lemma FailedStep(s: State, c: Config, e: Event)
    requires e.Login? && !Credentials(s, c, e.username, e.password, e.code, e.now) && !Locked(s, FailureKey(e.username, e.ip), e.now)
    ensures var fk := FailureKey(e.username, e.ip); FailureOf(Step(s, c, e).0, fk) == Failed(FailureOf(s, fk), e.now, c)
  {
    hide Credentials, Failed;
  }

  lemma LockedIsDenied(s: State, c: Config, e: Event)
    requires e.Login? && Locked(s, FailureKey(e.username, e.ip), e.now)
    ensures Step(s, c, e).1 == Denied
  {
    hide Locked;
  }

  lemma RunStep(s: State, c: Config, events: seq<Event>)
    requires events != []
    ensures Run(s, c, events) == Run(Step(s, c, events[0]).0, c, events[1..])
  {
    hide Step;
  }

  lemma NothingRun(s: State, c: Config)
    ensures Run(s, c, []) == s
  {}
}
