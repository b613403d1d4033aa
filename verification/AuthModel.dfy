/** Users, sessions and login failures of the authentication manager, one step per operation. */
module AuthModel {
  import opened Text

  // ---- Entities -----------------------------------------------------------------------------------

  /** `secret` is the salted password hash, which only `verify` can check a password against;
      `recovery` holds the hashes of the recovery codes not used so far. */
  datatype User = User(name: string, role: string, secret: string, mustChange: bool, disabled: bool,
                       totp: bool, totpSecret: string, recovery: seq<string>)

  /** An external session was opened for a user of another identity provider. */
  datatype Session = Session(user: string, role: string, expires: int, absolute: int, external: bool)
  datatype Failure = Failure(count: nat, lockedUntil: Option<int>, last: Option<int>)

  datatype State = State(users: map<string, User>, sessions: map<string, Session>, failures: map<string, Failure>)

  datatype Config = Config(idle: nat, absolute: nat, maxFailures: nat, lockout: nat, minLength: nat,
                           verify: (string, string) -> bool, totpCode: (string, string, int) -> bool,
                           hash: string -> string)

  const FAILURE_WINDOW := 15 * 60 * 1_000_000_000

  function Normalize(name: string): string { Lower(Trim(name)) }

  predicate ValidRole(role: string) { role == "admin" || role == "analyst" || role == "responder" || role == "viewer" }

  predicate UpperLetter(c: char) { 'A' <= c <= 'Z' }
  predicate LowerLetter(c: char) { 'a' <= c <= 'z' }
  predicate DigitChar(c: char) { '0' <= c <= '9' }

  predicate ValidPassword(p: string, minLength: nat) {
    && |p| >= minLength
    && (exists c <- p :: UpperLetter(c)) && (exists c <- p :: LowerLetter(c)) && (exists c <- p :: DigitChar(c))
    && exists c <- p :: !UpperLetter(c) && !LowerLetter(c) && !DigitChar(c)
  }

  // ---- Operations -----------------------------------------------------------------------------------

  /** A session id is missing when the token generator failed.
      `Unsaved`: the operation took effect, but writing the store failed and an error is returned. */
  datatype Outcome = Denied | Done | Unsaved | Accepted(name: string, role: string, mustChange: bool)

  datatype Event =
    | Login(username: string, password: string, code: string, ip: string, issued: Option<string>, now: int)
    | ExternalLogin(username: string, role: string, issued: Option<string>, now: int)
    | Authenticate(cookie: string, now: int)
    | Revalidate(sid: string, now: int)
    | ChangePassword(username: string, current: string, next: string, secret: string, saved: bool)
    | ResetPassword(username: string, next: string, secret: string, must: bool, saved: bool)
    | CreateUser(username: string, role: string, password: string, secret: string, must: bool, saved: bool)
    | SetRole(username: string, role: string, saved: bool)
    | SetDisabled(username: string, disabled: bool, saved: bool)
    | SetupTotp(username: string, secret: string, saved: bool)
    | EnableTotp(username: string, code: string, now: int, codes: seq<string>, saved: bool)
    | DisableTotp(username: string, password: string, code: string, now: int, saved: bool)
    | Logout(sid: string)
    | Prune(now: int)
    | RevokeSession(requester: string, sid: string, admin: bool)
    | RevokeOthers(username: string, keep: string)

  function Save(saved: bool): Outcome { if saved then Done else Unsaved }

  function Failed(f: Failure, now: int, c: Config): Failure {
    var kept := if f.last.Some? && now - f.last.value <= FAILURE_WINDOW then f.count else 0;
    if kept + 1 >= c.maxFailures then Failure(0, Some(now + c.lockout), Some(now))
    else Failure(kept + 1, f.lockedUntil, Some(now))
  }

  function FailureOf(s: State, key: string): Failure {
    if key in s.failures then s.failures[key] else Failure(0, None, None)
  }

  predicate Locked(s: State, key: string, now: int) {
    var f := FailureOf(s, key);
    f.lockedUntil.Some? && now < f.lockedUntil.value
  }

  function FailureKey(username: string, ip: string): string { Normalize(username) + "|" + ip }

  function UpperChar(c: char): char {
    if 'a' <= c <= 'z' then ((c as int) - 32) as char else c
  }

  function Upper(s: string): string {
    seq(|s|, i requires 0 <= i < |s| => UpperChar(s[i]))
  }

  function WithoutFirst(xs: seq<string>, h: string): seq<string> {
    if xs == [] then [] else if xs[0] == h then xs[1..] else [xs[0]] + WithoutFirst(xs[1..], h)
  }

  /** The second factor: a code of the present time, or a recovery code, which is used up. */
  predicate TimeCode(u: User, c: Config, code: string, now: int) { c.totpCode(u.totpSecret, Trim(code), now) }
  function RecoveryHash(c: Config, code: string): string { c.hash(Upper(Trim(code))) }

  function CheckMfa(u: User, c: Config, code: string, now: int): (User, bool) {
    if Trim(code) == "" then (u, false)
    else if TimeCode(u, c, code, now) then (u, true)
    else if RecoveryHash(c, code) in u.recovery then (u.(recovery := WithoutFirst(u.recovery, RecoveryHash(c, code))), true)
    else (u, false)
  }

  predicate Credentials(s: State, c: Config, username: string, password: string, code: string, now: int) {
    var k := Normalize(username);
    && k in s.users && !s.users[k].disabled && c.verify(s.users[k].secret, password)
    && (s.users[k].totp ==> CheckMfa(s.users[k], c, code, now).1)
  }

  /** Right credentials clear the failures and use up a recovery code even when no session follows. */
  function DoLogin(s: State, c: Config, username: string, password: string, code: string, ip: string,
                   issued: Option<string>, now: int): (State, Outcome)
  {
    var fk := FailureKey(username, ip);
    if Locked(s, fk, now) then (s, Denied)
    else if !Credentials(s, c, username, password, code, now) then
      (s.(failures := s.failures[fk := Failed(FailureOf(s, fk), now, c)]), Denied)
    else
      var k := Normalize(username);
      var u := if s.users[k].totp then CheckMfa(s.users[k], c, code, now).0 else s.users[k];
      var s' := s.(users := s.users[k := u], failures := s.failures - {fk});
      if issued.None? then (s', Denied)
      else
        (s'.(sessions := s.sessions[issued.value := Session(u.name, u.role, now + c.idle, now + c.absolute, false)]),
         Accepted(u.name, u.role, u.mustChange))
  }

  /** Another provider vouches for the user; a role that does not exist becomes the least one. */
  function DoExternalLogin(s: State, c: Config, username: string, role: string, issued: Option<string>, now: int):
    (State, Outcome)
  {
    var r := if ValidRole(role) then role else "viewer";
    if issued.None? then (s, Denied)
    else
      (s.(sessions := s.sessions[issued.value := Session(username, r, now + c.idle, now + c.absolute, true)]),
       Accepted(username, r, false))
  }

  predicate Expired(x: Session, now: int) { now > x.expires || now > x.absolute }

  /** The check that both kinds of access share; an unusable session is dropped. */
  function Check(s: State, sid: string, now: int): (State, Outcome) {
    if sid !in s.sessions then (s, Denied)
    else
      var x := s.sessions[sid];
      var k := Normalize(x.user);
      if !Expired(x, now) && x.external then (s, Accepted(x.user, x.role, false))
      else if Expired(x, now) || k !in s.users || s.users[k].disabled then (s.(sessions := s.sessions - {sid}), Denied)
      else (s, Accepted(s.users[k].name, s.users[k].role, s.users[k].mustChange))
  }

  /** A request refreshes the idle deadline. */
  function DoAuthenticate(s: State, c: Config, cookie: string, now: int): (State, Outcome) {
    if cookie == "" then (s, Denied)
    else
      var (s', out) := Check(s, cookie, now);
      if out.Accepted? then (s'.(sessions := s'.sessions[cookie := s'.sessions[cookie].(expires := now + c.idle)]), out)
      else (s', out)
  }

  function DropSessionsOf(sessions: map<string, Session>, user: string): map<string, Session> {
    map sid | sid in sessions && !(sessions[sid].user == user && sid != "") :: sessions[sid]
  }

  function SetPassword(s: State, c: Config, k: string, next: string, secret: string, must: bool, saved: bool): (State, Outcome)
    requires k in s.users
  {
    if !ValidPassword(next, c.minLength) then (s, Denied)
    else
      var u := s.users[k];
      (s.(users := s.users[k := u.(secret := secret, mustChange := must)],
          sessions := DropSessionsOf(s.sessions, u.name)), Save(saved))
  }

  predicate ValidName(name: string) { name != "" && '/' !in name && '\\' !in name && '\0' !in name }

  predicate EnabledAdmin(u: User) { u.role == "admin" && !u.disabled }

  function EnabledAdmins(users: map<string, User>): set<string> {
    set k | k in users && EnabledAdmin(users[k])
  }

  function WithRole(sessions: map<string, Session>, user: string, role: string): map<string, Session> {
    map sid | sid in sessions :: if sessions[sid].user == user then sessions[sid].(role := role) else sessions[sid]
  }

  function DoSetRole(s: State, username: string, role: string, saved: bool): (State, Outcome) {
    var k := Normalize(username);
    if !ValidRole(role) || k !in s.users then (s, Denied)
    else
      var u := s.users[k];
      if u.role == "admin" && role != "admin" && !u.disabled && |EnabledAdmins(s.users)| <= 1 then (s, Denied)
      else (s.(users := s.users[k := u.(role := role)], sessions := WithRole(s.sessions, u.name, role)), Save(saved))
  }

  function WithoutUser(sessions: map<string, Session>, user: string): map<string, Session> {
    map sid | sid in sessions && sessions[sid].user != user :: sessions[sid]
  }

  function DoSetDisabled(s: State, username: string, disabled: bool, saved: bool): (State, Outcome) {
    var k := Normalize(username);
    if k !in s.users then (s, Denied)
    else
      var u := s.users[k];
      if disabled && u.role == "admin" && !u.disabled && |EnabledAdmins(s.users)| <= 1 then (s, Denied)
      else (s.(users := s.users[k := u.(disabled := disabled)],
               sessions := if disabled then WithoutUser(s.sessions, u.name) else s.sessions), Save(saved))
  }

  function DoCreateUser(s: State, c: Config, e: Event): (State, Outcome)
    requires e.CreateUser?
  {
    var k, name := Normalize(e.username), Trim(e.username);
    if k in s.users || !ValidName(name) || !ValidRole(e.role) || !ValidPassword(e.password, c.minLength) then (s, Denied)
    else (s.(users := s.users[k := User(name, e.role, e.secret, e.must, false, false, "", [])]), Save(e.saved))
  }

  function Hashes(c: Config, codes: seq<string>): seq<string> {
    seq(|codes|, i requires 0 <= i < |codes| => c.hash(codes[i]))
  }

  function DoTotp(s: State, c: Config, e: Event): (State, Outcome)
    requires e.SetupTotp? || e.EnableTotp? || e.DisableTotp?
  {
    var k := Normalize(e.username);
    if k !in s.users then (s, Denied)
    else
      var u := s.users[k];
      match e
      case SetupTotp(_, secret, saved) =>
        (s.(users := s.users[k := u.(totp := false, totpSecret := secret, recovery := [])]), Save(saved))
      case EnableTotp(_, code, now, codes, saved) =>
        if u.totpSecret == "" || !c.totpCode(u.totpSecret, code, now) then (s, Denied)
        else (s.(users := s.users[k := u.(totp := true, recovery := Hashes(c, codes))]), Save(saved))
      case DisableTotp(_, password, code, now, saved) =>
        if !c.verify(u.secret, password) || (u.totp && !CheckMfa(u, c, code, now).1) then (s, Denied)
        else (s.(users := s.users[k := u.(totp := false, totpSecret := "", recovery := [])]), Save(saved))
  }

  function Step(s: State, c: Config, e: Event): (State, Outcome) {
    match e
    case Login(username, password, code, ip, issued, now) => DoLogin(s, c, username, password, code, ip, issued, now)
    case ExternalLogin(username, role, issued, now) => DoExternalLogin(s, c, username, role, issued, now)
    case Authenticate(cookie, now) => DoAuthenticate(s, c, cookie, now)
    case Revalidate(sid, now) => if sid == "" then (s, Denied) else Check(s, sid, now)
    case ChangePassword(username, current, next, secret, saved) =>
      var k := Normalize(username);
      if k !in s.users || !c.verify(s.users[k].secret, current) then (s, Denied)
      else SetPassword(s, c, k, next, secret, false, saved)
    case ResetPassword(username, next, secret, must, saved) =>
      if Normalize(username) !in s.users then (s, Denied)
      else SetPassword(s, c, Normalize(username), next, secret, must, saved)
    case CreateUser(_, _, _, _, _, _) => DoCreateUser(s, c, e)
    case SetRole(username, role, saved) => DoSetRole(s, username, role, saved)
    case SetDisabled(username, disabled, saved) => DoSetDisabled(s, username, disabled, saved)
    case SetupTotp(_, _, _) => DoTotp(s, c, e)
    case EnableTotp(_, _, _, _, _) => DoTotp(s, c, e)
    case DisableTotp(_, _, _, _, _) => DoTotp(s, c, e)
    case Logout(sid) => (s.(sessions := s.sessions - {sid}), Done)
    case Prune(now) => (s.(sessions := map sid | sid in s.sessions && !Expired(s.sessions[sid], now) :: s.sessions[sid]), Done)
    case RevokeSession(requester, sid, admin) =>
      if sid !in s.sessions || (!admin && s.sessions[sid].user != requester) then (s, Denied)
      else (s.(sessions := s.sessions - {sid}), Done)
    case RevokeOthers(username, keep) =>
      (s.(sessions := map sid | sid in s.sessions && !(s.sessions[sid].user == username && sid != keep) :: s.sessions[sid]), Done)
  }

  function Run(s: State, c: Config, events: seq<Event>): State
    decreases |events|
  {
    if events == [] then s else Run(Step(s, c, events[0]).0, c, events[1..])
  }
}
