/** The manager object: three maps changed by its methods. */
module AuthManager {
  import opened Text
  import opened AuthModel

  class Manager {
    const config: Config
    var users: map<string, User>
    var sessions: map<string, Session>
    var failures: map<string, Failure>

    ghost function Abs(): State
      reads this
    {
      State(users, sessions, failures)
    }

    constructor (config: Config, users: map<string, User>)
      ensures this.config == config && Abs() == State(users, map[], map[])
    {
      this.config := config;
      this.users, sessions, failures := users, map[], map[];
    }

    /** Counts a failed login; the count starts again after a quiet time and when it locks. */
    method FailLocked(key: string, now: int)
      modifies this`failures
      ensures Abs() == old(Abs()).(failures := old(failures)[key := Failed(FailureOf(old(Abs()), key), now, config)])
    {
      var f := if key in failures then failures[key] else Failure(0, None, None);
      if f.last.None? || now - f.last.value > FAILURE_WINDOW {
        f := f.(count := 0);
      }
      f := f.(count := f.count + 1, last := Some(now));
      if f.count >= config.maxFailures {
        f := f.(lockedUntil := Some(now + config.lockout), count := 0);
      }
      failures := failures[key := f];
    }

    /** Checks the second factor; a recovery code that fits is taken off the user's list. */
    method VerifyMfaLocked(k: string, code: string, now: int) returns (ok: bool)
      requires k in users
      modifies this`users
      ensures var r := CheckMfa(old(users)[k], config, code, now); ok == r.1 && users == old(users)[k := r.0]
    {
      hide Trim, Upper;
      var u := users[k];
      assert users == users[k := u];
      var t := Trim(code);
      if t == "" {
        return false;
      }
      if config.totpCode(u.totpSecret, t, now) {
        return true;
      }
      var h := config.hash(Upper(t));
      for i := 0 to |u.recovery|
        invariant forall j :: 0 <= j < i ==> u.recovery[j] != h
        invariant users == old(users)
      {
        if u.recovery[i] == h {
          FirstAt(u.recovery, h, i);
          users := users[k := u.(recovery := u.recovery[..i] + u.recovery[i + 1..])];
          return true;
        }
      }
      return false;
    }

    method LogIn(username: string, password: string, code: string, ip: string, issued: Option<string>, now: int)
      returns (out: Outcome)
      modifies this
      ensures (Abs(), out) == Step(old(Abs()), config, Login(username, password, code, ip, issued, now))
    {
      hide Normalize, Failed, CheckMfa;
      var key := Normalize(username);
      var fk := key + "|" + ip;
      if fk in failures && failures[fk].lockedUntil.Some? && now < failures[fk].lockedUntil.value {
        return Denied;
      }
      if key !in users || users[key].disabled || !config.verify(users[key].secret, password) {
        FailLocked(fk, now);
        return Denied;
      }
      if users[key].totp {
        MfaFailsUnchanged(users[key], config, code, now);
        assert users[key := users[key]] == users;
        var ok := VerifyMfaLocked(key, code, now);
        if !ok {
          FailLocked(fk, now);
          return Denied;
        }
      } else {
        assert users[key := users[key]] == users;
      }
      failures := failures - {fk};
      if issued.None? {
        return Denied;
      }
      var u := users[key];
      sessions := sessions[issued.value := Session(u.name, u.role, now + config.idle, now + config.absolute, false)];
      return Accepted(u.name, u.role, u.mustChange);
    }

    method CreateExternalSession(username: string, role: string, issued: Option<string>, now: int) returns (out: Outcome)
      modifies this
      ensures (Abs(), out) == Step(old(Abs()), config, ExternalLogin(username, role, issued, now))
    {
      var r := role;
      if !ValidRole(r) {
        r := "viewer";
      }
      if issued.None? {
        return Denied;
      }
      sessions := sessions[issued.value := Session(username, r, now + config.idle, now + config.absolute, true)];
      return Accepted(username, r, false);
    }

    method AuthenticateRequest(cookie: string, now: int) returns (out: Outcome)
      modifies this
      ensures (Abs(), out) == Step(old(Abs()), config, Authenticate(cookie, now))
    {
      hide Normalize;
      if cookie == "" || cookie !in sessions {
        return Denied;
      }
      var x := sessions[cookie];
      if now > x.expires || now > x.absolute {
        sessions := sessions - {cookie};
        return Denied;
      }
      if x.external {
        sessions := sessions[cookie := x.(expires := now + config.idle)];
        return Accepted(x.user, x.role, false);
      }
      var k := Normalize(x.user);
      if k !in users || users[k].disabled {
        sessions := sessions - {cookie};
        return Denied;
      }
      sessions := sessions[cookie := x.(expires := now + config.idle)];
      return Accepted(users[k].name, users[k].role, users[k].mustChange);
    }

    method RevalidatePrincipal(sid: string, now: int) returns (out: Outcome)
      modifies this
      ensures (Abs(), out) == Step(old(Abs()), config, Revalidate(sid, now))
    {
      hide Normalize;
      if sid == "" || sid !in sessions {
        return Denied;
      }
      var x := sessions[sid];
      if now > x.expires || now > x.absolute {
        sessions := sessions - {sid};
        return Denied;
      }
      if x.external {
        return Accepted(x.user, x.role, false);
      }
      var k := Normalize(x.user);
      if k !in users || users[k].disabled {
        sessions := sessions - {sid};
        return Denied;
      }
      return Accepted(users[k].name, users[k].role, users[k].mustChange);
    }

    /** Goes over the sessions and drops those of a user. */
    method DropSessions(user: string, keepEmpty: bool)
      modifies this`sessions
      ensures sessions == if keepEmpty then DropSessionsOf(old(sessions), user) else WithoutUser(old(sessions), user)
    {
      var todo := sessions.Keys;
      while todo != {}
        invariant todo <= old(sessions).Keys && todo <= sessions.Keys <= old(sessions).Keys
        invariant forall sid :: sid in sessions ==> sessions[sid] == old(sessions)[sid]
        invariant forall sid :: sid in old(sessions) && sid !in todo ==>
          (sid in sessions <==> !(old(sessions)[sid].user == user && (sid != "" || !keepEmpty)))
        decreases |todo|
      {
        var sid :| sid in todo;
        if sessions[sid].user == user && (sid != "" || !keepEmpty) {
          sessions := sessions - {sid};
        }
        todo := todo - {sid};
      }
    }

    method SetPasswordLocked(k: string, next: string, secret: string, must: bool, saved: bool) returns (out: Outcome)
      requires k in users
      modifies this
      ensures (Abs(), out) == SetPassword(old(Abs()), config, k, next, secret, must, saved)
    {
      hide ValidPassword, DropSessionsOf, WithoutUser;
      if !ValidPassword(next, config.minLength) {
        return Denied;
      }
      var u := users[k];
      users := users[k := u.(secret := secret, mustChange := must)];
      DropSessions(u.name, true);
      return Save(saved);
    }

    method EnabledAdminsLocked() returns (n: nat)
      ensures n == |EnabledAdmins(users)|
    {
      n := 0;
      ghost var seen: set<string> := {};
      var todo := users.Keys;
      while todo != {}
        invariant todo <= users.Keys && seen == (set k | k in users && k !in todo && EnabledAdmin(users[k])) && n == |seen|
        decreases |todo|
      {
        var k :| k in todo;
        todo := todo - {k};
        if users[k].role == "admin" && !users[k].disabled {
          n := n + 1;
          seen := seen + {k};
        }
      }
      assert seen == EnabledAdmins(users);
    }

    /** Gives the sessions of a user the user's new role. */
    method CopyRole(user: string, role: string)
      modifies this`sessions
      ensures sessions == WithRole(old(sessions), user, role)
    {
      var todo := sessions.Keys;
      while todo != {}
        invariant todo <= sessions.Keys == old(sessions).Keys
        invariant forall sid :: sid in todo ==> sessions[sid] == old(sessions)[sid]
        invariant forall sid :: sid in sessions && sid !in todo ==> sessions[sid] == WithRole(old(sessions), user, role)[sid]
        decreases |todo|
      {
        var sid :| sid in todo;
        if sessions[sid].user == user {
          sessions := sessions[sid := sessions[sid].(role := role)];
        }
        todo := todo - {sid};
      }
    }

    method ChangeRole(username: string, role: string, saved: bool) returns (out: Outcome)
      modifies this
      ensures (Abs(), out) == Step(old(Abs()), config, SetRole(username, role, saved))
    {
      hide Normalize, EnabledAdmins, WithRole;
      var k := Normalize(username);
      if !ValidRole(role) || k !in users {
        return Denied;
      }
      var u := users[k];
      var admins := EnabledAdminsLocked();
      if u.role == "admin" && role != "admin" && !u.disabled && admins <= 1 {
        return Denied;
      }
      users := users[k := u.(role := role)];
      CopyRole(u.name, role);
      return Save(saved);
    }

    method ChangeDisabled(username: string, disabled: bool, saved: bool) returns (out: Outcome)
      modifies this
      ensures (Abs(), out) == Step(old(Abs()), config, SetDisabled(username, disabled, saved))
    {
      hide Normalize, EnabledAdmins, DropSessionsOf, WithoutUser;
      var k := Normalize(username);
      if k !in users {
        return Denied;
      }
      var u := users[k];
      var admins := EnabledAdminsLocked();
      if disabled && u.role == "admin" && !u.disabled && admins <= 1 {
        return Denied;
      }
      users := users[k := u.(disabled := disabled)];
      if disabled {
        DropSessions(u.name, false);
      }
      return Save(saved);
    }

    method AddUser(username: string, role: string, password: string, secret: string, must: bool, saved: bool)
      returns (out: Outcome)
      modifies this
      ensures (Abs(), out) == Step(old(Abs()), config, CreateUser(username, role, password, secret, must, saved))
    {
      hide Normalize, Trim, ValidPassword, ValidName;
      var k := Normalize(username);
      if k in users {
        return Denied;
      }
      var name := Trim(username);
      if !ValidName(name) || !ValidRole(role) || !ValidPassword(password, config.minLength) {
        return Denied;
      }
      users := users[k := User(name, role, secret, must, false, false, "", [])];
      return Save(saved);
    }

    method StopTotp(username: string, password: string, code: string, now: int, saved: bool) returns (out: Outcome)
      modifies this
      ensures (Abs(), out) == Step(old(Abs()), config, DisableTotp(username, password, code, now, saved))
    {
      hide Normalize, CheckMfa;
      var k := Normalize(username);
      if k !in users || !config.verify(users[k].secret, password) {
        return Denied;
      }
      ghost var was := users[k];
      if users[k].totp {
        MfaFailsUnchanged(users[k], config, code, now);
        assert users[k := users[k]] == users;
        var ok := VerifyMfaLocked(k, code, now);
        if !ok {
          return Denied;
        }
      }
      var u := users[k];
      assert u.(recovery := was.recovery) == was;
      users := users[k := u.(totp := false, totpSecret := "", recovery := [])];
      assert users == old(users)[k := was.(totp := false, totpSecret := "", recovery := [])];
      return Save(saved);
    }
  }

  lemma {:induction false} FirstAt(xs: seq<string>, h: string, i: nat)
    requires i < |xs| && xs[i] == h && forall j :: 0 <= j < i ==> xs[j] != h
    ensures h in xs && WithoutFirst(xs, h) == xs[..i] + xs[i + 1..]
    decreases i
  {
    if i > 0 {
      FirstAt(xs[1..], h, i - 1);
      assert xs[..i] + xs[i + 1..] == [xs[0]] + (xs[1..][..i - 1] + xs[1..][i..]);
    }
  }

  /** A refused code leaves the user as it was, an accepted one all but the recovery codes. */
  lemma MfaFailsUnchanged(u: User, c: Config, code: string, now: int)
    ensures var r := CheckMfa(u, c, code, now); (!r.1 ==> r.0 == u) && r.0.(recovery := u.recovery) == u
  {
    hide Trim, TimeCode, RecoveryHash;
  }
}
