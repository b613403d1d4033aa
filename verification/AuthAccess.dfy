/** Who is let in, and who can change what: the operations of the authentication manager said in terms
    of users, sessions and failures alone, and what follows over runs. */
module AuthAccess {
  import opened Text
  import opened AuthModel
  import opened AuthSafety

  // ---- Codes and passwords ---------------------------------------------------------------------------

  /** A recovery code as it was issued, without small letters; it may be typed in either case. */
  predicate Issued(raw: string) { forall i :: 0 <= i < |raw| ==> !('a' <= raw[i] <= 'z') }

  /** A second factor that is let through: not blank, and a code of the present time, or a recovery
      code that is still on the list. */
  ghost predicate GoodCode(u: User, c: Config, code: string, now: int) {
    && Trim(code) != ""
    && (c.totpCode(u.totpSecret, Trim(code), now) ||
        exists raw :: Issued(raw) && SameWord(Trim(code), raw) && c.hash(raw) in u.recovery)
  }

  lemma UpperIsIssued(s: string)
    ensures Issued(Upper(s)) && SameWord(s, Upper(s))
    ensures forall raw :: Issued(raw) && SameWord(s, raw) ==> raw == Upper(s)
  {
    forall raw | Issued(raw) && SameWord(s, raw) ensures raw == Upper(s) {
      forall i | 0 <= i < |s| ensures raw[i] == Upper(s)[i] { assert SameLetter(s[i], raw[i]); }
    }
  }

  lemma GoodCodeIff(u: User, c: Config, code: string, now: int)
    ensures CheckMfa(u, c, code, now).1 <==> GoodCode(u, c, code, now)
  {
    hide Trim, Upper, Issued, SameWord;
    UpperIsIssued(Trim(code));
  }

  datatype Kind = Capital | Small | Figure | Other

  /** There is a character of this kind at `i`. */
  predicate HasAt(p: string, kind: Kind, i: int) {
    0 <= i < |p| &&
    match kind
    case Capital => 'A' <= p[i] <= 'Z'
    case Small => 'a' <= p[i] <= 'z'
    case Figure => '0' <= p[i] <= '9'
    case Other => !('A' <= p[i] <= 'Z') && !('a' <= p[i] <= 'z') && !('0' <= p[i] <= '9')
  }

  ghost predicate Has(p: string, kind: Kind) { exists i :: HasAt(p, kind, i) }

  /** The password policy: long enough, with a capital, a small letter, a digit and something else. */
  ghost predicate GoodPassword(p: string, minLength: nat) {
    |p| >= minLength && Has(p, Capital) && Has(p, Small) && Has(p, Figure) && Has(p, Other)
  }

  lemma HasUpper(p: string)
    ensures Has(p, Capital) <==> exists c <- p :: UpperLetter(c)
  {
    if i :| HasAt(p, Capital, i) { assert p[i] in p && UpperLetter(p[i]); }
    if c :| c in p && UpperLetter(c) { var i :| 0 <= i < |p| && p[i] == c; assert HasAt(p, Capital, i); }
  }

  lemma HasLower(p: string)
    ensures Has(p, Small) <==> exists c <- p :: LowerLetter(c)
  {
    if i :| HasAt(p, Small, i) { assert p[i] in p && LowerLetter(p[i]); }
    if c :| c in p && LowerLetter(c) { var i :| 0 <= i < |p| && p[i] == c; assert HasAt(p, Small, i); }
  }

  lemma HasDigit(p: string)
    ensures Has(p, Figure) <==> exists c <- p :: DigitChar(c)
  {
    if i :| HasAt(p, Figure, i) { assert p[i] in p && DigitChar(p[i]); }
    if c :| c in p && DigitChar(c) { var i :| 0 <= i < |p| && p[i] == c; assert HasAt(p, Figure, i); }
  }

  lemma HasOther(p: string)
    ensures Has(p, Other) <==> exists c <- p :: !UpperLetter(c) && !LowerLetter(c) && !DigitChar(c)
  {
    if i :| HasAt(p, Other, i) { assert p[i] in p && !UpperLetter(p[i]); }
    if c :| c in p && !UpperLetter(c) && !LowerLetter(c) && !DigitChar(c) {
      var i :| 0 <= i < |p| && p[i] == c;
      assert HasAt(p, Other, i);
    }
  }

  lemma GoodPasswordIff(p: string, minLength: nat)
    ensures ValidPassword(p, minLength) <==> GoodPassword(p, minLength)
  {
    hide Has, UpperLetter, LowerLetter, DigitChar;
    HasUpper(p);
    HasLower(p);
    HasDigit(p);
    HasOther(p);
  }

  // ---- Login --------------------------------------------------------------------------------------------

  /** A lock on this user name and address has not run out. */
  predicate Barred(s: State, key: string, now: int) {
    key in s.failures && s.failures[key].lockedUntil.Some? && now < s.failures[key].lockedUntil.value
  }

  function KeyOf(username: string, ip: string): string { Lower(Trim(username)) + "|" + ip }

  /** The user is there and enabled, the password is the user's, and so is the second factor. */
  ghost predicate MayEnter(s: State, c: Config, e: Event)
    requires e.Login?
  {
    var k := Lower(Trim(e.username));
    && k in s.users && !s.users[k].disabled && c.verify(s.users[k].secret, e.password)
    && (s.users[k].totp ==> GoodCode(s.users[k], c, e.code, e.now))
  }

  lemma MayEnterIff(s: State, c: Config, e: Event)
    requires e.Login?
    ensures Credentials(s, c, e.username, e.password, e.code, e.now) <==> MayEnter(s, c, e)
    ensures Locked(s, FailureKey(e.username, e.ip), e.now) <==> Barred(s, KeyOf(e.username, e.ip), e.now)
    ensures FailureKey(e.username, e.ip) == KeyOf(e.username, e.ip)
  {
    hide Trim, Lower, CheckMfa, GoodCode;
    var k := Lower(Trim(e.username));
    if k in s.users { GoodCodeIff(s.users[k], c, e.code, e.now); }
  }

  /** A login is let in if and only if its key is not locked, a session id was issued, and it may enter;
      it opens one session, as the user, with both deadlines, and touches no other. */
  lemma LoginIff(s: State, c: Config, e: Event)
    requires e.Login?
    ensures var k := Lower(Trim(e.username)); var (s', out) := Step(s, c, e);
            && (out.Accepted? <==> !Barred(s, KeyOf(e.username, e.ip), e.now) && e.issued.Some? && MayEnter(s, c, e))
            && (out.Accepted? || (out == Denied && s'.sessions == s.sessions))
            && (out.Accepted? ==>
                 && out == Accepted(s.users[k].name, s.users[k].role, s.users[k].mustChange)
                 && s'.sessions == s.sessions[e.issued.value :=
                      Session(s.users[k].name, s.users[k].role, e.now + c.idle, e.now + c.absolute, false)])
  {
    hide Trim, Lower, CheckMfa, GoodCode, Credentials, MayEnter, Locked, FailureKey, KeyOf, Barred;
    MayEnterIff(s, c, e);
    var k := Lower(Trim(e.username));
    assert MayEnter(s, c, e) ==> k in s.users by { EnteringIsUser(s, c, e); }
    if k in s.users { MfaKeepsUser(s.users[k], c, e.code, e.now); }
  }

  lemma EnteringIsUser(s: State, c: Config, e: Event)
    requires e.Login?
    ensures MayEnter(s, c, e) ==> Lower(Trim(e.username)) in s.users
  {
    hide Trim, Lower, GoodCode;
  }

  /** What a login does to the failures: a lock leaves them alone, an entry clears them, and anything else
      counts one more - from zero after a quarter of an hour of quiet - and locks at the limit. */
  lemma FailuresAre(s: State, c: Config, e: Event)
    requires e.Login?
    ensures var key := KeyOf(e.username, e.ip); var s' := Step(s, c, e).0;
            && (Barred(s, key, e.now) ==> s' == s)
            && (!Barred(s, key, e.now) && MayEnter(s, c, e) ==> s'.failures == s.failures - {key})
            && (!Barred(s, key, e.now) && !MayEnter(s, c, e) ==>
                 && s'.users == s.users && s'.sessions == s.sessions
                 && key in s'.failures && s'.failures == s.failures[key := s'.failures[key]]
                 && FailedOnce(if key in s.failures then s.failures[key] else Failure(0, None, None), s'.failures[key], e.now, c))
  {
    hide Trim, Lower, CheckMfa, GoodCode, Credentials, MayEnter, Locked, FailureKey, KeyOf, Barred, Failed;
    MayEnterIff(s, c, e);
    var key := KeyOf(e.username, e.ip);
    FailedIs(if key in s.failures then s.failures[key] else Failure(0, None, None), e.now, c);
  }

  /** One more failure than before. */
  predicate FailedOnce(f: Failure, f': Failure, now: int, c: Config) {
    var quiet := f.last.None? || now - f.last.value > 15 * 60 * 1_000_000_000;
    var n := if quiet then 1 else f.count + 1;
    && f'.last == Some(now)
    && (n < c.maxFailures ==> f'.count == n && f'.lockedUntil == f.lockedUntil)
    && (n >= c.maxFailures ==> f'.count == 0 && f'.lockedUntil == Some(now + c.lockout))
  }

  lemma FailedIs(f: Failure, now: int, c: Config)
    ensures FailedOnce(f, Failed(f, now, c), now, c)
  {}

  // ---- Too few failures to lock -----------------------------------------------------------------------

  function LoginsUnder(events: seq<Event>, key: string): nat {
    if events == [] then 0
    else (if events[0].Login? && KeyOf(events[0].username, events[0].ip) == key then 1 else 0) + LoginsUnder(events[1..], key)
  }

  predicate AtMost(s: State, key: string, n: nat) {
    key in s.failures ==> s.failures[key].count <= n && s.failures[key].lockedUntil == None
  }

  lemma OnlyLoginsFail(s: State, c: Config, e: Event)
    requires !e.Login?
    ensures Step(s, c, e).0.failures == s.failures
  {
    hide Normalize, EnabledAdmins, ValidPassword, ValidName, ValidRole, Trim, CheckMfa, Expired, Check, DropSessionsOf,
      WithRole, WithoutUser, Hashes, Step;
    if SessionStep(e) { SessionStepKeeps(s, c, e); } else { UserStepKeepsFailures(s, c, e); }
  }

  lemma UserStepKeepsFailures(s: State, c: Config, e: Event)
    requires !e.Login? && !SessionStep(e)
    ensures Step(s, c, e).0.failures == s.failures
  {
    hide Normalize, EnabledAdmins, ValidPassword, ValidName, ValidRole, Trim, CheckMfa, DropSessionsOf, WithRole,
      WithoutUser, Hashes;
  }

  lemma StepFailsOnce(s: State, c: Config, e: Event, key: string, n: nat)
    requires AtMost(s, key, n)
    requires var more := if e.Login? && KeyOf(e.username, e.ip) == key then 1 else 0; n + more < c.maxFailures
    ensures var more := if e.Login? && KeyOf(e.username, e.ip) == key then 1 else 0; AtMost(Step(s, c, e).0, key, n + more)
  {
    hide Step, MayEnter, KeyOf;
    if e.Login? { FailuresAre(s, c, e); } else { OnlyLoginsFail(s, c, e); }
  }

  lemma {:induction false} FewFailuresAre(s: State, c: Config, events: seq<Event>, key: string, n: nat)
    requires AtMost(s, key, n) && n + LoginsUnder(events, key) < c.maxFailures
    ensures AtMost(Run(s, c, events), key, n + LoginsUnder(events, key))
    decreases |events|
  {
    hide Step, AtMost, KeyOf;
    if events != [] {
      var e := events[0];
      var more := if e.Login? && KeyOf(e.username, e.ip) == key then 1 else 0;
      StepFailsOnce(s, c, e, key, n);
      FewFailuresAre(Step(s, c, e).0, c, events[1..], key, n + more);
    }
  }

  /** Nobody is locked out early: over a run with fewer logins under a key than failures are allowed,
      none of them there before, the right password and code still let in. */
  lemma FewFailuresLetIn(s: State, c: Config, events: seq<Event>, e: Event)
    requires e.Login? && KeyOf(e.username, e.ip) !in s.failures
    requires LoginsUnder(events, KeyOf(e.username, e.ip)) < c.maxFailures
    requires e.issued.Some? && MayEnter(Run(s, c, events), c, e)
    ensures Step(Run(s, c, events), c, e).1.Accepted?
  {
    hide Step, Run, MayEnter, KeyOf, LoginsUnder;
    FewFailuresAre(s, c, events, KeyOf(e.username, e.ip), 0);
    LoginIff(Run(s, c, events), c, e);
  }

  // ---- Passwords ------------------------------------------------------------------------------------------

  predicate SetsPassword(e: Event) { e.ChangePassword? || e.ResetPassword? }

  /** A password is changed if and only if the user is there, the current one is given - an administrator
      resets without it - and the new one meets the policy. */
  lemma PasswordIff(s: State, c: Config, e: Event)
    requires SetsPassword(e)
    ensures var k := Lower(Trim(e.username)); var (s', out) := Step(s, c, e);
            && (out != Denied <==>
                 k in s.users && GoodPassword(e.next, c.minLength) && (e.ChangePassword? ==> c.verify(s.users[k].secret, e.current)))
            && (out == Denied ==> s' == s)
            && (out != Denied ==>
                 && s'.users == s.users[k := s.users[k].(secret := e.secret, mustChange := e.ResetPassword? && e.must)]
                 && s'.failures == s.failures && out == if e.saved then Done else Unsaved)
            && forall sid :: out != Denied && sid != "" ==>
                 (sid in s'.sessions <==> sid in s.sessions && s.sessions[sid].user != s.users[k].name)
  {
    hide Trim, Lower, ValidPassword, GoodPassword;
    GoodPasswordIff(e.next, c.minLength);
  }

  predicate NoNewPassword(events: seq<Event>, k: string) {
    forall i :: 0 <= i < |events| ==> !(SetsPassword(events[i]) && Normalize(events[i].username) == k)
  }

  predicate HasSecret(s: State, k: string, secret: string) { k in s.users && s.users[k].secret == secret }

  lemma UserStepKeepsSecret(s: State, c: Config, e: Event, k: string, secret: string)
    requires HasSecret(s, k, secret) && !e.Login? && !SessionStep(e)
    requires !(SetsPassword(e) && Normalize(e.username) == k)
    ensures HasSecret(Step(s, c, e).0, k, secret)
  {
    hide Normalize, EnabledAdmins, ValidPassword, ValidName, ValidRole, Trim, CheckMfa, DropSessionsOf, WithRole,
      WithoutUser, Hashes;
  }

  lemma LoginKeepsUser(s: State, c: Config, e: Event, k: string)
    requires e.Login? && k in s.users
    ensures k in Step(s, c, e).0.users && Step(s, c, e).0.users[k].(recovery := s.users[k].recovery) == s.users[k]
  {
    hide Normalize, Locked, Failed, CheckMfa, FailureKey, FailureOf;
    if Normalize(e.username) in s.users { MfaKeepsUser(s.users[Normalize(e.username)], c, e.code, e.now); }
  }

  lemma StepKeepsSecret(s: State, c: Config, e: Event, k: string, secret: string)
    requires HasSecret(s, k, secret) && !(SetsPassword(e) && Normalize(e.username) == k)
    ensures HasSecret(Step(s, c, e).0, k, secret)
  {
    hide Normalize, Step;
    if e.Login? {
      LoginKeepsUser(s, c, e, k);
    } else if SessionStep(e) {
      SessionStepKeeps(s, c, e);
    } else {
      UserStepKeepsSecret(s, c, e, k, secret);
    }
  }

  lemma {:induction false} SecretStays(s: State, c: Config, events: seq<Event>, k: string, secret: string)
    requires HasSecret(s, k, secret) && NoNewPassword(events, k)
    ensures HasSecret(Run(s, c, events), k, secret)
    decreases |events|
  {
    hide Step, HasSecret, Normalize;
    if events != [] {
      StepKeepsSecret(s, c, events[0], k, secret);
      SecretStays(Step(s, c, events[0]).0, c, events[1..], k, secret);
    }
  }

  /** After a password was changed, over every run up to the next change, a password that does not match
      the new one opens nothing: no login, no other change of the password, no removal of the second
      factor. */
  lemma WrongPasswordStaysOut(s: State, c: Config, change: Event, events: seq<Event>, e: Event)
    requires SetsPassword(change) && Step(s, c, change).1 != Denied
    requires NoNewPassword(events, Normalize(change.username))
    requires (e.Login? && !c.verify(change.secret, e.password))
             || (e.ChangePassword? && !c.verify(change.secret, e.current))
             || (e.DisableTotp? && !c.verify(change.secret, e.password))
    requires Normalize(e.username) == Normalize(change.username)
    ensures var t := Run(Step(s, c, change).0, c, events);
            Step(t, c, e).1 == Denied && Step(t, c, e).0.sessions == t.sessions
            && Normalize(e.username) in t.users && Step(t, c, e).0.users == t.users
  {
    hide Step, Run, GoodPassword, GoodCode, Trim, Lower;
    var k := Normalize(change.username);
    var t := Run(Step(s, c, change).0, c, events);
    PasswordIff(s, c, change);
    SecretStays(Step(s, c, change).0, c, events, k, change.secret);
    if e.Login? {
      LoginIff(t, c, e);
      FailuresAre(t, c, e);
    } else if e.ChangePassword? {
      PasswordIff(t, c, e);
    } else {
      SecondFactorIff(t, c, e);
    }
  }

  // ---- The second factor ----------------------------------------------------------------------------

  predicate SetsFactor(e: Event) { e.SetupTotp? || e.EnableTotp? || e.DisableTotp? }

  /** Setting up takes a user; switching on takes a code of the secret set up; switching off takes the
      password and, while it is on, a good code. */
  ghost predicate FactorGranted(s: State, c: Config, e: Event)
    requires SetsFactor(e)
  {
    var k := Lower(Trim(e.username));
    && k in s.users
    && (e.EnableTotp? ==> s.users[k].totpSecret != "" && c.totpCode(s.users[k].totpSecret, e.code, e.now))
    && (e.DisableTotp? ==>
         c.verify(s.users[k].secret, e.password) && (s.users[k].totp ==> GoodCode(s.users[k], c, e.code, e.now)))
  }

  /** The user with the factor set up but off, on with new recovery codes, or without it. */
  function WithFactor(u: User, c: Config, e: Event): User
    requires SetsFactor(e)
  {
    match e
    case SetupTotp(_, secret, _) => u.(totp := false, totpSecret := secret, recovery := [])
    case EnableTotp(_, _, _, codes, _) => u.(totp := true, recovery := seq(|codes|, i requires 0 <= i < |codes| => c.hash(codes[i])))
    case DisableTotp(_, _, _, _, _) => u.(totp := false, totpSecret := "", recovery := [])
  }

  lemma SecondFactorIff(s: State, c: Config, e: Event)
    requires SetsFactor(e)
    ensures var k := Lower(Trim(e.username)); var (s', out) := Step(s, c, e);
            && (out != Denied <==> FactorGranted(s, c, e))
            && (out == Denied ==> s' == s)
            && (out != Denied ==>
                 s' == s.(users := s.users[k := WithFactor(s.users[k], c, e)]) && out == if e.saved then Done else Unsaved)
  {
    hide Trim, Lower, CheckMfa, GoodCode;
    var k := Lower(Trim(e.username));
    if k in s.users && e.DisableTotp? { GoodCodeIff(s.users[k], c, e.code, e.now); }
  }

  // ---- Accounts -----------------------------------------------------------------------------------------

  /** A role is set if and only if it exists, the user is there, and an administrator remains. */
  lemma RoleIff(s: State, c: Config, e: Event)
    requires e.SetRole? && HasAdmin(s.users)
    ensures var k := Lower(Trim(e.username)); var (s', out) := Step(s, c, e);
            && (out != Denied <==>
                 e.role in ["admin", "analyst", "responder", "viewer"] && k in s.users
                 && HasAdmin(s.users[k := s.users[k].(role := e.role)]))
            && (out == Denied ==> s' == s)
            && (out != Denied ==>
                 && s'.users == s.users[k := s.users[k].(role := e.role)] && s'.failures == s.failures
                 && s'.sessions.Keys == s.sessions.Keys && out == (if e.saved then Done else Unsaved)
                 && forall sid <- s.sessions :: s'.sessions[sid] ==
                      if s.sessions[sid].user == s.users[k].name then s.sessions[sid].(role := e.role) else s.sessions[sid])
  {
    hide Trim, Lower, HasAdmin, EnabledAdmins;
    var k := Lower(Trim(e.username));
    if k in s.users && ValidRole(e.role) { GuardsAreExact(s, e.username, e.role, false, e.saved); }
  }

  /** A user is disabled or enabled if and only if it is there and an administrator remains; disabling
      ends its sessions. */
  lemma DisabledIff(s: State, c: Config, e: Event)
    requires e.SetDisabled? && HasAdmin(s.users)
    ensures var k := Lower(Trim(e.username)); var (s', out) := Step(s, c, e);
            && (out != Denied <==> k in s.users && HasAdmin(s.users[k := s.users[k].(disabled := e.disabled)]))
            && (out == Denied ==> s' == s)
            && (out != Denied ==>
                 && s'.users == s.users[k := s.users[k].(disabled := e.disabled)] && s'.failures == s.failures
                 && out == (if e.saved then Done else Unsaved)
                 && forall sid :: (sid in s'.sessions <==>
                                    sid in s.sessions && !(e.disabled && s.sessions[sid].user == s.users[k].name))
                                  && (sid in s'.sessions ==> s'.sessions[sid] == s.sessions[sid]))
  {
    hide Trim, Lower, HasAdmin, EnabledAdmins;
    var k := Lower(Trim(e.username));
    if k in s.users { GuardsAreExact(s, e.username, "admin", e.disabled, e.saved); }
  }

  /** A user is created if and only if the name is new, not blank and free of separators, the role
      exists and the password meets the policy; it starts enabled and without a second factor. */
  lemma CreatedIff(s: State, c: Config, e: Event)
    requires e.CreateUser?
    ensures var name := Trim(e.username); var k := Lower(name); var (s', out) := Step(s, c, e);
            && (out != Denied <==>
                 && k !in s.users && name != "" && '/' !in name && '\\' !in name && '\0' !in name
                 && e.role in ["admin", "analyst", "responder", "viewer"] && GoodPassword(e.password, c.minLength))
            && (out == Denied ==> s' == s)
            && (out != Denied ==>
                 && s' == s.(users := s.users[k := User(name, e.role, e.secret, e.must, false, false, "", [])])
                 && out == if e.saved then Done else Unsaved)
  {
    hide Trim, Lower, ValidPassword, GoodPassword;
    GoodPasswordIff(e.password, c.minLength);
  }

  /** Another provider's user is let in whenever a session id was issued, with the role named or else as
      a viewer, and marked as external. */
  lemma ExternalIs(s: State, c: Config, e: Event)
    requires e.ExternalLogin?
    ensures var role := if e.role in ["admin", "analyst", "responder", "viewer"] then e.role else "viewer";
            var (s', out) := Step(s, c, e);
            if e.issued.None? then s' == s && out == Denied
            else
              && out == Accepted(e.username, role, false)
              && s' == s.(sessions := s.sessions[e.issued.value :=
                   Session(e.username, role, e.now + c.idle, e.now + c.absolute, true)])
  {}

  /** Every change to a user there was has its cause: the password is changed with the current one or by
      an administrator, role and standing by their operations, the second factor with what it takes;
      no user goes, and none but a created one comes. */
  lemma UserChangesHaveCauses(s: State, c: Config, e: Event, k: string)
    requires k in s.users
    ensures k in Step(s, c, e).0.users
    ensures var u, u' := s.users[k], Step(s, c, e).0.users[k];
            && u'.name == u.name
            && (u'.secret != u.secret ==>
                 SetsPassword(e) && Lower(Trim(e.username)) == k && u'.secret == e.secret
                 && (e.ChangePassword? ==> c.verify(u.secret, e.current)))
            && (u'.role != u.role ==> e.SetRole? && Lower(Trim(e.username)) == k && u'.role == e.role)
            && (u'.disabled != u.disabled ==> e.SetDisabled? && Lower(Trim(e.username)) == k && u'.disabled == e.disabled)
            && (u'.totp != u.totp ==> SetsFactor(e) && Lower(Trim(e.username)) == k && FactorGranted(s, c, e))
  {
    hide Step, GoodPassword, GoodCode, Trim, Lower, FactorGranted;
    if e.Login? {
      LoginKeepsUser(s, c, e, k);
    } else if SessionStep(e) {
      SessionStepKeeps(s, c, e);
    } else if e.ExternalLogin? {
      ExternalIs(s, c, e);
    } else if SetsPassword(e) {
      PasswordIff(s, c, e);
    } else if SetsFactor(e) {
      SecondFactorIff(s, c, e);
    } else if e.CreateUser? {
      CreatedIff(s, c, e);
    } else {
      StandingKeepsRest(s, c, e, k);
    }
  }

  lemma StandingKeepsRest(s: State, c: Config, e: Event, k: string)
    requires k in s.users && (e.SetRole? || e.SetDisabled?)
    ensures k in Step(s, c, e).0.users
    ensures var u, u' := s.users[k], Step(s, c, e).0.users[k];
            if Lower(Trim(e.username)) != k then u' == u
            else u' == u || u' == if e.SetRole? then u.(role := e.role) else u.(disabled := e.disabled)
  {
    hide Trim, Lower, EnabledAdmins, WithRole, WithoutUser;
  }

  // ---- Sessions -----------------------------------------------------------------------------------------

  /** What ends a session: logging it out, its owner or an administrator revoking it, its owner keeping
      another one alone, a new password or disabling of its owner, running out when looked at, or its
      user being gone when it is used. */
  predicate Ends(s: State, e: Event, sid: string)
    requires sid in s.sessions
  {
    var x := s.sessions[sid];
    match e
    case Logout(id) => id == sid
    case RevokeSession(requester, id, admin) => id == sid && (admin || x.user == requester)
    case RevokeOthers(username, keep) => x.user == username && sid != keep
    case Prune(now) => now > x.expires || now > x.absolute
    case Authenticate(id, now) => id == sid && Useless(s, x, now)
    case Revalidate(id, now) => id == sid && Useless(s, x, now)
    case ChangePassword(username, _, _, _, _) => OwnedBy(s, x, username)
    case ResetPassword(username, _, _, _, _) => OwnedBy(s, x, username)
    case SetDisabled(username, disabled, _) => disabled && OwnedBy(s, x, username)
    case _ => false
  }

  predicate OwnedBy(s: State, x: Session, username: string) {
    Normalize(username) in s.users && x.user == s.users[Normalize(username)].name
  }

  predicate Useless(s: State, x: Session, now: int) {
    now > x.expires || now > x.absolute ||
    (!x.external && (Normalize(x.user) !in s.users || s.users[Normalize(x.user)].disabled))
  }

  /** A session that none of these ends is there after the step, and of the same user. */
  lemma SessionSurvives(s: State, c: Config, e: Event, sid: string)
    requires sid in s.sessions && !Ends(s, e, sid) && AuthSafety.Issued(s, c, e) != Some(sid)
    ensures sid in Step(s, c, e).0.sessions && Step(s, c, e).0.sessions[sid].user == s.sessions[sid].user
  {
    hide Normalize, Step, Issued;
    if e.Login? || e.ExternalLogin? {
      EntryKeepsOthers(s, c, e, sid);
    } else if SetsFactor(e) || e.CreateUser? || e.SetRole? {
      UserStepKeepsSession(s, c, e, sid);
    } else if SetsPassword(e) || e.SetDisabled? {
      OthersChangeKeepsSession(s, c, e, sid);
    } else {
      LookKeepsSession(s, c, e, sid);
    }
  }

  lemma EntryKeepsOthers(s: State, c: Config, e: Event, sid: string)
    requires (e.Login? || e.ExternalLogin?) && sid in s.sessions && AuthSafety.Issued(s, c, e) != Some(sid)
    ensures sid in Step(s, c, e).0.sessions && Step(s, c, e).0.sessions[sid] == s.sessions[sid]
  {
    hide Normalize, ValidRole, CheckMfa, Credentials, Locked, Failed, FailureKey, FailureOf;
  }

  lemma UserStepKeepsSession(s: State, c: Config, e: Event, sid: string)
    requires (SetsFactor(e) || e.CreateUser? || e.SetRole?) && sid in s.sessions
    ensures sid in Step(s, c, e).0.sessions && Step(s, c, e).0.sessions[sid].user == s.sessions[sid].user
  {
    hide Normalize, EnabledAdmins, ValidPassword, ValidName, ValidRole, Trim, CheckMfa, Hashes;
  }

  lemma OthersChangeKeepsSession(s: State, c: Config, e: Event, sid: string)
    requires (SetsPassword(e) || e.SetDisabled?) && sid in s.sessions && !Ends(s, e, sid)
    ensures sid in Step(s, c, e).0.sessions && Step(s, c, e).0.sessions[sid] == s.sessions[sid]
  {
    hide Normalize, EnabledAdmins, ValidPassword;
  }

  lemma LookKeepsSession(s: State, c: Config, e: Event, sid: string)
    requires SessionStep(e) && sid in s.sessions && !Ends(s, e, sid)
    ensures sid in Step(s, c, e).0.sessions && Step(s, c, e).0.sessions[sid].user == s.sessions[sid].user
  {
    hide Normalize;
  }

  /** The operations that end sessions on purpose do: the session is gone afterwards. */
  lemma EndedIsGone(s: State, c: Config, e: Event, sid: string)
    requires sid in s.sessions && Ends(s, e, sid) && sid != ""
    requires !SetsPassword(e) && !e.SetDisabled?
    ensures sid !in Step(s, c, e).0.sessions
  {
    hide Normalize, EnabledAdmins;
  }

  /** A request moves the idle deadline of its own session, to the idle time from now; looking without
      using moves none. */
  lemma UseMovesDeadline(s: State, c: Config, e: Event, sid: string)
    requires (e.Authenticate? || e.Revalidate?) && sid in Step(s, c, e).0.sessions
    ensures sid in s.sessions
    ensures Step(s, c, e).0.sessions[sid] ==
            if e.Authenticate? && e.cookie == sid && Step(s, c, e).1.Accepted? then s.sessions[sid].(expires := e.now + c.idle)
            else s.sessions[sid]
  {
    hide Normalize, Expired;
  }
}
