/**
 When a sign-in yields tokens, what is asked of the user otherwise, and which user's record an operation touches
 (internal/cognito/auth.go, admin.go, users.go): every result of the operations in Sessions, read off the records and
 challenges they meet.
 */
module SignIns {
  import opened Sessions
  import opened Strings
  import opened Wrappers

  // ---------------------------------------------------------------- what a sign-in leaves

  /** Only `k` changed: it has one session more, as requested, and lost those that had expired. */
  ghost predicate OneSessionMore(s: State, t: State, k: string, q: Request) {
    k in s.users && t.users.Keys == s.users.Keys && (forall a :: a in s.users && a != k ==> t.users[a] == s.users[a]) &&
    t.users[k].(sessions := map[]) == s.users[k].(sessions := map[]) &&
    (forall j :: j in t.users[k].sessions <==>
      j == q.draw.jti || (j in s.users[k].sessions && q.now <= s.users[k].sessions[j].expires)) &&
    t.users[k].sessions[q.draw.jti] == Session(q.client, q.draw.hash, q.expires, false) &&
    (forall j :: j in t.users[k].sessions && j != q.draw.jti ==> t.users[k].sessions[j] == s.users[k].sessions[j]) &&
    t.challenges == s.challenges && t.disk == s.disk
  }

  /** Only a challenge was added, for `k` and the requesting client, and those that had expired were dropped. */
  ghost predicate OneChallengeMore(s: State, t: State, k: string, kind: Kind, q: Request) {
    k in s.users && t.users == s.users && t.refresh == s.refresh && t.disk == s.disk &&
    (forall c :: c in t.challenges <==> c == q.draw.ticket || (c in s.challenges && q.now <= s.challenges[c].expires)) &&
    (forall c :: c in t.challenges && c != q.draw.ticket ==> t.challenges[c] == s.challenges[c]) &&
    t.challenges[q.draw.ticket] ==
      Challenge(kind, q.client, UserKey(s.caseSensitive, s.users[k].username), q.now + q.life)
  }

  predicate TempPast(u: User, now: int) { u.tempExpires.Some? && u.tempExpires.value < now }

  /** What is asked next of a user whose first factor is proven; `factor` is the second one still due. */
  predicate AskedNext(u: User, factor: Option<bool>, now: int, kind: Kind) {
    match kind
    case NewPassword => u.status.ForceChange? && !TempPast(u, now)
    case Mfa(email) => u.status.Confirmed? && factor == Some(email)
    case PasswordVerifier => false
  }

  predicate Refused(u: User, now: int, error: AuthError) {
    match error
    case NotConfirmed => u.status.Unconfirmed?
    case ResetNeeded => u.status.ResetRequired?
    case TempPasswordExpired => u.status.ForceChange? && TempPast(u, now)
    case _ => false
  }

  /** The answer and the state after `k` proved its first factor, with `factor` still due. */
  ghost predicate Completed(s: State, k: string, factor: Option<bool>, q: Request, t: State, r: Outcome) {
    k in s.users &&
    match r
    case Tokens(jti, hash) =>
      s.users[k].status.Confirmed? && factor.None? && jti == q.draw.jti && hash == q.draw.hash && OneSessionMore(s, t, k, q)
    case Asked(kind, ticket) =>
      AskedNext(s.users[k], factor, q.now, kind) && ticket == q.draw.ticket && OneChallengeMore(s, t, k, kind, q)
    case Failed(error) => Refused(s.users[k], q.now, error) && t == s
  }

  lemma StartAddsOne(s: State, k: string, q: Request)
    requires k in s.users
    ensures OneSessionMore(s, StartSession(s, k, q.client, q.now, q.expires, q.draw), k, q)
  {
    hide UserKey;
  }

  lemma AskAddsOne(s: State, k: string, kind: Kind, q: Request)
    requires k in s.users
    ensures OneChallengeMore(s, Ask(s, kind, k, q.client, q.now, q.life, q.draw), k, kind, q)
  {
    hide UserKey;
  }

  /** A session asks nothing, a challenge starts nothing. */
  lemma MoreOfOne(s: State, t: State, k: string, kind: Kind, q: Request)
    ensures OneSessionMore(s, t, k, q) ==> t.challenges == s.challenges
    ensures OneChallengeMore(s, t, k, kind, q) ==> t.users == s.users
  {
    hide UserKey;
  }

  lemma CompleteIs(s: State, k: string, mfaDone: bool, q: Request)
    requires k in s.users
    ensures var (t, r) := CompleteAuth(s, k, mfaDone, q);
      Completed(s, k, if mfaDone then None else q.factor, q, t, r)
  {
    hide OneSessionMore, OneChallengeMore, StartSession, Ask;
    StartAddsOne(s, k, q);
    AskAddsOne(s, k, NewPassword, q);
    if q.factor.Some? {
      AskAddsOne(s, k, Mfa(q.factor.value), q);
    }
  }

  // ---------------------------------------------------------------- by password

  /** The record that was checked without the lock is still the user's. */
  predicate Current(s: State, username: string, sub: string) {
    UserKey(s.caseSensitive, username) in s.users && s.users[UserKey(s.caseSensitive, username)].sub == sub
  }

  /**
   A correct password yields tokens exactly for a confirmed, unreplaced user of whom no second factor is asked; otherwise
   the challenge that fits the status and the factor, or the error that fits the status.
   */
  lemma PasswordExact(s: State, username: string, sub: string, q: Request)
    ensures var (t, r) := PasswordAuth(s, username, sub, q);
      if Current(s, username, sub) then Completed(s, UserKey(s.caseSensitive, username), q.factor, q, t, r)
      else t == s && r == Failed(UserMissing)
    ensures PasswordAuth(s, username, sub, q).1.Tokens? <==>
      Current(s, username, sub) && s.users[UserKey(s.caseSensitive, username)].status.Confirmed? && q.factor.None?
  {
    hide CompleteAuth, OneSessionMore, OneChallengeMore, UserKey;
    var k := UserKey(s.caseSensitive, username);
    if Current(s, username, sub) {
      CompleteIs(s, k, false, q);
    }
  }

  /** SRP never yields tokens at once: an enabled, unreplaced user with a usable A is asked to prove the password. */
  lemma SrpExact(s: State, username: string, sub: string, startOk: bool, q: Request)
    ensures var (t, r) := SrpAuth(s, username, sub, startOk, q);
      var k := UserKey(s.caseSensitive, username);
      if Current(s, username, sub) && s.users[k].enabled && startOk
      then r == Asked(PasswordVerifier, q.draw.ticket) && OneChallengeMore(s, t, k, PasswordVerifier, q)
      else t == s && r == Failed(if !Current(s, username, sub) then UserMissing
                                 else if s.users[k].enabled then InvalidSrpA else Disabled)
  {
    hide OneChallengeMore, UserKey, Ask;
    var k := UserKey(s.caseSensitive, username);
    if Current(s, username, sub) {
      AskAddsOne(s, k, PasswordVerifier, q);
    }
  }

  // ---------------------------------------------------------------- by answering a challenge

  /** The pool once the challenge is taken, and the new password with it. */
  function Taken(s: State, ticket: string, kind: Kind): State
    requires ticket in s.challenges
  {
    var k := s.challenges[ticket].key;
    var users := if kind.NewPassword? && k in s.users
      then s.users[k := s.users[k].(status := Confirmed, tempExpires := None)] else s.users;
    s.(users := users, challenges := s.challenges - {ticket})
  }

  /** A challenge of this kind was put to this client under this ticket, is not used up and has not expired. */
  predicate Open(s: State, ticket: string, kind: Kind, q: Request) {
    ticket in s.challenges &&
    var c := s.challenges[ticket];
    c.kind == kind && c.client == q.client && c.expires >= q.now
  }

  /** A right answer, with the secret hash, to an open challenge whose user exists. */
  predicate Proves(s: State, ticket: string, kind: Kind, answer: Answer, q: Request) {
    Open(s, ticket, kind, q) && s.challenges[ticket].key in s.users && q.secretOk && answer == Right
  }

  /** Which error a challenge that was not answered right ends with. */
  function Mistake(s: State, ticket: string, kind: Kind, answer: Answer, q: Request): AuthError {
    if !Open(s, ticket, kind, q) then InvalidSession
    else if s.challenges[ticket].key !in s.users then UserMissing
    else if !q.secretOk then BadSecret
    else if kind.PasswordVerifier? then IncorrectPassword
    else if kind.Mfa? && answer == Wrong then CodeMismatch
    else InvalidToken
  }

  lemma RespondIs(s: State, ticket: string, kind: Kind, answer: Answer, q: Request)
    ensures var (t, r) := Respond(s, ticket, kind, answer, q);
      if Proves(s, ticket, kind, answer, q)
      then Completed(Taken(s, ticket, kind), s.challenges[ticket].key, if kind.Mfa? then None else q.factor, q, t, r)
      else r == Failed(Mistake(s, ticket, kind, answer, q))
  {
    hide CompleteAuth, OneSessionMore, OneChallengeMore, Completed;
    if Proves(s, ticket, kind, answer, q) {
      CompleteIs(Taken(s, ticket, kind), s.challenges[ticket].key, kind.Mfa?, q);
    }
  }

  /**
   An answer yields tokens exactly when it is right, the challenge is a pending one of this kind and client, the user is
   confirmed (by the new password, if that is what was asked), and no second factor is due or this was it.
   */
  lemma RespondExact(s: State, ticket: string, kind: Kind, answer: Answer, q: Request)
    ensures Respond(s, ticket, kind, answer, q).1.Tokens? <==>
      Proves(s, ticket, kind, answer, q) && (kind.NewPassword? || s.users[s.challenges[ticket].key].status.Confirmed?) &&
      (kind.Mfa? || q.factor.None?)
    ensures Respond(s, ticket, kind, answer, q).1.Tokens? ==>
      OneSessionMore(Taken(s, ticket, kind), Respond(s, ticket, kind, answer, q).0, s.challenges[ticket].key, q)
    ensures forall email :: Respond(s, ticket, kind, answer, q).1 == Asked(Mfa(email), q.draw.ticket) <==>
      Proves(s, ticket, kind, answer, q) && (kind.NewPassword? || s.users[s.challenges[ticket].key].status.Confirmed?) &&
      !kind.Mfa? && q.factor == Some(email)
    ensures Respond(s, ticket, kind, answer, q).1 == Asked(NewPassword, q.draw.ticket) <==>
      Proves(s, ticket, kind, answer, q) && !kind.NewPassword? &&
      AskedNext(s.users[s.challenges[ticket].key], None, q.now, NewPassword)
  {
    hide Respond, OneSessionMore, OneChallengeMore;
    RespondIs(s, ticket, kind, answer, q);
  }

  /** Minting needs neither password nor factor, only an enabled user. */
  lemma MintExact(s: State, k: string, q: Request)
    ensures var (t, r) := Mint(s, k, q);
      if k in s.users && s.users[k].enabled then r == Tokens(q.draw.jti, q.draw.hash) && OneSessionMore(s, t, k, q)
      else t == s && r == Failed(if k in s.users then Disabled else UserMissing)
  {
    hide OneSessionMore, StartSession;
    if k in s.users {
      StartAddsOne(s, k, q);
    }
  }

  // ---------------------------------------------------------------- two factors

  /** The step proves the first factor of `k`: its password, or the right answer to a challenge about it. */
  predicate FirstFactor(s: State, step: Step, k: string) {
    match step
    case ByPassword(username, sub, q) => Current(s, username, sub) && k == UserKey(s.caseSensitive, username)
    case ByAnswer(ticket, kind, answer, q) =>
      !kind.Mfa? && Proves(s, ticket, kind, answer, q) && s.challenges[ticket].key == k
    case _ => false
  }

  /** The factor the pool asks of the user a step is about. */
  function FactorOf(step: Step): Option<bool> {
    match step
    case ByPassword(_, _, q) => q.factor
    case ByAnswer(_, _, _, q) => q.factor
    case _ => None
  }

  /** A code is only asked for once the first factor is proven. */
  lemma CodeAskedAfter(s: State, step: Step, ticket: string)
    requires Inv(s) && Allowed(s, step) && ticket !in s.challenges
    requires ticket in Next(s, step).challenges && Next(s, step).challenges[ticket].kind.Mfa?
    ensures FirstFactor(s, step, Next(s, step).challenges[ticket].key)
  {
    hide UserKey, PasswordAuth, SrpAuth, Respond, Mint, OneSessionMore, Next;
    match step
    case ByPassword(username, sub, q) =>
      NextIs(s, step);
      PasswordExact(s, username, sub, q);
      MoreOfOne(s, Next(s, step), UserKey(s.caseSensitive, username), NewPassword, q);
      KeyedAt(s, UserKey(s.caseSensitive, username));
    case BySrp(username, sub, startOk, q) =>
      NextIs(s, step);
      SrpExact(s, username, sub, startOk, q);
    case ByAnswer(t, kind, answer, q) =>
      NextIs(s, step);
      RespondIs(s, t, kind, answer, q);
      RefusedKeeps(s, t, kind, answer, q);
      if Proves(s, t, kind, answer, q) {
        MoreOfOne(Taken(s, t, kind), Next(s, step), s.challenges[t].key, NewPassword, q);
        KeyedAt(s, s.challenges[t].key);
      }
    case ByMint(k, q) =>
      NextIs(s, step);
      MintExact(s, k, q);
      MintAsksNothing(s, k, q);
    case _ => OthersAskNothing(s, step);
  }

  lemma NextIs(s: State, step: Step)
    ensures match step
      case ByPassword(username, sub, q) => Next(s, step) == PasswordAuth(s, username, sub, q).0
      case BySrp(username, sub, startOk, q) => Next(s, step) == SrpAuth(s, username, sub, startOk, q).0
      case ByAnswer(ticket, kind, answer, q) => Next(s, step) == Respond(s, ticket, kind, answer, q).0
      case ByMint(k, q) => Next(s, step) == Mint(s, k, q).0
      case _ => true
  {
    hide PasswordAuth, SrpAuth, Respond, Mint;
  }

  lemma KeyedAt(s: State, k: string)
    requires Inv(s) && k in s.users
    ensures UserKey(s.caseSensitive, s.users[k].username) == k
  {
    hide UserKey, Indexed, Drawn, Distinct, OneHolder;
  }

  lemma MintAsksNothing(s: State, k: string, q: Request)
    ensures Mint(s, k, q).0.challenges == s.challenges
  {
  }

  lemma OthersAskNothing(s: State, step: Step)
    requires !step.ByPassword? && !step.BySrp? && !step.ByAnswer? && !step.ByMint?
    ensures Next(s, step).challenges.Keys <= s.challenges.Keys
  {
    hide UserKey, IndexOf, Authenticate;
    match step
    case SignOutSelf(username, jti, exp, now) => AuthenticateFinds(s, username, jti, exp, now);
    case DeleteSelf(username, jti, exp, now) => AuthenticateFinds(s, username, jti, exp, now);
    case _ =>
  }

  lemma RefusedKeeps(s: State, ticket: string, kind: Kind, answer: Answer, q: Request)
    ensures !Proves(s, ticket, kind, answer, q) ==>
      Respond(s, ticket, kind, answer, q).0.challenges.Keys <= s.challenges.Keys &&
      Respond(s, ticket, kind, answer, q).0.users == s.users
  {
    hide CompleteAuth;
  }

  /**
   A session begins only with tokens: minted for an enabled user, or after the first factor of a user of whom no second
   one is asked, or with the right code to a challenge for one.
   */
  lemma SessionBegins(s: State, step: Step, k: string, j: string)
    requires Allowed(s, step) && !step.Restart?
    requires Live(Next(s, step).users, k, j) && !Live(s.users, k, j)
    ensures match step
      case ByMint(a, _) => a == k && s.users[k].enabled
      case ByAnswer(ticket, Mfa(_), answer, q) =>
        Proves(s, ticket, step.kind, answer, q) && s.challenges[ticket].key == k
      case _ => FirstFactor(s, step, k) && FactorOf(step).None?
  {
    hide UserKey, PasswordAuth, SrpAuth, Respond, Mint, OneChallengeMore, Next;
    match step
    case ByPassword(username, sub, q) =>
      NextIs(s, step);
      PasswordExact(s, username, sub, q);
      var r := PasswordAuth(s, username, sub, q).1;
      MoreOfOne(s, Next(s, step), UserKey(s.caseSensitive, username), if r.Asked? then r.kind else NewPassword, q);
    case BySrp(username, sub, startOk, q) =>
      NextIs(s, step);
      SrpExact(s, username, sub, startOk, q);
      SrpStartsNothing(s, username, sub, startOk, q);
    case ByAnswer(ticket, kind, answer, q) =>
      NextIs(s, step);
      RespondIs(s, ticket, kind, answer, q);
      RefusedKeeps(s, ticket, kind, answer, q);
      if Proves(s, ticket, kind, answer, q) && !Respond(s, ticket, kind, answer, q).1.Tokens? {
        AskedKeepsUsers(s, ticket, kind, answer, q);
      }
    case ByMint(a, q) =>
      NextIs(s, step);
      MintExact(s, a, q);
    case _ => OthersStartNothing(s, step, k, j);
  }

  lemma SrpStartsNothing(s: State, username: string, sub: string, startOk: bool, q: Request)
    ensures SrpAuth(s, username, sub, startOk, q).0.users == s.users
  {
    hide UserKey;
  }

  lemma AskedKeepsUsers(s: State, ticket: string, kind: Kind, answer: Answer, q: Request)
    requires Proves(s, ticket, kind, answer, q) && !Respond(s, ticket, kind, answer, q).1.Tokens?
    ensures Respond(s, ticket, kind, answer, q).0.users == Taken(s, ticket, kind).users
  {
    hide Respond, OneSessionMore;
    RespondIs(s, ticket, kind, answer, q);
  }

  lemma OthersStartNothing(s: State, step: Step, k: string, j: string)
    requires !step.ByPassword? && !step.BySrp? && !step.ByAnswer? && !step.ByMint? && !step.Restart?
    requires Live(Next(s, step).users, k, j)
    ensures Live(s.users, k, j)
  {
    hide UserKey, IndexOf, Authenticate;
    match step
    case SignOutSelf(username, jti, exp, now) => AuthenticateFinds(s, username, jti, exp, now);
    case DeleteSelf(username, jti, exp, now) => AuthenticateFinds(s, username, jti, exp, now);
    case _ =>
  }

  // ---------------------------------------------------------------- which records an operation touches

  /** A user's record without its sessions. */
  function Profile(u: User): User { u.(sessions := map[]) }

  /** The user an operation is about, if it changes a record at all. */
  predicate Touches(s: State, step: Step, k: string) {
    match step
    case CreateUser(username, _, _, _, clash) => !clash && k == UserKey(s.caseSensitive, username) && k !in s.users
    case ByPassword(username, sub, _) => Current(s, username, sub) && k == UserKey(s.caseSensitive, username)
    case BySrp(_, _, _, _) => false
    case ByAnswer(ticket, kind, answer, q) => Proves(s, ticket, kind, answer, q) && k == s.challenges[ticket].key
    case ByMint(a, _) => k == a
    case Revoke(hash, _) => hash in s.refresh && k == s.refresh[hash].key
    case SignOutSelf(username, jti, exp, now) => Authenticate(s, username, jti, exp, now) == Ok(k)
    case DeleteSelf(username, jti, exp, now) => Authenticate(s, username, jti, exp, now) == Ok(k)
    case AdminSignOut(a) => k == a
    case AdminDelete(a) => k == a
    case SetEnabled(a, _) => k == a
    case ResetPassword(a, reachable) => k == a && reachable
    case SetPassword(a, _, _) => k == a
    case Flush => false
    case Restart => true
  }

  /** The profile an operation leaves its user with; None when the user is deleted. */
  function ProfileAfter(u: User, step: Step): Option<User> {
    match step
    case ByAnswer(_, NewPassword, _, _) => Some(u.(status := Confirmed, tempExpires := None))
    case DeleteSelf(_, _, _, _) => None
    case AdminDelete(_) => None
    case SetEnabled(_, enabled) => Some(u.(enabled := enabled))
    case ResetPassword(_, _) => Some(u.(status := ResetRequired))
    case SetPassword(_, status, temp) => Some(u.(status := status, tempExpires := temp))
    case _ => Some(u)
  }

  predicate SameUser(s: State, t: State, k: string) {
    (k in s.users <==> k in t.users) && (k in s.users ==> t.users[k] == s.users[k])
  }

  /**
   An operation leaves every record alone but the one of the user it is about; of that one it changes what it is meant to
   change, or it deletes or creates the user.
   */
  lemma StepTouches(s: State, step: Step, k: string)
    requires Inv(s) && Allowed(s, step) && !step.Restart?
    ensures !Touches(s, step, k) ==> SameUser(s, Next(s, step), k)
    ensures Touches(s, step, k) && k in s.users ==>
      var p := ProfileAfter(Profile(s.users[k]), step);
      if p.None? then k !in Next(s, step).users else k in Next(s, step).users && Profile(Next(s, step).users[k]) == p.value
    ensures Touches(s, step, k) && step.CreateUser? ==>
      k in Next(s, step).users &&
      Next(s, step).users[k] == User(step.username, step.sub, step.status, true, step.temp, map[])
  {
    hide Inv, UserKey, PasswordAuth, SrpAuth, Respond, Mint, Next, OneChallengeMore, Authenticate;
    match step
    case ByPassword(username, sub, q) =>
      NextIs(s, step);
      PasswordExact(s, username, sub, q);
      var r := PasswordAuth(s, username, sub, q).1;
      MoreOfOne(s, Next(s, step), UserKey(s.caseSensitive, username), if r.Asked? then r.kind else NewPassword, q);
    case BySrp(username, sub, startOk, q) =>
      NextIs(s, step);
      SrpStartsNothing(s, username, sub, startOk, q);
    case ByAnswer(ticket, kind, answer, q) => AnswerTouches(s, ticket, kind, answer, q, k);
    case ByMint(a, q) =>
      NextIs(s, step);
      MintExact(s, a, q);
    case _ => OthersTouch(s, step, k);
  }

  lemma AnswerTouches(s: State, ticket: string, kind: Kind, answer: Answer, q: Request, k: string)
    requires Inv(s)
    ensures var step := ByAnswer(ticket, kind, answer, q);
      (!Touches(s, step, k) ==> SameUser(s, Next(s, step), k)) &&
      (Touches(s, step, k) ==>
        k in s.users && k in Next(s, step).users &&
        Some(Profile(Next(s, step).users[k])) == ProfileAfter(Profile(s.users[k]), step))
  {
    hide Inv, UserKey, Respond, OneChallengeMore, Next;
    NextIs(s, ByAnswer(ticket, kind, answer, q));
    RespondIs(s, ticket, kind, answer, q);
    RefusedKeeps(s, ticket, kind, answer, q);
    if Proves(s, ticket, kind, answer, q) && !Respond(s, ticket, kind, answer, q).1.Tokens? {
      AskedKeepsUsers(s, ticket, kind, answer, q);
    }
  }

  lemma RevokeTouches(s: State, k: string, jti: string)
    requires k in s.users
    ensures var t := RevokeSessions(s, k, jti);
      (forall a :: a != k ==> SameUser(s, t, a)) && k in t.users && Profile(t.users[k]) == Profile(s.users[k]) &&
      t.users[k].sessions.Keys == s.users[k].sessions.Keys
    ensures forall j :: j in s.users[k].sessions ==>
      RevokeSessions(s, k, jti).users[k].sessions[j] ==
        if jti == "" || j == jti then s.users[k].sessions[j].(revoked := true) else s.users[k].sessions[j]
  {
  }

  lemma DeleteTouches(s: State, k: string)
    requires Inv(s) && k in s.users
    ensures var t := DeleteUser(s, k); k !in t.users && forall a :: a != k ==> SameUser(s, t, a)
  {
    hide Inv, UserKey;
    KeyedAt(s, k);
  }

  lemma RevokeCases(s: State, step: Step, k: string)
    requires Inv(s) && (step.Revoke? || step.SignOutSelf? || step.AdminSignOut? || step.SetEnabled? || step.ResetPassword?)
    ensures !Touches(s, step, k) ==> SameUser(s, Next(s, step), k)
    ensures Touches(s, step, k) && k in s.users ==>
      k in Next(s, step).users && Some(Profile(Next(s, step).users[k])) == ProfileAfter(Profile(s.users[k]), step)
  {
    hide Inv, UserKey, Authenticate, RevokeSessions;
    match step
    case Revoke(hash, client) =>
      RevokedAt(s, hash);
      if hash in s.refresh {
        RevokeTouches(s, s.refresh[hash].key, s.refresh[hash].jti);
      }
    case SignOutSelf(username, jti, exp, now) =>
      AuthenticateFinds(s, username, jti, exp, now);
      var a := Authenticate(s, username, jti, exp, now);
      if a.Ok? {
        RevokeTouches(s, a.value, "");
      }
    case AdminSignOut(a) =>
      if a in s.users {
        RevokeTouches(s, a, "");
      }
    case SetEnabled(a, enabled) =>
      if a in s.users {
        var u := SetUser(s, a, s.users[a].(enabled := enabled));
        RevokeTouches(u, a, "");
        assert k != a ==> SameUser(u, RevokeSessions(u, a, ""), k);
      }
    case ResetPassword(a, _) =>
      if a in s.users {
        var u := SetUser(s, a, s.users[a].(status := ResetRequired));
        RevokeTouches(u, a, "");
        assert k != a ==> SameUser(u, RevokeSessions(u, a, ""), k);
      }
    case _ =>
  }

  lemma OthersTouch(s: State, step: Step, k: string)
    requires Inv(s) && !step.Restart?
    requires !step.ByPassword? && !step.BySrp? && !step.ByAnswer? && !step.ByMint?
    ensures !Touches(s, step, k) ==> SameUser(s, Next(s, step), k)
    ensures Touches(s, step, k) && k in s.users ==>
      var p := ProfileAfter(Profile(s.users[k]), step);
      if p.None? then k !in Next(s, step).users else k in Next(s, step).users && Profile(Next(s, step).users[k]) == p.value
    ensures Touches(s, step, k) && step.CreateUser? ==>
      k in Next(s, step).users &&
      Next(s, step).users[k] == User(step.username, step.sub, step.status, true, step.temp, map[])
  {
    hide Inv, UserKey, IndexOf, Authenticate, RevokeSessions, DeleteUser;
    match step
    case CreateUser(_, _, _, _, _) =>
    case DeleteSelf(username, jti, exp, now) =>
      AuthenticateFinds(s, username, jti, exp, now);
      var a := Authenticate(s, username, jti, exp, now);
      if a.Ok? {
        DeleteTouches(s, a.value);
      }
    case AdminDelete(a) =>
      if a in s.users {
        DeleteTouches(s, a);
      }
    case SetPassword(_, _, _) =>
    case Flush =>
    case _ => RevokeCases(s, step, k);
  }

  lemma RevokedAt(s: State, hash: string)
    requires Inv(s)
    ensures hash in s.refresh ==> s.refresh[hash].key in s.users
  {
    hide UserKey, Drawn, Distinct, OneHolder, Keyed;
  }

  // ---------------------------------------------------------------- what happens to a session

  /** The step revokes session `j` of `k`: its own token, presented by its own client, or all of the user's. */
  ghost predicate Ends(s: State, step: Step, k: string, j: string)
    requires Live(s.users, k, j)
  {
    EndsAll(s, step, k) ||
    (step.Revoke? && step.hash == HashOf(s.users, k, j) && step.client == s.users[k].sessions[j].client)
  }

  /** The clock of a step that starts sessions. */
  function ClockOf(step: Step): Option<int> {
    match step
    case ByPassword(_, _, q) => Some(q.now)
    case ByAnswer(_, _, _, q) => Some(q.now)
    case ByMint(_, q) => Some(q.now)
    case _ => None
  }

  /**
   A session stays as it is until it is ended, and is dropped only with its user, or once expired when the user starts
   another one.
   */
  lemma SessionStays(s: State, step: Step, k: string, j: string)
    requires Inv(s) && Allowed(s, step) && !step.Restart? && Live(s.users, k, j)
    ensures var t := Next(s, step);
      if Live(t.users, k, j) then
        t.users[k].sessions[j] ==
          if Ends(s, step, k, j) then s.users[k].sessions[j].(revoked := true) else s.users[k].sessions[j]
      else (Touches(s, step, k) && ProfileAfter(s.users[k], step).None?) ||
           (ClockOf(step).Some? && s.users[k].sessions[j].expires < ClockOf(step).value)
  {
    hide Inv, UserKey, PasswordAuth, SrpAuth, Respond, Mint, Next, OneChallengeMore, Authenticate;
    DrawnApart(s, k, j);
    match step
    case ByPassword(username, sub, q) =>
      NextIs(s, step);
      PasswordExact(s, username, sub, q);
      var r := PasswordAuth(s, username, sub, q).1;
      MoreOfOne(s, Next(s, step), UserKey(s.caseSensitive, username), if r.Asked? then r.kind else NewPassword, q);
    case BySrp(username, sub, startOk, q) =>
      NextIs(s, step);
      SrpStartsNothing(s, username, sub, startOk, q);
    case ByAnswer(ticket, kind, answer, q) =>
      NextIs(s, step);
      RespondIs(s, ticket, kind, answer, q);
      RefusedKeeps(s, ticket, kind, answer, q);
      if Proves(s, ticket, kind, answer, q) && !Respond(s, ticket, kind, answer, q).1.Tokens? {
        AskedKeepsUsers(s, ticket, kind, answer, q);
      }
    case ByMint(a, q) =>
      NextIs(s, step);
      MintExact(s, a, q);
    case _ => OthersEnd(s, step, k, j);
  }

  lemma DrawnApart(s: State, k: string, j: string)
    requires Inv(s) && Live(s.users, k, j)
    ensures forall d: Draw :: Fresh(s, d) ==> d.jti != j
  {
    hide UserKey, Indexed, Distinct, OneHolder, Keyed;
  }

  lemma OthersEnd(s: State, step: Step, k: string, j: string)
    requires Inv(s) && !step.Restart? && Live(s.users, k, j)
    requires !step.ByPassword? && !step.BySrp? && !step.ByAnswer? && !step.ByMint?
    ensures var t := Next(s, step);
      if Live(t.users, k, j) then
        t.users[k].sessions[j] ==
          if Ends(s, step, k, j) then s.users[k].sessions[j].(revoked := true) else s.users[k].sessions[j]
      else Touches(s, step, k) && ProfileAfter(s.users[k], step).None?
  {
    hide Inv, UserKey, IndexOf, Authenticate, RevokeSessions, DeleteUser, Profile;
    match step
    case CreateUser(_, _, _, _, _) =>
    case DeleteSelf(username, jti, exp, now) =>
      AuthenticateFinds(s, username, jti, exp, now);
      var a := Authenticate(s, username, jti, exp, now);
      if a.Ok? {
        DeleteTouches(s, a.value);
        assert k != a.value ==> SameUser(s, Next(s, step), k);
      }
    case AdminDelete(a) =>
      if a in s.users {
        DeleteTouches(s, a);
        assert k != a ==> SameUser(s, Next(s, step), k);
      }
    case SetPassword(_, _, _) =>
    case Flush =>
    case _ => RevokesEnd(s, step, k, j);
  }

  lemma RevokesEnd(s: State, step: Step, k: string, j: string)
    requires Inv(s) && Live(s.users, k, j)
    requires step.Revoke? || step.SignOutSelf? || step.AdminSignOut? || step.SetEnabled? || step.ResetPassword?
    ensures var t := Next(s, step);
      Live(t.users, k, j) && t.users[k].sessions[j] ==
        if Ends(s, step, k, j) then s.users[k].sessions[j].(revoked := true) else s.users[k].sessions[j]
  {
    hide Inv, UserKey, Authenticate, RevokeSessions, Profile;
    match step
    case Revoke(hash, client) =>
      RevokedOne(s, hash, k, j);
      if hash in s.refresh {
        RevokeTouches(s, s.refresh[hash].key, s.refresh[hash].jti);
        assert k != s.refresh[hash].key ==> SameUser(s, Next(s, step), k);
      }
    case SignOutSelf(username, jti, exp, now) =>
      AuthenticateFinds(s, username, jti, exp, now);
      var a := Authenticate(s, username, jti, exp, now);
      if a.Ok? {
        RevokeTouches(s, a.value, "");
        assert k != a.value ==> SameUser(s, Next(s, step), k);
      }
    case AdminSignOut(a) =>
      if a in s.users {
        RevokeTouches(s, a, "");
        assert k != a ==> SameUser(s, Next(s, step), k);
      }
    case SetEnabled(a, enabled) =>
      if a in s.users {
        var u := SetUser(s, a, s.users[a].(enabled := enabled));
        RevokeTouches(u, a, "");
        assert k != a ==> SameUser(u, RevokeSessions(u, a, ""), k);
      }
    case ResetPassword(a, _) =>
      if a in s.users {
        var u := SetUser(s, a, s.users[a].(status := ResetRequired));
        RevokeTouches(u, a, "");
        assert k != a ==> SameUser(u, RevokeSessions(u, a, ""), k);
      }
    case _ =>
  }

  lemma RevokedOne(s: State, hash: string, k: string, j: string)
    requires Inv(s) && Live(s.users, k, j)
    ensures hash in s.refresh ==> Live(s.users, s.refresh[hash].key, s.refresh[hash].jti)
    ensures hash in s.refresh && s.refresh[hash] == Ref(k, j) <==> HashOf(s.users, k, j) == hash
    ensures hash in s.refresh ==> s.refresh[hash].jti != ""
  {
    hide UserKey, Distinct, OneHolder, Keyed;
  }

  /** Names are one user's exactly if they are equal, letter case aside where the pool says so. */
  lemma OneName(caseSensitive: bool, a: string, b: string)
    ensures UserKey(caseSensitive, a) == UserKey(caseSensitive, b) <==>
      if caseSensitive then a == b
      else |a| == |b| && forall i :: 0 <= i < |a| ==> LowerChar(a[i]) == LowerChar(b[i])
  {
    if !caseSensitive && Lower(a) == Lower(b) {
      forall i | 0 <= i < |a| ensures LowerChar(a[i]) == LowerChar(b[i]) {
        assert Lower(a)[i] == Lower(b)[i];
      }
    }
  }

  /** An access token is accepted until it runs out, as long as its user is enabled and has its session unrevoked. */
  lemma AccessExact(s: State, username: string, jti: string, exp: int, now: int, k: string)
    ensures Authenticate(s, username, jti, exp, now) == Ok(k) <==>
      now < exp && UserKey(s.caseSensitive, username) == k && Live(s.users, k, jti) && s.users[k].enabled &&
      !s.users[k].sessions[jti].revoked
  {
    hide UserKey;
  }

  /** The access token of a session just started is accepted until it runs out. */
  lemma StartedAuthenticates(s: State, k: string, q: Request, exp: int, later: int)
    requires Inv(s) && k in s.users && s.users[k].enabled
    ensures var t := StartSession(s, k, q.client, q.now, q.expires, q.draw);
      Authenticate(t, s.users[k].username, q.draw.jti, exp, later) == Ok(k) <==> later < exp
  {
    hide Inv, UserKey, StartSession;
    var t := StartSession(s, k, q.client, q.now, q.expires, q.draw);
    StartAddsOne(s, k, q);
    KeyedAt(s, k);
    SameFold(s, k, q);
    AccessExact(t, s.users[k].username, q.draw.jti, exp, later, k);
  }

  lemma SameFold(s: State, k: string, q: Request)
    requires k in s.users
    ensures StartSession(s, k, q.client, q.now, q.expires, q.draw).caseSensitive == s.caseSensitive
  {
    hide UserKey;
  }
}
