/**
 Sign-in sessions of one Cognito user pool (internal/cognito): the users' session maps, the refresh-token index
 beside them, pending challenges, and the copy last flushed to disk.
 */
module Sessions {
  import opened Strings
  import opened Wrappers

  datatype Session = Session(client: string, hash: string, expires: int, revoked: bool)

  datatype Status = Confirmed | Unconfirmed | ResetRequired | ForceChange

  /** `sub` is drawn once per user and stands for the identity of the user record. */
  datatype User = User(
    username: string, sub: string, status: Status, enabled: bool, tempExpires: Option<int>,
    sessions: map<string, Session>)

  datatype Ref = Ref(key: string, jti: string)

  datatype Kind = PasswordVerifier | Mfa(email: bool) | NewPassword

  datatype Challenge = Challenge(kind: Kind, client: string, key: string, expires: int)

  /** `ids`, `hashes` and `tickets` remember every session id, refresh-token hash and challenge session ever drawn. */
  datatype State = State(
    caseSensitive: bool, users: map<string, User>, refresh: map<string, Ref>, challenges: map<string, Challenge>,
    disk: map<string, User>, ids: set<string>, hashes: set<string>, tickets: set<string>)

  /** What the random generators return during one request. */
  datatype Draw = Draw(jti: string, hash: string, ticket: string)

  datatype AuthError =
    | InvalidToken | TokenRevoked | TokenExpired | Disabled | UserMissing | BadSecret | NotConfirmed
    | ResetNeeded | TempPasswordExpired | InvalidSession | IncorrectPassword | CodeMismatch | UsernameExists
    | WrongClient | NoRecovery | InvalidSrpA

  // ---------------------------------------------------------------- keys and the index

  /** pool.userKey, for ASCII names. */
  function UserKey(caseSensitive: bool, username: string): string {
    if caseSensitive then username else Lower(username)
  }

  predicate Live(users: map<string, User>, k: string, j: string) { k in users && j in users[k].sessions }

  function HashOf(users: map<string, User>, k: string, j: string): string
    requires Live(users, k, j)
  {
    users[k].sessions[j].hash
  }

  ghost function AllHashes(users: map<string, User>): set<string> {
    set k, j | k in users && j in users[k].sessions :: users[k].sessions[j].hash
  }

  /** The index of a set of users: every session's hash leads to that session. */
  ghost predicate Indexed(users: map<string, User>, refresh: map<string, Ref>) {
    (forall k, j :: Live(users, k, j) ==> HashOf(users, k, j) in refresh && refresh[HashOf(users, k, j)] == Ref(k, j)) &&
    forall h :: h in refresh ==> Live(users, refresh[h].key, refresh[h].jti) && HashOf(users, refresh[h].key, refresh[h].jti) == h
  }

  /** No two sessions share a refresh token. */
  ghost predicate Distinct(users: map<string, User>) {
    forall k, j, k', j' ::
      Live(users, k, j) && Live(users, k', j') && HashOf(users, k, j) == HashOf(users, k', j') ==> k == k' && j == j'
  }

  /** No two users have a session of the same id. */
  ghost predicate OneHolder(users: map<string, User>) {
    forall k, k', j :: Live(users, k, j) && Live(users, k', j) ==> k == k'
  }

  lemma IndexUnique(users: map<string, User>, a: map<string, Ref>, b: map<string, Ref>)
    requires Indexed(users, a) && Indexed(users, b)
    ensures a == b
  {
    forall h | h in a ensures h in b && a[h] == b[h] {
      assert Live(users, a[h].key, a[h].jti);
    }
    forall h | h in b ensures h in a {
      assert Live(users, b[h].key, b[h].jti);
    }
  }

  lemma IndexedDistinct(users: map<string, User>, refresh: map<string, Ref>)
    requires Indexed(users, refresh)
    ensures Distinct(users)
  {
  }

  /** What rebuildRefreshIndex leaves in an empty index. */
  ghost function IndexOf(users: map<string, User>): map<string, Ref> {
    map h | h in AllHashes(users) :: RefOf(users, h)
  }

  ghost function RefOf(users: map<string, User>, h: string): Ref
    requires h in AllHashes(users)
  {
    var k, j :| k in users && j in users[k].sessions && users[k].sessions[j].hash == h;
    Ref(k, j)
  }

  lemma IndexOfIndexed(users: map<string, User>)
    requires Distinct(users)
    ensures Indexed(users, IndexOf(users))
  {
    forall k, j | Live(users, k, j) ensures HashOf(users, k, j) in IndexOf(users) {
      assert users[k].sessions[j].hash in AllHashes(users);
    }
  }

  /** Every user is filed under the key of its own name. */
  predicate Keyed(caseSensitive: bool, users: map<string, User>) {
    forall k :: k in users ==> k == UserKey(caseSensitive, users[k].username)
  }

  /** Every session was drawn at some time. */
  ghost predicate Drawn(users: map<string, User>, ids: set<string>, hashes: set<string>) {
    forall k, j :: Live(users, k, j) ==> j in ids && HashOf(users, k, j) in hashes
  }

  ghost predicate Inv(s: State) {
    Indexed(s.users, s.refresh) && Keyed(s.caseSensitive, s.users) && Drawn(s.users, s.ids, s.hashes) &&
    OneHolder(s.users) && OneHolder(s.disk) && Distinct(s.disk) && Keyed(s.caseSensitive, s.disk) && Drawn(s.disk, s.ids, s.hashes) &&
    s.challenges.Keys <= s.tickets && "" !in s.ids
  }

  // ---------------------------------------------------------------- the parts every operation is made of

  function Unexpired(sessions: map<string, Session>, now: int): map<string, Session> {
    map j | j in sessions && now <= sessions[j].expires :: sessions[j]
  }

  function ExpiredHashes(sessions: map<string, Session>, now: int): set<string> {
    set j | j in sessions && sessions[j].expires < now :: sessions[j].hash
  }

  function HashesOf(sessions: map<string, Session>): set<string> {
    set j | j in sessions :: sessions[j].hash
  }

  /** startSession. */
  function StartSession(s: State, k: string, client: string, now: int, expires: int, d: Draw): State
    requires k in s.users
  {
    var u := s.users[k];
    s.(users := s.users[k := u.(sessions := Unexpired(u.sessions, now)[d.jti := Session(client, d.hash, expires, false)])],
       refresh := (s.refresh - ExpiredHashes(u.sessions, now))[d.hash := Ref(UserKey(s.caseSensitive, u.username), d.jti)],
       ids := s.ids + {d.jti}, hashes := s.hashes + {d.hash})
  }

  /** revokeSessions: one session, or all of them when no id is given. */
  function Revoked(sessions: map<string, Session>, jti: string): map<string, Session> {
    map j | j in sessions :: if jti == "" || j == jti then sessions[j].(revoked := true) else sessions[j]
  }

  function RevokeSessions(s: State, k: string, jti: string): State
    requires k in s.users
  {
    s.(users := s.users[k := s.users[k].(sessions := Revoked(s.users[k].sessions, jti))])
  }

  /** deleteUser. */
  function DeleteUser(s: State, k: string): State
    requires k in s.users
  {
    s.(users := s.users - {UserKey(s.caseSensitive, s.users[k].username)},
       refresh := s.refresh - HashesOf(s.users[k].sessions))
  }

  function Pending(challenges: map<string, Challenge>, now: int): map<string, Challenge> {
    map t | t in challenges && now <= challenges[t].expires :: challenges[t]
  }

  /** challenge. */
  function Ask(s: State, kind: Kind, k: string, client: string, now: int, life: nat, d: Draw): State
    requires k in s.users
  {
    var c := Challenge(kind, client, UserKey(s.caseSensitive, s.users[k].username), now + life);
    s.(challenges := Pending(s.challenges, now)[d.ticket := c], tickets := s.tickets + {d.ticket})
  }

  function SetUser(s: State, k: string, u: User): State { s.(users := s.users[k := u]) }

  // ---------------------------------------------------------------- invariant of the parts

  predicate Fresh(s: State, d: Draw) {
    d.jti !in s.ids && d.hash !in s.hashes && d.ticket !in s.tickets && d.jti != ""
  }

  lemma StartKeeps(s: State, k: string, client: string, now: int, expires: int, d: Draw)
    requires Inv(s) && k in s.users && Fresh(s, d)
    ensures Inv(StartSession(s, k, client, now, expires, d))
  {
    hide UserKey, Indexed, Distinct;
    var t := StartSession(s, k, client, now, expires, d);
    StartIndexed(s, k, client, now, expires, d);
    forall a, j | Live(t.users, a, j) ensures (a == k && j == d.jti) || (Live(s.users, a, j) && j != d.jti) {
    }
  }

  lemma StartIndexed(s: State, k: string, client: string, now: int, expires: int, d: Draw)
    requires Inv(s) && k in s.users && Fresh(s, d)
    ensures Indexed(StartSession(s, k, client, now, expires, d).users, StartSession(s, k, client, now, expires, d).refresh)
  {
    hide UserKey, Distinct;
    var t := StartSession(s, k, client, now, expires, d);
    var u := s.users[k];
    forall a, j | Live(t.users, a, j)
      ensures HashOf(t.users, a, j) in t.refresh && t.refresh[HashOf(t.users, a, j)] == Ref(a, j)
    {
      if a != k || j != d.jti {
        assert Live(s.users, a, j) && HashOf(t.users, a, j) == HashOf(s.users, a, j);
        OtherHashStays(s, k, a, j, now);
      }
    }
    forall h | h in t.refresh && h != d.hash
      ensures Live(t.users, t.refresh[h].key, t.refresh[h].jti) && HashOf(t.users, t.refresh[h].key, t.refresh[h].jti) == h
    {
      assert Live(s.users, s.refresh[h].key, s.refresh[h].jti);
    }
  }

  /** Pruning one user's expired sessions leaves every other session indexed. */
  lemma OtherHashStays(s: State, k: string, a: string, j: string, now: int)
    requires Inv(s) && k in s.users && Live(s.users, a, j)
    requires a == k ==> now <= s.users[k].sessions[j].expires
    ensures HashOf(s.users, a, j) !in ExpiredHashes(s.users[k].sessions, now)
  {
    hide UserKey;
    forall i | i in s.users[k].sessions && s.users[k].sessions[i].expires < now
      ensures s.users[k].sessions[i].hash != HashOf(s.users, a, j)
    {
      assert Live(s.users, k, i);
    }
  }

  /** A user edited without touching which sessions it has, or their hashes, keeps everything in order. */
  lemma EditKeeps(s: State, k: string, u: User)
    requires Inv(s) && k in s.users && u.username == s.users[k].username
    requires u.sessions.Keys == s.users[k].sessions.Keys
    requires forall j :: j in u.sessions ==> u.sessions[j].hash == s.users[k].sessions[j].hash
    ensures Inv(SetUser(s, k, u))
  {
    hide UserKey;
    var t := SetUser(s, k, u);
    forall a, j ensures Live(t.users, a, j) <==> Live(s.users, a, j) {
    }
    forall a, j | Live(t.users, a, j) ensures HashOf(t.users, a, j) == HashOf(s.users, a, j) {
    }
  }

  lemma RevokeKeeps(s: State, k: string, jti: string)
    requires Inv(s) && k in s.users
    ensures Inv(RevokeSessions(s, k, jti))
  {
    hide Inv, UserKey;
    EditKeeps(s, k, s.users[k].(sessions := Revoked(s.users[k].sessions, jti)));
  }

  lemma DeleteKeeps(s: State, k: string)
    requires Inv(s) && k in s.users
    ensures Inv(DeleteUser(s, k))
  {
    hide UserKey, Distinct;
    var t := DeleteUser(s, k);
    forall a, j | Live(t.users, a, j)
      ensures HashOf(t.users, a, j) in t.refresh && t.refresh[HashOf(t.users, a, j)] == Ref(a, j)
    {
      assert Live(s.users, a, j);
      forall i | i in s.users[k].sessions ensures s.users[k].sessions[i].hash != HashOf(s.users, a, j) {
        assert Live(s.users, k, i);
      }
    }
    forall h | h in t.refresh
      ensures Live(t.users, t.refresh[h].key, t.refresh[h].jti) && HashOf(t.users, t.refresh[h].key, t.refresh[h].jti) == h
    {
      assert Live(s.users, s.refresh[h].key, s.refresh[h].jti);
    }
    forall a, j | Live(t.users, a, j) ensures j in t.ids && HashOf(t.users, a, j) in t.hashes {
      assert Live(s.users, a, j);
    }
  }

  lemma AskKeeps(s: State, kind: Kind, k: string, client: string, now: int, life: nat, d: Draw)
    requires Inv(s) && k in s.users
    ensures Inv(Ask(s, kind, k, client, now, life, d))
  {
    hide UserKey, Indexed, Drawn, Distinct;
  }

  // ---------------------------------------------------------------- operations

  /** What a request brings besides its own parameters; `factor` is the second factor the pool asks of the user. */
  datatype Request = Request(
    client: string, now: int, expires: int, life: nat, secretOk: bool, factor: Option<bool>, draw: Draw)

  datatype Outcome = Tokens(jti: string, hash: string) | Asked(kind: Kind, ticket: string) | Failed(error: AuthError)

  datatype Answer = Right | Wrong | Unusable

  /** completeAuth. */
  function CompleteAuth(s: State, k: string, mfaDone: bool, q: Request): (State, Outcome)
    requires k in s.users
  {
    var u := s.users[k];
    match u.status
    case Unconfirmed => (s, Failed(NotConfirmed))
    case ResetRequired => (s, Failed(ResetNeeded))
    case ForceChange =>
      if u.tempExpires.Some? && u.tempExpires.value < q.now then (s, Failed(TempPasswordExpired))
      else (Ask(s, NewPassword, k, q.client, q.now, q.life, q.draw), Asked(NewPassword, q.draw.ticket))
    case Confirmed =>
      if !mfaDone && q.factor.Some? then
        var kind := Mfa(q.factor.value);
        (Ask(s, kind, k, q.client, q.now, q.life, q.draw), Asked(kind, q.draw.ticket))
      else (StartSession(s, k, q.client, q.now, q.expires, q.draw), Tokens(q.draw.jti, q.draw.hash))
  }

  /** The locked part of passwordAuth: the record checked without the lock must still be the user's. */
  function PasswordAuth(s: State, username: string, sub: string, q: Request): (State, Outcome) {
    var k := UserKey(s.caseSensitive, username);
    if k !in s.users || s.users[k].sub != sub then (s, Failed(UserMissing)) else CompleteAuth(s, k, false, q)
  }

  /** The locked part of srpAuth. */
  function SrpAuth(s: State, username: string, sub: string, startOk: bool, q: Request): (State, Outcome) {
    var k := UserKey(s.caseSensitive, username);
    if k !in s.users || s.users[k].sub != sub then (s, Failed(UserMissing))
    else if !s.users[k].enabled then (s, Failed(Disabled))
    else if !startOk then (s, Failed(InvalidSrpA))
    else (Ask(s, PasswordVerifier, k, q.client, q.now, q.life, q.draw), Asked(PasswordVerifier, q.draw.ticket))
  }

  predicate Answerable(s: State, ticket: string, kind: Kind, client: string, now: int) {
    ticket in s.challenges && s.challenges[ticket].kind == kind && s.challenges[ticket].client == client &&
    now <= s.challenges[ticket].expires
  }

  /** respondLocked. */
  function Respond(s: State, ticket: string, kind: Kind, answer: Answer, q: Request): (State, Outcome) {
    if !Answerable(s, ticket, kind, q.client, q.now) then (s, Failed(InvalidSession))
    else
      var k := s.challenges[ticket].key;
      var t := s.(challenges := s.challenges - {ticket});
      if k !in t.users then (t, Failed(UserMissing))
      else if !q.secretOk then (t, Failed(BadSecret))
      else
        match kind
        case PasswordVerifier => if answer != Right then (t, Failed(IncorrectPassword)) else CompleteAuth(t, k, false, q)
        case Mfa(_) =>
          (match answer
           case Right => CompleteAuth(t, k, true, q)
           case Wrong => (s, Failed(CodeMismatch))
           case Unusable => (t, Failed(InvalidToken)))
        case NewPassword =>
          if answer != Right then (t, Failed(InvalidToken))
          else CompleteAuth(SetUser(t, k, t.users[k].(status := Confirmed, tempExpires := None)), k, false, q)
  }

  /** MintTokens, for the user its name resolves to. */
  function Mint(s: State, k: string, q: Request): (State, Outcome) {
    if k !in s.users then (s, Failed(UserMissing))
    else if !s.users[k].enabled then (s, Failed(Disabled))
    else (StartSession(s, k, q.client, q.now, q.expires, q.draw), Tokens(q.draw.jti, q.draw.hash))
  }

  /** refreshLocked. */
  function Refresh(s: State, hash: string, client: string, now: int, secretOk: bool): Outcome {
    if hash !in s.refresh then Failed(InvalidToken)
    else
      var r := s.refresh[hash];
      if r.key !in s.users then Failed(InvalidToken)
      else
        var u := s.users[r.key];
        if r.jti !in u.sessions || u.sessions[r.jti].client != client then Failed(InvalidToken)
        else if !secretOk then Failed(BadSecret)
        else if u.sessions[r.jti].revoked then Failed(TokenRevoked)
        else if u.sessions[r.jti].expires < now then Failed(TokenExpired)
        else if !u.enabled then Failed(Disabled)
        else Tokens(r.jti, hash)
  }

  /** authenticateAccess, for a correctly signed access token with these claims: the user's key. */
  function Authenticate(s: State, username: string, jti: string, exp: int, now: int): Result<string> {
    var k := UserKey(s.caseSensitive, username);
    if exp <= now || k !in s.users || jti !in s.users[k].sessions || s.users[k].sessions[jti].revoked || !s.users[k].enabled
    then Err
    else Ok(k)
  }

  /** RevokeToken. */
  function RevokeToken(s: State, hash: string, client: string): (State, Option<AuthError>) {
    if hash !in s.refresh || s.refresh[hash].key !in s.users then (s, None)
    else
      var r := s.refresh[hash];
      var sessions := s.users[r.key].sessions;
      if r.jti in sessions && sessions[r.jti].client != client then (s, Some(WrongClient))
      else (RevokeSessions(s, r.key, r.jti), None)
  }

  datatype Step =
    | CreateUser(username: string, sub: string, status: Status, temp: Option<int>, clash: bool)
    | ByPassword(username: string, sub: string, q: Request)
    | BySrp(username: string, sub: string, startOk: bool, q: Request)
    | ByAnswer(ticket: string, kind: Kind, answer: Answer, q: Request)
    | ByMint(key: string, q: Request)
    | Revoke(hash: string, client: string)
    | SignOutSelf(username: string, jti: string, exp: int, now: int)
    | DeleteSelf(username: string, jti: string, exp: int, now: int)
    | AdminSignOut(key: string)
    | AdminDelete(key: string)
    | SetEnabled(key: string, enabled: bool)
    | ResetPassword(key: string, reachable: bool)
    | SetPassword(key: string, status: Status, temp: Option<int>)
    | Flush
    | Restart

  /** The state after one operation; reads (refresh, access checks) leave it alone. */
  ghost function Next(s: State, step: Step): State {
    match step
    case CreateUser(username, sub, status, temp, clash) =>
      var k := UserKey(s.caseSensitive, username);
      if clash || k in s.users then s else SetUser(s, k, User(username, sub, status, true, temp, map[]))
    case ByPassword(username, sub, q) => PasswordAuth(s, username, sub, q).0
    case BySrp(username, sub, startOk, q) => SrpAuth(s, username, sub, startOk, q).0
    case ByAnswer(ticket, kind, answer, q) => Respond(s, ticket, kind, answer, q).0
    case ByMint(k, q) => Mint(s, k, q).0
    case Revoke(hash, client) => RevokeToken(s, hash, client).0
    case SignOutSelf(username, jti, exp, now) =>
      var k := Authenticate(s, username, jti, exp, now);
      if k.Err? then s else RevokeSessions(s, k.value, "")
    case DeleteSelf(username, jti, exp, now) =>
      var k := Authenticate(s, username, jti, exp, now);
      if k.Err? then s else DeleteUser(s, k.value)
    case AdminSignOut(k) => if k !in s.users then s else RevokeSessions(s, k, "")
    case AdminDelete(k) => if k !in s.users then s else DeleteUser(s, k)
    case SetEnabled(k, enabled) =>
      if k !in s.users then s
      else
        var t := SetUser(s, k, s.users[k].(enabled := enabled));
        if enabled then t else RevokeSessions(t, k, "")
    case ResetPassword(k, reachable) =>
      if k !in s.users || !reachable then s
      else RevokeSessions(SetUser(s, k, s.users[k].(status := ResetRequired)), k, "")
    case SetPassword(k, status, temp) =>
      if k !in s.users then s else SetUser(s, k, s.users[k].(status := status, tempExpires := temp))
    case Flush => s.(disk := s.users)
    case Restart => s.(users := s.disk, refresh := IndexOf(s.disk), challenges := map[])
  }

  /** The generators never repeat themselves. */
  predicate Allowed(s: State, step: Step) {
    match step
    case ByPassword(_, _, q) => Fresh(s, q.draw)
    case BySrp(_, _, _, q) => Fresh(s, q.draw)
    case ByAnswer(_, _, _, q) => Fresh(s, q.draw)
    case ByMint(_, q) => Fresh(s, q.draw)
    case _ => true
  }

  // ---------------------------------------------------------------- every reachable state

  lemma CreateKeeps(s: State, k: string, u: User)
    requires Inv(s) && k !in s.users && k == UserKey(s.caseSensitive, u.username) && u.sessions == map[]
    ensures Inv(SetUser(s, k, u))
  {
    hide UserKey;
    var t := SetUser(s, k, u);
    forall a, j ensures Live(t.users, a, j) <==> Live(s.users, a, j) {
    }
  }

  lemma CompleteKeeps(s: State, k: string, mfaDone: bool, q: Request)
    requires Inv(s) && k in s.users && Fresh(s, q.draw)
    ensures Inv(CompleteAuth(s, k, mfaDone, q).0)
  {
    hide Inv, Ask, StartSession;
    AskKeeps(s, NewPassword, k, q.client, q.now, q.life, q.draw);
    if q.factor.Some? {
      AskKeeps(s, Mfa(q.factor.value), k, q.client, q.now, q.life, q.draw);
    }
    StartKeeps(s, k, q.client, q.now, q.expires, q.draw);
  }

  lemma ForgetKeeps(s: State, ticket: string)
    requires Inv(s)
    ensures Inv(s.(challenges := s.challenges - {ticket}))
  {
    hide Indexed, Drawn, Distinct, Keyed;
  }

  lemma RespondKeeps(s: State, ticket: string, kind: Kind, answer: Answer, q: Request)
    requires Inv(s) && Fresh(s, q.draw)
    ensures Inv(Respond(s, ticket, kind, answer, q).0)
  {
    hide Inv, CompleteAuth;
    if Answerable(s, ticket, kind, q.client, q.now) {
      var k := s.challenges[ticket].key;
      var t := s.(challenges := s.challenges - {ticket});
      ForgetKeeps(s, ticket);
      if k in t.users {
        CompleteKeeps(t, k, false, q);
        CompleteKeeps(t, k, true, q);
        var u := t.users[k].(status := Confirmed, tempExpires := None);
        EditKeeps(t, k, u);
        CompleteKeeps(SetUser(t, k, u), k, false, q);
      }
    }
  }

  lemma RestartKeeps(s: State)
    requires Inv(s)
    ensures Inv(Next(s, Restart))
  {
    hide IndexOf, Keyed, Drawn, Distinct, Indexed;
    IndexOfIndexed(s.disk);
  }

  lemma FlushKeeps(s: State)
    requires Inv(s)
    ensures Inv(Next(s, Flush))
  {
    hide Keyed, Drawn, Distinct, Indexed;
    IndexedDistinct(s.users, s.refresh);
  }

  lemma SignInKeeps(s: State, step: Step)
    requires Inv(s) && Allowed(s, step) && (step.ByPassword? || step.BySrp? || step.ByAnswer? || step.ByMint?)
    ensures Inv(Next(s, step))
  {
    hide Inv, UserKey, Ask, StartSession, CompleteAuth, Respond;
    match step
    case ByPassword(username, sub, q) =>
      var k := UserKey(s.caseSensitive, username);
      if k in s.users {
        CompleteKeeps(s, k, false, q);
      }
    case BySrp(username, sub, _, q) =>
      var k := UserKey(s.caseSensitive, username);
      if k in s.users {
        AskKeeps(s, PasswordVerifier, k, q.client, q.now, q.life, q.draw);
      }
    case ByAnswer(ticket, kind, answer, q) => RespondKeeps(s, ticket, kind, answer, q);
    case ByMint(k, q) =>
      if k in s.users {
        StartKeeps(s, k, q.client, q.now, q.expires, q.draw);
      }
    case _ =>
  }

  lemma AdminKeeps(s: State, step: Step)
    requires Inv(s) && (step.SetEnabled? || step.ResetPassword? || step.SetPassword?)
    ensures Inv(Next(s, step))
  {
    hide Inv, UserKey, RevokeSessions;
    if step.key in s.users {
      var u := s.users[step.key];
      match step
      case SetEnabled(k, enabled) =>
        EditKeeps(s, k, u.(enabled := enabled));
        RevokeKeeps(SetUser(s, k, u.(enabled := enabled)), k, "");
      case ResetPassword(k, _) =>
        EditKeeps(s, k, u.(status := ResetRequired));
        RevokeKeeps(SetUser(s, k, u.(status := ResetRequired)), k, "");
      case SetPassword(k, status, temp) => EditKeeps(s, k, u.(status := status, tempExpires := temp));
      case _ =>
    }
  }

  /** Every operation keeps the refresh index, the user keys and the record of what was drawn in agreement. */
  lemma StepKeeps(s: State, step: Step)
    requires Inv(s) && Allowed(s, step)
    ensures Inv(Next(s, step))
  {
    hide Inv, UserKey, RevokeSessions, DeleteUser, Authenticate, PasswordAuth, SrpAuth, Respond, Mint, Allowed;
    match step
    case CreateUser(username, sub, status, temp, clash) =>
      var k := UserKey(s.caseSensitive, username);
      if k !in s.users {
        CreateKeeps(s, k, User(username, sub, status, true, temp, map[]));
      }
    case Revoke(hash, client) =>
      if hash in s.refresh && s.refresh[hash].key in s.users {
        RevokeKeeps(s, s.refresh[hash].key, s.refresh[hash].jti);
      }
    case SignOutSelf(username, jti, exp, now) =>
      var k := UserKey(s.caseSensitive, username);
      AuthenticateFinds(s, username, jti, exp, now);
      if k in s.users {
        RevokeKeeps(s, k, "");
      }
    case DeleteSelf(username, jti, exp, now) =>
      var k := UserKey(s.caseSensitive, username);
      AuthenticateFinds(s, username, jti, exp, now);
      if k in s.users {
        DeleteKeeps(s, k);
      }
    case AdminSignOut(k) =>
      if k in s.users {
        RevokeKeeps(s, k, "");
      }
    case AdminDelete(k) =>
      if k in s.users {
        DeleteKeeps(s, k);
      }
    case SetEnabled(_, _) => AdminKeeps(s, step);
    case ResetPassword(_, _) => AdminKeeps(s, step);
    case SetPassword(_, _, _) => AdminKeeps(s, step);
    case Flush => FlushKeeps(s);
    case Restart => RestartKeeps(s);
    case _ => SignInKeeps(s, step);
  }

  lemma AuthenticateFinds(s: State, username: string, jti: string, exp: int, now: int)
    ensures var r := Authenticate(s, username, jti, exp, now);
      r.Ok? ==> r.value == UserKey(s.caseSensitive, username) && r.value in s.users
  {
    hide UserKey;
  }

  // ---------------------------------------------------------------- what a refresh token is worth

  /** Session `j` of user `k` may be refreshed by `client` at `now`; no index is consulted. */
  predicate Usable(s: State, k: string, j: string, client: string, now: int) {
    Live(s.users, k, j) && s.users[k].enabled &&
    var e := s.users[k].sessions[j]; e.client == client && !e.revoked && now <= e.expires
  }

  /** The lookup through the index finds exactly what a search of every user's sessions would. */
  lemma RefreshExact(s: State, hash: string, client: string, now: int, secretOk: bool)
    requires Inv(s)
    ensures Refresh(s, hash, client, now, secretOk).Tokens? <==>
      secretOk && exists k, j :: Usable(s, k, j, client, now) && HashOf(s.users, k, j) == hash
    ensures forall k, j :: secretOk && Usable(s, k, j, client, now) && HashOf(s.users, k, j) == hash ==>
      Refresh(s, hash, client, now, secretOk) == Tokens(j, hash)
  {
    hide Keyed, Drawn, Distinct;
    if hash in s.refresh {
      var r := s.refresh[hash];
      assert Live(s.users, r.key, r.jti) && HashOf(s.users, r.key, r.jti) == hash;
      assert Refresh(s, hash, client, now, secretOk).Tokens? ==> Usable(s, r.key, r.jti, client, now);
    }
  }

  /** A session just started refreshes, until it expires, for the client it was started for. */
  lemma StartedRefreshes(s: State, k: string, client: string, now: int, expires: int, d: Draw, later: int)
    requires Inv(s) && k in s.users && s.users[k].enabled && Fresh(s, d) && later <= expires
    ensures Refresh(StartSession(s, k, client, now, expires, d), d.hash, client, later, true) == Tokens(d.jti, d.hash)
  {
    hide Inv;
    var t := StartSession(s, k, client, now, expires, d);
    StartKeeps(s, k, client, now, expires, d);
    assert Usable(t, k, d.jti, client, later) && HashOf(t.users, k, d.jti) == d.hash;
    RefreshExact(t, d.hash, client, later, true);
  }

  /** No user has an unrevoked session with this id or this refresh token. */
  ghost predicate Gone(users: map<string, User>, jti: string, hash: string) {
    forall k, j :: Live(users, k, j) && (j == jti || HashOf(users, k, j) == hash) ==> users[k].sessions[j].revoked
  }

  /** A session that is gone can neither be refreshed nor authenticate an access token. */
  lemma GoneRefused(s: State, jti: string, hash: string)
    requires Inv(s) && Gone(s.users, jti, hash)
    ensures forall client, now, secretOk :: Refresh(s, hash, client, now, secretOk).Failed?
    ensures forall username, exp, now :: Authenticate(s, username, jti, exp, now).Err?
  {
    hide UserKey, Inv;
    forall client, now, secretOk ensures Refresh(s, hash, client, now, secretOk).Failed? {
      RefreshExact(s, hash, client, now, secretOk);
      GoneUnusable(s, jti, hash, client, now);
      RefreshTotal(s, hash, client, now, secretOk);
    }
    forall username, exp, now ensures Authenticate(s, username, jti, exp, now).Err? {
      assert Live(s.users, UserKey(s.caseSensitive, username), jti) ==>
        s.users[UserKey(s.caseSensitive, username)].sessions[jti].revoked;
    }
  }

  lemma GoneUnusable(s: State, jti: string, hash: string, client: string, now: int)
    requires Gone(s.users, jti, hash)
    ensures !exists k, j :: Usable(s, k, j, client, now) && HashOf(s.users, k, j) == hash
  {
  }

  lemma RefreshTotal(s: State, hash: string, client: string, now: int, secretOk: bool)
    ensures var r := Refresh(s, hash, client, now, secretOk); r.Tokens? || r.Failed?
  {
  }

  // ---------------------------------------------------------------- nothing comes back

  /** Every session after comes from one before, revoked if that was, or is newly drawn. */
  ghost predicate Carries(s: State, t: State) {
    s.ids <= t.ids && s.hashes <= t.hashes &&
    forall k, j :: Live(t.users, k, j) ==>
      Inherits(s.users, t.users, k, j) || (j !in s.ids && HashOf(t.users, k, j) !in s.hashes)
  }

  predicate Inherits(before: map<string, User>, after: map<string, User>, k: string, j: string)
    requires Live(after, k, j)
  {
    Live(before, k, j) && HashOf(before, k, j) == HashOf(after, k, j) &&
    (before[k].sessions[j].revoked ==> after[k].sessions[j].revoked)
  }

  lemma CarriesTransitive(s: State, t: State, u: State)
    requires Carries(s, t) && Carries(t, u)
    ensures Carries(s, u)
  {
  }

  lemma GoneCarried(s: State, t: State, jti: string, hash: string)
    requires Carries(s, t) && Gone(s.users, jti, hash) && jti in s.ids && hash in s.hashes
    ensures Gone(t.users, jti, hash)
  {
  }

  lemma StartCarries(s: State, k: string, client: string, now: int, expires: int, d: Draw)
    requires k in s.users && Fresh(s, d)
    ensures Carries(s, StartSession(s, k, client, now, expires, d))
  {
    hide UserKey;
  }

  lemma EditCarries(s: State, k: string, u: User)
    requires k in s.users ==>
      forall j :: j in u.sessions ==> j in s.users[k].sessions && u.sessions[j].hash == s.users[k].sessions[j].hash &&
                                      (s.users[k].sessions[j].revoked ==> u.sessions[j].revoked)
    requires k !in s.users ==> u.sessions == map[]
    ensures Carries(s, SetUser(s, k, u))
  {
  }

  lemma RevokeCarries(s: State, k: string, jti: string)
    requires k in s.users
    ensures Carries(s, RevokeSessions(s, k, jti))
  {
    hide Carries;
    EditCarries(s, k, s.users[k].(sessions := Revoked(s.users[k].sessions, jti)));
  }

  lemma DeleteCarries(s: State, k: string)
    requires k in s.users
    ensures Carries(s, DeleteUser(s, k))
  {
    hide UserKey;
  }

  lemma SameCarries(s: State, t: State)
    requires s.users == t.users && s.ids == t.ids && s.hashes == t.hashes
    ensures Carries(s, t)
  {
  }

  lemma CompleteCarries(s: State, k: string, mfaDone: bool, q: Request)
    requires k in s.users && Fresh(s, q.draw)
    ensures Carries(s, CompleteAuth(s, k, mfaDone, q).0)
  {
    hide Carries, StartSession, UserKey;
    StartCarries(s, k, q.client, q.now, q.expires, q.draw);
    forall t: State | t.users == s.users && t.ids == s.ids && t.hashes == s.hashes ensures Carries(s, t) {
      SameCarries(s, t);
    }
  }

  lemma RespondCarries(s: State, ticket: string, kind: Kind, answer: Answer, q: Request)
    requires Fresh(s, q.draw)
    ensures Carries(s, Respond(s, ticket, kind, answer, q).0)
  {
    hide Carries, CompleteAuth;
    SameCarries(s, s);
    if Answerable(s, ticket, kind, q.client, q.now) {
      var k := s.challenges[ticket].key;
      var t := s.(challenges := s.challenges - {ticket});
      SameCarries(s, t);
      if k in t.users {
        RespondedCarries(s, t, k, q);
      }
    }
  }

  lemma RespondedCarries(s: State, t: State, k: string, q: Request)
    requires k in t.users && Fresh(t, q.draw) && Carries(s, t)
    ensures Carries(s, CompleteAuth(t, k, false, q).0) && Carries(s, CompleteAuth(t, k, true, q).0)
    ensures Carries(s, CompleteAuth(SetUser(t, k, t.users[k].(status := Confirmed, tempExpires := None)), k, false, q).0)
  {
    hide Carries, CompleteAuth;
    CompleteCarries(t, k, false, q);
    CompleteCarries(t, k, true, q);
    CarriesTransitive(s, t, CompleteAuth(t, k, false, q).0);
    CarriesTransitive(s, t, CompleteAuth(t, k, true, q).0);
    var e := t.users[k].(status := Confirmed, tempExpires := None);
    var u := SetUser(t, k, e);
    EditCarries(t, k, e);
    CompleteCarries(u, k, false, q);
    CarriesTransitive(t, u, CompleteAuth(u, k, false, q).0);
    CarriesTransitive(s, t, CompleteAuth(u, k, false, q).0);
  }

  lemma SignInCarries(s: State, step: Step)
    requires Allowed(s, step) && (step.ByPassword? || step.BySrp? || step.ByAnswer? || step.ByMint?)
    ensures Carries(s, Next(s, step))
  {
    hide Carries, UserKey, StartSession, CompleteAuth, Respond;
    SameCarries(s, s);
    match step
    case ByPassword(username, sub, q) =>
      var k := UserKey(s.caseSensitive, username);
      if k in s.users {
        CompleteCarries(s, k, false, q);
      }
    case BySrp(username, sub, _, q) =>
      var k := UserKey(s.caseSensitive, username);
      if k in s.users {
        SameCarries(s, Ask(s, PasswordVerifier, k, q.client, q.now, q.life, q.draw));
      }
    case ByAnswer(ticket, kind, answer, q) => RespondCarries(s, ticket, kind, answer, q);
    case ByMint(k, q) =>
      if k in s.users {
        StartCarries(s, k, q.client, q.now, q.expires, q.draw);
      }
    case _ =>
  }

  lemma AdminCarries(s: State, step: Step)
    requires step.SetEnabled? || step.ResetPassword? || step.SetPassword?
    ensures Carries(s, Next(s, step))
  {
    hide Carries, RevokeSessions;
    SameCarries(s, s);
    if step.key in s.users {
      var u := s.users[step.key];
      match step
      case SetEnabled(k, enabled) => EditThenRevoke(s, k, u.(enabled := enabled));
      case ResetPassword(k, _) => EditThenRevoke(s, k, u.(status := ResetRequired));
      case SetPassword(k, status, temp) => EditThenRevoke(s, k, u.(status := status, tempExpires := temp));
      case _ =>
    }
  }

  lemma EditThenRevoke(s: State, k: string, u: User)
    requires k in s.users && u.sessions == s.users[k].sessions
    ensures Carries(s, SetUser(s, k, u)) && Carries(s, RevokeSessions(SetUser(s, k, u), k, ""))
  {
    hide Carries, RevokeSessions;
    var t := SetUser(s, k, u);
    EditCarries(s, k, u);
    RevokeCarries(t, k, "");
    CarriesTransitive(s, t, RevokeSessions(t, k, ""));
  }

  /** No operation but a restart brings a session back or makes one that was not drawn for it. */
  lemma StepCarries(s: State, step: Step)
    requires Allowed(s, step) && !step.Restart?
    ensures Carries(s, Next(s, step))
  {
    hide Carries, UserKey, RevokeSessions, DeleteUser, Authenticate, PasswordAuth, SrpAuth, Respond, Mint, Allowed;
    SameCarries(s, s);
    match step
    case CreateUser(username, sub, status, temp, clash) =>
      var k := UserKey(s.caseSensitive, username);
      if k !in s.users {
        EditCarries(s, k, User(username, sub, status, true, temp, map[]));
      }
    case Revoke(hash, client) =>
      if hash in s.refresh && s.refresh[hash].key in s.users {
        RevokeCarries(s, s.refresh[hash].key, s.refresh[hash].jti);
      }
    case SignOutSelf(username, jti, exp, now) =>
      AuthenticateFinds(s, username, jti, exp, now);
      var k := UserKey(s.caseSensitive, username);
      if k in s.users {
        RevokeCarries(s, k, "");
      }
    case DeleteSelf(username, jti, exp, now) =>
      AuthenticateFinds(s, username, jti, exp, now);
      var k := UserKey(s.caseSensitive, username);
      if k in s.users {
        DeleteCarries(s, k);
      }
    case AdminSignOut(k) =>
      if k in s.users {
        RevokeCarries(s, k, "");
      }
    case AdminDelete(k) =>
      if k in s.users {
        DeleteCarries(s, k);
      }
    case SetEnabled(_, _) => AdminCarries(s, step);
    case ResetPassword(_, _) => AdminCarries(s, step);
    case SetPassword(_, _, _) => AdminCarries(s, step);
    case Flush => SameCarries(s, s.(disk := s.users));
    case _ => SignInCarries(s, step);
  }

  // ---------------------------------------------------------------- runs

  ghost function Run(s: State, steps: seq<Step>): State
    decreases steps
  {
    if steps == [] then s else Run(Next(s, steps[0]), steps[1..])
  }

  ghost predicate Possible(s: State, steps: seq<Step>)
    decreases steps
  {
    steps == [] || (Allowed(s, steps[0]) && Possible(Next(s, steps[0]), steps[1..]))
  }

  /** In every reachable state, reloads included, the index is what rebuilding it would give. */
  lemma {:induction false} IndexAlwaysRebuilt(s: State, steps: seq<Step>)
    requires Inv(s) && Possible(s, steps)
    ensures Inv(Run(s, steps)) && Run(s, steps).refresh == IndexOf(Run(s, steps).users)
    decreases steps
  {
    hide Inv, Next, Allowed;
    if steps == [] {
      InvIndex(s);
    } else {
      StepKeeps(s, steps[0]);
      IndexAlwaysRebuilt(Next(s, steps[0]), steps[1..]);
    }
  }

  lemma InvIndex(s: State)
    requires Inv(s)
    ensures s.refresh == IndexOf(s.users)
  {
    hide Indexed, IndexOf;
    IndexedDistinct(s.users, s.refresh);
    IndexOfIndexed(s.users);
    IndexUnique(s.users, s.refresh, IndexOf(s.users));
  }

  /** Every restart of the run finds on disk a state that some earlier step of the run wrote. */
  predicate FlushedFirst(steps: seq<Step>) {
    steps == [] || steps[0].Flush? || (!steps[0].Restart? && FlushedFirst(steps[1..]))
  }

  /**
   Once a session is gone it is refused after every run whose restarts come after a flush, whatever else happens,
   the creation of a user of the same name included; when the disk already agrees, restarts do not matter at all.
   */
  lemma {:induction false} GoneForever(s: State, steps: seq<Step>, jti: string, hash: string)
    requires Inv(s) && Possible(s, steps) && Gone(s.users, jti, hash) && jti in s.ids && hash in s.hashes
    requires FlushedFirst(steps) || Gone(s.disk, jti, hash)
    ensures Gone(Run(s, steps).users, jti, hash)
    ensures forall client, now, secretOk :: Refresh(Run(s, steps), hash, client, now, secretOk).Failed?
    ensures forall username, exp, now :: Authenticate(Run(s, steps), username, jti, exp, now).Err?
    decreases steps
  {
    hide Inv, Next, Allowed, Gone, Refresh, Authenticate;
    if steps == [] {
      GoneRefused(s, jti, hash);
    } else {
      StepKeeps(s, steps[0]);
      GoneStep(s, steps[0], jti, hash);
      GoneForever(Next(s, steps[0]), steps[1..], jti, hash);
    }
  }

  lemma GoneStep(s: State, step: Step, jti: string, hash: string)
    requires Inv(s) && Allowed(s, step) && Gone(s.users, jti, hash) && jti in s.ids && hash in s.hashes
    requires step.Restart? ==> Gone(s.disk, jti, hash)
    ensures var t := Next(s, step);
      Gone(t.users, jti, hash) && jti in t.ids && hash in t.hashes &&
      (step.Flush? || Gone(s.disk, jti, hash) ==> Gone(t.disk, jti, hash))
  {
    hide Inv, Gone, Allowed, PasswordAuth, SrpAuth, Respond, Mint, UserKey, IndexOf, RevokeToken, Authenticate;
    if !step.Restart? {
      StepCarries(s, step);
      GoneCarried(s, Next(s, step), jti, hash);
      if !step.Flush? {
        StepLeavesDisk(s, step);
      }
    }
  }

  lemma StepLeavesDisk(s: State, step: Step)
    requires !step.Flush? && !step.Restart?
    ensures Next(s, step).disk == s.disk
  {
    hide UserKey, Authenticate, IndexOf, CompleteAuth, Respond, RevokeSessions, DeleteUser, StartSession, Ask;
    match step
    case ByPassword(username, _, q) => CompleteLeavesDisk(s, UserKey(s.caseSensitive, username), false, q);
    case ByAnswer(ticket, kind, answer, q) => RespondLeavesDisk(s, ticket, kind, answer, q);
    case SignOutSelf(username, jti, exp, now) =>
      AuthenticateFinds(s, username, jti, exp, now);
      PartsLeaveDisk();
    case DeleteSelf(username, jti, exp, now) =>
      AuthenticateFinds(s, username, jti, exp, now);
      PartsLeaveDisk();
    case _ => PartsLeaveDisk();
  }

  /** Neither revoking, deleting, starting a session nor asking a challenge writes the file. */
  lemma PartsLeaveDisk()
    ensures forall s: State, k, jti :: k in s.users ==> RevokeSessions(s, k, jti).disk == s.disk
    ensures forall s: State, k :: k in s.users ==> DeleteUser(s, k).disk == s.disk
    ensures forall s: State, k, client, now, expires, d :: k in s.users ==>
      StartSession(s, k, client, now, expires, d).disk == s.disk
    ensures forall s: State, kind, k, client, now, life, d :: k in s.users ==>
      Ask(s, kind, k, client, now, life, d).disk == s.disk
  {
    hide UserKey;
  }

  lemma CompleteLeavesDisk(s: State, k: string, mfaDone: bool, q: Request)
    ensures k in s.users ==> CompleteAuth(s, k, mfaDone, q).0.disk == s.disk
  {
    hide Ask, StartSession;
    PartsLeaveDisk();
  }

  lemma RespondLeavesDisk(s: State, ticket: string, kind: Kind, answer: Answer, q: Request)
    ensures Respond(s, ticket, kind, answer, q).0.disk == s.disk
  {
    hide CompleteAuth;
    if Answerable(s, ticket, kind, q.client, q.now) {
      var k := s.challenges[ticket].key;
      var t := s.(challenges := s.challenges - {ticket});
      CompleteLeavesDisk(t, k, false, q);
      CompleteLeavesDisk(t, k, true, q);
      if k in t.users {
        CompleteLeavesDisk(SetUser(t, k, t.users[k].(status := Confirmed, tempExpires := None)), k, false, q);
      }
    }
  }

  /**
   Otherwise the first restart decides: with nothing flushed before it, the session is gone afterwards exactly when
   the disk already had it gone.
   */
  lemma {:induction false} FirstRestartDecides(s: State, steps: seq<Step>, jti: string, hash: string)
    requires forall i :: 0 <= i < |steps| ==> !steps[i].Flush? && !steps[i].Restart?
    ensures Gone(Run(s, steps + [Restart]).users, jti, hash) <==> Gone(s.disk, jti, hash)
    decreases steps
  {
    hide Gone, Next;
    if steps == [] {
      assert Run(s, [Restart]) == Run(Next(s, Restart), []);
      RestartUsers(s);
    } else {
      assert (steps + [Restart])[1..] == steps[1..] + [Restart];
      StepLeavesDisk(s, steps[0]);
      FirstRestartDecides(Next(s, steps[0]), steps[1..], jti, hash);
    }
  }

  lemma RestartUsers(s: State)
    ensures Next(s, Restart).users == s.disk
  {
  }

  /** A signed-in user whose session has reached the disk. */
  ghost function SignedIn(): State {
    var users := map["ann" := User("ann", "1", Confirmed, true, None, map["j" := Session("app", "h", 9, false)])];
    State(true, users, map["h" := Ref("ann", "j")], map[], users, {"j"}, {"h"}, {})
  }

  lemma SignedInOk()
    ensures Inv(SignedIn()) && Live(SignedIn().users, "ann", "j") && HashOf(SignedIn().users, "ann", "j") == "h"
  {
    var s := SignedIn();
    assert Live(s.users, "ann", "j");
  }

  /** Revoke, stop before the flusher ran, start again: the token refreshes. */
  lemma RevocationLost()
    ensures var t := Next(SignedIn(), Revoke("h", "app"));
      Refresh(t, "h", "app", 0, true) == Failed(TokenRevoked) && Refresh(Next(t, Restart), "h", "app", 0, true).Tokens?
  {
    hide Inv, IndexOf, UserKey, Refresh;
    var s := SignedIn();
    SignedInOk();
    var t := Next(s, Revoke("h", "app"));
    RevokeKeeps(s, "ann", "j");
    RestartKeeps(t);
    var r := Next(t, Restart);
    assert Usable(r, "ann", "j", "app", 0) && HashOf(r.users, "ann", "j") == "h";
    RefreshExact(r, "h", "app", 0, true);
    assert Refresh(t, "h", "app", 0, true) == Failed(TokenRevoked) by { RevokedRefused(); }
  }

  lemma RevokedRefused()
    ensures Refresh(Next(SignedIn(), Revoke("h", "app")), "h", "app", 0, true) == Failed(TokenRevoked)
  {
  }

  // ---------------------------------------------------------------- what ends a session

  /** Revoking a session, or all of a user's, leaves it gone. */
  lemma RevokeEnds(s: State, k: string, jti: string, j: string)
    requires Inv(s) && Live(s.users, k, j) && (jti == "" || jti == j)
    ensures Gone(RevokeSessions(s, k, jti).users, j, HashOf(s.users, k, j))
  {
    hide UserKey, Keyed, Drawn;
    var t := RevokeSessions(s, k, jti);
    IndexedDistinct(s.users, s.refresh);
    forall a, i | Live(t.users, a, i) && (i == j || HashOf(t.users, a, i) == HashOf(s.users, k, j))
      ensures t.users[a].sessions[i].revoked
    {
      assert Live(s.users, a, i) && HashOf(t.users, a, i) == HashOf(s.users, a, i);
    }
  }

  lemma DeleteEnds(s: State, k: string, j: string)
    requires Inv(s) && Live(s.users, k, j)
    ensures Gone(DeleteUser(s, k).users, j, HashOf(s.users, k, j))
  {
    hide UserKey, Drawn;
    var t := DeleteUser(s, k);
    IndexedDistinct(s.users, s.refresh);
    forall a, i | Live(t.users, a, i) ensures i != j && HashOf(t.users, a, i) != HashOf(s.users, k, j) {
      assert Live(s.users, a, i) && HashOf(t.users, a, i) == HashOf(s.users, a, i);
    }
  }

  /** The client a refresh token was issued to ends its session by revoking it; no other client can. */
  lemma RevokeTokenEnds(s: State, k: string, j: string, client: string)
    requires Inv(s) && Live(s.users, k, j)
    ensures var hash := HashOf(s.users, k, j);
      if s.users[k].sessions[j].client == client then Gone(Next(s, Revoke(hash, client)).users, j, hash)
      else Next(s, Revoke(hash, client)) == s
  {
    hide Gone, RevokeSessions, Keyed, Drawn, Distinct, OneHolder;
    RevokeEnds(s, k, j, j);
  }

  /** Sign-out, disabling, a reset and deletion each end every session the user had. */
  predicate EndsAll(s: State, step: Step, k: string) {
    match step
    case AdminSignOut(a) => a == k
    case AdminDelete(a) => a == k
    case SetEnabled(a, enabled) => a == k && !enabled
    case ResetPassword(a, reachable) => a == k && reachable
    case SignOutSelf(username, jti, exp, now) => Authenticate(s, username, jti, exp, now) == Ok(k)
    case DeleteSelf(username, jti, exp, now) => Authenticate(s, username, jti, exp, now) == Ok(k)
    case _ => false
  }

  lemma AllEnded(s: State, step: Step, k: string, j: string)
    requires Inv(s) && Live(s.users, k, j) && EndsAll(s, step, k)
    ensures Gone(Next(s, step).users, j, HashOf(s.users, k, j))
  {
    hide Inv, Gone, RevokeSessions, DeleteUser, UserKey, Authenticate;
    RevokeEnds(s, k, "", j);
    DeleteEnds(s, k, j);
    var u := s.users[k];
    EditKeeps(s, k, u.(enabled := false));
    RevokeEnds(SetUser(s, k, u.(enabled := false)), k, "", j);
    EditKeeps(s, k, u.(status := ResetRequired));
    RevokeEnds(SetUser(s, k, u.(status := ResetRequired)), k, "", j);
  }

  // ---------------------------------------------------------------- challenges

  /** A challenge session that was handed out and is no longer pending. */
  predicate Spent(s: State, ticket: string) { ticket in s.tickets && ticket !in s.challenges }

  /** Answering spends the challenge, unless the answer is refused as not matching it or is a mistyped code. */
  lemma AnswerSpends(s: State, ticket: string, kind: Kind, answer: Answer, q: Request)
    requires Inv(s) && Fresh(s, q.draw)
    ensures var (t, r) := Respond(s, ticket, kind, answer, q);
      if r == Failed(InvalidSession) || r == Failed(CodeMismatch) then t == s else Spent(t, ticket)
  {
    hide Indexed, Drawn, Distinct, OneHolder, Keyed, UserKey, CompleteAuth;
    if Answerable(s, ticket, kind, q.client, q.now) {
      var k := s.challenges[ticket].key;
      var t := s.(challenges := s.challenges - {ticket});
      if k in t.users {
        CompleteSpares(t, k, false, q, ticket);
        CompleteSpares(t, k, true, q, ticket);
        CompleteSpares(SetUser(t, k, t.users[k].(status := Confirmed, tempExpires := None)), k, false, q, ticket);
      }
    }
  }

  /** A spent challenge stays spent through every operation and answering it is refused. */
  lemma SpentStays(s: State, step: Step, ticket: string)
    requires Allowed(s, step) && Spent(s, ticket)
    ensures Spent(Next(s, step), ticket)
    ensures forall kind, answer, q :: Respond(s, ticket, kind, answer, q) == (s, Failed(InvalidSession))
  {
    hide UserKey, IndexOf, Authenticate, CompleteAuth;
    if step.ByAnswer? || step.ByPassword? {
      forall t: State, k, mfaDone, q: Request | k in t.users && Spent(t, ticket) && Fresh(t, q.draw)
        ensures Spent(CompleteAuth(t, k, mfaDone, q).0, ticket)
      {
        CompleteSpares(t, k, mfaDone, q, ticket);
      }
    }
  }

  lemma CompleteSpares(s: State, k: string, mfaDone: bool, q: Request, ticket: string)
    requires k in s.users && Spent(s, ticket) && Fresh(s, q.draw)
    ensures Spent(CompleteAuth(s, k, mfaDone, q).0, ticket)
    ensures CompleteAuth(s, k, mfaDone, q).1 !in {Failed(InvalidSession), Failed(CodeMismatch)}
  {
    hide UserKey;
  }
}
