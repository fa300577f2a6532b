/**
 The user pool as the service updates it (internal/cognito): each locked operation edits the maps in place and is
 proved to take the step of the same name in Sessions.
 */
module UserPools {
  import opened Wrappers
  import opened S = Sessions

  // ---------------------------------------------------------------- partial results of the loops

  /** The sessions filed so far by rebuildRefreshIndex, and nothing else. */
  ghost predicate Filed(users: map<string, User>, refresh: map<string, Ref>, done: set<Ref>) {
    (forall r :: r in done ==> Live(users, r.key, r.jti) && HashOf(users, r.key, r.jti) in refresh &&
                               refresh[HashOf(users, r.key, r.jti)] == r) &&
    forall h :: h in refresh ==> refresh[h] in done && HashOf(users, refresh[h].key, refresh[h].jti) == h
  }

  lemma FileOne(users: map<string, User>, refresh: map<string, Ref>, done: set<Ref>, r: Ref)
    requires Distinct(users) && Filed(users, refresh, done) && Live(users, r.key, r.jti)
    ensures Filed(users, refresh[HashOf(users, r.key, r.jti) := r], done + {r})
  {
  }

  lemma FiledAll(users: map<string, User>, refresh: map<string, Ref>, done: set<Ref>)
    requires Filed(users, refresh, done) && forall k, j :: Live(users, k, j) ==> Ref(k, j) in done
    ensures Indexed(users, refresh)
  {
    forall k, j | Live(users, k, j) ensures HashOf(users, k, j) in refresh && refresh[HashOf(users, k, j)] == Ref(k, j) {
      assert Ref(k, j) in done;
    }
  }

  lemma FiledNone(users: map<string, User>)
    ensures Filed(users, map[], {})
  {
  }

  function Part(sessions: map<string, Session>, keys: set<string>): map<string, Session> {
    map j | j in sessions && j in keys :: sessions[j]
  }

  lemma PartHashes(sessions: map<string, Session>, keys: set<string>, j: string)
    requires j in sessions && keys <= sessions.Keys
    ensures HashesOf(Part(sessions, keys + {j})) == HashesOf(Part(sessions, keys)) + {sessions[j].hash}
  {
    var all, some := Part(sessions, keys + {j}), Part(sessions, keys);
    forall h | h in HashesOf(some) ensures h in HashesOf(all) {
      var i :| i in some && some[i].hash == h;
      assert all[i] == some[i];
    }
    assert all[j] == sessions[j];
  }

  lemma PartNone(sessions: map<string, Session>, now: int)
    ensures Unexpired(Part(sessions, {}), now) == map[] && ExpiredHashes(Part(sessions, {}), now) == {}
  {
  }

  lemma PartOneMore(sessions: map<string, Session>, done: set<string>, j: string, now: int)
    requires j in sessions && done <= sessions.Keys && j !in done
    ensures ExpiredHashes(Part(sessions, done + {j}), now) ==
      ExpiredHashes(Part(sessions, done), now) + if sessions[j].expires < now then {sessions[j].hash} else {}
    ensures Unexpired(Part(sessions, done + {j}), now) ==
      if sessions[j].expires < now then Unexpired(Part(sessions, done), now)
      else Unexpired(Part(sessions, done), now)[j := sessions[j]]
  {
    var all, some := Part(sessions, done + {j}), Part(sessions, done);
    forall h | h in ExpiredHashes(some, now) ensures h in ExpiredHashes(all, now) {
      var i :| i in some && some[i].expires < now && some[i].hash == h;
      assert all[i] == some[i];
    }
    assert all[j] == sessions[j];
  }

  // ---------------------------------------------------------------- the pool

  /** The user pool and its locked operations. */
  class Pool {
    const caseSensitive: bool
    var users: map<string, User>
    var refresh: map<string, Ref>
    var challenges: map<string, Challenge>
    var disk: map<string, User>
    ghost var ids: set<string>
    ghost var hashes: set<string>
    ghost var tickets: set<string>

    ghost function Now(): State
      reads this
    {
      State(caseSensitive, users, refresh, challenges, disk, ids, hashes, tickets)
    }

    ghost predicate Valid()
      reads this
    {
      Inv(Now())
    }

    constructor (caseSensitive: bool)
      ensures Valid() && Now() == State(caseSensitive, map[], map[], map[], map[], {}, {}, {})
    {
      this.caseSensitive := caseSensitive;
      users, refresh, challenges, disk := map[], map[], map[], map[];
      ids, hashes, tickets := {}, {}, {};
    }

    /** The pruning loop of startSession: expired sessions leave the user and the index together. */
    method Prune(k: string, now: int) returns (kept: map<string, Session>)
      requires k in users
      modifies this`refresh
      ensures kept == Unexpired(users[k].sessions, now)
      ensures refresh == old(refresh) - ExpiredHashes(users[k].sessions, now)
    {
      hide UserKey, Unexpired, ExpiredHashes;
      var before := users[k].sessions;
      var todo := before.Keys;
      kept := map[];
      ghost var done: set<string> := {};
      PartNone(before, now);
      while todo != {}
        invariant todo <= before.Keys && done == before.Keys - todo
        invariant kept == Unexpired(Part(before, done), now)
        invariant refresh == old(refresh) - ExpiredHashes(Part(before, done), now)
        decreases todo
      {
        var j :| j in todo;
        PartOneMore(before, done, j, now);
        todo, done := todo - {j}, done + {j};
        if before[j].expires < now {
          refresh := refresh - {before[j].hash};
        } else {
          kept := kept[j := before[j]];
        }
      }
      assert Part(before, done) == before;
    }

    method StartSession(k: string, client: string, now: int, expires: int, d: Draw)
      requires k in users
      modifies this
      ensures Now() == S.StartSession(old(Now()), k, client, now, expires, d)
    {
      hide UserKey, Unexpired, ExpiredHashes;
      var kept := Prune(k, now);
      users := users[k := users[k].(sessions := kept[d.jti := Session(client, d.hash, expires, false)])];
      refresh := refresh[d.hash := Ref(UserKey(caseSensitive, users[k].username), d.jti)];
      ids, hashes := ids + {d.jti}, hashes + {d.hash};
    }

    method RevokeSessions(k: string, jti: string)
      requires k in users
      modifies this`users
      ensures Now() == S.RevokeSessions(old(Now()), k, jti)
    {
      var before := users[k].sessions;
      var todo := before.Keys;
      var after := before;
      while todo != {}
        invariant todo <= before.Keys && after.Keys == before.Keys
        invariant forall j :: j in todo ==> after[j] == before[j]
        invariant forall j :: j in before.Keys - todo ==> after[j] == Revoked(before, jti)[j]
        decreases todo
      {
        var j :| j in todo;
        todo := todo - {j};
        if jti == "" || j == jti {
          after := after[j := after[j].(revoked := true)];
        }
      }
      assert after == Revoked(before, jti);
      users := users[k := users[k].(sessions := after)];
    }

    method DeleteUser(k: string)
      requires k in users
      modifies this`users, this`refresh
      ensures Now() == S.DeleteUser(old(Now()), k)
    {
      hide UserKey;
      var sessions := users[k].sessions;
      var todo := sessions.Keys;
      while todo != {}
        invariant todo <= sessions.Keys && users == old(users)
        invariant refresh == old(refresh) - HashesOf(Part(sessions, sessions.Keys - todo))
        decreases todo
      {
        var j :| j in todo;
        ghost var done := sessions.Keys - todo;
        todo := todo - {j};
        assert sessions.Keys - todo == done + {j};
        assert HashesOf(Part(sessions, done + {j})) == HashesOf(Part(sessions, done)) + {sessions[j].hash} by {
          PartHashes(sessions, done, j);
        }
        refresh := refresh - {sessions[j].hash};
      }
      assert Part(sessions, sessions.Keys - todo) == sessions;
      users := users - {UserKey(caseSensitive, users[k].username)};
    }

    /** ensureMaps and rebuildRefreshIndex on a pool just read back. */
    method Load()
      requires Distinct(disk)
      modifies this`users, this`refresh, this`challenges
      ensures Now() == Next(old(Now()), Restart)
    {
      hide Indexed, IndexOf, Filed;
      users, refresh, challenges := disk, map[], map[];
      ghost var done: set<Ref> := {};
      FiledNone(users);
      var people := users.Keys;
      while people != {}
        invariant people <= users.Keys && users == old(disk) && challenges == map[]
        invariant Filed(users, refresh, done)
        invariant forall k, j :: Live(users, k, j) && k !in people ==> Ref(k, j) in done
        decreases people
      {
        var k :| k in people;
        people := people - {k};
        var todo := users[k].sessions.Keys;
        while todo != {}
          invariant k in users && todo <= users[k].sessions.Keys && users == old(disk) && challenges == map[]
          invariant Filed(users, refresh, done)
          invariant forall a, j :: Live(users, a, j) && a !in people && (a == k ==> j !in todo) ==> Ref(a, j) in done
          decreases todo
        {
          var j :| j in todo;
          todo := todo - {j};
          FileOne(users, refresh, done, Ref(k, j));
          refresh := refresh[users[k].sessions[j].hash := Ref(k, j)];
          done := done + {Ref(k, j)};
        }
      }
      FiledAll(users, refresh, done);
      IndexOfIndexed(users);
      IndexUnique(users, refresh, IndexOf(users));
    }

    /** challenge: drop the expired ones, record the new one. */
    method Ask(kind: Kind, k: string, q: Request)
      requires k in users
      modifies this`challenges, this`tickets
      ensures Now() == S.Ask(old(Now()), kind, k, q.client, q.now, q.life, q.draw)
    {
      hide UserKey;
      var todo := challenges.Keys;
      while todo != {}
        invariant todo <= challenges.Keys <= old(challenges).Keys && tickets == old(tickets)
        invariant forall t :: t in challenges ==> challenges[t] == old(challenges)[t]
        invariant forall t :: t in old(challenges) && t !in todo ==>
          (t in challenges <==> q.now <= old(challenges)[t].expires)
        decreases todo
      {
        var t :| t in todo;
        todo := todo - {t};
        if challenges[t].expires < q.now {
          challenges := challenges - {t};
        }
      }
      assert challenges == Pending(old(challenges), q.now);
      var key := UserKey(caseSensitive, users[k].username);
      challenges := challenges[q.draw.ticket := Challenge(kind, q.client, key, q.now + q.life)];
      tickets := tickets + {q.draw.ticket};
    }

    method CompleteAuth(k: string, mfaDone: bool, q: Request) returns (out: Outcome)
      requires k in users
      modifies this
      ensures (Now(), out) == S.CompleteAuth(old(Now()), k, mfaDone, q)
    {
      hide UserKey, S.Ask, S.StartSession;
      var u := users[k];
      match u.status
      case Unconfirmed => return Failed(NotConfirmed);
      case ResetRequired => return Failed(ResetNeeded);
      case ForceChange =>
        if u.tempExpires.Some? && u.tempExpires.value < q.now {
          return Failed(TempPasswordExpired);
        }
        Ask(NewPassword, k, q);
        return Asked(NewPassword, q.draw.ticket);
      case Confirmed =>
        if !mfaDone && q.factor.Some? {
          Ask(Mfa(q.factor.value), k, q);
          return Asked(Mfa(q.factor.value), q.draw.ticket);
        }
        StartSession(k, q.client, q.now, q.expires, q.draw);
        return Tokens(q.draw.jti, q.draw.hash);
    }

    // -- The operations.  Each keeps Valid; what an operation returns and leaves is what Sessions says.

    method CreateUser(username: string, sub: string, status: Status, temp: Option<int>, clash: bool) returns (ok: bool)
      requires Valid()
      modifies this`users
      ensures Valid() && Now() == Next(old(Now()), Step.CreateUser(username, sub, status, temp, clash))
      ensures ok <==> !clash && UserKey(caseSensitive, username) !in old(users)
    {
      hide Inv, UserKey;
      StepKeeps(Now(), Step.CreateUser(username, sub, status, temp, clash));
      var k := UserKey(caseSensitive, username);
      if clash || k in users {
        return false;
      }
      users := users[k := User(username, sub, status, true, temp, map[])];
      return true;
    }

    method PasswordAuth(username: string, sub: string, q: Request) returns (out: Outcome)
      requires Valid() && Fresh(Now(), q.draw)
      modifies this
      ensures Valid() && (Now(), out) == S.PasswordAuth(old(Now()), username, sub, q)
    {
      hide Inv, UserKey, S.CompleteAuth;
      StepKeeps(Now(), ByPassword(username, sub, q));
      var k := UserKey(caseSensitive, username);
      if k !in users || users[k].sub != sub {
        return Failed(UserMissing);
      }
      out := CompleteAuth(k, false, q);
    }

    method SrpAuth(username: string, sub: string, startOk: bool, q: Request) returns (out: Outcome)
      requires Valid() && Fresh(Now(), q.draw)
      modifies this
      ensures Valid() && (Now(), out) == S.SrpAuth(old(Now()), username, sub, startOk, q)
    {
      hide Inv, UserKey, S.Ask;
      StepKeeps(Now(), BySrp(username, sub, startOk, q));
      var k := UserKey(caseSensitive, username);
      if k !in users || users[k].sub != sub {
        return Failed(UserMissing);
      }
      if !users[k].enabled {
        return Failed(Disabled);
      }
      if !startOk {
        return Failed(InvalidSrpA);
      }
      Ask(PasswordVerifier, k, q);
      return Asked(PasswordVerifier, q.draw.ticket);
    }

    method RespondToChallenge(ticket: string, kind: Kind, answer: Answer, q: Request) returns (out: Outcome)
      requires Valid() && Fresh(Now(), q.draw)
      modifies this
      ensures Valid() && (Now(), out) == Respond(old(Now()), ticket, kind, answer, q)
    {
      hide Inv, UserKey, S.CompleteAuth;
      StepKeeps(Now(), ByAnswer(ticket, kind, answer, q));
      if !(ticket in challenges && challenges[ticket].kind == kind && challenges[ticket].client == q.client &&
           q.now <= challenges[ticket].expires)
      {
        return Failed(InvalidSession);
      }
      var ch := challenges[ticket];
      challenges := challenges - {ticket};
      var k := ch.key;
      if k !in users {
        return Failed(UserMissing);
      }
      if !q.secretOk {
        return Failed(BadSecret);
      }
      match kind
      case PasswordVerifier =>
        if answer != Right {
          return Failed(IncorrectPassword);
        }
        out := CompleteAuth(k, false, q);
      case Mfa(_) =>
        if answer == Wrong {
          challenges := challenges[ticket := ch];
          assert challenges == old(challenges);
          return Failed(CodeMismatch);
        }
        if answer == Unusable {
          return Failed(InvalidToken);
        }
        out := CompleteAuth(k, true, q);
      case NewPassword =>
        if answer != Right {
          return Failed(InvalidToken);
        }
        users := users[k := users[k].(status := Confirmed, tempExpires := None)];
        out := CompleteAuth(k, false, q);
    }

    method MintTokens(k: string, q: Request) returns (out: Outcome)
      requires Valid() && Fresh(Now(), q.draw)
      modifies this
      ensures Valid() && (Now(), out) == Mint(old(Now()), k, q)
    {
      hide Inv, S.StartSession;
      StepKeeps(Now(), ByMint(k, q));
      if k !in users {
        return Failed(UserMissing);
      }
      if !users[k].enabled {
        return Failed(Disabled);
      }
      StartSession(k, q.client, q.now, q.expires, q.draw);
      return Tokens(q.draw.jti, q.draw.hash);
    }

    /** refreshLocked: succeeds for exactly the sessions that are usable, wherever they are filed. */
    method RefreshLocked(hash: string, client: string, now: int, secretOk: bool) returns (out: Outcome)
      requires Valid()
      ensures out.Tokens? <==>
        secretOk && exists k, j :: Usable(Now(), k, j, client, now) && HashOf(users, k, j) == hash
      ensures out == Refresh(Now(), hash, client, now, secretOk)
    {
      hide Inv;
      RefreshExact(Now(), hash, client, now, secretOk);
      if hash !in refresh || refresh[hash].key !in users {
        return Failed(InvalidToken);
      }
      var ref := refresh[hash];
      var u := users[ref.key];
      if ref.jti !in u.sessions || u.sessions[ref.jti].client != client {
        return Failed(InvalidToken);
      }
      var session := u.sessions[ref.jti];
      if !secretOk {
        return Failed(BadSecret);
      }
      if session.revoked {
        return Failed(TokenRevoked);
      }
      if session.expires < now {
        return Failed(TokenExpired);
      }
      if !u.enabled {
        return Failed(Disabled);
      }
      return Tokens(ref.jti, hash);
    }

    method AuthenticateAccess(username: string, jti: string, exp: int, now: int) returns (key: Result<string>)
      ensures key == Authenticate(Now(), username, jti, exp, now)
      ensures key.Ok? ==> key.value in users
    {
      hide UserKey;
      if exp <= now {
        return Err;
      }
      var k := UserKey(caseSensitive, username);
      if k !in users || jti !in users[k].sessions || users[k].sessions[jti].revoked || !users[k].enabled {
        return Err;
      }
      return Ok(k);
    }

    method RevokeToken(hash: string, client: string) returns (error: Option<AuthError>)
      requires Valid()
      modifies this`users
      ensures Valid() && (Now(), error) == S.RevokeToken(old(Now()), hash, client)
    {
      hide Inv, S.RevokeSessions;
      StepKeeps(Now(), Revoke(hash, client));
      if hash !in refresh {
        return None;
      }
      var ref := refresh[hash];
      if ref.key in users {
        var sessions := users[ref.key].sessions;
        if ref.jti in sessions && sessions[ref.jti].client != client {
          return Some(WrongClient);
        }
        RevokeSessions(ref.key, ref.jti);
      }
      return None;
    }

    method GlobalSignOut(username: string, jti: string, exp: int, now: int)
      requires Valid()
      modifies this`users
      ensures Valid() && Now() == Next(old(Now()), SignOutSelf(username, jti, exp, now))
    {
      hide Inv, Authenticate, S.RevokeSessions;
      StepKeeps(Now(), SignOutSelf(username, jti, exp, now));
      var key := AuthenticateAccess(username, jti, exp, now);
      if key.Ok? {
        RevokeSessions(key.value, "");
      }
    }

    method DeleteOwnUser(username: string, jti: string, exp: int, now: int)
      requires Valid()
      modifies this`users, this`refresh
      ensures Valid() && Now() == Next(old(Now()), DeleteSelf(username, jti, exp, now))
    {
      hide Inv, Authenticate, S.DeleteUser;
      StepKeeps(Now(), DeleteSelf(username, jti, exp, now));
      var key := AuthenticateAccess(username, jti, exp, now);
      if key.Ok? {
        DeleteUser(key.value);
      }
    }

    method AdminUserGlobalSignOut(k: string)
      requires Valid()
      modifies this`users
      ensures Valid() && Now() == Next(old(Now()), AdminSignOut(k))
    {
      hide Inv, S.RevokeSessions;
      StepKeeps(Now(), AdminSignOut(k));
      if k in users {
        RevokeSessions(k, "");
      }
    }

    method AdminDeleteUser(k: string)
      requires Valid()
      modifies this`users, this`refresh
      ensures Valid() && Now() == Next(old(Now()), AdminDelete(k))
    {
      hide Inv, S.DeleteUser;
      StepKeeps(Now(), AdminDelete(k));
      if k in users {
        DeleteUser(k);
      }
    }

    method SetEnabled(k: string, enabled: bool)
      requires Valid()
      modifies this`users
      ensures Valid() && Now() == Next(old(Now()), Step.SetEnabled(k, enabled))
    {
      hide Inv, S.RevokeSessions;
      StepKeeps(Now(), Step.SetEnabled(k, enabled));
      if k in users {
        users := users[k := users[k].(enabled := enabled)];
        if !enabled {
          RevokeSessions(k, "");
        }
      }
    }

    method AdminResetUserPassword(k: string, reachable: bool)
      requires Valid()
      modifies this`users
      ensures Valid() && Now() == Next(old(Now()), ResetPassword(k, reachable))
    {
      hide Inv, S.RevokeSessions;
      StepKeeps(Now(), ResetPassword(k, reachable));
      if k in users && reachable {
        users := users[k := users[k].(status := ResetRequired)];
        RevokeSessions(k, "");
      }
    }

    method FlushToDisk()
      requires Valid()
      modifies this`disk
      ensures Valid() && Now() == Next(old(Now()), Flush)
    {
      hide Inv;
      StepKeeps(Now(), Flush);
      disk := users;
    }
  }
}
