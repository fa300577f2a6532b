/**
 The store of real AWS connections (internal/awsconnection/service.go).  Update and Test hold no lock while AWS
 is asked who the credentials belong to, so their two locked parts are separate steps, interleaved with every other
 operation; the record a call copied when it began is kept in `calls`.
 */
module Connections {
  import opened Strings
  import opened Wrappers

  datatype Identity = Identity(account: string, arn: string)

  datatype Kind = Profile | LongLived | Temporary | OtherKind(text: string)

  datatype Status = Verified | Rejected | Untested | Reported(text: string)

  /**
   Whether a vault is configured; which texts are AWS regions and profile names; and Unicode's two ways to ignore letter
   case, which differ: `fold` gives strings.EqualFold's classes, `lower` is strings.ToLower.
   */
  datatype Env = Env(
    vault: bool, region: string -> bool, profile: string -> bool, fold: string -> string, lower: string -> string)

  datatype Credentials = Credentials(kind: Kind, profile: string, key: string, secret: string, token: string)

  datatype Input = Input(name: string, region: string, credentials: Option<Credentials>, accepted: Option<Identity>)

  /** `sealed` holds what the vault would unseal; profile records have none. */
  datatype Record = Record(
    id: string, name: string, region: string, kind: Kind, profile: string, suffix: string, identity: Identity,
    created: int, updated: int, verified: int, tested: int, status: Status, sealed: Option<Credentials>)

  /** The remote check: an identity, a classified refusal with the status to show, or no answer at all. */
  datatype Check = Passed(identity: Identity) | Refused(status: Status) | NoAnswer

  // ---------------------------------------------------------------- validation

  predicate Blank(c: char) { c in {' ', '\t', '\r', '\n'} }

  predicate AnyBlank(s: string) { exists i :: 0 <= i < |s| && Blank(s[i]) }

  predicate ValidCredentials(c: Credentials, env: Env) {
    if c.kind.Profile? then env.profile(c.profile) && c.key == "" && c.secret == "" && c.token == ""
    else
      c.profile == "" && 16 <= ByteLength(c.key) <= 128 && !AnyBlank(c.key) &&
      1 <= ByteLength(c.secret) <= 4096 && !AnyBlank(c.secret) && ByteLength(c.token) <= 16384 && !AnyBlank(c.token) &&
      ((c.kind.LongLived? && c.token == "") || (c.kind.Temporary? && c.token != ""))
  }

  predicate ValidName(name: string) { name == TrimSpace(name) && 1 <= ByteLength(name) <= 80 }

  /** validateInput. */
  predicate ValidInput(i: Input, requireCredentials: bool, env: Env) {
    ValidName(i.name) && env.region(i.region) &&
    if i.credentials.None? then !requireCredentials else ValidCredentials(i.credentials.value, env)
  }

  // ---------------------------------------------------------------- what a call computes

  function Suffix(key: string): string { if |key| > 4 then key[|key| - 4..] else "" }

  function Source(r: Record, env: Env): Result<Credentials> {
    if r.kind.Profile? then
      if r.sealed.Some? then Err else Ok(Credentials(Profile, r.profile, "", "", ""))
    else if !env.vault || r.sealed.None? then Err
    else Ok(r.sealed.value)
  }

  function Seal(c: Credentials, env: Env): Result<Option<Credentials>> {
    if c.kind.Profile? then Ok(None) else if env.vault then Ok(Some(c)) else Err
  }

  /** The text after the last slash starts at the result. */
  function LastSlash(s: string): (i: int)
    ensures -1 <= i < |s| && (0 <= i ==> s[i] == '/')
    ensures forall j :: i < j < |s| ==> s[j] != '/'
  {
    if s == "" then -1 else if s[|s| - 1] == '/' then |s| - 1 else LastSlash(s[..|s| - 1])
  }

  function RolePrefix(id: Identity): string { "arn:aws:sts::" + id.account + ":assumed-role/" }

  /** The role of an assumed-role session, "" for any other identity. */
  function Role(id: Identity): string {
    if !(RolePrefix(id) <= id.arn) then ""
    else
      var resource := id.arn[|RolePrefix(id)|..];
      var i := LastSlash(resource);
      if i <= 0 || i == |resource| - 1 then "" else resource[..i]
  }

  predicate SameAssumedRole(a: Identity, b: Identity) {
    a.account == b.account && Role(a) != "" && Role(a) == Role(b)
  }

  /** Same role means: the two identities differ in nothing but the session name. */
  lemma SameRoleMeans(a: Identity, b: Identity)
    ensures SameAssumedRole(a, b) <==>
      exists role, x, y :: role != "" && IsSession(a, b.account, role, x) && IsSession(b, b.account, role, y)
  {
    hide RolePrefix;
    if SameAssumedRole(a, b) {
      RoleIsSession(a);
      RoleIsSession(b);
    }
    if role, x, y :| role != "" && IsSession(a, b.account, role, x) && IsSession(b, b.account, role, y) {
      SessionRole(a, role, x);
      SessionRole(b, role, y);
    }
  }

  predicate IsSession(id: Identity, account: string, role: string, name: string) {
    id.account == account && id.arn == RolePrefix(id) + role + "/" + name && name != "" && '/' !in name
  }

  lemma RoleIsSession(id: Identity)
    requires Role(id) != ""
    ensures exists name :: IsSession(id, id.account, Role(id), name)
  {
    hide RolePrefix;
    var p := RolePrefix(id);
    var resource := id.arn[|p|..];
    var i := LastSlash(resource);
    var name := resource[i + 1..];
    assert resource == resource[..i] + "/" + name;
    assert id.arn == p + resource;
    assert id.arn == p + Role(id) + "/" + name;
    assert IsSession(id, id.account, Role(id), name);
  }

  lemma SessionRole(id: Identity, role: string, name: string)
    requires role != "" && IsSession(id, id.account, role, name)
    ensures Role(id) == role
  {
    hide RolePrefix;
    var p := RolePrefix(id);
    var resource := id.arn[|p|..];
    assert resource == role + "/" + name;
    assert resource[|role|] == '/';
    assert forall j :: |role| < j < |resource| ==> resource[j] == name[j - |role| - 1];
  }

  /** Create up to its critical section. */
  function Drafted(id: string, i: Input, check: Check, now: int, env: Env): Result<Record> {
    hide ValidName, ValidCredentials;
    if !ValidInput(i, true, env) then Err
    else
      var c := i.credentials.value;
      if (!c.kind.Profile? && !env.vault) || !check.Passed? then Err
      else
        var sealed := Seal(c, env);
        if sealed.Err? then Err
        else Ok(Record(id, i.name, i.region, c.kind, c.profile, Suffix(c.key), check.identity,
                       now, now, now, now, Verified, sealed.value))
  }

  /** Update between its critical sections, from the record it copied. */
  function Updated(r: Record, i: Input, check: Check, now: int, env: Env): Result<Record> {
    if i.credentials.None? && i.region == r.region then Ok(r.(name := i.name, region := i.region, updated := now))
    else
      var c := if i.credentials.Some? then Ok(i.credentials.value) else Source(r, env);
      if c.Err? || (!c.value.kind.Profile? && !env.vault) || !check.Passed? then Err
      else if check.identity != r.identity && i.accepted != Some(check.identity) then Err
      else
        var sealed := Seal(c.value, env);
        if sealed.Err? then Err
        else Ok(r.(sealed := sealed.value, identity := check.identity, kind := c.value.kind, profile := c.value.profile,
                   suffix := Suffix(c.value.key), verified := now, tested := now, status := Verified,
                   name := i.name, region := i.region, updated := now))
  }

  /** Test between its critical sections. */
  function Tested(r: Record, check: Check, now: int, env: Env): Result<Record> {
    if Source(r, env).Err? then Err
    else
      match check
      case NoAnswer => Err
      case Refused(status) => Ok(r.(tested := now, status := status))
      case Passed(identity) =>
        if identity != r.identity && (!r.kind.Profile? || !SameAssumedRole(identity, r.identity))
        then Ok(r.(tested := now, status := Rejected))
        else Ok(r.(tested := now, status := Verified, identity := identity, verified := now))
  }

  // -- What an accepted call records.

  /** Sessions of one role: the identities differ in nothing but the session name. */
  ghost predicate OneRole(a: Identity, b: Identity) {
    exists role, x, y :: role != "" && IsSession(a, b.account, role, x) && IsSession(b, b.account, role, y)
  }

  /** AWS confirms the saved identity; only a profile may show another session of its role. */
  ghost predicate Confirms(r: Record, identity: Identity) {
    identity == r.identity || (r.kind.Profile? && OneRole(identity, r.identity))
  }

  /** A Test leaves all but the outcome alone: a refusal stores its own status, another identity a rejection. */
  ghost predicate TestRecorded(before: Record, after: Record, check: Check, now: int) {
    after == before.(identity := after.identity, verified := after.verified, tested := now, status := after.status) &&
    match check
    case NoAnswer => false
    case Refused(status) => after.status == status && after.identity == before.identity && after.verified == before.verified
    case Passed(identity) =>
      if Confirms(before, identity) then after.status == Verified && after.identity == identity && after.verified == now
      else after.status == Rejected && after.identity == before.identity && after.verified == before.verified
  }

  lemma TestExact(r: Record, check: Check, now: int, env: Env, after: Record)
    ensures Tested(r, check, now, env) == Ok(after) <==> Source(r, env).Ok? && TestRecorded(r, after, check, now)
    ensures Tested(r, check, now, env) == Ok(after) ==>
      (after.status == Verified <==> check == Refused(Verified) || exists i :: check == Passed(i) && Confirms(r, i))
  {
    hide Source, SameAssumedRole, OneRole;
    if check.Passed? {
      OneRoleMeans(check.identity, r.identity);
    }
  }

  lemma OneRoleMeans(a: Identity, b: Identity)
    ensures SameAssumedRole(a, b) <==> OneRole(a, b)
  {
    hide SameAssumedRole, IsSession;
    SameRoleMeans(a, b);
  }

  /** The record uses these credentials, and shows of them what may be shown. */
  predicate Uses(r: Record, c: Credentials, env: Env) {
    Source(r, env) == Ok(c) && r.kind == c.kind && r.profile == c.profile && r.suffix == Suffix(c.key)
  }

  /**
   An Update takes the name and region of the input.  New credentials, or a new region with the old ones, are checked
   against AWS and used from then on, under an identity that is the saved one or accepted; otherwise nothing else changes.
   */
  ghost predicate UpdateRecorded(before: Record, after: Record, i: Input, check: Check, now: int, env: Env) {
    after.id == before.id && after.created == before.created && after.name == i.name && after.region == i.region &&
    after.updated == now &&
    if i.credentials.None? && i.region == before.region then
      after == before.(name := i.name, region := i.region, updated := now)
    else
      var c := if i.credentials.Some? then i.credentials else if Source(before, env).Ok? then Some(Source(before, env).value) else None;
      c.Some? && (c.value.kind.Profile? || env.vault) && Uses(after, c.value, env) && check == Passed(after.identity) &&
      (after.identity == before.identity || i.accepted == Some(after.identity)) &&
      after.verified == after.tested == now && after.status == Verified
  }

  /** Credentials that passed validation, or that a record holds: a profile's carry nothing else. */
  predicate WellFormed(c: Credentials) { c.kind.Profile? ==> c.key == "" && c.secret == "" && c.token == "" }

  lemma UpdateExact(r: Record, i: Input, check: Check, now: int, env: Env, after: Record)
    requires i.credentials.Some? ==> WellFormed(i.credentials.value)
    requires Source(r, env).Ok? ==> WellFormed(Source(r, env).value)
    ensures Updated(r, i, check, now, env) == Ok(after) <==> UpdateRecorded(r, after, i, check, now, env)
  {
    hide Suffix;
    if Updated(r, i, check, now, env).Ok? {
      assert UpdateRecorded(r, Updated(r, i, check, now, env).value, i, check, now, env);
    }
  }

  /** A Create records the input, the identity AWS gave and the time. */
  ghost predicate CreateRecorded(id: string, after: Record, i: Input, check: Check, now: int, env: Env) {
    ValidInput(i, true, env) && after.id == id && after.name == i.name && after.region == i.region &&
    (i.credentials.value.kind.Profile? || env.vault) && Uses(after, i.credentials.value, env) &&
    check == Passed(after.identity) && after.created == after.updated == after.verified == after.tested == now &&
    after.status == Verified
  }

  lemma CreateExact(id: string, i: Input, check: Check, now: int, env: Env, after: Record)
    ensures Drafted(id, i, check, now, env) == Ok(after) <==> CreateRecorded(id, after, i, check, now, env)
  {
    hide ValidName, Suffix, AnyBlank;
    if Drafted(id, i, check, now, env).Ok? {
      assert CreateRecorded(id, Drafted(id, i, check, now, env).value, i, check, now, env);
    }
  }

  // ---------------------------------------------------------------- the interleaved machine

  datatype Call = Updating(id: string, base: Record, input: Input) | Testing(id: string, base: Record) | Ending(id: string)

  /** `used` remembers every id ever given out; the service is not `open` when it could not read its file. */
  datatype State = State(
    env: Env, open: bool, records: map<string, Record>, disk: map<string, Record>, busy: set<string>, calls: map<nat, Call>,
    used: set<string>)

  datatype Step =
    | Create(id: string, input: Input, check: Check, now: int, writeOk: bool)
    | BeginUpdate(call: nat, id: string, input: Input)
    | BeginTest(call: nat, id: string)
    | Commit(call: nat, check: Check, now: int, writeOk: bool)
    | End(call: nat)
    | Delete(id: string, writeOk: bool)
    | Reopen

  /** unique. */
  predicate NameFree(records: map<string, Record>, name: string, except: string, env: Env) {
    forall id :: id in records && id != except ==> env.fold(records[id].name) != env.fold(name)
  }

  function Put(s: State, id: string, r: Record, writeOk: bool): State {
    if writeOk then s.(records := s.records[id := r], disk := s.records[id := r]) else s
  }

  /** What the second critical section of a call wants to store. */
  function Draft(c: Call, check: Check, now: int, env: Env): Result<Record>
    requires !c.Ending?
  {
    if c.Updating? then Updated(c.base, c.input, check, now, env) else Tested(c.base, check, now, env)
  }

  /** The call is at its second critical section with something to store, under a name that is free. */
  predicate Storable(s: State, call: nat, check: Check, now: int) {
    call in s.calls && !s.calls[call].Ending? && Draft(s.calls[call], check, now, s.env).Ok? &&
    (s.calls[call].Updating? ==> NameFree(s.records, s.calls[call].input.name, s.calls[call].id, s.env))
  }

  predicate Startable(s: State, call: nat, id: string) {
    id in s.records && id !in s.busy && call !in s.calls
  }

  /** Open's reading of the file. */
  function Opened(disk: map<string, Record>, env: Env): Result<map<string, Record>> {
    if Readable(disk, env) then Ok(map id | id in disk :: disk[id].(status := Untested)) else Err
  }

  /** Open's checks on every record, and that no two names have one lower case. */
  predicate Readable(disk: map<string, Record>, env: Env) {
    LowerDistinct(disk, env) && RecordsOk(disk, env)
  }

  predicate LowerDistinct(records: map<string, Record>, env: Env) {
    forall a, b :: a in records && b in records && a != b ==> env.lower(records[a].name) != env.lower(records[b].name)
  }

  predicate RecordsOk(records: map<string, Record>, env: Env) {
    forall id :: id in records ==> RecordOk(id, records[id], env)
  }

  predicate RecordOk(id: string, r: Record, env: Env) {
    id == r.id && id != "" && Source(r, env).Ok? &&
    ValidInput(Input(r.name, r.region, Some(Source(r, env).value), None), true, env)
  }

  function Next(s: State, step: Step): State {
    if s.open || step.Reopen? then Act(s, step) else s
  }

  function Act(s: State, step: Step): State {
    match step
    case Create(id, i, check, now, writeOk) =>
      var r := Drafted(id, i, check, now, s.env);
      if r.Err? || !NameFree(s.records, i.name, "", s.env) then s else Put(s, id, r.value, writeOk).(used := s.used + {id})
    case BeginUpdate(call, id, i) =>
      if !ValidInput(i, false, s.env) || !Startable(s, call, id) then s
      else s.(busy := s.busy + {id}, calls := s.calls[call := Updating(id, s.records[id], i)])
    case BeginTest(call, id) =>
      if !Startable(s, call, id) then s
      else s.(busy := s.busy + {id}, calls := s.calls[call := Testing(id, s.records[id])])
    case Commit(call, check, now, writeOk) =>
      if call !in s.calls || s.calls[call].Ending? then s
      else
        var c := s.calls[call];
        var r := Draft(c, check, now, s.env);
        var t := s.(calls := s.calls[call := Ending(c.id)]);
        if r.Err? || (c.Updating? && !NameFree(s.records, c.input.name, c.id, s.env)) then t else Put(t, c.id, r.value, writeOk)
    case End(call) =>
      if call !in s.calls || !s.calls[call].Ending? then s
      else s.(busy := s.busy - {s.calls[call].id}, calls := s.calls - {call})
    case Delete(id, writeOk) =>
      if id !in s.records || id in s.busy || !writeOk then s
      else s.(records := s.records - {id}, disk := s.records - {id})
    case Reopen =>
      var r := Opened(s.disk, s.env);
      if r.Err? then s.(open := false, busy := {}, calls := map[])
      else s.(open := true, records := r.value, busy := {}, calls := map[])
  }

  /** New ids are never repeated, nor empty. */
  predicate Allowed(s: State, step: Step) { step.Create? ==> step.id !in s.used && step.id != "" }

  // ---------------------------------------------------------------- the invariant

  /** Some call is working on `id`. */
  ghost predicate Held(calls: map<nat, Call>, id: string) { exists k :: k in calls && calls[k].id == id }

  /** A call in flight owns its id: it is busy, no other call has it, and the copied record is still the stored one. */
  ghost predicate CallsOk(s: State) {
    (forall k :: k in s.calls ==> s.calls[k].id in s.busy) &&
    (forall id :: id in s.busy ==> Held(s.calls, id)) &&
    (forall j, k :: j in s.calls && k in s.calls && s.calls[j].id == s.calls[k].id ==> j == k) &&
    (forall k :: k in s.calls && !s.calls[k].Ending? ==>
       s.calls[k].id in s.records && s.records[s.calls[k].id] == s.calls[k].base) &&
    forall k :: k in s.calls && s.calls[k].Updating? ==> ValidInput(s.calls[k].input, false, s.env)
  }

  predicate SameButStatus(a: Record, b: Record) { a.(status := Untested) == b.(status := Untested) }

  /** The file holds the live records, except that a test status is forgotten on reopening. */
  ghost predicate Saved(s: State) {
    s.disk.Keys == s.records.Keys && forall id :: id in s.records ==> SameButStatus(s.disk[id], s.records[id])
  }

  /** Every record passes its checks and no two names are the same up to letter case. */
  predicate Sound(records: map<string, Record>, env: Env) {
    UniqueNames(records, env) && RecordsOk(records, env)
  }

  predicate UniqueNames(records: map<string, Record>, env: Env) {
    forall a, b :: a in records && b in records && a != b ==> env.fold(records[a].name) != env.fold(records[b].name)
  }

  ghost predicate Inv(s: State) {
    Sound(s.records, s.env) && CallsOk(s) && Saved(s) && s.records.Keys <= s.used
  }

  lemma DraftedOk(id: string, i: Input, check: Check, now: int, env: Env)
    requires id != "" && Drafted(id, i, check, now, env).Ok?
    ensures RecordOk(id, Drafted(id, i, check, now, env).value, env)
    ensures Drafted(id, i, check, now, env).value.name == i.name
  {
    hide AnyBlank, ValidName;
  }

  lemma UpdatedOk(id: string, r: Record, i: Input, check: Check, now: int, env: Env)
    requires RecordOk(id, r, env) && ValidInput(i, false, env) && Updated(r, i, check, now, env).Ok?
    ensures RecordOk(id, Updated(r, i, check, now, env).value, env)
    ensures Updated(r, i, check, now, env).value.name == i.name
  {
    hide AnyBlank, ValidName;
  }

  lemma TestedOk(id: string, r: Record, check: Check, now: int, env: Env)
    requires RecordOk(id, r, env) && Tested(r, check, now, env).Ok?
    ensures RecordOk(id, Tested(r, check, now, env).value, env)
    ensures Tested(r, check, now, env).value.name == r.name
  {
    hide AnyBlank, ValidName, SameAssumedRole;
  }

  lemma PutSound(records: map<string, Record>, id: string, r: Record, env: Env)
    requires Sound(records, env) && RecordOk(id, r, env) && NameFree(records, r.name, id, env)
    ensures Sound(records[id := r], env)
  {
    hide RecordOk;
  }

  lemma CreateKeeps(s: State, step: Step)
    requires Inv(s) && step.Create? && Allowed(s, step)
    ensures Inv(Next(s, step))
  {
    hide RecordOk, Drafted, NameFree, ValidInput, SameButStatus;
    var r := Drafted(step.id, step.input, step.check, step.now, s.env);
    if r.Ok? && NameFree(s.records, step.input.name, "", s.env) {
      DraftedOk(step.id, step.input, step.check, step.now, s.env);
      NoEmptyId(s.records, s.env);
      FreeFor(s.records, step.input.name, step.id, s.env);
      PutSound(s.records, step.id, r.value, s.env);
      SelfSame(s.records[step.id := r.value]);
    }
  }

  lemma NoEmptyId(records: map<string, Record>, env: Env)
    requires Sound(records, env)
    ensures "" !in records
  {
    hide ValidInput, UniqueNames;
  }

  lemma FreeFor(records: map<string, Record>, name: string, id: string, env: Env)
    requires NameFree(records, name, "", env)
    requires "" !in records
    ensures NameFree(records, name, id, env)
  {
  }

  lemma SelfSame(records: map<string, Record>)
    ensures forall id :: id in records ==> SameButStatus(records[id], records[id])
  {
  }

  /** A new call on an idle connection. */
  lemma CallBegins(s: State, call: nat, c: Call)
    requires CallsOk(s) && Startable(s, call, c.id) && !c.Ending? && c.base == s.records[c.id]
    requires c.Updating? ==> ValidInput(c.input, false, s.env)
    ensures CallsOk(s.(busy := s.busy + {c.id}, calls := s.calls[call := c]))
  {
    hide ValidInput;
    var t := s.(busy := s.busy + {c.id}, calls := s.calls[call := c]);
    forall id | id in t.busy ensures Held(t.calls, id) {
      if id in s.busy {
        var k :| k in s.calls && s.calls[k].id == id;
        assert k in t.calls && t.calls[k].id == id;
      } else {
        assert call in t.calls && t.calls[call].id == id;
      }
    }
  }

  lemma BeginKeeps(s: State, step: Step)
    requires Inv(s) && (step.BeginUpdate? || step.BeginTest?)
    ensures Inv(Next(s, step))
  {
    hide Sound, ValidInput, Saved, CallsOk;
    SavedAlike(s, Next(s, step));
    if Startable(s, step.call, step.id) {
      if step.BeginTest? {
        CallBegins(s, step.call, Testing(step.id, s.records[step.id]));
      } else if ValidInput(step.input, false, s.env) {
        CallBegins(s, step.call, Updating(step.id, s.records[step.id], step.input));
      }
    }
  }

  lemma SavedAlike(s: State, t: State)
    requires Saved(s) && s.records == t.records && s.disk == t.disk
    ensures Saved(t)
  {
  }

  /** A call that reaches its end holds its connection still. */
  lemma CallFinishes(s: State, call: nat)
    requires CallsOk(s) && call in s.calls
    ensures CallsOk(s.(calls := s.calls[call := Ending(s.calls[call].id)]))
  {
    hide ValidInput;
    var t := s.(calls := s.calls[call := Ending(s.calls[call].id)]);
    forall id | id in t.busy ensures Held(t.calls, id) {
      var k :| k in s.calls && s.calls[k].id == id;
      assert k in t.calls && t.calls[k].id == id;
    }
  }

  /** Storing a record no other call has copied. */
  lemma PutCalls(s: State, id: string, r: Record, writeOk: bool)
    requires CallsOk(s) && forall k :: k in s.calls && s.calls[k].id == id ==> s.calls[k].Ending?
    ensures CallsOk(Put(s, id, r, writeOk))
  {
    hide ValidInput;
  }

  lemma CommitKeeps(s: State, step: Step)
    requires Inv(s) && step.Commit?
    ensures Inv(Next(s, step))
  {
    hide Sound, Saved, Draft, NameFree, CallsOk;
    if step.call in s.calls && !s.calls[step.call].Ending? {
      var c := s.calls[step.call];
      var r := Draft(c, step.check, step.now, s.env);
      var t := s.(calls := s.calls[step.call := Ending(c.id)]);
      SavedAlike(s, t);
      CallFinishes(s, step.call);
      if r.Ok? && (c.Updating? ==> NameFree(s.records, c.input.name, c.id, s.env)) {
        DraftSound(s, c, r.value, step.check, step.now);
        OneCallEach(s, step.call);
        PutCalls(t, c.id, r.value, step.writeOk);
        SavedSelf(Put(t, c.id, r.value, true));
      }
    }
  }

  lemma OneCallEach(s: State, call: nat)
    requires CallsOk(s) && call in s.calls && !s.calls[call].Ending?
    ensures forall k :: k in s.calls && s.calls[k].id == s.calls[call].id ==> k == call
    ensures s.calls[call].id in s.records
  {
    hide ValidInput;
  }

  lemma SavedSelf(s: State)
    requires s.disk == s.records
    ensures Saved(s)
  {
  }

  lemma DraftSound(s: State, c: Call, r: Record, check: Check, now: int)
    requires Inv(s) && c in s.calls.Values && !c.Ending? && Draft(c, check, now, s.env) == Ok(r)
    requires c.Updating? ==> NameFree(s.records, c.input.name, c.id, s.env)
    ensures Sound(s.records[c.id := r], s.env)
  {
    hide RecordOk, Updated, Tested, ValidInput, Saved;
    assert RecordOk(c.id, c.base, s.env);
    if c.Updating? {
      UpdatedOk(c.id, c.base, c.input, check, now, s.env);
    } else {
      TestedOk(c.id, c.base, check, now, s.env);
    }
    PutSound(s.records, c.id, r, s.env);
  }

  lemma DeleteKeeps(s: State, step: Step)
    requires Inv(s) && step.Delete?
    ensures Inv(Next(s, step))
  {
    hide RecordOk, ValidInput, Saved;
    var t := Next(s, step);
    if t != s {
      SavedSelf(t);
    }
  }

  lemma CallEnds(s: State, call: nat)
    requires CallsOk(s) && call in s.calls
    ensures CallsOk(s.(busy := s.busy - {s.calls[call].id}, calls := s.calls - {call}))
  {
    hide ValidInput;
    var t := s.(busy := s.busy - {s.calls[call].id}, calls := s.calls - {call});
    forall id | id in t.busy ensures Held(t.calls, id) {
      var k :| k in s.calls && s.calls[k].id == id;
      assert k in t.calls && t.calls[k].id == id;
    }
  }

  lemma EndKeeps(s: State, step: Step)
    requires Inv(s) && step.End?
    ensures Inv(Next(s, step))
  {
    hide Sound, Saved, CallsOk;
    SavedAlike(s, Next(s, step));
    if step.call in s.calls {
      CallEnds(s, step.call);
    }
  }

  /** Test statuses matter neither to the invariant nor to what Open accepts. */
  lemma StatusesApart(a: map<string, Record>, b: map<string, Record>, env: Env)
    requires RecordsOk(a, env) && a.Keys == b.Keys && forall id :: id in a ==> SameButStatus(b[id], a[id])
    ensures RecordsOk(b, env) && forall id :: id in a ==> a[id].name == b[id].name
  {
    hide RecordOk, SameButStatus;
    forall id | id in b ensures RecordOk(id, b[id], env) && b[id].name == a[id].name {
      StatusApart(id, a[id], b[id], env);
    }
  }

  lemma StatusApart(id: string, a: Record, b: Record, env: Env)
    requires SameButStatus(b, a) && RecordOk(id, a, env)
    ensures RecordOk(id, b, env) && a.name == b.name
  {
    hide ValidInput;
    assert a.(status := b.status) == b;
  }

  /** What the service has written can be read again exactly if no two names have one lower case. */
  lemma ReopenExact(s: State)
    requires Inv(s)
    ensures Opened(s.disk, s.env).Ok? <==> LowerDistinct(s.records, s.env)
    ensures Next(s, Reopen).open <==> LowerDistinct(s.records, s.env)
  {
    hide RecordsOk, CallsOk;
    StatusesApart(s.records, s.disk, s.env);
  }

  /** A reopened service has lost nothing but test statuses. */
  lemma ReopenLosesNothing(s: State)
    requires Inv(s)
    ensures Next(s, Reopen).records.Keys == s.records.Keys
    ensures forall id :: id in s.records ==> SameButStatus(Next(s, Reopen).records[id], s.records[id])
  {
    hide Sound, CallsOk, Readable;
  }

  lemma ReopenShape(s: State)
    ensures var t := Next(s, Reopen);
      t.env == s.env && t.disk == s.disk && t.used == s.used && CallsOk(t) &&
      (t.records == s.records || t.records == map id | id in s.disk :: s.disk[id].(status := Untested))
  {
    hide Readable;
  }

  lemma NamesAlike(a: map<string, Record>, b: map<string, Record>, env: Env)
    requires UniqueNames(a, env) && a.Keys == b.Keys && forall id :: id in a ==> a[id].name == b[id].name
    ensures UniqueNames(b, env)
  {
  }

  lemma ReopenKeeps(s: State)
    requires Inv(s)
    ensures Inv(Next(s, Reopen))
  {
    hide RecordsOk, SameButStatus, UniqueNames, CallsOk, Next;
    ReopenLosesNothing(s);
    var t := Next(s, Reopen);
    ReopenShape(s);
    StatusesApart(s.records, t.records, s.env);
    NamesAlike(s.records, t.records, s.env);
    forall id | id in t.records ensures SameButStatus(t.disk[id], t.records[id]) {
      StatusReset(s.disk[id]);
    }
  }

  lemma StatusReset(r: Record)
    ensures SameButStatus(r, r.(status := Untested))
  {
  }

  /** Names stay unique up to case folding, every record valid, every copied record current, the file up to date. */
  lemma StepKeeps(s: State, step: Step)
    requires Inv(s) && Allowed(s, step)
    ensures Inv(Next(s, step))
  {
    hide Inv, Next;
    match step
    case Create(_, _, _, _, _) => CreateKeeps(s, step);
    case BeginUpdate(_, _, _) => BeginKeeps(s, step);
    case BeginTest(_, _) => BeginKeeps(s, step);
    case Commit(_, _, _, _) => CommitKeeps(s, step);
    case End(_) => EndKeeps(s, step);
    case Delete(_, _) => DeleteKeeps(s, step);
    case Reopen => ReopenKeeps(s);
  }

  // ---------------------------------------------------------------- runs

  function Empty(env: Env): State { State(env, true, map[], map[], {}, map[], {}) }

  function Run(s: State, steps: seq<Step>): State
    decreases steps
  {
    if steps == [] then s else Run(Next(s, steps[0]), steps[1..])
  }

  predicate Possible(s: State, steps: seq<Step>)
    decreases steps
  {
    steps == [] || (Allowed(s, steps[0]) && Possible(Next(s, steps[0]), steps[1..]))
  }

  lemma {:induction false} RunKeeps(s: State, steps: seq<Step>)
    requires Inv(s) && Possible(s, steps)
    ensures Inv(Run(s, steps))
    decreases steps
  {
    hide Inv, Next, Allowed;
    if steps != [] {
      StepKeeps(s, steps[0]);
      RunKeeps(Next(s, steps[0]), steps[1..]);
    }
  }

  /** An operation done all at once on the stored records, with nothing else in flight. */
  datatype Whole =
    | NewRecord(id: string, input: Input, check: Check, now: int, writeOk: bool)
    | Change(id: string, input: Input, check: Check, now: int, writeOk: bool)
    | Probe(id: string, check: Check, now: int, writeOk: bool)
    | Remove(id: string, writeOk: bool)
    | Restart
    | Nothing

  function Alone(records: map<string, Record>, env: Env, w: Whole): map<string, Record> {
    match w
    case NewRecord(id, i, check, now, writeOk) =>
      var r := Drafted(id, i, check, now, env);
      if r.Err? || !NameFree(records, i.name, "", env) || !writeOk then records else records[id := r.value]
    case Change(id, i, check, now, writeOk) =>
      if id !in records then records
      else
        var r := Updated(records[id], i, check, now, env);
        if r.Err? || !NameFree(records, i.name, id, env) || !writeOk then records else records[id := r.value]
    case Probe(id, check, now, writeOk) =>
      if id !in records then records
      else
        var r := Tested(records[id], check, now, env);
        if r.Err? || !writeOk then records else records[id := r.value]
    case Remove(id, writeOk) => if writeOk then records - {id} else records
    case Restart => map id | id in records :: records[id].(status := Untested)
    case Nothing => records
  }

  /** The operation a step completes, if any. */
  function Completes(s: State, step: Step): Whole {
    if !s.open && !step.Reopen? then Nothing else
    match step
    case Create(id, i, check, now, writeOk) => NewRecord(id, i, check, now, writeOk)
    case Commit(call, check, now, writeOk) =>
      if call !in s.calls then Nothing
      else
        (match s.calls[call]
         case Updating(id, _, i) => Change(id, i, check, now, writeOk)
         case Testing(id, _) => Probe(id, check, now, writeOk)
         case Ending(_) => Nothing)
    case Delete(id, writeOk) => if id in s.busy then Nothing else Remove(id, writeOk)
    case Reopen => if Opened(s.disk, s.env).Ok? then Restart else Nothing
    case _ => Nothing
  }

  /** Every step changes the records as one whole operation on the current records would: no update is lost. */
  lemma StepIsWhole(s: State, step: Step)
    requires Inv(s)
    ensures Next(s, step).records == Alone(s.records, s.env, Completes(s, step))
  {
    hide Sound, ValidInput, Drafted, Updated, Tested, NameFree, SameButStatus, CallsOk, Saved;
    match step
    case Delete(id, _) =>
      assert id !in s.records ==> s.records - {id} == s.records;
    case Commit(call, _, _, _) =>
      if call in s.calls && !s.calls[call].Ending? {
        OneCallEach(s, call);
        BaseCurrent(s, call);
      }
    case Reopen => ReopenIsWhole(s);
    case _ =>
  }

  lemma BaseCurrent(s: State, call: nat)
    requires CallsOk(s) && call in s.calls && !s.calls[call].Ending?
    ensures s.calls[call].id in s.records && s.records[s.calls[call].id] == s.calls[call].base
    ensures s.calls[call].id in s.busy
  {
    hide ValidInput;
  }

  lemma ReopenIsWhole(s: State)
    requires Inv(s)
    ensures Next(s, Reopen).records == Alone(s.records, s.env, Completes(s, Reopen))
  {
    hide Sound, CallsOk, SameButStatus, Readable;
    forall id | id in s.records
      ensures s.disk[id].(status := Untested) == s.records[id].(status := Untested)
    {
      StatusOnly(s.disk[id], s.records[id]);
    }
  }

  lemma StatusOnly(a: Record, b: Record)
    requires SameButStatus(a, b)
    ensures a.(status := Untested) == b.(status := Untested)
  {
  }

  function Trace(s: State, steps: seq<Step>): seq<Whole>
    decreases steps
  {
    if steps == [] then [] else [Completes(s, steps[0])] + Trace(Next(s, steps[0]), steps[1..])
  }

  function OneByOne(records: map<string, Record>, env: Env, ws: seq<Whole>): map<string, Record>
    decreases ws
  {
    if ws == [] then records else OneByOne(Alone(records, env, ws[0]), env, ws[1..])
  }

  /** Every interleaving leaves what its operations leave one after the other, in the order they commit. */
  lemma {:induction false} InterleavingIsSerial(s: State, steps: seq<Step>)
    requires Inv(s) && Possible(s, steps)
    ensures Run(s, steps).records == OneByOne(s.records, s.env, Trace(s, steps))
    decreases steps
  {
    hide Inv, Allowed, Completes, Alone, Next;
    if steps != [] {
      var t := Next(s, steps[0]);
      StepIsWhole(s, steps[0]);
      StepKeeps(s, steps[0]);
      EnvStays(s, steps[0]);
      InterleavingIsSerial(t, steps[1..]);
      assert Trace(s, steps)[1..] == Trace(t, steps[1..]);
    }
  }

  lemma EnvStays(s: State, step: Step)
    ensures Next(s, step).env == s.env
  {
    hide ValidInput, Sound, Drafted, Updated, Tested, NameFree;
  }

  predicate Undisturbed(s: State, call: nat, c: Call) {
    !c.Ending? && c.id in s.records && s.records[c.id] == c.base && call in s.calls && s.calls[call] == c
  }

  /** While a call is between its two critical sections, only its own commit or a restart touches its record. */
  lemma InFlightUndisturbed(s: State, step: Step, call: nat)
    requires Inv(s) && Allowed(s, step) && call in s.calls && !s.calls[call].Ending?
    requires !step.Reopen? && !(step.Commit? && step.call == call)
    ensures Undisturbed(Next(s, step), call, s.calls[call])
  {
    hide Sound, ValidInput, Drafted, Draft, NameFree, Saved, CallsOk;
    BaseCurrent(s, call);
    OneCallEach(s, call);
  }

  /** A deleted connection does not come back. */
  lemma DeletedStays(s: State, step: Step, id: string)
    requires Inv(s) && Allowed(s, step) && id in s.used && id !in s.records
    ensures id in Next(s, step).used && id !in Next(s, step).records
  {
    hide Sound, ValidInput, Drafted, Draft, NameFree, SameButStatus;
  }

  lemma {:induction false} DeletedForever(s: State, steps: seq<Step>, id: string)
    requires Inv(s) && Possible(s, steps) && id in s.used && id !in s.records
    ensures id !in Run(s, steps).records
    decreases steps
  {
    hide Inv, Allowed, Next;
    if steps != [] {
      DeletedStays(s, steps[0], id);
      StepKeeps(s, steps[0]);
      DeletedForever(Next(s, steps[0]), steps[1..], id);
    }
  }

  /** `step` is the commit of an update of `id` whose caller accepted exactly the identity AWS then reported. */
  predicate Accepted(s: State, step: Step, id: string, identity: Identity) {
    step.Commit? && step.call in s.calls && s.calls[step.call].Updating? && s.calls[step.call].id == id &&
    s.calls[step.call].input.accepted == Some(identity) && step.check == Passed(identity)
  }

  /** How one step may change an identity: not at all, by acceptance, or to another session of the same role. */
  predicate Guarded(s: State, step: Step, id: string, before: Identity, after: Identity) {
    before == after || Accepted(s, step, id, after) || SameAssumedRole(after, before)
  }

  /**
   A connection keeps its account, and apart from session names its whole identity, unless a caller accepted the new
   one.
   */
  lemma IdentityGuarded(s: State, step: Step, id: string)
    requires Inv(s) && Allowed(s, step) && id in s.records && id in Next(s, step).records
    ensures Guarded(s, step, id, s.records[id].identity, Next(s, step).records[id].identity)
    ensures s.records[id].identity.account == Next(s, step).records[id].identity.account ||
            Accepted(s, step, id, Next(s, step).records[id].identity)
  {
    hide Sound, Saved, ValidInput, NameFree, RolePrefix, Role, Updated, Tested, Drafted;
    if step.Reopen? {
      ReopenedIdentity(s, id);
    } else if step.Commit? && step.call in s.calls && !s.calls[step.call].Ending? && s.calls[step.call].id == id &&
              Draft(s.calls[step.call], step.check, step.now, s.env).Ok?
    {
      DraftIdentity(s.calls[step.call], step.check, step.now, s.env);
    }
  }

  lemma ReopenedIdentity(s: State, id: string)
    requires Inv(s) && id in s.records
    ensures id in Next(s, Reopen).records && Next(s, Reopen).records[id].identity == s.records[id].identity
  {
    hide Sound, ValidInput;
    ReopenLosesNothing(s);
  }

  lemma DraftIdentity(c: Call, check: Check, now: int, env: Env)
    requires !c.Ending? && Draft(c, check, now, env).Ok?
    ensures var after := Draft(c, check, now, env).value.identity;
      c.base.identity == after || check == Passed(after)
    ensures var after := Draft(c, check, now, env).value.identity;
      c.base.identity == after || (if c.Updating? then c.input.accepted == Some(after) else SameAssumedRole(after, c.base.identity))
  {
    hide ValidInput, RolePrefix, Role;
  }

  /** The record of a finished call's connection, before and after. */
  ghost predicate CallRecorded(c: Call, before: Record, after: Record, check: Check, now: int, env: Env)
    requires !c.Ending?
  {
    if c.Updating? then UpdateRecorded(before, after, c.input, check, now, env)
    else Source(before, env).Ok? && TestRecorded(before, after, check, now)
  }

  /**
   The second part of an Update or Test leaves every other record alone; its own is changed as the input and the answer
   of AWS demand, or not at all if the call fails.
   */
  lemma CommitRecords(s: State, call: nat, check: Check, now: int, writeOk: bool)
    requires Inv(s) && s.open && call in s.calls && !s.calls[call].Ending?
    ensures var c, t := s.calls[call], Next(s, Commit(call, check, now, writeOk));
      c.id in s.records &&
      if Storable(s, call, check, now) && writeOk then
        c.id in t.records && t.records == s.records[c.id := t.records[c.id]] &&
        CallRecorded(c, s.records[c.id], t.records[c.id], check, now, s.env)
      else t.records == s.records
  {
    hide Sound, ValidInput, Draft, NameFree, CallsOk, Saved, CallRecorded;
    var c := s.calls[call];
    BaseCurrent(s, call);
    if Draft(c, check, now, s.env).Ok? {
      DraftRecorded(s, call, check, now);
    }
  }

  lemma DraftRecorded(s: State, call: nat, check: Check, now: int)
    requires Inv(s) && call in s.calls && !s.calls[call].Ending? && Draft(s.calls[call], check, now, s.env).Ok?
    ensures var c := s.calls[call];
      c.id in s.records && CallRecorded(c, s.records[c.id], Draft(c, check, now, s.env).value, check, now, s.env)
  {
    hide AnyBlank, ValidName, Updated, Tested, UpdateRecorded, TestRecorded, UniqueNames, Saved, Held;
    var c := s.calls[call];
    assert RecordOk(c.id, s.records[c.id], s.env);
    if c.Updating? {
      UpdateExact(c.base, c.input, check, now, s.env, Draft(c, check, now, s.env).value);
    } else {
      TestExact(c.base, check, now, s.env, Draft(c, check, now, s.env).value);
    }
  }

  // ---------------------------------------------------------------- when the file can be read again

  /** No other record's name has the lower case of `name`. */
  predicate LowerFree(records: map<string, Record>, name: string, except: string, env: Env) {
    forall id :: id in records && id != except ==> env.lower(records[id].name) != env.lower(name)
  }

  /** Every record added or renamed has a lower case of its own among the records before. */
  predicate NewNamesLowerFree(before: map<string, Record>, after: map<string, Record>, env: Env) {
    forall id :: id in after && (id !in before || after[id].name != before[id].name) ==>
      LowerFree(before, after[id].name, id, env)
  }

  lemma PutLower(records: map<string, Record>, id: string, r: Record, env: Env)
    requires LowerDistinct(records, env)
    ensures LowerDistinct(records[id := r], env) <==> NewNamesLowerFree(records, records[id := r], env)
  {
    var after := records[id := r];
    if LowerDistinct(after, env) {
      assert id in after && after[id] == r;
      forall k | k in records && k != id ensures env.lower(records[k].name) != env.lower(r.name) {
        assert k in after && after[k] == records[k];
      }
    } else {
      var a, b :| a in after && b in after && a != b && env.lower(after[a].name) == env.lower(after[b].name);
      var other := if a == id then b else a;
      assert other in records && other != id && env.lower(records[other].name) == env.lower(r.name);
    }
  }

  lemma SameLower(records: map<string, Record>, env: Env)
    requires LowerDistinct(records, env)
    ensures NewNamesLowerFree(records, records, env)
  {
  }

  lemma AloneLower(records: map<string, Record>, env: Env, w: Whole)
    requires LowerDistinct(records, env)
    ensures LowerDistinct(Alone(records, env, w), env) <==> NewNamesLowerFree(records, Alone(records, env, w), env)
  {
    hide Drafted, Updated, Tested, NameFree, LowerDistinct, NewNamesLowerFree;
    SameLower(records, env);
    match w
    case NewRecord(id, i, check, now, _) =>
      var r := Drafted(id, i, check, now, env);
      if r.Ok? {
        PutLower(records, id, r.value, env);
      }
    case Change(id, i, check, now, _) =>
      var r := if id in records then Updated(records[id], i, check, now, env) else Err;
      if r.Ok? {
        PutLower(records, id, r.value, env);
      }
    case Probe(id, check, now, _) =>
      var r := if id in records then Tested(records[id], check, now, env) else Err;
      if r.Ok? {
        PutLower(records, id, r.value, env);
      }
    case Remove(id, _) => RemoveLower(records, id, env);
    case Restart => RestartLower(records, env);
    case Nothing =>
  }

  lemma RemoveLower(records: map<string, Record>, id: string, env: Env)
    requires LowerDistinct(records, env)
    ensures LowerDistinct(records - {id}, env) && NewNamesLowerFree(records, records - {id}, env)
  {
  }

  lemma RestartLower(records: map<string, Record>, env: Env)
    requires LowerDistinct(records, env)
    ensures LowerDistinct(Alone(records, env, Restart), env) && NewNamesLowerFree(records, Alone(records, env, Restart), env)
  {
  }

  /**
   A step from a readable file leaves a readable file exactly if the record it adds or renames, if any, gets a name whose
   lower case no other stored name has.
   */
  lemma StepReadableExact(s: State, step: Step)
    requires Inv(s) && Allowed(s, step) && Opened(s.disk, s.env).Ok?
    ensures Opened(Next(s, step).disk, s.env).Ok? <==> NewNamesLowerFree(s.records, Next(s, step).records, s.env)
  {
    hide Inv, Allowed, Next, Opened, LowerDistinct, NewNamesLowerFree, Alone, Completes;
    StepKeeps(s, step);
    EnvStays(s, step);
    ReopenExact(s);
    ReopenExact(Next(s, step));
    StepIsWhole(s, step);
    AloneLower(s.records, s.env, Completes(s, step));
  }

  /** Creating two profile connections in an empty store. */
  function CreateTwo(a: string, b: string, region: string, profile: string): seq<Step> {
    var c, p := Credentials(Profile, profile, "", "", ""), Passed(Identity("", ""));
    [Create("1", Input(a, region, Some(c), None), p, 0, true), Create("2", Input(b, region, Some(c), None), p, 0, true)]
  }

  lemma CreateProfile(s: State, id: string, name: string, region: string, profile: string)
    requires s.open && ValidName(name) && s.env.region(region) && s.env.profile(profile)
    requires NameFree(s.records, name, "", s.env)
    ensures var c := Credentials(Profile, profile, "", "", "");
      var t := Next(s, Create(id, Input(name, region, Some(c), None), Passed(Identity("", "")), 0, true));
      id in t.records && t == s.(records := t.records, disk := t.records, used := s.used + {id}) &&
      t.records == s.records[id := t.records[id]] && t.records[id].name == name
  {
    hide ValidName, NameFree;
  }

  /** Two valid names that differ for EqualFold are both accepted; the file is readable exactly if ToLower tells them apart. */
  lemma TwoNames(env: Env, a: string, b: string, region: string, profile: string)
    requires ValidName(a) && ValidName(b) && env.fold(a) != env.fold(b) && env.region(region) && env.profile(profile)
    ensures Possible(Empty(env), CreateTwo(a, b, region, profile))
    ensures var s := Run(Empty(env), CreateTwo(a, b, region, profile));
      (s.records.Keys == {"1", "2"} && s.records["1"].name == a && s.records["2"].name == b) &&
      (Opened(s.disk, env).Ok? <==> env.lower(a) != env.lower(b)) && (Next(s, Reopen).open <==> env.lower(a) != env.lower(b))
  {
    hide ValidName, Next, Inv, Opened;
    var s0, steps := Empty(env), CreateTwo(a, b, region, profile);
    var s1 := Next(s0, steps[0]);
    var s2 := Next(s1, steps[1]);
    CreateProfile(s0, "1", a, region, profile);
    CreateProfile(s1, "2", b, region, profile);
    assert steps[1..] == [steps[1]] && steps[1..][1..] == [];
    assert Possible(s1, steps[1..]);
    assert Run(s1, steps[1..]) == s2;
    EmptyOk(env);
    RunKeeps(s0, steps);
    ReopenExact(s2);
    assert "1" in s2.records && "2" in s2.records;
  }

  lemma EmptyOk(env: Env)
    ensures Inv(Empty(env))
  {
  }

  /** Such a pair: Unicode's lower case of U+0130 is "i", yet the two are not the same up to case folding. */
  lemma DottedI(env: Env, region: string, profile: string)
    requires env.region(region) && env.profile(profile)
    requires env.lower("\U{0130}") == env.lower("i") && env.fold("\U{0130}") != env.fold("i")
    ensures var s := Run(Empty(env), CreateTwo("\U{0130}", "i", region, profile));
      s.open && s.records.Keys == {"1", "2"} && !Next(s, Reopen).open
  {
    hide Next, Opened, TrimSpace;
    var a, b := "\U{0130}", "i";
    assert a == "" + a + "" && b == "" + b + "";
    TrimSpaceStrips("", a, "");
    TrimSpaceStrips("", b, "");
    assert a[..0] == "" && b[..0] == "";
    TwoNames(env, a, b, region, profile);
    OpenStays(Empty(env), CreateTwo(a, b, region, profile));
  }

  lemma {:induction false} OpenStays(s: State, steps: seq<Step>)
    requires s.open && forall i :: 0 <= i < |steps| ==> !steps[i].Reopen?
    ensures Run(s, steps).open
    decreases steps
  {
    if steps != [] {
      OpenStep(s, steps[0]);
      OpenStays(Next(s, steps[0]), steps[1..]);
    }
  }

  lemma OpenStep(s: State, step: Step)
    requires s.open && !step.Reopen?
    ensures Next(s, step).open
  {
    hide ValidInput, Readable, Drafted, Updated, Tested, NameFree;
  }

  ghost predicate AlwaysReadable(env: Env) {
    forall steps :: Possible(Empty(env), steps) ==> Opened(Run(Empty(env), steps).disk, env).Ok?
  }

  ghost predicate LowerAsFold(env: Env) {
    forall a, b :: ValidName(a) && ValidName(b) && env.lower(a) == env.lower(b) ==> env.fold(a) == env.fold(b)
  }

  lemma {:induction false} RunEnv(s: State, steps: seq<Step>)
    ensures Run(s, steps).env == s.env
    decreases steps
  {
    hide Next;
    if steps != [] {
      EnvStays(s, steps[0]);
      RunEnv(Next(s, steps[0]), steps[1..]);
    }
  }

  lemma LowerFromFold(s: State)
    requires Inv(s) && LowerAsFold(s.env)
    ensures LowerDistinct(s.records, s.env)
  {
    hide ValidName, ValidCredentials, CallsOk, Saved;
    forall a, b | a in s.records && b in s.records && a != b
      ensures s.env.lower(s.records[a].name) != s.env.lower(s.records[b].name)
    {
      assert RecordOk(a, s.records[a], s.env) && RecordOk(b, s.records[b], s.env);
    }
  }

  /**
   Where profile connections exist at all, the file is readable after every run of the service exactly if ToLower
   identifies no two valid names that EqualFold tells apart.
   */
  lemma AlwaysReadableExact(env: Env, region: string, profile: string)
    requires env.region(region) && env.profile(profile)
    ensures AlwaysReadable(env) <==> LowerAsFold(env)
  {
    hide Inv, Opened, LowerDistinct, Next, ValidName;
    if LowerAsFold(env) {
      forall steps | Possible(Empty(env), steps) ensures Opened(Run(Empty(env), steps).disk, env).Ok? {
        EmptyOk(env);
        RunKeeps(Empty(env), steps);
        RunEnv(Empty(env), steps);
        LowerFromFold(Run(Empty(env), steps));
        ReopenExact(Run(Empty(env), steps));
      }
    } else {
      var a, b :| ValidName(a) && ValidName(b) && env.lower(a) == env.lower(b) && env.fold(a) != env.fold(b);
      TwoNames(env, a, b, region, profile);
    }
  }

  function LowerNames(records: map<string, Record>, env: Env): set<string> {
    set id | id in records :: env.lower(records[id].name)
  }

  /** One record more. */
  lemma ReadsOn(records: map<string, Record>, id: string, r: Record, env: Env)
    requires id !in records
    ensures Readable(records[id := r], env) <==>
            Readable(records, env) && RecordOk(id, r, env) && env.lower(r.name) !in LowerNames(records, env)
    ensures LowerNames(records[id := r], env) == LowerNames(records, env) + {env.lower(r.name)}
  {
    hide RecordOk;
    var after := records[id := r];
    assert id in after && after[id] == r && forall k :: k in records ==> k in after && after[k] == records[k];
    forall n | n in LowerNames(records, env) + {env.lower(r.name)} ensures n in LowerNames(after, env) {
      if n != env.lower(r.name) {
        var k :| k in records && n == env.lower(records[k].name);
        assert k in after;
      }
    }
  }

  lemma ReadsPart(disk: map<string, Record>, todo: set<string>, env: Env)
    requires Readable(disk, env)
    ensures Readable(disk - todo, env)
  {
    hide RecordOk;
  }

  /** Open's loop over the records of the file. */
  method Open(disk: map<string, Record>, env: Env) returns (loaded: Result<map<string, Record>>)
    ensures loaded == Opened(disk, env)
  {
    hide RecordOk, LowerNames, Readable;
    var names, todo, records := {}, disk.Keys, disk;
    NothingRead(disk, env);
    while todo != {}
      invariant todo <= disk.Keys == records.Keys
      invariant Readable(disk - todo, env) && names == LowerNames(disk - todo, env)
      invariant forall id :: id in disk ==> records[id] == if id in todo then disk[id] else disk[id].(status := Untested)
      decreases todo
    {
      var id :| id in todo;
      var name := env.lower(disk[id].name);
      ReadsOn(disk - todo, id, disk[id], env);
      assert disk - (todo - {id}) == (disk - todo)[id := disk[id]];
      if !RecordOk(id, disk[id], env) || name in names {
        if Readable(disk, env) {
          ReadsPart(disk, todo - {id}, env);
        }
        return Err;
      }
      names, todo, records := names + {name}, todo - {id}, records[id := disk[id].(status := Untested)];
    }
    assert disk - {} == disk;
    assert records == map id | id in disk :: disk[id].(status := Untested);
    return Ok(records);
  }

  lemma NothingRead(disk: map<string, Record>, env: Env)
    ensures Readable(disk - disk.Keys, env) && LowerNames(disk - disk.Keys, env) == {}
  {
    assert disk - disk.Keys == map[];
  }

  // ---------------------------------------------------------------- the service

  /** Service, with the local variables of the calls in flight. */
  class Service {
    const env: Env
    var records: map<string, Record>
    var disk: map<string, Record>
    var busy: set<string>
    var calls: map<nat, Call>
    ghost var used: set<string>

    ghost function Now(): State
      reads this
    {
      State(env, true, records, disk, busy, calls, used)
    }

    ghost predicate Valid()
      reads this
    {
      Inv(Now())
    }

    constructor (env: Env)
      ensures Valid() && Now() == Empty(env)
    {
      this.env := env;
      records, disk, busy, calls, used := map[], map[], {}, map[], {};
    }

    method Unique(name: string, except: string) returns (free: bool)
      ensures free == NameFree(records, name, except, env)
    {
      var todo := records.Keys;
      while todo != {}
        invariant todo <= records.Keys
        invariant forall id :: id in records && id !in todo && id != except ==> env.fold(records[id].name) != env.fold(name)
        decreases todo
      {
        var id :| id in todo;
        todo := todo - {id};
        if id != except && env.fold(records[id].name) == env.fold(name) {
          return false;
        }
      }
      return true;
    }

    /** commit: the file first, then the live map. */
    method Store(id: string, r: Option<Record>, writeOk: bool) returns (ok: bool)
      modifies this`records, this`disk
      ensures ok == writeOk
      ensures records == if !writeOk then old(records) else if r.Some? then old(records)[id := r.value] else old(records) - {id}
      ensures disk == if writeOk then records else old(disk)
    {
      var next := if r.Some? then records[id := r.value] else records - {id};
      if !writeOk {
        return false;
      }
      disk := next;
      records := next;
      return true;
    }

    method Create(id: string, i: Input, check: Check, now: int, writeOk: bool) returns (saved: Result<Record>)
      requires Valid() && id !in used && id != ""
      modifies this
      ensures Valid() && Now() == Next(old(Now()), Step.Create(id, i, check, now, writeOk))
      ensures saved.Ok? <==> Drafted(id, i, check, now, env).Ok? && NameFree(old(records), i.name, "", env) && writeOk
      ensures saved.Ok? ==> saved == Drafted(id, i, check, now, env) && id in records && records[id] == saved.value
      ensures saved.Ok? ==>
        records == old(records)[id := saved.value] && CreateRecorded(id, saved.value, i, check, now, env)
    {
      hide Inv, NameFree, Drafted, CreateRecorded;
      StepKeeps(Now(), Step.Create(id, i, check, now, writeOk));
      var r := Drafted(id, i, check, now, env);
      if r.Err? {
        return Err;
      }
      CreateExact(id, i, check, now, env, r.value);
      var free := Unique(i.name, "");
      if !free {
        return Err;
      }
      used := used + {id};
      var ok := Store(id, Some(r.value), writeOk);
      return if ok then r else Err;
    }

    /** begin, for Update and for Test. */
    method Begin(call: nat, id: string, i: Option<Input>) returns (began: bool)
      requires Valid()
      modifies this`busy, this`calls
      ensures Valid()
      ensures Now() == Next(old(Now()), if i.Some? then BeginUpdate(call, id, i.value) else BeginTest(call, id))
      ensures began <==> (i.None? || ValidInput(i.value, false, env)) && Startable(old(Now()), call, id)
    {
      hide Inv, ValidInput;
      StepKeeps(Now(), if i.Some? then BeginUpdate(call, id, i.value) else BeginTest(call, id));
      if (i.Some? && !ValidInput(i.value, false, env)) || id !in records || id in busy || call in calls {
        return false;
      }
      busy := busy + {id};
      calls := calls[call := if i.Some? then Updating(id, records[id], i.value) else Testing(id, records[id])];
      return true;
    }

    /** The second critical section of Update and Test, after the remote check. */
    method Finish(call: nat, check: Check, now: int, writeOk: bool) returns (saved: Result<Record>)
      requires Valid()
      modifies this`records, this`disk, this`calls
      ensures Valid() && Now() == Next(old(Now()), Commit(call, check, now, writeOk))
      ensures saved.Ok? <==> Storable(old(Now()), call, check, now) && writeOk
      ensures saved.Ok? ==> saved == Draft(old(calls)[call], check, now, env) && saved.value in records.Values
      ensures saved.Ok? ==>
        var c := old(calls)[call];
        c.id in old(records) && records == old(records)[c.id := saved.value] &&
        CallRecorded(c, old(records)[c.id], saved.value, check, now, env)
    {
      hide Inv, ValidInput, NameFree, Updated, Tested, CallRecorded;
      StepKeeps(Now(), Commit(call, check, now, writeOk));
      if call in calls && !calls[call].Ending? && Draft(calls[call], check, now, env).Ok? {
        DraftRecorded(Now(), call, check, now);
      }
      if call !in calls || calls[call].Ending? {
        return Err;
      }
      var c := calls[call];
      calls := calls[call := Ending(c.id)];
      var r := Draft(c, check, now, env);
      if r.Err? {
        return Err;
      }
      if c.Updating? {
        var free := Unique(c.input.name, c.id);
        if !free {
          return Err;
        }
      }
      var ok := Store(c.id, Some(r.value), writeOk);
      assert ok ==> records[c.id] == r.value;
      return if ok then r else Err;
    }

    method End(call: nat)
      requires Valid()
      modifies this`busy, this`calls
      ensures Valid() && Now() == Next(old(Now()), Step.End(call))
    {
      hide Inv;
      StepKeeps(Now(), Step.End(call));
      if call in calls && calls[call].Ending? {
        busy := busy - {calls[call].id};
        calls := calls - {call};
      }
    }

    method Delete(id: string, writeOk: bool) returns (deleted: bool)
      requires Valid()
      modifies this`records, this`disk
      ensures Valid() && Now() == Next(old(Now()), Step.Delete(id, writeOk))
      ensures deleted <==> id in old(records) && id !in busy && writeOk
    {
      hide Inv;
      StepKeeps(Now(), Step.Delete(id, writeOk));
      if id !in records || id in busy {
        return false;
      }
      deleted := Store(id, None, writeOk);
    }
  }
}
