/**
 What multi-item writes answer and store (internal/dynamodb/write.go), in terms of the items stored before and the items,
 keys, updates and conditions given.
 */
module WriteAnswers {
  import opened Store
  import opened Strings
  import opened Wrappers
  import opened Attributes
  import D = Decimals

  /** The write is allowed, and this is what it does. */
  ghost predicate Allowed(db: Db, w: Write, size: Item -> nat, p: Pending) {
    Meets(db, w, size, p) && w.condition(p.prev) == Some(true) && Leaves(db[p.table].schema, w, size, p.key, p.prev, p.next)
  }

  /** The write meets an item, or none, of which its condition is false. */
  ghost predicate Fails(db: Db, w: Write, size: Item -> nat) {
    exists p: Pending :: Meets(db, w, size, p) && w.condition(p.prev) == Some(false)
  }

  lemma AllowedExact(db: Db, w: Write, size: Item -> nat, p: Pending)
    ensures PlanWrite(db, w, size) == Plan(p) <==> Allowed(db, w, size, p)
  {
    hide PlanWrite, Meets, Leaves;
    PlanExact(db, w, size, p);
  }

  lemma FailsExact(db: Db, w: Write, size: Item -> nat)
    ensures PlanWrite(db, w, size) == ConditionFailed <==> Fails(db, w, size)
  {
    hide PlanWrite, Meets, Leaves;
    var any := Pending("", [], map[], None, None);
    PlanExact(db, w, size, any);
    if Fails(db, w, size) {
      var p: Pending :| Meets(db, w, size, p) && w.condition(p.prev) == Some(false);
      PlanExact(db, w, size, p);
    }
  }

  // ---------------------------------------------------------------- transactions

  ghost predicate ActionAllowed(db: Db, a: Action, size: Item -> nat, p: Pending) { a.One? && Allowed(db, a.write, size, p) }

  ghost predicate ActionFails(db: Db, a: Action, size: Item -> nat) { a.One? && Fails(db, a.write, size) }

  lemma ActionExact(db: Db, a: Action, size: Item -> nat)
    ensures forall p :: PlanAction(db, a, size) == Plan(p) <==> ActionAllowed(db, a, size, p)
    ensures PlanAction(db, a, size).ConditionFailed? <==> ActionFails(db, a, size)
  {
    hide PlanWrite, Allowed, Fails;
    if a.One? {
      FailsExact(db, a.write, size);
      forall p ensures PlanWrite(db, a.write, size) == Plan(p) <==> Allowed(db, a.write, size, p) {
        AllowedExact(db, a.write, size, p);
      }
    }
  }

  /**
   There are 1 to 100 actions; each is allowed, or its condition is false where `failed` says so; and no two allowed ones
   are on one item.
   */
  ghost predicate Answers(db: Db, actions: seq<Action>, size: Item -> nat, failed: seq<bool>) {
    1 <= |actions| <= 100 && |failed| == |actions| &&
    (forall i :: 0 <= i < |actions| ==>
      if failed[i] then ActionFails(db, actions[i], size) else exists p :: ActionAllowed(db, actions[i], size, p)) &&
    forall i, j, p, r ::
      0 <= i < j < |actions| && ActionAllowed(db, actions[i], size, p) && ActionAllowed(db, actions[j], size, r) ==>
        p.table != r.table || p.id != r.id
  }

  lemma NotBoth(db: Db, a: Action, size: Item -> nat, p: Pending)
    requires ActionAllowed(db, a, size, p)
    ensures !ActionFails(db, a, size)
  {
    hide PlanAction, ActionAllowed, ActionFails;
    ActionExact(db, a, size);
  }

  lemma AnswersPlannable(db: Db, actions: seq<Action>, size: Item -> nat, failed: seq<bool>)
    requires Answers(db, actions, size, failed)
    ensures Plannable(db, actions, size) && failed == FailedOf(db, actions, size)
  {
    hide PlanAction, ActionAllowed, ActionFails;
    forall i | 0 <= i < |actions|
      ensures !PlanAction(db, actions[i], size).Rejected?
      ensures failed[i] == PlanAction(db, actions[i], size).ConditionFailed?
    {
      ActionExact(db, actions[i], size);
      if !failed[i] {
        var p :| ActionAllowed(db, actions[i], size, p);
        assert PlanAction(db, actions[i], size) == Plan(p);
      }
    }
    forall i, j | 0 <= i < j < |actions| ensures !Clash(db, actions[i], actions[j], size) {
      ActionExact(db, actions[i], size);
      ActionExact(db, actions[j], size);
    }
  }

  lemma PlannableAnswers(db: Db, actions: seq<Action>, size: Item -> nat)
    requires Plannable(db, actions, size) && 1 <= |actions| <= 100
    ensures Answers(db, actions, size, FailedOf(db, actions, size))
  {
    hide PlanAction, ActionAllowed, ActionFails;
    var failed := FailedOf(db, actions, size);
    forall i | 0 <= i < |actions|
      ensures if failed[i] then ActionFails(db, actions[i], size) else exists p :: ActionAllowed(db, actions[i], size, p)
    {
      ActionExact(db, actions[i], size);
      var p := PlanAction(db, actions[i], size);
      assert p.Plan? ==> ActionAllowed(db, actions[i], size, p.pending);
    }
    forall i, j, p, r | 0 <= i < j < |actions| &&
      ActionAllowed(db, actions[i], size, p) && ActionAllowed(db, actions[j], size, r)
      ensures p.table != r.table || p.id != r.id
    {
      ActionExact(db, actions[i], size);
      ActionExact(db, actions[j], size);
      assert !Clash(db, actions[i], actions[j], size);
    }
  }

  /**
   A transaction is done exactly when each of its 1 to 100 actions is allowed, all on different items; it is cancelled
   exactly when that holds but for false conditions, which are those reported; anything else is refused.
   */
  lemma TransactionExact(db: Db, actions: seq<Action>, size: Item -> nat, failed: seq<bool>)
    ensures TransactionOutcome(db, actions, size) == Done <==> Answers(db, actions, size, seq(|actions|, _ => false))
    ensures TransactionOutcome(db, actions, size) == Cancelled(failed) <==> Answers(db, actions, size, failed) && true in failed
    ensures TransactionOutcome(db, actions, size) == Refused <==> forall f :: !Answers(db, actions, size, f)
  {
    hide PlanAction, Answers, Plannable;
    var was, none := FailedOf(db, actions, size), seq(|actions|, _ => false);
    if Plannable(db, actions, size) && 1 <= |actions| <= 100 {
      PlannableAnswers(db, actions, size);
    }
    forall f | Answers(db, actions, size, f) ensures f == was && Plannable(db, actions, size) && 1 <= |actions| <= 100 {
      AnswersPlannable(db, actions, size, f);
      assert 1 <= |actions| <= 100 by { CountFits(db, actions, size, f); }
    }
    if true !in was {
      forall i | 0 <= i < |actions| ensures !was[i] {
        assert was[i] in was;
      }
      assert was == none;
    }
  }

  lemma CountFits(db: Db, actions: seq<Action>, size: Item -> nat, failed: seq<bool>)
    requires Answers(db, actions, size, failed)
    ensures 1 <= |actions| <= 100
  {
  }

  // ---------------------------------------------------------------- batches

  lemma PutPlanned(db: Db, w: Write, size: Item -> nat, p: Pending)
    requires w.Put? && PlanWrite(db, w, size) == Plan(p)
    ensures p.table == TableName(w.table) && p.table in db
    ensures CanonicalItem(w.item).Ok? && HasKeys(db[p.table].schema, CanonicalItem(w.item).value)
    ensures p.id == Serialize(db[p.table].schema, CanonicalItem(w.item).value)
    ensures p.next == Some(CanonicalItem(w.item).value)
  {
    hide TableName, PlanWrite, CanonicalItem, KeyTypeOk;
    PlanExact(db, w, size, p);
  }

  lemma DeletePlanned(db: Db, w: Write, size: Item -> nat, p: Pending)
    requires w.Delete? && PlanWrite(db, w, size) == Plan(p)
    ensures p.table == TableName(w.table) && p.table in db
    ensures CanonicalItem(w.key).Ok? && HasKeys(db[p.table].schema, CanonicalItem(w.key).value)
    ensures p.id == Serialize(db[p.table].schema, CanonicalItem(w.key).value)
    ensures p.next.None?
  {
    hide TableName, PlanWrite, CanonicalItem, HasKind;
    PlanExact(db, w, size, p);
  }

  /** After a batch, every entry's item is stored as given, or gone. */
  lemma EntryStored(db: Db, now: Db, requests: map<string, seq<Request>>, t: string, i: nat, size: Item -> nat)
    requires BatchWrote(db, now, requests, size) && t in requests && i < |requests[t]|
    ensures var n := TableName(t); n in now && match requests[t][i]
      case PutRequest(item) =>
        CanonicalItem(item).Ok? && HasKeys(now[n].schema, CanonicalItem(item).value) &&
        Lookup(now[n].items, Serialize(now[n].schema, CanonicalItem(item).value)) == Some(CanonicalItem(item).value)
      case DeleteRequest(key) =>
        CanonicalItem(key).Ok? && HasKeys(now[n].schema, CanonicalItem(key).value) &&
        Serialize(now[n].schema, CanonicalItem(key).value) !in now[n].items
      case Other => false
  {
    hide TableName, PlanWrite, CanonicalItem, DbOk, Serialize, HasKeys;
    assert (t, i) in Positions(requests);
    var p := EntryPlan(db, requests, (t, i), size).pending;
    var w := WriteFor(t, requests[t][i]);
    assert At(now, Slot(p)) == p.next;
    if w.Put? {
      PutPlanned(db, w, size, p);
    } else {
      DeletePlanned(db, w, size, p);
    }
  }

  // ---------------------------------------------------------------- sweeps

  /** The attribute is a number, spelled in any way, of at most `now`. */
  ghost predicate DueBy(item: Item, attribute: string, now: int) {
    attribute in item && exists n: D.Numeral ::
      D.WellFormed(n) && item[attribute] == Obj(map["N" := Str(D.Text(n))]) && D.Value(D.Meaning(n)) <= now as real
  }

  lemma ExpiredExact(item: Item, attribute: string, now: int)
    ensures Expired(item, attribute, now) <==> DueBy(item, attribute, now)
  {
    hide D.Read, D.Text, D.WellFormed, D.Meaning, D.Value, D.Parts;
    if DueBy(item, attribute, now) {
      var n :| D.WellFormed(n) && item[attribute] == Obj(map["N" := Str(D.Text(n))]) && D.Value(D.Meaning(n)) <= now as real;
      D.ReadComplete(n);
      assert |item[attribute].fields| == 1;
    } else if Expired(item, attribute, now) {
      var raw := item[attribute].fields["N"].str;
      D.ReadSound(raw);
      OnlyField(item[attribute].fields, "N");
    }
  }

  lemma OnlyField(m: map<string, Json>, k: string)
    requires |m| == 1 && k in m
    ensures m == map[k := m[k]]
  {
    assert |m.Keys - {k}| == 0;
    assert m.Keys == {k};
  }

  /** A sweep leaves exactly the items that are not due, as they were. */
  lemma SweepLeaves(db: Db, now: int, n: string, id: KeyId)
    requires n in db
    ensures n in SweptBut(db, {}, now) && SweptBut(db, {}, now)[n].schema == db[n].schema
    ensures Lookup(SweptBut(db, {}, now)[n].items, id) ==
      if id in db[n].items && db[n].ttl.Some? && DueBy(db[n].items[id], db[n].ttl.value, now) then None
      else Lookup(db[n].items, id)
  {
    hide Expired, DueBy;
    if id in db[n].items && db[n].ttl.Some? {
      ExpiredExact(db[n].items[id], db[n].ttl.value, now);
    }
  }

  // ---------------------------------------------------------------- table names

  predicate OccursAt(sub: string, s: string, i: nat) { i + |sub| <= |s| && s[i..i + |sub|] == sub }

  lemma {:induction false} IndexOfFirst(s: string, sub: string)
    requires sub != ""
    ensures IndexOf(s, sub) < |s| ==> OccursAt(sub, s, IndexOf(s, sub))
    ensures forall j: nat :: j < IndexOf(s, sub) ==> !OccursAt(sub, s, j)
  {
    if s != "" && !(sub <= s) {
      IndexOfFirst(s[1..], sub);
      assert OccursAt(sub, s, 0) ==> sub <= s;
      forall j: nat | j < IndexOf(s, sub) ensures !OccursAt(sub, s, j) {
        if j > 0 && j + |sub| <= |s| {
          assert s[1..][j - 1..j - 1 + |sub|] == s[j..j + |sub|];
          assert OccursAt(sub, s[1..], j - 1) <==> OccursAt(sub, s, j);
        }
      }
      var i := IndexOf(s[1..], sub);
      if i + 1 < |s| {
        assert s[1..][i..i + |sub|] == s[i + 1..i + 1 + |sub|];
      }
    }
  }

  /** The table a trimmed name or ARN means: the name itself, or what stands between the first "table/" and the next slash. */
  ghost predicate Means(s: string, name: string) {
    if |s| >= 17 && s[..17] == "arn:aws:dynamodb:" && exists i: nat :: OccursAt("table/", s, i) then
      exists i: nat ::
        OccursAt("table/", s, i) && (forall j: nat :: j < i ==> !OccursAt("table/", s, j)) &&
        '/' !in name && (s[i + 6..] == name || name + "/" <= s[i + 6..])
    else name == s
  }

  lemma UpToSlash(rest: string)
    ensures var name := rest[..IndexOf(rest, "/")]; '/' !in name && (rest == name || name + "/" <= rest)
  {
    hide IndexOf;
    IndexOfFirst(rest, "/");
    var i := IndexOf(rest, "/");
    forall k | 0 <= k < i ensures rest[k] != '/' {
      assert !OccursAt("/", rest, k);
      assert rest[k..k + 1] == [rest[k]];
    }
    if i < |rest| {
      assert rest[..i + 1] == rest[..i] + rest[i..i + 1];
    }
  }

  lemma Occurs(s: string)
    ensures "table/" <= s[IndexOf(s, "table/")..] <==> exists i: nat :: OccursAt("table/", s, i)
    ensures "table/" <= s[IndexOf(s, "table/")..] ==> OccursAt("table/", s, IndexOf(s, "table/"))
  {
    hide IndexOf;
    IndexOfFirst(s, "table/");
    var i := IndexOf(s, "table/");
    if i < |s| {
      assert s[i..][..6] == s[i..i + 6];
    } else {
      forall k: nat ensures !OccursAt("table/", s, k) {
        assert k >= i ==> k + 6 > |s|;
      }
    }
  }

  lemma TableNameExact(value: string)
    ensures Means(TrimSpace(value), TableName(value))
  {
    hide TrimSpace, OccursAt, IndexOf;
    var s := TrimSpace(value);
    Occurs(s);
    IndexOfFirst(s, "table/");
    if "table/" <= s[IndexOf(s, "table/")..] {
      UpToSlash(s[IndexOf(s, "table/") + 6..]);
    }
    assert "arn:aws:dynamodb:" <= s <==> |s| >= 17 && s[..17] == "arn:aws:dynamodb:";
  }
}
