/**
 Planning and committing writes (internal/dynamodb/write.go, ttl.go): single writes, batches,
 transactions and TTL sweeps over the tables, with the change records they emit.

 A condition or update expression enters as the function of one item that it denotes, so every
 result holds for all expressions.
 */
module Store {
  import opened Strings
  import opened Wrappers
  import opened Attributes
  import D = Decimals

  // ---------------------------------------------------------------- tables

  /** The parts of a table definition that writes look at. */
  datatype Schema = Schema(keys: seq<string>, types: map<string, string>, indexKeys: seq<string>, sizeLimit: nat)

  /** serializeKey's result: JSON texts joined in schema order are equal exactly for equal values. */
  type KeyId = seq<Json>

  datatype Table = Table(schema: Schema, items: map<KeyId, Item>, itemCount: nat, ttl: Option<string>)

  type Db = map<string, Table>

  datatype Event = Insert | Modify | Remove

  datatype Record = Record(table: string, event: Event, key: Item, oldImage: Option<Item>, newImage: Option<Item>)

  // ---------------------------------------------------------------- keys

  function TypeOf(schema: Schema, name: string): string {
    if name in schema.types then schema.types[name] else ""
  }

  /** attributeKind(v) == kind. */
  predicate HasKind(v: Json, kind: string) {
    if v.Obj? && |v.fields| == 1 then kind in v.fields else kind == ""
  }

  /** checkKeyType. */
  predicate KeyTypeOk(v: Json, want: string) {
    (want != "" ==> HasKind(v, want)) &&
    !(v.Obj? && (("S" in v.fields && v.fields["S"] == Str("")) || ("B" in v.fields && v.fields["B"] == Str(""))))
  }

  /** validateItem; `size` is itemSize. */
  predicate ItemOk(schema: Schema, item: Item, size: Item -> nat) {
    (forall i :: 0 <= i < |schema.keys| ==>
      schema.keys[i] in item && item[schema.keys[i]] != Null &&
      KeyTypeOk(item[schema.keys[i]], TypeOf(schema, schema.keys[i]))) &&
    (forall i :: 0 <= i < |schema.indexKeys| ==> schema.indexKeys[i] in item ==>
      KeyTypeOk(item[schema.indexKeys[i]], TypeOf(schema, schema.indexKeys[i]))) &&
    size(item) <= schema.sizeLimit
  }

  predicate HasKeys(schema: Schema, item: Item) {
    forall i :: 0 <= i < |schema.keys| ==> schema.keys[i] in item
  }

  /** buildKeyMap. */
  function KeyOf(schema: Schema, item: Item): Item
    requires HasKeys(schema, item)
  {
    map k | k in item && k in schema.keys :: item[k]
  }

  /** serializeKey. */
  function Serialize(schema: Schema, key: Item): KeyId
    requires HasKeys(schema, key)
  {
    seq(|schema.keys|, i requires 0 <= i < |schema.keys| => key[schema.keys[i]])
  }

  /** canonicalKey. */
  function CanonicalKey(schema: Schema, key: Item): Result<Item> {
    if |key| != |schema.keys| then Err
    else
      var out := CanonicalItem(key);
      if out.Ok? && (forall i :: 0 <= i < |schema.keys| ==>
           schema.keys[i] in out.value && HasKind(out.value[schema.keys[i]], TypeOf(schema, schema.keys[i])))
      then out else Err
  }

  // ---------------------------------------------------------------- planning

  /** A condition on the current item, if there is one; None is an evaluation error. */
  type Condition = Option<Item> -> Option<bool>

  datatype Write =
    | Put(table: string, item: Item, condition: Condition)
    | Update(table: string, key: Item, update: Item -> Result<Item>, condition: Condition)
    | Delete(table: string, key: Item, condition: Condition)
    | Check(table: string, key: Item, condition: Condition)

  /** pendingWrite. */
  datatype Pending = Pending(table: string, id: KeyId, key: Item, prev: Option<Item>, next: Option<Item>)

  datatype Planned = Plan(pending: Pending) | ConditionFailed | Rejected

  function Lookup(items: map<KeyId, Item>, id: KeyId): Option<Item> {
    if id in items then Some(items[id]) else None
  }

  /** The canonical key a write addresses. */
  function KeyFor(schema: Schema, w: Write, size: Item -> nat): Result<Item> {
    match w
    case Put(_, item, _) =>
      var c := CanonicalItem(item);
      if c.Ok? && ItemOk(schema, c.value, size) then Ok(KeyOf(schema, c.value)) else Err
    case Update(_, key, _, _) => CanonicalKey(schema, key)
    case Delete(_, key, _) => CanonicalKey(schema, key)
    case Check(_, key, _) => CanonicalKey(schema, key)
  }

  /** The item an update leaves, if it is allowed. */
  function Updated(schema: Schema, key: Item, prev: Option<Item>, update: Item -> Result<Item>, size: Item -> nat): Result<Item> {
    var u := update(if prev.Some? then prev.value else key);
    if u.Err? || exists k :: k in key && !(k in u.value && AttributeValueEqual(u.value[k], key[k])) then Err
    else
      var c := CanonicalItem(u.value);
      if c.Ok? && ItemOk(schema, c.value, size) then c else Err
  }

  /** The next image: the item put, the item updated, or none. */
  function NextOf(schema: Schema, key: Item, stored: Option<Item>, w: Write, size: Item -> nat): Result<Option<Item>> {
    match w
    case Put(_, item, _) => if CanonicalItem(item).Ok? then Ok(Some(CanonicalItem(item).value)) else Err
    case Update(_, _, update, _) =>
      var n := Updated(schema, key, stored, update, size);
      if n.Err? then Err else Ok(Some(n.value))
    case _ => Ok(None)
  }

  /** planLocked on one table. */
  function PlanOn(name: string, table: Table, w: Write, size: Item -> nat): Planned {
    var key := KeyFor(table.schema, w, size);
    if key.Err? || !HasKeys(table.schema, key.value) then Rejected
    else
      var id := Serialize(table.schema, key.value);
      var prev := Lookup(table.items, id);
      var ok := w.condition(prev);
      if ok == None then Rejected
      else if ok == Some(false) then ConditionFailed
      else
        var next := NextOf(table.schema, key.value, prev, w, size);
        if next.Err? then Rejected else Plan(Pending(name, id, key.value, prev, next.value))
  }

  /** Where `sub` first occurs in `s`, or its length. */
  function IndexOf(s: string, sub: string): (i: nat)
    ensures i <= |s|
  {
    if sub <= s || s == "" then 0 else 1 + IndexOf(s[1..], sub)
  }

  /** normalizeTableIdentifier: a table name, or the name inside a table ARN. */
  function TableName(value: string): string {
    var s := TrimSpace(value);
    if !("arn:aws:dynamodb:" <= s) || !("table/" <= s[IndexOf(s, "table/")..]) then s
    else
      var rest := s[IndexOf(s, "table/") + 6..];
      rest[..IndexOf(rest, "/")]
  }

  /** planLocked. */
  function PlanWrite(db: Db, w: Write, size: Item -> nat): Planned {
    var name := TableName(w.table);
    if name !in db then Rejected else PlanOn(name, db[name], w, size)
  }

  // -- What a plan means, in terms of the stored item.

  /** `key` is the canonical key the write addresses; a Put names it by its own attributes. */
  ghost predicate Addresses(schema: Schema, w: Write, size: Item -> nat, key: Item) {
    HasKeys(schema, key) &&
    if w.Put? then
      exists c :: CanonicalItem(w.item) == Ok(c) && ItemOk(schema, c, size) &&
        forall k :: k in key <==> k in schema.keys && k in c && c[k] == key[k]
    else
      |w.key| == |schema.keys| && CanonicalItem(w.key) == Ok(key) &&
      forall i :: 0 <= i < |schema.keys| ==> HasKind(key[schema.keys[i]], TypeOf(schema, schema.keys[i]))
  }

  /** The table holds `stored`, or nothing, under the serialised key. */
  ghost predicate Holds(t: Table, key: Item, id: KeyId, stored: Option<Item>) {
    |id| == |t.schema.keys| &&
    (forall i :: 0 <= i < |id| ==> t.schema.keys[i] in key && id[i] == key[t.schema.keys[i]]) &&
    if stored.Some? then id in t.items && t.items[id] == stored.value else id !in t.items
  }

  /** `u` has every key attribute, equal to the key's. */
  ghost predicate KeepsKey(u: Item, key: Item) {
    forall k :: k in key ==> k in u && AttributeValueEqual(u[k], key[k])
  }

  /**
   What the write makes of the stored item: a Put replaces it by the item given, an Update applies the update to it, or
   to the bare key if nothing is stored, and a Delete or a Check leaves nothing.
   */
  ghost predicate Leaves(schema: Schema, w: Write, size: Item -> nat, key: Item, stored: Option<Item>, next: Option<Item>) {
    match w
    case Put(_, item, _) => next.Some? && CanonicalItem(item) == Ok(next.value)
    case Update(_, _, update, _) =>
      next.Some? && ItemOk(schema, next.value, size) &&
      exists base, u :: (if stored.Some? then base == stored.value else base == key) &&
        update(base) == Ok(u) && KeepsKey(u, key) && CanonicalItem(u) == Ok(next.value)
    case _ => next.None?
  }

  lemma AddressesExact(schema: Schema, w: Write, size: Item -> nat, key: Item)
    ensures KeyFor(schema, w, size) == Ok(key) && HasKeys(schema, key) <==> Addresses(schema, w, size, key)
  {
    hide CanonicalItem, KeyTypeOk, HasKind, TypeOf;
    match w
    case Put(_, item, _) =>
      var c := CanonicalItem(item);
      if c.Ok? && ItemOk(schema, c.value, size) {
        assert HasKeys(schema, c.value);
        if Addresses(schema, w, size, key) {
          assert KeyOf(schema, c.value) == key;
        }
      }
    case Update(_, _, _, _) =>
    case Delete(_, _, _) =>
    case Check(_, _, _) =>
  }

  lemma UpdatedExact(
    schema: Schema, w: Write, size: Item -> nat, key: Item, stored: Option<Item>, next: Item)
    requires w.Update?
    ensures Updated(schema, key, stored, w.update, size) == Ok(next) <==> Leaves(schema, w, size, key, stored, Some(next))
  {
    hide CanonicalItem, ItemOk, AttributeValueEqual;
    var base := if stored.Some? then stored.value else key;
    var u := w.update(base);
    if u.Ok? {
      assert KeepsKey(u.value, key) <==>
        !exists k :: k in key && !(k in u.value && AttributeValueEqual(u.value[k], key[k]));
    }
  }

  /** The stored item a write meets, by the key it addresses. */
  ghost predicate Meets(db: Db, w: Write, size: Item -> nat, p: Pending) {
    p.table == TableName(w.table) && p.table in db &&
    Addresses(db[p.table].schema, w, size, p.key) && Holds(db[p.table], p.key, p.id, p.prev)
  }

  lemma HoldsLookup(t: Table, key: Item, id: KeyId, stored: Option<Item>)
    requires HasKeys(t.schema, key)
    ensures Holds(t, key, id, stored) <==> id == Serialize(t.schema, key) && stored == Lookup(t.items, id)
  {
  }

  lemma NextExact(schema: Schema, w: Write, size: Item -> nat, key: Item, stored: Option<Item>, next: Option<Item>)
    ensures NextOf(schema, key, stored, w, size) == Ok(next) <==> Leaves(schema, w, size, key, stored, next)
  {
    hide Updated, CanonicalItem, ItemOk, KeepsKey;
    match w
    case Update(_, _, _, _) =>
      if next.Some? {
        UpdatedExact(schema, w, size, key, stored, next.value);
      }
    case _ =>
  }

  /**
   A write is planned exactly when its condition holds of the stored item and its effect on that item is allowed; the
   condition fails exactly when it is false of the stored item.
   */
  lemma PlanExact(db: Db, w: Write, size: Item -> nat, p: Pending)
    ensures PlanWrite(db, w, size) == Plan(p) <==>
            Meets(db, w, size, p) && w.condition(p.prev) == Some(true) &&
            Leaves(db[p.table].schema, w, size, p.key, p.prev, p.next)
    ensures Meets(db, w, size, p) ==> (PlanWrite(db, w, size) == ConditionFailed <==> w.condition(p.prev) == Some(false))
    ensures PlanWrite(db, w, size) == ConditionFailed ==>
            exists m: Pending :: Meets(db, w, size, m) && w.condition(m.prev) == Some(false)
  {
    hide TableName, KeyFor, NextOf, Leaves, Addresses, Holds, Serialize, HasKeys;
    var name := TableName(w.table);
    if name in db {
      var t := db[name];
      AddressesExact(t.schema, w, size, p.key);
      var key := KeyFor(t.schema, w, size);
      if key.Ok? && HasKeys(t.schema, key.value) {
        var id := Serialize(t.schema, key.value);
        var m := Pending(name, id, key.value, Lookup(t.items, id), p.next);
        AddressesExact(t.schema, w, size, key.value);
        HoldsLookup(t, key.value, id, m.prev);
        HoldsLookup(t, key.value, p.id, p.prev);
        assert Meets(db, w, size, m);
        NextExact(t.schema, w, size, key.value, m.prev, p.next);
        assert p == Pending(p.table, p.id, p.key, p.prev, p.next);
        var c := w.condition(m.prev);
        assert c == None || c == Some(true) || c == Some(false) by {
          if c.Some? {
            assert c.value == true || c.value == false;
          }
        }
      }
    }
  }

  /** UpdateItem on a stored item: what is stored afterwards is the canonical form of the update of what was there. */
  lemma UpdateApplies(db: Db, w: Write, size: Item -> nat, p: Pending)
    requires w.Update? && PlanWrite(db, w, size) == Plan(p)
    ensures p.table in db && p.next.Some?
    ensures p.id in db[p.table].items ==>
      w.update(db[p.table].items[p.id]).Ok? &&
      CanonicalItem(w.update(db[p.table].items[p.id]).value) == Ok(p.next.value)
    ensures p.id !in db[p.table].items ==>
      w.update(p.key).Ok? && CanonicalItem(w.key) == Ok(p.key) &&
      CanonicalItem(w.update(p.key).value) == Ok(p.next.value)
  {
    hide PlanWrite, CanonicalItem, HasKeys, ItemOk, KeepsKey, TableName;
    PlanExact(db, w, size, p);
  }

  // ---------------------------------------------------------------- committing

  function WithItems(t: Table, items: map<KeyId, Item>): Table { t.(items := items, itemCount := |items|) }

  /** commitLocked's effect on its table. */
  function CommitTable(t: Table, p: Pending): Table {
    if p.next.None? && p.prev.None? then t
    else if p.next.None? then WithItems(t, t.items - {p.id})
    else WithItems(t, t.items[p.id := p.next.value])
  }

  /** commitLocked's change record, if it emits one. */
  function RecordsOf(p: Pending): seq<Record> {
    if p.next.None? && p.prev.None? then []
    else if p.next.None? then [Record(p.table, Remove, p.key, p.prev, None)]
    else if p.prev.None? then [Record(p.table, Insert, p.key, None, p.next)]
    else if !AttributeValueEqual(Obj(map["M" := Obj(p.prev.value)]), Obj(map["M" := Obj(p.next.value)]))
    then [Record(p.table, Modify, p.key, p.prev, p.next)]
    else []
  }

  function Commit(db: Db, p: Pending): Db {
    if p.table in db then db[p.table := CommitTable(db[p.table], p)] else db
  }

  // ---------------------------------------------------------------- what every run keeps

  /** A stored item is canonical and sits under the serialisation of its own key. */
  ghost predicate InPlace(schema: Schema, id: KeyId, item: Item) {
    CanonicalItem(item) == Ok(item) && HasKeys(schema, item) && Serialize(schema, item) == id
  }

  ghost predicate TableOk(t: Table) {
    t.itemCount == |t.items| && forall id :: id in t.items ==> InPlace(t.schema, id, t.items[id])
  }

  ghost predicate DbOk(db: Db) { forall n :: n in db ==> TableOk(db[n]) }

  /** A plan made on the current table, whatever the table is called. */
  ghost predicate Current(t: Table, p: Pending) {
    p.prev == Lookup(t.items, p.id) &&
    HasKeys(t.schema, p.key) && Serialize(t.schema, p.key) == p.id &&
    (p.next.Some? ==> InPlace(t.schema, p.id, p.next.value))
  }

  lemma CanonicalField(item: Item, k: string)
    requires CanonicalItem(item).Ok? && k in item
    ensures k in CanonicalItem(item).value && Canonical(item[k]) == Ok(CanonicalItem(item).value[k])
  {
    hide Canonical;
  }

  /** Canonicalising an updated item restores each key attribute exactly, so an update cannot move an item. */
  lemma UpdateStays(schema: Schema, key: Item, prev: Option<Item>, update: Item -> Result<Item>, size: Item -> nat)
    requires CanonicalItem(key) == Ok(key) && HasKeys(schema, key)
    requires Updated(schema, key, prev, update, size).Ok?
    ensures InPlace(schema, Serialize(schema, key), Updated(schema, key, prev, update, size).value)
  {
    hide CanonicalItem, Canonical, ItemOk;
    var u := update(if prev.Some? then prev.value else key).value;
    var c := CanonicalItem(u).value;
    CanonicalItemFixed(u);
    forall i | 0 <= i < |schema.keys| ensures schema.keys[i] in c && c[schema.keys[i]] == key[schema.keys[i]] {
      var k := schema.keys[i];
      assert AttributeValueEqual(u[k], key[k]);
      CanonicalField(u, k);
      CanonicalField(key, k);
    }
    assert Serialize(schema, c) == Serialize(schema, key);
  }

  lemma KeyForCanonical(schema: Schema, w: Write, size: Item -> nat)
    requires KeyFor(schema, w, size).Ok?
    ensures HasKeys(schema, KeyFor(schema, w, size).value)
    ensures w.Put? ==> InPlace(schema, Serialize(schema, KeyFor(schema, w, size).value), CanonicalItem(w.item).value)
    ensures !w.Put? ==> CanonicalItem(KeyFor(schema, w, size).value) == KeyFor(schema, w, size)
  {
    hide CanonicalItem, KeyTypeOk, HasKind, TypeOf;
    match w
    case Put(_, item, _) =>
      CanonicalItemFixed(item);
      var c := CanonicalItem(item).value;
      assert HasKeys(schema, c);
      assert forall i :: 0 <= i < |schema.keys| ==> schema.keys[i] in KeyOf(schema, c);
      assert Serialize(schema, KeyOf(schema, c)) == Serialize(schema, c);
    case Update(_, key, _, _) => CanonicalItemFixed(key);
    case Delete(_, key, _) => CanonicalItemFixed(key);
    case Check(_, key, _) => CanonicalItemFixed(key);
  }

  /** Every plan describes its own slot of the current table, and puts a canonical item there. */
  lemma PlanCurrent(name: string, t: Table, w: Write, size: Item -> nat)
    requires PlanOn(name, t, w, size).Plan?
    ensures Current(t, PlanOn(name, t, w, size).pending) && PlanOn(name, t, w, size).pending.table == name
  {
    hide KeyFor, Updated, InPlace, HasKeys, Serialize, CanonicalItem;
    KeyForCanonical(t.schema, w, size);
    if w.Update? {
      var key := KeyFor(t.schema, w, size).value;
      UpdateStays(t.schema, key, Lookup(t.items, Serialize(t.schema, key)), w.update, size);
    }
  }

  lemma CommitOk(t: Table, p: Pending)
    requires TableOk(t) && Current(t, p)
    ensures TableOk(CommitTable(t, p)) && CommitTable(t, p).schema == t.schema
  {
    hide InPlace, HasKeys, Serialize;
  }

  // ---------------------------------------------------------------- replaying the change log

  /** One change record applied to the tables, if its old image is what they hold. */
  function Apply(db: Db, r: Record): Option<Db> {
    if r.table !in db || !HasKeys(db[r.table].schema, r.key) then None
    else
      var t := db[r.table];
      var id := Serialize(t.schema, r.key);
      if r.oldImage != Lookup(t.items, id) then None
      else if r.event.Remove? && r.oldImage.Some? && r.newImage.None? then
        Some(db[r.table := WithItems(t, t.items - {id})])
      else if r.event == (if r.oldImage.None? then Insert else Modify) && r.newImage.Some? then
        Some(db[r.table := WithItems(t, t.items[id := r.newImage.value])])
      else None
  }

  function Replay(db: Db, log: seq<Record>): Option<Db> {
    if log == [] then Some(db)
    else
      var before := Replay(db, log[..|log| - 1]);
      if before.None? then None else Apply(before.value, log[|log| - 1])
  }

  lemma {:induction false} ReplayConcat(db: Db, a: seq<Record>, b: seq<Record>)
    ensures Replay(db, a + b) == if Replay(db, a).None? then None else Replay(Replay(db, a).value, b)
  {
    hide Apply;
    if b == [] {
      assert a + b == a;
    } else {
      var m := |b| - 1;
      ReplayConcat(db, a, b[..m]);
      assert (a + b)[..|a + b| - 1] == a + b[..m];
    }
  }

  lemma SameItems(a: Item, b: Item)
    requires CanonicalItem(a) == Ok(a) && CanonicalItem(b) == Ok(b)
    ensures AttributeValueEqual(Obj(map["M" := Obj(a)]), Obj(map["M" := Obj(b)])) <==> a == b
  {
    hide CanonicalFields;
    var x, y := Obj(map["M" := Obj(a)]), Obj(map["M" := Obj(b)]);
    hide Canonical;
    CanonicalByKind(x, "M");
    CanonicalByKind(y, "M");
    assert x.fields["M"].fields == a && y.fields["M"].fields == b;
  }

  /** A commit is its own change record: replaying it has the same effect, and emitting none means no effect. */
  lemma CommitReplays(db: Db, p: Pending)
    requires DbOk(db) && p.table in db && Current(db[p.table], p)
    ensures Replay(db, RecordsOf(p)) == Some(Commit(db, p))
  {
    hide AttributeValueEqual, Serialize, HasKeys, CanonicalItem;
    var t, rs := db[p.table], RecordsOf(p);
    if p.prev.Some? && p.next.Some? {
      SameItems(p.prev.value, p.next.value);
    }
    if rs == [] {
      if p.next.Some? {
        assert t.items[p.id := p.next.value] == t.items;
      }
      assert db[p.table := t] == db;
    } else {
      assert rs[..0] == [] && Replay(db, []) == Some(db);
      assert Replay(db, rs) == Apply(db, rs[0]);
    }
  }

  /** A write leaves a record exactly if the item changed. */
  lemma RecordedExactly(db: Db, p: Pending)
    requires DbOk(db) && p.table in db && Current(db[p.table], p)
    ensures |RecordsOf(p)| == (if p.prev == p.next then 0 else 1)
    ensures forall r :: r in RecordsOf(p) ==>
      r.table == p.table && r.key == p.key && r.oldImage == p.prev && r.newImage == p.next
  {
    hide AttributeValueEqual, Serialize, HasKeys, CanonicalItem;
    if p.prev.Some? && p.next.Some? {
      assert InPlace(db[p.table].schema, p.id, p.prev.value);
      SameItems(p.prev.value, p.next.value);
    }
  }

  /** The tables after a write: the item is what the write makes of the stored one, every other item is as before. */
  ghost predicate Wrote(db: Db, now: Db, w: Write, size: Item -> nat, p: Pending) {
    Meets(db, w, size, p) && w.condition(p.prev) == Some(true) &&
    Leaves(db[p.table].schema, w, size, p.key, p.prev, p.next) &&
    SameTables(db, now) && forall slot :: At(now, slot) == if slot == Slot(p) then p.next else At(db, slot)
  }

  lemma PlanWrote(db: Db, w: Write, size: Item -> nat, p: Pending)
    requires DbOk(db) && PlanWrite(db, w, size) == Plan(p) && !w.Check?
    ensures Wrote(db, Commit(db, p), w, size, p)
  {
    hide PlanWrite, Current, Commit, Meets, Leaves, DbOk, At;
    PlanExact(db, w, size, p);
    PlanWriteCurrent(db, w, size);
    SlotAfter(db, p);
  }

  // ---------------------------------------------------------------- several writes at once

  /** A condition check is planned like a write but never committed. */
  function Perform(db: Db, w: Write, p: Pending): Db {
    if w.Check? then db else Commit(db, p)
  }

  /** One write planned and committed on its own. */
  function RunOne(db: Db, w: Write, size: Item -> nat): Option<Db> {
    var p := PlanWrite(db, w, size);
    if p.Plan? then Some(Perform(db, w, p.pending)) else None
  }

  /** Writes planned and committed one after another. */
  function RunSerially(db: Db, ws: seq<Write>, size: Item -> nat): Option<Db> {
    if ws == [] then Some(db)
    else
      var before := RunSerially(db, ws[..|ws| - 1], size);
      if before.None? then None else RunOne(before.value, ws[|ws| - 1], size)
  }

  /** Plans all made on one state, then committed in turn. */
  function CommitAll(db: Db, ws: seq<Write>, ps: seq<Pending>): Db
    requires |ws| == |ps|
  {
    if ws == [] then db
    else
      var m := |ws| - 1;
      Perform(CommitAll(db, ws[..m], ps[..m]), ws[m], ps[m])
  }

  ghost predicate PlannedOn(db: Db, ws: seq<Write>, ps: seq<Pending>, size: Item -> nat) {
    |ws| == |ps| && forall i :: 0 <= i < |ws| ==> PlanWrite(db, ws[i], size) == Plan(ps[i])
  }

  function Slot(p: Pending): (string, KeyId) { (p.table, p.id) }

  /** No item is written twice. */
  predicate OneWriteEach(ps: seq<Pending>) {
    forall i, j :: 0 <= i < j < |ps| ==> Slot(ps[i]) != Slot(ps[j])
  }

  /** The write, if any, among those in `done` that changes a slot. */
  ghost predicate Writes(ws: seq<Write>, ps: seq<Pending>, done: set<nat>, i: nat, slot: (string, KeyId)) {
    i in done && i < |ws| == |ps| && !ws[i].Check? && Slot(ps[i]) == slot
  }

  /** What the tables hold in a slot. */
  function At(db: Db, slot: (string, KeyId)): Option<Item> {
    if slot.0 in db then Lookup(db[slot.0].items, slot.1) else None
  }

  /** Same tables and definitions. */
  ghost predicate SameTables(a: Db, b: Db) {
    a.Keys == b.Keys && forall n :: n in a ==> a[n].schema == b[n].schema && a[n].ttl == b[n].ttl
  }

  /** `now` is `start` with exactly the writes in `done` performed. */
  ghost predicate Performed(start: Db, now: Db, ws: seq<Write>, ps: seq<Pending>, done: set<nat>) {
    |ws| == |ps| && SameTables(start, now) && DbOk(now) &&
    (forall slot, i: nat :: Writes(ws, ps, done, i, slot) ==> At(now, slot) == ps[i].next) &&
    (forall slot :: (forall i: nat :: !Writes(ws, ps, done, i, slot)) ==> At(now, slot) == At(start, slot))
  }

  /** A write not yet performed is still planned the same. */
  lemma PlanUnaffected(start: Db, now: Db, ws: seq<Write>, ps: seq<Pending>, done: set<nat>, i: nat, size: Item -> nat)
    requires PlannedOn(start, ws, ps, size) && OneWriteEach(ps) && i < |ws| && i !in done
    requires Performed(start, now, ws, ps, done)
    ensures PlanWrite(now, ws[i], size) == Plan(ps[i])
  {
    hide KeyFor, Updated, TableName, CanonicalItem, DbOk;
    var n := TableName(ws[i].table);
    assert PlanWrite(start, ws[i], size) == Plan(ps[i]);
    var slot := (n, ps[i].id);
    assert Slot(ps[i]) == slot;
    assert forall j: nat :: !Writes(ws, ps, done, j, slot);
    assert At(now, slot) == At(start, slot);
  }

  lemma PlanWriteCurrent(db: Db, w: Write, size: Item -> nat)
    requires PlanWrite(db, w, size).Plan?
    ensures var p := PlanWrite(db, w, size).pending; p.table in db && Current(db[p.table], p)
  {
    hide PlanOn, TableName, Current;
    PlanCurrent(TableName(w.table), db[TableName(w.table)], w, size);
  }

  /** A commit sets its own slot and no other. */
  lemma SlotAfter(db: Db, p: Pending)
    requires DbOk(db) && p.table in db && Current(db[p.table], p)
    ensures DbOk(Commit(db, p)) && SameTables(db, Commit(db, p))
    ensures forall slot :: At(Commit(db, p), slot) == if slot == Slot(p) then p.next else At(db, slot)
  {
    hide Current, TableOk;
    CommitOk(db[p.table], p);
    SlotOnTable(db[p.table], p);
  }

  lemma SlotOnTable(t: Table, p: Pending)
    requires Current(t, p)
    ensures CommitTable(t, p).ttl == t.ttl
    ensures forall id :: Lookup(CommitTable(t, p).items, id) == if id == p.id then p.next else Lookup(t.items, id)
  {
    hide HasKeys, Serialize, InPlace;
  }

  lemma PerformOne(start: Db, now: Db, ws: seq<Write>, ps: seq<Pending>, done: set<nat>, i: nat, size: Item -> nat)
    requires PlannedOn(start, ws, ps, size) && OneWriteEach(ps) && i < |ws| && i !in done
    requires Performed(start, now, ws, ps, done)
    ensures Performed(start, Perform(now, ws[i], ps[i]), ws, ps, done + {i})
  {
    hide PlanWrite, Current, DbOk, At, Commit;
    PlanUnaffected(start, now, ws, ps, done, i, size);
    PlanWriteCurrent(now, ws[i], size);
    var p, next := ps[i], Perform(now, ws[i], ps[i]);
    if !ws[i].Check? {
      SlotAfter(now, p);
    }
    forall slot, j: nat | Writes(ws, ps, done + {i}, j, slot) ensures At(next, slot) == ps[j].next {
      if j != i {
        assert Writes(ws, ps, done, j, slot);
        assert j < i ==> Slot(ps[j]) != Slot(ps[i]);
        assert i < j ==> Slot(ps[i]) != Slot(ps[j]);
      }
    }
    forall slot | (forall j: nat :: !Writes(ws, ps, done + {i}, j, slot)) ensures At(next, slot) == At(start, slot) {
      assert forall j: nat :: Writes(ws, ps, done, j, slot) ==> Writes(ws, ps, done + {i}, j, slot);
      assert !Writes(ws, ps, done + {i}, i, slot);
    }
  }

  function Below(n: nat): (r: set<nat>)
    ensures forall i: nat :: i in r <==> i < n
  {
    if n == 0 then {} else Below(n - 1) + {n - 1}
  }

  function Indices(s: seq<nat>): set<nat> { set i | i in s }

  lemma NothingPerformed(db: Db, ws: seq<Write>, ps: seq<Pending>, done: set<nat>)
    requires DbOk(db) && |ws| == |ps| && done == {}
    ensures Performed(db, db, ws, ps, done)
  {
  }

  lemma CommitLast(db: Db, ws: seq<Write>, ps: seq<Pending>, k: nat)
    requires |ws| == |ps| && 0 < k <= |ws|
    ensures CommitAll(db, ws[..k], ps[..k]) == Perform(CommitAll(db, ws[..k - 1], ps[..k - 1]), ws[k - 1], ps[k - 1])
  {
    hide Perform;
    assert ws[..k][..k - 1] == ws[..k - 1] && ps[..k][..k - 1] == ps[..k - 1];
  }

  /** Plans of one state name existing tables, so performing them is well defined throughout. */
  lemma {:induction false} PerformedPrefix(db: Db, ws: seq<Write>, ps: seq<Pending>, k: nat, size: Item -> nat)
    requires DbOk(db) && PlannedOn(db, ws, ps, size) && OneWriteEach(ps) && k <= |ws|
    ensures Performed(db, CommitAll(db, ws[..k], ps[..k]), ws, ps, Below(k))
  {
    hide Performed, PlannedOn, OneWriteEach, Perform;
    assert |ws| == |ps| by { hide *; PlannedLength(db, ws, ps, size); }
    if k == 0 {
      assert Below(0) == {};
      NothingPerformed(db, ws, ps, Below(0));
    } else {
      hide CommitAll, DbOk;
      PerformedPrefix(db, ws, ps, k - 1, size);
      CommitLast(db, ws, ps, k);
      PerformOne(db, CommitAll(db, ws[..k - 1], ps[..k - 1]), ws, ps, Below(k - 1), k - 1, size);
      assert Below(k - 1) + {k - 1} == Below(k);
    }
  }

  lemma PlannedLength(db: Db, ws: seq<Write>, ps: seq<Pending>, size: Item -> nat)
    requires PlannedOn(db, ws, ps, size)
    ensures |ws| == |ps|
  {
  }

  /** The tables are determined by what was performed. */
  lemma PerformedUnique(start: Db, a: Db, b: Db, ws: seq<Write>, ps: seq<Pending>, done: set<nat>)
    requires Performed(start, a, ws, ps, done) && Performed(start, b, ws, ps, done)
    ensures a == b
  {
    assert SameTables(a, b) && DbOk(a) && DbOk(b);
    hide DbOk;
    forall slot ensures At(a, slot) == At(b, slot) {
      if i: nat :| Writes(ws, ps, done, i, slot) {
        assert At(a, slot) == ps[i].next;
      }
    }
    SameEverywhere(a, b);
  }

  lemma SameEverywhere(a: Db, b: Db)
    requires DbOk(a) && DbOk(b) && SameTables(a, b) && forall slot :: At(a, slot) == At(b, slot)
    ensures a == b
  {
    forall n | n in a ensures a[n] == b[n] {
      forall id ensures Lookup(a[n].items, id) == Lookup(b[n].items, id) {
        assert At(a, (n, id)) == At(b, (n, id));
      }
      SameLookups(a[n].items, b[n].items);
    }
  }

  lemma SameLookups(x: map<KeyId, Item>, y: map<KeyId, Item>)
    requires forall id :: Lookup(x, id) == Lookup(y, id)
    ensures x == y
  {
    forall id ensures id in x <==> id in y {
      assert Lookup(x, id) == Lookup(y, id);
    }
    forall id | id in x ensures x[id] == y[id] {
      assert Lookup(x, id) == Lookup(y, id);
    }
  }

  /** Each index below `n`, once. */
  ghost predicate IsPermutation(perm: seq<nat>, n: nat) {
    (forall i :: 0 <= i < |perm| ==> perm[i] < n) &&
    (forall i, j :: 0 <= i < j < |perm| ==> perm[i] != perm[j]) &&
    (forall k: nat :: k < n ==> k in perm)
  }

  function Permute<T>(s: seq<T>, perm: seq<nat>): (r: seq<T>)
    requires forall i :: 0 <= i < |perm| ==> perm[i] < |s|
    ensures |r| == |perm| && forall i :: 0 <= i < |perm| ==> r[i] == s[perm[i]]
  {
    seq(|perm|, i requires 0 <= i < |perm| => s[perm[i]])
  }

  lemma {:induction false} SerialPrefix(
    db: Db, ws: seq<Write>, ps: seq<Pending>, perm: seq<nat>, k: nat, size: Item -> nat) returns (now: Db)
    requires DbOk(db) && PlannedOn(db, ws, ps, size) && OneWriteEach(ps)
    requires IsPermutation(perm, |ws|) && k <= |perm|
    ensures RunSerially(db, Permute(ws, perm)[..k], size) == Some(now)
    ensures Performed(db, now, ws, ps, Indices(perm[..k]))
  {
    hide Performed, PlannedOn, OneWriteEach, Perform, PlanWrite;
    PlannedLength(db, ws, ps, size);
    if k == 0 {
      now := db;
      NothingPerformed(db, ws, ps, Indices(perm[..0]));
    } else {
      var before := SerialPrefix(db, ws, ps, perm, k - 1, size);
      var i, done := perm[k - 1], Indices(perm[..k - 1]);
      var order := Permute(ws, perm);
      assert order[..k][..k - 1] == order[..k - 1] && order[..k][k - 1] == ws[i];
      PlanUnaffected(db, before, ws, ps, done, i, size);
      PerformOne(db, before, ws, ps, done, i, size);
      now := Perform(before, ws[i], ps[i]);
      assert perm[..k] == perm[..k - 1] + [i];
      assert Indices(perm[..k]) == done + {i};
    }
  }

  /** Planning everything first and committing afterwards is the same as running the writes one at a time, in any order. */
  lemma SerialInAnyOrder(db: Db, ws: seq<Write>, ps: seq<Pending>, perm: seq<nat>, size: Item -> nat)
    requires DbOk(db) && PlannedOn(db, ws, ps, size) && OneWriteEach(ps) && IsPermutation(perm, |ws|)
    ensures RunSerially(db, Permute(ws, perm), size) == Some(CommitAll(db, ws, ps))
    ensures DbOk(CommitAll(db, ws, ps))
  {
    hide PlannedOn, OneWriteEach, RunSerially, CommitAll, PlanWrite, At;
    PlannedLength(db, ws, ps, size);
    var now := SerialPrefix(db, ws, ps, perm, |perm|, size);
    assert Permute(ws, perm)[..|perm|] == Permute(ws, perm);
    PerformedPrefix(db, ws, ps, |ws|, size);
    assert ws[..|ws|] == ws && ps[..|ws|] == ps;
    assert perm[..|perm|] == perm && Indices(perm) == Below(|ws|);
    PerformedUnique(db, now, CommitAll(db, ws, ps), ws, ps, Below(|ws|));
  }

  // ---------------------------------------------------------------- transactions

  /** One transaction action: its single member, or not exactly one member, or a check without a condition. */
  datatype Action = Malformed | One(write: Write)

  datatype Outcome = Done | Cancelled(failed: seq<bool>) | Refused

  function PlanAction(db: Db, a: Action, size: Item -> nat): Planned {
    if a.Malformed? then Rejected else PlanWrite(db, a.write, size)
  }

  /** The action is planned on this item. */
  predicate Takes(db: Db, a: Action, slot: (string, KeyId), size: Item -> nat) {
    PlanAction(db, a, size).Plan? && Slot(PlanAction(db, a, size).pending) == slot
  }

  /** Two planned actions on one item. */
  predicate Clash(db: Db, a: Action, b: Action, size: Item -> nat) {
    PlanAction(db, b, size).Plan? && Takes(db, a, Slot(PlanAction(db, b, size).pending), size)
  }

  /** No action is refused outright and no item is addressed twice. */
  ghost predicate Plannable(db: Db, actions: seq<Action>, size: Item -> nat) {
    (forall i :: 0 <= i < |actions| ==> !PlanAction(db, actions[i], size).Rejected?) &&
    (forall i, j :: 0 <= i < j < |actions| ==> !Clash(db, actions[i], actions[j], size))
  }

  /** What a transaction answers. */
  ghost function TransactionOutcome(db: Db, actions: seq<Action>, size: Item -> nat): Outcome {
    if |actions| == 0 || |actions| > 100 || !Plannable(db, actions, size) then Refused
    else if true in FailedOf(db, actions, size) then Cancelled(FailedOf(db, actions, size))
    else Done
  }

  /** Which actions' conditions do not hold. */
  function FailedOf(db: Db, actions: seq<Action>, size: Item -> nat): (r: seq<bool>)
    ensures |r| == |actions|
    ensures forall i :: 0 <= i < |r| ==> r[i] == PlanAction(db, actions[i], size).ConditionFailed?
  {
    seq(|actions|, i requires 0 <= i < |actions| => PlanAction(db, actions[i], size).ConditionFailed?)
  }

  function WritesOf(actions: seq<Action>): seq<Write>
    requires forall i :: 0 <= i < |actions| ==> actions[i].One?
  {
    seq(|actions|, i requires 0 <= i < |actions| => actions[i].write)
  }

  function PlansOf(db: Db, actions: seq<Action>, size: Item -> nat): seq<Pending>
    requires forall i :: 0 <= i < |actions| ==> PlanAction(db, actions[i], size).Plan?
  {
    seq(|actions|, i requires 0 <= i < |actions| => PlanAction(db, actions[i], size).pending)
  }

  /** The plans of a transaction that is done. */
  lemma DonePlans(db: Db, actions: seq<Action>, size: Item -> nat)
    requires TransactionOutcome(db, actions, size) == Done
    ensures forall i :: 0 <= i < |actions| ==> PlanAction(db, actions[i], size).Plan? && actions[i].One?
    ensures PlannedOn(db, WritesOf(actions), PlansOf(db, actions, size), size)
    ensures OneWriteEach(PlansOf(db, actions, size))
  {
    hide PlanWrite;
    var failed := FailedOf(db, actions, size);
    forall i | 0 <= i < |actions| ensures PlanAction(db, actions[i], size).Plan? && actions[i].One? {
      assert failed[i] in failed;
    }
    var ps := PlansOf(db, actions, size);
    forall i, j | 0 <= i < j < |ps| ensures Slot(ps[i]) != Slot(ps[j]) {
      assert !Clash(db, actions[i], actions[j], size);
    }
  }

  /** A transaction's tables are those of its actions run one at a time, in any order. */
  lemma TransactionIsSerial(db: Db, actions: seq<Action>, perm: seq<nat>, size: Item -> nat)
    requires DbOk(db) && TransactionOutcome(db, actions, size) == Done && IsPermutation(perm, |actions|)
    ensures forall i :: 0 <= i < |actions| ==> PlanAction(db, actions[i], size).Plan? && actions[i].One?
    ensures RunSerially(db, Permute(WritesOf(actions), perm), size) ==
            Some(CommitAll(db, WritesOf(actions), PlansOf(db, actions, size)))
  {
    hide TransactionOutcome, PlanAction, PlannedOn, OneWriteEach, RunSerially, CommitAll;
    DonePlans(db, actions, size);
    SerialInAnyOrder(db, WritesOf(actions), PlansOf(db, actions, size), perm, size);
  }

  /** The records of commits made in turn. */
  function RecordsOfAll(ws: seq<Write>, ps: seq<Pending>): seq<Record>
    requires |ws| == |ps|
  {
    if ws == [] then []
    else
      var m := |ws| - 1;
      RecordsOfAll(ws[..m], ps[..m]) + if ws[m].Check? then [] else RecordsOf(ps[m])
  }

  // ---------------------------------------------------------------- the store

  class TableStore {
    const size: Item -> nat
    var tables: Db
    ghost const start: Db
    /** Every record appended since the start, before any retention. */
    ghost var log: seq<Record>

    /** Every table is consistent, and replaying the log from the start gives the tables. */
    ghost predicate Valid()
      reads this
    {
      DbOk(tables) && Replay(start, log) == Some(tables)
    }

    constructor (tables: Db, size: Item -> nat)
      requires DbOk(tables)
      ensures Valid() && this.tables == tables && this.start == tables && this.size == size && log == []
    {
      this.tables := tables;
      this.start := tables;
      this.size := size;
      log := [];
    }

    /** commitLocked. */
    method CommitLocked(p: Pending)
      requires Valid() && p.table in tables && Current(tables[p.table], p)
      modifies this`tables, this`log
      ensures Valid()
      ensures tables == Commit(old(tables), p) && log == old(log) + RecordsOf(p)
    {
      hide Current, Replay, AttributeValueEqual, DbOk;
      CommitReplays(tables, p);
      ReplayConcat(start, log, RecordsOf(p));
      SlotAfter(tables, p);
      log := log + RecordsOf(p);
      var t := tables[p.table];
      if p.next.None? && p.prev.None? {
        assert tables[p.table := t] == tables;
        return;
      }
      var items := t.items;
      if p.next.None? {
        items := items - {p.id};
      } else {
        items := items[p.id := p.next.value];
      }
      tables := tables[p.table := t.(items := items, itemCount := |items|)];
    }

    /** writeOne: PutItem, UpdateItem and DeleteItem. */
    method WriteOne(w: Write) returns (r: Planned)
      requires Valid() && !w.Check?
      modifies this`tables, this`log
      ensures Valid() && r == PlanWrite(old(tables), w, size)
      ensures r.Plan? ==> RunOne(old(tables), w, size) == Some(tables) && log == old(log) + RecordsOf(r.pending)
      ensures r.Plan? ==> Wrote(old(tables), tables, w, size, r.pending)
      ensures !r.Plan? ==> tables == old(tables) && log == old(log)
    {
      hide PlanWrite, Current, Replay, Wrote;
      r := PlanWrite(tables, w, size);
      if r.Plan? {
        PlanWriteCurrent(tables, w, size);
        PlanWrote(tables, w, size, r.pending);
        CommitLocked(r.pending);
      }
    }

    /** The commit loop shared by batches and transactions: every plan was made on the same tables. */
    method CommitPlans(ws: seq<Write>, ps: seq<Pending>)
      requires Valid() && PlannedOn(tables, ws, ps, size) && OneWriteEach(ps)
      modifies this`tables, this`log
      ensures Valid()
      ensures tables == CommitAll(old(tables), ws, ps) && log == old(log) + RecordsOfAll(ws, ps)
    {
      hide PlannedOn, OneWriteEach, PlanWrite, Current, Replay, DbOk, RecordsOf;
      ghost var db := tables;
      PlannedLength(db, ws, ps, size);
      for i := 0 to |ps|
        invariant Valid() && tables == CommitAll(db, ws[..i], ps[..i])
        invariant log == old(log) + RecordsOfAll(ws[..i], ps[..i])
      {
        assert ws[..i + 1][..i] == ws[..i] && ps[..i + 1][..i] == ps[..i];
        PerformedPrefix(db, ws, ps, i, size);
        PlanUnaffected(db, tables, ws, ps, Below(i), i, size);
        PlanWriteCurrent(tables, ws[i], size);
        if !ws[i].Check? {
          CommitLocked(ps[i]);
        }
      }
      assert ws[..|ws|] == ws && ps[..|ws|] == ps;
    }

    /** TransactWriteItems. */
    method TransactWriteItems(actions: seq<Action>) returns (r: Outcome)
      requires Valid()
      modifies this`tables, this`log
      ensures Valid() && r == TransactionOutcome(old(tables), actions, size)
      ensures r != Done ==> tables == old(tables) && log == old(log)
      ensures r == Done ==>
        (forall i :: 0 <= i < |actions| ==> PlanAction(old(tables), actions[i], size).Plan? && actions[i].One?) &&
        tables == CommitAll(old(tables), WritesOf(actions), PlansOf(old(tables), actions, size)) &&
        log == old(log) + RecordsOfAll(WritesOf(actions), PlansOf(old(tables), actions, size))
    {
      hide PlanWrite, Replay, DbOk, CommitAll, RecordsOfAll;
      if |actions| == 0 || |actions| > 100 {
        return Refused;
      }
      var ws: seq<Write> := [];
      var ps: seq<Pending> := [];
      var failed: seq<bool> := [];
      var seen: set<(string, KeyId)> := {};
      for i := 0 to |actions|
        invariant |failed| == i
        invariant forall j :: 0 <= j < i ==> !PlanAction(tables, actions[j], size).Rejected?
        invariant forall j :: 0 <= j < i ==> failed[j] == PlanAction(tables, actions[j], size).ConditionFailed?
        invariant forall j, k :: 0 <= j < k < i ==> !Clash(tables, actions[j], actions[k], size)
        invariant forall s :: s in seen <==> exists j :: 0 <= j < i && Takes(tables, actions[j], s, size)
        invariant true !in failed ==> |ws| == |ps| == i
        invariant true !in failed ==>
          forall j :: 0 <= j < i ==> actions[j] == One(ws[j]) && PlanAction(tables, actions[j], size) == Plan(ps[j])
      {
        if actions[i].Malformed? {
          return Refused;
        }
        var w := PlanWrite(tables, actions[i].write, size);
        assert w == PlanAction(tables, actions[i], size);
        if w.Rejected? {
          return Refused;
        }
        if w.ConditionFailed? {
          failed := failed + [true];
        } else {
          if Slot(w.pending) in seen {
            ghost var j :| 0 <= j < i && Takes(tables, actions[j], Slot(w.pending), size);
            assert Clash(tables, actions[j], actions[i], size);
            return Refused;
          }
          seen := seen + {Slot(w.pending)};
          failed, ws, ps := failed + [false], ws + [actions[i].write], ps + [w.pending];
        }
      }
      assert failed == FailedOf(tables, actions, size);
      if true in failed {
        return Cancelled(failed);
      }
      DonePlans(tables, actions, size);
      assert ws == WritesOf(actions) && ps == PlansOf(tables, actions, size);
      CommitPlans(ws, ps);
      return Done;
    }

    /** sweepExpired: tables and items are visited in no particular order. */
    method SweepExpired(now: int) returns (deleted: nat, ghost slots: seq<(string, KeyId)>)
      requires Valid()
      modifies this`tables, this`log
      ensures Valid() && tables == SweptBut(old(tables), {}, now)
      ensures Distinct(slots) && forall s :: s in slots <==> ExpiredAt(old(tables), s, now)
      ensures log == old(log) + Removals(old(tables), slots) && deleted == |slots|
    {
      hide Replay, Swept, DbOk, ExpiredAt, Removals, Distinct;
      deleted, slots := 0, [];
      NothingRemoved(tables, log);
      ExpiredStored(tables, now);
      var todo := tables.Keys;
      assert tables == SweptBut(tables, todo, now);
      while todo != {}
        invariant Valid() && todo <= old(tables).Keys
        invariant tables == SweptBut(old(tables), todo, now) && deleted == |slots|
        invariant Distinct(slots) && log == old(log) + Removals(old(tables), slots)
        invariant forall s :: s in slots <==> ExpiredAt(old(tables), s, now) && s.0 !in todo
        decreases |todo|
      {
        var name :| name in todo;
        ghost var before := tables;
        todo := todo - {name};
        if tables[name].ttl.Some? {
          var n, more := SweepTable(name, now);
          RemovalsAlike(before, old(tables), more, name);
          forall s ensures s in more <==> s.0 == name && ExpiredAt(old(tables), s, now) {
            if s.0 == name { ExpiredAlike(before, old(tables), s, now); }
          }
          RemovalsJoin(old(tables), slots, more);
          deleted, slots := deleted + n, slots + more;
        } else {
          NoTtl(tables[name], now);
          NoneExpired(old(tables), name, now);
          assert tables == before[name := Swept(before[name], now)];
        }
        assert before[name := Swept(before[name], now)] == SweptBut(old(tables), todo, now);
      }
    }

    method SweepTable(name: string, now: int) returns (deleted: nat, ghost slots: seq<(string, KeyId)>)
      requires Valid() && name in tables && tables[name].ttl.Some?
      modifies this`tables, this`log
      ensures Valid() && tables == old(tables)[name := Swept(old(tables)[name], now)]
      ensures Distinct(slots) && forall s :: s in slots <==> s.0 == name && ExpiredAt(old(tables), s, now)
      ensures log == old(log) + Removals(old(tables), slots) && deleted == |slots|
    {
      hide Replay, Expired, InPlace, Kept, Current, Removals, Distinct, RecordsOf, ExpiredAt;
      deleted, slots := 0, [];
      NothingRemoved(tables, log);
      ExpiredStored(tables, now);
      ghost var before := tables[name];
      var attribute := tables[name].ttl.value;
      var todo := tables[name].items.Keys;
      KeptAll(before, now);
      while todo != {}
        invariant Valid() && todo <= before.items.Keys
        invariant tables == old(tables)[name := Kept(before, todo, now)] && deleted == |slots|
        invariant Distinct(slots) && log == old(log) + Removals(old(tables), slots)
        invariant forall s :: s in slots <==> s.0 == name && ExpiredAt(old(tables), s, now) && s.1 !in todo
        decreases |todo|
      {
        var id :| id in todo;
        KeptStep(before, todo, id, now);
        todo := todo - {id};
        var t := tables[name];
        ExpiredHere(old(tables), name, id, now);
        if Expired(t.items[id], attribute, now) {
          KeyInPlace(name, t, id);
          CommitLocked(Pending(name, id, KeyOf(t.schema, t.items[id]), Some(t.items[id]), None));
          OneRemoval(old(tables), name, t, id);
          RemovalsJoin(old(tables), slots, [(name, id)]);
          deleted, slots := deleted + 1, slots + [(name, id)];
        }
        assert tables == old(tables)[name := Kept(before, todo, now)];
      }
      KeptNone(before, now);
    }

    /** BatchWriteItem; the tables of the request are visited in no particular order. */
    method BatchWriteItem(requests: map<string, seq<Request>>) returns (r: Result<()>)
      requires Valid()
      modifies this`tables, this`log
      ensures Valid()
      ensures r.Ok? <==> BatchAccepted(old(tables), requests, size)
      ensures r.Ok? ==> BatchWrote(old(tables), tables, requests, size)
      ensures r.Err? ==> tables == old(tables) && log == old(log)
    {
      hide PlanWrite, Replay, DbOk, CommitAll, RecordsOfAll, Positions, BatchAccepted, BatchWrote, PlannedOn;
      var total := CountRequests(requests);
      if total == 0 || total > 25 {
        assert !BatchAccepted(tables, requests, size) by { WrongCount(tables, requests, size); }
        return Err;
      }
      var todo := requests.Keys;
      var ws: seq<Write> := [];
      var ps: seq<Pending> := [];
      ghost var src: seq<(string, nat)> := [];
      while todo != {}
        invariant todo <= requests.Keys
        invariant Gathered(tables, requests, src, ws, ps, size)
        invariant forall t, i: nat :: (t, i) in src <==> t in requests && t !in todo && i < |requests[t]|
        decreases |todo|
      {
        var table :| table in todo;
        todo := todo - {table};
        for i := 0 to |requests[table]|
          invariant Gathered(tables, requests, src, ws, ps, size)
          invariant forall t, k: nat :: (t, k) in src <==>
            t in requests && t !in todo && k < (if t == table then i else |requests[t]|)
        {
          var req := requests[table][i];
          if req.Other? {
            NotAccepted(tables, requests, table, i, size);
            return Err;
          }
          var w := WriteFor(table, req);
          var p := PlanWrite(tables, w, size);
          if !p.Plan? {
            NotAccepted(tables, requests, table, i, size);
            return Err;
          }
          if exists k :: 0 <= k < |ps| && Slot(ps[k]) == Slot(p.pending) {
            ghost var k :| 0 <= k < |ps| && Slot(ps[k]) == Slot(p.pending);
            assert src[k] in src;
            Duplicated(tables, requests, src[k], (table, i), size);
            return Err;
          }
          ws, ps, src := ws + [w], ps + [p.pending], src + [(table, i)];
        }
      }
      GatheredAll(tables, requests, src, ws, ps, size);
      CommitPlans(ws, ps);
      WroteAll(old(tables), requests, src, ws, ps, size);
      return Ok(());
    }
  }

  // ---------------------------------------------------------------- batches

  /** A BatchWriteItem entry; `Other` has both members or none. */
  datatype Request = PutRequest(item: Item) | DeleteRequest(key: Item) | Other

  /** The unconditional write an entry asks for. */
  function WriteFor(table: string, req: Request): Write
    requires !req.Other?
  {
    if req.PutRequest? then Put(table, req.item, _ => Some(true)) else Delete(table, req.key, _ => Some(true))
  }

  /** Where the entries of a batch are. */
  ghost function Positions(requests: map<string, seq<Request>>): set<(string, nat)> {
    set t, i: nat | t in requests && 0 <= i < |requests[t]| :: (t, i)
  }

  /** The plan of the entry at a position. */
  function EntryPlan(db: Db, requests: map<string, seq<Request>>, at: (string, nat), size: Item -> nat): Planned {
    if at.0 in requests && at.1 < |requests[at.0]| && !requests[at.0][at.1].Other?
    then PlanWrite(db, WriteFor(at.0, requests[at.0][at.1]), size)
    else Rejected
  }

  /** Between 1 and 25 entries, all of them plannable, no two on one item. */
  ghost predicate BatchAccepted(db: Db, requests: map<string, seq<Request>>, size: Item -> nat) {
    1 <= |Positions(requests)| <= 25 &&
    (forall at :: at in Positions(requests) ==> EntryPlan(db, requests, at, size).Plan?) &&
    (forall a, b :: a in Positions(requests) && b in Positions(requests) && a != b ==>
      Slot(EntryPlan(db, requests, a, size).pending) != Slot(EntryPlan(db, requests, b, size).pending))
  }

  /** Each entry's item is as it asked, and nothing else changed. */
  ghost predicate BatchWrote(db: Db, now: Db, requests: map<string, seq<Request>>, size: Item -> nat) {
    SameTables(db, now) && DbOk(now) &&
    (forall at :: at in Positions(requests) ==> EntryPlan(db, requests, at, size).Plan?) &&
    (forall at :: at in Positions(requests) ==>
      At(now, Slot(EntryPlan(db, requests, at, size).pending)) == EntryPlan(db, requests, at, size).pending.next) &&
    (forall slot :: (forall at :: at in Positions(requests) ==> Slot(EntryPlan(db, requests, at, size).pending) != slot) ==>
      At(now, slot) == At(db, slot))
  }

  /** The outcome of a batch does not depend on the order its tables were visited in. */
  lemma BatchDeterministic(db: Db, a: Db, b: Db, requests: map<string, seq<Request>>, size: Item -> nat)
    requires BatchWrote(db, a, requests, size) && BatchWrote(db, b, requests, size)
    ensures a == b
  {
    hide DbOk, Positions, EntryPlan, At;
    forall slot ensures At(a, slot) == At(b, slot) {
      if at :| at in Positions(requests) && Slot(EntryPlan(db, requests, at, size).pending) == slot {
        assert EntryPlan(db, requests, at, size).Plan?;
      }
    }
    assert SameTables(a, b);
    SameEverywhere(a, b);
  }

  // -- The batch loop.

  /** Entries planned so far: where they came from, the writes and their plans. */
  ghost predicate Gathered(
    db: Db, requests: map<string, seq<Request>>, src: seq<(string, nat)>, ws: seq<Write>, ps: seq<Pending>, size: Item -> nat)
  {
    |src| == |ws| == |ps| && OneWriteEach(ps) &&
    forall k :: 0 <= k < |src| ==>
      EntryPlan(db, requests, src[k], size) == Plan(ps[k]) && PlanWrite(db, ws[k], size) == Plan(ps[k]) && !ws[k].Check?
  }

  lemma InPositions(requests: map<string, seq<Request>>, t: string, i: nat)
    ensures (t, i) in Positions(requests) <==> t in requests && i < |requests[t]|
  {
  }

  lemma WrongCount(db: Db, requests: map<string, seq<Request>>, size: Item -> nat)
    requires |Positions(requests)| == 0 || |Positions(requests)| > 25
    ensures !BatchAccepted(db, requests, size)
  {
  }

  lemma NotAccepted(db: Db, requests: map<string, seq<Request>>, t: string, i: nat, size: Item -> nat)
    requires t in requests && i < |requests[t]| && !EntryPlan(db, requests, (t, i), size).Plan?
    ensures !BatchAccepted(db, requests, size)
  {
    hide EntryPlan, Positions;
    InPositions(requests, t, i);
  }

  lemma Duplicated(db: Db, requests: map<string, seq<Request>>, a: (string, nat), b: (string, nat), size: Item -> nat)
    requires a != b && EntryPlan(db, requests, a, size).Plan? && EntryPlan(db, requests, b, size).Plan?
    requires Slot(EntryPlan(db, requests, a, size).pending) == Slot(EntryPlan(db, requests, b, size).pending)
    ensures !BatchAccepted(db, requests, size)
  {
    hide Positions, PlanWrite;
    InPositions(requests, a.0, a.1);
    InPositions(requests, b.0, b.1);
    assert a == (a.0, a.1) && b == (b.0, b.1);
  }

  /** When every position is gathered, the batch is accepted and the plans can be committed. */
  lemma GatheredAll(
    db: Db, requests: map<string, seq<Request>>, src: seq<(string, nat)>, ws: seq<Write>, ps: seq<Pending>, size: Item -> nat)
    requires Gathered(db, requests, src, ws, ps, size)
    requires forall t, i: nat :: (t, i) in src <==> t in requests && i < |requests[t]|
    requires 1 <= |Positions(requests)| <= 25
    ensures BatchAccepted(db, requests, size) && PlannedOn(db, ws, ps, size)
  {
    hide EntryPlan, Positions, PlanWrite;
    forall at | at in Positions(requests) ensures at in src {
      InPositions(requests, at.0, at.1);
      assert at == (at.0, at.1);
    }
    forall a, b | a in Positions(requests) && b in Positions(requests) && a != b
      ensures Slot(EntryPlan(db, requests, a, size).pending) != Slot(EntryPlan(db, requests, b, size).pending)
    {
      var i :| 0 <= i < |src| && src[i] == a;
      var j :| 0 <= j < |src| && src[j] == b;
      assert if i < j then Slot(ps[i]) != Slot(ps[j]) else Slot(ps[j]) != Slot(ps[i]);
    }
  }

  lemma WroteAll(
    db: Db, requests: map<string, seq<Request>>, src: seq<(string, nat)>, ws: seq<Write>, ps: seq<Pending>, size: Item -> nat)
    requires DbOk(db) && Gathered(db, requests, src, ws, ps, size)
    requires forall t, i: nat :: (t, i) in src <==> t in requests && i < |requests[t]|
    ensures BatchWrote(db, CommitAll(db, ws, ps), requests, size)
  {
    hide EntryPlan, Positions, PlanWrite, At, CommitAll, DbOk;
    PerformedPrefix(db, ws, ps, |ws|, size);
    assert ws[..|ws|] == ws && ps[..|ws|] == ps;
    var now := CommitAll(db, ws, ps);
    forall at | at in Positions(requests)
      ensures EntryPlan(db, requests, at, size).Plan?
      ensures At(now, Slot(EntryPlan(db, requests, at, size).pending)) == EntryPlan(db, requests, at, size).pending.next
    {
      InPositions(requests, at.0, at.1);
      assert at == (at.0, at.1);
      var k: nat :| k < |src| && src[k] == at;
      assert Writes(ws, ps, Below(|ws|), k, Slot(ps[k]));
    }
    forall slot | (forall at :: at in Positions(requests) ==> Slot(EntryPlan(db, requests, at, size).pending) != slot)
      ensures At(now, slot) == At(db, slot)
    {
      forall k: nat ensures !Writes(ws, ps, Below(|ws|), k, slot) {
        if k < |src| {
          assert src[k] in src && src[k] == (src[k].0, src[k].1);
          InPositions(requests, src[k].0, src[k].1);
        }
      }
    }
  }

  /** The entry count BatchWriteItem adds up. */
  method CountRequests(requests: map<string, seq<Request>>) returns (total: nat)
    ensures total == |Positions(requests)|
  {
    total := 0;
    var todo := requests.Keys;
    ghost var counted: set<(string, nat)> := {};
    while todo != {}
      invariant todo <= requests.Keys && total == |counted|
      invariant forall t, i: nat :: (t, i) in counted <==> t in requests && t !in todo && i < |requests[t]|
      decreases |todo|
    {
      var table :| table in todo;
      todo := todo - {table};
      total := total + |requests[table]|;
      ghost var here := Row(table, |requests[table]|);
      assert counted !! here by {
        forall at | at in here ensures at !in counted {
          assert at == (at.0, at.1);
        }
      }
      counted := counted + here;
    }
    assert counted == Positions(requests) by {
      forall at ensures at in counted <==> at in Positions(requests) {
        InPositions(requests, at.0, at.1);
        assert at == (at.0, at.1);
      }
    }
  }

  /** The first `n` positions of one table. */
  ghost function Row(t: string, n: nat): (r: set<(string, nat)>)
    ensures |r| == n && forall u, i: nat :: (u, i) in r <==> u == t && i < n
  {
    if n == 0 then {} else Row(t, n - 1) + {(t, n - 1)}
  }

  // ---------------------------------------------------------------- TTL

  /** ttlExpired: the attribute is a number not after `now`, in epoch seconds. */
  predicate Expired(item: Item, attribute: string, now: int) {
    attribute in item && item[attribute].Obj? && |item[attribute].fields| == 1 && "N" in item[attribute].fields &&
    item[attribute].fields["N"].Str? && D.Read(item[attribute].fields["N"].str).Some? &&
    D.Number(item[attribute].fields["N"].str) <= now as real
  }

  /** A table without its expired items. */
  function Swept(t: Table, now: int): Table {
    if t.ttl.None? then t
    else WithItems(t, map id | id in t.items && !Expired(t.items[id], t.ttl.value, now) :: t.items[id])
  }

  /** The item at a slot has expired. */
  predicate ExpiredAt(db: Db, s: (string, KeyId), now: int) {
    s.0 in db && db[s.0].ttl.Some? && s.1 in db[s.0].items && Expired(db[s.0].items[s.1], db[s.0].ttl.value, now)
  }

  /** The record of an item's removal. */
  function Removal(db: Db, s: (string, KeyId)): Record {
    var item := if s.0 in db && s.1 in db[s.0].items then db[s.0].items[s.1] else map[];
    var key := if s.0 in db && HasKeys(db[s.0].schema, item) then KeyOf(db[s.0].schema, item) else map[];
    Record(s.0, Remove, key, Some(item), None)
  }

  function Removals(db: Db, slots: seq<(string, KeyId)>): seq<Record> {
    seq(|slots|, i requires 0 <= i < |slots| => Removal(db, slots[i]))
  }

  lemma NothingRemoved(db: Db, log: seq<Record>)
    ensures log == log + Removals(db, []) && Distinct<(string, KeyId)>([])
  {
  }

  /** The record committing an expired item's removal emits. */
  lemma OneRemoval(db: Db, name: string, t: Table, id: KeyId)
    requires name in db && id in db[name].items && HasKeys(db[name].schema, db[name].items[id])
    requires id in t.items && t.items[id] == db[name].items[id] && t.schema == db[name].schema
    ensures RecordsOf(Pending(name, id, KeyOf(t.schema, t.items[id]), Some(t.items[id]), None)) == Removals(db, [(name, id)])
    ensures Distinct([(name, id)])
  {
    hide HasKeys, KeyOf;
  }

  lemma ExpiredStored(db: Db, now: int)
    ensures forall s :: ExpiredAt(db, s, now) ==> s.0 in db && s.1 in db[s.0].items
  {
    hide Expired;
  }

  lemma ExpiredHere(db: Db, name: string, id: KeyId, now: int)
    requires name in db && db[name].ttl.Some? && id in db[name].items
    ensures ExpiredAt(db, (name, id), now) <==> Expired(db[name].items[id], db[name].ttl.value, now)
  {
    hide Expired;
  }

  /** Two lists of removals of different items. */
  lemma RemovalsJoin(db: Db, a: seq<(string, KeyId)>, b: seq<(string, KeyId)>)
    requires Distinct(a) && Distinct(b) && forall s :: s in a ==> s !in b
    ensures Removals(db, a + b) == Removals(db, a) + Removals(db, b) && Distinct(a + b)
  {
    hide Removal;
    forall i, j | 0 <= i < j < |a + b| ensures (a + b)[i] != (a + b)[j] {
      if i < |a| <= j {
        assert a[i] in a && b[j - |a|] in b;
      }
    }
  }

  lemma RemovalsAlike(db: Db, db': Db, slots: seq<(string, KeyId)>, name: string)
    requires name in db && name in db' && db[name] == db'[name] && forall s :: s in slots ==> s.0 == name
    ensures Removals(db, slots) == Removals(db', slots)
  {
    hide HasKeys;
    forall i | 0 <= i < |slots| ensures Removal(db, slots[i]) == Removal(db', slots[i]) {
      assert slots[i] in slots;
    }
  }

  lemma ExpiredAlike(db: Db, db': Db, s: (string, KeyId), now: int)
    requires s.0 in db && s.0 in db' && db[s.0] == db'[s.0]
    ensures ExpiredAt(db, s, now) <==> ExpiredAt(db', s, now)
  {
  }

  lemma NoneExpired(db: Db, name: string, now: int)
    requires name in db && db[name].ttl.None?
    ensures forall s: (string, KeyId) :: s.0 == name ==> !ExpiredAt(db, s, now)
  {
  }

  /** The sweep with the tables in `todo` still to come. */
  function SweptBut(db: Db, todo: set<string>, now: int): Db {
    map n | n in db :: if n in todo then db[n] else Swept(db[n], now)
  }

  lemma NoTtl(t: Table, now: int)
    requires t.ttl.None?
    ensures Swept(t, now) == t
  {
  }

  /** The sweep of one table with the items in `todo` still to come. */
  function Kept(t: Table, todo: set<KeyId>, now: int): Table
    requires t.ttl.Some?
  {
    WithItems(t, map id | id in t.items && (id in todo || !Expired(t.items[id], t.ttl.value, now)) :: t.items[id])
  }

  lemma KeptAll(t: Table, now: int)
    requires t.ttl.Some? && TableOk(t)
    ensures Kept(t, t.items.Keys, now) == t
  {
    hide Expired;
    assert Kept(t, t.items.Keys, now).items == t.items;
  }

  lemma KeptNone(t: Table, now: int)
    requires t.ttl.Some?
    ensures Kept(t, {}, now) == Swept(t, now)
  {
    hide Expired;
    assert Kept(t, {}, now).items == Swept(t, now).items;
  }

  lemma KeptStep(t: Table, todo: set<KeyId>, id: KeyId, now: int)
    requires t.ttl.Some? && id in todo && id in t.items
    ensures id in Kept(t, todo, now).items && Kept(t, todo, now).items[id] == t.items[id]
    ensures Kept(t, todo, now).schema == t.schema && Kept(t, todo, now).ttl == t.ttl
    ensures Kept(t, todo - {id}, now) ==
            if Expired(t.items[id], t.ttl.value, now) then WithItems(t, Kept(t, todo, now).items - {id})
            else Kept(t, todo, now)
  {
    hide Expired;
    var a, b := Kept(t, todo, now).items, Kept(t, todo - {id}, now).items;
    if Expired(t.items[id], t.ttl.value, now) {
      assert b == a - {id};
    } else {
      assert b == a;
    }
  }

  lemma KeyInPlace(name: string, t: Table, id: KeyId)
    requires TableOk(t) && id in t.items
    ensures HasKeys(t.schema, t.items[id])
    ensures Current(t, Pending(name, id, KeyOf(t.schema, t.items[id]), Some(t.items[id]), None))
  {
    hide CanonicalItem;
    var item := t.items[id];
    assert InPlace(t.schema, id, item);
    assert Serialize(t.schema, KeyOf(t.schema, item)) == Serialize(t.schema, item);
  }
}
