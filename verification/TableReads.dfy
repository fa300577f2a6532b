/**
 Reads of the tables that writes leave (internal/dynamodb/store.go, collectSortedItems): every item a table holds is
 listed under a key of the defined types, so following the pages of a table or index returns what is stored in it.
 */
module TableReads {
  import Attributes
  import P = Paging
  import S = Store
  import opened Wrappers

  type Json = Attributes.Json
  type Item = Attributes.Item

  // ---------------------------------------------------------------- types of stored keys

  /** What validateItem demands of attributes: table keys are there, and keys of tables and indexes have their types. */
  ghost predicate TypedItem(schema: S.Schema, item: Item) {
    (forall i :: 0 <= i < |schema.keys| ==>
      schema.keys[i] in item && S.KeyTypeOk(item[schema.keys[i]], S.TypeOf(schema, schema.keys[i]))) &&
    forall i :: 0 <= i < |schema.indexKeys| ==>
      schema.indexKeys[i] in item ==> S.KeyTypeOk(item[schema.indexKeys[i]], S.TypeOf(schema, schema.indexKeys[i]))
  }

  ghost predicate Typed(t: S.Table) { forall id :: id in t.items ==> TypedItem(t.schema, t.items[id]) }

  ghost predicate AllTyped(db: S.Db) { forall n :: n in db ==> Typed(db[n]) }

  /** What a write stores has keys of the defined types and keeps within the size limit. */
  lemma PlanTyped(db: S.Db, w: S.Write, size: Item -> nat, p: S.Pending)
    requires S.PlanWrite(db, w, size) == S.Plan(p)
    ensures p.table in db
    ensures p.next.Some? ==> TypedItem(db[p.table].schema, p.next.value) && size(p.next.value) <= db[p.table].schema.sizeLimit
  {
    hide S.PlanWrite, S.KeyTypeOk, S.TypeOf, S.TableName, Attributes.CanonicalItem, S.KeepsKey, S.HasKind;
    S.PlanExact(db, w, size, p);
  }

  lemma CommitTyped(db: S.Db, p: S.Pending)
    requires AllTyped(db) && p.table in db
    requires p.next.Some? ==> TypedItem(db[p.table].schema, p.next.value)
    ensures AllTyped(S.Commit(db, p))
  {
    hide TypedItem;
  }

  lemma SweepTyped(db: S.Db, todo: set<string>, now: int)
    requires AllTyped(db)
    ensures AllTyped(S.SweptBut(db, todo, now))
  {
    hide TypedItem, S.Expired;
  }

  /** Writes one after another, and so every batch and transaction that commits, leave keys of the defined types. */
  lemma {:induction false} RunTyped(db: S.Db, ws: seq<S.Write>, size: Item -> nat)
    requires AllTyped(db) && S.RunSerially(db, ws, size).Some?
    ensures AllTyped(S.RunSerially(db, ws, size).value)
    decreases |ws|
  {
    hide AllTyped, S.PlanWrite, TypedItem, S.Commit;
    if ws != [] {
      var m := |ws| - 1;
      RunTyped(db, ws[..m], size);
      var before := S.RunSerially(db, ws[..m], size).value;
      var p := S.PlanWrite(before, ws[m], size).pending;
      PlanTyped(before, ws[m], size, p);
      CommitTyped(before, p);
    }
  }

  // ---------------------------------------------------------------- views

  predicate Covers(item: Item, names: seq<string>) { forall i :: 0 <= i < |names| ==> names[i] in item }

  /** buildKeyMap's values in schema order. */
  function RawKey(item: Item, names: seq<string>): seq<Json>
    requires Covers(item, names)
  {
    seq(|names|, i requires 0 <= i < |names| => item[names[i]])
  }

  function Kinds(schema: S.Schema, names: seq<string>): seq<string> {
    seq(|names|, i requires 0 <= i < |names| => S.TypeOf(schema, names[i]))
  }

  /** The attributes a table or index is ordered by: all of the table's keys, and others only of its indexes. */
  predicate Orders(schema: S.Schema, names: seq<string>) {
    (forall i :: 0 <= i < |schema.keys| ==> schema.keys[i] in names) &&
    forall i :: 0 <= i < |names| ==>
      (names[i] in schema.keys || names[i] in schema.indexKeys) && S.TypeOf(schema, names[i]) in {"S", "N", "B"}
  }

  /** collectSortedItems: each item with all the attributes has one view, and no view comes before one listed earlier. */
  ghost predicate Lists(
    t: S.Table, names: seq<string>, decode: string -> Option<string>, reverse: bool, ids: seq<S.KeyId>, views: seq<P.View>)
  {
    |ids| == |views| && Attributes.Distinct(ids) &&
    (forall id :: id in ids <==> id in t.items && Covers(t.items[id], names)) &&
    (forall i :: 0 <= i < |ids| ==>
      views[i].raw == RawKey(t.items[ids[i]], names) && views[i].key == P.OrderOf(views[i].raw, decode)) &&
    forall i, j :: 0 <= i < j < |views| ==> InOrder(views[i].key, views[j].key, reverse)
  }

  /** The second of two keys of one schema does not come first. */
  predicate InOrder(a: P.Key, b: P.Key, reverse: bool) { P.Alike(b, a) ==> !P.Before(b, a, reverse) }

  lemma KindOnly(v: Json, kind: string)
    requires S.HasKind(v, kind) && kind in {"S", "N", "B"} && Attributes.Canonical(v) == Ok(v)
    ensures P.OfKind(v, kind)
  {
    hide Attributes.Canonical;
    assert v.Obj? && |v.fields.Keys| == 1 && kind in v.fields.Keys;
    forall k | k in v.fields.Keys ensures k == kind {
      if k != kind {
        assert {k, kind} <= v.fields.Keys;
        Smaller({k, kind}, v.fields.Keys);
      }
    }
  }

  lemma Smaller<T>(a: set<T>, b: set<T>)
    requires a <= b
    ensures |a| <= |b|
  {
    if a != {} {
      var x :| x in a;
      Smaller(a - {x}, b - {x});
    }
  }

  lemma KeyStored(t: S.Table, names: seq<string>, id: S.KeyId)
    requires S.TableOk(t) && Typed(t) && Orders(t.schema, names) && id in t.items && Covers(t.items[id], names)
    ensures P.StoredKey(RawKey(t.items[id], names), Kinds(t.schema, names))
  {
    hide Attributes.CanonicalItem, Attributes.Canonical, S.HasKind, P.OfKind, S.HasKeys, S.Serialize;
    var item := t.items[id];
    assert S.InPlace(t.schema, id, item);
    assert TypedItem(t.schema, item);
    forall i | 0 <= i < |names| ensures P.OfKind(item[names[i]], S.TypeOf(t.schema, names[i])) {
      S.CanonicalField(item, names[i]);
      assert S.KeyTypeOk(item[names[i]], S.TypeOf(t.schema, names[i]));
      KindOnly(item[names[i]], S.TypeOf(t.schema, names[i]));
    }
  }

  /** What Paging takes for granted of the views it reads holds of the views of every such table. */
  lemma ListsCollected(
    t: S.Table, names: seq<string>, decode: string -> Option<string>, reverse: bool, ids: seq<S.KeyId>, views: seq<P.View>)
    requires S.TableOk(t) && Typed(t) && Orders(t.schema, names) && Lists(t, names, decode, reverse, ids, views)
    ensures P.Collected(views, Kinds(t.schema, names), decode, reverse)
  {
    hide S.TableOk, Typed, TypedItem, Orders, P.StoredKey, P.OrderOf, P.SchemaOf, P.Before, Kinds, RawKey, Covers, P.Alike;
    var kinds := Kinds(t.schema, names);
    forall i | 0 <= i < |views|
      ensures P.StoredKey(views[i].raw, kinds) && P.Alike(views[i].key, P.SchemaOf(kinds))
    {
      assert ids[i] in ids;
      KeyStored(t, names, ids[i]);
      P.OrderTie(views[i].raw, views[i].raw, kinds, decode);
    }
    forall i, j | 0 <= i < j < |views| ensures P.Alike(views[j].key, views[i].key) {
      P.OrderTie(views[i].raw, views[j].raw, kinds, decode);
      AlikeBoth(views[j].key, views[i].key, P.SchemaOf(kinds));
    }
  }

  lemma AlikeBoth(a: P.Key, b: P.Key, schema: P.Key)
    requires P.Alike(a, schema) && P.Alike(b, schema)
    ensures P.Alike(a, b)
  {
  }

  lemma SameSlot(schema: S.Schema, a: Item, b: Item)
    requires S.HasKeys(schema, a) && S.HasKeys(schema, b)
    requires forall k :: 0 <= k < |schema.keys| ==> a[schema.keys[k]] == b[schema.keys[k]]
    ensures S.Serialize(schema, a) == S.Serialize(schema, b)
  {
  }

  /** Different items have different keys. */
  lemma RawsDiffer(
    t: S.Table, names: seq<string>, decode: string -> Option<string>, reverse: bool, ids: seq<S.KeyId>, views: seq<P.View>,
    i: nat, j: nat)
    requires S.TableOk(t) && Orders(t.schema, names) && Lists(t, names, decode, reverse, ids, views)
    requires i < j < |views|
    ensures views[i].raw != views[j].raw
  {
    hide P.OrderOf, P.Before, S.TypeOf, Attributes.CanonicalItem;
    assert ids[i] in ids && ids[j] in ids;
    var a, b := t.items[ids[i]], t.items[ids[j]];
    assert S.InPlace(t.schema, ids[i], a) && S.InPlace(t.schema, ids[j], b);
    if views[i].raw == views[j].raw {
      forall k | 0 <= k < |t.schema.keys| ensures a[t.schema.keys[k]] == b[t.schema.keys[k]] {
        var n :| 0 <= n < |names| && names[n] == t.schema.keys[k];
        assert views[i].raw[n] == a[names[n]] && views[j].raw[n] == b[names[n]];
      }
      SameSlot(t.schema, a, b);
      assert false;
    }
  }

  // ---------------------------------------------------------------- which keys are taken for one

  /** String attributes that hold something other than a string; their order is that of the empty text. */
  predicate NoText(v: Json) { v.Obj? && "S" in v.fields && !v.fields["S"].Str? }

  /** The keys are the same, save for string attributes without a string in both. */
  predicate Confused(a: seq<Json>, b: seq<Json>) {
    |a| == |b| && forall k :: 0 <= k < |a| ==> a[k] == b[k] || (NoText(a[k]) && NoText(b[k]))
  }

  lemma AlikeExact(a: Json, b: Json, kind: string, decode: string -> Option<string>)
    requires P.OfKind(a, kind) && P.OfKind(b, kind) && kind != "B" && S.KeyTypeOk(a, kind) && S.KeyTypeOk(b, kind)
    ensures P.ReadsAlike(a, b, kind, decode) <==> a == b || (NoText(a) && NoText(b))
  {
    hide Attributes.Canonical, S.HasKind;
    if kind == "N" {
      assert "S" !in a.fields.Keys;
    } else {
      assert "B" !in a.fields.Keys && "B" !in b.fields.Keys && |a.fields.Keys| == |b.fields.Keys| == 1;
      assert a == Attributes.Obj(map["S" := a.fields["S"]]) && b == Attributes.Obj(map["S" := b.fields["S"]]);
    }
  }

  lemma NamedTyped(t: S.Table, names: seq<string>, id: S.KeyId, k: nat)
    requires Typed(t) && Orders(t.schema, names) && id in t.items && Covers(t.items[id], names) && k < |names|
    ensures S.KeyTypeOk(t.items[id][names[k]], S.TypeOf(t.schema, names[k]))
  {
    hide S.KeyTypeOk, S.TypeOf;
    assert TypedItem(t.schema, t.items[id]);
  }

  lemma PairExact(
    t: S.Table, names: seq<string>, decode: string -> Option<string>, a: S.KeyId, b: S.KeyId)
    requires S.TableOk(t) && Typed(t) && Orders(t.schema, names) && "B" !in Kinds(t.schema, names)
    requires a in t.items && Covers(t.items[a], names) && b in t.items && Covers(t.items[b], names)
    ensures var x, y, kinds := RawKey(t.items[a], names), RawKey(t.items[b], names), Kinds(t.schema, names);
      P.StoredKey(x, kinds) && P.StoredKey(y, kinds) && (P.DecodeAlike(x, y, kinds, decode) <==> Confused(x, y))
  {
    hide S.TableOk, Typed, TypedItem, Orders, S.TypeOf, P.OfKind, S.KeyTypeOk, P.ReadsAlike, NoText;
    KeyStored(t, names, a);
    KeyStored(t, names, b);
    var x, y, kinds := RawKey(t.items[a], names), RawKey(t.items[b], names), Kinds(t.schema, names);
    forall k | 0 <= k < |names|
      ensures P.ReadsAlike(x[k], y[k], kinds[k], decode) <==> x[k] == y[k] || (NoText(x[k]) && NoText(y[k]))
    {
      assert kinds[k] in kinds;
      NamedTyped(t, names, a, k);
      NamedTyped(t, names, b, k);
      AlikeExact(x[k], y[k], kinds[k], decode);
    }
  }

  /**
   Without binary key attributes, following the pages of a table or index never loses an item exactly if no two items
   have keys that differ only in string attributes that hold no string.
   */
  lemma TableCompleteExact(
    t: S.Table, names: seq<string>, decode: string -> Option<string>, reverse: bool, ids: seq<S.KeyId>, views: seq<P.View>)
    requires S.TableOk(t) && Typed(t) && Orders(t.schema, names) && "B" !in Kinds(t.schema, names)
    requires Lists(t, names, decode, reverse, ids, views)
    ensures P.Collected(views, Kinds(t.schema, names), decode, reverse)
    ensures P.NeverLoses(views, reverse, P.SchemaOf(Kinds(t.schema, names))) <==>
            forall i, j :: 0 <= i < j < |views| ==> !Confused(views[i].raw, views[j].raw)
  {
    hide S.TableOk, Typed, TypedItem, Orders, P.StoredKey, P.OrderOf, P.SchemaOf, InOrder, P.NeverLoses, P.DecodeAlike, Confused,
      P.Ordered, Covers, Kinds;
    var kinds := Kinds(t.schema, names);
    ListsCollected(t, names, decode, reverse, ids, views);
    P.StoredCompleteExact(views, kinds, decode, reverse);
    forall i, j | 0 <= i < j < |views|
      ensures P.DecodeAlike(views[i].raw, views[j].raw, kinds, decode) <==> Confused(views[i].raw, views[j].raw)
    {
      assert ids[i] in ids && ids[j] in ids;
      PairExact(t, names, decode, ids[i], ids[j]);
    }
  }

  /** Every string key attribute holds a string. */
  predicate Texts(views: seq<P.View>) {
    forall i, k :: 0 <= i < |views| && 0 <= k < |views[i].raw| ==> !NoText(views[i].raw[k])
  }

  /**
   Scanning or querying a table or index whose keys are strings and numbers, page by page whatever the limits: an item is
   returned exactly if it is of the segment asked for and key condition and filter are true of it.
   */
  lemma ItemsReturned(
    t: S.Table, names: seq<string>, decode: string -> Option<string>, reverse: bool, ids: seq<S.KeyId>, views: seq<P.View>,
    limits: seq<nat>, pages: seq<P.Page>, q: P.Request)
    requires S.TableOk(t) && Typed(t) && Orders(t.schema, names) && "B" !in Kinds(t.schema, names)
    requires Lists(t, names, decode, reverse, ids, views) && Texts(views)
    requires P.Collected(views, Kinds(t.schema, names), decode, reverse)
    requires P.Valid(q) && P.NoFailure(views, q)
    requires P.Follows(views, 0, limits, pages, reverse, P.SchemaOf(Kinds(t.schema, names)), q)
    ensures P.Joined(pages) == P.Matching(views, q)
    ensures forall id :: id in t.items && Covers(t.items[id], names) ==>
      exists i :: 0 <= i < |ids| && ids[i] == id && (views[i] in P.Joined(pages) <==> P.Wanted(q, views[i]))
  {
    hide S.TableOk, Typed, TypedItem, Orders, P.StoredKey, P.OrderOf, P.SchemaOf, InOrder, Covers, Kinds, RawKey,
      P.Follows, P.Collected, P.NoFailure, P.Ordered;
    forall i, j | 0 <= i < j < |views| ensures !Confused(views[i].raw, views[j].raw) {
      RawsDiffer(t, names, decode, reverse, ids, views, i, j);
      if Confused(views[i].raw, views[j].raw) {
        assert false;
      }
    }
    TableCompleteExact(t, names, decode, reverse, ids, views);
    forall id | id in t.items && Covers(t.items[id], names)
      ensures exists i :: 0 <= i < |ids| && ids[i] == id && (views[i] in P.Joined(pages) <==> P.Wanted(q, views[i]))
    {
      assert id in ids;
      var i :| 0 <= i < |ids| && ids[i] == id;
      P.MatchingWanted(views, q, views[i]);
    }
  }

  // -- Such keys are accepted.

  function Odd(b: bool): Item { map["pk" := Attributes.Obj(map["S" := Attributes.Bool(b)])] }

  function OddSchema(): S.Schema { S.Schema(["pk"], map["pk" := "S"], [], 1) }

  function OddTable(): S.Table {
    S.Table(OddSchema(), map[[Odd(false)["pk"]] := Odd(false), [Odd(true)["pk"]] := Odd(true)], 2, None)
  }

  function OddView(b: bool, decode: string -> Option<string>): P.View {
    P.View([Odd(b)["pk"]], P.OrderOf([Odd(b)["pk"]], decode), "", 1, 0)
  }

  lemma OddItem(b: bool)
    ensures S.InPlace(OddSchema(), [Odd(b)["pk"]], Odd(b)) && TypedItem(OddSchema(), Odd(b))
  {
    assert |Odd(b)["pk"].fields| == 1;
    assert Attributes.Canonical(Odd(b)["pk"]) == Ok(Odd(b)["pk"]);
    hide Attributes.Canonical;
    assert Attributes.CanonicalItem(Odd(b)).Ok?;
    S.CanonicalField(Odd(b), "pk");
    assert Attributes.CanonicalItem(Odd(b)).value == Odd(b);
  }

  /** A table with a string key stores {"S": false} and {"S": true} as two items, and a paged scan can lose one. */
  lemma TextlessKeysLost(decode: string -> Option<string>)
    ensures var t, views := OddTable(), [OddView(false, decode), OddView(true, decode)];
      S.TableOk(t) && Typed(t) && Orders(t.schema, ["pk"]) && "B" !in Kinds(t.schema, ["pk"]) &&
      Lists(t, ["pk"], decode, false, [[Odd(false)["pk"]], [Odd(true)["pk"]]], views) &&
      P.Collected(views, Kinds(t.schema, ["pk"]), decode, false) &&
      !P.NeverLoses(views, false, P.SchemaOf(Kinds(t.schema, ["pk"])))
  {
    hide P.NeverLoses, P.Collected, P.OrderOf, P.SchemaOf, S.TableOk, Typed, Lists, Orders, Kinds;
    var t, views := OddTable(), [OddView(false, decode), OddView(true, decode)];
    OddTableOk();
    OddLists(decode);
    assert Confused(views[0].raw, views[1].raw);
    TableCompleteExact(t, ["pk"], decode, false, [[Odd(false)["pk"]], [Odd(true)["pk"]]], views);
  }

  lemma OddTableOk()
    ensures S.TableOk(OddTable()) && Typed(OddTable())
    ensures Orders(OddSchema(), ["pk"]) && "B" !in Kinds(OddSchema(), ["pk"])
  {
    hide S.InPlace, TypedItem;
    OddItem(false);
    OddItem(true);
    var a: S.KeyId, b: S.KeyId := [Odd(false)["pk"]], [Odd(true)["pk"]];
    assert a[0].fields["S"] != b[0].fields["S"];
    assert a[0] != b[0] && a != b;
    assert |OddTable().items.Keys| == 2 by { assert OddTable().items.Keys == {a, b}; }
  }

  lemma OddLists(decode: string -> Option<string>)
    ensures Lists(OddTable(), ["pk"], decode, false, [[Odd(false)["pk"]], [Odd(true)["pk"]]],
              [OddView(false, decode), OddView(true, decode)])
  {
    hide InOrder, P.OrderOf;
    var a: S.KeyId, b: S.KeyId := [Odd(false)["pk"]], [Odd(true)["pk"]];
    assert a[0].fields["S"] != b[0].fields["S"];
    assert a[0] != b[0] && a != b;
    OddTie(decode);
  }

  lemma OddTie(decode: string -> Option<string>)
    ensures P.OrderOf([Odd(false)["pk"]], decode) == P.OrderOf([Odd(true)["pk"]], decode)
    ensures var k := P.OrderOf([Odd(false)["pk"]], decode); InOrder(k, k, false)
  {
    assert P.PartOf(Odd(false)["pk"], decode) == P.PartOf(Odd(true)["pk"], decode);
    var k := P.OrderOf([Odd(false)["pk"]], decode);
    hide P.Less;
    P.BeforeOrder(k, k, k, false);
  }
}
