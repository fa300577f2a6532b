/**
 Scan and Query pages (internal/dynamodb/read.go): the views of a table or index, sorted by key, are walked from just
 after the start key until the limit or the byte cap is reached.
 */
module Paging {
  import Attributes
  import Decimals
  import opened Strings
  import opened Wrappers

  type Json = Attributes.Json

  // ---------------------------------------------------------------- keys in order

  /** What one key attribute is compared by: numbers by value, strings and binaries by their bytes. */
  datatype Part = Number(value: real) | Text(text: string)

  type Key = seq<Part>

  /** The text scalarOrder gives a value; `decode` is base64, which reads some texts alike. */
  function ScalarText(v: Json, decode: string -> Option<string>): string {
    if !v.Obj? || |v.fields| != 1 then ""
    else if "B" in v.fields then
      var s := Attributes.TextOf(v.fields["B"]);
      if decode(s).Some? then decode(s).value else s
    else if "S" in v.fields then Attributes.TextOf(v.fields["S"])
    else if "N" in v.fields then Attributes.TextOf(v.fields["N"])
    else ""
  }

  predicate IsNumber(v: Json) {
    v.Obj? && |v.fields| == 1 && "N" in v.fields && v.fields["N"].Str? && Decimals.Read(v.fields["N"].str).Some?
  }

  function PartOf(v: Json, decode: string -> Option<string>): Part {
    if IsNumber(v) then Number(Decimals.Number(v.fields["N"].str)) else Text(ScalarText(v, decode))
  }

  /** keyOrder. */
  function OrderOf(key: seq<Json>, decode: string -> Option<string>): Key {
    seq(|key|, i requires 0 <= i < |key| => PartOf(key[i], decode))
  }

  /** A canonical attribute of one kind. */
  predicate OfKind(v: Json, kind: string) {
    kind in {"S", "N", "B"} && v.Obj? && v.fields.Keys == {kind} && Attributes.Canonical(v) == Ok(v)
  }

  /** The key of a stored item: canonical attributes, each of the type its definition gives. */
  predicate StoredKey(key: seq<Json>, kinds: seq<string>) {
    |key| == |kinds| && forall i :: 0 <= i < |kinds| ==> OfKind(key[i], kinds[i])
  }

  function SchemaOf(kinds: seq<string>): Key {
    seq(|kinds|, i requires 0 <= i < |kinds| => if kinds[i] == "N" then Number(0.0) else Text(""))
  }

  /** The same value, or two texts that decode to one. */
  predicate ReadsAlike(a: Json, b: Json, kind: string, decode: string -> Option<string>) {
    a == b || (kind != "N" && ScalarText(a, decode) == ScalarText(b, decode))
  }

  predicate DecodeAlike(a: seq<Json>, b: seq<Json>, kinds: seq<string>, decode: string -> Option<string>)
    requires StoredKey(a, kinds) && StoredKey(b, kinds)
  {
    forall i :: 0 <= i < |kinds| ==> ReadsAlike(a[i], b[i], kinds[i], decode)
  }

  lemma CanonicalN(v: Json)
    requires OfKind(v, "N")
    ensures IsNumber(v) && Decimals.Canonical(v.fields["N"].str) == Ok(v.fields["N"].str)
    ensures v == Attributes.Obj(map["N" := v.fields["N"]])
  {
    hide Decimals.Canonical, Decimals.Read;
    var n := Decimals.Canonical(Attributes.TextOf(v.fields["N"]));
    assert |v.fields| == |v.fields.Keys| == 1;
    assert v == Attributes.Obj(map["N" := Attributes.Str(n.value)]);
    Decimals.CanonicalKeepsNumber(n.value);
  }

  lemma PartKind(v: Json, kind: string, decode: string -> Option<string>)
    requires OfKind(v, kind)
    ensures PartOf(v, decode).Number? <==> kind == "N"
  {
    hide Attributes.Canonical, Decimals.Canonical, Decimals.Read;
    if kind == "N" {
      CanonicalN(v);
    } else {
      assert "N" !in v.fields.Keys;
    }
  }

  /** Two stored attributes compare as equal exactly when they read alike. */
  lemma PartTie(a: Json, b: Json, kind: string, decode: string -> Option<string>)
    requires OfKind(a, kind) && OfKind(b, kind)
    ensures PartOf(a, decode) == PartOf(b, decode) <==> ReadsAlike(a, b, kind, decode)
  {
    hide Attributes.Canonical, Decimals.Canonical, Decimals.Read, Decimals.Number, ScalarText;
    PartKind(a, kind, decode);
    PartKind(b, kind, decode);
    if kind == "N" {
      CanonicalN(a);
      CanonicalN(b);
      Decimals.CanonicalUnique(a.fields["N"].str, b.fields["N"].str);
    }
  }

  /** Two stored keys compare as equal exactly when all their attributes read alike. */
  lemma OrderTie(a: seq<Json>, b: seq<Json>, kinds: seq<string>, decode: string -> Option<string>)
    requires StoredKey(a, kinds) && StoredKey(b, kinds)
    ensures Alike(OrderOf(a, decode), SchemaOf(kinds)) && Alike(OrderOf(b, decode), SchemaOf(kinds))
    ensures OrderOf(a, decode) == OrderOf(b, decode) <==> DecodeAlike(a, b, kinds, decode)
  {
    hide OfKind, PartOf, ReadsAlike;
    var x, y := OrderOf(a, decode), OrderOf(b, decode);
    forall i | 0 <= i < |kinds|
      ensures x[i].Number? == y[i].Number? == (kinds[i] == "N")
      ensures x[i] == y[i] <==> ReadsAlike(a[i], b[i], kinds[i], decode)
    {
      PartKind(a[i], kinds[i], decode);
      PartKind(b[i], kinds[i], decode);
      PartTie(a[i], b[i], kinds[i], decode);
    }
  }

  /** Keys of one schema: the same attributes, each of the type its definition gives. */
  predicate Alike(a: Key, b: Key) {
    |a| == |b| && forall i :: 0 <= i < |a| ==> a[i].Number? == b[i].Number?
  }

  predicate PartLess(a: Part, b: Part)
    requires a.Number? == b.Number?
  {
    if a.Number? then a.value < b.value else TextLess(a.text, b.text)
  }

  /** compareKeyOrder(a, b) < 0. */
  predicate Less(a: Key, b: Key)
    requires Alike(a, b)
  {
    a != [] && (PartLess(a[0], b[0]) || (a[0] == b[0] && Less(a[1..], b[1..])))
  }

  lemma PartOrder(a: Part, b: Part, c: Part)
    requires a.Number? == b.Number? == c.Number?
    ensures !PartLess(a, a) && (PartLess(a, b) && PartLess(b, c) ==> PartLess(a, c))
    ensures PartLess(a, b) || a == b || PartLess(b, a)
    ensures !(PartLess(a, b) && PartLess(b, a))
  {
    if a.Text? {
      TextOrder(a.text, b.text, c.text);
    }
  }

  /** Keys of one schema are totally ordered. */
  lemma {:induction false} KeyOrder(a: Key, b: Key, c: Key)
    requires Alike(a, b) && Alike(b, c)
    ensures Alike(a, c) && Alike(b, a) && Alike(a, a)
    ensures !Less(a, a) && (Less(a, b) && Less(b, c) ==> Less(a, c))
    ensures Less(a, b) || a == b || Less(b, a)
    ensures !(Less(a, b) && Less(b, a))
  {
    hide PartLess;
    if a != [] {
      PartOrder(a[0], b[0], c[0]);
      PartOrder(b[0], c[0], a[0]);
      KeyOrder(a[1..], b[1..], c[1..]);
      assert a == [a[0]] + a[1..] && b == [b[0]] + b[1..];
    }
  }

  /** `a` comes before `b` in the direction of the walk. */
  predicate Before(a: Key, b: Key, reverse: bool)
    requires Alike(a, b)
  {
    if reverse then Less(b, a) else Less(a, b)
  }

  /** The first attribute in which the keys differ is the lower number or the earlier text in `a`. */
  ghost predicate Precedes(a: Key, b: Key)
    requires Alike(a, b)
  {
    exists k: nat :: k < |a| && a[..k] == b[..k] &&
      if a[k].Number? then a[k].value < b[k].value else Earlier(a[k].text, b[k].text)
  }

  lemma {:induction false} LessExact(a: Key, b: Key)
    requires Alike(a, b)
    ensures Less(a, b) <==> Precedes(a, b)
    decreases a
  {
    hide TextLess, Earlier;
    if a != [] {
      if a[0].Text? {
        TextLessExact(a[0].text, b[0].text);
      }
      LessExact(a[1..], b[1..]);
      if a[0] == b[0] && Less(a[1..], b[1..]) {
        var k: nat :| k < |a[1..]| && a[1..][..k] == b[1..][..k] &&
          if a[1..][k].Number? then a[1..][k].value < b[1..][k].value else Earlier(a[1..][k].text, b[1..][k].text);
        assert a[..k + 1] == [a[0]] + a[1..][..k] && b[..k + 1] == [b[0]] + b[1..][..k];
        assert a[k + 1] == a[1..][k] && b[k + 1] == b[1..][k];
      }
      if Precedes(a, b) {
        var k: nat :| k < |a| && a[..k] == b[..k] &&
          if a[k].Number? then a[k].value < b[k].value else Earlier(a[k].text, b[k].text);
        if k > 0 {
          assert a[0] == a[..k][0] && b[0] == b[..k][0];
          assert a[1..][..k - 1] == a[..k][1..] && b[1..][..k - 1] == b[..k][1..];
          assert a[1..][k - 1] == a[k] && b[1..][k - 1] == b[k];
        }
      }
    }
  }

  /** Views ascend by key, or descend if asked to. */
  lemma BeforeExact(a: Key, b: Key, reverse: bool)
    requires Alike(a, b) && Alike(b, a)
    ensures Before(a, b, reverse) <==> if reverse then Precedes(b, a) else Precedes(a, b)
  {
    hide Less, Precedes;
    LessExact(a, b);
    LessExact(b, a);
  }

  lemma BeforeOrder(a: Key, b: Key, c: Key, reverse: bool)
    requires Alike(a, b) && Alike(b, c)
    ensures Alike(a, c) && Alike(b, a) && Alike(a, a)
    ensures !Before(a, a, reverse) && (Before(a, b, reverse) && Before(b, c, reverse) ==> Before(a, c, reverse))
    ensures Before(a, b, reverse) || a == b || Before(b, a, reverse)
    ensures !(Before(a, b, reverse) && Before(b, a, reverse))
  {
    hide Less;
    KeyOrder(a, b, c);
    assert Alike(c, b) && Alike(b, a);
    KeyOrder(c, b, a);
  }

  // ---------------------------------------------------------------- views

  /**
   `raw` is the stored key, index attributes included, and `key` what it is compared by; `id` is the serialised primary
   key; `tag` stands for the rest of the item.
   */
  datatype View = View(raw: seq<Json>, key: Key, id: string, size: nat, tag: int)

  predicate Uniform(views: seq<View>, schema: Key) {
    forall i :: 0 <= i < |views| ==> Alike(views[i].key, schema)
  }

  /** No view before an earlier one: what sorting gives. */
  predicate Ordered(views: seq<View>, reverse: bool, schema: Key) {
    Uniform(views, schema) &&
    forall i, j :: 0 <= i < j < |views| ==>
      Alike(views[j].key, views[i].key) && !Before(views[j].key, views[i].key, reverse)
  }

  /** In walk order, and no two keys compare as equal. */
  predicate Sorted(views: seq<View>, reverse: bool, schema: Key) {
    Uniform(views, schema) &&
    forall i, j :: 0 <= i < j < |views| ==>
      Alike(views[i].key, views[j].key) && Before(views[i].key, views[j].key, reverse)
  }

  /** What collectSortedItems returns: the keys of stored items, sorted. */
  predicate Collected(
    views: seq<View>, kinds: seq<string>, decode: string -> Option<string>, reverse: bool)
  {
    (forall i :: 0 <= i < |views| ==> StoredKey(views[i].raw, kinds) && views[i].key == OrderOf(views[i].raw, decode)) &&
    Ordered(views, reverse, SchemaOf(kinds))
  }

  /** No two of the stored keys read alike. */
  predicate Distinguished(views: seq<View>, kinds: seq<string>, decode: string -> Option<string>)
    requires forall i :: 0 <= i < |views| ==> StoredKey(views[i].raw, kinds)
  {
    forall i, j :: 0 <= i < j < |views| ==> !DecodeAlike(views[i].raw, views[j].raw, kinds, decode)
  }

  lemma SortedOrdered(views: seq<View>, reverse: bool, schema: Key)
    requires Sorted(views, reverse, schema)
    ensures Ordered(views, reverse, schema)
  {
    hide Less;
    forall i, j | 0 <= i < j < |views| ensures AlikeNotBefore(views[j].key, views[i].key, reverse) {
      BeforeOrder(views[i].key, views[j].key, views[j].key, reverse);
    }
  }

  predicate AlikeNotBefore(a: Key, b: Key, reverse: bool) { Alike(a, b) && !Before(a, b, reverse) }

  /** The collected views are in strict order exactly if no two of the stored keys read alike. */
  lemma SortedExact(views: seq<View>, kinds: seq<string>, decode: string -> Option<string>, reverse: bool)
    requires Collected(views, kinds, decode, reverse)
    ensures Sorted(views, reverse, SchemaOf(kinds)) <==> Distinguished(views, kinds, decode)
  {
    hide Less, OrderOf, StoredKey, DecodeAlike, SchemaOf;
    var schema := SchemaOf(kinds);
    forall i, j | 0 <= i < j < |views|
      ensures Alike(views[i].key, views[j].key)
      ensures Before(views[i].key, views[j].key, reverse) <==> !DecodeAlike(views[i].raw, views[j].raw, kinds, decode)
    {
      assert Alike(views[j].key, views[i].key) && !Before(views[j].key, views[i].key, reverse);
      OrderTie(views[i].raw, views[j].raw, kinds, decode);
      BeforeOrder(views[i].key, views[j].key, views[j].key, reverse);
    }
  }

  /** The first position past `start`: everything before it is not after `start`, everything from it on is. */
  predicate StartsAt(views: seq<View>, start: Key, reverse: bool, schema: Key, r: nat)
    requires Uniform(views, schema) && Alike(start, schema)
  {
    r <= |views| &&
    (forall i :: 0 <= i < r ==> !After(views[i], start, reverse, schema)) &&
    forall i :: r <= i < |views| ==> After(views[i], start, reverse, schema)
  }

  predicate After(view: View, start: Key, reverse: bool, schema: Key)
    requires Alike(view.key, schema) && Alike(start, schema)
  {
    Before(start, view.key, reverse)
  }

  /** findExclusiveStart, by binary search. */
  method FindExclusiveStart(views: seq<View>, start: Key, reverse: bool, schema: Key) returns (r: nat)
    requires Ordered(views, reverse, schema) && Alike(start, schema)
    ensures StartsAt(views, start, reverse, schema, r)
  {
    hide Less;
    var lo, hi := 0, |views|;
    while lo < hi
      invariant 0 <= lo <= hi <= |views|
      invariant forall i :: 0 <= i < lo ==> !After(views[i], start, reverse, schema)
      invariant forall i :: hi <= i < |views| ==> After(views[i], start, reverse, schema)
    {
      var mid := (lo + hi) / 2;
      if After(views[mid], start, reverse, schema) {
        forall i | mid <= i < hi ensures After(views[i], start, reverse, schema) {
          AfterLater(views, start, reverse, schema, mid, i);
        }
        hi := mid;
      } else {
        forall i | lo <= i <= mid ensures !After(views[i], start, reverse, schema) {
          AfterLater(views, start, reverse, schema, i, mid);
        }
        lo := mid + 1;
      }
    }
    r := lo;
  }

  lemma AfterLater(views: seq<View>, start: Key, reverse: bool, schema: Key, i: nat, j: nat)
    requires Ordered(views, reverse, schema) && Alike(start, schema) && i <= j < |views|
    ensures After(views[i], start, reverse, schema) ==> After(views[j], start, reverse, schema)
  {
    hide Less;
    if i < j {
      assert !Before(views[j].key, views[i].key, reverse);
      BeforeOrder(start, views[i].key, views[j].key, reverse);
      BeforeOrder(views[i].key, views[j].key, views[j].key, reverse);
    }
  }

  lemma StartUnique(views: seq<View>, start: Key, reverse: bool, schema: Key, r: nat, r': nat)
    requires Uniform(views, schema) && Alike(start, schema)
    requires StartsAt(views, start, reverse, schema, r) && StartsAt(views, start, reverse, schema, r')
    ensures r == r'
  {
    hide After;
    assert r < |views| ==> After(views[r], start, reverse, schema);
    assert r' < |views| ==> After(views[r'], start, reverse, schema);
  }

  /** Resuming after a view resumes at the next one, exactly unless the next one has an equal key. */
  lemma StartAfterView(views: seq<View>, reverse: bool, schema: Key, i: nat)
    requires Ordered(views, reverse, schema) && i < |views|
    ensures StartsAt(views, views[i].key, reverse, schema, i + 1) <==>
            (i + 1 < |views| ==> views[i + 1].key != views[i].key)
  {
    hide Less;
    var key := views[i].key;
    BeforeOrder(key, key, key, reverse);
    forall j | 0 <= j <= i ensures !After(views[j], key, reverse, schema) {
      assert j < i ==> !Before(key, views[j].key, reverse);
    }
    if i + 1 < |views| {
      var next := views[i + 1].key;
      assert Alike(next, key) && !Before(next, key, reverse);
      BeforeOrder(next, key, key, reverse);
      assert After(views[i + 1], key, reverse, schema) <==> next != key;
      if next != key {
        forall j | i + 1 <= j < |views| ensures After(views[j], key, reverse, schema) {
          AfterLater(views, key, reverse, schema, i + 1, j);
        }
      }
    }
  }

  lemma StartAfterSorted(views: seq<View>, reverse: bool, schema: Key, i: nat)
    requires Sorted(views, reverse, schema) && i < |views|
    ensures StartsAt(views, views[i].key, reverse, schema, i + 1)
  {
    hide Less, StartsAt;
    SortedOrdered(views, reverse, schema);
    StartAfterView(views, reverse, schema, i);
    if i + 1 < |views| {
      BeforeOrder(views[i].key, views[i + 1].key, views[i + 1].key, reverse);
    }
  }

  /** Where a read with this start key begins. */
  ghost predicate Resumes(views: seq<View>, start: Option<Key>, reverse: bool, schema: Key, from: nat) {
    from <= |views| && Ordered(views, reverse, schema) &&
    if start.None? then from == 0 else Alike(start.value, schema) && StartsAt(views, start.value, reverse, schema, from)
  }

  // ---------------------------------------------------------------- one page

  /**
   A read: `condition` is the key condition (always true for a scan), `filter` the filter expression; either may fail
   to evaluate.  `hash` is the 32-bit hash of an item's id.
   */
  datatype Request = Request(
    segment: Option<nat>, total: nat, cap: nat,
    condition: View -> Result<bool>, filter: View -> Result<bool>, hash: string -> nat)

  /** segmentOf. */
  function SegmentOf(q: Request, v: View): (s: nat)
    requires q.total > 0
    ensures s < q.total
  {
    q.hash(v.id) % q.total
  }

  predicate Valid(q: Request) { q.segment.Some? ==> q.segment.value < q.total }

  datatype Verdict = Skip | Drop | Keep | Fail

  /** What the loop body does with a view: pass over it, evaluate and drop it, evaluate and return it, or fail. */
  function Judge(q: Request, v: View): Verdict
    requires Valid(q)
  {
    if q.segment.Some? && SegmentOf(q, v) != q.segment.value then Skip
    else if q.condition(v).Err? then Fail
    else if !q.condition(v).value then Skip
    else if q.filter(v).Err? then Fail
    else if q.filter(v).value then Keep
    else Drop
  }

  datatype Page = Page(items: seq<View>, scanned: nat, last: Option<Key>)

  /** The loop of read from position `i`, with `scanned` views and `bytes` counted already. */
  function Walk(views: seq<View>, i: nat, limit: nat, scanned: nat, bytes: nat, q: Request): Result<Page>
    requires Valid(q) && i <= |views|
    decreases |views| - i
  {
    if i == |views| then Ok(Page([], scanned, None))
    else
      var v := views[i];
      match Judge(q, v)
      case Fail => Err
      case Skip => Walk(views, i + 1, limit, scanned, bytes, q)
      case verdict =>
        var one := if verdict.Keep? then [v] else [];
        if (scanned + 1 >= limit || bytes + v.size >= q.cap) && i + 1 < |views|
        then Ok(Page(one, scanned + 1, Some(v.key)))
        else Prepend(one, Walk(views, i + 1, limit, scanned + 1, bytes + v.size, q))
  }

  function Prepend(items: seq<View>, page: Result<Page>): Result<Page> {
    if page.Err? then Err else Ok(page.value.(items := items + page.value.items))
  }

  lemma PrependLaws(a: seq<View>, b: seq<View>, page: Result<Page>)
    ensures Prepend([], page) == page && Prepend(a, Prepend(b, page)) == Prepend(a + b, page)
  {
    if page.Ok? {
      assert [] + page.value.items == page.value.items;
      assert a + (b + page.value.items) == (a + b) + page.value.items;
    }
  }

  /** The limit in force: none given means more than there are views. */
  function LimitOf(limit: nat, views: seq<View>): nat { if limit == 0 then |views| + 1 else limit }

  lemma OrderedUniform(views: seq<View>, reverse: bool, schema: Key)
    requires Ordered(views, reverse, schema)
    ensures Uniform(views, schema)
  {
  }

  lemma Resumed(views: seq<View>, start: Option<Key>, reverse: bool, schema: Key, from: nat)
    requires Ordered(views, reverse, schema) && from <= |views| && (start.Some? ==> Alike(start.value, schema))
    requires if start.None? then from == 0 else StartsAt(views, start.value, reverse, schema, from)
    ensures Resumes(views, start, reverse, schema, from)
  {
  }

  /** read, after the views have been collected. */
  method Read(views: seq<View>, start: Option<Key>, limit: nat, reverse: bool, schema: Key, q: Request)
    returns (page: Result<Page>)
    requires Ordered(views, reverse, schema) && Valid(q) && (start.Some? ==> Alike(start.value, schema))
    ensures exists from: nat :: Resumes(views, start, reverse, schema, from) &&
                                page == Walk(views, from, LimitOf(limit, views), 0, 0, q) &&
                                (page.Ok? ==> exists j :: IsPage(views, from, j, limit, q, page.value))
  {
    hide StartsAt, Ordered, Resumes, Walk, IsPage;
    var begin := 0;
    OrderedUniform(views, reverse, schema);
    if start.Some? {
      begin := FindExclusiveStart(views, start.value, reverse, schema);
      assert begin <= |views| by { StartInside(views, start.value, reverse, schema, begin); }
    }
    Resumed(views, start, reverse, schema, begin);
    ReadPage(views, begin, limit, q);
    page := ReadFrom(views, begin, if limit == 0 then |views| + 1 else limit, q);
  }

  /** The loop of read. */
  method ReadFrom(views: seq<View>, begin: nat, max: nat, q: Request) returns (page: Result<Page>)
    requires Valid(q) && begin <= |views|
    ensures page == Walk(views, begin, max, 0, 0, q)
  {
    hide Judge;
    var items: seq<View> := [];
    var scanned: nat, bytes: nat, i := 0, 0, begin;
    PrependLaws([], [], Walk(views, begin, max, 0, 0, q));
    while i < |views|
      invariant begin <= i <= |views|
      invariant Walk(views, begin, max, 0, 0, q) == Prepend(items, Walk(views, i, max, scanned, bytes, q))
      decreases |views| - i
    {
      var v := views[i];
      var verdict := Judge(q, v);
      PrependLaws(items, [v], Walk(views, i + 1, max, scanned + 1, bytes + v.size, q));
      PrependLaws(items, [], Walk(views, i + 1, max, scanned + 1, bytes + v.size, q));
      if verdict.Fail? {
        return Err;
      }
      if verdict != Skip {
        scanned := scanned + 1;
        bytes := bytes + v.size;
        ghost var was := items;
        if verdict == Keep {
          items := items + [v];
        }
        assert items == was + if verdict == Keep then [v] else [];
        if (scanned >= max || bytes >= q.cap) && i + 1 < |views| {
          return Ok(Page(items, scanned, Some(v.key)));
        }
      }
      i := i + 1;
    }
    assert items + [] == items;
    return Ok(Page(items, scanned, None));
  }

  lemma StartInside(views: seq<View>, start: Key, reverse: bool, schema: Key, r: nat)
    requires Uniform(views, schema) && Alike(start, schema) && StartsAt(views, start, reverse, schema, r)
    ensures r <= |views|
  {
  }

  // -- What a page holds, by the conditions alone.

  /** The view is of the segment asked for. */
  predicate InSegment(q: Request, v: View)
    requires Valid(q)
  {
    q.segment.None? || q.hash(v.id) % q.total == q.segment.value
  }

  /** The view counts as scanned: it is of the segment and meets the key condition. */
  predicate Evaluated(q: Request, v: View)
    requires Valid(q)
  {
    InSegment(q, v) && q.condition(v) == Ok(true)
  }

  /** The view is to be returned. */
  predicate Wanted(q: Request, v: View)
    requires Valid(q)
  {
    Evaluated(q, v) && q.filter(v) == Ok(true)
  }

  /** A condition that is needed cannot be evaluated. */
  predicate Fails(q: Request, v: View)
    requires Valid(q)
  {
    InSegment(q, v) && (q.condition(v).Err? || (q.condition(v) == Ok(true) && q.filter(v).Err?))
  }

  lemma Either(r: Result<bool>)
    ensures r == Err || r == Ok(true) || r == Ok(false)
  {
    if r.Ok? {
      assert r.value == true || r.value == false;
    }
  }

  lemma JudgeExact(q: Request, v: View)
    requires Valid(q)
    ensures Judge(q, v) == Keep <==> Wanted(q, v)
    ensures Judge(q, v) == Fail <==> Fails(q, v)
    ensures Judge(q, v) == Keep || Judge(q, v) == Drop <==> Evaluated(q, v) && !Fails(q, v)
  {
    Either(q.condition(v));
    Either(q.filter(v));
  }

  /** How many of the views from `i` to `j` count as scanned, and their bytes. */
  function Tally(views: seq<View>, i: nat, j: nat, q: Request): nat
    requires Valid(q) && i <= j <= |views|
  {
    if i == j then 0 else Tally(views, i, j - 1, q) + if Evaluated(q, views[j - 1]) then 1 else 0
  }

  function Weight(views: seq<View>, i: nat, j: nat, q: Request): nat
    requires Valid(q) && i <= j <= |views|
  {
    if i == j then 0 else Weight(views, i, j - 1, q) + if Evaluated(q, views[j - 1]) then views[j - 1].size else 0
  }

  /** The page is full after the view before `j`: the limit, if there is one, or the cap has been reached there. */
  predicate Full(views: seq<View>, from: nat, j: nat, limit: nat, q: Request)
    requires Valid(q) && from < j <= |views|
  {
    Evaluated(q, views[j - 1]) &&
    ((limit > 0 && Tally(views, from, j, q) >= limit) || Weight(views, from, j, q) >= q.cap)
  }

  /** `out` is the views at the ascending positions `at`, which are those of all the views to be returned. */
  ghost predicate Picked(views: seq<View>, from: nat, j: nat, q: Request, at: seq<nat>, out: seq<View>)
    requires Valid(q) && from <= j <= |views|
  {
    |at| == |out| && (forall n :: 0 <= n < |at| ==> from <= at[n] < j && Wanted(q, views[at[n]]) && out[n] == views[at[n]]) &&
    (forall m, n :: 0 <= m < n < |at| ==> at[m] < at[n]) &&
    forall k: nat :: from <= k < j && Wanted(q, views[k]) ==> k in at
  }

  /**
   A page of the views from `from`: all views up to `j` that are to be returned, in order, with the number scanned; `j` is
   where the page is full for the first time with views left, or else the end.
   */
  ghost predicate IsPage(views: seq<View>, from: nat, j: nat, limit: nat, q: Request, page: Page)
    requires Valid(q)
  {
    from <= j <= |views| && (exists at :: Picked(views, from, j, q, at, page.items)) &&
    page.scanned == Tally(views, from, j, q) &&
    (forall k :: from < k < j ==> !Full(views, from, k, limit, q)) &&
    if page.last.None? then j == |views|
    else from < j < |views| && Full(views, from, j, limit, q) && page.last.value == views[j - 1].key
  }

  lemma PickedMore(views: seq<View>, from: nat, j: nat, q: Request, at: seq<nat>, out: seq<View>)
    requires Valid(q) && from <= j < |views| && Picked(views, from, j, q, at, out)
    ensures if Wanted(q, views[j]) then Picked(views, from, j + 1, q, at + [j], out + [views[j]])
            else Picked(views, from, j + 1, q, at, out)
  {
    hide Wanted;
    if Wanted(q, views[j]) {
      forall k: nat | from <= k < j + 1 && Wanted(q, views[k]) ensures k in at + [j] {
        if k == j {
          assert (at + [j])[|at|] == j;
        } else {
          var n :| 0 <= n < |at| && at[n] == k;
          assert (at + [j])[n] == k;
        }
      }
    }
  }

  /** From a position with `items` picked so far and the page not full yet, the walk ends in a page. */
  lemma {:induction false} WalkIsPage(views: seq<View>, from: nat, i: nat, limit: nat, at: seq<nat>, items: seq<View>, q: Request)
    returns (j: nat)
    requires Valid(q) && from <= i <= |views| && Picked(views, from, i, q, at, items)
    requires forall k :: from < k <= i && k < |views| ==> !Full(views, from, k, limit, q)
    requires Walk(views, i, LimitOf(limit, views), Tally(views, from, i, q), Weight(views, from, i, q), q).Ok?
    ensures IsPage(views, from, j, limit, q,
      Prepend(items, Walk(views, i, LimitOf(limit, views), Tally(views, from, i, q), Weight(views, from, i, q), q)).value)
    decreases |views| - i
  {
    hide Judge, Evaluated, Wanted, Picked;
    var scanned, bytes := Tally(views, from, i, q), Weight(views, from, i, q);
    if i == |views| {
      assert items + [] == items;
      return i;
    }
    var v := views[i];
    JudgeExact(q, v);
    WantedEvaluated(q, v);
    PickedMore(views, from, i, q, at, items);
    TallyShort(views, from, i + 1, q);
    var max := LimitOf(limit, views);
    var counts, keeps := Judge(q, v) != Skip, Judge(q, v) == Keep;
    var more, there := if keeps then items + [v] else items, if keeps then at + [i] else at;
    assert Tally(views, from, i + 1, q) == if counts then scanned + 1 else scanned;
    assert Weight(views, from, i + 1, q) == if counts then bytes + v.size else bytes;
    if counts && (scanned + 1 >= max || bytes + v.size >= q.cap) && i + 1 < |views| {
      assert Full(views, from, i + 1, limit, q);
      assert items + [] == items;
      j := i + 1;
    } else {
      var rest := Walk(views, i + 1, max, Tally(views, from, i + 1, q), Weight(views, from, i + 1, q), q);
      PrependLaws(items, [v], rest);
      PrependLaws(items, [], rest);
      j := WalkIsPage(views, from, i + 1, limit, there, more, q);
    }
  }

  lemma WantedEvaluated(q: Request, v: View)
    requires Valid(q)
    ensures Wanted(q, v) ==> Evaluated(q, v)
  {
  }

  lemma {:induction false} TallyShort(views: seq<View>, i: nat, j: nat, q: Request)
    requires Valid(q) && i <= j <= |views|
    ensures Tally(views, i, j, q) <= j - i
  {
    hide Evaluated;
    if i < j {
      TallyShort(views, i, j - 1, q);
    }
  }

  /** Whatever is read is such a page; a limit is never exceeded, and reached exactly where it ends a page below the cap. */
  lemma ReadExact(views: seq<View>, from: nat, limit: nat, q: Request) returns (j: nat)
    requires Valid(q) && from <= |views| && Walk(views, from, LimitOf(limit, views), 0, 0, q).Ok?
    ensures var page := Walk(views, from, LimitOf(limit, views), 0, 0, q).value;
      IsPage(views, from, j, limit, q, page) && (limit > 0 ==> page.scanned <= limit) &&
      (page.last.Some? ==> (limit > 0 && page.scanned == limit) || Weight(views, from, j, q) >= q.cap)
  {
    hide Judge, Evaluated, Wanted, Walk;
    PrependLaws([], [], Walk(views, from, LimitOf(limit, views), 0, 0, q));
    j := WalkIsPage(views, from, from, limit, [], [], q);
    if limit > 0 {
      TallyWithin(views, from, j, limit, q);
    }
  }

  lemma ReadPage(views: seq<View>, from: nat, limit: nat, q: Request)
    requires Valid(q) && from <= |views|
    ensures var r := Walk(views, from, LimitOf(limit, views), 0, 0, q);
      r.Ok? ==> exists j :: IsPage(views, from, j, limit, q, r.value)
  {
    hide Walk, IsPage;
    if Walk(views, from, LimitOf(limit, views), 0, 0, q).Ok? {
      var j := ReadExact(views, from, limit, q);
    }
  }

  /** A stretch that was never full before its last view holds no more than the limit. */
  lemma {:induction false} TallyWithin(views: seq<View>, from: nat, j: nat, limit: nat, q: Request)
    requires Valid(q) && from <= j <= |views| && limit > 0
    requires forall k :: from < k < j ==> !Full(views, from, k, limit, q)
    ensures Tally(views, from, j, q) <= limit
    decreases j
  {
    hide Evaluated;
    if from < j {
      TallyWithin(views, from, j - 1, limit, q);
      TallyBelow(views, from, j - 1, limit, q);
    }
  }

  lemma {:induction false} TallyBelow(views: seq<View>, from: nat, j: nat, limit: nat, q: Request)
    requires Valid(q) && from <= j <= |views| && limit > 0
    requires forall k :: from < k <= j ==> !Full(views, from, k, limit, q)
    ensures Tally(views, from, j, q) < limit
    decreases j
  {
    hide Evaluated;
    if from < j {
      TallyBelow(views, from, j - 1, limit, q);
      assert !Full(views, from, j, limit, q);
    }
  }

  /** A read fails only over a view whose condition or filter cannot be evaluated. */
  lemma {:induction false} ReadFails(views: seq<View>, i: nat, limit: nat, scanned: nat, bytes: nat, q: Request)
    requires Valid(q) && i <= |views| && Walk(views, i, limit, scanned, bytes, q).Err?
    ensures exists k :: i <= k < |views| && Fails(q, views[k])
    decreases |views| - i
  {
    hide Judge, Fails;
    JudgeExact(q, views[i]);
    match Judge(q, views[i])
    case Fail => assert Fails(q, views[i]);
    case Skip => ReadFails(views, i + 1, limit, scanned, bytes, q);
    case _ => ReadFails(views, i + 1, limit, scanned + 1, bytes + views[i].size, q);
  }

  /** The matches of a list are the views that meet segment, key condition and filter, in order. */
  lemma {:induction false} MatchingExact(views: seq<View>, q: Request) returns (at: seq<nat>)
    requires Valid(q)
    ensures Picked(views, 0, |views|, q, at, Matching(views, q))
  {
    hide Wanted, Picked, Matching;
    if views == [] {
      at := [];
      NothingPicked(q);
    } else {
      var m := |views| - 1;
      var some := views[..m];
      at := MatchingExact(some, q);
      MatchingSnoc(views, q);
      assert some[..m] == some;
      PickedLonger(views, m, q, at, Matching(some, q));
      PickedMore(views, 0, m, q, at, Matching(some, q));
      at := if Wanted(q, views[m]) then at + [m] else at;
    }
  }

  lemma NothingPicked(q: Request)
    requires Valid(q)
    ensures Picked([], 0, 0, q, [], Matching([], q))
  {
  }

  lemma MatchingSnoc(views: seq<View>, q: Request)
    requires Valid(q) && views != []
    ensures var m := |views| - 1;
      Matching(views, q) == if Wanted(q, views[m]) then Matching(views[..m], q) + [views[m]] else Matching(views[..m], q)
  {
    hide Judge, Wanted;
    var m := |views| - 1;
    JudgeExact(q, views[m]);
    MatchingSplits(views[..m], [views[m]], q);
    assert views[..m] + [views[m]] == views && [views[m]][1..] == [];
    assert Matching(views[..m], q) + [] == Matching(views[..m], q);
  }

  /** A view is among the matches exactly when it is listed, of the segment asked for, and both conditions hold of it. */
  lemma MatchingWanted(views: seq<View>, q: Request, v: View)
    requires Valid(q)
    ensures v in Matching(views, q) <==>
      v in views && (q.segment.None? || q.hash(v.id) % q.total == q.segment.value) &&
      q.condition(v) == Ok(true) && q.filter(v) == Ok(true)
  {
    hide Judge;
    MatchingHas(views, q, v);
    JudgeExact(q, v);
  }

  lemma PickedLonger(views: seq<View>, m: nat, q: Request, at: seq<nat>, out: seq<View>)
    requires Valid(q) && m <= |views| && Picked(views[..m], 0, m, q, at, out)
    ensures Picked(views, 0, m, q, at, out)
  {
    hide Wanted;
    forall k: nat | k < m && Wanted(q, views[k]) ensures k in at {
      assert views[..m][k] == views[k];
    }
  }

  // ---------------------------------------------------------------- following the pages

  /** The views a request is to return, in walk order. */
  function Matching(views: seq<View>, q: Request): seq<View>
    requires Valid(q)
  {
    if views == [] then []
    else (if Judge(q, views[0]) == Keep then [views[0]] else []) + Matching(views[1..], q)
  }

  predicate NoFailure(views: seq<View>, q: Request)
    requires Valid(q)
  {
    forall i :: 0 <= i < |views| ==> Judge(q, views[i]) != Fail
  }

  lemma {:induction false} MatchingSplits(a: seq<View>, b: seq<View>, q: Request)
    requires Valid(q)
    ensures Matching(a + b, q) == Matching(a, q) + Matching(b, q)
  {
    hide Judge;
    if a == [] {
      assert a + b == b;
    } else {
      assert (a + b)[1..] == a[1..] + b;
      MatchingSplits(a[1..], b, q);
    }
  }

  /** Where a page stops: at position `j`, with the key of that view, or at the end of the list. */
  predicate StopsAt(views: seq<View>, i: nat, page: Page, j: nat, q: Request)
    requires Valid(q) && i <= |views|
  {
    i <= j <= |views| && page.items == Matching(views[i..j], q) &&
    if page.last.None? then j == |views| else i < j < |views| && page.last.value == views[j - 1].key
  }

  /** A page holds exactly the matches of the stretch it walked; it stops short only after evaluating something. */
  lemma {:induction false} PageExact(views: seq<View>, i: nat, limit: nat, scanned: nat, bytes: nat, q: Request)
    returns (j: nat)
    requires Valid(q) && i <= |views| && NoFailure(views[i..], q)
    ensures Walk(views, i, limit, scanned, bytes, q).Ok?
    ensures StopsAt(views, i, Walk(views, i, limit, scanned, bytes, q).value, j, q)
    decreases |views| - i
  {
    hide Judge;
    if i == |views| {
      j := i;
      assert views[i..j] == [];
      return;
    }
    var v := views[i];
    assert views[i..][0] == v && views[i..][1..] == views[i + 1..];
    var counts := Judge(q, v) != Skip;
    if counts && (scanned + 1 >= limit || bytes + v.size >= q.cap) && i + 1 < |views| {
      j := i + 1;
      assert views[i..j] == [v] && [v][1..] == [];
      assert Matching([v], q) == if Judge(q, v) == Keep then [v] else [];
    } else {
      NoFailureRest(views, i, q);
      j := PageExact(views, i + 1, limit, if counts then scanned + 1 else scanned, if counts then bytes + v.size else bytes, q);
      assert views[i..j][0] == v && views[i..j][1..] == views[i + 1..j];
    }
  }

  lemma NoFailureRest(views: seq<View>, i: nat, q: Request)
    requires Valid(q) && i < |views| && NoFailure(views[i..], q)
    ensures NoFailure(views[i + 1..], q)
  {
    hide Judge;
    var rest := views[i + 1..];
    forall k | 0 <= k < |rest| ensures Judge(q, rest[k]) != Fail {
      assert rest[k] == views[i..][k + 1];
    }
  }

  /**
   A client that keeps asking until no key comes back, each time with any limit it likes: `pages` are the answers, page
   n being read from where the key of page n - 1 leads.
   */
  ghost predicate Follows(
    views: seq<View>, from: nat, limits: seq<nat>, pages: seq<Page>, reverse: bool, schema: Key, q: Request)
    requires Ordered(views, reverse, schema) && Valid(q) && from <= |views|
    decreases |pages|
  {
    |pages| == |limits| > 0 && Walk(views, from, LimitOf(limits[0], views), 0, 0, q) == Ok(pages[0]) &&
    if |pages| == 1 then pages[0].last.None?
    else
      pages[0].last.Some? && Alike(pages[0].last.value, schema) &&
      exists next: nat :: next <= |views| && StartsAt(views, pages[0].last.value, reverse, schema, next) &&
                          Follows(views, next, limits[1..], pages[1..], reverse, schema, q)
  }

  function Joined(pages: seq<Page>): seq<View> {
    if pages == [] then [] else pages[0].items + Joined(pages[1..])
  }

  /** The pages put together are exactly the matches, each once, in order, whatever the limits and the cap. */
  lemma {:induction false} PagesComplete(
    views: seq<View>, from: nat, limits: seq<nat>, pages: seq<Page>, reverse: bool, schema: Key, q: Request)
    requires Ordered(views, reverse, schema) && Sorted(views, reverse, schema)
    requires Valid(q) && from <= |views| && NoFailure(views[from..], q)
    requires Follows(views, from, limits, pages, reverse, schema, q)
    ensures Joined(pages) == Matching(views[from..], q)
    ensures |pages| <= |views| - from + 1
    decreases |pages|
  {
    hide Judge, Sorted, Ordered, StartsAt, Walk, Alike, Uniform;
    OrderedUniform(views, reverse, schema);
    var j := PageExact(views, from, LimitOf(limits[0], views), 0, 0, q);
    var page := pages[0];
    if |pages| == 1 {
      assert views[from..j] == views[from..];
      assert pages[1..] == [] && page.items + [] == page.items;
    } else {
      StartAfterSorted(views, reverse, schema, j - 1);
      var next: nat :| next <= |views| && StartsAt(views, page.last.value, reverse, schema, next) &&
                       Follows(views, next, limits[1..], pages[1..], reverse, schema, q);
      StartUnique(views, page.last.value, reverse, schema, next, j);
      NoFailureFrom(views, from, j, q);
      PagesComplete(views, j, limits[1..], pages[1..], reverse, schema, q);
      assert views[from..] == views[from..j] + views[j..];
      MatchingSplits(views[from..j], views[j..], q);
    }
  }

  lemma {:induction false} NoFailureFrom(views: seq<View>, i: nat, j: nat, q: Request)
    requires Valid(q) && i <= j <= |views| && NoFailure(views[i..], q)
    ensures NoFailure(views[j..], q)
    decreases j - i
  {
    hide NoFailure;
    if i < j {
      NoFailureRest(views, i, q);
      NoFailureFrom(views, i + 1, j, q);
    }
  }

  /** There is a position to resume at, after the last view with the start key. */
  lemma {:induction false} StartExists(views: seq<View>, start: Key, reverse: bool, schema: Key, n: nat) returns (r: nat)
    requires Ordered(views, reverse, schema) && Alike(start, schema) && n <= |views|
    requires forall i :: n <= i < |views| ==> After(views[i], start, reverse, schema)
    ensures StartsAt(views, start, reverse, schema, r)
  {
    hide Less;
    if n == 0 || !After(views[n - 1], start, reverse, schema) {
      forall i | 0 <= i < n ensures !After(views[i], start, reverse, schema) {
        AfterLater(views, start, reverse, schema, i, n - 1);
      }
      r := n;
    } else {
      r := StartExists(views, start, reverse, schema, n - 1);
    }
  }

  /** Resuming after a view passes at least that view, and every other one with an equal key. */
  lemma StartPasses(views: seq<View>, reverse: bool, schema: Key, i: nat, j: nat, r: nat)
    requires Ordered(views, reverse, schema) && i < |views| && j < |views| && (j <= i || views[j].key == views[i].key)
    requires StartsAt(views, views[i].key, reverse, schema, r)
    ensures r > j
  {
    hide Less;
    BeforeOrder(views[i].key, views[j].key, views[j].key, reverse);
    assert j < i ==> !Before(views[i].key, views[j].key, reverse);
    assert !After(views[j], views[i].key, reverse, schema);
  }

  lemma OrderedAlike(views: seq<View>, reverse: bool, schema: Key, i: nat)
    requires Ordered(views, reverse, schema) && i < |views|
    ensures Alike(views[i].key, schema)
  {
  }

  /** Such a client always finishes: for any limit there are pages that end. */
  lemma {:induction false} PagesEnd(views: seq<View>, from: nat, limit: nat, reverse: bool, schema: Key, q: Request)
    returns (limits: seq<nat>, pages: seq<Page>)
    requires Ordered(views, reverse, schema) && Valid(q) && from <= |views| && NoFailure(views[from..], q)
    ensures Follows(views, from, limits, pages, reverse, schema, q) && forall i :: 0 <= i < |limits| ==> limits[i] == limit
    decreases |views| - from
  {
    hide Judge, Ordered, StartsAt, Walk, Alike, After;
    OrderedUniform(views, reverse, schema);
    var j := PageExact(views, from, LimitOf(limit, views), 0, 0, q);
    var page := Walk(views, from, LimitOf(limit, views), 0, 0, q).value;
    if page.last.None? {
      return [limit], [page];
    }
    OrderedAlike(views, reverse, schema, j - 1);
    var next := StartExists(views, views[j - 1].key, reverse, schema, |views|);
    StartPasses(views, reverse, schema, j - 1, j - 1, next);
    StartInside(views, views[j - 1].key, reverse, schema, next);
    NoFailureFrom(views, from, next, q);
    var ls, ps := PagesEnd(views, next, limit, reverse, schema, q);
    limits, pages := [limit] + ls, [page] + ps;
    assert limits[1..] == ls && pages[1..] == ps;
  }

  // -- Exactly when nothing is lost.

  /** Every read from the start, with whatever limits, cap, condition and filter, returns all the matches. */
  ghost predicate NeverLoses(views: seq<View>, reverse: bool, schema: Key)
    requires Ordered(views, reverse, schema)
  {
    forall limits, pages, q ::
      Valid(q) && NoFailure(views, q) && Follows(views, 0, limits, pages, reverse, schema, q) ==>
        Joined(pages) == Matching(views, q)
  }

  /** A plain scan. */
  function Everything(): Request {
    Request(None, 1, 1, _ => Ok(true), _ => Ok(true), _ => 0)
  }

  lemma {:induction false} EverythingMatches(views: seq<View>)
    ensures NoFailure(views, Everything()) && Matching(views, Everything()) == views
  {
    if views != [] {
      EverythingMatches(views[1..]);
      assert [views[0]] + views[1..] == views;
    }
  }

  /** The page read from `from` with limit 1. */
  lemma OneView(views: seq<View>, from: nat, page: Page)
    requires from + 1 < |views| && Walk(views, from, 1, 0, 0, Everything()) == Ok(page)
    ensures page.items == [views[from]] && page.last == Some(views[from].key)
  {
    assert Judge(Everything(), views[from]) == Keep;
  }

  /** Read one by one, a list with two equal keys next to each other comes back shorter than it is. */
  lemma {:induction false} OneByOneLoses(
    views: seq<View>, from: nat, limits: seq<nat>, pages: seq<Page>, reverse: bool, schema: Key, i: nat)
    requires Ordered(views, reverse, schema) && from <= i && i + 1 < |views| && views[i].key == views[i + 1].key
    requires Follows(views, from, limits, pages, reverse, schema, Everything())
    requires forall k :: 0 <= k < |limits| ==> limits[k] == 1
    ensures |Joined(pages)| < |views| - from
    decreases |pages|
  {
    hide Judge, Ordered, StartsAt, Walk, Alike, After, Uniform;
    OrderedUniform(views, reverse, schema);
    OneView(views, from, pages[0]);
    var next: nat :| next <= |views| && StartsAt(views, views[from].key, reverse, schema, next) &&
                     Follows(views, next, limits[1..], pages[1..], reverse, schema, Everything());
    StartPasses(views, reverse, schema, from, from, next);
    if next <= i {
      OneByOneLoses(views, next, limits[1..], pages[1..], reverse, schema, i);
    } else {
      if from == i {
        StartPasses(views, reverse, schema, i, i + 1, next);
      }
      JoinedShort(views, next, limits[1..], pages[1..], reverse, schema);
    }
  }

  /** Reading one by one never returns more than there is. */
  lemma {:induction false} JoinedShort(
    views: seq<View>, from: nat, limits: seq<nat>, pages: seq<Page>, reverse: bool, schema: Key)
    requires Ordered(views, reverse, schema) && from <= |views|
    requires Follows(views, from, limits, pages, reverse, schema, Everything())
    ensures |Joined(pages)| <= |views| - from
    decreases |pages|
  {
    hide Judge, Ordered, StartsAt, Walk, Alike, After, Uniform;
    OrderedUniform(views, reverse, schema);
    EverythingMatches(views[from..]);
    var j := PageExact(views, from, LimitOf(limits[0], views), 0, 0, Everything());
    EverythingMatches(views[from..j]);
    if |pages| > 1 {
      var next: nat :| next <= |views| && StartsAt(views, pages[0].last.value, reverse, schema, next) &&
                       Follows(views, next, limits[1..], pages[1..], reverse, schema, Everything());
      StartPasses(views, reverse, schema, j - 1, j - 1, next);
      JoinedShort(views, next, limits[1..], pages[1..], reverse, schema);
    } else {
      assert pages[1..] == [] && Joined(pages[1..]) == [];
    }
  }

  lemma TieLoses(views: seq<View>, reverse: bool, schema: Key, i: nat)
    requires Ordered(views, reverse, schema) && i + 1 < |views| && views[i].key == views[i + 1].key
    ensures !NeverLoses(views, reverse, schema)
  {
    hide Ordered, Follows;
    assert views[0..] == views;
    EverythingMatches(views);
    var limits, pages := PagesEnd(views, 0, 1, reverse, schema, Everything());
    OneByOneLoses(views, 0, limits, pages, reverse, schema, i);
    assert Joined(pages) != Matching(views, Everything());
  }

  /** An ordered list that is not in strict order has equal keys next to each other. */
  lemma Tied(views: seq<View>, reverse: bool, schema: Key) returns (i: nat)
    requires Ordered(views, reverse, schema) && !Sorted(views, reverse, schema)
    ensures i + 1 < |views| && views[i].key == views[i + 1].key
  {
    hide Less;
    forall a, b | 0 <= a < b < |views| ensures Alike(views[a].key, views[b].key) {
    }
    var a, b :| 0 <= a < b < |views| && !Before(views[a].key, views[b].key, reverse);
    i := a;
    assert Alike(views[a].key, views[a + 1].key);
    assert !Before(views[a + 1].key, views[a].key, reverse);
    assert b > a + 1 ==> !Before(views[b].key, views[a + 1].key, reverse);
    BeforeOrder(views[a].key, views[a + 1].key, views[b].key, reverse);
    BeforeOrder(views[a + 1].key, views[b].key, views[b].key, reverse);
  }

  /** Reading a list page by page loses nothing, whatever the limits, exactly if no two keys compare as equal. */
  lemma CompleteExact(views: seq<View>, reverse: bool, schema: Key)
    requires Ordered(views, reverse, schema)
    ensures NeverLoses(views, reverse, schema) <==> Sorted(views, reverse, schema)
  {
    hide Ordered, Sorted, Follows;
    if Sorted(views, reverse, schema) {
      assert views[0..] == views;
      forall limits, pages, q | Valid(q) && NoFailure(views, q) && Follows(views, 0, limits, pages, reverse, schema, q)
        ensures Joined(pages) == Matching(views, q)
      {
        PagesComplete(views, 0, limits, pages, reverse, schema, q);
      }
    } else {
      var i := Tied(views, reverse, schema);
      TieLoses(views, reverse, schema, i);
    }
  }

  /** Reading a table or index page by page loses nothing exactly if no two of its stored keys read alike. */
  lemma StoredCompleteExact(views: seq<View>, kinds: seq<string>, decode: string -> Option<string>, reverse: bool)
    requires Collected(views, kinds, decode, reverse)
    ensures NeverLoses(views, reverse, SchemaOf(kinds)) <==> Distinguished(views, kinds, decode)
  {
    hide Ordered, Sorted, NeverLoses, StoredKey, OrderOf, SchemaOf;
    SortedExact(views, kinds, decode, reverse);
    CompleteExact(views, reverse, SchemaOf(kinds));
  }

  function Binary(text: string): Json { Attributes.Obj(map["B" := Attributes.Str(text)]) }

  /** Such a table: base64 readers that ignore the bits after the last byte read "YQ==" and "YR==" alike. */
  lemma BinaryKeysLost(decode: string -> Option<string>)
    requires decode("YQ==") == decode("YR==") == Some("a")
    ensures var a, b := [Binary("YQ==")], [Binary("YR==")];
      var views := [View(a, OrderOf(a, decode), "a", 1, 0), View(b, OrderOf(b, decode), "b", 1, 0)];
      Collected(views, ["B"], decode, false) && a != b && !NeverLoses(views, false, SchemaOf(["B"]))
  {
    hide Less, NeverLoses, PartOf;
    var a, b := [Binary("YQ==")], [Binary("YR==")];
    var views := [View(a, OrderOf(a, decode), "a", 1, 0), View(b, OrderOf(b, decode), "b", 1, 0)];
    assert "YQ==" != "YR==";
    assert OfKind(a[0], "B") && OfKind(b[0], "B");
    hide OfKind;
    assert ReadsAlike(a[0], b[0], "B", decode);
    assert StoredKey(a, ["B"]) && StoredKey(b, ["B"]);
    OrderTie(a, b, ["B"], decode);
    BeforeOrder(views[0].key, views[0].key, views[0].key, false);
    assert Collected(views, ["B"], decode, false);
    TieLoses(views, false, SchemaOf(["B"]), 0);
  }

  // ---------------------------------------------------------------- following the pages of a changing table

  /** The view comes after the start key, if there is one. */
  predicate Past(start: Option<Key>, v: View, reverse: bool, schema: Key) {
    Alike(v.key, schema) &&
    (start.Some? ==> Alike(start.value, schema) && AlikeBefore(start.value, v.key, reverse))
  }

  predicate AlikeBefore(a: Key, b: Key, reverse: bool) { Alike(a, b) && Before(a, b, reverse) }

  /** The same client while the table changes: page n is read from snapshot n. */
  ghost predicate Pursues(
    snaps: seq<seq<View>>, start: Option<Key>, limits: seq<nat>, pages: seq<Page>, reverse: bool, schema: Key, q: Request)
    requires Valid(q)
    decreases |pages|
  {
    |snaps| == |pages| == |limits| > 0 && NoFailure(snaps[0], q) &&
    (exists from: nat :: Resumes(snaps[0], start, reverse, schema, from) &&
                         Walk(snaps[0], from, LimitOf(limits[0], snaps[0]), 0, 0, q) == Ok(pages[0])) &&
    if |pages| == 1 then pages[0].last.None?
    else pages[0].last.Some? && Pursues(snaps[1..], pages[0].last, limits[1..], pages[1..], reverse, schema, q)
  }

  lemma {:induction false} MatchingHas(views: seq<View>, q: Request, v: View)
    requires Valid(q)
    ensures v in Matching(views, q) <==> v in views && Judge(q, v) == Keep
  {
    hide Judge;
    if views != [] {
      MatchingHas(views[1..], q, v);
      assert views == [views[0]] + views[1..];
    }
  }

  /** The stretch a page walked: it starts right after the start key and ends with the key handed back. */
  lemma PageStretch(
    views: seq<View>, start: Option<Key>, limit: nat, page: Page, reverse: bool, schema: Key, q: Request)
    returns (from: nat, j: nat)
    requires Valid(q) && NoFailure(views, q)
    requires exists i: nat :: Resumes(views, start, reverse, schema, i) && Walk(views, i, limit, 0, 0, q) == Ok(page)
    ensures Resumes(views, start, reverse, schema, from) && StopsAt(views, from, page, j, q)
  {
    hide Judge, Walk, StartsAt, Ordered;
    from :| Resumes(views, start, reverse, schema, from) && Walk(views, from, limit, 0, 0, q) == Ok(page);
    assert views[0..] == views;
    NoFailureFrom(views, 0, from, q);
    j := PageExact(views, from, limit, 0, 0, q);
  }

  lemma PastAt(views: seq<View>, start: Option<Key>, reverse: bool, schema: Key, from: nat, p: nat)
    requires Resumes(views, start, reverse, schema, from) && p < |views|
    ensures Past(start, views[p], reverse, schema) <==> from <= p
  {
    hide Less;
    if start.Some? {
      assert After(views[p], start.value, reverse, schema) <==> from <= p;
      BeforeOrder(start.value, schema, views[p].key, reverse);
    }
  }

  lemma PastLast(views: seq<View>, reverse: bool, schema: Key, j: nat, p: nat)
    requires Ordered(views, reverse, schema) && 0 < j <= p < |views| && views[j - 1].key != views[p].key
    ensures Past(Some(views[j - 1].key), views[p], reverse, schema)
  {
    hide Less;
    assert Alike(views[p].key, views[j - 1].key) && !Before(views[p].key, views[j - 1].key, reverse);
    BeforeOrder(views[p].key, views[j - 1].key, views[j - 1].key, reverse);
  }

  /** In every snapshot `v` is the only view with its key. */
  predicate Unrivalled(snaps: seq<seq<View>>, v: View) {
    forall n, i :: 0 <= n < |snaps| && 0 <= i < |snaps[n]| && snaps[n][i].key == v.key ==> snaps[n][i] == v
  }

  lemma UnrivalledLater(snaps: seq<seq<View>>, v: View)
    requires snaps != [] && Unrivalled(snaps, v) && forall n :: 0 <= n < |snaps| ==> v in snaps[n]
    ensures Unrivalled(snaps[1..], v) && forall n :: 0 <= n < |snaps[1..]| ==> v in snaps[1..][n]
  {
    var rest := snaps[1..];
    assert forall n :: 0 <= n < |rest| ==> rest[n] == snaps[n + 1];
  }

  /**
   A match that was there all the time, and whose key no other item's key compares equal to, is returned, whatever else
   was put or deleted meanwhile.
   */
  lemma {:induction false} PursuitMissesNothing(
    snaps: seq<seq<View>>, start: Option<Key>, limits: seq<nat>, pages: seq<Page>, reverse: bool, schema: Key, q: Request,
    v: View)
    requires Valid(q) && Pursues(snaps, start, limits, pages, reverse, schema, q)
    requires Unrivalled(snaps, v)
    requires Past(start, v, reverse, schema) && Judge(q, v) == Keep && forall n :: 0 <= n < |snaps| ==> v in snaps[n]
    ensures v in Joined(pages)
    decreases |pages|
  {
    hide Judge, Walk, Past, Resumes, NoFailure, Ordered;
    var views := snaps[0];
    var from, j := PageStretch(views, start, LimitOf(limits[0], views), pages[0], reverse, schema, q);
    var p :| 0 <= p < |views| && views[p] == v;
    PastAt(views, start, reverse, schema, from, p);
    ResumesOrdered(views, start, reverse, schema, from);
    if p < j {
      MatchingHas(views[from..j], q, v);
      assert views[from..j][p - from] == v;
    } else if views[j - 1].key == v.key {
      MatchingHas(views[from..j], q, v);
      assert views[from..j][j - 1 - from] == v;
    } else {
      PastLast(views, reverse, schema, j, p);
      UnrivalledLater(snaps, v);
      PursuitMissesNothing(snaps[1..], pages[0].last, limits[1..], pages[1..], reverse, schema, q, v);
    }
  }

  lemma ResumesOrdered(views: seq<View>, start: Option<Key>, reverse: bool, schema: Key, from: nat)
    requires Resumes(views, start, reverse, schema, from)
    ensures Ordered(views, reverse, schema)
  {
  }

  predicate AllPast(start: Option<Key>, items: seq<View>, reverse: bool, schema: Key) {
    forall i :: 0 <= i < |items| ==> Past(start, items[i], reverse, schema)
  }

  /** In no snapshot is a view listed twice. */
  predicate Listed(snaps: seq<seq<View>>) { forall n :: 0 <= n < |snaps| ==> Attributes.Distinct(snaps[n]) }

  /** Nothing is returned twice, and the keys come in walk order across pages too. */
  lemma {:induction false} PursuitInOrder(
    snaps: seq<seq<View>>, start: Option<Key>, limits: seq<nat>, pages: seq<Page>, reverse: bool, schema: Key, q: Request)
    requires Valid(q) && Pursues(snaps, start, limits, pages, reverse, schema, q) && Listed(snaps)
    ensures Ordered(Joined(pages), reverse, schema) && AllPast(start, Joined(pages), reverse, schema)
    ensures Attributes.Distinct(Joined(pages))
    decreases |pages|
  {
    hide Judge, Walk, Past, Resumes, NoFailure, Ordered, AllPast, Attributes.Distinct;
    var views := snaps[0];
    var from, j := PageStretch(views, start, LimitOf(limits[0], views), pages[0], reverse, schema, q);
    StretchInOrder(views, start, reverse, schema, from, j, q);
    if |pages| == 1 {
      assert pages[0].items + [] == pages[0].items && pages[1..] == [];
    } else {
      PursuitInOrder(snaps[1..], pages[0].last, limits[1..], pages[1..], reverse, schema, q);
      LaterPast(views, start, reverse, schema, from, j, Joined(pages[1..]));
      JoinInOrder(views, start, reverse, schema, from, j, q, Joined(pages[1..]));
    }
  }

  lemma {:induction false} MatchingOrdered(views: seq<View>, reverse: bool, schema: Key, q: Request)
    requires Valid(q) && Ordered(views, reverse, schema) && Attributes.Distinct(views)
    ensures Ordered(Matching(views, q), reverse, schema) && Attributes.Distinct(Matching(views, q))
  {
    hide Judge, Ordered, Attributes.Distinct, AlikeNotBefore;
    if views == [] {
    } else {
      var v, rest, kept := views[0], views[1..], Matching(views[1..], q);
      FirstApart(views, reverse, schema);
      MatchingOrdered(rest, reverse, schema, q);
      forall k | 0 <= k < |kept| ensures AlikeNotBefore(kept[k].key, v.key, reverse) && kept[k] != v {
        MatchingHas(rest, q, kept[k]);
      }
      Appended([v], kept, reverse, schema);
      assert [] + kept == kept;
    }
  }

  lemma FirstApart(views: seq<View>, reverse: bool, schema: Key)
    requires views != [] && Ordered(views, reverse, schema) && Attributes.Distinct(views)
    ensures Ordered(views[1..], reverse, schema) && Attributes.Distinct(views[1..])
    ensures Ordered([views[0]], reverse, schema) && Attributes.Distinct([views[0]])
    ensures forall v :: v in views[1..] ==> AlikeNotBefore(v.key, views[0].key, reverse) && v != views[0]
  {
    hide Before;
    var rest := views[1..];
    assert forall i :: 0 <= i < |rest| ==> rest[i] == views[i + 1];
  }

  lemma StretchInOrder(
    views: seq<View>, start: Option<Key>, reverse: bool, schema: Key, from: nat, j: nat, q: Request)
    requires Valid(q) && Resumes(views, start, reverse, schema, from) && Attributes.Distinct(views) && from <= j <= |views|
    ensures Ordered(Matching(views[from..j], q), reverse, schema)
    ensures Attributes.Distinct(Matching(views[from..j], q))
    ensures AllPast(start, Matching(views[from..j], q), reverse, schema)
  {
    hide Judge, Less, Past, Matching, Resumes;
    var some := views[from..j];
    ResumesOrdered(views, start, reverse, schema, from);
    assert forall i :: 0 <= i < |some| ==> some[i] == views[from + i];
    MatchingOrdered(some, reverse, schema, q);
    var kept := Matching(some, q);
    forall i | 0 <= i < |kept| ensures Past(start, kept[i], reverse, schema) {
      MatchingHas(some, q, kept[i]);
      var p :| 0 <= p < |some| && some[p] == kept[i];
      PastAt(views, start, reverse, schema, from, from + p);
    }
  }

  /** What comes after the last key of a stretch comes after its start. */
  lemma LaterPast(
    views: seq<View>, start: Option<Key>, reverse: bool, schema: Key, from: nat, j: nat, later: seq<View>)
    requires Resumes(views, start, reverse, schema, from) && from < j <= |views|
    requires AllPast(Some(views[j - 1].key), later, reverse, schema)
    ensures AllPast(start, later, reverse, schema)
  {
    hide Less, Resumes;
    PastAt(views, start, reverse, schema, from, j - 1);
    forall i | 0 <= i < |later| ensures Past(start, later[i], reverse, schema) {
      assert Past(Some(views[j - 1].key), later[i], reverse, schema);
      if start.Some? {
        BeforeOrder(start.value, views[j - 1].key, later[i].key, reverse);
      }
    }
  }

  /** A later view is another one than any of the stretch, and not before it. */
  lemma LaterApart(views: seq<View>, reverse: bool, schema: Key, j: nat, p: nat, v: View)
    requires Ordered(views, reverse, schema) && p < j <= |views| && Past(Some(views[j - 1].key), v, reverse, schema)
    ensures AlikeNotBefore(v.key, views[p].key, reverse) && v != views[p]
  {
    hide Less;
    var last, key := views[j - 1].key, views[p].key;
    BeforeOrder(last, last, last, reverse);
    assert p < j - 1 ==> Alike(last, key) && !Before(last, key, reverse);
    BeforeOrder(last, v.key, key, reverse);
  }

  lemma JoinInOrder(
    views: seq<View>, start: Option<Key>, reverse: bool, schema: Key, from: nat, j: nat, q: Request, later: seq<View>)
    requires Valid(q) && Resumes(views, start, reverse, schema, from) && from < j <= |views|
    requires Ordered(Matching(views[from..j], q), reverse, schema) && Ordered(later, reverse, schema)
    requires Attributes.Distinct(Matching(views[from..j], q)) && Attributes.Distinct(later)
    requires AllPast(start, Matching(views[from..j], q), reverse, schema) && AllPast(start, later, reverse, schema)
    requires AllPast(Some(views[j - 1].key), later, reverse, schema)
    ensures Ordered(Matching(views[from..j], q) + later, reverse, schema)
    ensures Attributes.Distinct(Matching(views[from..j], q) + later)
    ensures AllPast(start, Matching(views[from..j], q) + later, reverse, schema)
  {
    hide Judge, Less, Matching, Resumes, Before, Past;
    var now := Matching(views[from..j], q);
    ResumesOrdered(views, start, reverse, schema, from);
    forall i, k | 0 <= i < |now| && 0 <= k < |later|
      ensures AlikeNotBefore(later[k].key, now[i].key, reverse) && later[k] != now[i]
    {
      MatchingHas(views[from..j], q, now[i]);
      var p :| from <= p < j && views[p] == now[i];
      assert Past(Some(views[j - 1].key), later[k], reverse, schema);
      LaterApart(views, reverse, schema, j, p, later[k]);
    }
    Appended(now, later, reverse, schema);
  }

  lemma Appended(now: seq<View>, later: seq<View>, reverse: bool, schema: Key)
    requires Ordered(now, reverse, schema) && Ordered(later, reverse, schema)
    requires Attributes.Distinct(now) && Attributes.Distinct(later)
    requires forall i, k :: 0 <= i < |now| && 0 <= k < |later| ==>
      AlikeNotBefore(later[k].key, now[i].key, reverse) && later[k] != now[i]
    ensures Ordered(now + later, reverse, schema) && Attributes.Distinct(now + later)
  {
    hide Before;
    var all := now + later;
    forall i, k | 0 <= i < k < |all| ensures AlikeNotBefore(all[k].key, all[i].key, reverse) && all[i] != all[k] {
      if i < |now| <= k {
        assert AlikeNotBefore(later[k - |now|].key, now[i].key, reverse);
      }
    }
  }

  // ---------------------------------------------------------------- parallel scans

  /** What every segment of a parallel scan returns, put together. */
  function Segments(views: seq<View>, q: Request, n: nat): multiset<View>
    requires n <= q.total
  {
    if n == 0 then multiset{} else Segments(views, q, n - 1) + multiset(Matching(views, q.(segment := Some(n - 1))))
  }

  function Whole(q: Request): Request { q.(segment := None, total := 0) }

  lemma {:induction false} SegmentsEmpty(q: Request, n: nat)
    requires n <= q.total
    ensures Segments([], q, n) == multiset{}
  {
    if n > 0 {
      SegmentsEmpty(q, n - 1);
    }
  }

  function Once(v: View, wanted: bool): multiset<View> { if wanted then multiset{v} else multiset{} }

  /** The view is a match, and of a segment from `a` up to `b`. */
  predicate MatchBetween(v: View, q: Request, a: nat, b: nat)
    requires q.total > 0
  {
    Judge(Whole(q), v) == Keep && a <= SegmentOf(q, v) < b
  }

  /** One more view reaches its own segment and no other. */
  lemma {:induction false} SegmentsStep(v: View, rest: seq<View>, q: Request, n: nat)
    requires n <= q.total && q.total > 0 && Judge(Whole(q), v) != Fail
    ensures Segments([v] + rest, q, n) == Segments(rest, q, n) + Once(v, MatchBetween(v, q, 0, n))
  {
    hide Judge, SegmentOf, Matching, Segments, Once;
    SegmentsUnfold([v] + rest, q, n);
    SegmentsUnfold(rest, q, n);
    if n > 0 {
      SegmentsStep(v, rest, q, n - 1);
      OneSegment(v, rest, q, n - 1);
      Shuffle(Segments(rest, q, n - 1), Once(v, MatchBetween(v, q, 0, n - 1)),
              multiset(Matching(rest, q.(segment := Some(n - 1)))), Once(v, MatchBetween(v, q, n - 1, n)));
      OnceMore(v, q, n);
    } else {
      Never(v);
    }
  }

  lemma Never(v: View)
    ensures Once(v, false) == multiset{}
  {
  }

  lemma OnceMore(v: View, q: Request, n: nat)
    requires q.total > 0 && n > 0
    ensures Once(v, MatchBetween(v, q, 0, n - 1)) + Once(v, MatchBetween(v, q, n - 1, n)) == Once(v, MatchBetween(v, q, 0, n))
  {
    hide Judge, SegmentOf;
  }

  lemma SegmentsUnfold(views: seq<View>, q: Request, n: nat)
    requires n <= q.total
    ensures Segments(views, q, n) == if n == 0 then multiset{} else
      Segments(views, q, n - 1) + multiset(Matching(views, q.(segment := Some(n - 1))))
  {
    hide Matching;
  }

  lemma OneSegment(v: View, rest: seq<View>, q: Request, s: nat)
    requires s < q.total
    ensures var one := q.(segment := Some(s));
      multiset(Matching([v] + rest, one)) == multiset(Matching(rest, one)) + Once(v, MatchBetween(v, q, s, s + 1))
  {
    hide Judge, SegmentOf, Matching, Whole;
    JudgeSegment(q, v, s);
    MatchingStep(v, rest, q.(segment := Some(s)));
  }

  lemma Shuffle(a: multiset<View>, b: multiset<View>, c: multiset<View>, d: multiset<View>)
    ensures a + b + (c + d) == a + c + (b + d)
  {
  }

  lemma MatchingStep(v: View, rest: seq<View>, q: Request)
    requires Valid(q)
    ensures multiset(Matching([v] + rest, q)) ==
      multiset(Matching(rest, q)) + if Judge(q, v) == Keep then multiset{v} else multiset{}
  {
    hide Judge;
    assert ([v] + rest)[1..] == rest;
  }

  lemma JudgeSegment(q: Request, v: View, s: nat)
    requires s < q.total
    ensures Judge(q.(segment := Some(s)), v) == if SegmentOf(q, v) != s then Skip else Judge(Whole(q), v)
  {
  }

  /** The segments of a parallel scan share out the full scan: every match in exactly one of them, exactly once. */
  lemma {:induction false} SegmentsPartition(views: seq<View>, q: Request)
    requires q.total > 0 && NoFailure(views, Whole(q))
    ensures Segments(views, q, q.total) == multiset(Matching(views, Whole(q)))
  {
    hide Judge, SegmentOf;
    if views == [] {
      SegmentsEmpty(q, q.total);
    } else {
      var v, rest := views[0], views[1..];
      assert views == [v] + rest;
      NoFailureTail(views, q);
      SegmentsPartition(rest, q);
      SegmentsStep(v, rest, q, q.total);
      assert SegmentOf(q, v) < q.total;
    }
  }

  lemma NoFailureTail(views: seq<View>, q: Request)
    requires views != [] && NoFailure(views, Whole(q))
    ensures NoFailure(views[1..], Whole(q)) && Judge(Whole(q), views[0]) != Fail
  {
    hide Judge;
    var rest := views[1..];
    forall k | 0 <= k < |rest| ensures Judge(Whole(q), rest[k]) != Fail {
      assert rest[k] == views[k + 1];
    }
  }
}
