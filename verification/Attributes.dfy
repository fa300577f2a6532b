/**
 DynamoDB attribute values (internal/dynamodb/attr.go).  A value arrives as decoded JSON, so
 every shape a request can carry is a `Json` here, well formed or not.
 */
module Attributes {
  import opened Strings
  import opened Wrappers
  import D = Decimals

  datatype Json =
    | Null
    | Bool(flag: bool)
    | Num(text: string)
    | Str(str: string)
    | Arr(items: seq<Json>)
    | Obj(fields: map<string, Json>)

  type Item = map<string, Json>

  // ---------------------------------------------------------------- sets

  /** `text, _ := entry.(string)`: anything but a string reads as "". */
  function TextOf(j: Json): string {
    if j.Str? then j.str else ""
  }

  /** `list, _ := raw.([]any)`. */
  function ListOf(j: Json): seq<Json> {
    if j.Arr? then j.items else []
  }

  /** The text a set keeps for one entry. */
  function Member(kind: string, entry: Json): Result<string> {
    if kind == "NS" then D.Canonical(TextOf(entry)) else Ok(TextOf(entry))
  }

  predicate Distinct<T(==)>(s: seq<T>) {
    forall i, j :: 0 <= i < j < |s| ==> s[i] != s[j]
  }

  /** The number of a text, zero for one that has none. */
  function NumberOr0(s: string): real {
    if D.Read(s).Some? then D.Number(s) else 0.0
  }

  /** compareSetMembers(kind, a, b) < 0: numeric order for NS, byte order otherwise. */
  predicate Before(kind: string, a: string, b: string) {
    if kind == "NS" then NumberOr0(a) < NumberOr0(b) else TextLess(a, b)
  }

  function Insert(kind: string, x: string, s: seq<string>): seq<string> {
    if s == [] || Before(kind, x, s[0]) then [x] + s else [s[0]] + Insert(kind, x, s[1..])
  }

  /** sort.Slice with `Before`. */
  function Sort(kind: string, s: seq<string>): seq<string> {
    if s == [] then [] else Insert(kind, s[0], Sort(kind, s[1..]))
  }

  /** Every entry's text, or Err if one is not a number of an NS. */
  function Members(kind: string, list: seq<Json>): Result<seq<string>> {
    if forall i :: 0 <= i < |list| ==> Member(kind, list[i]).Ok? then
      Ok(seq(|list|, i requires 0 <= i < |list| => Member(kind, list[i]).value))
    else Err
  }

  function CanonicalSet(kind: string, list: seq<Json>): Result<seq<string>> {
    var texts := Members(kind, list);
    if list == [] || texts.Err? || !Distinct(texts.value) then Err
    else Ok(Sort(kind, texts.value))
  }

  // ---------------------------------------------------------------- values

  function Strs(s: seq<string>): (r: seq<Json>)
    ensures |r| == |s| && forall i :: 0 <= i < |s| ==> r[i] == Str(s[i])
  {
    seq(|s|, i requires 0 <= i < |s| => Str(s[i]))
  }

  predicate IsSetKind(kind: string) { kind == "SS" || kind == "NS" || kind == "BS" }

  predicate IsScalarKind(kind: string) { kind == "S" || kind == "B" || kind == "BOOL" || kind == "NULL" }

  /** canonicalizeAttr; a panic over a number too long to write ends a request like an error. */
  function Canonical(v: Json): (r: Result<Json>)
    decreases v, 1
  {
    if !v.Obj? || |v.fields| != 1 then Err
    else if "S" in v.fields || "B" in v.fields || "BOOL" in v.fields || "NULL" in v.fields then Ok(v)
    else if "N" in v.fields then
      var n := D.Canonical(TextOf(v.fields["N"]));
      if n.Err? then Err else Ok(Obj(map["N" := Str(n.value)]))
    else if "SS" in v.fields then CanonicalSetValue("SS", v.fields["SS"])
    else if "NS" in v.fields then CanonicalSetValue("NS", v.fields["NS"])
    else if "BS" in v.fields then CanonicalSetValue("BS", v.fields["BS"])
    else if "L" in v.fields then
      var list := v.fields["L"];
      if list.Arr? then CanonicalElements(list) else Ok(Obj(map["L" := Arr([])]))
    else if "M" in v.fields then
      var m := v.fields["M"];
      if m.Obj? then
        var out := CanonicalFields(m);
        if out.Err? then Err else Ok(Obj(map["M" := Obj(out.value)]))
      else Ok(Obj(map["M" := Null]))
    else Err
  }

  function CanonicalSetValue(kind: string, raw: Json): Result<Json> {
    var out := CanonicalSet(kind, ListOf(raw));
    if out.Err? then Err else Ok(Obj(map[kind := Arr(Strs(out.value))]))
  }

  /** The list branch of canonicalizeAttr. */
  function CanonicalElements(list: Json): Result<Json>
    requires list.Arr?
    decreases list, 0
  {
    var items := list.items;
    if forall i :: 0 <= i < |items| ==> Canonical(items[i]).Ok? then
      Ok(Obj(map["L" := Arr(seq(|items|, i requires 0 <= i < |items| => Canonical(items[i]).value))]))
    else Err
  }

  /** canonicalizeItem on the fields of an object. */
  function CanonicalFields(m: Json): Result<Item>
    requires m.Obj?
    decreases m, 0
  {
    if forall k :: k in m.fields ==> Canonical(m.fields[k]).Ok? then
      Ok(map k | k in m.fields :: Canonical(m.fields[k]).value)
    else Err
  }

  // ---------------------------------------------------------------- order and sorting

  /** A text an accepted set of this kind can hold. */
  predicate Stored(kind: string, s: string) {
    kind == "NS" ==> D.Canonical(s) == Ok(s)
  }

  ghost predicate AllStored(kind: string, s: seq<string>) {
    forall x :: x in s ==> Stored(kind, x)
  }

  /** `Before` is a strict total order on stored texts: numbers are compared by value, and a number has one text. */
  lemma BeforeTotal(kind: string, a: string, b: string)
    requires Stored(kind, a) && Stored(kind, b)
    ensures !Before(kind, a, a) && (a != b ==> Before(kind, a, b) != Before(kind, b, a))
  {
    hide D.Canonical, D.Read, D.Value;
    if kind == "NS" {
      NumberOfStored(a);
      NumberOfStored(b);
      D.CanonicalUnique(a, b);
    } else {
      TextOrder(a, b, a);
    }
  }

  lemma NumberOfStored(s: string)
    requires D.Canonical(s).Ok?
    ensures D.Read(s).Some? && NumberOr0(s) == D.Number(s)
  {
    hide D.Read, D.Value, D.Stored, D.Normalize;
  }

  lemma BeforeTransitive(kind: string, a: string, b: string, c: string)
    requires Before(kind, a, b) && Before(kind, b, c)
    ensures Before(kind, a, c)
  {
    hide D.Read, D.Value;
    if kind != "NS" {
      TextOrder(a, b, c);
    }
  }

  ghost predicate Sorted(kind: string, s: seq<string>) {
    forall i, j :: 0 <= i < j < |s| ==> Before(kind, s[i], s[j])
  }

  lemma {:induction false} InsertMembers(kind: string, x: string, s: seq<string>)
    ensures forall y :: y in Insert(kind, x, s) <==> y == x || y in s
    ensures |Insert(kind, x, s)| == |s| + 1
  {
    hide Before;
    if s != [] && !Before(kind, x, s[0]) {
      assert s == [s[0]] + s[1..];
      InsertMembers(kind, x, s[1..]);
    }
  }

  lemma ConsSorted(kind: string, x: string, s: seq<string>)
    requires Sorted(kind, s) && forall y :: y in s ==> Before(kind, x, y)
    ensures Sorted(kind, [x] + s)
  {
    hide Before;
  }

  lemma {:induction false} InsertSorted(kind: string, x: string, s: seq<string>)
    requires Sorted(kind, s) && Stored(kind, x) && AllStored(kind, s) && x !in s
    ensures Sorted(kind, Insert(kind, x, s))
  {
    hide Before, Stored;
    if s == [] {
    } else if Before(kind, x, s[0]) {
      forall y | y in s ensures Before(kind, x, y) {
        if y != s[0] {
          BeforeTransitive(kind, x, s[0], y);
        }
      }
      ConsSorted(kind, x, s);
    } else {
      var t := s[1..];
      InsertSorted(kind, x, t);
      InsertMembers(kind, x, t);
      BeforeTotal(kind, x, s[0]);
      ConsSorted(kind, s[0], Insert(kind, x, t));
    }
  }

  lemma {:induction false} SortMembers(kind: string, s: seq<string>)
    ensures forall y :: y in Sort(kind, s) <==> y in s
    ensures |Sort(kind, s)| == |s|
  {
    if s != [] {
      assert s == [s[0]] + s[1..];
      SortMembers(kind, s[1..]);
      InsertMembers(kind, s[0], Sort(kind, s[1..]));
    }
  }

  lemma {:induction false} SortSorts(kind: string, s: seq<string>)
    requires AllStored(kind, s) && Distinct(s)
    ensures Sorted(kind, Sort(kind, s))
  {
    hide Before, Stored;
    if s != [] {
      SortSorts(kind, s[1..]);
      SortMembers(kind, s[1..]);
      InsertSorted(kind, s[0], Sort(kind, s[1..]));
    }
  }

  lemma SortedTail(kind: string, s: seq<string>)
    requires s != [] && Sorted(kind, s) && Stored(kind, s[0])
    ensures Sorted(kind, s[1..]) && s[0] !in s[1..]
    ensures forall y :: y in s <==> y == s[0] || y in s[1..]
  {
    hide Before, Stored;
    BeforeTotal(kind, s[0], s[0]);
    assert s == [s[0]] + s[1..];
  }

  lemma EmptyOrMember(t: seq<string>)
    ensures t == [] || exists x :: x in t
  {
    if t != [] {
      assert t[0] in t;
    }
  }

  /** Sorted by a strict order and made of the same texts: the same sequence. */
  lemma {:induction false} SortedUnique(kind: string, s: seq<string>, t: seq<string>)
    requires AllStored(kind, s) && Sorted(kind, s) && Sorted(kind, t)
    requires forall x :: x in s <==> x in t
    ensures s == t
  {
    hide Before, Stored;
    if s == [] {
      EmptyOrMember(t);
    } else {
      SameHead(kind, s, t);
      SortedTail(kind, s);
      SortedTail(kind, t);
      SortedUnique(kind, s[1..], t[1..]);
      assert s == [s[0]] + s[1..] && t == [t[0]] + t[1..];
    }
  }

  lemma SameHead(kind: string, s: seq<string>, t: seq<string>)
    requires AllStored(kind, s) && Sorted(kind, s) && Sorted(kind, t) && s != []
    requires forall x :: x in s <==> x in t
    ensures t != [] && s[0] == t[0]
  {
    hide Before, Stored;
    assert s[0] in t && t[0] in s;
    if s[0] != t[0] {
      BeforeTotal(kind, s[0], t[0]);
    }
  }

  // ---------------------------------------------------------------- accepted sets

  /** The number an entry of a number set denotes. */
  function EntryNumber(entry: Json): real { NumberOr0(TextOf(entry)) }

  lemma MembersStored(kind: string, list: seq<Json>)
    requires Members(kind, list).Ok?
    ensures AllStored(kind, Members(kind, list).value)
  {
    hide D.Canonical;
    var texts := Members(kind, list).value;
    forall i | 0 <= i < |texts| ensures Stored(kind, texts[i]) {
      if kind == "NS" {
        D.CanonicalIdempotent(TextOf(list[i]));
      }
    }
  }

  /** Two entries of a number set have one text exactly when they are one number. */
  lemma SameMember(a: Json, b: Json)
    requires Member("NS", a).Ok? && Member("NS", b).Ok?
    ensures Member("NS", a) == Member("NS", b) <==> EntryNumber(a) == EntryNumber(b)
  {
    hide D.Canonical, D.Read, D.Value;
    NumberOfStored(TextOf(a));
    NumberOfStored(TextOf(b));
    D.CanonicalUnique(TextOf(a), TextOf(b));
  }

  /** A number set is accepted exactly when it is a non-empty list of pairwise different numbers. */
  lemma NumberSetAccepted(list: seq<Json>)
    ensures CanonicalSet("NS", list).Ok? <==>
      list != [] && (forall i :: 0 <= i < |list| ==> D.Canonical(TextOf(list[i])).Ok?) &&
      (forall i, j :: 0 <= i < j < |list| ==> EntryNumber(list[i]) != EntryNumber(list[j]))
  {
    hide D.Canonical, EntryNumber;
    if Members("NS", list).Ok? {
      var texts := Members("NS", list).value;
      forall i, j | 0 <= i < j < |list|
        ensures texts[i] == texts[j] <==> EntryNumber(list[i]) == EntryNumber(list[j])
      {
        SameMember(list[i], list[j]);
      }
    }
  }

  lemma SetResult(kind: string, list: seq<Json>)
    requires CanonicalSet(kind, list).Ok?
    ensures var out := CanonicalSet(kind, list).value;
      Sorted(kind, out) && AllStored(kind, out) && |out| == |list| &&
      forall x :: x in out <==> exists i :: 0 <= i < |list| && Member(kind, list[i]) == Ok(x)
  {
    hide Before, Stored, Member, Sort;
    var texts := Members(kind, list).value;
    MembersStored(kind, list);
    SortSorts(kind, texts);
    SortMembers(kind, texts);
    assert forall i :: 0 <= i < |list| ==> texts[i] == Member(kind, list[i]).value;
  }

  /**
   A canonical set lists the canonical members in ascending order: numbers by value, texts by the first character in which
   they differ.
   */
  lemma SetAscending(kind: string, list: seq<Json>)
    requires CanonicalSet(kind, list).Ok?
    ensures var s := CanonicalSet(kind, list).value;
      |s| == |list| && (forall x :: x in s <==> exists i :: 0 <= i < |list| && Member(kind, list[i]) == Ok(x)) &&
      forall i, j :: 0 <= i < j < |s| ==>
        if kind == "NS" then D.Read(s[i]).Some? && D.Read(s[j]).Some? && D.Number(s[i]) < D.Number(s[j])
        else Earlier(s[i], s[j])
  {
    hide CanonicalSet, Member, D.Canonical, D.Read, D.Number, Earlier, TextLess;
    SetResult(kind, list);
    var s := CanonicalSet(kind, list).value;
    forall i, j | 0 <= i < j < |s|
      ensures if kind == "NS" then D.Read(s[i]).Some? && D.Read(s[j]).Some? && D.Number(s[i]) < D.Number(s[j])
              else Earlier(s[i], s[j])
    {
      assert Before(kind, s[i], s[j]) && s[i] in s && s[j] in s;
      if kind == "NS" {
        NumberOfStored(s[i]);
        NumberOfStored(s[j]);
      } else {
        TextLessExact(s[i], s[j]);
      }
    }
  }

  /** The canonical set does not depend on the order of its members. */
  lemma SetOrderIrrelevant(kind: string, a: seq<Json>, b: seq<Json>)
    requires CanonicalSet(kind, a).Ok? && CanonicalSet(kind, b).Ok?
    requires forall e :: e in a <==> e in b
    ensures CanonicalSet(kind, a) == CanonicalSet(kind, b)
  {
    hide CanonicalSet, Before, Stored, Member;
    SetResult(kind, a);
    SetResult(kind, b);
    var x, y := CanonicalSet(kind, a).value, CanonicalSet(kind, b).value;
    forall t | t in x ensures t in y {
      var i :| 0 <= i < |a| && Member(kind, a[i]) == Ok(t);
      assert a[i] in b;
    }
    forall t | t in y ensures t in x {
      var i :| 0 <= i < |b| && Member(kind, b[i]) == Ok(t);
      assert b[i] in a;
    }
    SortedUnique(kind, x, y);
  }

  lemma SortedDistinct(kind: string, s: seq<string>)
    requires Sorted(kind, s) && AllStored(kind, s)
    ensures Distinct(s)
  {
    hide Before, Stored;
    forall i, j | 0 <= i < j < |s| ensures s[i] != s[j] {
      BeforeTotal(kind, s[i], s[j]);
    }
  }

  /** Canonical sets are fixed points. */
  lemma CanonicalSetFixed(kind: string, list: seq<Json>)
    requires CanonicalSet(kind, list).Ok?
    ensures CanonicalSet(kind, Strs(CanonicalSet(kind, list).value)) == CanonicalSet(kind, list)
  {
    hide Before, D.Canonical, Sort, Members;
    SetResult(kind, list);
    var out := CanonicalSet(kind, list).value;
    SortedDistinct(kind, out);
    StoredMembers(kind, out);
    SortSorts(kind, out);
    SortMembers(kind, out);
    SortedUnique(kind, out, Sort(kind, out));
  }

  lemma StoredMembers(kind: string, texts: seq<string>)
    requires AllStored(kind, texts)
    ensures Members(kind, Strs(texts)) == Ok(texts)
  {
    hide D.Canonical;
    var list := Strs(texts);
    forall i | 0 <= i < |list| ensures Member(kind, list[i]) == Ok(texts[i]) {
      assert texts[i] in texts;
    }
    assert Members(kind, list).value == texts;
  }

  // ---------------------------------------------------------------- meaning

  /** What an accepted attribute value is, whatever its spelling. */
  datatype Meaning =
    | Scalar(raw: Json)
    | Number(n: real)
    | Texts(kind: string, texts: set<string>)
    | Numbers(numbers: set<real>)
    | List(elements: seq<Meaning>)
    | NoMap
    | Map(entries: map<string, Meaning>)

  function Denote(v: Json): Meaning
    requires Canonical(v).Ok?
    decreases v
  {
    var f := v.fields;
    if "S" in f || "B" in f || "BOOL" in f || "NULL" in f then Scalar(v)
    else if "N" in f then Number(EntryNumber(f["N"]))
    else if "SS" in f then Texts("SS", TextSet(ListOf(f["SS"])))
    else if "NS" in f then Numbers(NumberSet(ListOf(f["NS"])))
    else if "BS" in f then Texts("BS", TextSet(ListOf(f["BS"])))
    else if "L" in f then
      if f["L"].Arr? then
        var items := f["L"].items;
        assert CanonicalElements(f["L"]).Ok?;
        List(seq(|items|, i requires 0 <= i < |items| => Denote(items[i])))
      else List([])
    else if f["M"].Obj? then
      var m := f["M"].fields;
      assert CanonicalFields(f["M"]).Ok?;
      Map(map k | k in m :: Denote(m[k]))
    else NoMap
  }

  function TextSet(list: seq<Json>): set<string> { set e | e in list :: TextOf(e) }

  function NumberSet(list: seq<Json>): set<real> { set e | e in list :: EntryNumber(e) }

  // -- One lemma per kind of value; the induction below only chooses among them.

  lemma Only(v: Json, kind: string)
    requires v.Obj? && |v.fields| == 1 && kind in v.fields
    ensures forall k :: k in v.fields <==> k == kind
  {
    assert |v.fields.Keys - {kind}| == 0;
  }

  /** The canonical form of a list value, element by element. */
  function CanonicalList(items: seq<Json>): Result<Json> { CanonicalElements(Arr(items)) }

  lemma CanonicalScalar(v: Json, kind: string)
    requires v.Obj? && |v.fields| == 1 && kind in v.fields
    ensures IsScalarKind(kind) ==> Canonical(v) == Ok(v)
    ensures kind == "N" ==>
      Canonical(v) == (if D.Canonical(TextOf(v.fields["N"])).Err? then Err
                       else Ok(Obj(map["N" := Str(D.Canonical(TextOf(v.fields["N"])).value)])))
    ensures IsSetKind(kind) ==> Canonical(v) == CanonicalSetValue(kind, v.fields[kind])
  {
    hide D.Canonical, CanonicalSet, CanonicalFields, CanonicalSetValue;
    Only(v, kind);
  }

  lemma CanonicalOfList(v: Json)
    requires v.Obj? && |v.fields| == 1 && "L" in v.fields
    ensures Canonical(v) == CanonicalList(ListOf(v.fields["L"]))
  {
    hide D.Canonical, CanonicalSet, CanonicalFields, CanonicalSetValue;
    Only(v, "L");
    NoElements();
    assert v.fields["L"].Arr? ==> v.fields["L"] == Arr(ListOf(v.fields["L"]));
  }

  lemma CanonicalOfMap(v: Json)
    requires v.Obj? && |v.fields| == 1 && "M" in v.fields
    ensures v.fields["M"].Obj? ==>
      Canonical(v) == (if CanonicalFields(v.fields["M"]).Err? then Err
                       else Ok(Obj(map["M" := Obj(CanonicalFields(v.fields["M"]).value)])))
    ensures !v.fields["M"].Obj? ==> Canonical(v) == Ok(Obj(map["M" := Null]))
  {
    hide D.Canonical, CanonicalSet, CanonicalSetValue, CanonicalElements;
    Only(v, "M");
  }

  lemma NoElements()
    ensures CanonicalList([]) == Ok(Obj(map["L" := Arr([])]))
  {
    var r := CanonicalElements(Arr([]));
    assert r.Ok? && r.value.fields["L"].items == [];
  }

  lemma CanonicalKinds(v: Json, kind: string)
    requires v.Obj? && |v.fields| == 1 && kind in v.fields && Canonical(v).Ok?
    ensures IsScalarKind(kind) || kind == "N" || IsSetKind(kind) || kind == "L" || kind == "M"
  {
    hide D.Canonical, CanonicalSet, CanonicalFields, CanonicalSetValue;
    Only(v, kind);
  }

  /** The canonical form by kind of value. */
  lemma CanonicalByKind(v: Json, kind: string)
    requires v.Obj? && |v.fields| == 1 && kind in v.fields
    ensures IsScalarKind(kind) ==> Canonical(v) == Ok(v)
    ensures kind == "N" ==>
      Canonical(v) == (if D.Canonical(TextOf(v.fields["N"])).Err? then Err
                       else Ok(Obj(map["N" := Str(D.Canonical(TextOf(v.fields["N"])).value)])))
    ensures IsSetKind(kind) ==> Canonical(v) == CanonicalSetValue(kind, v.fields[kind])
    ensures kind == "L" ==> Canonical(v) == CanonicalList(ListOf(v.fields["L"]))
    ensures kind == "M" && v.fields["M"].Obj? ==>
      Canonical(v) == (if CanonicalFields(v.fields["M"]).Err? then Err
                       else Ok(Obj(map["M" := Obj(CanonicalFields(v.fields["M"]).value)])))
    ensures kind == "M" && !v.fields["M"].Obj? ==> Canonical(v) == Ok(Obj(map["M" := Null]))
    ensures Canonical(v).Ok? ==> IsScalarKind(kind) || kind == "N" || IsSetKind(kind) || kind == "L" || kind == "M"
  {
    hide *;
    CanonicalScalar(v, kind);
    if kind == "L" {
      CanonicalOfList(v);
    } else if kind == "M" {
      CanonicalOfMap(v);
    }
    if Canonical(v).Ok? {
      CanonicalKinds(v, kind);
    }
  }

  /** The type tag of an accepted value. */
  ghost function KindOf(v: Json): (kind: string)
    requires v.Obj? && |v.fields| == 1
    ensures kind in v.fields
  {
    assert v.fields.Keys != {};
    var k :| k in v.fields.Keys;
    k
  }

  /** The canonical form is accepted and is its own canonical form. */
  predicate Settles(v: Json) {
    Canonical(v).Ok? && Canonical(Canonical(v).value) == Canonical(v)
  }

  lemma AcceptedShape(v: Json)
    requires Canonical(v).Ok?
    ensures v.Obj? && |v.fields| == 1
    ensures Canonical(v).value.Obj? && |Canonical(v).value.fields| == 1
    ensures KindOf(v) in Canonical(v).value.fields
  {
    hide D.Canonical, Canonical, CanonicalSet, CanonicalFields, CanonicalList;
    assert v.Obj? && |v.fields| == 1 by { CanonicalIsObject(v); }
    CanonicalByKind(v, KindOf(v));
    CanonicalListShape(ListOf(v.fields[KindOf(v)]));
  }

  lemma CanonicalIsObject(v: Json)
    requires Canonical(v).Ok?
    ensures v.Obj? && |v.fields| == 1
  {
  }

  lemma CanonicalListShape(items: seq<Json>)
    ensures CanonicalList(items).Ok? ==>
      CanonicalList(items).value.Obj? && |CanonicalList(items).value.fields| == 1 && CanonicalList(items).value.fields.Keys == {"L"}
  {
  }

  lemma ListAccepted(items: seq<Json>, i: nat)
    requires CanonicalList(items).Ok? && i < |items|
    ensures Canonical(items[i]).Ok?
  {
  }

  lemma FieldAccepted(m: Json, k: string)
    requires m.Obj? && CanonicalFields(m).Ok? && k in m.fields
    ensures Canonical(m.fields[k]).Ok?
  {
  }

  lemma ListFixed(items: seq<Json>)
    requires forall i :: 0 <= i < |items| ==> Settles(items[i])
    ensures CanonicalList(items).Ok?
    ensures CanonicalList(ListOf(CanonicalList(items).value.fields["L"])) == CanonicalList(items)
  {
    hide Canonical;
    var out := ListOf(CanonicalList(items).value.fields["L"]);
    assert forall i :: 0 <= i < |items| ==> Canonical(out[i]) == Ok(out[i]);
    assert CanonicalList(out).value.fields["L"].items == out;
  }

  lemma FieldsFixed(m: Json)
    requires m.Obj?
    requires forall k :: k in m.fields ==> Settles(m.fields[k])
    ensures CanonicalFields(m).Ok?
    ensures CanonicalFields(Obj(CanonicalFields(m).value)) == CanonicalFields(m)
  {
    hide Canonical;
    var out := CanonicalFields(m).value;
    assert forall k :: k in out ==> Canonical(out[k]) == Ok(out[k]);
    assert CanonicalFields(Obj(out)).value == out;
  }

  /** Canonical forms are fixed points, at any nesting. */
  lemma {:induction false} CanonicalFixed(v: Json)
    requires Canonical(v).Ok?
    ensures Settles(v)
    decreases v
  {
    hide D.Canonical, Canonical, CanonicalList, CanonicalFields, CanonicalSet;
    AcceptedShape(v);
    var kind := KindOf(v);
    var raw, c := v.fields[kind], Canonical(v).value;
    CanonicalByKind(v, kind);
    CanonicalByKind(c, kind);
    if kind == "N" {
      D.CanonicalIdempotent(TextOf(raw));
    } else if IsSetKind(kind) {
      CanonicalSetFixed(kind, ListOf(raw));
    } else if kind == "L" {
      forall i | 0 <= i < |ListOf(raw)| ensures Settles(ListOf(raw)[i]) {
        ListAccepted(ListOf(raw), i);
        CanonicalFixed(ListOf(raw)[i]);
      }
      ListFixed(ListOf(raw));
    } else if kind == "M" && raw.Obj? {
      forall k | k in raw.fields ensures Settles(raw.fields[k]) {
        FieldAccepted(raw, k);
        CanonicalFixed(raw.fields[k]);
      }
      FieldsFixed(raw);
    }
  }

  // -- Equality of canonical forms is equality of meaning.

  function DenoteList(items: seq<Json>): seq<Meaning>
    requires CanonicalList(items).Ok?
  {
    seq(|items|, i requires 0 <= i < |items| => Denote(items[i]))
  }

  function DenoteFields(m: Json): map<string, Meaning>
    requires m.Obj? && CanonicalFields(m).Ok?
  {
    map k | k in m.fields :: Denote(m.fields[k])
  }

  /** Whether a value tagged `kind` is accepted, told from what is under the tag. */
  predicate AcceptedAs(kind: string, raw: Json) {
    if IsScalarKind(kind) then true
    else if kind == "N" then D.Canonical(TextOf(raw)).Ok?
    else if IsSetKind(kind) then CanonicalSet(kind, ListOf(raw)).Ok?
    else if kind == "L" then CanonicalList(ListOf(raw)).Ok?
    else kind == "M" && (raw.Obj? ==> CanonicalFields(raw).Ok?)
  }

  /** The canonical form of `{kind: raw}`. */
  function CanonicalAs(kind: string, raw: Json): Json
    requires AcceptedAs(kind, raw)
  {
    if IsScalarKind(kind) then Obj(map[kind := raw])
    else if kind == "N" then Obj(map["N" := Str(D.Canonical(TextOf(raw)).value)])
    else if IsSetKind(kind) then Obj(map[kind := Arr(Strs(CanonicalSet(kind, ListOf(raw)).value))])
    else if kind == "L" then CanonicalList(ListOf(raw)).value
    else if raw.Obj? then Obj(map["M" := Obj(CanonicalFields(raw).value)])
    else Obj(map["M" := Null])
  }

  /** The meaning of `{kind: raw}`. */
  function DenoteAs(kind: string, raw: Json): Meaning
    requires AcceptedAs(kind, raw)
  {
    if IsScalarKind(kind) then Scalar(Obj(map[kind := raw]))
    else if kind == "N" then Number(EntryNumber(raw))
    else if kind == "NS" then Numbers(NumberSet(ListOf(raw)))
    else if IsSetKind(kind) then Texts(kind, TextSet(ListOf(raw)))
    else if kind == "L" then List(DenoteList(ListOf(raw)))
    else if raw.Obj? then Map(DenoteFields(raw))
    else NoMap
  }

  /** An accepted value, its canonical form and its meaning, all told from tag and content. */
  lemma ByKind(v: Json) returns (kind: string, raw: Json)
    requires Canonical(v).Ok?
    ensures v == Obj(map[kind := raw]) && v.fields[kind] == raw
    ensures AcceptedAs(kind, raw)
    ensures Canonical(v) == Ok(CanonicalAs(kind, raw)) && Denote(v) == DenoteAs(kind, raw)
  {
    CanonicalIsObject(v);
    kind := KindOf(v);
    raw := v.fields[kind];
    Only(v, kind);
    CanonicalCase(v, kind);
    DenoteCase(v, kind);
    assert v.fields == map[kind := raw];
  }

  lemma CanonicalCase(v: Json, kind: string)
    requires Canonical(v).Ok? && v.Obj? && |v.fields| == 1 && kind in v.fields && v.fields == map[kind := v.fields[kind]]
    ensures AcceptedAs(kind, v.fields[kind]) && Canonical(v) == Ok(CanonicalAs(kind, v.fields[kind]))
  {
    hide D.Canonical, Canonical, CanonicalSet, CanonicalFields, CanonicalList, Strs;
    CanonicalByKind(v, kind);
  }

  lemma DenoteCase(v: Json, kind: string)
    requires Canonical(v).Ok? && v.Obj? && |v.fields| == 1 && kind in v.fields && AcceptedAs(kind, v.fields[kind])
    requires v.fields == map[kind := v.fields[kind]]
    ensures Denote(v) == DenoteAs(kind, v.fields[kind])
  {
    hide D.Canonical, CanonicalSet, Strs, EntryNumber;
    Only(v, kind);
    var raw := v.fields[kind];
    if kind == "L" {
      assert raw.Arr? ==> ListOf(raw) == raw.items;
      assert raw.Arr? ==> Denote(v) == List(DenoteList(raw.items));
      assert !raw.Arr? ==> DenoteList([]) == [];
    }
  }

  lemma StrsInjective(x: seq<string>, y: seq<string>)
    requires Strs(x) == Strs(y)
    ensures x == y
  {
    assert forall i :: 0 <= i < |x| ==> Strs(x)[i].str == x[i] && Strs(y)[i].str == y[i];
  }

  lemma MembersIn(kind: string, list: seq<Json>, e: Json)
    requires CanonicalSet(kind, list).Ok? && e in list
    ensures Member(kind, e).Ok? && Member(kind, e).value in CanonicalSet(kind, list).value
  {
    hide CanonicalSet, Before, Stored, Member;
    SetResult(kind, list);
    assert Member(kind, e).Ok? by { hide *; MemberOk(kind, list, e); }
    var i :| 0 <= i < |list| && list[i] == e;
    assert Member(kind, list[i]) == Ok(Member(kind, e).value);
  }

  lemma MemberOk(kind: string, list: seq<Json>, e: Json)
    requires CanonicalSet(kind, list).Ok? && e in list
    ensures Member(kind, e).Ok?
  {
    hide D.Canonical, Sort;
  }

  /** Same texts, or same numbers, make the same canonical set. */
  lemma SetFromMeaning(kind: string, a: seq<Json>, b: seq<Json>)
    requires CanonicalSet(kind, a).Ok? && CanonicalSet(kind, b).Ok?
    requires if kind == "NS" then NumberSet(a) <= NumberSet(b) else TextSet(a) <= TextSet(b)
    ensures forall x :: x in CanonicalSet(kind, a).value ==> x in CanonicalSet(kind, b).value
  {
    hide CanonicalSet, Before, Stored, D.Canonical, EntryNumber, TextOf;
    SetResult(kind, a);
    forall x | x in CanonicalSet(kind, a).value ensures x in CanonicalSet(kind, b).value {
      var i :| 0 <= i < |a| && Member(kind, a[i]) == Ok(x);
      if kind == "NS" {
        assert EntryNumber(a[i]) in NumberSet(a);
        var e :| e in b && EntryNumber(e) == EntryNumber(a[i]);
        MembersIn(kind, b, e);
        SameMember(a[i], e);
      } else {
        assert TextOf(a[i]) in TextSet(a);
        var e :| e in b && TextOf(e) == TextOf(a[i]);
        MembersIn(kind, b, e);
      }
    }
  }

  /** One canonical set comes from the same texts, or the same numbers. */
  lemma MeaningFromSet(kind: string, a: seq<Json>, b: seq<Json>)
    requires CanonicalSet(kind, a).Ok? && CanonicalSet(kind, a) == CanonicalSet(kind, b)
    ensures kind == "NS" ==> NumberSet(a) <= NumberSet(b)
    ensures kind != "NS" ==> TextSet(a) <= TextSet(b)
  {
    hide CanonicalSet, Before, Stored, D.Canonical, EntryNumber, TextOf;
    SetResult(kind, b);
    forall e | e in a
      ensures kind == "NS" ==> EntryNumber(e) in NumberSet(b)
      ensures kind != "NS" ==> TextOf(e) in TextSet(b)
    {
      MembersIn(kind, a, e);
      var i :| 0 <= i < |b| && Member(kind, b[i]) == Member(kind, e);
      if kind == "NS" {
        SameMember(b[i], e);
      }
    }
  }

  lemma SetSame(kind: string, a: seq<Json>, b: seq<Json>)
    requires CanonicalSet(kind, a).Ok? && CanonicalSet(kind, b).Ok?
    ensures kind == "NS" ==> (CanonicalSet(kind, a) == CanonicalSet(kind, b) <==> NumberSet(a) == NumberSet(b))
    ensures kind != "NS" ==> (CanonicalSet(kind, a) == CanonicalSet(kind, b) <==> TextSet(a) == TextSet(b))
  {
    hide CanonicalSet, Before, Stored, NumberSet, TextSet;
    if CanonicalSet(kind, a) == CanonicalSet(kind, b) {
      MeaningFromSet(kind, a, b);
      MeaningFromSet(kind, b, a);
    } else if (if kind == "NS" then NumberSet(a) == NumberSet(b) else TextSet(a) == TextSet(b)) {
      SetFromMeaning(kind, a, b);
      SetFromMeaning(kind, b, a);
      SetResult(kind, a);
      SetResult(kind, b);
      SortedUnique(kind, CanonicalSet(kind, a).value, CanonicalSet(kind, b).value);
    }
  }

  /** Two accepted values for which canonical form and meaning say the same. */
  predicate Agree(a: Json, b: Json) {
    Canonical(a).Ok? && Canonical(b).Ok? && (Canonical(a) == Canonical(b) <==> Denote(a) == Denote(b))
  }

  lemma ListAgree(a: seq<Json>, b: seq<Json>)
    requires CanonicalList(a).Ok? && CanonicalList(b).Ok?
    requires forall i :: 0 <= i < |a| && i < |b| ==> Agree(a[i], b[i])
    ensures CanonicalList(a) == CanonicalList(b) <==> DenoteList(a) == DenoteList(b)
  {
    hide Canonical, Denote;
    var x, y := CanonicalList(a).value.fields["L"].items, CanonicalList(b).value.fields["L"].items;
    assert CanonicalList(a) == CanonicalList(b) <==> x == y by {
      assert CanonicalList(a).value.fields == map["L" := Arr(x)];
      assert CanonicalList(b).value.fields == map["L" := Arr(y)];
    }
    if x == y {
      assert forall i :: 0 <= i < |a| ==> Canonical(a[i]) == Ok(x[i]) && Canonical(b[i]) == Ok(y[i]);
    }
    if DenoteList(a) == DenoteList(b) {
      assert forall i :: 0 <= i < |a| ==> Denote(a[i]) == DenoteList(a)[i] && Denote(b[i]) == DenoteList(b)[i];
      assert |a| == |DenoteList(a)| && |b| == |DenoteList(b)|;
      assert x == y;
    }
  }

  lemma FieldsAgree(a: Json, b: Json)
    requires a.Obj? && b.Obj? && CanonicalFields(a).Ok? && CanonicalFields(b).Ok?
    requires forall k :: k in a.fields && k in b.fields ==> Agree(a.fields[k], b.fields[k])
    ensures CanonicalFields(a) == CanonicalFields(b) <==> DenoteFields(a) == DenoteFields(b)
  {
    hide Canonical, Denote;
    var x, y := CanonicalFields(a).value, CanonicalFields(b).value;
    var u, w := DenoteFields(a), DenoteFields(b);
    assert x.Keys == a.fields.Keys == u.Keys && y.Keys == b.fields.Keys == w.Keys;
    if x == y {
      forall k | k in u ensures u[k] == w[k] {
        assert x[k] == y[k];
      }
    }
    if u == w {
      forall k | k in x ensures x[k] == y[k] {
        assert u[k] == w[k];
      }
    }
  }

  lemma KindsDiffer(k1: string, r1: Json, k2: string, r2: Json)
    requires AcceptedAs(k1, r1) && AcceptedAs(k2, r2) && k1 != k2
    ensures CanonicalAs(k1, r1) != CanonicalAs(k2, r2) && DenoteAs(k1, r1) != DenoteAs(k2, r2)
  {
    hide *;
    CanonicalTag(k1, r1);
    CanonicalTag(k2, r2);
    DenoteTag(k1, r1);
    DenoteTag(k2, r2);
    assert k1 in CanonicalAs(k1, r1).fields.Keys && k1 !in CanonicalAs(k2, r2).fields.Keys;
    assert TagOf(DenoteAs(k1, r1), k1) && !TagOf(DenoteAs(k2, r2), k1);
  }

  lemma CanonicalTag(kind: string, raw: Json)
    requires AcceptedAs(kind, raw)
    ensures CanonicalAs(kind, raw).Obj? && CanonicalAs(kind, raw).fields.Keys == {kind}
  {
    hide D.Canonical, CanonicalSet, CanonicalFields, Strs;
  }

  /** The type tag a meaning can come from. */
  ghost predicate TagOf(m: Meaning, kind: string) {
    match m
    case Scalar(raw) => raw.Obj? && raw.fields.Keys == {kind}
    case Number(_) => kind == "N"
    case Texts(k, _) => kind == k
    case Numbers(_) => kind == "NS"
    case List(_) => kind == "L"
    case Map(_) => kind == "M"
    case NoMap => kind == "M"
  }

  lemma DenoteTag(kind: string, raw: Json)
    requires AcceptedAs(kind, raw)
    ensures forall k :: TagOf(DenoteAs(kind, raw), k) <==> k == kind
  {
    hide D.Canonical, CanonicalSet, CanonicalFields, CanonicalList, TextSet, NumberSet, DenoteList, DenoteFields;
    assert forall k: string :: {k} == {kind} <==> k == kind;
  }

  lemma NumberAgree(r1: Json, r2: Json)
    requires AcceptedAs("N", r1) && AcceptedAs("N", r2)
    ensures CanonicalAs("N", r1) == CanonicalAs("N", r2) <==> DenoteAs("N", r1) == DenoteAs("N", r2)
  {
    hide D.Canonical, EntryNumber;
    SameMember(r1, r2);
    assert CanonicalAs("N", r1).fields["N"].str == D.Canonical(TextOf(r1)).value;
    assert CanonicalAs("N", r2).fields["N"].str == D.Canonical(TextOf(r2)).value;
  }

  lemma SetCase(kind: string, raw: Json)
    requires IsSetKind(kind) && AcceptedAs(kind, raw)
    ensures CanonicalSet(kind, ListOf(raw)).Ok?
    ensures CanonicalAs(kind, raw) == Obj(map[kind := Arr(Strs(CanonicalSet(kind, ListOf(raw)).value))])
    ensures DenoteAs(kind, raw) ==
      if kind == "NS" then Numbers(NumberSet(ListOf(raw))) else Texts(kind, TextSet(ListOf(raw)))
  {
    hide CanonicalSet, NumberSet, TextSet, Strs, CanonicalFields, CanonicalList, DenoteList, DenoteFields, D.Canonical;
    hide IsScalarKind, IsSetKind, TextOf, ListOf, EntryNumber;
    SetKindApart(kind);
  }

  lemma SetKindApart(kind: string)
    requires IsSetKind(kind)
    ensures !IsScalarKind(kind) && kind != "N" && kind != "L" && kind != "M"
  {
  }

  lemma SetAgree(kind: string, r1: Json, r2: Json)
    requires IsSetKind(kind) && AcceptedAs(kind, r1) && AcceptedAs(kind, r2)
    ensures CanonicalAs(kind, r1) == CanonicalAs(kind, r2) <==> DenoteAs(kind, r1) == DenoteAs(kind, r2)
  {
    hide CanonicalSet, NumberSet, TextSet, Strs, CanonicalAs, DenoteAs, AcceptedAs;
    SetCase(kind, r1);
    SetCase(kind, r2);
    var x, y := CanonicalSet(kind, ListOf(r1)).value, CanonicalSet(kind, ListOf(r2)).value;
    SetSame(kind, ListOf(r1), ListOf(r2));
    assert CanonicalAs(kind, r1).fields[kind] == Arr(Strs(x));
    assert CanonicalAs(kind, r2).fields[kind] == Arr(Strs(y));
    if Strs(x) == Strs(y) {
      StrsInjective(x, y);
    }
  }

  lemma MapAgree(r1: Json, r2: Json)
    requires AcceptedAs("M", r1) && AcceptedAs("M", r2)
    requires r1.Obj? && r2.Obj? ==>
      forall k :: k in r1.fields && k in r2.fields ==> Agree(r1.fields[k], r2.fields[k])
    ensures CanonicalAs("M", r1) == CanonicalAs("M", r2) <==> DenoteAs("M", r1) == DenoteAs("M", r2)
  {
    hide CanonicalFields, DenoteFields;
    if r1.Obj? && r2.Obj? {
      FieldsAgree(r1, r2);
    }
    assert CanonicalAs("M", r1).fields["M"] == if r1.Obj? then Obj(CanonicalFields(r1).value) else Null;
    assert CanonicalAs("M", r2).fields["M"] == if r2.Obj? then Obj(CanonicalFields(r2).value) else Null;
  }

  /** Accepted values have one canonical form exactly when they mean the same, at any nesting. */
  lemma {:induction false} CanonicalIsMeaning(a: Json, b: Json)
    requires Canonical(a).Ok? && Canonical(b).Ok?
    ensures Agree(a, b)
    decreases a
  {
    hide Canonical, Denote, CanonicalSet, CanonicalList, CanonicalFields, DenoteList, DenoteFields, D.Canonical;
    var k1, r1 := ByKind(a);
    var k2, r2 := ByKind(b);
    if k1 != k2 {
      KindsDiffer(k1, r1, k2, r2);
    } else if k1 == "N" {
      NumberAgree(r1, r2);
    } else if IsSetKind(k1) {
      SetAgree(k1, r1, r2);
    } else if k1 == "L" {
      forall i | 0 <= i < |ListOf(r1)| && i < |ListOf(r2)| ensures Agree(ListOf(r1)[i], ListOf(r2)[i]) {
        ListAccepted(ListOf(r1), i);
        ListAccepted(ListOf(r2), i);
        CanonicalIsMeaning(ListOf(r1)[i], ListOf(r2)[i]);
      }
      ListAgree(ListOf(r1), ListOf(r2));
    } else if k1 == "M" {
      if r1.Obj? && r2.Obj? {
        forall k | k in r1.fields && k in r2.fields ensures Agree(r1.fields[k], r2.fields[k]) {
          FieldAccepted(r1, k);
          FieldAccepted(r2, k);
          CanonicalIsMeaning(r1.fields[k], r2.fields[k]);
        }
      }
      MapAgree(r1, r2);
    }
  }

  // ---------------------------------------------------------------- equality

  /** canonicalizeItem. */
  function CanonicalItem(item: Item): Result<Item> {
    CanonicalFields(Obj(item))
  }

  /** attributeValueEqual: the JSON encodings it compares are equal exactly for equal canonical values. */
  predicate AttributeValueEqual(left: Json, right: Json) {
    Canonical(left).Ok? && Canonical(right).Ok? && Canonical(left) == Canonical(right)
  }

  /** Equality ignores spelling and set order, and nothing else. */
  lemma EqualIsSameMeaning(a: Json, b: Json)
    ensures AttributeValueEqual(a, b) <==>
      Canonical(a).Ok? && Canonical(b).Ok? && Denote(a) == Denote(b)
  {
    hide Canonical, Denote;
    if Canonical(a).Ok? && Canonical(b).Ok? {
      CanonicalIsMeaning(a, b);
    }
  }

  /** A value is equal to its canonical form, and canonical values are equal only if identical. */
  lemma CanonicalRepresents(a: Json, b: Json)
    requires Canonical(a).Ok? && Canonical(b).Ok?
    ensures AttributeValueEqual(a, Canonical(a).value)
    ensures AttributeValueEqual(a, b) <==> Canonical(a).value == Canonical(b).value
  {
    hide Canonical;
    CanonicalFixed(a);
  }

  /** Canonical items are fixed points. */
  lemma CanonicalItemFixed(item: Item)
    requires CanonicalItem(item).Ok?
    ensures CanonicalItem(CanonicalItem(item).value) == CanonicalItem(item)
  {
    hide Canonical;
    forall k | k in item ensures Settles(item[k]) {
      FieldAccepted(Obj(item), k);
      CanonicalFixed(item[k]);
    }
    FieldsFixed(Obj(item));
  }

  // ---------------------------------------------------------------- the imperative form

  /** The first `n` entries have been read into `out`, all different, and remembered in `seen`. */
  ghost predicate Seen(kind: string, list: seq<Json>, n: nat, seen: set<string>, out: seq<string>) {
    n <= |list| && |out| == n && Distinct(out) && (forall x :: x in seen <==> x in out) &&
    forall i :: 0 <= i < n ==> Member(kind, list[i]) == Ok(out[i])
  }

  lemma SeenStep(kind: string, list: seq<Json>, n: nat, seen: set<string>, out: seq<string>, text: string)
    requires Seen(kind, list, n, seen, out) && n < |list| && Member(kind, list[n]) == Ok(text)
    ensures if text in seen then CanonicalSet(kind, list).Err? else Seen(kind, list, n + 1, seen + {text}, out + [text])
  {
    hide Member, Sort;
    if text in seen {
      var i :| 0 <= i < n && out[i] == text;
      if Members(kind, list).Ok? {
        assert Members(kind, list).value[i] == Members(kind, list).value[n];
      }
    }
  }

  lemma MemberRejected(kind: string, list: seq<Json>, n: nat)
    requires n < |list| && Member(kind, list[n]).Err?
    ensures CanonicalSet(kind, list).Err?
  {
    hide Member, Sort;
  }

  lemma AllSeen(kind: string, list: seq<Json>, seen: set<string>, out: seq<string>)
    requires Seen(kind, list, |list|, seen, out)
    ensures CanonicalSet(kind, list) == if list == [] then Err else Ok(Sort(kind, out))
  {
    hide Member, Sort;
    assert Members(kind, list).value == out;
  }

  lemma NoneSeen(kind: string, list: seq<Json>)
    ensures Seen(kind, list, 0, {}, [])
  {
  }

  /** The set branch of canonicalizeAttr. */
  method CanonicalizeSet(kind: string, list: seq<Json>) returns (r: Result<seq<string>>)
    ensures r == CanonicalSet(kind, list)
  {
    hide D.Canonical, D.Attempt, CanonicalSet, Seen, Sort, Members, TextOf, Distinct;
    var seen: set<string> := {};
    var out: seq<string> := [];
    NoneSeen(kind, list);
    if |list| == 0 {
      AllSeen(kind, list, seen, out);
      return Err;
    }
    for n := 0 to |list|
      invariant Seen(kind, list, n, seen, out)
    {
      var text := TextOf(list[n]);
      if kind == "NS" {
        var number := D.CanonicalNumber(text);
        if !number.Written? {
          MemberRejected(kind, list, n);
          return Err;
        }
        text := number.text;
      }
      SeenStep(kind, list, n, seen, out, text);
      if text in seen {
        return Err;
      }
      seen := seen + {text};
      out := out + [text];
    }
    AllSeen(kind, list, seen, out);
    return Ok(Sort(kind, out));
  }

  /** canonicalizeAttr with its loops. */
  method CanonicalizeAttr(value: Json) returns (r: Result<Json>)
    ensures r == Canonical(value)
    decreases value, 1
  {
    hide D.Canonical, CanonicalSet, Canonical, CanonicalFields;
    if !value.Obj? || |value.fields| != 1 {
      NotTagged(value);
      return Err;
    }
    assert value.fields.Keys != {};
    var kind :| kind in value.fields.Keys;
    var raw := value.fields[kind];
    CanonicalByKind(value, kind);
    if IsScalarKind(kind) {
      return Ok(value);
    } else if kind == "N" {
      var n := D.CanonicalNumber(TextOf(raw));
      return if n.Written? then Ok(Obj(map["N" := Str(n.text)])) else Err;
    } else if IsSetKind(kind) {
      var out := CanonicalizeSet(kind, ListOf(raw));
      return if out.Err? then Err else Ok(Obj(map[kind := Arr(Strs(out.value))]));
    } else if kind == "L" {
      var list := ListOf(raw);
      var out: seq<Json> := [];
      for n := 0 to |list|
        invariant |out| == n && forall i :: 0 <= i < n ==> Canonical(list[i]) == Ok(out[i])
      {
        assert list[n] < value;
        var v := CanonicalizeAttr(list[n]);
        if v.Err? {
          return Err;
        }
        out := out + [v.value];
      }
      assert CanonicalList(list) == Ok(Obj(map["L" := Arr(out)])) by {
        assert out == seq(|list|, i requires 0 <= i < |list| => Canonical(list[i]).value);
      }
      return Ok(Obj(map["L" := Arr(out)]));
    } else if kind == "M" {
      if !raw.Obj? {
        return Ok(Obj(map["M" := Null]));
      }
      var out := CanonicalizeItem(raw);
      return if out.Err? then Err else Ok(Obj(map["M" := Obj(out.value)]));
    }
    return Err;
  }

  lemma NotTagged(v: Json)
    requires !v.Obj? || |v.fields| != 1
    ensures Canonical(v) == Err
  {
  }

  /** canonicalizeItem: the fields are visited in no particular order. */
  method CanonicalizeItem(m: Json) returns (r: Result<Item>)
    requires m.Obj?
    ensures r == CanonicalFields(m)
    decreases m, 0
  {
    hide Canonical;
    var out: Item := map[];
    var todo := m.fields.Keys;
    while todo != {}
      invariant todo <= m.fields.Keys && out.Keys == m.fields.Keys - todo
      invariant forall k :: k in out ==> Canonical(m.fields[k]) == Ok(out[k])
      decreases |todo|
    {
      var name :| name in todo;
      var v := CanonicalizeAttr(m.fields[name]);
      if v.Err? {
        return Err;
      }
      out := out[name := v.value];
      todo := todo - {name};
    }
    assert forall k :: k in m.fields ==> k in out && Canonical(m.fields[k]) == Ok(out[k]);
    assert CanonicalFields(m).Ok?;
    assert CanonicalFields(m).value == out;
    return Ok(out);
  }
}
