/**
 Document paths into an item (internal/dynamodb/expr.go).  The source edits nested Go maps and
 slices in place; here an edit returns the edited value.
 */
module Paths {
  import opened Wrappers
  import opened Attributes

  datatype Segment = Name(name: string) | Index(index: int)

  /** What resolvePath yields: a name first, then names and indices. */
  type Path = p: seq<Segment> | p != [] && p[0].Name? witness [Name("a")]

  // ---------------------------------------------------------------- one step

  predicate IsMap(v: Json) { v.Obj? && "M" in v.fields && v.fields["M"].Obj? }

  predicate IsList(v: Json) { v.Obj? && "L" in v.fields && v.fields["L"].Arr? }

  function Entries(v: Json): Item
    requires IsMap(v)
  {
    v.fields["M"].fields
  }

  function Elements(v: Json): seq<Json>
    requires IsList(v)
  {
    v.fields["L"].items
  }

  function WithEntries(v: Json, m: Item): (r: Json)
    requires IsMap(v)
    ensures IsMap(r) && Entries(r) == m && IsList(r) == IsList(v)
    ensures IsList(v) ==> Elements(r) == Elements(v)
  {
    Obj(v.fields["M" := Obj(m)])
  }

  function WithElements(v: Json, s: seq<Json>): (r: Json)
    requires IsList(v)
    ensures IsList(r) && Elements(r) == s && IsMap(r) == IsMap(v)
    ensures IsMap(v) ==> Entries(r) == Entries(v)
  {
    Obj(v.fields["L" := Arr(s)])
  }

  /** The value one segment below `v`. */
  function Child(v: Json, s: Segment): Option<Json> {
    match s
    case Name(n) => if IsMap(v) && n in Entries(v) then Some(Entries(v)[n]) else None
    case Index(i) => if IsList(v) && 0 <= i < |Elements(v)| then Some(Elements(v)[i]) else None
  }

  /** `v` with the value one segment below replaced; a missing name under a map is added. */
  function SetChild(v: Json, s: Segment, x: Json): (r: Json)
    requires s.Name? ==> IsMap(v)
    requires s.Index? ==> Child(v, s).Some?
    ensures Child(r, s) == Some(x)
    ensures forall t :: t != s ==> Child(r, t) == Child(v, t)
  {
    match s
    case Name(n) => WithEntries(v, Entries(v)[n := x])
    case Index(i) => WithElements(v, Elements(v)[i := x])
  }

  const EMPTY_MAP := Obj(map["M" := Obj(map[])])

  // ---------------------------------------------------------------- reading

  function Walk(v: Json, path: seq<Segment>): Option<Json> {
    if path == [] then Some(v)
    else
      var c := Child(v, path[0]);
      if c.None? then None else Walk(c.value, path[1..])
  }

  /** getPathValue. */
  function Get(item: Item, path: Path): Option<Json> {
    if path[0].name in item then Walk(item[path[0].name], path[1..]) else None
  }

  // ---------------------------------------------------------------- assigning

  /** The parent the walk continues in: an absent or null one becomes an empty map, unless a list is needed. */
  function Parent(c: Option<Json>, next: Segment): Option<Json> {
    if c.Some? && c.value != Null then c
    else if next.Index? then None else Some(EMPTY_MAP)
  }

  /** The last step of assignPathValue.  Under neither map nor list it writes beside the type tag. */
  function Put(v: Json, s: Segment, x: Json): Result<Json> {
    match s
    case Index(i) => if Child(v, s).Some? then Ok(SetChild(v, s, x)) else Err
    case Name(n) =>
      if IsMap(v) then Ok(SetChild(v, s, x))
      else if v.Obj? then Ok(Obj(v.fields[n := x]))
      else Err
  }

  function AssignIn(v: Json, path: seq<Segment>, x: Json): Result<Json>
    requires path != []
    decreases |path|
  {
    if |path| == 1 then Put(v, path[0], x)
    else if path[0].Name? && !IsMap(v) then Err
    else if path[0].Index? && Child(v, path[0]).None? then Err
    else
      var p := if path[0].Name? then Parent(Child(v, path[0]), path[1]) else Child(v, path[0]);
      if p.None? then Err
      else
        var c := AssignIn(p.value, path[1..], x);
        if c.Err? then Err else Ok(SetChild(v, path[0], c.value))
  }

  /** assignPathValue. */
  function Assign(item: Item, path: Path, x: Json): Result<Item> {
    var n := path[0].name;
    if |path| == 1 then Ok(item[n := x])
    else
      var p := Parent(if n in item then Some(item[n]) else None, path[1]);
      if p.None? then Err
      else
        var c := AssignIn(p.value, path[1..], x);
        if c.Err? then Err else Ok(item[n := c.value])
  }

  // -- When the law "read what you wrote" holds.

  /** The write ends beside the type tag of a value that is not a map. */
  predicate BesideTag(v: Json, path: seq<Segment>)
    requires path != []
    decreases |path|
  {
    if |path| == 1 then path[0].Name? && !IsMap(v)
    else
      var p := if path[0].Name? then Parent(Child(v, path[0]), path[1]) else Child(v, path[0]);
      p.Some? && BesideTag(p.value, path[1..])
  }

  predicate WritesBesideTag(item: Item, path: Path) {
    |path| > 1 &&
    var n := path[0].name;
    var p := Parent(if n in item then Some(item[n]) else None, path[1]);
    p.Some? && BesideTag(p.value, path[1..])
  }

  /** The parent an assignment walks into below `v`. */
  function ParentIn(v: Json, path: seq<Segment>): Option<Json>
    requires |path| > 1
  {
    if path[0].Name? then Parent(Child(v, path[0]), path[1]) else Child(v, path[0])
  }

  lemma BesideTagUnread(v: Json, n: string, x: Json)
    requires v.Obj? && !IsMap(v)
    ensures Child(Obj(v.fields[n := x]), Name(n)) != Some(x)
  {
    if n == "M" && x.Obj? && "M" in x.fields {
      assert x.fields["M"] < x;
      assert x.fields["M"] != x;
    }
  }

  lemma {:induction false} AssignInReads(v: Json, path: seq<Segment>, x: Json)
    requires path != [] && AssignIn(v, path, x).Ok?
    ensures Walk(AssignIn(v, path, x).value, path) == Some(x) <==> !BesideTag(v, path)
    decreases |path|
  {
    var r := AssignIn(v, path, x).value;
    if |path| == 1 {
      var c := Child(r, path[0]);
      assert Walk(r, path) == if c.None? then None else Walk(c.value, []);
      if path[0].Name? && !IsMap(v) {
        BesideTagUnread(v, path[0].name, x);
      }
    } else {
      AssignInReads(ParentIn(v, path).value, path[1..], x);
    }
  }

  /** Reading an assigned path gives the assigned value, exactly unless the write lands beside a type tag. */
  lemma AssignReads(item: Item, path: Path, x: Json)
    requires Assign(item, path, x).Ok?
    ensures Get(Assign(item, path, x).value, path) == Some(x) <==> !WritesBesideTag(item, path)
  {
    if |path| > 1 {
      var n := path[0].name;
      AssignInReads(Parent(if n in item then Some(item[n]) else None, path[1]).value, path[1..], x);
    } else {
      assert path[1..] == [];
    }
  }

  // -- What else an assignment leaves alone.

  /** The paths part at a position both have. */
  predicate Diverge(p: seq<Segment>, q: seq<Segment>) {
    p != [] && q != [] && (p[0] != q[0] || Diverge(p[1..], q[1..]))
  }

  lemma {:induction false} AssignInKeeps(v: Json, p: seq<Segment>, q: seq<Segment>, x: Json)
    requires p != [] && AssignIn(v, p, x).Ok? && !BesideTag(v, p) && Diverge(p, q)
    ensures Walk(AssignIn(v, p, x).value, q) == Walk(v, q)
    decreases |p|
  {
    if |p| > 1 && p[0] == q[0] {
      var u := ParentIn(v, p).value;
      AssignInKeeps(u, p[1..], q[1..], x);
      if Child(v, p[0]) != Some(u) {
        EmptyMapWalk(q[1..]);
        NullWalk(q[1..]);
      }
    }
  }

  lemma EmptyMapWalk(q: seq<Segment>)
    requires q != []
    ensures Walk(EMPTY_MAP, q) == None
  {
  }

  lemma NullWalk(q: seq<Segment>)
    requires q != []
    ensures Walk(Null, q) == None
  {
  }

  /** An assignment leaves every diverging path as it was, present or absent. */
  lemma AssignKeeps(item: Item, p: Path, q: Path, x: Json)
    requires Assign(item, p, x).Ok? && !WritesBesideTag(item, p) && Diverge(p, q)
    ensures Get(Assign(item, p, x).value, q) == Get(item, q)
  {
    var n := p[0].name;
    if |p| > 1 && p[0] == q[0] {
      var c := if n in item then Some(item[n]) else None;
      var u := Parent(c, p[1]).value;
      AssignInKeeps(u, p[1..], q[1..], x);
      if c != Some(u) {
        EmptyMapWalk(q[1..]);
        NullWalk(q[1..]);
      }
    }
  }

  // -- Which paths can be assigned.

  /** A step can be taken from a value: by name from a map, by index inside a list. */
  predicate Takes(v: Json, s: Segment) {
    if s.Name? then IsMap(v) else Child(v, s).Some?
  }

  /** A step fits what is at a node reached by `prev`; nothing there counts as an empty map under a name. */
  predicate Fits(prev: Segment, at: Option<Json>, s: Segment) {
    if at.None? || at.value == Null then prev.Name? && s.Name? else Takes(at.value, s)
  }

  predicate AddressableIn(v: Json, path: seq<Segment>)
    requires path != []
  {
    Takes(v, path[0]) && forall k :: 1 <= k < |path| ==> Fits(path[k - 1], Walk(v, path[..k]), path[k])
  }

  /** Every traversed parent is a map, a list that has the element, or missing under a map. */
  predicate Addressable(item: Item, path: Path) {
    forall k :: 1 <= k < |path| ==> Fits(path[k - 1], Get(item, path[..k]), path[k])
  }

  lemma WalkPrefix(v: Json, path: seq<Segment>, k: nat)
    requires 0 < k <= |path|
    ensures Walk(v, path[..k]) ==
            if Child(v, path[0]).None? then None else Walk(Child(v, path[0]).value, path[1..][..k - 1])
  {
    assert path[..k][1..] == path[1..][..k - 1];
  }

  /** From the second step on, the same steps fit below the parent an assignment walks into. */
  lemma FitsBelow(v: Json, path: seq<Segment>, k: nat)
    requires 1 < k < |path| && ParentIn(v, path).Some?
    ensures Fits(path[k - 1], Walk(v, path[..k]), path[k]) <==>
            Fits(path[1..][k - 2], Walk(ParentIn(v, path).value, path[1..][..k - 1]), path[1..][k - 1])
  {
    WalkPrefix(v, path, k);
    EmptyMapWalk(path[1..][..k - 1]);
    NullWalk(path[1..][..k - 1]);
  }

  lemma FirstFits(v: Json, path: seq<Segment>)
    requires |path| > 1 && Takes(v, path[0])
    ensures Fits(path[0], Walk(v, path[..1]), path[1]) <==>
            ParentIn(v, path).Some? && Takes(ParentIn(v, path).value, path[1])
  {
    WalkPrefix(v, path, 1);
  }

  lemma AddressableBelow(v: Json, path: seq<Segment>)
    requires |path| > 1 && Takes(v, path[0])
    ensures AddressableIn(v, path) <==>
            ParentIn(v, path).Some? && AddressableIn(ParentIn(v, path).value, path[1..])
  {
    hide Fits, ParentIn, Takes;
    FirstFits(v, path);
    if ParentIn(v, path).Some? {
      var u, rest := ParentIn(v, path).value, path[1..];
      forall k | 1 < k < |path|
        ensures Fits(path[k - 1], Walk(v, path[..k]), path[k]) <==> Fits(rest[k - 2], Walk(u, rest[..k - 1]), rest[k - 1])
      {
        FitsBelow(v, path, k);
      }
      if AddressableIn(v, path) {
        forall j | 1 <= j < |rest| ensures Fits(rest[j - 1], Walk(u, rest[..j]), rest[j]) {
          assert Fits(path[j], Walk(v, path[..j + 1]), path[j + 1]);
        }
      }
    } else {
      assert !Fits(path[1 - 1], Walk(v, path[..1]), path[1]);
    }
  }

  lemma {:induction false} AssignInAddressable(v: Json, path: seq<Segment>, x: Json)
    requires path != []
    ensures AddressableIn(v, path) <==> AssignIn(v, path, x).Ok? && !BesideTag(v, path)
    decreases |path|
  {
    if |path| > 1 && Takes(v, path[0]) {
      AddressableBelow(v, path);
      if ParentIn(v, path).Some? {
        AssignInAddressable(ParentIn(v, path).value, path[1..], x);
      }
    }
  }

  /** An item is read like a map value around it. */
  lemma RootWalk(item: Item, path: Path)
    ensures Walk(Obj(map["M" := Obj(item)]), path) == Get(item, path)
  {
    assert Entries(Obj(map["M" := Obj(item)])) == item;
  }

  lemma RootAddressable(item: Item, path: Path)
    ensures AddressableIn(Obj(map["M" := Obj(item)]), path) <==> Addressable(item, path)
  {
    hide Fits;
    var root := Obj(map["M" := Obj(item)]);
    forall k | 1 <= k < |path| ensures Walk(root, path[..k]) == Get(item, path[..k]) {
      RootWalk(item, path[..k]);
    }
  }

  /** Exactly the addressable paths can be assigned and read back. */
  lemma AssignAddressable(item: Item, path: Path, x: Json)
    ensures Addressable(item, path) <==> Assign(item, path, x).Ok? && !WritesBesideTag(item, path)
    ensures Addressable(item, path) ==> Get(Assign(item, path, x).value, path) == Some(x)
  {
    var root := Obj(map["M" := Obj(item)]);
    assert Entries(root) == item;
    if |path| > 1 {
      assert ParentIn(root, path) == Parent(if path[0].name in item then Some(item[path[0].name]) else None, path[1]);
      AssignInAddressable(root, path, x);
      RootAddressable(item, path);
    }
    if Addressable(item, path) {
      AssignReads(item, path, x);
    }
  }

  // ---------------------------------------------------------------- removing

  /** The last step of removePathValue.  Under neither map nor list it deletes a type tag. */
  function Cut(v: Json, s: Segment): Json {
    match s
    case Index(i) =>
      if Child(v, s).Some? then WithElements(v, Elements(v)[..i] + Elements(v)[i + 1..]) else v
    case Name(n) =>
      if IsMap(v) then WithEntries(v, Entries(v) - {n})
      else if v.Obj? then Obj(v.fields - {n})
      else v
  }

  function RemoveIn(v: Json, path: seq<Segment>): Json
    requires path != []
  {
    if |path| == 1 then Cut(v, path[0])
    else if Child(v, path[0]).None? then v
    else SetChild(v, path[0], RemoveIn(Child(v, path[0]).value, path[1..]))
  }

  /** removePathValue. */
  function Remove(item: Item, path: Path): Item {
    var n := path[0].name;
    if |path| == 1 then item - {n}
    else if n !in item then item
    else item[n := RemoveIn(item[n], path[1..])]
  }

  lemma {:induction false} RemoveInAbsent(v: Json, path: seq<Segment>)
    requires path != [] && path[|path| - 1].Name?
    ensures Walk(RemoveIn(v, path), path) == None
  {
    if |path| > 1 && Child(v, path[0]).Some? {
      RemoveInAbsent(Child(v, path[0]).value, path[1..]);
    }
  }

  /** A removed name is absent, whatever was there. */
  lemma RemoveAbsent(item: Item, path: Path)
    requires path[|path| - 1].Name?
    ensures Get(Remove(item, path), path) == None
  {
    var n := path[0].name;
    if |path| > 1 && n in item {
      RemoveInAbsent(item[n], path[1..]);
    }
  }

  /** The position an element had before element `i` was removed. */
  function Before(i: int, j: int): int { if j < i then j else j + 1 }

  lemma {:induction false} RemoveInShifts(v: Json, q: seq<Segment>, i: int, j: nat, t: seq<Segment>)
    requires Walk(v, q + [Index(i)]).Some?
    ensures Walk(RemoveIn(v, q + [Index(i)]), q + [Index(j)] + t) == Walk(v, q + [Index(Before(i, j))] + t)
  {
    var p, r, r' := q + [Index(i)], q + [Index(j)] + t, q + [Index(Before(i, j))] + t;
    if q == [] {
      assert p == [Index(i)];
      assert r[0] == Index(j) && r[1..] == t;
      assert r'[0] == Index(Before(i, j)) && r'[1..] == t;
    } else {
      var rest := q[1..];
      assert p[1..] == rest + [Index(i)];
      assert r[1..] == rest + [Index(j)] + t;
      assert r'[1..] == rest + [Index(Before(i, j))] + t;
      RemoveInShifts(Child(v, q[0]).value, rest, i, j, t);
    }
  }

  /** Removing a list element moves the later ones down by one and leaves the earlier ones. */
  lemma RemoveShifts(item: Item, q: Path, i: int, j: nat, t: seq<Segment>)
    requires Get(item, q + [Index(i)]).Some?
    ensures Get(Remove(item, q + [Index(i)]), q + [Index(j)] + t) == Get(item, q + [Index(Before(i, j))] + t)
  {
    var n, rest := q[0].name, q[1..];
    assert (q + [Index(i)])[1..] == rest + [Index(i)];
    assert (q + [Index(j)] + t)[1..] == rest + [Index(j)] + t;
    assert (q + [Index(Before(i, j))] + t)[1..] == rest + [Index(Before(i, j))] + t;
    RemoveInShifts(item[n], rest, i, j, t);
  }

  /** The paths part, and not only at two elements of the list that loses the last index of `p`. */
  predicate PartsFrom(p: seq<Segment>, q: seq<Segment>) {
    p != [] && q != [] &&
    if p[0] != q[0] then !(|p| == 1 && p[0].Index? && q[0].Index?) else PartsFrom(p[1..], q[1..])
  }

  predicate EmptiesListIn(v: Json, path: seq<Segment>)
    requires path != []
  {
    if |path| == 1 then path[0] == Name("L") && !IsMap(v) && IsList(v) && Elements(v) != []
    else Child(v, path[0]).Some? && EmptiesListIn(Child(v, path[0]).value, path[1..])
  }

  /** The removal names the type tag of a list that has elements, which no path can mean. */
  predicate EmptiesList(item: Item, path: Path) {
    |path| > 1 && path[0].name in item && EmptiesListIn(item[path[0].name], path[1..])
  }

  /** A name removed below anything but a list with elements is missed by that name only. */
  lemma CutKeeps(v: Json, s: Segment, t: Segment)
    requires s != t && !(s.Index? && t.Index?)
    requires !EmptiesListIn(v, [s])
    ensures Child(Cut(v, s), t) == Child(v, t)
  {
    if s.Name? && v.Obj? && !IsMap(v) {
      assert !IsMap(Cut(v, s));
    }
  }

  lemma {:induction false} RemoveInKeeps(v: Json, p: seq<Segment>, q: seq<Segment>)
    requires PartsFrom(p, q) && !EmptiesListIn(v, p)
    ensures Walk(RemoveIn(v, p), q) == Walk(v, q)
  {
    hide Cut;
    if |p| == 1 {
      assert p == [p[0]];
      CutKeeps(v, p[0], q[0]);
    } else if p[0] == q[0] && Child(v, p[0]).Some? {
      RemoveInKeeps(Child(v, p[0]).value, p[1..], q[1..]);
    }
  }

  /** Every path that parts from the removed one keeps its value, present or absent. */
  ghost predicate RemovesNothingElse(item: Item, p: Path) {
    forall q: Path :: PartsFrom(p, q) ==> Get(Remove(item, p), q) == Get(item, q)
  }

  lemma RemoveKeeps(item: Item, p: Path, q: Path)
    requires PartsFrom(p, q) && !EmptiesList(item, p)
    ensures Get(Remove(item, p), q) == Get(item, q)
  {
    var n := p[0].name;
    if |p| > 1 && n in item && p[0] == q[0] {
      RemoveInKeeps(item[n], p[1..], q[1..]);
    }
  }

  /** The first element of the list a removal empties. */
  function FirstElement(path: seq<Segment>): seq<Segment>
    requires path != []
  {
    path[..|path| - 1] + [Index(0)]
  }

  lemma {:induction false} EmptiedIn(v: Json, p: seq<Segment>)
    requires p != [] && EmptiesListIn(v, p)
    ensures PartsFrom(p, FirstElement(p))
    ensures Walk(v, FirstElement(p)).Some? && Walk(RemoveIn(v, p), FirstElement(p)) == None
  {
    var q := FirstElement(p);
    if |p| == 1 {
      assert q == [Index(0)];
      assert Child(v, Index(0)) == Some(Elements(v)[0]);
      assert Child(Cut(v, p[0]), Index(0)) == None;
    } else {
      assert q[1..] == FirstElement(p[1..]);
      EmptiedIn(Child(v, p[0]).value, p[1..]);
    }
  }

  /** A removal leaves every path that parts from it, exactly unless it takes the tag of a list that has elements. */
  lemma RemoveExact(item: Item, p: Path)
    ensures RemovesNothingElse(item, p) <==> !EmptiesList(item, p)
  {
    if EmptiesList(item, p) {
      var n, q := p[0].name, FirstElement(p);
      assert q[1..] == FirstElement(p[1..]);
      EmptiedIn(item[n], p[1..]);
      assert PartsFrom(p, q) && Get(item, q).Some? && Get(Remove(item, p), q) == None;
    } else {
      forall q: Path | PartsFrom(p, q) ensures Get(Remove(item, p), q) == Get(item, q) {
        RemoveKeeps(item, p, q);
      }
    }
  }

  /** Such a removal: `REMOVE a.L` loses the element `a[0]`. */
  lemma ListTagRemoved()
    ensures var item: Item := map["a" := Obj(map["L" := Arr([Obj(map["S" := Str("x")])])])];
      var p, q := [Name("a"), Name("L")], [Name("a"), Index(0)];
      PartsFrom(p, q) && EmptiesList(item, p) && Get(item, q).Some? && Get(Remove(item, p), q) == None
  {
    var v := Obj(map["L" := Arr([Obj(map["S" := Str("x")])])]);
    var p, q := [Name("a"), Name("L")], [Name("a"), Index(0)];
    assert p[1..] == [Name("L")] && q[1..] == [Index(0)] == FirstElement(p[1..]);
    EmptiedIn(v, p[1..]);
  }

  // ---------------------------------------------------------------- projecting

  /** applyProjectionExpression over its resolved paths, from the value projected so far. */
  function ProjectOnto(item: Item, paths: seq<Path>, out: Item): Result<Item> {
    if paths == [] then Ok(out)
    else
      var v := Get(item, paths[0]);
      if v.None? then ProjectOnto(item, paths[1..], out)
      else
        var next := Assign(out, paths[0], v.value);
        if next.Err? then Err else ProjectOnto(item, paths[1..], next.value)
  }

  function Project(item: Item, paths: seq<Path>): Result<Item> {
    ProjectOnto(item, paths, map[])
  }

  predicate IndexFree(path: seq<Segment>) {
    forall i :: 0 <= i < |path| ==> path[i].Name?
  }

  /** An item seen as the map value around it. */
  function Root(item: Item): Json { Obj(map["M" := Obj(item)]) }

  lemma RootGet(item: Item, path: Path)
    ensures Walk(Root(item), path) == Get(item, path)
  {
    assert Entries(Root(item)) == item;
  }

  lemma RootAssign(item: Item, path: Path, x: Json)
    ensures AssignIn(Root(item), path, x) ==
            if Assign(item, path, x).Err? then Err else Ok(Root(Assign(item, path, x).value))
  {
    assert Entries(Root(item)) == item;
    if |path| > 1 {
      assert ParentIn(Root(item), path) == Parent(if path[0].name in item then Some(item[path[0].name]) else None, path[1]);
    }
    assert forall m: Item :: WithEntries(Root(item), m).fields == Root(m).fields;
  }

  /** `part` is `whole` with some map members left out. */
  predicate Part(part: Json, whole: Json) {
    part == whole ||
    (IsMap(part) && IsMap(whole) && part.fields.Keys == {"M"} &&
     forall k :: k in Entries(part) ==> k in Entries(whole) && Part(Entries(part)[k], Entries(whole)[k]))
  }

  lemma {:induction false} AssignSame(v: Json, p: seq<Segment>)
    requires p != [] && IndexFree(p) && Walk(v, p).Some?
    ensures AssignIn(v, p, Walk(v, p).value) == Ok(v)
  {
    var n := p[0].name;
    var c := Entries(v)[n];
    assert Entries(v)[n := c] == Entries(v);
    assert v.fields["M" := Obj(Entries(v))] == v.fields;
    if |p| > 1 {
      NullWalk(p[1..]);
      assert p[1..][0] == p[1];
      AssignSame(c, p[1..]);
    } else {
      assert Walk(c, p[1..]) == Some(c);
    }
  }

  lemma PartWith(part: Json, whole: Json, n: string, c: Json)
    requires IsMap(part) && IsMap(whole) && part.fields.Keys == {"M"}
    requires forall k :: k in Entries(part) ==> k in Entries(whole) && Part(Entries(part)[k], Entries(whole)[k])
    requires n in Entries(whole) && Part(c, Entries(whole)[n])
    ensures Part(SetChild(part, Name(n), c), whole)
  {
    var r := SetChild(part, Name(n), c);
    assert r.fields.Keys == {"M"};
    assert Entries(r) == Entries(part)[n := c];
  }

  /** Copying one of the whole's values into the part succeeds and leaves a part. */
  lemma {:induction false} AssignPart(part: Json, whole: Json, p: seq<Segment>)
    requires Part(part, whole) && p != [] && IndexFree(p) && Walk(whole, p).Some?
    ensures AssignIn(part, p, Walk(whole, p).value).Ok? && !BesideTag(part, p)
    ensures Part(AssignIn(part, p, Walk(whole, p).value).value, whole)
    decreases |p|
  {
    var x, n := Walk(whole, p).value, p[0].name;
    var c := Entries(whole)[n];
    if part == whole {
      AssignSame(part, p);
      AssignInReads(part, p, x);
    } else if |p| == 1 {
      assert Walk(c, p[1..]) == Some(c);
      PartWith(part, whole, n, x);
    } else {
      NullWalk(p[1..]);
      assert p[1..][0] == p[1];
      assert Child(c, p[1]).Some?;
      var u := ParentIn(part, p).value;
      assert Part(u, c) by {
        if u == EMPTY_MAP { assert Part(EMPTY_MAP, c); }
      }
      AssignPart(u, c, p[1..]);
      PartWith(part, whole, n, AssignIn(u, p[1..], x).value);
    }
  }

  /** Values already copied from the whole stay copied. */
  lemma {:induction false} AssignPartKeeps(part: Json, whole: Json, p: seq<Segment>, q: seq<Segment>)
    requires Part(part, whole) && p != [] && IndexFree(p) && IndexFree(q)
    requires Walk(whole, p).Some? && Walk(part, q).Some? && Walk(part, q) == Walk(whole, q)
    requires AssignIn(part, p, Walk(whole, p).value).Ok?
    ensures Walk(AssignIn(part, p, Walk(whole, p).value).value, q) == Walk(whole, q)
    decreases |p|
  {
    var x := Walk(whole, p).value;
    if part == whole {
      AssignSame(part, p);
    } else if q != [] && p[0] == q[0] {
      var c := Child(whole, p[0]).value;
      if |p| == 1 {
        assert Walk(c, p[1..]) == Some(c);
      } else {
        NullWalk(p[1..]);
        assert Child(c, p[1]).Some?;
        AssignPartKeeps(Child(part, p[0]).value, c, p[1..], q[1..]);
      }
    }
  }

  lemma {:induction false} PartWalk(part: Json, whole: Json, q: seq<Segment>)
    requires Part(part, whole) && IndexFree(q) && Walk(part, q).Some?
    ensures Walk(whole, q).Some? && Part(Walk(part, q).value, Walk(whole, q).value)
  {
    if q != [] {
      PartWalk(Child(part, q[0]).value, Child(whole, q[0]).value, q[1..]);
    }
  }

  predicate Comparable(p: seq<Segment>, q: seq<Segment>) { p <= q || q <= p }

  lemma {:induction false} ComparableOrDiverge(p: seq<Segment>, q: seq<Segment>)
    ensures Comparable(p, q) || Diverge(p, q)
  {
    if p != [] && q != [] && p[0] == q[0] {
      ComparableOrDiverge(p[1..], q[1..]);
      assert p == [p[0]] + p[1..] && q == [q[0]] + q[1..];
    }
  }

  /** What a projection has reached after the paths in `done`. */
  ghost predicate Projected(item: Item, done: seq<Path>, out: Item) {
    Part(Root(out), Root(item)) &&
    (forall p :: p in done && Get(item, p).Some? ==> Get(out, p) == Get(item, p)) &&
    (forall q: Path :: IndexFree(q) && Get(out, q).Some? ==> exists p :: p in done && Comparable(p, q))
  }

  lemma ProjectStep(item: Item, done: seq<Path>, out: Item, p: Path)
    requires Projected(item, done, out) && IndexFree(p) && (forall d :: d in done ==> IndexFree(d))
    requires Get(item, p).Some?
    ensures Assign(out, p, Get(item, p).value).Ok?
    ensures Projected(item, done + [p], Assign(out, p, Get(item, p).value).value)
  {
    hide Part, Assign, Get, AssignIn, Walk, BesideTag, IndexFree;
    var x := Get(item, p).value;
    RootGet(item, p);
    AssignPart(Root(out), Root(item), p);
    RootAssign(out, p, x);
    var next := Assign(out, p, x).value;
    AssignInReads(Root(out), p, x);
    RootGet(next, p);
    forall d | d in done && Get(item, d).Some? ensures Get(next, d) == Get(item, d) {
      RootGet(item, d);
      RootGet(out, d);
      RootGet(next, d);
      AssignPartKeeps(Root(out), Root(item), p, d);
    }
    forall q: Path | IndexFree(q) && Get(next, q).Some? ensures exists d :: d in done + [p] && Comparable(d, q) {
      ComparableOrDiverge(p, q);
      if Comparable(p, q) {
        assert p in done + [p];
      } else {
        RootGet(out, q);
        RootGet(next, q);
        AssignInKeeps(Root(out), p, q, x);
        var d :| d in done && Comparable(d, q);
        assert d in done + [p];
      }
    }
  }

  lemma {:induction false} ProjectOntoExact(item: Item, done: seq<Path>, paths: seq<Path>, out: Item)
    requires Projected(item, done, out)
    requires forall p :: p in done + paths ==> IndexFree(p)
    ensures ProjectOnto(item, paths, out).Ok? && Projected(item, done + paths, ProjectOnto(item, paths, out).value)
    decreases |paths|
  {
    hide Get, Assign, IndexFree, Part;
    if paths == [] {
      assert done + paths == done;
    } else {
      var p := paths[0];
      assert p in done + paths;
      assert (done + [p]) + paths[1..] == done + paths;
      if Get(item, p).Some? {
        assert forall d :: d in done ==> d in done + paths;
        ProjectStep(item, done, out, p);
        ProjectOntoExact(item, done + [p], paths[1..], Assign(out, p, Get(item, p).value).value);
      } else {
        forall q: Path | IndexFree(q) && Get(out, q).Some? ensures exists d :: d in done + [p] && Comparable(d, q) {
          var d :| d in done && Comparable(d, q);
          assert d in done + [p];
        }
        ProjectOntoExact(item, done + [p], paths[1..], out);
      }
    }
  }

  /** A projection on index-free paths succeeds and holds the item's values at those paths and nothing else. */
  lemma ProjectExact(item: Item, paths: seq<Path>)
    requires forall p :: p in paths ==> IndexFree(p)
    ensures Project(item, paths).Ok?
    ensures forall p :: p in paths ==> Get(Project(item, paths).value, p) == Get(item, p)
    ensures forall q: Path :: IndexFree(q) && Get(Project(item, paths).value, q).Some? ==>
      Get(item, q).Some? && Part(Get(Project(item, paths).value, q).value, Get(item, q).value) &&
      exists p :: p in paths && Comparable(p, q)
  {
    assert [] + paths == paths;
    NothingProjected(item);
    ProjectOntoExact(item, [], paths, map[]);
    var out := Project(item, paths).value;
    forall q: Path | IndexFree(q) && Get(out, q).Some?
      ensures Get(item, q).Some? && Part(Get(out, q).value, Get(item, q).value)
    {
      RootGet(item, q);
      RootGet(out, q);
      PartWalk(Root(out), Root(item), q);
    }
  }

  lemma NothingProjected(item: Item)
    ensures Projected(item, [], map[])
  {
    assert Entries(Root(map[])) == map[];
  }
}
