/**
 Route selection of an HTTP API (internal/apigateway/service.go): templates are matched segment by segment, and among
 the routes that match the most specific is taken, whatever order the routes are listed in.
 */
module Routes {
  import opened Strings
  import opened Wrappers

  // ---------------------------------------------------------------- paths and templates

  function NormalizePath(path: string): string {
    var p := TrimSpace(path);
    if p == "" then "/"
    else
      var q := if p[0] == '/' then p else "/" + p;
      if q != "/" && q[|q| - 1] == '/' then q[..|q| - 1] else q
  }

  function TrimLeadingSlashes(s: string): (t: string)
    ensures t != "" ==> t[0] != '/'
  {
    if s != "" && s[0] == '/' then TrimLeadingSlashes(s[1..]) else s
  }

  function TrimTrailingSlashes(s: string): (t: string)
    ensures t != "" ==> t[|t| - 1] != '/'
  {
    if s != "" && s[|s| - 1] == '/' then TrimTrailingSlashes(s[..|s| - 1]) else s
  }

  /** pathSegments. */
  function PathSegments(path: string): seq<string> {
    var t := TrimTrailingSlashes(TrimLeadingSlashes(path));
    if t == "" then [] else Split(t, '/')
  }

  /** Segments of a real path: no slashes inside, and the last one is not empty. */
  predicate Segments(a: seq<string>) {
    (forall i :: 0 <= i < |a| ==> '/' !in a[i]) && (a != [] ==> a[|a| - 1] != "")
  }

  lemma PathSegmentsOk(path: string)
    ensures Segments(PathSegments(path))
  {
    hide Split;
    var t := TrimTrailingSlashes(TrimLeadingSlashes(path));
    if t != "" {
      SplitLast(t, '/');
    }
  }

  predicate IsTemplate(segment: string) {
    |segment| >= 2 && segment[0] == '{' && segment[|segment| - 1] == '}'
  }

  function Inner(segment: string): string
    requires IsTemplate(segment)
  {
    segment[1..|segment| - 1]
  }

  predicate Greedy(segment: string) {
    IsTemplate(segment) && Inner(segment) != "" && Inner(segment)[|Inner(segment)| - 1] == '+'
  }

  /** parseTemplateSegment's name. */
  function Name(segment: string): string
    requires IsTemplate(segment)
  {
    if Greedy(segment) then Inner(segment)[..|Inner(segment)| - 1] else Inner(segment)
  }

  type Params = map<string, string>

  datatype Match = Miss | Hit(params: Params, templated: bool, specificity: nat)

  /** The loop of matchRoutePath on what is left of the template and the path. */
  function MatchRest(t: seq<string>, a: seq<string>, params: Params, templated: bool, specificity: nat): Match {
    if t == [] then if a == [] then Hit(params, templated, specificity) else Miss
    else if Greedy(t[0]) then
      if |t| > 1 then Miss else Hit(params[Name(t[0]) := Join(a, '/')], true, specificity)
    else if a == [] then Miss
    else if IsTemplate(t[0]) then MatchRest(t[1..], a[1..], params[Name(t[0]) := a[0]], true, specificity)
    else if t[0] != a[0] then Miss
    else MatchRest(t[1..], a[1..], params, templated, specificity + 1)
  }

  /** matchRoutePath on normalised paths. */
  function MatchPath(template: string, actual: string): Match {
    if template == actual then Hit(map[], false, |PathSegments(template)|)
    else MatchRest(PathSegments(template), PathSegments(actual), map[], false, 0)
  }

  method MatchRoutePath(template: string, actual: string) returns (m: Match)
    ensures m == MatchPath(template, actual)
  {
    hide IsTemplate, Inner, Name, PathSegments;
    if template == actual {
      return Hit(map[], false, |PathSegments(template)|);
    }
    var t, a := PathSegments(template), PathSegments(actual);
    var params: Params := map[];
    var templated, specificity, i: nat, j: nat := false, 0, 0, 0;
    while i < |t|
      invariant i <= |t| && j <= |a|
      invariant MatchRest(t, a, map[], false, 0) == MatchRest(t[i..], a[j..], params, templated, specificity)
      decreases |t| - i
    {
      var segment := t[i];
      assert t[i..][1..] == t[i + 1..];
      assert j < |a| ==> a[j..][1..] == a[j + 1..];
      if Greedy(segment) {
        if i != |t| - 1 {
          return Miss;
        }
        return Hit(params[Name(segment) := Join(a[j..], '/')], true, specificity);
      }
      if j >= |a| {
        return Miss;
      }
      if IsTemplate(segment) {
        params, templated := params[Name(segment) := a[j]], true;
      } else {
        if segment != a[j] {
          return Miss;
        }
        specificity := specificity + 1;
      }
      i, j := i + 1, j + 1;
    }
    return if j != |a| then Miss else Hit(params, templated, specificity);
  }

  // ---------------------------------------------------------------- substitution

  /** Filling a template in: a greedy name stands for any number of segments. */
  function Substitute(t: seq<string>, p: Params): Option<seq<string>> {
    if t == [] then Some([])
    else
      var rest := Substitute(t[1..], p);
      if rest.None? || (IsTemplate(t[0]) && Name(t[0]) !in p) then None
      else if Greedy(t[0]) then Some((if p[Name(t[0])] == "" then [] else Split(p[Name(t[0])], '/')) + rest.value)
      else if IsTemplate(t[0]) then Some([p[Name(t[0])]] + rest.value)
      else Some([t[0]] + rest.value)
  }

  /** No name occurs twice. */
  predicate DistinctNames(t: seq<string>) {
    forall i, j :: 0 <= i < j < |t| && IsTemplate(t[i]) && IsTemplate(t[j]) ==> Name(t[i]) != Name(t[j])
  }

  predicate NewNames(t: seq<string>, p: Params) {
    forall i :: 0 <= i < |t| && IsTemplate(t[i]) ==> Name(t[i]) !in p
  }

  /** A greedy segment stands last. */
  predicate GreedyLast(t: seq<string>) { forall i :: 0 <= i < |t| - 1 ==> !Greedy(t[i]) }

  predicate Extends(p: Params, q: Params) { forall k :: k in p ==> k in q && q[k] == p[k] }

  lemma {:induction false} SubstituteExtends(t: seq<string>, p: Params, q: Params)
    requires Extends(p, q) && Substitute(t, p).Some?
    ensures Substitute(t, q) == Substitute(t, p)
  {
    hide IsTemplate, Inner, Name, Split;
    if t != [] {
      SubstituteExtends(t[1..], p, q);
    }
  }

  lemma TailJoins(a: seq<string>)
    requires Segments(a)
    ensures (if Join(a, '/') == "" then [] else Split(Join(a, '/'), '/')) == a
  {
    hide Split;
    if a != [] {
      SplitJoin(a, '/');
      if |a| > 1 {
        assert |Join(a, '/')| > 0;
      }
    }
  }

  lemma RestSegments(a: seq<string>)
    requires Segments(a) && a != []
    ensures Segments(a[1..])
  {
    assert |a| > 1 ==> a[1..][|a| - 2] == a[|a| - 1];
  }

  lemma RestNames(t: seq<string>, p: Params, value: string)
    requires t != [] && DistinctNames(t) && NewNames(t, p)
    ensures DistinctNames(t[1..]) && NewNames(t[1..], p)
    ensures IsTemplate(t[0]) ==> NewNames(t[1..], p[Name(t[0]) := value])
  {
    hide Name, IsTemplate;
    var r := t[1..];
    assert forall i :: 0 <= i < |r| ==> r[i] == t[i + 1];
  }

  /** With distinct names, what a match returns fills the template in to exactly the path that was asked for. */
  lemma {:induction false} MatchFillsIn(t: seq<string>, a: seq<string>, params: Params, templated: bool, specificity: nat)
    requires Segments(a) && DistinctNames(t) && NewNames(t, params)
    requires MatchRest(t, a, params, templated, specificity).Hit?
    ensures var p := MatchRest(t, a, params, templated, specificity).params;
      Substitute(t, p) == Some(a) && Extends(params, p)
  {
    hide DistinctNames, NewNames, Segments, Split, Join, IsTemplate, Inner, Name;
    if t == [] {
    } else if Greedy(t[0]) {
      TailJoins(a);
      NewNamesFirst(t, params);
      assert t[1..] == [] && a + [] == a;
    } else {
      RestSegments(a);
      RestNames(t, params, a[0]);
      NewNamesFirst(t, params);
      assert [a[0]] + a[1..] == a;
      if IsTemplate(t[0]) {
        MatchFillsIn(t[1..], a[1..], params[Name(t[0]) := a[0]], true, specificity);
      } else {
        MatchFillsIn(t[1..], a[1..], params, templated, specificity + 1);
      }
    }
  }

  lemma NewNamesFirst(t: seq<string>, p: Params)
    requires t != [] && NewNames(t, p)
    ensures IsTemplate(t[0]) ==> Name(t[0]) !in p
  {
  }

  /** A path that some filling-in gives is matched, provided a greedy name stands last. */
  lemma {:induction false} FillingMatches(t: seq<string>, a: seq<string>, q: Params, params: Params, templated: bool, specificity: nat)
    requires GreedyLast(t) && Substitute(t, q) == Some(a)
    ensures MatchRest(t, a, params, templated, specificity).Hit?
  {
    hide Split, Join, Name, GreedyLast;
    if t != [] {
      GreedyFirst(t);
      var rest := Substitute(t[1..], q).value;
      if Greedy(t[0]) {
        assert t[1..] == [];
      } else {
        assert a[1..] == rest;
        if IsTemplate(t[0]) {
          FillingMatches(t[1..], a[1..], q, params[Name(t[0]) := a[0]], true, specificity);
        } else {
          FillingMatches(t[1..], a[1..], q, params, templated, specificity + 1);
        }
      }
    }
  }

  lemma GreedyFirst(t: seq<string>)
    requires t != [] && GreedyLast(t)
    ensures GreedyLast(t[1..]) && (Greedy(t[0]) ==> |t| == 1)
  {
    hide Greedy;
    assert forall i :: 0 <= i < |t[1..]| ==> t[1..][i] == t[i + 1];
  }

  lemma {:induction false} MatchGreedyLast(t: seq<string>, a: seq<string>, params: Params, templated: bool, specificity: nat)
    requires MatchRest(t, a, params, templated, specificity).Hit?
    ensures GreedyLast(t)
  {
    hide Greedy, Name, IsTemplate, Join;
    if t != [] && !Greedy(t[0]) {
      if IsTemplate(t[0]) {
        MatchGreedyLast(t[1..], a[1..], params[Name(t[0]) := a[0]], true, specificity);
      } else {
        MatchGreedyLast(t[1..], a[1..], params, templated, specificity + 1);
      }
      assert forall i :: 0 < i < |t| - 1 ==> t[1..][i - 1] == t[i];
    }
  }

  /**
   For a template of distinct names: it matches a path it is not equal to exactly when a greedy name stands last and
   some filling-in gives the path's segments; the parameters returned are such a filling-in.
   */
  lemma MatchExact(template: string, actual: string)
    requires template != actual && DistinctNames(PathSegments(template))
    ensures var t, a, m := PathSegments(template), PathSegments(actual), MatchPath(template, actual);
      (m.Hit? <==> GreedyLast(t) && exists q :: Substitute(t, q) == Some(a)) &&
      (m.Hit? ==> Substitute(t, m.params) == Some(a))
  {
    hide PathSegments, MatchRest, Substitute, DistinctNames, GreedyLast;
    var t, a, m := PathSegments(template), PathSegments(actual), MatchPath(template, actual);
    PathSegmentsOk(actual);
    if m.Hit? {
      MatchFillsIn(t, a, map[], false, 0);
      MatchGreedyLast(t, a, map[], false, 0);
    }
    if GreedyLast(t) {
      forall q | Substitute(t, q) == Some(a) ensures m.Hit? {
        FillingMatches(t, a, q, map[], false, 0);
      }
    }
  }

  // -- When the path can be rebuilt from the parameters.

  /** Of every path the template matches, the parameters returned give back the segments. */
  ghost predicate Rebuilds(t: seq<string>) {
    forall a :: Segments(a) && MatchRest(t, a, map[], false, 0).Hit? ==>
      Substitute(t, MatchRest(t, a, map[], false, 0).params) == Some(a)
  }

  /** The template's segments as a path, with "x" for the name at `i` and "y" for the others. */
  function Filled(t: seq<string>, i: int): (a: seq<string>)
    ensures |a| == |t|
  {
    seq(|t|, k requires 0 <= k < |t| => if !IsTemplate(t[k]) then t[k] else if k == i then "x" else "y")
  }

  lemma {:induction false} FilledMatches(t: seq<string>, i: int, params: Params, templated: bool, specificity: nat)
    requires GreedyLast(t)
    ensures MatchRest(t, Filled(t, i), params, templated, specificity).Hit?
  {
    hide IsTemplate, Name, Join, GreedyLast, Greedy;
    if t != [] {
      GreedyFirst(t);
      var a := Filled(t, i);
      assert a[1..] == Filled(t[1..], i - 1);
      if Greedy(t[0]) {
      } else if IsTemplate(t[0]) {
        FilledMatches(t[1..], i - 1, params[Name(t[0]) := a[0]], true, specificity);
      } else {
        FilledMatches(t[1..], i - 1, params, templated, specificity + 1);
      }
    }
  }

  lemma FilledSegments(t: seq<string>, i: int)
    requires Segments(t)
    ensures Segments(Filled(t, i))
  {
    hide IsTemplate;
    var a := Filled(t, i);
    forall k | 0 <= k < |a| ensures '/' !in a[k] {
    }
  }

  /** What a filling-in puts at the place of a name. */
  lemma {:induction false} SubstituteAt(t: seq<string>, p: Params, a: seq<string>, k: nat)
    requires Substitute(t, p) == Some(a) && GreedyLast(t) && |a| == |t| && k < |t| && IsTemplate(t[k])
    ensures Name(t[k]) in p
    ensures if Greedy(t[k]) then p[Name(t[k])] == "" || Split(p[Name(t[k])], '/')[0] == a[k] else p[Name(t[k])] == a[k]
  {
    hide Split, Name, GreedyLast;
    GreedyFirst(t);
    if k > 0 {
      assert a[1..] == Substitute(t[1..], p).value;
      SubstituteAt(t[1..], p, a[1..], k - 1);
    } else if Greedy(t[0]) {
      assert t[1..] == [];
    }
  }

  /** Two segments of one name cannot be filled in with different texts. */
  lemma RepeatedNameFails(t: seq<string>, p: Params, i: nat, j: nat)
    requires GreedyLast(t) && i < j < |t|
    requires IsTemplate(t[i]) && IsTemplate(t[j]) && Name(t[i]) == Name(t[j])
    ensures Substitute(t, p) != Some(Filled(t, i))
  {
    hide Split, IsTemplate, Name, Substitute;
    var a := Filled(t, i);
    if Substitute(t, p) == Some(a) {
      SubstituteAt(t, p, a, i);
      SubstituteAt(t, p, a, j);
      SplitOne("x", '/');
      assert false;
    }
  }

  /**
   The parameters of a match give back the path, for every path the template matches, exactly when no name occurs twice
   in the template (or nothing can match, because a greedy name stands before the end).
   */
  lemma RebuildExact(t: seq<string>)
    requires Segments(t)
    ensures Rebuilds(t) <==> DistinctNames(t) || !GreedyLast(t)
  {
    hide MatchRest, Substitute, GreedyLast, DistinctNames;
    if !GreedyLast(t) {
      forall a | Segments(a) ensures !MatchRest(t, a, map[], false, 0).Hit? {
        if MatchRest(t, a, map[], false, 0).Hit? {
          MatchGreedyLast(t, a, map[], false, 0);
          assert false;
        }
      }
    } else if DistinctNames(t) {
      forall a | Segments(a) && MatchRest(t, a, map[], false, 0).Hit?
        ensures Substitute(t, MatchRest(t, a, map[], false, 0).params) == Some(a)
      {
        MatchFillsIn(t, a, map[], false, 0);
      }
    } else {
      var i, j := RepeatedAt(t);
      var a := Filled(t, i);
      FilledSegments(t, i);
      FilledMatches(t, i, map[], false, 0);
      RepeatedNameFails(t, MatchRest(t, a, map[], false, 0).params, i, j);
    }
  }

  lemma RepeatedAt(t: seq<string>) returns (i: nat, j: nat)
    requires !DistinctNames(t)
    ensures i < j < |t| && IsTemplate(t[i]) && IsTemplate(t[j]) && Name(t[i]) == Name(t[j])
  {
    i, j :| 0 <= i < j < |t| && IsTemplate(t[i]) && IsTemplate(t[j]) && Name(t[i]) == Name(t[j]);
  }

  /** Such a template: of a repeated name the later segment wins. */
  lemma RepeatedNameLoses()
    ensures MatchRest(["{a}", "{a}"], ["1", "2"], map[], false, 0) == Hit(map["a" := "2"], true, 0)
    ensures Substitute(["{a}", "{a}"], map["a" := "2"]) == Some(["2", "2"])
  {
    var t := ["{a}", "{a}"];
    assert t[1..] == ["{a}"] && t[1..][1..] == [];
    assert Inner("{a}") == "a" && Name("{a}") == "a" && !Greedy("{a}");
    assert ["1", "2"][1..] == ["2"] && ["2"][1..] == [];
    var p: Params := map[];
    assert p["a" := "1"]["a" := "2"] == map["a" := "2"];
    assert MatchRest(t[1..], ["2"], p["a" := "1"], true, 0) == MatchRest([], [], p["a" := "1"]["a" := "2"], true, 0);
    var q: Params := map["a" := "2"];
    assert Substitute(t[1..][1..], q) == Some([]);
    assert ["2"] + [] == ["2"];
    assert Substitute(t[1..], q) == Some(["2"]);
    assert ["2"] + ["2"] == ["2", "2"];
  }

  function Literals(t: seq<string>): nat {
    if t == [] then 0 else Literals(t[1..]) + if IsTemplate(t[0]) then 0 else 1
  }

  /** A segmentwise match counts the literal segments and reports whether there is any other. */
  lemma {:induction false} MatchCounts(t: seq<string>, a: seq<string>, params: Params, templated: bool, specificity: nat)
    requires MatchRest(t, a, params, templated, specificity).Hit?
    ensures var m := MatchRest(t, a, params, templated, specificity);
      m.specificity == specificity + Literals(t) && (m.templated <==> templated || Literals(t) < |t|)
    ensures Literals(t) <= |t|
  {
    hide Inner, Name, IsTemplate, Join;
    if t == [] {
    } else if Greedy(t[0]) {
      assert t[1..] == [];
    } else if IsTemplate(t[0]) {
      MatchCounts(t[1..], a[1..], params[Name(t[0]) := a[0]], true, specificity);
    } else {
      MatchCounts(t[1..], a[1..], params, templated, specificity + 1);
    }
  }

  // ---------------------------------------------------------------- routes

  datatype Route = Route(key: string, target: string)

  datatype RouteKey = Invalid | Default | On(verb: string, path: string)

  /** parseRouteKey. */
  function ParseRouteKey(key: string): RouteKey {
    var k := TrimSpace(key);
    if k == "" then Invalid
    else if k == "$default" then Default
    else
      var i := IndexAny(k, {' '});
      if i == |k| then Invalid else On(Upper(TrimSpace(k[..i])), NormalizePath(k[i + 1..]))
  }

  function NormalizeRouteKey(key: string): string {
    match ParseRouteKey(key)
    case Invalid => TrimSpace(key)
    case Default => "$default"
    case On(m, path) => m + " " + path
  }

  datatype Rank = Rank(priority: nat, specificity: nat, params: Params)

  /** The candidate a route makes for a request, if it matches; paths are normalised by both callers in turn. */
  function RankOf(route: Route, verb: string, path: string): Option<Rank> {
    match ParseRouteKey(route.key)
    case Invalid => None
    case Default => None
    case On(m, template) =>
      var hit := MatchPath(NormalizePath(template), NormalizePath(NormalizePath(path)));
      if hit.Miss? || (m != Upper(verb) && m != "ANY") then None
      else
        var priority := (if m == Upper(verb) then 1 else 3) + (if hit.templated then 1 else 0);
        Some(Rank(priority, hit.specificity, hit.params))
  }

  /** The order selectRoute sorts its candidates by. */
  predicate Ahead(a: Rank, aKey: string, b: Rank, bKey: string) {
    if a.priority != b.priority then a.priority < b.priority
    else if a.specificity != b.specificity then a.specificity > b.specificity
    else TextLess(aKey, bKey)
  }

  predicate Matches(r: Route, verb: string, path: string) { RankOf(r, verb, path).Some? }

  predicate IsDefault(r: Route) { ParseRouteKey(r.key).Default? }

  /** No matching route of the list is ahead of `r`. */
  predicate Best(routes: seq<Route>, verb: string, path: string, r: Route) {
    Matches(r, verb, path) &&
    forall o :: o in routes && Matches(o, verb, path) ==>
      !Ahead(RankOf(o, verb, path).value, o.key, RankOf(r, verb, path).value, r.key)
  }

  datatype Selection = NoRoute | Chosen(route: Route, params: Params)

  /** The default route listed last. */
  function LastDefault(routes: seq<Route>): (d: Option<Route>)
    ensures d.Some? ==> IsDefault(d.value) && d.value in routes
    ensures d.None? ==> forall r :: r in routes ==> !IsDefault(r)
  {
    if routes == [] then None
    else
      var m := |routes| - 1;
      assert routes == routes[..m] + [routes[m]];
      if IsDefault(routes[m]) then Some(routes[m]) else LastDefault(routes[..m])
  }

  /** What a selection has to be: the best match; the default route only when nothing matches. */
  predicate Selects(routes: seq<Route>, verb: string, path: string, s: Selection) {
    match s
    case NoRoute => LastDefault(routes) == None && forall r :: r in routes ==> !Matches(r, verb, path)
    case Chosen(r, params) =>
      r in routes &&
      if Matches(r, verb, path) then Best(routes, verb, path, r) && params == RankOf(r, verb, path).value.params
      else LastDefault(routes) == Some(r) && params == map[] && forall o :: o in routes ==> !Matches(o, verb, path)
  }

  /** selectRoute; of the sorted candidates only the first is used, so the loop keeps that one. */
  method SelectRoute(routes: seq<Route>, verb: string, path: string) returns (s: Selection)
    ensures Selects(routes, verb, path, s)
  {
    hide RankOf, ParseRouteKey, TextLess, Best;
    var best: Option<Route>, default: Option<Route> := None, None;
    for i := 0 to |routes|
      invariant if best.Some? then best.value in routes[..i] && Best(routes[..i], verb, path, best.value)
                else forall r :: r in routes[..i] ==> !Matches(r, verb, path)
      invariant default == LastDefault(routes[..i])
    {
      var route := routes[i];
      assert routes[..i + 1] == routes[..i] + [route] && routes[..i + 1][..i] == routes[..i];
      if IsDefault(route) {
        DefaultUnmatched(route, verb, path);
        if best.Some? {
          BestStays(routes[..i], verb, path, best.value, route);
        }
        default := Some(route);
      } else if !Matches(route, verb, path) {
        if best.Some? {
          BestStays(routes[..i], verb, path, best.value, route);
        }
      } else if best.None? {
        BestAlone(routes[..i], verb, path, route);
        best := Some(route);
      } else {
        BestMatches(routes[..i], verb, path, best.value);
        BestOf(routes[..i], verb, path, best.value, route);
        if Ahead(RankOf(route, verb, path).value, route.key, RankOf(best.value, verb, path).value, best.value.key) {
          best := Some(route);
        }
      }
    }
    assert routes[..|routes|] == routes;
    if best.Some? {
      BestMatches(routes, verb, path, best.value);
      return Chosen(best.value, RankOf(best.value, verb, path).value.params);
    }
    return if default.Some? then Chosen(default.value, map[]) else NoRoute;
  }

  lemma BestMatches(routes: seq<Route>, verb: string, path: string, r: Route)
    requires Best(routes, verb, path, r)
    ensures Matches(r, verb, path)
  {
  }

  lemma DefaultUnmatched(r: Route, verb: string, path: string)
    requires IsDefault(r)
    ensures !Matches(r, verb, path)
  {
  }

  lemma BestStays(routes: seq<Route>, verb: string, path: string, r: Route, o: Route)
    requires Best(routes, verb, path, r) && !Matches(o, verb, path)
    ensures Best(routes + [o], verb, path, r)
  {
    hide RankOf, TextLess;
  }

  lemma BestAlone(routes: seq<Route>, verb: string, path: string, r: Route)
    requires Matches(r, verb, path) && forall o :: o in routes ==> !Matches(o, verb, path)
    ensures Best(routes + [r], verb, path, r)
  {
    hide RankOf, TextLess;
    TextOrder(r.key, r.key, r.key);
  }

  lemma BestOf(routes: seq<Route>, verb: string, path: string, r: Route, o: Route)
    requires Best(routes, verb, path, r) && Matches(o, verb, path)
    ensures Best(routes + [o], verb, path,
      if Ahead(RankOf(o, verb, path).value, o.key, RankOf(r, verb, path).value, r.key) then o else r)
  {
    hide RankOf, TextLess;
    forall x | x in routes && Matches(x, verb, path)
      ensures Ahead(RankOf(o, verb, path).value, o.key, RankOf(r, verb, path).value, r.key) ==>
        !Ahead(RankOf(x, verb, path).value, x.key, RankOf(o, verb, path).value, o.key)
    {
      AheadOrder(RankOf(x, verb, path).value, x.key, RankOf(o, verb, path).value, o.key, RankOf(r, verb, path).value, r.key);
    }
    TextOrder(o.key, o.key, o.key);
  }

  /** Candidates of distinct keys are strictly ordered. */
  lemma AheadOrder(a: Rank, aKey: string, b: Rank, bKey: string, c: Rank, cKey: string)
    ensures Ahead(a, aKey, b, bKey) && Ahead(b, bKey, c, cKey) ==> Ahead(a, aKey, c, cKey)
    ensures !Ahead(a, aKey, b, bKey) && !Ahead(b, bKey, a, aKey) ==> aKey == bKey
  {
    hide TextLess;
    TextOrder(aKey, bKey, cKey);
  }

  // ---------------------------------------------------------------- which route goes first

  /** A key as it is written: a verb without spaces, one space, a path. */
  lemma KeyParses(verb: string, path: string)
    requires verb != "" && (forall i :: 0 <= i < |verb| ==> !IsSpace(verb[i]))
    requires path != "" && !IsSpace(path[|path| - 1])
    ensures ParseRouteKey(verb + " " + path) == On(Upper(verb), NormalizePath(path))
  {
    hide IsSpace, Upper, NormalizePath, IndexAny, TrimSpace;
    var key := verb + " " + path;
    KeyTrimmed(verb, path);
    KeySplits(verb, path);
    NotDefaultKey(key, |verb|);
    assert key != "";
    assert verb == "" + verb + "";
    TrimSpaceStrips("", verb, "");
  }

  lemma KeyTrimmed(verb: string, path: string)
    requires verb != "" && !IsSpace(verb[0]) && path != "" && !IsSpace(path[|path| - 1])
    ensures TrimSpace(verb + " " + path) == verb + " " + path
  {
    hide IsSpace, TrimSpace;
    var key := verb + " " + path;
    assert key[0] == verb[0] && key[|key| - 1] == path[|path| - 1] && "" + key + "" == key;
    TrimSpaceStrips("", key, "");
  }

  lemma KeySplits(verb: string, path: string)
    requires forall i :: 0 <= i < |verb| ==> !IsSpace(verb[i])
    ensures var key := verb + " " + path;
      IndexAny(key, {' '}) == |verb| && key[..|verb|] == verb && key[|verb| + 1..] == path && key[|verb|] == ' '
  {
    hide IndexAny;
    var key := verb + " " + path;
    assert key[|verb|] == ' ' && forall j :: 0 <= j < |verb| ==> key[j] == verb[j];
  }

  lemma NotDefaultKey(key: string, i: nat)
    requires i < |key| && key[i] == ' '
    ensures key != "$default"
  {
    assert forall j :: 0 <= j < |"$default"| ==> "$default"[j] != ' ';
  }

  /** The route's key names this verb. */
  predicate Names(r: Route, verb: string) { ParseRouteKey(r.key).On? && ParseRouteKey(r.key).verb == verb }

  /** The normalised template of a route, and the normalised path of a request. */
  function TemplateOf(r: Route): string {
    match ParseRouteKey(r.key)
    case On(_, template) => NormalizePath(template)
    case _ => ""
  }

  function Asked(path: string): string { NormalizePath(NormalizePath(path)) }

  /** The template is the path itself, or has no named segment. */
  predicate Exact(template: string, actual: string) {
    template == actual || Literals(PathSegments(template)) == |PathSegments(template)|
  }

  /** How many segments of the path the template spells out. */
  function Spelled(template: string, actual: string): nat {
    if template == actual then |PathSegments(template)| else Literals(PathSegments(template))
  }

  /** A route answers a request exactly if its key names the verb or ANY and its template matches the path. */
  lemma MatchesExact(r: Route, verb: string, path: string)
    ensures Matches(r, verb, path) <==>
      (Names(r, Upper(verb)) || Names(r, "ANY")) && MatchPath(TemplateOf(r), Asked(path)).Hit?
    ensures Matches(r, verb, path) ==>
      RankOf(r, verb, path).value.params == MatchPath(TemplateOf(r), Asked(path)).params
  {
    hide ParseRouteKey, MatchPath, NormalizePath, Upper;
  }

  lemma RankIs(r: Route, verb: string, path: string)
    requires Matches(r, verb, path)
    ensures var k := RankOf(r, verb, path).value;
      k.priority == (if Names(r, Upper(verb)) then 1 else 3) + (if Exact(TemplateOf(r), Asked(path)) then 0 else 1) &&
      k.specificity == Spelled(TemplateOf(r), Asked(path))
  {
    hide ParseRouteKey, MatchRest, NormalizePath, Upper, PathSegments, Literals;
    var t, a := PathSegments(TemplateOf(r)), PathSegments(Asked(path));
    if TemplateOf(r) != Asked(path) {
      assert MatchRest(t, a, map[], false, 0).Hit?;
      MatchCounts(t, a, map[], false, 0);
    }
  }

  /**
   Of the routes that answer a request, the one selected names the verb itself if any does; among those that name it
   alike it has no named segments if any has none; then it spells out most segments; then its key comes first.
   */
  lemma BestPrecedes(routes: seq<Route>, verb: string, path: string, r: Route, o: Route)
    requires Best(routes, verb, path, r) && o in routes && Matches(o, verb, path)
    ensures Names(o, Upper(verb)) ==> Names(r, Upper(verb))
    ensures var p := Asked(path);
      (Names(o, Upper(verb)) <==> Names(r, Upper(verb))) ==>
        (Exact(TemplateOf(o), p) ==> Exact(TemplateOf(r), p)) &&
        ((Exact(TemplateOf(o), p) <==> Exact(TemplateOf(r), p)) ==>
          Spelled(TemplateOf(o), p) <= Spelled(TemplateOf(r), p) &&
          (Spelled(TemplateOf(o), p) == Spelled(TemplateOf(r), p) ==> !Earlier(o.key, r.key)))
  {
    hide RankOf, Names, TemplateOf, Exact, Spelled, Upper, TextLess, Earlier, Asked;
    BestMatches(routes, verb, path, r);
    RankIs(r, verb, path);
    RankIs(o, verb, path);
    TextLessExact(o.key, r.key);
  }

  // ---------------------------------------------------------------- the order of the list does not matter

  predicate DistinctKeys(routes: seq<Route>) {
    forall a, b :: a in routes && b in routes && a.key == b.key ==> a == b
  }

  predicate OneDefault(routes: seq<Route>) {
    forall a, b :: a in routes && b in routes && IsDefault(a) && IsDefault(b) ==> a == b
  }

  lemma BestUnique(routes: seq<Route>, verb: string, path: string, a: Route, b: Route)
    requires DistinctKeys(routes) && a in routes && b in routes
    requires Best(routes, verb, path, a) && Best(routes, verb, path, b)
    ensures a == b
  {
    hide RankOf, TextLess, Ahead;
    AheadOrder(RankOf(a, verb, path).value, a.key, RankOf(b, verb, path).value, b.key,
               RankOf(b, verb, path).value, b.key);
  }

  /** Some route other than the default answers the request. */
  predicate Answered(routes: seq<Route>, verb: string, path: string) {
    exists r :: r in routes && Matches(r, verb, path)
  }

  lemma SelectionIgnoresOrder(xs: seq<Route>, ys: seq<Route>, verb: string, path: string, s: Selection, t: Selection)
    requires DistinctKeys(xs) && (OneDefault(xs) || Answered(xs, verb, path)) && forall r :: r in xs <==> r in ys
    requires Selects(xs, verb, path, s) && Selects(ys, verb, path, t)
    ensures s == t
  {
    hide Best, RankOf, DistinctKeys, IsDefault;
    if s.Chosen? && t.Chosen? {
      if Matches(s.route, verb, path) && Matches(t.route, verb, path) {
        BestAlike(xs, ys, verb, path, t.route);
        BestUnique(xs, verb, path, s.route, t.route);
      } else {
        assert IsDefault(s.route) && IsDefault(t.route);
        assert !Answered(xs, verb, path);
      }
    }
  }

  lemma BestAlike(xs: seq<Route>, ys: seq<Route>, verb: string, path: string, r: Route)
    requires Best(ys, verb, path, r) && forall r :: r in xs <==> r in ys
    ensures Best(xs, verb, path, r)
  {
    hide RankOf;
  }

  /** Whatever order the routes are listed in, one request selects one route and the same parameters. */
  ghost predicate OrderFree(xs: seq<Route>, verb: string, path: string) {
    forall ys, s, t :: multiset(ys) == multiset(xs) && Selects(xs, verb, path, s) && Selects(ys, verb, path, t) ==> s == t
  }

  /** `routes` with the route at `k` listed last. */
  function MovedLast(routes: seq<Route>, k: nat): (r: seq<Route>)
    requires k < |routes|
    ensures multiset(r) == multiset(routes)
  {
    assert routes == routes[..k] + [routes[k]] + routes[k + 1..];
    routes[..k] + routes[k + 1..] + [routes[k]]
  }

  /** With two defaults and nothing else to answer, listing another default last changes the selection. */
  lemma DefaultsSwap(xs: seq<Route>, verb: string, path: string)
    requires !OneDefault(xs) && !Answered(xs, verb, path)
    ensures !OrderFree(xs, verb, path)
  {
    hide Matches, IsDefault, Best, Selects;
    var d := LastDefault(xs).value;
    var k :| 0 <= k < |xs| && IsDefault(xs[k]) && xs[k] != d;
    var ys, e := MovedLast(xs, k), xs[k];
    LastMoved(xs, k);
    UnansweredSelects(xs, verb, path, d);
    UnansweredSelects(ys, verb, path, e);
  }

  lemma LastMoved(xs: seq<Route>, k: nat)
    requires k < |xs| && IsDefault(xs[k])
    ensures LastDefault(MovedLast(xs, k)) == Some(xs[k])
    ensures forall r :: r in MovedLast(xs, k) <==> r in xs
  {
    hide IsDefault;
    var ys := MovedLast(xs, k);
    assert forall r :: r in ys <==> r in multiset(ys);
    assert forall r :: r in xs <==> r in multiset(xs);
  }

  lemma UnansweredSelects(routes: seq<Route>, verb: string, path: string, d: Route)
    requires LastDefault(routes) == Some(d) && !Answered(routes, verb, path)
    ensures Selects(routes, verb, path, Chosen(d, map[]))
  {
    hide Matches, IsDefault, Best;
  }

  /**
   For distinct keys, a request's selection does not depend on the order of the list exactly when there is at most one
   default route or some other route answers the request.
   */
  lemma OrderFreeExact(xs: seq<Route>, verb: string, path: string)
    requires DistinctKeys(xs)
    ensures OrderFree(xs, verb, path) <==> OneDefault(xs) || Answered(xs, verb, path)
  {
    hide DistinctKeys, OneDefault, Answered, Selects;
    if OneDefault(xs) || Answered(xs, verb, path) {
      forall ys, s, t | multiset(ys) == multiset(xs) && Selects(xs, verb, path, s) && Selects(ys, verb, path, t)
        ensures s == t
      {
        assert forall r :: r in xs <==> r in multiset(xs);
        assert forall r :: r in ys <==> r in multiset(ys);
        SelectionIgnoresOrder(xs, ys, verb, path, s, t);
      }
    } else {
      DefaultsSwap(xs, verb, path);
    }
  }

  /** What CreateRoute and UpdateRoute store: the normal form of a key that parses. */
  ghost predicate StoredKey(key: string) {
    exists input :: !ParseRouteKey(input).Invalid? && key == NormalizeRouteKey(input)
  }

  lemma TrimSpaceKeeps(s: string, c: char)
    requires c in s && !IsSpace(c)
    ensures c in TrimSpace(s)
  {
    hide IsSpace;
    var i :| 0 <= i < |s| && s[i] == c;
    var n := SpacesEnd(s, 0);
    var t := TrimLeft(s);
    assert t[i - n] == c;
    assert TrimRight(t)[i - n] == c;
  }

  lemma NormalizedHasSlash(path: string)
    ensures '/' in NormalizePath(path)
  {
    hide TrimSpace;
    assert NormalizePath(path)[0] == '/';
  }

  /** Of the keys that are stored only one is the default's, so distinct keys have one default. */
  lemma StoredDefault(key: string)
    requires StoredKey(key) && ParseRouteKey(key).Default?
    ensures key == "$default"
  {
    hide TrimSpace, IndexAny, Upper, NormalizePath;
    assert '/' !in "$default";
    var input :| !ParseRouteKey(input).Invalid? && key == NormalizeRouteKey(input);
    match ParseRouteKey(input)
    case Default =>
    case On(m, path) =>
      var k := TrimSpace(input);
      NormalizedHasSlash(k[IndexAny(k, {' '}) + 1..]);
      assert '/' in key;
      TrimSpaceKeeps(key, '/');
      assert false;
  }

  lemma StoredOneDefault(routes: seq<Route>)
    requires DistinctKeys(routes) && forall r :: r in routes ==> StoredKey(r.key)
    ensures OneDefault(routes)
    ensures forall verb, path :: OrderFree(routes, verb, path)
  {
    hide StoredKey, ParseRouteKey, OrderFree;
    forall a, b | a in routes && b in routes && IsDefault(a) && IsDefault(b) ensures a == b {
      StoredDefault(a.key);
      StoredDefault(b.key);
    }
    forall verb, path ensures OrderFree(routes, verb, path) {
      OrderFreeExact(routes, verb, path);
    }
  }

  lemma DefaultSpellings(target: string)
    ensures IsDefault(Route("$default", target)) && IsDefault(Route(" $default", target))
  {
    hide TrimSpace, IndexAny, Upper, NormalizePath;
    var k := "$default";
    TrimSpaceStrips("", k, "");
    TrimSpaceStrips(" ", k, "");
    assert "" + k + "" == k && " " + k + "" == " $default";
  }

  /** Two spellings of the default key, were they both listed: the last one is taken. */
  lemma TwoDefaultsDepend(path: string, x: string, y: string)
    ensures var a, b := Route("$default", x), Route(" $default", y);
      Selects([a, b], "GET", path, Chosen(b, map[])) && Selects([b, a], "GET", path, Chosen(a, map[]))
  {
    hide Matches, Best, IsDefault;
    var a, b := Route("$default", x), Route(" $default", y);
    DefaultSpellings(x);
    DefaultSpellings(y);
    DefaultUnmatched(a, "GET", path);
    DefaultUnmatched(b, "GET", path);
  }

  lemma CatchAllParses()
    ensures ParseRouteKey("ANY /{p+}") == On("ANY", "/{p+}")
  {
    hide TrimSpace, IndexAny;
    var key, verb, path := "ANY /{p+}", "ANY", "/{p+}";
    assert key == "" + key + "" && verb == "" + verb + "" && path == "" + path + "";
    TrimSpaceStrips("", key, "");
    TrimSpaceStrips("", verb, "");
    TrimSpaceStrips("", path, "");
    assert key[3] == ' ' && key[..3] == verb && key[4..] == path;
    assert IndexAny(key, {' '}) == 3;
    assert Upper(verb) == verb;
  }

  lemma CatchAllSegments()
    ensures PathSegments("/{p+}") == ["{p+}"] && NormalizePath("/{p+}") == "/{p+}"
  {
    hide TrimSpace, Split;
    var path, segment := "/{p+}", "{p+}";
    assert path == "" + path + "";
    TrimSpaceStrips("", path, "");
    assert path[1..] == segment;
    assert TrimLeadingSlashes(segment) == segment && TrimLeadingSlashes(path) == segment;
    assert TrimTrailingSlashes(segment) == segment;
    SplitOne(segment, '/');
  }

  /** A catch-all answers every request, so beside it even two defaults do no harm. */
  lemma CatchAllHidesDefaults(x: string, y: string, z: string, verb: string, path: string)
    ensures var xs := [Route("$default", x), Route(" $default", y), Route("ANY /{p+}", z)];
      !OneDefault(xs) && OrderFree(xs, verb, path)
  {
    hide ParseRouteKey, OrderFree, NormalizePath, PathSegments, Upper;
    var a, b, r := Route("$default", x), Route(" $default", y), Route("ANY /{p+}", z);
    var xs := [a, b, r];
    DefaultSpellings(x);
    DefaultSpellings(y);
    assert a in xs && b in xs && a != b && r in xs;
    CatchAllParses();
    CatchAllSegments();
    assert Greedy("{p+}");
    assert Matches(r, verb, path);
    assert DistinctKeys(xs);
    OrderFreeExact(xs, verb, path);
  }
}
