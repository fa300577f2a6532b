/**
 Container dependencies of a task definition (internal/ecs/depends.go): the depth-first cycle
 check and the validation around it.
 */
module DependsOn {
  import opened Wrappers

  // ---------------------------------------------------------------- dependency graphs

  type Adjacency = map<string, seq<string>>

  function Targets(g: Adjacency, node: string): seq<string> {
    if node in g then g[node] else []
  }

  predicate Edge(g: Adjacency, a: string, b: string) { b in Targets(g, a) }

  /** Consecutive nodes depend on one another. */
  predicate IsWalk(g: Adjacency, p: seq<string>) {
    forall i :: 0 <= i < |p| - 1 ==> Edge(g, p[i], p[i + 1])
  }

  /** A walk that comes back to where it started. */
  predicate IsCycle(g: Adjacency, p: seq<string>) {
    |p| >= 2 && IsWalk(g, p) && p[0] == p[|p| - 1]
  }

  ghost predicate Acyclic(g: Adjacency) { forall p: seq<string> :: !IsCycle(g, p) }

  /** Every node comes after all its dependencies. */
  predicate StartOrder(g: Adjacency, order: seq<string>) {
    forall i :: 0 <= i < |order| ==> forall d :: d in Targets(g, order[i]) ==> d in order[..i]
  }

  lemma OrderSnoc(g: Adjacency, order: seq<string>, node: string)
    requires StartOrder(g, order) && forall d :: d in Targets(g, node) ==> d in order
    ensures StartOrder(g, order + [node])
  {
    hide Targets;
    var longer := order + [node];
    assert longer[..|order|] == order;
    forall i | 0 <= i < |order| ensures longer[i] == order[i] && longer[..i] == order[..i] {
    }
  }

  /** A walk that ends in a node it has passed before. */
  predicate IsLasso(g: Adjacency, p: seq<string>) {
    |p| >= 2 && IsWalk(g, p) && p[|p| - 1] in p[..|p| - 1]
  }

  lemma WalkExtends(g: Adjacency, p: seq<string>, node: string)
    requires IsWalk(g, p) && (p != [] ==> Edge(g, p[|p| - 1], node))
    ensures IsWalk(g, p + [node])
  {
    hide Edge;
    var q := p + [node];
    assert forall i :: 0 <= i < |p| ==> q[i] == p[i];
  }

  /** A lasso contains a cycle. */
  lemma LassoCycle(g: Adjacency, p: seq<string>) returns (c: seq<string>)
    requires IsLasso(g, p)
    ensures IsCycle(g, c)
  {
    var i :| 0 <= i < |p| - 1 && p[i] == p[|p| - 1];
    c := p[i..];
    assert forall j :: 0 <= j < |c| ==> c[j] == p[i + j];
  }

  /** Along a walk that starts in a start order, positions strictly fall. */
  lemma {:induction false} WalkFalls(g: Adjacency, order: seq<string>, p: seq<string>, i: nat)
    requires StartOrder(g, order) && IsWalk(g, p) && |p| >= 2
    requires i < |order| && order[i] == p[0]
    ensures p[|p| - 1] in order[..i]
    decreases |p|
  {
    assert Edge(g, p[0], p[1]);
    assert p[1] in order[..i];
    if |p| > 2 {
      var j :| 0 <= j < i && order[j] == p[1];
      var q := p[1..];
      assert forall k :: 0 <= k < |q| ==> q[k] == p[k + 1];
      WalkFalls(g, order, q, j);
      assert order[..j] <= order[..i];
    }
  }

  /** A graph whose nodes can be started in order has no cycle. */
  lemma OrderedAcyclic(g: Adjacency, order: seq<string>)
    requires StartOrder(g, order) && forall n :: n in g ==> n in order
    ensures Acyclic(g)
  {
    forall p: seq<string> ensures !IsCycle(g, p) {
      if IsCycle(g, p) {
        assert Edge(g, p[0], p[1]);
        var i := First(order, p[0]);
        WalkFalls(g, order, p, i);
        assert false;
      }
    }
  }

  /** Where a node first occurs. */
  function First(s: seq<string>, x: string): (i: nat)
    requires x in s
    ensures i < |s| && s[i] == x && x !in s[..i]
  {
    if s[0] == x then 0 else
      assert s == [s[0]] + s[1..];
      var i := 1 + First(s[1..], x);
      assert s[..i] == [s[0]] + s[1..][..i - 1];
      i
  }

  /** joinCycle. */
  function Join(path: seq<string>): string
    requires path != []
  {
    if |path| == 1 then path[0] else Join(path[..|path| - 1]) + " -> " + path[|path| - 1]
  }

  /** The text of a lasso is never the empty string that stands for "no cycle". */
  lemma JoinNotEmpty(path: seq<string>)
    requires |path| >= 2
    ensures Join(path) != ""
  {
  }

  // ---------------------------------------------------------------- the search

  ghost function Universe(g: Adjacency): set<string> {
    g.Keys + set n, d | n in g && d in g[n] :: d
  }

  lemma TargetInUniverse(g: Adjacency, n: string, d: string)
    requires Edge(g, n, d)
    ensures d in Universe(g)
  {
  }

  datatype Mark = Visiting | Done

  /** findDependencyCycle's locals: the mark of every node met and the path being explored. */
  class Search {
    const adjacency: Adjacency
    var state: map<string, Mark>
    var path: seq<string>
    /** The finished nodes, in the order they were finished. */
    ghost var order: seq<string>

    constructor (adjacency: Adjacency)
      ensures this.adjacency == adjacency && path == [] && order == [] && Consistent()
    {
      this.adjacency := adjacency;
      state, path, order := map[], [], [];
    }

    ghost predicate Consistent()
      reads this
    {
      IsWalk(adjacency, path) && StartOrder(adjacency, order) &&
      (forall n :: n in path <==> n in state && state[n] == Visiting) &&
      (forall n :: n in order <==> n in state && state[n] == Done) &&
      state.Keys <= Universe(adjacency)
    }

    /** visit: "" when everything reachable from `node` is finished, else the lasso left in `path`. */
    method Visit(node: string) returns (cycle: string)
      requires Consistent() && node in Universe(adjacency)
      requires path != [] ==> Edge(adjacency, path[|path| - 1], node)
      modifies this
      ensures cycle == "" ==> Consistent() && path == old(path) && node in order && old(order) <= order
      ensures cycle == "" ==> old(state.Keys) <= state.Keys
      ensures cycle != "" ==> IsLasso(adjacency, path) && cycle == Join(path)
      decreases Universe(adjacency) - state.Keys, 0
    {
      hide Universe, StartOrder, IsWalk;
      if node in state && state[node] == Visiting {
        WalkExtends(adjacency, path, node);
        path := path + [node];
        JoinNotEmpty(path);
        assert path[..|path| - 1] == old(path);
        return Join(path);
      }
      if node in state && state[node] == Done {
        return "";
      }
      Enter(node);
      cycle := VisitTargets(node);
      if cycle != "" {
        return;
      }
      path := path[..|path| - 1];
      assert path == old(path);
      Finish(node);
    }

    /** A node met for the first time joins the path. */
    method Enter(node: string)
      requires Consistent() && node in Universe(adjacency) && node !in state
      requires path != [] ==> Edge(adjacency, path[|path| - 1], node)
      modifies this`state, this`path
      ensures Consistent() && path == old(path) + [node]
      ensures Universe(adjacency) - state.Keys < Universe(adjacency) - old(state.Keys)
      ensures old(state.Keys) <= state.Keys
    {
      hide Universe, StartOrder;
      state := state[node := Visiting];
      path := path + [node];
      assert node in Universe(adjacency) - old(state.Keys);
    }

    /** The loop of visit over the node's dependencies. */
    method VisitTargets(node: string) returns (cycle: string)
      requires Consistent() && path != [] && path[|path| - 1] == node
      modifies this
      ensures cycle == "" ==> Consistent() && path == old(path) && old(order) <= order && old(state.Keys) <= state.Keys
      ensures cycle == "" ==> forall d :: d in Targets(adjacency, node) ==> d in order
      ensures cycle != "" ==> IsLasso(adjacency, path) && cycle == Join(path)
      decreases Universe(adjacency) - state.Keys, 1
    {
      hide Universe, StartOrder, IsWalk;
      var deps := Targets(adjacency, node);
      for i := 0 to |deps|
        invariant Consistent() && path == old(path) && old(order) <= order && old(state.Keys) <= state.Keys
        invariant forall j :: 0 <= j < i ==> deps[j] in order
      {
        TargetInUniverse(adjacency, node, deps[i]);
        cycle := Visit(deps[i]);
        if cycle != "" {
          return;
        }
      }
      return "";
    }

    /** A node whose dependencies are all finished is finished after them. */
    method Finish(node: string)
      requires node in state && state[node] == Visiting && node !in path
      requires IsWalk(adjacency, path) && StartOrder(adjacency, order) && state.Keys <= Universe(adjacency)
      requires forall n :: n in path + [node] <==> n in state && state[n] == Visiting
      requires forall n :: n in order <==> n in state && state[n] == Done
      requires forall d :: d in Targets(adjacency, node) ==> d in order
      modifies this`state, this`order
      ensures Consistent() && order == old(order) + [node] && state.Keys == old(state.Keys)
    {
      hide StartOrder, IsWalk, Universe;
      OrderSnoc(adjacency, order, node);
      state := state[node := Done];
      order := order + [node];
      assert forall n :: n in path ==> n in path + [node];
    }
  }

  /** findDependencyCycle; the nodes are tried in no particular order. */
  method FindDependencyCycle(adjacency: Adjacency) returns (cycle: string, ghost order: seq<string>, ghost walk: seq<string>)
    ensures cycle == "" <==> Acyclic(adjacency)
    ensures cycle == "" ==> StartOrder(adjacency, order) && forall n :: n in adjacency ==> n in order
    ensures cycle != "" ==> IsLasso(adjacency, walk) && cycle == Join(walk)
  {
    var search := new Search(adjacency);
    var todo := adjacency.Keys;
    order, walk := [], [];
    while todo != {}
      invariant search.adjacency == adjacency && search.Consistent() && search.path == []
      invariant todo <= adjacency.Keys && forall n :: n in adjacency.Keys - todo ==> n in search.order
      decreases |todo|
    {
      var node :| node in todo;
      todo := todo - {node};
      if node !in search.state {
        cycle := search.Visit(node);
        if cycle != "" {
          walk := search.path;
          ghost var c := LassoCycle(adjacency, walk);
          return;
        }
      }
    }
    order := search.order;
    OrderedAcyclic(adjacency, order);
    return "", order, [];
  }

  // ---------------------------------------------------------------- validation

  datatype Dependency = Dependency(container: string, condition: string)

  datatype Container = Container(name: string, essential: Option<bool>, dependsOn: seq<Dependency>)

  datatype Error = Unknown | OnItself | BadCondition | ExitOfEssential | Cycle(text: string)

  /** Whether the last definition of a name is essential; containers are essential unless they say otherwise. */
  function Essential(cds: seq<Container>, name: string): bool {
    if cds == [] then false
    else
      var cd := cds[|cds| - 1];
      if cd.name == name then cd.essential.None? || cd.essential.value
      else Essential(cds[..|cds| - 1], name)
  }

  predicate IsExit(condition: string) { condition == "COMPLETE" || condition == "SUCCESS" }

  predicate IsCondition(condition: string) { condition == "START" || condition == "HEALTHY" || IsExit(condition) }

  /** What is wrong with one dependency, checked in this order. */
  function Fault(cds: seq<Container>, names: set<string>, cd: Container, dep: Dependency): Option<Error> {
    if dep.container !in names then Some(Unknown)
    else if dep.container == cd.name then Some(OnItself)
    else if !IsCondition(dep.condition) then Some(BadCondition)
    else if IsExit(dep.condition) && Essential(cds, dep.container) then Some(ExitOfEssential)
    else None
  }

  /** `a` depends on `b` according to the definitions. */
  predicate DependsOnContainer(cds: seq<Container>, a: string, b: string) {
    exists cd :: cd in cds && cd.name == a && exists d :: d in cd.dependsOn && d.container == b
  }

  /** The graph has exactly the dependencies of the definitions. */
  ghost predicate Depicts(g: Adjacency, cds: seq<Container>) {
    forall a, b :: Edge(g, a, b) <==> DependsOnContainer(cds, a, b)
  }

  /** The first fault of a container's dependencies, in order. */
  function FirstFault(cds: seq<Container>, names: set<string>, cd: Container, deps: seq<Dependency>): Option<Error> {
    if deps == [] then None
    else if Fault(cds, names, cd, deps[0]) != None then Fault(cds, names, cd, deps[0])
    else FirstFault(cds, names, cd, deps[1..])
  }

  /** The first fault of any of the containers in `rest`. */
  function FirstFaultIn(cds: seq<Container>, names: set<string>, rest: seq<Container>): Option<Error> {
    if rest == [] then None
    else if FirstFault(cds, names, rest[0], rest[0].dependsOn) != None then FirstFault(cds, names, rest[0], rest[0].dependsOn)
    else FirstFaultIn(cds, names, rest[1..])
  }

  lemma {:induction false} FirstFaultFinds(cds: seq<Container>, names: set<string>, cd: Container, deps: seq<Dependency>)
    ensures FirstFault(cds, names, cd, deps) == None <==> forall d :: d in deps ==> Fault(cds, names, cd, d) == None
  {
    hide Fault;
    if deps != [] {
      FirstFaultFinds(cds, names, cd, deps[1..]);
      assert forall d :: d in deps <==> d == deps[0] || d in deps[1..];
    }
  }

  lemma {:induction false} FirstFaultInFinds(cds: seq<Container>, names: set<string>, rest: seq<Container>)
    ensures FirstFaultIn(cds, names, rest) == None <==>
      forall cd, d :: cd in rest && d in cd.dependsOn ==> Fault(cds, names, cd, d) == None
  {
    hide Fault, FirstFault;
    if rest != [] {
      FirstFaultFinds(cds, names, rest[0], rest[0].dependsOn);
      FirstFaultInFinds(cds, names, rest[1..]);
      assert forall cd :: cd in rest <==> cd == rest[0] || cd in rest[1..];
    }
  }

  /** The adjacency after a container's dependencies are appended. */
  function WithTargets(g: Adjacency, name: string, deps: seq<Dependency>): Adjacency {
    if deps == [] then g
    else
      var before := WithTargets(g, name, deps[..|deps| - 1]);
      before[name := Targets(before, name) + [deps[|deps| - 1].container]]
  }

  /** The adjacency validateDependsOn builds. */
  function Build(cds: seq<Container>): Adjacency {
    if cds == [] then map[]
    else
      var cd := cds[|cds| - 1];
      WithTargets(Build(cds[..|cds| - 1]), cd.name, cd.dependsOn)
  }

  lemma {:induction false} WithTargetsEdges(g: Adjacency, name: string, deps: seq<Dependency>)
    ensures forall a, b :: Edge(WithTargets(g, name, deps), a, b) <==>
      Edge(g, a, b) || (a == name && exists d :: d in deps && d.container == b)
  {
    if deps != [] {
      var m := |deps| - 1;
      var last := deps[m];
      WithTargetsEdges(g, name, deps[..m]);
      assert deps == deps[..m] + [last];
      forall a, b
        ensures Edge(WithTargets(g, name, deps), a, b) <==>
          Edge(g, a, b) || (a == name && exists d :: d in deps && d.container == b)
      {
        assert Edge(WithTargets(g, name, deps), a, b) <==>
          Edge(WithTargets(g, name, deps[..m]), a, b) || (a == name && b == last.container);
        assert (exists d :: d in deps && d.container == b) <==>
          (exists d :: d in deps[..m] && d.container == b) || b == last.container;
      }
    }
  }

  /** The graph that is searched has exactly the declared dependencies. */
  lemma {:induction false} BuildDepicts(cds: seq<Container>)
    ensures Depicts(Build(cds), cds)
  {
    hide Edge, WithTargets;
    if cds != [] {
      var m := |cds| - 1;
      BuildDepicts(cds[..m]);
      WithTargetsEdges(Build(cds[..m]), cds[m].name, cds[m].dependsOn);
      assert cds == cds[..m] + [cds[m]];
      forall a, b ensures Edge(Build(cds), a, b) <==> DependsOnContainer(cds, a, b) {
        assert DependsOnContainer(cds, a, b) <==>
          (DependsOnContainer(cds[..m], a, b) || (a == cds[m].name && exists d :: d in cds[m].dependsOn && d.container == b));
      }
    } else {
      assert forall a, b :: !Edge(map[], a, b) by { NoEdges(); }
    }
  }

  lemma NoEdges()
    ensures forall a, b :: !Edge(map[], a, b)
  {
  }

  // -- What acceptance means for the definitions.

  /** The last definition of the name is of an essential container: one that does not say it is not. */
  ghost predicate Lasting(cds: seq<Container>, name: string) {
    exists i :: 0 <= i < |cds| && cds[i].name == name && cds[i].essential != Some(false) &&
      forall j :: i < j < |cds| ==> cds[j].name != name
  }

  /** The dependency names another listed container, waits for something known, and not for an essential container's exit. */
  ghost predicate Waits(cds: seq<Container>, names: set<string>, cd: Container, dep: Dependency) {
    dep.container in names && dep.container != cd.name && dep.condition in {"START", "COMPLETE", "SUCCESS", "HEALTHY"} &&
    (dep.condition in {"COMPLETE", "SUCCESS"} ==> !Lasting(cds, dep.container))
  }

  /** Containers that wait for each other, each for the next and the last for the first. */
  ghost predicate Ring(cds: seq<Container>, p: seq<string>) {
    |p| >= 2 && p[0] == p[|p| - 1] && forall i :: 0 <= i < |p| - 1 ==> DependsOnContainer(cds, p[i], p[i + 1])
  }

  lemma {:induction false} EssentialExact(cds: seq<Container>, name: string)
    ensures Essential(cds, name) <==> Lasting(cds, name)
  {
    if cds != [] {
      var m := |cds| - 1;
      EssentialExact(cds[..m], name);
      if cds[m].name == name {
        if cds[m].essential.Some? {
          assert cds[m].essential.value == true || cds[m].essential.value == false;
        }
      } else if Lasting(cds[..m], name) {
        var i :| 0 <= i < m && cds[..m][i].name == name && cds[..m][i].essential != Some(false) &&
          forall j :: i < j < m ==> cds[..m][j].name != name;
        assert cds[i] == cds[..m][i];
        assert forall j :: i < j < m ==> cds[j] == cds[..m][j];
      }
    }
  }

  /** A dependency is at fault exactly if it may not be waited for, and the reason given is true of it. */
  lemma FaultExact(cds: seq<Container>, names: set<string>, cd: Container, dep: Dependency)
    ensures Fault(cds, names, cd, dep) == None <==> Waits(cds, names, cd, dep)
    ensures Fault(cds, names, cd, dep) == Some(Unknown) <==> dep.container !in names
    ensures Fault(cds, names, cd, dep) == Some(OnItself) ==> dep.container == cd.name
    ensures Fault(cds, names, cd, dep) == Some(BadCondition) ==>
      dep.condition !in {"START", "COMPLETE", "SUCCESS", "HEALTHY"}
    ensures Fault(cds, names, cd, dep) == Some(ExitOfEssential) ==>
      dep.condition in {"COMPLETE", "SUCCESS"} && Lasting(cds, dep.container)
  {
    hide Essential, Lasting;
    EssentialExact(cds, dep.container);
  }

  /** The definitions are accepted exactly if every dependency may be waited for and no containers wait in a ring. */
  lemma AcceptedExact(cds: seq<Container>, names: set<string>)
    ensures (forall cd, d :: cd in cds && d in cd.dependsOn ==> Fault(cds, names, cd, d) == None) && Acyclic(Build(cds)) <==>
            (forall cd, d :: cd in cds && d in cd.dependsOn ==> Waits(cds, names, cd, d)) && forall p :: !Ring(cds, p)
  {
    hide Fault, Waits, Build, Edge, DependsOnContainer;
    forall cd, d ensures Fault(cds, names, cd, d) == None <==> Waits(cds, names, cd, d) {
      FaultExact(cds, names, cd, d);
    }
    BuildDepicts(cds);
    forall p: seq<string> ensures IsCycle(Build(cds), p) <==> Ring(cds, p) {
    }
  }

  /** validateDependsOn. */
  method ValidateDependsOn(cds: seq<Container>, names: set<string>) returns (r: Option<Error>, ghost order: seq<string>)
    ensures r == None <==>
      (forall cd, d :: cd in cds && d in cd.dependsOn ==> Fault(cds, names, cd, d) == None) && Acyclic(Build(cds))
    ensures r == None <==>
      (forall cd, d :: cd in cds && d in cd.dependsOn ==> Waits(cds, names, cd, d)) && forall p :: !Ring(cds, p)
    ensures FirstFaultIn(cds, names, cds) != None ==> r == FirstFaultIn(cds, names, cds)
    ensures r == None ==> StartOrder(Build(cds), order) && forall n :: n in Build(cds) ==> n in order
  {
    hide Fault, Acyclic, StartOrder, Waits, Ring;
    FirstFaultInFinds(cds, names, cds);
    AcceptedExact(cds, names);
    order := [];
    var adjacency: Adjacency := map[];
    for i := 0 to |cds|
      invariant adjacency == Build(cds[..i])
      invariant FirstFaultIn(cds, names, cds) == FirstFaultIn(cds, names, cds[i..])
    {
      var cd := cds[i];
      assert cds[..i + 1][..i] == cds[..i] && cds[i..][1..] == cds[i + 1..];
      for j := 0 to |cd.dependsOn|
        invariant adjacency == WithTargets(Build(cds[..i]), cd.name, cd.dependsOn[..j])
        invariant FirstFault(cds, names, cd, cd.dependsOn) == FirstFault(cds, names, cd, cd.dependsOn[j..])
      {
        var dep := cd.dependsOn[j];
        var fault := Fault(cds, names, cd, dep);
        assert cd.dependsOn[j..][1..] == cd.dependsOn[j + 1..];
        if fault != None {
          return fault, [];
        }
        assert cd.dependsOn[..j + 1][..j] == cd.dependsOn[..j];
        adjacency := adjacency[cd.name := Targets(adjacency, cd.name) + [dep.container]];
      }
      assert cd.dependsOn[..|cd.dependsOn|] == cd.dependsOn;
    }
    assert cds[..|cds|] == cds;
    ghost var walk;
    var cycle;
    cycle, order, walk := FindDependencyCycle(adjacency);
    if cycle != "" {
      return Some(Cycle(cycle)), [];
    }
    return None, order;
  }
}
