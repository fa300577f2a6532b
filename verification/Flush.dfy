/**
 Which ECS resources a targeted flush selects (internal/cli/flush.go).  Each resource carries the
 references its accessors read (trimmed, "" when absent) and whether it matched the request itself.
 */
module Flush {
  import opened Strings

  datatype Cluster = Cluster(ref: string, matched: bool)
  datatype Service = Service(name: string, cluster: string, taskDefinition: string, matched: bool)
  datatype Task = Task(group: string, cluster: string, taskDefinition: string, matched: bool)
  datatype TaskDefinition = TaskDefinition(ref: string, matched: bool)

  datatype Inventory = Inventory(
    clusters: seq<Cluster>, services: seq<Service>, tasks: seq<Task>, definitions: seq<TaskDefinition>)

  // ---------------------------------------------------------------- references

  /** The text after the last slash, or the whole text. */
  function AfterSlash(s: string): string {
    if s == "" || s[|s| - 1] == '/' then "" else AfterSlash(s[..|s| - 1]) + [s[|s| - 1]]
  }

  /** ecsRefKeys: the lower-cased reference, and its part after the last slash. */
  function Keys(ref: string): set<string> {
    var r := Lower(TrimSpace(ref));
    if r == "" then {}
    else if '/' in r && AfterSlash(r) != "" then {r, AfterSlash(r)}
    else {r}
  }

  /** hasECSRef. */
  predicate HasRef(refs: set<string>, ref: string) { Keys(ref) * refs != {} }

  /** ecsServiceNameFromGroup. */
  function ServiceOfGroup(group: string): string {
    if "service:" <= Lower(group) then group[8..] else ""
  }

  // ---------------------------------------------------------------- the association rules

  /** What the selection can establish: resources by position, and the references and names it has collected. */
  datatype Fact =
    | SelCluster(i: nat) | SelService(i: nat) | SelTask(i: nat) | SelDefinition(i: nat)
    | ClusterRef(key: string) | DefinitionRef(key: string) | ServiceName(name: string)

  predicate Linked(s: iset<Fact>, cluster: string, definition: string) {
    (exists k :: k in Keys(cluster) && ClusterRef(k) in s) || (exists k :: k in Keys(definition) && DefinitionRef(k) in s)
  }

  /** One rule turns facts of `s` into the fact `f`. */
  ghost predicate Derives(inv: Inventory, s: iset<Fact>, f: Fact) {
    match f
    case SelCluster(i) =>
      i < |inv.clusters| && (inv.clusters[i].matched || exists k :: k in Keys(inv.clusters[i].ref) && ClusterRef(k) in s)
    case SelDefinition(i) =>
      i < |inv.definitions| &&
      (inv.definitions[i].matched || exists k :: k in Keys(inv.definitions[i].ref) && DefinitionRef(k) in s)
    case SelService(i) =>
      i < |inv.services| &&
      (inv.services[i].matched || Linked(s, inv.services[i].cluster, inv.services[i].taskDefinition))
    case SelTask(i) =>
      i < |inv.tasks| &&
      (inv.tasks[i].matched || Linked(s, inv.tasks[i].cluster, inv.tasks[i].taskDefinition) ||
       ServiceName(Lower(ServiceOfGroup(inv.tasks[i].group))) in s)
    case ClusterRef(k) =>
      (exists i :: 0 <= i < |inv.clusters| && inv.clusters[i].matched && k in Keys(inv.clusters[i].ref)) ||
      (exists i: nat :: i < |inv.services| && SelService(i) in s && k in Keys(inv.services[i].cluster)) ||
      (exists i: nat :: i < |inv.tasks| && SelTask(i) in s && k in Keys(inv.tasks[i].cluster))
    case DefinitionRef(k) =>
      (exists i :: 0 <= i < |inv.definitions| && inv.definitions[i].matched && k in Keys(inv.definitions[i].ref)) ||
      (exists i: nat :: i < |inv.services| && SelService(i) in s && k in Keys(inv.services[i].taskDefinition)) ||
      (exists i: nat :: i < |inv.tasks| && SelTask(i) in s && k in Keys(inv.tasks[i].taskDefinition))
    case ServiceName(n) =>
      exists i: nat :: i < |inv.services| && SelService(i) in s && n == Lower(inv.services[i].name)
  }

  /** No rule adds anything. */
  ghost predicate Closed(inv: Inventory, s: iset<Fact>) { forall f :: Derives(inv, s, f) ==> f in s }

  /** The least closed set: in every closed set, and closed itself. */
  ghost predicate IsLeast(inv: Inventory, s: iset<Fact>) {
    Closed(inv, s) && forall t: iset<Fact> :: Closed(inv, t) ==> s <= t
  }

  /** Every fact follows from the rules: it is in every closed set. */
  ghost predicate Follows(inv: Inventory, s: iset<Fact>) {
    forall t: iset<Fact> :: Closed(inv, t) ==> s <= t
  }

  lemma DerivesMonotone(inv: Inventory, s: iset<Fact>, t: iset<Fact>, f: Fact)
    requires s <= t && Derives(inv, s, f)
    ensures Derives(inv, t, f)
  {
    hide Keys, Lower, ServiceOfGroup;
  }

  /** Derived facts can be added without losing that everything follows. */
  lemma FollowsStep(inv: Inventory, s: iset<Fact>, t: iset<Fact>)
    requires Follows(inv, s) && forall f :: f in t ==> f in s || Derives(inv, s, f)
    ensures Follows(inv, t)
  {
    hide Derives;
    forall c: iset<Fact> | Closed(inv, c) ensures t <= c {
      forall f | f in t && f !in s ensures f in c {
        DerivesMonotone(inv, s, c, f);
      }
    }
  }

  lemma LeastUnique(inv: Inventory, s: iset<Fact>, t: iset<Fact>)
    requires IsLeast(inv, s) && IsLeast(inv, t)
    ensures s == t
  {
    hide Closed;
  }

  // ---------------------------------------------------------------- the loop

  /** Positions not selected yet. */
  function Unset(b: seq<bool>): nat {
    if b == [] then 0 else Unset(b[..|b| - 1]) + if b[|b| - 1] then 0 else 1
  }

  lemma {:induction false} SetOne(b: seq<bool>, i: nat)
    requires i < |b| && !b[i]
    ensures Unset(b[i := true]) == Unset(b) - 1
  {
    var m := |b| - 1;
    if i == m {
      assert b[i := true][..m] == b[..m];
    } else {
      SetOne(b[..m], i);
      assert b[i := true][..m] == b[..m][i := true];
    }
  }

  /** Every reference key an inventory mentions. */
  ghost function AllKeys(inv: Inventory): set<string> {
    (set i, k | 0 <= i < |inv.clusters| && k in Keys(inv.clusters[i].ref) :: k) +
    (set i, k | 0 <= i < |inv.definitions| && k in Keys(inv.definitions[i].ref) :: k) +
    (set i, k | 0 <= i < |inv.services| && k in Keys(inv.services[i].cluster) :: k) +
    (set i, k | 0 <= i < |inv.services| && k in Keys(inv.services[i].taskDefinition) :: k) +
    (set i, k | 0 <= i < |inv.tasks| && k in Keys(inv.tasks[i].cluster) :: k) +
    (set i, k | 0 <= i < |inv.tasks| && k in Keys(inv.tasks[i].taskDefinition) :: k)
  }

  /** hasECSRef on either reference of a service or task. */
  predicate LinkedRefs(clusterRefs: set<string>, definitionRefs: set<string>, cluster: string, definition: string) {
    HasRef(clusterRefs, cluster) || HasRef(definitionRefs, definition)
  }

  predicate ServiceSettled(
    inv: Inventory, services: seq<bool>, clusterRefs: set<string>, definitionRefs: set<string>, i: nat)
  {
    i < |services| && i < |inv.services| ==>
      services[i] || !LinkedRefs(clusterRefs, definitionRefs, inv.services[i].cluster, inv.services[i].taskDefinition)
  }

  predicate TaskSettled(
    inv: Inventory, tasks: seq<bool>, clusterRefs: set<string>, definitionRefs: set<string>, names: set<string>, i: nat)
  {
    i < |tasks| && i < |inv.tasks| ==>
      tasks[i] ||
      !(LinkedRefs(clusterRefs, definitionRefs, inv.tasks[i].cluster, inv.tasks[i].taskDefinition) ||
        Lower(ServiceOfGroup(inv.tasks[i].group)) in names)
  }

  predicate ServiceCollected(
    inv: Inventory, services: seq<bool>, clusterRefs: set<string>, definitionRefs: set<string>, i: nat)
  {
    i < |services| && i < |inv.services| && services[i] ==>
      Keys(inv.services[i].cluster) <= clusterRefs && Keys(inv.services[i].taskDefinition) <= definitionRefs
  }

  predicate TaskCollected(
    inv: Inventory, tasks: seq<bool>, clusterRefs: set<string>, definitionRefs: set<string>, i: nat)
  {
    i < |tasks| && i < |inv.tasks| && tasks[i] ==>
      Keys(inv.tasks[i].cluster) <= clusterRefs && Keys(inv.tasks[i].taskDefinition) <= definitionRefs
  }

  predicate ClusterSettled(inv: Inventory, clusters: seq<bool>, clusterRefs: set<string>, i: nat) {
    i < |clusters| && i < |inv.clusters| ==> clusters[i] || !HasRef(clusterRefs, inv.clusters[i].ref)
  }

  predicate DefinitionSettled(inv: Inventory, definitions: seq<bool>, definitionRefs: set<string>, i: nat) {
    i < |definitions| && i < |inv.definitions| ==> definitions[i] || !HasRef(definitionRefs, inv.definitions[i].ref)
  }

  lemma Shrinks(a: set<string>, b: set<string>)
    requires a < b
    ensures |a| < |b|
  {
    assert |b - a| > 0;
    assert b == a + (b - a);
  }

  /** A selected service brings the references it names. */
  lemma ServiceBrings(inv: Inventory, s: iset<Fact>, i: nat)
    requires i < |inv.services| && SelService(i) in s
    ensures Keys(inv.services[i].cluster) <= AllKeys(inv) && Keys(inv.services[i].taskDefinition) <= AllKeys(inv)
    ensures forall k :: k in Keys(inv.services[i].cluster) ==> Derives(inv, s, ClusterRef(k))
    ensures forall k :: k in Keys(inv.services[i].taskDefinition) ==> Derives(inv, s, DefinitionRef(k))
  {
    hide Keys;
  }

  lemma TaskBrings(inv: Inventory, s: iset<Fact>, i: nat)
    requires i < |inv.tasks| && SelTask(i) in s
    ensures Keys(inv.tasks[i].cluster) <= AllKeys(inv) && Keys(inv.tasks[i].taskDefinition) <= AllKeys(inv)
    ensures forall k :: k in Keys(inv.tasks[i].cluster) ==> Derives(inv, s, ClusterRef(k))
    ensures forall k :: k in Keys(inv.tasks[i].taskDefinition) ==> Derives(inv, s, DefinitionRef(k))
  {
    hide Keys;
  }

  /** selectECSFlushResources's flags and reference maps. */
  class Selection {
    const inv: Inventory
    var clusters: seq<bool>
    var services: seq<bool>
    var tasks: seq<bool>
    var definitions: seq<bool>
    var clusterRefs: set<string>
    var definitionRefs: set<string>
    var serviceNames: set<string>

    ghost predicate Has(f: Fact)
      reads this
    {
      match f
      case SelCluster(i) => i < |clusters| && clusters[i]
      case SelService(i) => i < |services| && services[i]
      case SelTask(i) => i < |tasks| && tasks[i]
      case SelDefinition(i) => i < |definitions| && definitions[i]
      case ClusterRef(k) => k in clusterRefs
      case DefinitionRef(k) => k in definitionRefs
      case ServiceName(n) => n in serviceNames
    }

    ghost function Facts(): iset<Fact>
      reads this
    {
      iset f: Fact | Has(f)
    }

    ghost predicate Shaped()
      reads this
    {
      |clusters| == |inv.clusters| && |services| == |inv.services| && |tasks| == |inv.tasks| &&
      |definitions| == |inv.definitions| && clusterRefs <= AllKeys(inv) && definitionRefs <= AllKeys(inv)
    }

    ghost predicate SeededClusters()
      requires |clusters| == |inv.clusters|
      reads this`clusters, this`clusterRefs
    {
      forall i :: 0 <= i < |clusters| && inv.clusters[i].matched ==> clusters[i] && Keys(inv.clusters[i].ref) <= clusterRefs
    }

    ghost predicate SeededDefinitions()
      requires |definitions| == |inv.definitions|
      reads this`definitions, this`definitionRefs
    {
      forall i :: 0 <= i < |definitions| && inv.definitions[i].matched ==>
        definitions[i] && Keys(inv.definitions[i].ref) <= definitionRefs
    }

    ghost predicate SeededServices()
      requires |services| == |inv.services|
      reads this`services
    {
      forall i :: 0 <= i < |services| && inv.services[i].matched ==> services[i]
    }

    ghost predicate SeededTasks()
      requires |tasks| == |inv.tasks|
      reads this`tasks
    {
      forall i :: 0 <= i < |tasks| && inv.tasks[i].matched ==> tasks[i]
    }

    ghost predicate Named()
      requires |services| == |inv.services|
      reads this`services, this`serviceNames
    {
      forall i :: 0 <= i < |services| && services[i] ==> Lower(inv.services[i].name) in serviceNames
    }

    /** The direct matches and what they bring are in. */
    ghost predicate Seeded()
      requires Shaped()
      reads this
    {
      SeededClusters() && SeededDefinitions() && SeededServices() && SeededTasks() && Named()
    }

    ghost predicate Valid()
      reads this
    {
      Shaped() && Seeded() && Follows(inv, Facts())
    }

    ghost function Measure(): nat
      reads this
    {
      Unset(clusters) + Unset(services) + Unset(tasks) + Unset(definitions) +
      |AllKeys(inv) - clusterRefs| + |AllKeys(inv) - definitionRefs|
    }

    /** Nothing moved since the old state. */
    twostate predicate Still()
      reads this
    {
      clusters == old(clusters) && services == old(services) && tasks == old(tasks) && definitions == old(definitions) &&
      clusterRefs == old(clusterRefs) && definitionRefs == old(definitionRefs) && serviceNames == old(serviceNames)
    }

    /** What a pass over one kind of resource guarantees about change. */
    twostate predicate Progress(changed: bool)
      reads this
    {
      Measure() <= old(Measure()) && (changed ==> Measure() < old(Measure())) && (!changed ==> Still())
    }

    lemma LinkedBy(s: iset<Fact>, cluster: string, definition: string)
      requires s == Facts() && LinkedRefs(clusterRefs, definitionRefs, cluster, definition)
      ensures Linked(s, cluster, definition)
    {
      hide Keys;
      if HasRef(clusterRefs, cluster) {
        var k :| k in Keys(cluster) * clusterRefs;
        assert ClusterRef(k) in s;
      } else {
        var k :| k in Keys(definition) * definitionRefs;
        assert DefinitionRef(k) in s;
      }
    }

    // -- Seeding with the direct matches.

    constructor (inv: Inventory)
      ensures this.inv == inv && Shaped() && Named() && Follows(inv, Facts())
    {
      this.inv := inv;
      clusters := seq(|inv.clusters|, _ => false);
      services := seq(|inv.services|, _ => false);
      tasks := seq(|inv.tasks|, _ => false);
      definitions := seq(|inv.definitions|, _ => false);
      clusterRefs, definitionRefs, serviceNames := {}, {}, {};
    }

    method SeedClusters()
      requires Shaped() && Follows(inv, Facts())
      modifies this`clusters, this`clusterRefs
      ensures Shaped() && Follows(inv, Facts()) && SeededClusters()
    {
      hide Keys, Follows;
      for i := 0 to |inv.clusters|
        invariant Shaped() && Follows(inv, Facts())
        invariant forall j :: 0 <= j < i && inv.clusters[j].matched ==> clusters[j] && Keys(inv.clusters[j].ref) <= clusterRefs
      {
        if inv.clusters[i].matched {
          ghost var before := Facts();
          clusters := clusters[i := true];
          clusterRefs := clusterRefs + Keys(inv.clusters[i].ref);
          assert clusterRefs <= AllKeys(inv);
          FollowsStep(inv, before, Facts());
        }
      }
    }

    method SeedDefinitions()
      requires Shaped() && Follows(inv, Facts())
      modifies this`definitions, this`definitionRefs
      ensures Shaped() && Follows(inv, Facts()) && SeededDefinitions()
    {
      hide Keys, Follows;
      for i := 0 to |inv.definitions|
        invariant Shaped() && Follows(inv, Facts())
        invariant forall j :: 0 <= j < i && inv.definitions[j].matched ==>
          definitions[j] && Keys(inv.definitions[j].ref) <= definitionRefs
      {
        if inv.definitions[i].matched {
          ghost var before := Facts();
          definitions := definitions[i := true];
          definitionRefs := definitionRefs + Keys(inv.definitions[i].ref);
          assert definitionRefs <= AllKeys(inv);
          FollowsStep(inv, before, Facts());
        }
      }
    }

    method SeedServices()
      requires Shaped() && Follows(inv, Facts()) && Named()
      modifies this`services, this`serviceNames
      ensures Shaped() && Follows(inv, Facts()) && SeededServices() && Named()
    {
      hide Keys, Lower, Follows, AllKeys;
      for i := 0 to |inv.services|
        invariant Shaped() && Follows(inv, Facts()) && Named()
        invariant forall j :: 0 <= j < i && inv.services[j].matched ==> services[j]
      {
        if inv.services[i].matched {
          AddService(i);
        }
      }
    }

    method SeedTasks()
      requires Shaped() && Follows(inv, Facts())
      modifies this`tasks
      ensures Shaped() && Follows(inv, Facts()) && SeededTasks()
    {
      hide Keys, Lower, Follows, AllKeys, ServiceOfGroup;
      for i := 0 to |inv.tasks|
        invariant Shaped() && Follows(inv, Facts())
        invariant forall j :: 0 <= j < i && inv.tasks[j].matched ==> tasks[j]
      {
        if inv.tasks[i].matched {
          ghost var before := Facts();
          tasks := tasks[i := true];
          FollowsStep(inv, before, Facts());
        }
      }
    }

    /** A service that some rule selects is selected, with its name. */
    method AddService(i: nat)
      requires Shaped() && Follows(inv, Facts()) && Named() && i < |services|
      requires Derives(inv, Facts(), SelService(i))
      modifies this`services, this`serviceNames
      ensures Shaped() && Follows(inv, Facts()) && Named() && services == old(services)[i := true]
    {
      hide Keys, Lower, AllKeys, Follows;
      ghost var before := Facts();
      services := services[i := true];
      ghost var middle := before + iset{SelService(i)};
      FollowsStep(inv, before, middle);
      serviceNames := serviceNames + {Lower(inv.services[i].name)};
      FollowsStep(inv, middle, Facts());
    }

    // -- One pass over each kind of resource.

    method SelectServices() returns (changed: bool)
      requires Valid()
      modifies this`services, this`serviceNames
      ensures Valid() && Progress(changed)
      ensures forall i: nat :: ServiceSettled(inv, services, clusterRefs, definitionRefs, i)
    {
      hide Keys, Lower, AllKeys, Follows, SeededClusters, SeededDefinitions, SeededTasks, Linked, LinkedRefs, HasRef;
      changed := false;
      for i := 0 to |inv.services|
        invariant Valid() && Progress(changed)
        invariant forall j: nat :: j < i ==> ServiceSettled(inv, services, clusterRefs, definitionRefs, j)
      {
        var svc := inv.services[i];
        if !services[i] && LinkedRefs(clusterRefs, definitionRefs, svc.cluster, svc.taskDefinition) {
          LinkedBy(Facts(), svc.cluster, svc.taskDefinition);
          SetOne(services, i);
          ghost var before := services;
          AddService(i);
          changed := true;
          forall j: nat | j < i ensures ServiceSettled(inv, services, clusterRefs, definitionRefs, j) {
            assert ServiceSettled(inv, before, clusterRefs, definitionRefs, j);
          }
        }
      }
    }

    predicate TaskLinked(i: nat)
      requires i < |inv.tasks|
      reads this`clusterRefs, this`definitionRefs, this`serviceNames
    {
      LinkedRefs(clusterRefs, definitionRefs, inv.tasks[i].cluster, inv.tasks[i].taskDefinition) ||
      Lower(ServiceOfGroup(inv.tasks[i].group)) in serviceNames
    }

    method AddTask(i: nat)
      requires Valid() && i < |inv.tasks| && TaskLinked(i)
      modifies this`tasks
      ensures Valid() && tasks == old(tasks)[i := true]
    {
      hide Keys, Lower, AllKeys, Follows, ServiceOfGroup, SeededClusters, SeededDefinitions, SeededServices, Named;
      hide Linked, LinkedRefs, HasRef;
      ghost var before := Facts();
      if LinkedRefs(clusterRefs, definitionRefs, inv.tasks[i].cluster, inv.tasks[i].taskDefinition) {
        LinkedBy(before, inv.tasks[i].cluster, inv.tasks[i].taskDefinition);
      }
      tasks := tasks[i := true];
      FollowsStep(inv, before, Facts());
    }

    method SelectTasks() returns (changed: bool)
      requires Valid()
      modifies this`tasks
      ensures Valid() && Progress(changed)
      ensures forall i: nat :: TaskSettled(inv, tasks, clusterRefs, definitionRefs, serviceNames, i)
    {
      hide Keys, Lower, AllKeys, Valid, ServiceOfGroup, LinkedRefs;
      assert Shaped() by { ValidShaped(); }
      changed := false;
      for i := 0 to |inv.tasks|
        invariant |tasks| == |inv.tasks|
        invariant Valid() && Progress(changed)
        invariant forall j: nat :: j < i ==> TaskSettled(inv, tasks, clusterRefs, definitionRefs, serviceNames, j)
      {
        if !tasks[i] && TaskLinked(i) {
          SetOne(tasks, i);
          ghost var flags := tasks;
          AddTask(i);
          changed := true;
          forall j: nat | j < i ensures TaskSettled(inv, tasks, clusterRefs, definitionRefs, serviceNames, j) {
            assert TaskSettled(inv, flags, clusterRefs, definitionRefs, serviceNames, j);
          }
        }
      }
    }

    /** addECSRef for a cluster reference of a selected service or task. */
    method AddClusterRef(ref: string) returns (changed: bool)
      requires Valid() && Keys(ref) <= AllKeys(inv)
      requires forall k :: k in Keys(ref) ==> Derives(inv, Facts(), ClusterRef(k))
      modifies this`clusterRefs
      ensures Valid() && Progress(changed)
      ensures clusterRefs == old(clusterRefs) + Keys(ref)
    {
      hide Keys, Lower, AllKeys, Follows, Derives;
      ghost var before, all := Facts(), AllKeys(inv);
      changed := !(Keys(ref) <= clusterRefs);
      if changed {
        ghost var missing := all - clusterRefs;
        clusterRefs := clusterRefs + Keys(ref);
        Shrinks(all - clusterRefs, missing);
        FollowsStep(inv, before, Facts());
      } else {
        assert clusterRefs == clusterRefs + Keys(ref);
      }
    }

    method AddDefinitionRef(ref: string) returns (changed: bool)
      requires Valid() && Keys(ref) <= AllKeys(inv)
      requires forall k :: k in Keys(ref) ==> Derives(inv, Facts(), DefinitionRef(k))
      modifies this`definitionRefs
      ensures Valid() && Progress(changed)
      ensures definitionRefs == old(definitionRefs) + Keys(ref)
    {
      hide Keys, Lower, AllKeys, Follows, Derives;
      ghost var before, all := Facts(), AllKeys(inv);
      changed := !(Keys(ref) <= definitionRefs);
      if changed {
        ghost var missing := all - definitionRefs;
        definitionRefs := definitionRefs + Keys(ref);
        Shrinks(all - definitionRefs, missing);
        FollowsStep(inv, before, Facts());
      } else {
        assert definitionRefs == definitionRefs + Keys(ref);
      }
    }

    method CollectFromServices() returns (changed: bool)
      requires Valid()
      modifies this`clusterRefs, this`definitionRefs
      ensures Valid() && Progress(changed)
      ensures forall i: nat :: ServiceCollected(inv, services, clusterRefs, definitionRefs, i)
    {
      hide Keys, Lower, AllKeys, Follows, Derives, Seeded, Measure;
      changed := false;
      for i := 0 to |inv.services|
        invariant Valid() && Progress(changed)
        invariant forall j: nat :: j < i ==> ServiceCollected(inv, services, clusterRefs, definitionRefs, j)
      {
        if services[i] {
          ghost var c, d := clusterRefs, definitionRefs;
          ServiceBrings(inv, Facts(), i);
          var one := AddClusterRef(inv.services[i].cluster);
          ServiceBrings(inv, Facts(), i);
          var two := AddDefinitionRef(inv.services[i].taskDefinition);
          changed := changed || one || two;
          forall j: nat | j < i ensures ServiceCollected(inv, services, clusterRefs, definitionRefs, j) {
            assert ServiceCollected(inv, services, c, d, j);
          }
        }
      }
    }

    method CollectFromTasks() returns (changed: bool)
      requires Valid()
      modifies this`clusterRefs, this`definitionRefs
      ensures Valid() && Progress(changed)
      ensures forall i: nat :: TaskCollected(inv, tasks, clusterRefs, definitionRefs, i)
    {
      hide Keys, Lower, AllKeys, Follows, Derives, Seeded, Measure;
      changed := false;
      for i := 0 to |inv.tasks|
        invariant Valid() && Progress(changed)
        invariant forall j: nat :: j < i ==> TaskCollected(inv, tasks, clusterRefs, definitionRefs, j)
      {
        if tasks[i] {
          ghost var c, d := clusterRefs, definitionRefs;
          TaskBrings(inv, Facts(), i);
          var one := AddClusterRef(inv.tasks[i].cluster);
          TaskBrings(inv, Facts(), i);
          var two := AddDefinitionRef(inv.tasks[i].taskDefinition);
          changed := changed || one || two;
          forall j: nat | j < i ensures TaskCollected(inv, tasks, clusterRefs, definitionRefs, j) {
            assert TaskCollected(inv, tasks, c, d, j);
          }
        }
      }
    }

    lemma ValidShaped()
      requires Valid()
      ensures Shaped()
    {
    }

    method AddCluster(i: nat)
      requires Valid() && i < |clusters| && HasRef(clusterRefs, inv.clusters[i].ref)
      modifies this`clusters
      ensures Valid() && clusters == old(clusters)[i := true]
    {
      hide Keys, Lower, AllKeys, Follows;
      ghost var before := Facts();
      ghost var k :| k in Keys(inv.clusters[i].ref) * clusterRefs;
      assert ClusterRef(k) in before;
      clusters := clusters[i := true];
      FollowsStep(inv, before, Facts());
    }

    method SelectClusters() returns (changed: bool)
      requires Valid()
      modifies this`clusters
      ensures Valid() && Progress(changed)
      ensures forall i: nat :: ClusterSettled(inv, clusters, clusterRefs, i)
    {
      hide Keys, Lower, AllKeys, Valid, HasRef;
      assert Shaped() by { ValidShaped(); }
      changed := false;
      for i := 0 to |inv.clusters|
        invariant |clusters| == |inv.clusters|
        invariant Valid() && Progress(changed)
        invariant forall j: nat :: j < i ==> ClusterSettled(inv, clusters, clusterRefs, j)
      {
        if !clusters[i] && HasRef(clusterRefs, inv.clusters[i].ref) {
          ghost var flags := clusters;
          SetOne(clusters, i);
          AddCluster(i);
          changed := true;
          forall j: nat | j < i ensures ClusterSettled(inv, clusters, clusterRefs, j) {
            assert ClusterSettled(inv, flags, clusterRefs, j);
          }
        }
      }
    }

    method AddDefinition(i: nat)
      requires Valid() && i < |definitions| && HasRef(definitionRefs, inv.definitions[i].ref)
      modifies this`definitions
      ensures Valid() && definitions == old(definitions)[i := true]
    {
      hide Keys, Lower, AllKeys, Follows;
      ghost var before := Facts();
      ghost var k :| k in Keys(inv.definitions[i].ref) * definitionRefs;
      assert DefinitionRef(k) in before;
      definitions := definitions[i := true];
      FollowsStep(inv, before, Facts());
    }

    method SelectDefinitions() returns (changed: bool)
      requires Valid()
      modifies this`definitions
      ensures Valid() && Progress(changed)
      ensures forall i: nat :: DefinitionSettled(inv, definitions, definitionRefs, i)
    {
      hide Keys, Lower, AllKeys, Valid, HasRef;
      assert Shaped() by { ValidShaped(); }
      changed := false;
      for i := 0 to |inv.definitions|
        invariant |definitions| == |inv.definitions|
        invariant Valid() && Progress(changed)
        invariant forall j: nat :: j < i ==> DefinitionSettled(inv, definitions, definitionRefs, j)
      {
        if !definitions[i] && HasRef(definitionRefs, inv.definitions[i].ref) {
          ghost var flags := definitions;
          SetOne(definitions, i);
          AddDefinition(i);
          changed := true;
          forall j: nat | j < i ensures DefinitionSettled(inv, definitions, definitionRefs, j) {
            assert DefinitionSettled(inv, flags, definitionRefs, j);
          }
        }
      }
    }

    /** All six checks agree that nothing is left to do. */
    ghost predicate Settled()
      reads this
    {
      forall i: nat ::
        ServiceSettled(inv, services, clusterRefs, definitionRefs, i) &&
        TaskSettled(inv, tasks, clusterRefs, definitionRefs, serviceNames, i) &&
        ServiceCollected(inv, services, clusterRefs, definitionRefs, i) &&
        TaskCollected(inv, tasks, clusterRefs, definitionRefs, i) &&
        ClusterSettled(inv, clusters, clusterRefs, i) &&
        DefinitionSettled(inv, definitions, definitionRefs, i)
    }

    /** The body of the outer loop. */
    method Round() returns (changed: bool)
      requires Valid()
      modifies this
      ensures Valid() && Measure() <= old(Measure()) && (changed ==> Measure() < old(Measure()))
      ensures !changed ==> Settled()
    {
      hide Valid, Measure, ServiceSettled, TaskSettled, ServiceCollected, TaskCollected, ClusterSettled, DefinitionSettled;
      var a := SelectServices();
      var b := SelectTasks();
      var c := CollectFromServices();
      var d := CollectFromTasks();
      var e := SelectClusters();
      var f := SelectDefinitions();
      changed := a || b || c || d || e || f;
    }

    /** The narrow part of selectECSFlushResources: repeat until a round changes nothing. */
    method Run()
      requires Valid()
      modifies this
      ensures Valid() && IsLeast(inv, Facts())
    {
      hide Settled, Measure, Valid, IsLeast;
      var changed := true;
      while changed
        invariant Valid() && (!changed ==> Settled())
        decreases Measure(), if changed then 1 else 0
      {
        changed := Round();
      }
      SettledLeast();
    }

    lemma SettledLeast()
      requires Valid() && Settled()
      ensures IsLeast(inv, Facts())
    {
      hide Derives, Settled, Keys, Lower, ServiceOfGroup;
      var s := Facts();
      forall f | Derives(inv, s, f) ensures f in s {
        DerivedHeld(f);
      }
    }

    lemma DerivedHeld(f: Fact)
      requires Valid() && Settled() && Derives(inv, Facts(), f)
      ensures Has(f)
    {
      hide Follows, Keys, Lower, ServiceOfGroup, AllKeys;
      match f
      case SelCluster(i) =>
        assert ClusterSettled(inv, clusters, clusterRefs, i);
        if k :| k in Keys(inv.clusters[i].ref) && ClusterRef(k) in Facts() {
          assert k in Keys(inv.clusters[i].ref) * clusterRefs;
        }
      case SelDefinition(i) =>
        assert DefinitionSettled(inv, definitions, definitionRefs, i);
        if k :| k in Keys(inv.definitions[i].ref) && DefinitionRef(k) in Facts() {
          assert k in Keys(inv.definitions[i].ref) * definitionRefs;
        }
      case SelService(i) =>
        assert ServiceSettled(inv, services, clusterRefs, definitionRefs, i);
        LinkedHeld(inv.services[i].cluster, inv.services[i].taskDefinition);
      case SelTask(i) =>
        assert TaskSettled(inv, tasks, clusterRefs, definitionRefs, serviceNames, i);
        LinkedHeld(inv.tasks[i].cluster, inv.tasks[i].taskDefinition);
      case ClusterRef(k) =>
        if i :| 0 <= i < |inv.clusters| && inv.clusters[i].matched && k in Keys(inv.clusters[i].ref) {
          assert Keys(inv.clusters[i].ref) <= clusterRefs;
        } else if i: nat :| i < |inv.services| && SelService(i) in Facts() && k in Keys(inv.services[i].cluster) {
          assert ServiceCollected(inv, services, clusterRefs, definitionRefs, i);
        } else {
          var i: nat :| i < |inv.tasks| && SelTask(i) in Facts() && k in Keys(inv.tasks[i].cluster);
          assert TaskCollected(inv, tasks, clusterRefs, definitionRefs, i);
        }
      case DefinitionRef(k) =>
        if i :| 0 <= i < |inv.definitions| && inv.definitions[i].matched && k in Keys(inv.definitions[i].ref) {
          assert Keys(inv.definitions[i].ref) <= definitionRefs;
        } else if i: nat :| i < |inv.services| && SelService(i) in Facts() && k in Keys(inv.services[i].taskDefinition) {
          assert ServiceCollected(inv, services, clusterRefs, definitionRefs, i);
        } else {
          var i: nat :| i < |inv.tasks| && SelTask(i) in Facts() && k in Keys(inv.tasks[i].taskDefinition);
          assert TaskCollected(inv, tasks, clusterRefs, definitionRefs, i);
        }
      case ServiceName(n) =>
    }

    /** What the rules call linked is what the code's reference test finds. */
    lemma LinkedHeld(cluster: string, definition: string)
      ensures Linked(Facts(), cluster, definition) ==> LinkedRefs(clusterRefs, definitionRefs, cluster, definition)
    {
      hide Keys;
      forall k | k in Keys(cluster) && ClusterRef(k) in Facts() ensures HasRef(clusterRefs, cluster) {
        assert k in Keys(cluster) * clusterRefs;
      }
      forall k | k in Keys(definition) && DefinitionRef(k) in Facts() ensures HasRef(definitionRefs, definition) {
        assert k in Keys(definition) * definitionRefs;
      }
    }
  }

  // ---------------------------------------------------------------- the lists handed back

  /** The items whose position is selected, in order. */
  ghost function Chosen<T>(items: seq<T>, selected: iset<nat>): seq<T> {
    if items == [] then []
    else
      var m := |items| - 1;
      Chosen(items[..m], selected) + if m in selected then [items[m]] else []
  }

  /** One of the closing loops: copy out what a flag slice selects. */
  method Pick<T>(items: seq<T>, flags: seq<bool>, ghost selected: iset<nat>) returns (chosen: seq<T>)
    requires |flags| == |items| && forall i: nat :: i < |flags| ==> (flags[i] <==> i in selected)
    ensures chosen == Chosen(items, selected)
  {
    chosen := [];
    for i := 0 to |items|
      invariant chosen == Chosen(items[..i], selected)
    {
      assert items[..i + 1][..i] == items[..i];
      if flags[i] {
        chosen := chosen + [items[i]];
      }
    }
    assert items[..|items|] == items;
  }

  ghost function ClusterSet(s: iset<Fact>): iset<nat> { iset i: nat | SelCluster(i) in s }

  ghost function ServiceSet(s: iset<Fact>): iset<nat> { iset i: nat | SelService(i) in s }

  ghost function TaskSet(s: iset<Fact>): iset<nat> { iset i: nat | SelTask(i) in s }

  ghost function DefinitionSet(s: iset<Fact>): iset<nat> { iset i: nat | SelDefinition(i) in s }

  /** The references a flush deletes: the selected definitions, then those that services and tasks name. */
  function Mentioned(definitions: seq<TaskDefinition>, services: seq<Service>, tasks: seq<Task>): seq<TaskDefinition> {
    definitions +
    seq(|services|, i requires 0 <= i < |services| => TaskDefinition(services[i].taskDefinition, false)) +
    seq(|tasks|, i requires 0 <= i < |tasks| => TaskDefinition(tasks[i].taskDefinition, false))
  }

  /** Some definition of the list has the reference `ref` up to case. */
  predicate Listed(defs: seq<TaskDefinition>, ref: string) {
    exists i :: 0 <= i < |defs| && Lower(defs[i].ref) == Lower(ref)
  }

  /** The definitions with a reference, each one only where its reference first occurs. */
  function FirstOfEach(defs: seq<TaskDefinition>): seq<TaskDefinition> {
    if defs == [] then []
    else
      var m := |defs| - 1;
      FirstOfEach(defs[..m]) + if defs[m].ref == "" || Listed(defs[..m], defs[m].ref) then [] else [defs[m]]
  }

  lemma LowerEmpty(s: string)
    ensures Lower(s) == "" <==> s == ""
  {
    assert |Lower(s)| == |s|;
  }

  lemma FirstOfEachLists(init: seq<TaskDefinition>, last: TaskDefinition, ref: string)
    requires ref != "" && (Listed(init, ref) <==> Listed(FirstOfEach(init), ref))
    ensures Listed(init + [last], ref) <==> Listed(FirstOfEach(init + [last]), ref)
  {
    hide Lower, Listed;
    assert (init + [last])[..|init|] == init;
    assert FirstOfEach(init) + [] == FirstOfEach(init);
    LowerEmpty(ref);
    LowerEmpty(last.ref);
    ListedSnoc(init, last, ref);
    ListedSnoc(FirstOfEach(init), last, ref);
    if Lower(last.ref) == Lower(ref) {
      ListedAlike(init, last.ref, ref);
    }
  }

  /** Deduplication loses no reference, repeats none, invents none, and keeps the earliest definition of each. */
  lemma {:induction false} FirstOfEachExact(defs: seq<TaskDefinition>)
    ensures forall ref :: ref != "" ==> (Listed(defs, ref) <==> Listed(FirstOfEach(defs), ref))
    ensures forall i, j :: 0 <= i < j < |FirstOfEach(defs)| ==>
      Lower(FirstOfEach(defs)[i].ref) != Lower(FirstOfEach(defs)[j].ref)
    ensures forall d :: d in FirstOfEach(defs) ==> d.ref != "" && EarliestIn(defs, d)
  {
    hide Lower;
    if defs != [] {
      var m := |defs| - 1;
      var init, last := defs[..m], defs[m];
      FirstOfEachExact(init);
      LowerEmpty(last.ref);
      assert init + [last] == defs;
      forall ref | ref != "" ensures Listed(defs, ref) <==> Listed(FirstOfEach(defs), ref) {
        FirstOfEachLists(init, last, ref);
      }
      forall d | d in FirstOfEach(defs) ensures EarliestIn(defs, d) {
        if d in FirstOfEach(init) {
          var i :| 0 <= i < |init| && init[i] == d && !Listed(init[..i], d.ref);
          assert defs[..i] == init[..i] && defs[i] == d;
        } else {
          assert defs[m] == d && !Listed(defs[..m], d.ref);
        }
      }
    }
  }

  /** `d` is the first definition of the list with its reference. */
  ghost predicate EarliestIn(defs: seq<TaskDefinition>, d: TaskDefinition) {
    exists i :: 0 <= i < |defs| && defs[i] == d && !Listed(defs[..i], d.ref)
  }

  lemma ListedSnoc(init: seq<TaskDefinition>, last: TaskDefinition, ref: string)
    ensures Listed(init + [last], ref) <==> Listed(init, ref) || Lower(last.ref) == Lower(ref)
  {
    hide Lower;
    var all := init + [last];
    if Listed(init, ref) {
      var i :| 0 <= i < |init| && Lower(init[i].ref) == Lower(ref);
      assert all[i] == init[i];
    }
    if Lower(last.ref) == Lower(ref) {
      assert all[|init|] == last;
    }
  }

  lemma ListedAlike(defs: seq<TaskDefinition>, a: string, b: string)
    requires Lower(a) == Lower(b)
    ensures Listed(defs, a) <==> Listed(defs, b)
  {
  }

  /** The set holds the lower-cased references of the list, except blank ones. */
  ghost predicate Covers(seen: set<string>, given: seq<TaskDefinition>) {
    forall ref :: ref != "" ==> (Lower(ref) in seen <==> Listed(given, ref))
  }

  lemma CoversStep(seen: set<string>, given: seq<TaskDefinition>, td: TaskDefinition)
    requires Covers(seen, given)
    ensures Covers(if td.ref != "" && Lower(td.ref) !in seen then seen + {Lower(td.ref)} else seen, given + [td])
  {
    hide Lower, Listed;
    var next := if td.ref != "" && Lower(td.ref) !in seen then seen + {Lower(td.ref)} else seen;
    forall ref | ref != "" ensures Lower(ref) in next <==> Listed(given + [td], ref) {
      ListedSnoc(given, td, ref);
      LowerEmpty(ref);
      LowerEmpty(td.ref);
    }
  }

  lemma SeenListed(seen: set<string>, given: seq<TaskDefinition>, ref: string)
    requires Covers(seen, given) && ref != ""
    ensures Lower(ref) in seen <==> Listed(given, ref)
  {
    hide Lower, Listed;
  }

  lemma FirstOfEachSnoc(given: seq<TaskDefinition>, td: TaskDefinition)
    ensures FirstOfEach(given + [td]) ==
      FirstOfEach(given) + if td.ref == "" || Listed(given, td.ref) then [] else [td]
  {
    hide Lower, Listed;
    assert (given + [td])[..|given|] == given;
  }

  lemma NoneCovered()
    ensures Covers({}, []) && FirstOfEach([]) == []
  {
  }

  /** The closure of ecsFlushTaskDefinitions and the two variables it captures. */
  class DefinitionList {
    var seen: set<string>
    var out: seq<TaskDefinition>
    ghost var given: seq<TaskDefinition>

    ghost predicate Valid()
      reads this
    {
      out == FirstOfEach(given) && Covers(seen, given)
    }

    constructor ()
      ensures Valid() && given == []
    {
      hide FirstOfEach, Covers;
      seen, out, given := {}, [], [];
      NoneCovered();
    }

    method Append(td: TaskDefinition)
      requires Valid()
      modifies this
      ensures Valid() && given == old(given) + [td]
    {
      hide Lower, Listed, Covers, FirstOfEach;
      CoversStep(seen, given, td);
      FirstOfEachSnoc(given, td);
      if td.ref != "" {
        SeenListed(seen, given, td.ref);
      }
      given := given + [td];
      if td.ref != "" && Lower(td.ref) !in seen {
        seen := seen + {Lower(td.ref)};
        out := out + [td];
      }
    }
  }

  /** ecsFlushTaskDefinitions. */
  method TaskDefinitions(explicit: seq<TaskDefinition>, services: seq<Service>, tasks: seq<Task>)
    returns (out: seq<TaskDefinition>)
    ensures out == FirstOfEach(Mentioned(explicit, services, tasks))
  {
    hide FirstOfEach, Listed, Lower;
    var list := new DefinitionList();
    ghost var all := Mentioned(explicit, services, tasks);
    var n := |explicit|;
    for i := 0 to n
      invariant list.Valid() && list.given == all[..i]
      invariant fresh(list)
    {
      list.Append(explicit[i]);
    }
    for i := 0 to |services|
      invariant list.Valid() && list.given == all[..n + i]
      invariant fresh(list)
    {
      list.Append(TaskDefinition(services[i].taskDefinition, false));
    }
    for i := 0 to |tasks|
      invariant list.Valid() && list.given == all[..n + |services| + i]
      invariant fresh(list)
    {
      list.Append(TaskDefinition(tasks[i].taskDefinition, false));
    }
    assert all[..|all|] == all;
    out := list.out;
  }

  /** What a targeted flush of the facts `s` hands back. */
  ghost predicate HandsBack(
    inv: Inventory, s: iset<Fact>,
    clusters: seq<Cluster>, services: seq<Service>, tasks: seq<Task>, definitions: seq<TaskDefinition>)
  {
    clusters == Chosen(inv.clusters, ClusterSet(s)) && services == Chosen(inv.services, ServiceSet(s)) &&
    tasks == Chosen(inv.tasks, TaskSet(s)) &&
    definitions == FirstOfEach(Mentioned(Chosen(inv.definitions, DefinitionSet(s)), services, tasks))
  }

  /**
   selectECSFlushResources: what a targeted flush keeps is what the least closed set selects; any other flush keeps
   everything.
   */
  method SelectResources(inv: Inventory, narrow: bool)
    returns (clusters: seq<Cluster>, services: seq<Service>, tasks: seq<Task>, definitions: seq<TaskDefinition>)
    ensures narrow ==>
      exists least: iset<Fact> :: IsLeast(inv, least) && HandsBack(inv, least, clusters, services, tasks, definitions)
    ensures !narrow ==> clusters == inv.clusters && services == inv.services && tasks == inv.tasks
    ensures !narrow ==> definitions == FirstOfEach(Mentioned(inv.definitions, services, tasks))
  {
    hide Chosen, FirstOfEach, Mentioned, IsLeast, Follows, AllKeys, Keys, Lower;
    if !narrow {
      clusters, services, tasks := inv.clusters, inv.services, inv.tasks;
      definitions := TaskDefinitions(inv.definitions, services, tasks);
      return;
    }
    var sel := new Selection(inv);
    sel.SeedClusters();
    sel.SeedDefinitions();
    sel.SeedServices();
    sel.SeedTasks();
    sel.Run();
    ghost var least := sel.Facts();
    sel.ValidShaped();
    clusters := Pick(inv.clusters, sel.clusters, ClusterSet(least));
    services := Pick(inv.services, sel.services, ServiceSet(least));
    tasks := Pick(inv.tasks, sel.tasks, TaskSet(least));
    var explicit := Pick(inv.definitions, sel.definitions, DefinitionSet(least));
    definitions := TaskDefinitions(explicit, services, tasks);
    assert HandsBack(inv, least, clusters, services, tasks, definitions);
  }
}
