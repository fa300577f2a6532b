/**
 The selection of a targeted flush (internal/cli/flush.go) said without its rounds and reference maps: a resource is
 selected exactly if a chain of references leads to it from a resource that matches the request.
 */
module FlushChains {
  import opened Flush
  import opened Strings

  // ---------------------------------------------------------------- references that agree

  /** The reference goes by this key, up to case and surrounding space: in full, or from behind its last slash. */
  ghost predicate Names(ref: string, key: string) {
    var r := Lower(TrimSpace(ref));
    key != "" && (key == r || ('/' !in key && exists head: string :: r == head + "/" + key))
  }

  ghost predicate Agree(a: string, b: string) { exists key :: Names(a, key) && Names(b, key) }

  lemma {:induction false} AfterSlashIs(s: string)
    ensures '/' !in AfterSlash(s)
    ensures '/' in s ==> exists head: string :: s == head + "/" + AfterSlash(s)
    ensures '/' !in s ==> AfterSlash(s) == s
  {
    if s != "" {
      var m := |s| - 1;
      if s[m] == '/' {
        assert s == s[..m] + "/" + "";
      } else {
        AfterSlashIs(s[..m]);
        assert s == s[..m] + [s[m]];
        if '/' in s {
          var head: string :| s[..m] == head + "/" + AfterSlash(s[..m]);
          assert s == head + "/" + AfterSlash(s);
        }
      }
    }
  }

  lemma LastSlash(s: string, head: string, tail: string)
    requires s == head + "/" + tail && '/' !in tail
    ensures |head| < |s| && s[|head|] == '/' && tail == s[|head| + 1..]
    ensures forall k :: |head| < k < |s| ==> s[k] != '/'
  {
    assert tail == s[|head| + 1..];
    forall k | |head| < k < |s| ensures s[k] != '/' {
      assert s[k] == tail[k - |head| - 1];
    }
  }

  /** What follows the last slash is determined. */
  lemma TailUnique(s: string, a: string, x: string, b: string, y: string)
    requires s == a + "/" + x && s == b + "/" + y && '/' !in x && '/' !in y
    ensures x == y
  {
    LastSlash(s, a, x);
    LastSlash(s, b, y);
  }

  lemma KeysExact(ref: string, key: string)
    ensures key in Keys(ref) <==> Names(ref, key)
  {
    hide Lower, TrimSpace, AfterSlash;
    var r := Lower(TrimSpace(ref));
    AfterSlashIs(r);
    if '/' in r {
      var head: string :| r == head + "/" + AfterSlash(r);
      if '/' !in key && exists h: string :: r == h + "/" + key {
        var h: string :| r == h + "/" + key;
        TailUnique(r, head, AfterSlash(r), h, key);
      }
    }
  }

  /** The group of a task that a service of this name runs. */
  predicate Runs(name: string, group: string) {
    Lower(group) == "service:" + Lower(name) || (name == "" && !("service:" <= Lower(group)))
  }

  lemma RunsExact(name: string, group: string)
    ensures Lower(ServiceOfGroup(group)) == Lower(name) <==> Runs(name, group)
  {
    assert |Lower(group)| == |group| && |Lower(name)| == |name|;
    if "service:" <= Lower(group) {
      assert Lower(group) == "service:" + Lower(group)[8..];
      assert Lower(group[8..]) == Lower(group)[8..];
      assert "service:" + Lower(name) == Lower(group) ==> Lower(name) == Lower(group)[8..];
    }
  }

  // ---------------------------------------------------------------- chains

  datatype Node = AtCluster(i: nat) | AtService(i: nat) | AtTask(i: nat) | AtDefinition(i: nat)

  predicate Within(inv: Inventory, n: Node) {
    match n
    case AtCluster(i) => i < |inv.clusters|
    case AtService(i) => i < |inv.services|
    case AtTask(i) => i < |inv.tasks|
    case AtDefinition(i) => i < |inv.definitions|
  }

  predicate Matched(inv: Inventory, n: Node)
    requires Within(inv, n)
  {
    match n
    case AtCluster(i) => inv.clusters[i].matched
    case AtService(i) => inv.services[i].matched
    case AtTask(i) => inv.tasks[i].matched
    case AtDefinition(i) => inv.definitions[i].matched
  }

  /** The cluster a resource is in, or is. */
  function ClusterOf(inv: Inventory, n: Node): string
    requires Within(inv, n)
  {
    match n
    case AtCluster(i) => inv.clusters[i].ref
    case AtService(i) => inv.services[i].cluster
    case AtTask(i) => inv.tasks[i].cluster
    case AtDefinition(_) => ""
  }

  /** The task definition a resource uses, or is. */
  function DefinitionOf(inv: Inventory, n: Node): string
    requires Within(inv, n)
  {
    match n
    case AtCluster(_) => ""
    case AtService(i) => inv.services[i].taskDefinition
    case AtTask(i) => inv.tasks[i].taskDefinition
    case AtDefinition(i) => inv.definitions[i].ref
  }

  /** Services and tasks lead on to others; clusters and definitions do so only if they match the request themselves. */
  predicate LeadsOn(inv: Inventory, n: Node)
    requires Within(inv, n)
  {
    n.AtService? || n.AtTask? || Matched(inv, n)
  }

  /** `a` brings `b` along: the same cluster, the same task definition, or a service and its task. */
  ghost predicate Pulls(inv: Inventory, a: Node, b: Node) {
    Within(inv, a) && Within(inv, b) && LeadsOn(inv, a) &&
    (Agree(ClusterOf(inv, a), ClusterOf(inv, b)) || Agree(DefinitionOf(inv, a), DefinitionOf(inv, b)) ||
     (a.AtService? && b.AtTask? && Runs(inv.services[a.i].name, inv.tasks[b.i].group)))
  }

  ghost predicate Chain(inv: Inventory, c: seq<Node>) {
    c != [] && Within(inv, c[0]) && Matched(inv, c[0]) && forall k :: 0 <= k < |c| - 1 ==> Pulls(inv, c[k], c[k + 1])
  }

  ghost predicate Reached(inv: Inventory, n: Node) { exists c :: Chain(inv, c) && c[|c| - 1] == n }

  function Selecting(n: Node): Fact {
    match n
    case AtCluster(i) => SelCluster(i)
    case AtService(i) => SelService(i)
    case AtTask(i) => SelTask(i)
    case AtDefinition(i) => SelDefinition(i)
  }

  // ---------------------------------------------------------------- what chains reach is selected

  lemma BringsCluster(inv: Inventory, s: iset<Fact>, n: Node, key: string)
    requires Closed(inv, s) && Within(inv, n) && LeadsOn(inv, n) && Selecting(n) in s && Names(ClusterOf(inv, n), key)
    ensures ClusterRef(key) in s
  {
    hide Keys, Names, Closed;
    KeysExact(ClusterOf(inv, n), key);
    EmptyNames(key);
    assert Derives(inv, s, ClusterRef(key));
    ClosedHas(inv, s, ClusterRef(key));
  }

  lemma BringsDefinition(inv: Inventory, s: iset<Fact>, n: Node, key: string)
    requires Closed(inv, s) && Within(inv, n) && LeadsOn(inv, n) && Selecting(n) in s && Names(DefinitionOf(inv, n), key)
    ensures DefinitionRef(key) in s
  {
    hide Keys, Names, Closed;
    KeysExact(DefinitionOf(inv, n), key);
    EmptyNames(key);
    assert Derives(inv, s, DefinitionRef(key));
    ClosedHas(inv, s, DefinitionRef(key));
  }

  lemma EmptyNames(key: string)
    ensures !Names("", key)
  {
  }

  lemma ClosedHas(inv: Inventory, s: iset<Fact>, f: Fact)
    requires Closed(inv, s) && Derives(inv, s, f)
    ensures f in s
  {
  }

  lemma PullSelects(inv: Inventory, s: iset<Fact>, a: Node, b: Node)
    requires Closed(inv, s) && Pulls(inv, a, b) && Selecting(a) in s
    ensures Selecting(b) in s
  {
    hide Keys, Names, Closed, Runs, Lower, ServiceOfGroup;
    if Agree(ClusterOf(inv, a), ClusterOf(inv, b)) {
      var key :| Names(ClusterOf(inv, a), key) && Names(ClusterOf(inv, b), key);
      BringsCluster(inv, s, a, key);
      KeysExact(ClusterOf(inv, b), key);
      EmptyNames(key);
    } else if Agree(DefinitionOf(inv, a), DefinitionOf(inv, b)) {
      var key :| Names(DefinitionOf(inv, a), key) && Names(DefinitionOf(inv, b), key);
      BringsDefinition(inv, s, a, key);
      KeysExact(DefinitionOf(inv, b), key);
      EmptyNames(key);
    } else {
      RunsExact(inv.services[a.i].name, inv.tasks[b.i].group);
      assert Derives(inv, s, ServiceName(Lower(inv.services[a.i].name)));
      ClosedHas(inv, s, ServiceName(Lower(inv.services[a.i].name)));
    }
    ClosedHas(inv, s, Selecting(b));
  }

  lemma {:induction false} ChainSelects(inv: Inventory, s: iset<Fact>, c: seq<Node>)
    requires Closed(inv, s) && Chain(inv, c)
    ensures Selecting(c[|c| - 1]) in s
    decreases |c|
  {
    hide Pulls, Closed;
    var m := |c| - 1;
    if m == 0 {
      ClosedHas(inv, s, Selecting(c[0]));
    } else {
      ChainSelects(inv, s, c[..m]);
      assert Pulls(inv, c[m - 1], c[m - 1 + 1]);
      PullSelects(inv, s, c[m - 1], c[m]);
    }
  }

  // ---------------------------------------------------------------- nothing else is selected

  /** What chains reach, with the references and names that brings. */
  ghost predicate Follow(inv: Inventory, f: Fact) {
    match f
    case SelCluster(i) => Reached(inv, AtCluster(i))
    case SelService(i) => Reached(inv, AtService(i))
    case SelTask(i) => Reached(inv, AtTask(i))
    case SelDefinition(i) => Reached(inv, AtDefinition(i))
    case ClusterRef(key) =>
      exists n :: Reached(inv, n) && Within(inv, n) && LeadsOn(inv, n) && Names(ClusterOf(inv, n), key)
    case DefinitionRef(key) =>
      exists n :: Reached(inv, n) && Within(inv, n) && LeadsOn(inv, n) && Names(DefinitionOf(inv, n), key)
    case ServiceName(name) =>
      exists i: nat :: Reached(inv, AtService(i)) && i < |inv.services| && name == Lower(inv.services[i].name)
  }

  ghost function Followed(inv: Inventory): iset<Fact> { iset f: Fact | Follow(inv, f) }

  lemma MatchedReached(inv: Inventory, n: Node)
    requires Within(inv, n) && Matched(inv, n)
    ensures Reached(inv, n)
  {
    assert Chain(inv, [n]);
  }

  lemma PulledReached(inv: Inventory, a: Node, b: Node)
    requires Reached(inv, a) && Pulls(inv, a, b)
    ensures Reached(inv, b)
  {
    hide Pulls;
    var c :| Chain(inv, c) && c[|c| - 1] == a;
    assert Chain(inv, c + [b]);
  }

  lemma ReachedWithin(inv: Inventory, n: Node)
    requires Reached(inv, n)
    ensures Within(inv, n)
  {
    hide Agree, Runs;
    var c :| Chain(inv, c) && c[|c| - 1] == n;
    if |c| > 1 {
      assert Pulls(inv, c[|c| - 2], c[|c| - 2 + 1]);
    }
  }

  lemma ReferencesReached(inv: Inventory, b: Node, cluster: string, definition: string)
    requires Within(inv, b) && ClusterOf(inv, b) == cluster && DefinitionOf(inv, b) == definition
    requires (exists k :: k in Keys(cluster) && ClusterRef(k) in Followed(inv)) ||
             exists k :: k in Keys(definition) && DefinitionRef(k) in Followed(inv)
    ensures Reached(inv, b)
  {
    hide Keys, Names, Reached, Runs;
    if k :| k in Keys(cluster) && ClusterRef(k) in Followed(inv) {
      KeysExact(cluster, k);
      var n :| Reached(inv, n) && Within(inv, n) && LeadsOn(inv, n) && Names(ClusterOf(inv, n), k);
      PulledReached(inv, n, b);
    } else {
      var k :| k in Keys(definition) && DefinitionRef(k) in Followed(inv);
      KeysExact(definition, k);
      var n :| Reached(inv, n) && Within(inv, n) && LeadsOn(inv, n) && Names(DefinitionOf(inv, n), k);
      PulledReached(inv, n, b);
    }
  }

  lemma ResourceFollows(inv: Inventory, n: Node)
    requires Derives(inv, Followed(inv), Selecting(n))
    ensures Reached(inv, n)
  {
    hide Keys, Names, Reached, Lower, ServiceOfGroup;
    assert Within(inv, n);
    if Matched(inv, n) {
      MatchedReached(inv, n);
    } else if n.AtTask? && ServiceName(Lower(ServiceOfGroup(inv.tasks[n.i].group))) in Followed(inv) {
      var i: nat :| Reached(inv, AtService(i)) && i < |inv.services| &&
        Lower(ServiceOfGroup(inv.tasks[n.i].group)) == Lower(inv.services[i].name);
      RunsExact(inv.services[i].name, inv.tasks[n.i].group);
      PulledReached(inv, AtService(i), n);
    } else {
      ReferencesReached(inv, n, ClusterOf(inv, n), DefinitionOf(inv, n));
    }
  }

  lemma ReferenceFollows(inv: Inventory, f: Fact)
    requires (f.ClusterRef? || f.DefinitionRef?) && Derives(inv, Followed(inv), f)
    ensures Follow(inv, f)
  {
    hide Keys, Names, Reached, Lower;
    forall ref ensures f.key in Keys(ref) <==> Names(ref, f.key) {
      KeysExact(ref, f.key);
    }
    forall n | Within(inv, n) && Matched(inv, n) ensures Reached(inv, n) {
      MatchedReached(inv, n);
    }
    if f.ClusterRef? {
      if i: nat :| i < |inv.clusters| && inv.clusters[i].matched && f.key in Keys(inv.clusters[i].ref) {
        assert Reached(inv, AtCluster(i)) && Names(ClusterOf(inv, AtCluster(i)), f.key);
      } else if i: nat :| i < |inv.services| && SelService(i) in Followed(inv) && f.key in Keys(inv.services[i].cluster) {
        assert Reached(inv, AtService(i)) && Names(ClusterOf(inv, AtService(i)), f.key);
      } else {
        var i: nat :| i < |inv.tasks| && SelTask(i) in Followed(inv) && f.key in Keys(inv.tasks[i].cluster);
        assert Reached(inv, AtTask(i)) && Names(ClusterOf(inv, AtTask(i)), f.key);
      }
    } else {
      if i: nat :| i < |inv.definitions| && inv.definitions[i].matched && f.key in Keys(inv.definitions[i].ref) {
        assert Reached(inv, AtDefinition(i)) && Names(DefinitionOf(inv, AtDefinition(i)), f.key);
      } else if i: nat :| i < |inv.services| && SelService(i) in Followed(inv) && f.key in Keys(inv.services[i].taskDefinition) {
        assert Reached(inv, AtService(i)) && Names(DefinitionOf(inv, AtService(i)), f.key);
      } else {
        var i: nat :| i < |inv.tasks| && SelTask(i) in Followed(inv) && f.key in Keys(inv.tasks[i].taskDefinition);
        assert Reached(inv, AtTask(i)) && Names(DefinitionOf(inv, AtTask(i)), f.key);
      }
    }
  }

  lemma FollowedClosed(inv: Inventory)
    ensures Closed(inv, Followed(inv))
  {
    hide Derives, Reached, Names, Lower;
    forall f | Derives(inv, Followed(inv), f) ensures f in Followed(inv) {
      match f
      case SelCluster(i) => ResourceFollows(inv, AtCluster(i));
      case SelService(i) => ResourceFollows(inv, AtService(i));
      case SelTask(i) => ResourceFollows(inv, AtTask(i));
      case SelDefinition(i) => ResourceFollows(inv, AtDefinition(i));
      case ClusterRef(_) => ReferenceFollows(inv, f);
      case DefinitionRef(_) => ReferenceFollows(inv, f);
      case ServiceName(name) => NameFollows(inv, name);
    }
  }

  lemma NameFollows(inv: Inventory, name: string)
    requires Derives(inv, Followed(inv), ServiceName(name))
    ensures Follow(inv, ServiceName(name))
  {
    hide Reached, Names, Lower;
  }

  /** A resource is selected exactly if a chain leads to it from one that matches the request. */
  lemma SelectedExact(inv: Inventory, least: iset<Fact>, n: Node)
    requires IsLeast(inv, least)
    ensures Selecting(n) in least <==> Reached(inv, n)
  {
    hide Closed, Pulls, Names;
    FollowedClosed(inv);
    assert least <= Followed(inv);
    if c :| Chain(inv, c) && c[|c| - 1] == n {
      ChainSelects(inv, least, c);
    }
  }
}
