/** The cluster map: entries made from the groups of a repopulation, credentials written back into
    them, and what holds over runs that mix the two. */
module Clusters {
  import opened Text
  import opened Orders
  import opened Csv
  import opened Templates
  import opened Population

  datatype Creds = Creds(server: string, token: string)

  /** A cluster node as the Kubernetes API reports it. */
  datatype KubeNode = KubeNode(name: string, roles: seq<string>, internalIP: string)

  datatype Cluster = Cluster(id: string, kubeConfig: string, token: string, apiEndpoint: string,
                             nodes: seq<Node>, ready: bool, info: Option<seq<KubeNode>>)

  type ClusterMap = map<string, Cluster>

  predicate HasMaster(nodes: seq<Node>)
  {
    exists i :: 0 <= i < |nodes| && nodes[i].role == "master"
  }

  function LastMaster(nodes: seq<Node>): Option<Node>
  {
    if nodes == [] then None
    else if nodes[|nodes| - 1].role == "master" then Some(nodes[|nodes| - 1])
    else LastMaster(nodes[..|nodes| - 1])
  }

  lemma LastMasterSteps(nodes: seq<Node>, i: nat)
    requires i <= |nodes|
    ensures i == 0 ==> LastMaster(nodes[..i]) == None
    ensures i < |nodes| ==>
              LastMaster(nodes[..i + 1]) == if nodes[i].role == "master" then Some(nodes[i]) else LastMaster(nodes[..i])
  {
    if i < |nodes| {
      assert nodes[..i + 1][..i] == nodes[..i];
    }
  }

  lemma {:induction false} LastMasterIff(nodes: seq<Node>)
    ensures LastMaster(nodes).Some? <==> HasMaster(nodes)
    ensures LastMaster(nodes).Some? ==>
              exists i :: 0 <= i < |nodes| && nodes[i] == LastMaster(nodes).value && nodes[i].role == "master"
                          && forall j :: i < j < |nodes| ==> nodes[j].role != "master"
  {
    if nodes != [] {
      var before := nodes[..|nodes| - 1];
      LastMasterIff(before);
      assert forall i :: 0 <= i < |before| ==> before[i] == nodes[i];
      if nodes[|nodes| - 1].role == "master" {
        assert nodes[|nodes| - 1].role == "master";
      }
    }
  }

  /** The entry for a group: the last master names the kubeconfig; credentials start empty. */
  function NewCluster(id: string, nodes: seq<Node>): Cluster
    requires LastMaster(nodes).Some?
  {
    Cluster(id, Path(KubeConfig, MacAsID(LastMaster(nodes).value.mac)), "", "", nodes, false, None)
  }

  /** A group without a master leaves the map alone, including an older entry for the same id. */
  function InitCluster(cm: ClusterMap, id: string, nodes: seq<Node>): ClusterMap
  {
    if LastMaster(nodes).None? then cm else cm[id := NewCluster(id, nodes)]
  }

  /** Without a master nothing changes. With one, the entry is new: it lists the group, is named after the last
      master, and holds no credentials and no report yet. */
  lemma {:induction false} InitClusterMeans(cm: ClusterMap, id: string, nodes: seq<Node>)
    ensures var t := InitCluster(cm, id, nodes);
            if forall i :: 0 <= i < |nodes| ==> nodes[i].role != "master" then t == cm
            else
              && id in t && t == cm[id := t[id]]
              && t[id].id == id && t[id].nodes == nodes && t[id].token == "" && t[id].apiEndpoint == ""
              && !t[id].ready && t[id].info == None
              && exists i :: 0 <= i < |nodes| && nodes[i].role == "master"
                             && (forall j :: i < j < |nodes| ==> nodes[j].role != "master")
                             && t[id].kubeConfig == "assets/ansible/kubeconfig-" + MacAsID(nodes[i].mac) + ".yaml"
  {
    LastMasterIff(nodes);
  }

  function InitAll(cm: ClusterMap, g: Groups, order: seq<string>): ClusterMap
  {
    if order == [] then cm
    else InitCluster(InitAll(cm, g, order[..|order| - 1]), order[|order| - 1], Members(g, order[|order| - 1]))
  }

  function Mastered(g: Groups): ClusterMap
  {
    map k | k in g && LastMaster(g[k]).Some? :: NewCluster(k, g[k])
  }

  predicate Enumerates(order: seq<string>, g: Groups)
  {
    Lists(order, g.Keys)
  }

  lemma {:induction false} InitAllAt(cm: ClusterMap, g: Groups, order: seq<string>, k: string)
    requires forall i :: 0 <= i < |order| ==> order[i] in g
    ensures var t := InitAll(cm, g, order);
            if k in Mastered(g) && k in order then k in t && t[k] == Mastered(g)[k]
            else (k in t <==> k in cm) && (k in cm ==> t[k] == cm[k])
  {
    hide NewCluster;
    if order != [] {
      var before, last := order[..|order| - 1], order[|order| - 1];
      assert forall i :: 0 <= i < |before| ==> before[i] == order[i];
      assert order == before + [last];
      assert k in order <==> k in before || k == last;
      InitAllAt(cm, g, before, k);
    }
  }

  /** Whatever order the groups are visited in, the outcome is the same. */
  lemma {:induction false} InitOrderIrrelevant(cm: ClusterMap, g: Groups, order: seq<string>)
    requires Enumerates(order, g)
    ensures InitAll(cm, g, order) == cm + Mastered(g)
  {
    var t, u := InitAll(cm, g, order), cm + Mastered(g);
    forall k
      ensures (k in t <==> k in u) && (k in t ==> t[k] == u[k])
    {
      InitAllAt(cm, g, order, k);
    }
  }

  // ---------- Credential write-back ----------

  predicate Targets(c: Cluster, k: string, mac: string)
  {
    k != UNCLAIMED && HasMac(c.nodes, mac)
  }

  function Grant(c: Cluster, creds: Creds): Cluster
  {
    c.(token := creds.token, apiEndpoint := creds.server)
  }

  function WriteBack(cm: ClusterMap, mac: string, creds: Creds): ClusterMap
  {
    map k | k in cm :: if Targets(cm[k], k, mac) then Grant(cm[k], creds) else cm[k]
  }

  /** Two write-backs commute exactly when they carry the same credentials or no claimed cluster
      lists both nodes. */
  lemma {:induction false} WriteBacksCommuteIff(cm: ClusterMap, a: string, ca: Creds, b: string, cb: Creds)
    ensures WriteBack(WriteBack(cm, a, ca), b, cb) == WriteBack(WriteBack(cm, b, cb), a, ca)
       <==> ca == cb || forall k :: k in cm ==> !(Targets(cm[k], k, a) && Targets(cm[k], k, b))
  {
    var x, y := WriteBack(WriteBack(cm, a, ca), b, cb), WriteBack(WriteBack(cm, b, cb), a, ca);
    forall k | k in cm
      ensures x[k] == y[k] <==> ca == cb || !(Targets(cm[k], k, a) && Targets(cm[k], k, b))
    {
      assert Targets(cm[k], k, a) && Targets(cm[k], k, b) ==> x[k].token == cb.token && y[k].token == ca.token;
    }
    if ca == cb || forall k :: k in cm ==> !(Targets(cm[k], k, a) && Targets(cm[k], k, b)) {
      assert x == y;
    } else {
      var k :| k in cm && Targets(cm[k], k, a) && Targets(cm[k], k, b);
      assert x[k] != y[k];
    }
  }

  // ---------- Runs ----------

  /** Observe stands for what a status query stores: readiness and the reported nodes. */
  datatype Event =
    | Repopulate(rows: seq<Row>, order: seq<string>)
    | Credentials(mac: string, creds: Creds)
    | Observe(id: string, ready: bool, info: Option<seq<KubeNode>>)

  predicate Legal(e: Event)
  {
    e.Repopulate? ==> Enumerates(e.order, GroupRows(e.rows))
  }

  function Step(cm: ClusterMap, e: Event): ClusterMap
  {
    match e
    case Repopulate(rows, order) => InitAll(cm, GroupRows(rows), order)
    case Credentials(mac, creds) => WriteBack(cm, mac, creds)
    case Observe(id, ready, info) => if id in cm then cm[id := cm[id].(ready := ready, info := info)] else cm
  }

  function Run(events: seq<Event>): ClusterMap
  {
    if events == [] then map[] else Step(Run(events[..|events| - 1]), events[|events| - 1])
  }

  /** The nodes of a cluster at the last repopulation that had a master for it. */
  function LastMastered(events: seq<Event>, k: string): Option<seq<Node>>
  {
    if events == [] then None
    else
      var e := events[|events| - 1];
      if e.Repopulate? && HasMaster(NodesIn(e.rows, k)) then Some(NodesIn(e.rows, k))
      else LastMastered(events[..|events| - 1], k)
  }

  lemma {:induction false} StepEntry(cm: ClusterMap, e: Event, k: string)
    requires Legal(e)
    ensures var t := Step(cm, e);
            if e.Repopulate? && HasMaster(NodesIn(e.rows, k)) then
              LastMaster(NodesIn(e.rows, k)).Some? && k in t && t[k] == NewCluster(k, NodesIn(e.rows, k))
            else
              && (k in t <==> k in cm)
              && (k in cm ==> t[k].id == cm[k].id && t[k].nodes == cm[k].nodes && t[k].kubeConfig == cm[k].kubeConfig)
  {
    match e
    case Repopulate(rows, order) =>
      var g := GroupRows(rows);
      InitOrderIrrelevant(cm, g, order);
      GroupIsFilter(rows, k);
      LastMasterIff(NodesIn(rows, k));
    case Credentials(_, _) =>
    case Observe(_, _, _) =>
  }

  /** Over every run, in whatever order groups are visited: the map holds exactly the ids that ever
      had a master, each with the nodes of the last repopulation that gave it one, and its
      kubeconfig is named after the last master among those very nodes. */
  lemma {:induction false} ClusterEntries(events: seq<Event>, k: string)
    requires forall i :: 0 <= i < |events| ==> Legal(events[i])
    ensures var cm := Run(events);
            var nodes := LastMastered(events, k);
            && (k in cm <==> nodes.Some?)
            && (k in cm ==>
                  && cm[k].id == k && cm[k].nodes == nodes.value
                  && LastMaster(cm[k].nodes).Some?
                  && cm[k].kubeConfig == Path(KubeConfig, MacAsID(LastMaster(cm[k].nodes).value.mac)))
  {
    hide Path, MacAsID, Step, Legal;
    if events != [] {
      var before, e := events[..|events| - 1], events[|events| - 1];
      assert forall i :: 0 <= i < |before| ==> before[i] == events[i];
      ClusterEntries(before, k);
      StepEntry(Run(before), e, k);
    }
  }

  /** What was last observed of a cluster since it was last given a master. */
  function LastObserved(events: seq<Event>, k: string): Option<Event>
  {
    if events == [] then None
    else
      var before, e := events[..|events| - 1], events[|events| - 1];
      match e
      case Repopulate(rows, _) => if HasMaster(NodesIn(rows, k)) then None else LastObserved(before, k)
      case Credentials(_, _) => LastObserved(before, k)
      case Observe(id, _, _) => if id == k then Some(e) else LastObserved(before, k)
  }

  /** Over every run an entry holds exactly what was last observed of it; a new entry is not ready and has no
      report, and neither write-backs nor repopulations without a master touch it. */
  lemma {:induction false} EntryReport(events: seq<Event>, k: string)
    requires forall i :: 0 <= i < |events| ==> Legal(events[i])
    requires k in Run(events)
    ensures var c, o := Run(events)[k], LastObserved(events, k);
            if o.Some? then o.value.Observe? && o.value.id == k && c.ready == o.value.ready && c.info == o.value.info
            else !c.ready && c.info == None
  {
    hide Step, Legal, HasMaster, NodesIn;
    var before, e := events[..|events| - 1], events[|events| - 1];
    assert forall i :: 0 <= i < |before| ==> before[i] == events[i];
    ReportStep(Run(before), e, k);
    if !(e.Repopulate? && HasMaster(NodesIn(e.rows, k))) {
      EntryReport(before, k);
    }
  }

  lemma ReportStep(cm: ClusterMap, e: Event, k: string)
    requires Legal(e) && k in Step(cm, e)
    ensures var t := Step(cm, e);
            if e.Repopulate? && HasMaster(NodesIn(e.rows, k)) then !t[k].ready && t[k].info == None
            else
              && k in cm
              && if e.Observe? && e.id == k then t[k].ready == e.ready && t[k].info == e.info
                 else t[k].ready == cm[k].ready && t[k].info == cm[k].info
  {
    match e
    case Repopulate(rows, order) =>
      InitOrderIrrelevant(cm, GroupRows(rows), order);
      GroupIsFilter(rows, k);
      LastMasterIff(NodesIn(rows, k));
    case Credentials(_, _) =>
    case Observe(_, _, _) =>
  }

  /** Whether, after this run, credentials of the node go to this cluster. */
  predicate Receives(events: seq<Event>, k: string, mac: string)
  {
    k != UNCLAIMED && LastMastered(events, k).Some? && HasMac(LastMastered(events, k).value, mac)
  }

  lemma {:induction false} WriteBackTargets(events: seq<Event>, mac: string, creds: Creds, k: string)
    requires forall i :: 0 <= i < |events| ==> Legal(events[i])
    requires k in Run(events)
    ensures var t := WriteBack(Run(events), mac, creds);
            t.Keys == Run(events).Keys
            && t[k] == if Receives(events, k, mac) then Grant(Run(events)[k], creds) else Run(events)[k]
  {
    ClusterEntries(events, k);
  }

  /** Whether the entry of a claimed cluster outlives its group: the cluster had a master and has none in
      these rows. */
  ghost predicate Stale(before: seq<Event>, rows: seq<Row>, k: string)
  {
    k != UNCLAIMED && LastMastered(before, k).Some? && !HasMaster(NodesIn(rows, k))
  }

  ghost predicate StaleLists(before: seq<Event>, rows: seq<Row>, k: string, mac: string)
  {
    Stale(before, rows, k) && HasMac(LastMastered(before, k).value, mac)
  }

  ghost predicate FreshLists(rows: seq<Row>, k: string, mac: string)
  {
    k != UNCLAIMED && HasMaster(NodesIn(rows, k)) && HasMac(NodesIn(rows, k), mac)
  }

  /** No node of a stale entry is in a claimed cluster that has a master, or in another stale entry. */
  ghost predicate StaleNodesGone(before: seq<Event>, rows: seq<Row>)
  {
    forall k, mac :: StaleLists(before, rows, k, mac) ==>
      && (forall j :: !FreshLists(rows, j, mac))
      && (forall j :: StaleLists(before, rows, j, mac) ==> j == k)
  }

  lemma ReceivesAfter(before: seq<Event>, rows: seq<Row>, order: seq<string>, k: string, mac: string)
    ensures Receives(before + [Repopulate(rows, order)], k, mac)
       <==> FreshLists(rows, k, mac) || StaleLists(before, rows, k, mac)
    ensures MacsDistinct(rows) ==> forall j :: FreshLists(rows, k, mac) && FreshLists(rows, j, mac) ==> k == j
  {
    var events := before + [Repopulate(rows, order)];
    assert events[..|events| - 1] == before;
    if MacsDistinct(rows) {
      forall j | FreshLists(rows, k, mac) && FreshLists(rows, j, mac)
        ensures k == j
      {
        NodesInHasMac(rows, k, mac);
        NodesInHasMac(rows, j, mac);
      }
    }
  }

  /** With distinct MACs in the file, no node's credentials ever go to two clusters exactly when the
      nodes of every stale entry are gone; in particular when no entry is stale. */
  lemma {:induction false} AtMostOneReceiverIff(before: seq<Event>, rows: seq<Row>, order: seq<string>)
    requires MacsDistinct(rows)
    ensures var events := before + [Repopulate(rows, order)];
            ((forall mac, k, j :: Receives(events, k, mac) && Receives(events, j, mac) ==> k == j)
              <==> StaleNodesGone(before, rows))
    ensures (forall k :: !Stale(before, rows, k)) ==> StaleNodesGone(before, rows)
  {
    hide Receives, FreshLists, Stale;
    var events := before + [Repopulate(rows, order)];
    forall k, mac
      ensures Receives(events, k, mac) <==> FreshLists(rows, k, mac) || StaleLists(before, rows, k, mac)
      ensures forall j :: FreshLists(rows, k, mac) && FreshLists(rows, j, mac) ==> k == j
    {
      ReceivesAfter(before, rows, order, k, mac);
    }
    forall k, mac | StaleLists(before, rows, k, mac)
      ensures !FreshLists(rows, k, mac)
    {
      StaleIsNotFresh(before, rows, k, mac);
    }
  }

  lemma StaleIsNotFresh(before: seq<Event>, rows: seq<Row>, k: string, mac: string)
    requires StaleLists(before, rows, k, mac)
    ensures !FreshLists(rows, k, mac)
  {
  }

  /** Distinct MACs alone are not enough: after a cluster loses its master, its old entry still
      lists the node that has moved on, and both entries receive its credentials. */
  lemma {:induction false} StaleEntryReceivesToo()
    ensures var first := [Row("1", "aa", "", "", "c0", "", "master"), Row("2", "bb", "", "", "c0", "", "worker")];
            var second := [Row("2", "bb", "", "", "c1", "", "master")];
            var events := [Repopulate(first, ["c0"]), Repopulate(second, ["c1"])];
            && MacsDistinct(first) && MacsDistinct(second)
            && (forall i :: 0 <= i < |events| ==> Legal(events[i]))
            && Receives(events, "c0", "bb") && Receives(events, "c1", "bb")
  {
    NamesDiffer();
    var a := Row("1", "aa", "", "", "c0", "", "master");
    var b := Row("2", "bb", "", "", "c0", "", "worker");
    var c := Row("2", "bb", "", "", "c1", "", "master");
    var first, second := [a, b], [c];
    var events := [Repopulate(first, ["c0"]), Repopulate(second, ["c1"])];
    SingleGroup(first, "c0");
    SingleGroup(second, "c1");
    assert first[..1] == [a] && [a][..0] == [] && second[..0] == [];
    assert NodesIn(second, "c1") == [NodeOf(c)];
    assert NodesIn([a], "c0") == [NodeOf(a)];
    assert NodesIn(first, "c0") == [NodeOf(a), NodeOf(b)];
    assert NodesIn(second, "c0") == [];
    assert NodesIn(first, "c0")[0].role == "master" && NodesIn(first, "c0")[1].mac == "bb";
    assert NodesIn(second, "c1")[0].role == "master" && NodesIn(second, "c1")[0].mac == "bb";
    assert events[..1] == [Repopulate(first, ["c0"])];
    assert LastMastered(events, "c1") == Some(NodesIn(second, "c1"));
    assert LastMastered(events[..1], "c0") == Some(NodesIn(first, "c0"));
    assert LastMastered(events, "c0") == LastMastered(events[..1], "c0");
  }

  lemma NamesDiffer()
    ensures "aa" != "bb" && "c0" != "c1" && "c0" != UNCLAIMED && "c1" != UNCLAIMED
  {
    assert "aa"[0] != "bb"[0] && "c0"[1] != "c1"[1];
  }

  lemma {:induction false} SingleGroup(rows: seq<Row>, c: string)
    requires rows != [] && forall i :: 0 <= i < |rows| ==> rows[i].cluster == c
    ensures Enumerates([c], GroupRows(rows))
  {
    GroupIsFilter(rows, c);
    assert rows[0].cluster == c;
    forall k | k in GroupRows(rows)
      ensures k == c
    {
      GroupIsFilter(rows, k);
    }
  }
}
