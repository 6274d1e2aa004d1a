/** internal/kubernetes and the write-back loop of internal/ansible with their heap: cluster objects
    behind one global map, updated in place. Loops over the map visit it in any order. */
module KubeClient {
  import opened Text
  import opened Orders
  import opened Templates
  import opened Population
  import C = Clusters
  import A = Ansible

  /** What a status query leaves in an entry: an unusable kubeconfig marks it not ready and keeps the
      old report; a failed query marks it ready and keeps the old report. */
  function Refreshed(c: C.Cluster, connects: string -> bool, query: string -> Option<seq<C.KubeNode>>): C.Cluster
  {
    if !connects(c.kubeConfig) then c.(ready := false)
    else if query(c.kubeConfig).None? then c.(ready := true)
    else c.(ready := true, info := query(c.kubeConfig))
  }

  predicate QueryFails(c: C.Cluster, connects: string -> bool, query: string -> Option<seq<C.KubeNode>>)
  {
    connects(c.kubeConfig) && query(c.kubeConfig).None?
  }

  /** What a query stores: the entry is ready exactly when its kubeconfig can be used; then it holds the report of
      the query if there is one, otherwise its old report. Nothing else changes. */
  lemma RefreshedMeans(c: C.Cluster, connects: string -> bool, query: string -> Option<seq<C.KubeNode>>)
    ensures var d := Refreshed(c, connects, query);
            && d.ready == connects(c.kubeConfig)
            && d.info == (if connects(c.kubeConfig) && query(c.kubeConfig).Some? then query(c.kubeConfig) else c.info)
            && d.id == c.id && d.kubeConfig == c.kubeConfig && d.nodes == c.nodes
            && d.token == c.token && d.apiEndpoint == c.apiEndpoint
    ensures QueryFails(c, connects, query) <==> connects(c.kubeConfig) && query(c.kubeConfig).None?
  {
  }

  lemma RefreshedAll(cm: C.ClusterMap, connects: string -> bool, query: string -> Option<seq<C.KubeNode>>)
    ensures forall k :: k in cm ==>
              var d := Refreshed(cm[k], connects, query);
              && d.ready == connects(cm[k].kubeConfig)
              && d.info == (if connects(cm[k].kubeConfig) && query(cm[k].kubeConfig).Some? then query(cm[k].kubeConfig)
                            else cm[k].info)
              && d.token == cm[k].token && d.apiEndpoint == cm[k].apiEndpoint
    ensures forall k :: k in cm ==>
              (QueryFails(cm[k], connects, query) <==> connects(cm[k].kubeConfig) && query(cm[k].kubeConfig).None?)
  {
    forall k | k in cm
      ensures var d := Refreshed(cm[k], connects, query);
              && d.ready == connects(cm[k].kubeConfig)
              && d.info == (if connects(cm[k].kubeConfig) && query(cm[k].kubeConfig).Some? then query(cm[k].kubeConfig)
                            else cm[k].info)
              && d.token == cm[k].token && d.apiEndpoint == cm[k].apiEndpoint
    {
      RefreshedMeans(cm[k], connects, query);
    }
  }

  class ClusterObject {
    const id: string
    const kubeConfig: string
    const nodes: seq<Node>
    var token: string
    var apiEndpoint: string
    var ready: bool
    var info: Option<seq<C.KubeNode>>

    constructor (id: string, kubeConfig: string, nodes: seq<Node>)
      ensures Value() == C.Cluster(id, kubeConfig, "", "", nodes, false, None)
    {
      this.id, this.kubeConfig, this.nodes := id, kubeConfig, nodes;
      token, apiEndpoint, ready, info := "", "", false, None;
    }

    function Value(): C.Cluster
      reads this
    {
      C.Cluster(id, kubeConfig, token, apiEndpoint, nodes, ready, info)
    }

    /** One turn of the query loop. */
    method Refresh(connects: string -> bool, query: string -> Option<seq<C.KubeNode>>) returns (failed: bool)
      modifies this
      ensures Value() == Refreshed(old(Value()), connects, query)
      ensures failed <==> QueryFails(old(Value()), connects, query)
    {
      if !connects(kubeConfig) {
        ready := false;
        return false;
      }
      ready := true;
      var report := query(kubeConfig);
      if report.None? {
        return true;
      }
      info := report;
      return false;
    }

    /** The inner loop of the write-back: every listed occurrence of the node sets the credentials. */
    method GrantIfListed(mac: string, creds: C.Creds)
      modifies this
      ensures Value() == if HasMac(nodes, mac) then C.Grant(old(Value()), creds) else old(Value())
    {
      for i := 0 to |nodes|
        invariant Value() == if HasMac(nodes[..i], mac) then C.Grant(old(Value()), creds) else old(Value())
      {
        assert nodes[..i + 1] == nodes[..i] + [nodes[i]];
        assert HasMac(nodes[..i], mac) ==> HasMac(nodes[..i + 1], mac) by {
          if HasMac(nodes[..i], mac) {
            var j :| 0 <= j < i && nodes[..i][j].mac == mac;
            assert nodes[..i + 1][j].mac == mac;
          }
        }
        if nodes[i].mac == mac {
          assert nodes[..i + 1][i].mac == mac;
          token := creds.token;
          apiEndpoint := creds.server;
        }
      }
      assert nodes[..|nodes|] == nodes;
    }
  }

  /** The map part-way through the query loop, rest not visited yet. */
  ghost function PartlyRefreshed(cm: C.ClusterMap, rest: set<string>, connects: string -> bool,
                                 query: string -> Option<seq<C.KubeNode>>): C.ClusterMap
  {
    map k | k in cm :: if k in rest then cm[k] else Refreshed(cm[k], connects, query)
  }

  /** The map part-way through the write-back loop, rest not visited yet. */
  ghost function PartlyWritten(cm: C.ClusterMap, rest: set<string>, mac: string, creds: C.Creds): C.ClusterMap
  {
    map k | k in cm :: if k !in rest && C.Targets(cm[k], k, mac) then C.Grant(cm[k], creds) else cm[k]
  }

  lemma RefreshProgress(cm: C.ClusterMap, rest: set<string>, connects: string -> bool,
                                           query: string -> Option<seq<C.KubeNode>>)
    ensures var p := PartlyRefreshed(cm, rest, connects, query);
            && p.Keys == cm.Keys
            && (forall k :: k in cm ==> p[k] == if k in rest then cm[k] else Refreshed(cm[k], connects, query))
            && (rest == cm.Keys ==> p == cm)
            && (forall k :: k in cm && k in rest ==>
                  p[k := Refreshed(cm[k], connects, query)] == PartlyRefreshed(cm, rest - {k}, connects, query))
  {
    hide Refreshed;
  }

  lemma WriteProgress(cm: C.ClusterMap, rest: set<string>, mac: string, creds: C.Creds)
    ensures var p := PartlyWritten(cm, rest, mac, creds);
            && p.Keys == cm.Keys
            && (forall k :: k in cm && k in rest ==> p[k] == cm[k])
            && (rest == cm.Keys ==> p == cm)
            && (rest == {} ==> p == C.WriteBack(cm, mac, creds))
            && (forall k :: k in cm && k in rest ==>
                  p[k := if C.Targets(cm[k], k, mac) then C.Grant(cm[k], creds) else cm[k]]
                  == PartlyWritten(cm, rest - {k}, mac, creds))
  {
    hide C.Targets, C.Grant;
  }

  /** Queried is the only outcome with a result: before any cluster was initialised there is no map to
      loop over, and one failed query ends the loop. */
  datatype QueryOutcome = NoMap | QueryFailed | Queried

  /** What the playbook of a token fetch came to, as seen by the code after it. */
  datatype PlaybookRun = ExecFailed | Unparseable | Results(plays: seq<A.Play>)

  datatype FetchResult = Failed | Crashed | Fetched(creds: C.Creds)

  /** When the code after the playbook dereferences nil: its output does not parse, or it has found
      credentials and the query has no result. */
  ghost predicate FetchCrashes(made: bool, cm: C.ClusterMap, run: PlaybookRun, decode: string -> Option<C.Creds>,
                               connects: string -> bool, query: string -> Option<seq<C.KubeNode>>)
  {
    || run.Unparseable?
    || (run.Results? && !A.Possible(decode, run.plays, None)
        && (!made || exists k :: k in cm && QueryFails(cm[k], connects, query)))
  }

  ghost function AllRefreshed(cm: C.ClusterMap, connects: string -> bool, query: string -> Option<seq<C.KubeNode>>): C.ClusterMap
  {
    map k | k in cm :: Refreshed(cm[k], connects, query)
  }

  class Registry {
    var made: bool
    var clusters: map<string, ClusterObject>

    ghost predicate Valid()
      reads this
    {
      && (!made ==> clusters == map[])
      && forall a, b :: a in clusters && b in clusters && a != b ==> clusters[a] != clusters[b]
    }

    ghost function View(): (view: C.ClusterMap)
      reads this, clusters.Values
      ensures view.Keys == clusters.Keys
    {
      map k | k in clusters :: clusters[k].Value()
    }

    lemma ViewShows()
      ensures forall k :: k in clusters ==>
                var c, v := clusters[k], View()[k];
                && v.id == c.id && v.kubeConfig == c.kubeConfig && v.nodes == c.nodes
                && v.token == c.token && v.apiEndpoint == c.apiEndpoint && v.ready == c.ready && v.info == c.info
    {
    }

    constructor ()
      ensures Valid() && View() == map[] && !made
    {
      made, clusters := false, map[];
    }

    method SetEntry(id: string, entry: ClusterObject)
      requires Valid() && made && entry !in clusters.Values
      modifies this
      ensures Valid() && made && clusters == old(clusters)[id := entry]
      ensures View() == old(View())[id := entry.Value()]
    {
      clusters := clusters[id := entry];
    }

    /** Every master node replaces the entry, so the last one stays. */
    method InitCluster(id: string, nodes: seq<Node>)
      requires Valid()
      modifies this
      ensures Valid() && made
      ensures View() == C.InitCluster(old(View()), id, nodes)
    {
      hide Path, MacAsID, Suffix, Prefix, View, C.LastMaster;
      ghost var view := View();
      if !made {
        made, clusters := true, map[];
      }
      C.LastMasterSteps(nodes, 0);
      for i := 0 to |nodes|
        invariant Valid() && made
        invariant View() == match C.LastMaster(nodes[..i])
                            case None => view
                            case Some(n) =>
                              view[id := C.Cluster(id, Path(KubeConfig, MacAsID(n.mac)), "", "", nodes, false, None)]
      {
        C.LastMasterSteps(nodes, i);
        if nodes[i].role == "master" {
          var entry := new ClusterObject(id, Path(KubeConfig, MacAsID(nodes[i].mac)), nodes);
          SetEntry(id, entry);
        }
      }
      assert nodes[..|nodes|] == nodes;
    }

    /** The loop of the background validation, without the goroutines it spawns. */
    method InitClusters(g: Groups)
      requires Valid()
      modifies this
      ensures Valid() && (made <==> old(made) || g != map[])
      ensures View() == old(View()) + C.Mastered(g)
    {
      var rest := g.Keys;
      ghost var order: seq<string> := [];
      ghost var view := View();
      while rest != {}
        invariant Valid() && rest <= g.Keys
        invariant made <==> old(made) || rest != g.Keys
        invariant forall i :: 0 <= i < |order| ==> order[i] in g && order[i] !in rest
        invariant forall k :: k in g ==> k in rest || k in order
        invariant NoRepeat(order)
        invariant View() == C.InitAll(view, g, order)
      {
        var k :| k in rest;
        assert (order + [k])[..|order + [k]| - 1] == order;
        InitCluster(k, g[k]);
        rest, order := rest - {k}, order + [k];
      }
      C.InitOrderIrrelevant(view, g, order);
    }

    method RefreshEntry(k: string, connects: string -> bool, query: string -> Option<seq<C.KubeNode>>)
      returns (failed: bool)
      requires Valid() && k in clusters
      modifies clusters[k]
      ensures clusters == old(clusters)
      ensures View() == old(View())[k := Refreshed(old(View())[k], connects, query)]
      ensures failed <==> QueryFails(old(View())[k], connects, query)
    {
      hide Refreshed, QueryFails;
      failed := clusters[k].Refresh(connects, query);
      forall j | j in clusters && j != k
        ensures clusters[j].Value() == old(clusters[j].Value())
      {
        assert clusters[j] != clusters[k];
      }
    }

    method GrantEntry(k: string, mac: string, creds: C.Creds)
      requires Valid() && k in clusters
      modifies clusters[k]
      ensures clusters == old(clusters)
      ensures View() == var c := old(View())[k];
                        old(View())[k := if HasMac(c.nodes, mac) then C.Grant(c, creds) else c]
    {
      hide HasMac;
      clusters[k].GrantIfListed(mac, creds);
      forall j | j in clusters && j != k
        ensures clusters[j].Value() == old(clusters[j].Value())
      {
        assert clusters[j] != clusters[k];
      }
    }

    /** The loop over the clusters. A failed query ends the loop with no result, leaving the entries
        visited before it refreshed and the others as they were. */
    method QueryEach(connects: string -> bool, query: string -> Option<seq<C.KubeNode>>) returns (r: QueryOutcome)
      requires Valid()
      modifies clusters.Values
      ensures Valid() && clusters == old(clusters)
      ensures r.NoMap? <==> !made
      ensures r.Queried? <==> made && forall k :: k in clusters ==> !QueryFails(old(View())[k], connects, query)
      ensures r.Queried? ==> forall k :: k in clusters ==> View()[k] == Refreshed(old(View())[k], connects, query)
      ensures forall k :: k in clusters ==>
                View()[k] == old(View())[k] || View()[k] == Refreshed(old(View())[k], connects, query)
    {
      hide Refreshed, QueryFails, PartlyRefreshed, View;
      if !made {
        return NoMap;
      }
      var rest := clusters.Keys;
      ghost var view := View();
      RefreshProgress(view, rest, connects, query);
      while rest != {}
        invariant rest <= clusters.Keys
        invariant clusters.Keys == view.Keys
        invariant View() == PartlyRefreshed(view, rest, connects, query)
        invariant forall k :: k in clusters && k !in rest ==> !QueryFails(view[k], connects, query)
      {
        var k :| k in rest;
        RefreshProgress(view, rest, connects, query);
        RefreshProgress(view, rest - {k}, connects, query);
        rest := rest - {k};
        var failed := RefreshEntry(k, connects, query);
        if failed {
          return QueryFailed;
        }
      }
      RefreshProgress(view, {}, connects, query);
      return Queried;
    }

    /** Queries every cluster: without a map it panics, and it has a result exactly when every usable cluster
        answers. Then each entry is ready exactly when its kubeconfig can be used, and holds the report
        of its query, or its old one if it cannot. */
    method GetClusters(connects: string -> bool, query: string -> Option<seq<C.KubeNode>>) returns (r: QueryOutcome)
      requires Valid()
      modifies clusters.Values
      ensures Valid() && clusters == old(clusters)
      ensures r.NoMap? <==> !made
      ensures r.Queried? <==>
                made && forall k :: k in clusters && connects(clusters[k].kubeConfig) ==> query(clusters[k].kubeConfig).Some?
      ensures r.Queried? ==>
                forall k :: k in clusters ==>
                  && clusters[k].ready == connects(clusters[k].kubeConfig)
                  && clusters[k].info == if clusters[k].ready then query(clusters[k].kubeConfig) else old(clusters[k].info)
      ensures forall k :: k in clusters ==>
                clusters[k].token == old(clusters[k].token) && clusters[k].apiEndpoint == old(clusters[k].apiEndpoint)
      ensures r.Queried? <==> made && forall k :: k in clusters ==> !QueryFails(old(View())[k], connects, query)
      ensures r.Queried? ==> View() == AllRefreshed(old(View()), connects, query)
      ensures forall k :: k in clusters ==>
                View()[k] == old(View())[k] || View()[k] == Refreshed(old(View())[k], connects, query)
    {
      hide Refreshed, QueryFails, View;
      ghost var view := View();
      ViewShows();
      r := QueryEach(connects, query);
      ViewShows();
      RefreshedAll(view, connects, query);
    }

    method WriteBack(mac: string, creds: C.Creds)
      requires Valid()
      modifies clusters.Values
      ensures Valid() && clusters == old(clusters)
      ensures View() == C.WriteBack(old(View()), mac, creds)
    {
      hide PartlyWritten, View, C.Grant, C.WriteBack, HasMac;
      var rest := clusters.Keys;
      ghost var view := View();
      WriteProgress(view, rest, mac, creds);
      while rest != {}
        invariant rest <= clusters.Keys && clusters.Keys == view.Keys
        invariant View() == PartlyWritten(view, rest, mac, creds)
      {
        var k :| k in rest;
        WriteProgress(view, rest, mac, creds);
        rest := rest - {k};
        if k != "unclaimed" {
          GrantEntry(k, mac, creds);
        } else {
          assert View()[k := view[k]] == View();
        }
      }
      WriteProgress(view, {}, mac, creds);
    }

    /** The write-back, field by field: the claimed clusters that list the node take token and server of the
        credentials as token and endpoint. */
    method StoreCreds(mac: string, creds: C.Creds)
      requires Valid()
      modifies clusters.Values
      ensures Valid() && clusters == old(clusters)
      ensures View() == C.WriteBack(old(View()), mac, creds)
      ensures forall k :: k in clusters ==>
                && clusters[k].ready == old(clusters[k].ready) && clusters[k].info == old(clusters[k].info)
                && if k != "unclaimed" && exists i :: 0 <= i < |clusters[k].nodes| && clusters[k].nodes[i].mac == mac then
                     clusters[k].token == creds.token && clusters[k].apiEndpoint == creds.server
                   else clusters[k].token == old(clusters[k].token) && clusters[k].apiEndpoint == old(clusters[k].apiEndpoint)
    {
      hide View;
      ViewShows();
      WriteBack(mac, creds);
      ViewShows();
    }

    /** FetchToken once the playbook has been prepared. Neither the error of the parser nor the outcome of
        the cluster query is looked at, so output that does not parse, a missing map, and a failed
        query are nil dereferences. */
    method FetchToken(mac: string, run: PlaybookRun, decode: string -> Option<C.Creds>, connects: string -> bool,
                      query: string -> Option<seq<C.KubeNode>>) returns (r: FetchResult)
      requires Valid()
      modifies clusters.Values
      ensures Valid() && clusters == old(clusters)
      ensures r.Failed? <==> run.ExecFailed? || (run.Results? && A.Possible(decode, run.plays, None))
      ensures r.Crashed? <==> FetchCrashes(made, old(View()), run, decode, connects, query)
      ensures r.Fetched? ==> run.Results? && A.Possible(decode, run.plays, Some(r.creds))
      ensures r.Fetched? ==>
                exists p: nat, t: nat, h, s :: A.IsTask(run.plays, p, t) && h in run.plays[p][t]
                  && run.plays[p][t][h] == A.Str(s) && decode(s) == Some(r.creds)
      ensures r.Fetched? ==>
                forall k :: k in clusters ==>
                  if k != "unclaimed" && exists i :: 0 <= i < |clusters[k].nodes| && clusters[k].nodes[i].mac == mac then
                    clusters[k].token == r.creds.token && clusters[k].apiEndpoint == r.creds.server
                  else clusters[k].token == old(clusters[k].token) && clusters[k].apiEndpoint == old(clusters[k].apiEndpoint)
      ensures r.Fetched? ==> View() == C.WriteBack(AllRefreshed(old(View()), connects, query), mac, r.creds)
      ensures r.Failed? || run.Unparseable? ==> View() == old(View())
      ensures r.Crashed? ==> forall k :: k in clusters ==>
                View()[k] == old(View())[k] || View()[k] == Refreshed(old(View())[k], connects, query)
    {
      hide Refreshed, QueryFails, View, C.WriteBack, A.Possible, A.OffersNothing;
      ghost var refreshed := AllRefreshed(View(), connects, query);
      match run {
        case ExecFailed => return Failed;
        case Unparseable => return Crashed;
        case Results(plays) =>
          var creds := A.ExtractCreds(decode, plays);
          if creds.None? {
            return Failed;
          }
          var outcome := GetClusters(connects, query);
          if !outcome.Queried? {
            return Crashed;
          }
          A.PossibleMeans(decode, plays, creds);
          StoreCreds(mac, creds.value);
          return Fetched(creds.value);
      }
    }
  }
}
