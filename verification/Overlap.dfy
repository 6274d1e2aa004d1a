/** Validations that overlap: each repopulation starts a loop of its own over its own groups, so an older
    loop may initialise a cluster after a newer one has, while fetches write back in between. */
module Overlap {
  import opened Text
  import opened Csv
  import opened Templates
  import opened Population
  import opened Clusters

  datatype Loop = Loop(groups: Groups, started: set<string>)

  datatype Report = Report(ready: bool, info: Option<seq<KubeNode>>)

  datatype State = State(cm: ClusterMap, loops: map<nat, Loop>)

  /** Write is the write-back of any fetch, one that a loop or one that a request began; Observe is what
      a status query stores in the entries it gets to. */
  datatype Step =
    | Start(v: nat, rows: seq<Row>)
    | Init(v: nat, k: string)
    | Write(mac: string, creds: Creds)
    | Observe(reports: map<string, Report>)

  /** The group that this initialisation takes its cluster from. */
  predicate CanInit(s: State, v: nat, k: string)
  {
    v in s.loops && k in s.loops[v].groups && k !in s.loops[v].started
  }

  function Next(s: State, step: Step): Option<State>
  {
    match step
    case Start(v, rows) =>
      if v in s.loops then None else Some(s.(loops := s.loops[v := Loop(GroupRows(rows), {})]))
    case Init(v, k) =>
      if !CanInit(s, v, k) then None
      else
        var l := s.loops[v];
        Some(State(InitCluster(s.cm, k, l.groups[k]), s.loops[v := l.(started := l.started + {k})]))
    case Write(mac, creds) =>
      Some(s.(cm := WriteBack(s.cm, mac, creds)))
    case Observe(reports) =>
      Some(s.(cm := Observed(s.cm, reports)))
  }

  function Observed(cm: ClusterMap, reports: map<string, Report>): ClusterMap
  {
    map k | k in cm :: if k in reports then cm[k].(ready := reports[k].ready, info := reports[k].info) else cm[k]
  }

  function Run(steps: seq<Step>): Option<State>
  {
    if steps == [] then Some(State(map[], map[]))
    else
      var s :- Run(steps[..|steps| - 1]);
      Next(s, steps[|steps| - 1])
  }

  // ---------- Entries ----------

  /** Whether this step makes the entry of the cluster anew. */
  predicate Makes(s: State, step: Step, k: string)
  {
    step.Init? && step.k == k && CanInit(s, step.v, k) && HasMaster(s.loops[step.v].groups[k])
  }

  /** The step that made the entry of the cluster last. */
  function Maker(steps: seq<Step>, k: string): Option<nat>
    requires Run(steps).Some?
  {
    if steps == [] then None
    else
      var before, last := steps[..|steps| - 1], steps[|steps| - 1];
      if Makes(Run(before).value, last, k) then Some(|before|) else Maker(before, k)
  }

  lemma StepEntry(s: State, step: Step, k: string)
    requires Next(s, step).Some?
    ensures var t := Next(s, step).value;
            if Makes(s, step, k) then
              LastMaster(s.loops[step.v].groups[k]).Some? && k in t.cm && t.cm[k] == NewCluster(k, s.loops[step.v].groups[k])
            else
              && (k in t.cm <==> k in s.cm)
              && (k in s.cm ==>
                    && t.cm[k].id == s.cm[k].id && t.cm[k].nodes == s.cm[k].nodes && t.cm[k].kubeConfig == s.cm[k].kubeConfig
                    && if step.Write? && Targets(s.cm[k], k, step.mac) then t.cm[k] == Grant(s.cm[k], step.creds)
                       else t.cm[k].token == s.cm[k].token && t.cm[k].apiEndpoint == s.cm[k].apiEndpoint)
    ensures forall v :: v in s.loops ==> v in Next(s, step).value.loops
                                         && Next(s, step).value.loops[v].groups == s.loops[v].groups
  {
    hide NewCluster, HasMaster, LastMaster, HasMac, GroupRows;
    if step.Init? {
      LastMasterIff(s.loops[step.v].groups[step.k]);
    }
  }

  /** Over every run of overlapping loops: the map holds exactly the clusters that some loop has
      initialised with a master; each entry lists the group that the last such initialisation had,
      whichever loop it belonged to, and its kubeconfig is named after the last master of that group. */
  lemma {:induction false} EntriesOverlapped(steps: seq<Step>, k: string)
    requires Run(steps).Some?
    ensures var s, m := Run(steps).value, Maker(steps, k);
            && (k in s.cm <==> m.Some?)
            && (m.Some? ==>
                  && m.value < |steps| && steps[m.value].Init? && steps[m.value].k == k
                  && var v := steps[m.value].v;
                  && v in s.loops && k in s.loops[v].groups
                  && s.cm[k].id == k && s.cm[k].nodes == s.loops[v].groups[k]
                  && LastMaster(s.cm[k].nodes).Some?
                  && s.cm[k].kubeConfig == Path(KubeConfig, MacAsID(LastMaster(s.cm[k].nodes).value.mac)))
  {
    hide Next, Path, MacAsID, LastMaster, HasMaster;
    if steps != [] {
      var before, last := steps[..|steps| - 1], steps[|steps| - 1];
      EntriesOverlapped(before, k);
      StepEntry(Run(before).value, last, k);
    }
  }

  // ---------- Credentials ----------

  predicate Grants(step: Step, c: Cluster, k: string)
  {
    step.Write? && Targets(c, k, step.mac)
  }

  /** The entry carries the credentials of the last write after step m for a node that it lists, and
      none if there was no such write. */
  ghost predicate CarriesLastGrant(steps: seq<Step>, m: nat, c: Cluster, k: string)
  {
    || (c.token == "" && c.apiEndpoint == "" && forall i :: m < i < |steps| ==> !Grants(steps[i], c, k))
    || exists n :: m < n < |steps| && IsLastGrant(steps, n, c, k)
  }

  ghost predicate IsLastGrant(steps: seq<Step>, n: nat, c: Cluster, k: string)
    requires n < |steps|
  {
    && Grants(steps[n], c, k)
    && c.token == steps[n].creds.token && c.apiEndpoint == steps[n].creds.server
    && forall i :: n < i < |steps| ==> !Grants(steps[i], c, k)
  }

  lemma GrantCarried(steps: seq<Step>, m: nat, c: Cluster, d: Cluster, k: string)
    requires steps != [] && m < |steps| - 1 && CarriesLastGrant(steps[..|steps| - 1], m, c, k)
    requires c.nodes == d.nodes
    requires if Grants(steps[|steps| - 1], c, k) then d == Grant(c, steps[|steps| - 1].creds)
             else d.token == c.token && d.apiEndpoint == c.apiEndpoint
    ensures CarriesLastGrant(steps, m, d, k)
  {
    var before, last := steps[..|steps| - 1], |steps| - 1;
    assert forall i :: 0 <= i < last ==> before[i] == steps[i];
    assert forall i :: 0 <= i < |steps| ==> (Grants(steps[i], c, k) <==> Grants(steps[i], d, k));
    if Grants(steps[last], c, k) {
      assert IsLastGrant(steps, last, d, k);
    } else if n :| m < n < |before| && IsLastGrant(before, n, c, k) {
      assert IsLastGrant(steps, n, d, k);
    }
  }

  /** Over every run of overlapping loops an entry carries exactly what was last written for a node it
      lists since it was last made; making it anew empties it. */
  lemma {:induction false} CredentialsOverlapped(steps: seq<Step>, k: string)
    requires Run(steps).Some? && Maker(steps, k).Some?
    ensures k in Run(steps).value.cm
    ensures CarriesLastGrant(steps, Maker(steps, k).value, Run(steps).value.cm[k], k)
  {
    hide Next, LastMaster, HasMaster, CarriesLastGrant, HasMac, Path;
    EntriesOverlapped(steps, k);
    var before, last := steps[..|steps| - 1], steps[|steps| - 1];
    var s, t := Run(before).value, Run(steps).value;
    StepEntry(s, last, k);
    if Makes(s, last, k) {
      JustMade(steps, t.cm[k], k);
    } else {
      CredentialsOverlapped(before, k);
      EntriesOverlapped(before, k);
      GrantCarried(steps, Maker(before, k).value, s.cm[k], t.cm[k], k);
    }
  }

  lemma JustMade(steps: seq<Step>, c: Cluster, k: string)
    requires steps != [] && c.token == "" && c.apiEndpoint == ""
    ensures CarriesLastGrant(steps, |steps| - 1, c, k)
  {
  }

  // ---------- Loops that do not overlap ----------

  predicate Done(l: Loop)
  {
    l.started == l.groups.Keys
  }

  /** Every loop starts after the ones before it are done. */
  ghost predicate Serial(steps: seq<Step>)
    requires Run(steps).Some?
  {
    steps == [] ||
    var before, last := steps[..|steps| - 1], steps[|steps| - 1];
    && Serial(before)
    && (last.Start? ==> forall v :: v in Run(before).value.loops ==> Done(Run(before).value.loops[v]))
  }

  /** The repopulations that started the loops. */
  function Repopulations(steps: seq<Step>): seq<Event>
  {
    if steps == [] then []
    else
      var last := steps[|steps| - 1];
      if last.Start? then Repopulations(steps[..|steps| - 1]) + [Repopulate(last.rows, [])]
      else Repopulations(steps[..|steps| - 1])
  }

  function Newest(steps: seq<Step>): nat
  {
    if steps == [] then 0
    else if steps[|steps| - 1].Start? then steps[|steps| - 1].v
    else Newest(steps[..|steps| - 1])
  }

  /** The cluster as the newest loop v leaves it when it has come so far. */
  ghost predicate FollowsAt(s: State, events: seq<Event>, v: nat, k: string)
  {
    && (forall u :: u in s.loops && (u != v || events == []) ==> Done(s.loops[u]))
    && (events != [] ==>
          var e := events[|events| - 1];
          && e.Repopulate? && v in s.loops && s.loops[v].groups == GroupRows(e.rows)
          && var nodes := if k in s.loops[v].started then LastMastered(events, k)
                          else LastMastered(events[..|events| - 1], k);
             (k in s.cm <==> nodes.Some?) && (k in s.cm ==> s.cm[k].nodes == nodes.value))
    && (events == [] ==> k !in s.cm)
  }

  lemma StartFollows(s: State, v: nat, rows: seq<Row>, events: seq<Event>, newest: nat, k: string)
    requires FollowsAt(s, events, newest, k) && v !in s.loops
    requires forall u :: u in s.loops ==> Done(s.loops[u])
    ensures FollowsAt(Next(s, Start(v, rows)).value, events + [Repopulate(rows, [])], v, k)
  {
    hide GroupRows, NodesIn, HasMaster;
    var after := events + [Repopulate(rows, [])];
    assert after[..|after| - 1] == events;
    if events != [] {
      GroupIsFilter(events[|events| - 1].rows, k);
      LastMasterIff(NodesIn(events[|events| - 1].rows, k));
      NobodyMasters(events[|events| - 1].rows, k);
      assert Done(s.loops[newest]);
    }
  }

  lemma {:induction false} NobodyMasters(rows: seq<Row>, k: string)
    ensures k !in GroupRows(rows) ==> !HasMaster(NodesIn(rows, k))
    ensures k in GroupRows(rows) ==> GroupRows(rows)[k] == NodesIn(rows, k)
  {
    GroupIsFilter(rows, k);
  }

  lemma StepFollowsFile(s: State, step: Step, events: seq<Event>, v: nat, k: string)
    requires FollowsAt(s, events, v, k) && Next(s, step).Some? && !step.Start?
    ensures FollowsAt(Next(s, step).value, events, v, k)
  {
    hide GroupRows, NodesIn, HasMaster, LastMaster, NewCluster, HasMac;
    StepEntry(s, step, k);
    if events != [] {
      NobodyMasters(events[|events| - 1].rows, k);
    }
    assert step.Init? ==> step.v == v && events != [];
    if Makes(s, step, k) {
      NewClusterLists(k, s.loops[v].groups[k]);
    }
  }

  lemma {:induction false} NewClusterLists(k: string, nodes: seq<Node>)
    ensures LastMaster(nodes).Some? ==> NewCluster(k, nodes).nodes == nodes
  {
  }

  lemma {:induction false} SerialFollows(steps: seq<Step>, k: string)
    requires Run(steps).Some? && Serial(steps)
    ensures FollowsAt(Run(steps).value, Repopulations(steps), Newest(steps), k)
  {
    hide Next, FollowsAt;
    if steps == [] {
      NothingFollows(k);
    } else {
      var before, last := steps[..|steps| - 1], steps[|steps| - 1];
      SerialFollows(before, k);
      if last.Start? {
        StartIsNew(Run(before).value, last.v, last.rows);
        StartFollows(Run(before).value, last.v, last.rows, Repopulations(before), Newest(before), k);
      } else {
        StepFollowsFile(Run(before).value, last, Repopulations(before), Newest(before), k);
      }
    }
  }

  lemma NothingFollows(k: string)
    ensures FollowsAt(State(map[], map[]), [], 0, k)
  {
  }

  lemma StartIsNew(s: State, v: nat, rows: seq<Row>)
    requires Next(s, Start(v, rows)).Some?
    ensures v !in s.loops
  {
  }

  /** When loops do not overlap and the newest is done, the entries are those of whole repopulations one
      after the other. */
  lemma {:induction false} SerialLoopsFollowFile(steps: seq<Step>, k: string)
    requires Run(steps).Some? && Serial(steps)
    requires forall v :: v in Run(steps).value.loops ==> Done(Run(steps).value.loops[v])
    ensures FollowsFile(steps, k)
  {
    hide Run, Serial, NodesIn, GroupRows, HasMaster;
    var events := Repopulations(steps);
    SerialFollows(steps, k);
    if events != [] {
      NobodyMasters(events[|events| - 1].rows, k);
    }
  }

  // ---------- When the newest file prevails ----------

  /** The loop started last whose rows give the cluster a master. */
  function NewestMastering(steps: seq<Step>, k: string): Option<nat>
  {
    if steps == [] then None
    else
      var last := steps[|steps| - 1];
      if last.Start? && HasMaster(NodesIn(last.rows, k)) then Some(last.v)
      else NewestMastering(steps[..|steps| - 1], k)
  }

  lemma {:induction false} NewestMasteringGroup(steps: seq<Step>, k: string)
    requires Run(steps).Some?
    ensures var s, n, nodes := Run(steps).value, NewestMastering(steps, k), LastMastered(Repopulations(steps), k);
            && (n.Some? <==> nodes.Some?)
            && (n.Some? ==> n.value in s.loops && k in s.loops[n.value].groups && s.loops[n.value].groups[k] == nodes.value)
            && (forall v :: v in s.loops && k in s.loops[v].groups && HasMaster(s.loops[v].groups[k]) ==> n.Some?)
  {
    hide Next, HasMaster, NodesIn, GroupRows;
    if steps != [] {
      var before, last := steps[..|steps| - 1], steps[|steps| - 1];
      NewestMasteringGroup(before, k);
      StepKeepsLoops(Run(before).value, last);
      if last.Start? {
        var all := Repopulations(steps);
        assert all[..|all| - 1] == Repopulations(before);
        NobodyMasters(last.rows, k);
      }
    }
  }

  lemma StepKeepsLoops(s: State, step: Step)
    requires Next(s, step).Some?
    ensures var t := Next(s, step).value;
            && (forall v :: v in s.loops ==> v in t.loops && t.loops[v].groups == s.loops[v].groups)
            && (forall v :: v in t.loops && v !in s.loops ==> step.Start? && v == step.v)
            && (step.Start? ==> step.v in t.loops && t.loops[step.v].groups == GroupRows(step.rows))
  {
    hide InitCluster, WriteBack, Observed, GroupRows;
  }

  /** The entry is what the last repopulation that gave the cluster a master calls for. */
  ghost predicate FollowsFile(steps: seq<Step>, k: string)
    requires Run(steps).Some?
  {
    var s, nodes := Run(steps).value, LastMastered(Repopulations(steps), k);
    (k in s.cm <==> nodes.Some?) && (k in s.cm ==> s.cm[k].nodes == nodes.value)
  }

  /** The loop that made the entry last is the newest one whose rows give the cluster a master, or has
      the same group for it. */
  ghost predicate MadeByNewest(steps: seq<Step>, k: string)
    requires Run(steps).Some?
  {
    var s, m, n := Run(steps).value, Maker(steps, k), NewestMastering(steps, k);
    && m.Some? && m.value < |steps| && steps[m.value].Init? && n.Some?
    && var v := steps[m.value].v;
    && v in s.loops && n.value in s.loops
    && (v == n.value
        || (k in s.loops[v].groups && k in s.loops[n.value].groups && s.loops[v].groups[k] == s.loops[n.value].groups[k]))
  }

  /** In every run of overlapping loops an entry follows the file exactly when it was made last for the
      newest group that has a master, or nothing has ever called for it. */
  lemma {:induction false} FollowsFileIff(steps: seq<Step>, k: string)
    requires Run(steps).Some?
    ensures FollowsFile(steps, k)
       <==> MadeByNewest(steps, k) || (Maker(steps, k).None? && NewestMastering(steps, k).None?)
  {
    hide Run, Maker, NewestMastering, LastMastered, Repopulations, Path, MacAsID;
    EntriesOverlapped(steps, k);
    NewestMasteringGroup(steps, k);
    if Maker(steps, k).Some? {
      LastMasterIff(Run(steps).value.cm[k].nodes);
    }
  }

  // ---------- An older loop that finishes later ----------

  function LateSteps(a: Row, b: Row): seq<Step>
  {
    [Start(0, [a]), Start(1, [b]), Init(1, "c0"), Init(0, "c0")]
  }

  /** The older loop initialises the cluster last: with both loops done, the entry lists the node of the
      old file, and its kubeconfig is named after that node. */
  lemma {:induction false} OlderLoopOverrides()
    ensures var a, b := Row("1", "aa", "", "", "c0", "", "master"), Row("2", "bb", "", "", "c0", "", "master");
            var r := Run(LateSteps(a, b));
            && r.Some? && (forall v :: v in r.value.loops ==> Done(r.value.loops[v]))
            && "c0" in r.value.cm && r.value.cm["c0"].nodes == [NodeOf(a)]
            && LastMastered(Repopulations(LateSteps(a, b)), "c0") == Some([NodeOf(b)])
            && [NodeOf(a)] != [NodeOf(b)]
  {
    hide Path, MacAsID;
    NamesDiffer();
    var a, b := Row("1", "aa", "", "", "c0", "", "master"), Row("2", "bb", "", "", "c0", "", "master");
    LateRun(a, b);
    assert NodeOf(a).mac != NodeOf(b).mac;
    assert [NodeOf(a)][0] != [NodeOf(b)][0];
  }

  lemma LateRun(a: Row, b: Row)
    requires a.cluster == b.cluster == "c0" && a.role == b.role == "master"
    ensures var r := Run(LateSteps(a, b));
            && r.Some? && (forall v :: v in r.value.loops ==> Done(r.value.loops[v]))
            && "c0" in r.value.cm && r.value.cm["c0"].nodes == [NodeOf(a)]
            && LastMastered(Repopulations(LateSteps(a, b)), "c0") == Some([NodeOf(b)])
  {
    hide Path, MacAsID, GroupRows;
    OneMaster(a);
    OneMaster(b);
    var steps := LateSteps(a, b);
    assert steps[..3] == [Start(0, [a]), Start(1, [b]), Init(1, "c0")];
    assert steps[..3][..2] == [Start(0, [a]), Start(1, [b])];
    assert steps[..3][..2][..1] == [Start(0, [a])];
    assert Repopulations([]) == [] && Repopulations(steps[..3][..2][..1]) == [Repopulate([a], [])];
    assert Repopulations(steps[..3][..2]) == [Repopulate([a], []), Repopulate([b], [])];
    assert Repopulations(steps) == Repopulations(steps[..3]) == Repopulations(steps[..3][..2]);
    var s1 := Next(State(map[], map[]), steps[0]).value;
    var s2 := Next(s1, steps[1]).value;
    var s3 := Next(s2, steps[2]).value;
    var s4 := Next(s3, steps[3]).value;
    assert Run([]) == Some(State(map[], map[]));
    assert Run(steps[..3][..2][..1]) == Some(s1);
    assert Run(steps[..3][..2]) == Some(s2);
    assert Run(steps[..3]) == Some(s3);
    assert Run(steps) == Some(s4);
  }

  lemma OneMaster(a: Row)
    requires a.cluster == "c0" && a.role == "master"
    ensures GroupRows([a]) == map["c0" := [NodeOf(a)]]
    ensures NodesIn([a], "c0") == [NodeOf(a)] && HasMaster([NodeOf(a)]) && LastMaster([NodeOf(a)]) == Some(NodeOf(a))
  {
    assert [a][..0] == [];
    assert GroupRows([]) == map[];
    assert GroupRows([a]) == AddToGroup(map[], a);
    assert Members(map[], "c0") + [NodeOf(a)] == [NodeOf(a)];
    assert [NodeOf(a)][0].role == "master";
  }
}
