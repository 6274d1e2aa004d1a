/** The background validation of one repopulation: a loop that initialises the clusters one by one,
    and for every node of an initialised cluster a goroutine that fetches credentials and writes
    them back. Its steps interleave freely; the cluster map may hold entries of earlier passes. */
module Validation {
  import opened Text
  import opened Csv
  import opened Population
  import opened Clusters

  datatype Award = Award(mac: string, creds: Creds)

  /** pending tells, per cluster, which write of this validation its entry carries now; lost whether
      an initialisation has thrown such a write away. */
  datatype State = State(cm: ClusterMap, started: set<string>, finished: set<(string, nat)>,
                         succeeded: set<(string, nat)>, awards: map<string, Award>, lost: bool)

  datatype Step =
    | Init(k: string)
    | Write(k: string, i: nat, creds: Creds)
    | Fail(k: string, i: nat)

  predicate Running(g: Groups, s: State, k: string, i: nat)
  {
    k in g && k in s.started && i < |g[k]| && (k, i) !in s.finished
  }

  function Next(g: Groups, s: State, step: Step): Option<State>
  {
    match step
    case Init(k) =>
      if k !in g || k in s.started then None
      else if LastMaster(g[k]).None? then Some(s.(started := s.started + {k}))
      else Some(s.(cm := InitCluster(s.cm, k, g[k]), started := s.started + {k},
                   awards := s.awards - {k}, lost := s.lost || k in s.awards))
    case Write(k, i, creds) =>
      if !Running(g, s, k, i) then None
      else Some(s.(cm := WriteBack(s.cm, g[k][i].mac, creds),
                   finished := s.finished + {(k, i)}, succeeded := s.succeeded + {(k, i)},
                   awards := Awarded(s, Award(g[k][i].mac, creds))))
    case Fail(k, i) =>
      if !Running(g, s, k, i) then None else Some(s.(finished := s.finished + {(k, i)}))
  }

  function Awarded(s: State, a: Award): map<string, Award>
  {
    s.awards + map j | j in s.cm && Targets(s.cm[j], j, a.mac) :: a
  }

  function Run(g: Groups, cm: ClusterMap, steps: seq<Step>): Option<State>
  {
    if steps == [] then Some(State(cm, {}, {}, {}, map[], false))
    else
      var s :- Run(g, cm, steps[..|steps| - 1]);
      Next(g, s, steps[|steps| - 1])
  }

  /** The fetch for node i of the cluster ends with this step. */
  predicate EndsFetch(step: Step, k: string, i: nat)
  {
    !step.Init? && step.k == k && step.i == i
  }

  lemma {:induction false} FinishedIff(g: Groups, cm: ClusterMap, steps: seq<Step>, k: string, i: nat)
    requires Run(g, cm, steps).Some?
    ensures (k, i) in Run(g, cm, steps).value.finished <==> exists n :: 0 <= n < |steps| && EndsFetch(steps[n], k, i)
    ensures (k, i) in Run(g, cm, steps).value.succeeded
       <==> exists n :: 0 <= n < |steps| && EndsFetch(steps[n], k, i) && steps[n].Write?
  {
    hide LastMaster, InitCluster, WriteBack, Awarded;
    if steps != [] {
      var before, last := steps[..|steps| - 1], |steps| - 1;
      FinishedIff(g, cm, before, k, i);
      assert forall n :: 0 <= n < last ==> before[n] == steps[n];
    }
  }

  /** Every node of an initialised cluster is fetched at most once, successfully or not, and only nodes of
      clusters that were initialised before. */
  lemma {:induction false} FetchesEndOnce(g: Groups, cm: ClusterMap, steps: seq<Step>, a: nat, b: nat, k: string, i: nat)
    requires Run(g, cm, steps).Some? && a <= b < |steps| && EndsFetch(steps[a], k, i) && EndsFetch(steps[b], k, i)
    ensures a == b && k in g && i < |g[k]| && exists n :: 0 <= n < a && steps[n] == Init(k)
  {
    hide LastMaster, InitCluster, WriteBack, Awarded;
    var before, last := steps[..|steps| - 1], |steps| - 1;
    assert forall n :: 0 <= n < last ==> before[n] == steps[n];
    if b < last {
      FetchesEndOnce(g, cm, before, a, b, k, i);
    } else {
      FinishedIff(g, cm, before, k, i);
      StartedIff(g, cm, before, k);
      assert Running(g, Run(g, cm, before).value, k, i);
    }
  }

  lemma {:induction false} StartedIff(g: Groups, cm: ClusterMap, steps: seq<Step>, k: string)
    requires Run(g, cm, steps).Some?
    ensures k in Run(g, cm, steps).value.started <==> exists n :: 0 <= n < |steps| && steps[n] == Init(k)
  {
    hide LastMaster, InitCluster, WriteBack, Awarded;
    if steps != [] {
      var before, last := steps[..|steps| - 1], |steps| - 1;
      StartedIff(g, cm, before, k);
      assert forall n :: 0 <= n < last ==> before[n] == steps[n];
    }
  }

  // ---------- A cluster keeps credentials of its own nodes ----------

  /** One cluster: an award is for a claimed entry, which lists the awarded node and carries exactly
      its credentials; an initialised cluster with a master lists the nodes of its own group. */
  ghost predicate TrackedAt(g: Groups, s: State, k: string)
  {
    && (k in s.started ==> k in g)
    && (k in s.awards ==>
          && k in s.cm && Targets(s.cm[k], k, s.awards[k].mac)
          && s.cm[k] == Grant(s.cm[k], s.awards[k].creds))
    && (k in s.started && LastMaster(g[k]).Some? ==> k in s.cm && s.cm[k].nodes == g[k])
  }

  /** Every successful fetch for a claimed cluster with a master has left an award there. */
  ghost predicate Tracked(g: Groups, s: State)
  {
    && (forall k :: TrackedAt(g, s, k))
    && (forall k, i :: (k, i) in s.succeeded ==>
          && k in s.started && k in g && i < |g[k]|
          && (k != UNCLAIMED && LastMaster(g[k]).Some? ==> k in s.awards))
  }

  lemma InitTracked(g: Groups, s: State, k: string)
    requires Tracked(g, s) && Next(g, s, Init(k)).Some?
    ensures Tracked(g, Next(g, s, Init(k)).value)
  {
    hide LastMaster, NewCluster, HasMac, Grant;
    var t := Next(g, s, Init(k)).value;
    if LastMaster(g[k]).Some? {
      NewClusterNodes(k, g[k]);
    }
    forall j
      ensures TrackedAt(g, t, j)
    {
      assert TrackedAt(g, s, j);
    }
  }

  /** The effect of a write-back on one entry and its award. */
  lemma WriteAt(s: State, a: Award, k: string)
    ensures var cm, awards := WriteBack(s.cm, a.mac, a.creds), Awarded(s, a);
            && (k in cm <==> k in s.cm)
            && (k in s.cm && Targets(s.cm[k], k, a.mac) ==> cm[k] == Grant(s.cm[k], a.creds) && k in awards && awards[k] == a)
            && (k in s.cm && !Targets(s.cm[k], k, a.mac) ==> cm[k] == s.cm[k])
            && (!(k in s.cm && Targets(s.cm[k], k, a.mac)) ==>
                  (k in awards <==> k in s.awards) && (k in awards ==> awards[k] == s.awards[k]))
  {
    hide Targets, Grant;
  }

  lemma WriteTracked(g: Groups, s: State, k: string, i: nat, creds: Creds)
    requires Tracked(g, s) && Next(g, s, Write(k, i, creds)).Some?
    ensures Tracked(g, Next(g, s, Write(k, i, creds)).value)
  {
    hide LastMaster, WriteBack, Awarded;
    var t := Next(g, s, Write(k, i, creds)).value;
    var a := Award(g[k][i].mac, creds);
    assert HasMac(g[k], a.mac);
    forall j
      ensures TrackedAt(g, t, j) && (j in s.awards ==> j in t.awards)
    {
      assert TrackedAt(g, s, j);
      WriteAt(s, a, j);
    }
    assert TrackedAt(g, s, k);
    WriteAt(s, a, k);
  }

  lemma NextTracked(g: Groups, s: State, step: Step)
    requires Tracked(g, s) && Next(g, s, step).Some?
    ensures Tracked(g, Next(g, s, step).value)
  {
    hide LastMaster, InitCluster, WriteBack, Awarded, HasMac;
    match step
    case Init(k) => InitTracked(g, s, k);
    case Write(k, i, creds) => WriteTracked(g, s, k, i, creds);
    case Fail(_, _) =>
      forall k
        ensures TrackedAt(g, Next(g, s, step).value, k)
      {
        assert TrackedAt(g, s, k);
      }
  }

  lemma {:induction false} NewClusterNodes(k: string, nodes: seq<Node>)
    requires LastMaster(nodes).Some?
    ensures NewCluster(k, nodes).nodes == nodes
  {
  }

  lemma {:induction false} RunTracked(g: Groups, cm: ClusterMap, steps: seq<Step>)
    requires Run(g, cm, steps).Some?
    ensures Tracked(g, Run(g, cm, steps).value)
  {
    hide Next;
    if steps == [] {
    } else {
      RunTracked(g, cm, steps[..|steps| - 1]);
      NextTracked(g, Run(g, cm, steps[..|steps| - 1]).value, steps[|steps| - 1]);
    }
  }

  /** The award is what this step wrote. */
  ghost predicate WrittenBy(g: Groups, a: Award, step: Step)
  {
    step.Write? && step.k in g && step.i < |g[step.k]| && a == Award(g[step.k][step.i].mac, step.creds)
  }

  lemma {:induction false} AwardsAreWritten(g: Groups, cm: ClusterMap, steps: seq<Step>, k: string)
    requires Run(g, cm, steps).Some? && k in Run(g, cm, steps).value.awards
    ensures exists n :: 0 <= n < |steps| && WrittenBy(g, Run(g, cm, steps).value.awards[k], steps[n])
  {
    hide LastMaster, InitCluster, WriteBack;
    if steps != [] {
      var before, last := steps[..|steps| - 1], steps[|steps| - 1];
      var s, t := Run(g, cm, before).value, Run(g, cm, steps).value;
      if k in s.awards && s.awards[k] == t.awards[k] {
        AwardsAreWritten(g, cm, before, k);
        var n :| 0 <= n < |before| && WrittenBy(g, s.awards[k], before[n]);
        assert steps[n] == before[n];
      } else {
        assert WrittenBy(g, t.awards[k], last);
      }
    }
  }

  /** No MAC is listed by two groups, as with distinct MACs in the file. */
  ghost predicate GroupsDisjoint(g: Groups)
  {
    forall j, k, i :: j in g && k in g && 0 <= i < |g[j]| && HasMac(g[k], g[j][i].mac) ==> j == k
  }

  /** In every interleaving, from any cluster map: once some node of a claimed cluster with a master
      has been fetched, the entry of this cluster holds, from then on, the credentials that some
      write of this very run fetched from a node it lists. With disjoint groups that was a fetch for
      this cluster. In particular all this holds when all steps are done. */
  lemma {:induction false} OwnCredentialsStay(g: Groups, cm: ClusterMap, steps: seq<Step>, k: string, i: nat)
    requires Run(g, cm, steps).Some?
    requires (k, i) in Run(g, cm, steps).value.succeeded
    requires k != UNCLAIMED && k in g && HasMaster(g[k])
    ensures var s := Run(g, cm, steps).value;
            && k in s.cm && s.cm[k].nodes == g[k]
            && exists n, a :: 0 <= n < |steps| && WrittenBy(g, a, steps[n])
                              && HasMac(g[k], a.mac) && (GroupsDisjoint(g) ==> steps[n].k == k)
                              && s.cm[k].token == a.creds.token && s.cm[k].apiEndpoint == a.creds.server
  {
    var s := Run(g, cm, steps).value;
    RunTracked(g, cm, steps);
    assert TrackedAt(g, s, k);
    LastMasterIff(g[k]);
    AwardsAreWritten(g, cm, steps, k);
    var n :| 0 <= n < |steps| && WrittenBy(g, s.awards[k], steps[n]);
  }

  /** Distinct MACs in the file make the groups disjoint. */
  lemma {:induction false} DistinctRowsDisjoint(rows: seq<Row>)
    requires MacsDistinct(rows)
    ensures GroupsDisjoint(GroupRows(rows))
  {
    hide GroupRows, NodesIn;
    var g: Groups := GroupRows(rows);
    forall j: string, k: string, i: nat | j in g && k in g && i < |g[j]| && HasMac(g[k], g[j][i].mac)
      ensures j == k
    {
      var mac := g[j][i].mac;
      assert HasMac(g[j], mac);
      GroupIsFilter(rows, j);
      GroupIsFilter(rows, k);
      NodesInHasMac(rows, j, mac);
      NodesInHasMac(rows, k, mac);
    }
  }

  // ---------- When is a write thrown away? ----------

  /** No cluster that this pass initialises again has an old entry listing a node that now belongs
      to a different group. */
  ghost predicate Undisturbed(g: Groups, cm: ClusterMap)
  {
    forall k, j, i :: k in g && j in g && k != j && 0 <= i < |g[j]| && k in cm && LastMaster(g[k]).Some?
                      ==> !Targets(cm[k], k, g[j][i].mac)
  }

  /** Entries not initialised yet still list their old nodes, and carry an award only if a node of
      another, already initialised group is among them. */
  ghost predicate Waiting(g: Groups, cm: ClusterMap, s: State, k: string)
  {
    k !in s.started ==>
      && (k in s.cm <==> k in cm)
      && (k in cm ==> s.cm[k].nodes == cm[k].nodes)
      && (k in s.awards ==>
            exists j, i :: j in s.started && j in g && 0 <= i < |g[j]| && k in cm && Targets(cm[k], k, g[j][i].mac))
  }

  lemma NextWaiting(g: Groups, cm: ClusterMap, s: State, step: Step, k: string)
    requires Waiting(g, cm, s, k) && Next(g, s, step).Some?
    ensures Waiting(g, cm, Next(g, s, step).value, k)
  {
    hide LastMaster, NewCluster;
    var t := Next(g, s, step).value;
    if k !in t.started && k in t.awards {
      if k in s.awards {
        var j, i :| j in s.started && j in g && 0 <= i < |g[j]| && k in cm && Targets(cm[k], k, g[j][i].mac);
        assert j in t.started;
      } else {
        assert Targets(cm[k], k, g[step.k][step.i].mac);
      }
    }
  }

  lemma {:induction false} RunWaiting(g: Groups, cm: ClusterMap, steps: seq<Step>, k: string)
    requires Run(g, cm, steps).Some?
    ensures Waiting(g, cm, Run(g, cm, steps).value, k)
  {
    hide Next;
    if steps == [] {
    } else {
      RunWaiting(g, cm, steps[..|steps| - 1], k);
      NextWaiting(g, cm, Run(g, cm, steps[..|steps| - 1]).value, steps[|steps| - 1], k);
    }
  }

  lemma {:induction false} NothingLost(g: Groups, cm: ClusterMap, steps: seq<Step>)
    requires Undisturbed(g, cm) && Run(g, cm, steps).Some?
    ensures !Run(g, cm, steps).value.lost
  {
    hide LastMaster, InitCluster, WriteBack, Awarded;
    if steps != [] {
      var before, step := steps[..|steps| - 1], steps[|steps| - 1];
      NothingLost(g, cm, before);
      if step.Init? && LastMaster(g[step.k]).Some? {
        RunWaiting(g, cm, before, step.k);
      }
    }
  }

  /** The run that loses a write: initialise the group the node is in now, fetch it, then initialise
      the cluster whose old entry still lists it. */
  function LosingRun(k: string, j: string, i: nat, creds: Creds): seq<Step>
  {
    [Init(j), Write(j, i, creds), Init(k)]
  }

  lemma {:induction false} LosingRunLoses(g: Groups, cm: ClusterMap, k: string, j: string, i: nat, creds: Creds)
    requires k in g && j in g && k != j && i < |g[j]| && k in cm && LastMaster(g[k]).Some?
    requires Targets(cm[k], k, g[j][i].mac)
    ensures Run(g, cm, LosingRun(k, j, i, creds)).Some? && Run(g, cm, LosingRun(k, j, i, creds)).value.lost
  {
    hide LastMaster, NewCluster;
    var steps := LosingRun(k, j, i, creds);
    var s0 := State(cm, {}, {}, {}, map[], false);
    assert steps[..2] == [Init(j), Write(j, i, creds)] && steps[..2][..1] == [Init(j)] && steps[..2][..1][..0] == [];
    assert Run(g, cm, []) == Some(s0);
    assert Run(g, cm, steps[..2][..1]) == Next(g, s0, Init(j));
    var s1 := Next(g, s0, Init(j)).value;
    assert s1.cm[k] == cm[k] && Running(g, s1, j, i);
    assert Run(g, cm, steps[..2]) == Next(g, s1, Write(j, i, creds));
    var s2 := Next(g, s1, Write(j, i, creds)).value;
    assert k in s2.awards && k !in s2.started;
    assert Run(g, cm, steps) == Next(g, s2, Init(k));
  }

  /** No interleaving throws away credentials that this validation fetched exactly when the old
      cluster map is undisturbed by the new grouping; in particular on the first pass. */
  lemma {:induction false} NothingLostIff(g: Groups, cm: ClusterMap)
    ensures (forall steps :: Run(g, cm, steps).Some? ==> !Run(g, cm, steps).value.lost) <==> Undisturbed(g, cm)
    ensures cm == map[] ==> Undisturbed(g, cm)
  {
    hide Run, LastMaster;
    if Undisturbed(g, cm) {
      forall steps | Run(g, cm, steps).Some?
        ensures !Run(g, cm, steps).value.lost
      {
        NothingLost(g, cm, steps);
      }
    } else {
      var k, j, i :| k in g && j in g && k != j && 0 <= i < |g[j]| && k in cm && LastMaster(g[k]).Some?
                     && Targets(cm[k], k, g[j][i].mac);
      LosingRunLoses(g, cm, k, j, i, Creds("", ""));
      assert Run(g, cm, LosingRun(k, j, i, Creds("", ""))).value.lost;
    }
  }

  /** No node of a cluster that had and has a master moved to another cluster. */
  ghost predicate NoMasteredNodeMoved(events: seq<Event>, rows: seq<Row>)
  {
    forall k, m :: 0 <= m < |rows| && HasMaster(NodesIn(rows, k)) && Receives(events, k, rows[m].mac)
                   ==> rows[m].cluster == k
  }

  lemma {:induction false} EntryFacts(events: seq<Event>, rows: seq<Row>, k: string)
    requires forall i :: 0 <= i < |events| ==> Legal(events[i])
    ensures var g, cm := GroupRows(rows), Clusters.Run(events);
            && Members(g, k) == NodesIn(rows, k)
            && (k in g ==> (LastMaster(g[k]).Some? <==> HasMaster(NodesIn(rows, k))))
            && (HasMaster(NodesIn(rows, k)) ==> k in g)
            && (forall mac :: k in cm && Targets(cm[k], k, mac) <==> Receives(events, k, mac))
  {
    hide Legal, Clusters.Run;
    GroupIsFilter(rows, k);
    LastMasterIff(Members(GroupRows(rows), k));
    ClusterEntries(events, k);
  }

  lemma {:induction false} MovedDisturbs(events: seq<Event>, rows: seq<Row>, k: string, m: nat)
    requires forall i :: 0 <= i < |events| ==> Legal(events[i])
    requires Undisturbed(GroupRows(rows), Clusters.Run(events))
    requires m < |rows| && HasMaster(NodesIn(rows, k)) && Receives(events, k, rows[m].mac)
    ensures rows[m].cluster == k
  {
    hide Legal, Clusters.Run, GroupRows, NodesIn, Receives;
    var g, j := GroupRows(rows), rows[m].cluster;
    EntryFacts(events, rows, k);
    GroupIsFilter(rows, j);
    NodesInHasMac(rows, j, rows[m].mac);
    var nodes := g[j];
    var i :| 0 <= i < |nodes| && nodes[i].mac == rows[m].mac;
  }

  lemma {:induction false} DisturbedMoved(events: seq<Event>, rows: seq<Row>, k: string, j: string, i: nat)
    requires forall i :: 0 <= i < |events| ==> Legal(events[i])
    requires var g, cm := GroupRows(rows), Clusters.Run(events);
             k in g && j in g && k != j && i < |g[j]| && k in cm && LastMaster(g[k]).Some?
             && Targets(cm[k], k, g[j][i].mac)
    ensures !NoMasteredNodeMoved(events, rows)
  {
    hide Legal, Clusters.Run, GroupRows, NodesIn, Receives;
    var mac := GroupRows(rows)[j][i].mac;
    EntryFacts(events, rows, k);
    EntryFacts(events, rows, j);
    assert HasMac(NodesIn(rows, j), mac);
    NodesInHasMac(rows, j, mac);
    var m :| 0 <= m < |rows| && rows[m].mac == mac && rows[m].cluster == j;
    assert Receives(events, k, rows[m].mac);
  }

  /** The condition for losing nothing, read off the versions of the file. */
  lemma {:induction false} UndisturbedIff(events: seq<Event>, rows: seq<Row>)
    requires forall i :: 0 <= i < |events| ==> Legal(events[i])
    ensures Undisturbed(GroupRows(rows), Clusters.Run(events)) <==> NoMasteredNodeMoved(events, rows)
  {
    hide Legal, Clusters.Run, GroupRows, NodesIn, Receives, LastMaster;
    var g, cm := GroupRows(rows), Clusters.Run(events);
    if Undisturbed(g, cm) {
      forall k, m | 0 <= m < |rows| && HasMaster(NodesIn(rows, k)) && Receives(events, k, rows[m].mac)
        ensures rows[m].cluster == k
      {
        MovedDisturbs(events, rows, k, m);
      }
    } else {
      var k, j, i :| k in g && j in g && k != j && 0 <= i < |g[j]| && k in cm && LastMaster(g[k]).Some?
                     && Targets(cm[k], k, g[j][i].mac);
      DisturbedMoved(events, rows, k, j, i);
    }
  }

  /** Such a move does happen: with distinct MACs in both versions, a worker that goes from one cluster
      with a master to another cluster lets some interleaving throw away what it has fetched. */
  lemma {:induction false} MovedWorkerLoses()
    ensures var a, b, moved := Row("1", "aa", "", "", "c0", "", "master"), Row("2", "bb", "", "", "c0", "", "worker"),
                               Row("2", "bb", "", "", "c1", "", "worker");
            var events, rows := [Repopulate([a, b], ["c0"])], [a, moved];
            && MacsDistinct([a, b]) && MacsDistinct(rows) && Legal(events[0])
            && !NoMasteredNodeMoved(events, rows)
            && exists steps :: Run(GroupRows(rows), Clusters.Run(events), steps).Some?
                               && Run(GroupRows(rows), Clusters.Run(events), steps).value.lost
  {
    hide Legal, GroupRows, Run, Clusters.Run, Undisturbed;
    NamesDiffer();
    var a, b, moved := Row("1", "aa", "", "", "c0", "", "master"), Row("2", "bb", "", "", "c0", "", "worker"),
                       Row("2", "bb", "", "", "c1", "", "worker");
    var events, rows := [Repopulate([a, b], ["c0"])], [a, moved];
    SingleGroup([a, b], "c0");
    LegalPass([a, b], "c0");
    OnlyMaster(a, b);
    OnlyMaster(a, moved);
    assert events[..|events| - 1] == [];
    assert LastMastered(events, "c0") == Some(NodesIn([a, b], "c0"));
    assert NodesIn([a, b], "c0")[1].mac == "bb";
    assert Receives(events, "c0", rows[1].mac);
    UndisturbedIff(events, rows);
    NothingLostIff(GroupRows(rows), Clusters.Run(events));
  }

  lemma {:induction false} LegalPass(rows: seq<Row>, c: string)
    requires Enumerates([c], GroupRows(rows))
    ensures Legal(Repopulate(rows, [c]))
  {
  }

  lemma OnlyMaster(a: Row, b: Row)
    requires a.cluster == "c0" && a.role == "master"
    ensures NodesIn([a, b], "c0") == [NodeOf(a)] + if b.cluster == "c0" then [NodeOf(b)] else []
    ensures HasMaster(NodesIn([a, b], "c0"))
  {
    assert [a, b][..1] == [a] && [a][..0] == [];
    assert NodesIn([a], "c0") == [NodeOf(a)];
    assert NodesIn([a, b], "c0")[0].role == "master";
  }
}
