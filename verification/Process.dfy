/** The whole worker process: the file side, and the background validation that every complete scan
    starts, whose fetches can end the process just as a short line can. */
module Process {
  import opened Text
  import opened Csv
  import opened Templates
  import opened Population
  import W = World
  import Inv = InventorySteps
  import C = Clusters
  import O = Overlap
  import K = KubeClient
  import A = Ansible

  /** What a fetch meets outside the process: how messages decode, which kubeconfigs can be used, and what
      the clusters report. */
  datatype Env = Env(decode: string -> Option<C.Creds>, connects: string -> bool, query: string -> Option<seq<C.KubeNode>>)

  /** made tells whether the cluster map exists, started counts the validation loops, and fetched lists
      the fetches of theirs that are through. */
  datatype State = State(world: W.World, clusters: O.State, made: bool, started: nat, fetched: set<(nat, string, nat)>)

  /** Fetch is the end of the goroutine for node i of cluster k in loop v, once its playbook has run; found
      is what was extracted. Write and Observe are what fetches and queries of HTTP requests store: their
      panics are recovered. An event that cannot happen changes nothing. */
  datatype Event =
    | File(e: W.Event)
    | Init(v: nat, k: string)
    | Fetch(v: nat, k: string, i: nat, run: K.PlaybookRun, env: Env, found: Option<C.Creds>)
    | Write(mac: string, creds: C.Creds)
    | Observe(reports: map<string, O.Report>)

  ghost predicate Extracts(run: K.PlaybookRun, env: Env, found: Option<C.Creds>)
  {
    match run
    case Results(plays) => A.Possible(env.decode, plays, found)
    case _ => found == None
  }

  predicate Spawned(c: O.State, v: nat, k: string, i: nat)
  {
    v in c.loops && k in c.loops[v].started && k in c.loops[v].groups && i < |c.loops[v].groups[k]|
  }

  ghost predicate CanFetch(s: State, e: Event)
  {
    e.Fetch? && Spawned(s.clusters, e.v, e.k, e.i) && (e.v, e.k, e.i) !in s.fetched && Extracts(e.run, e.env, e.found)
  }

  ghost function ReportsOf(cm: C.ClusterMap, env: Env): map<string, O.Report>
  {
    map k | k in cm :: var c := K.Refreshed(cm[k], env.connects, env.query); O.Report(c.ready, c.info)
  }

  /** The steps of the cluster machine that an event comes to when the process survives it. */
  ghost function ClusterStep(s: State, e: Event): seq<O.Step>
  {
    match e
    case File(f) => if Completes(s.world, f) then [O.Start(s.started, W.Rows(W.TextAfter(AsPrinted, s.world, f)))] else []
    case Init(v, k) => if O.CanInit(s.clusters, v, k) then [O.Init(v, k)] else []
    case Fetch(v, k, i, _, env, found) =>
      if CanFetch(s, e) && found.Some? then
        [O.Observe(ReportsOf(s.clusters.cm, env)), O.Write(s.clusters.loops[v].groups[k][i].mac, found.value)]
      else []
    case Write(mac, creds) => [O.Write(mac, creds)]
    case Observe(reports) => [O.Observe(reports)]
  }

  /** Whether the event includes a scan that gets through, so that a validation loop starts. */
  predicate Completes(w: W.World, e: W.Event)
  {
    W.Repopulates(w, e) && W.Readable(W.TextAfter(AsPrinted, w, e))
  }

  function Advance(c: O.State, steps: seq<O.Step>): O.State
  {
    if steps == [] then c
    else
      var d := Advance(c, steps[..|steps| - 1]);
      match O.Next(d, steps[|steps| - 1])
      case None => d
      case Some(t) => t
  }

  ghost function ClustersAfter(s: State, e: Event): O.State
  {
    Advance(s.clusters, ClusterStep(s, e))
  }

  /** The effect of a fetch that gets through is the one that the contract of FetchToken states. */
  lemma FetchStores(s: State, e: Event)
    requires CanFetch(s, e) && e.found.Some?
    ensures var mac := s.clusters.loops[e.v].groups[e.k][e.i].mac;
            ClustersAfter(s, e) ==
            s.clusters.(cm := C.WriteBack(K.AllRefreshed(s.clusters.cm, e.env.connects, e.env.query), mac, e.found.value))
  {
    hide C.WriteBack, Extracts;
    var steps := ClusterStep(s, e);
    assert steps[..1] == [steps[0]] && steps[..1][..0] == [];
    assert O.Observed(s.clusters.cm, ReportsOf(s.clusters.cm, e.env)) == K.AllRefreshed(s.clusters.cm, e.env.connects, e.env.query);
    assert Advance(s.clusters, steps[..1]) == s.clusters.(cm := K.AllRefreshed(s.clusters.cm, e.env.connects, e.env.query));
  }

  /** None is the end of the process. */
  ghost function Step(s: State, e: Event): Option<State>
  {
    match e
    case File(f) =>
      var w :- W.Step(AsPrinted, s.world, f);
      Some(s.(world := w, clusters := ClustersAfter(s, e), started := s.started + if Completes(s.world, f) then 1 else 0))
    case Init(v, k) =>
      Some(s.(clusters := ClustersAfter(s, e), made := s.made || O.CanInit(s.clusters, v, k)))
    case Fetch(v, k, i, run, env, _) =>
      if !CanFetch(s, e) then Some(s)
      else if K.FetchCrashes(s.made, s.clusters.cm, run, env.decode, env.connects, env.query) then None
      else Some(s.(clusters := ClustersAfter(s, e), fetched := s.fetched + {(v, k, i)}))
    case _ => Some(s.(clusters := ClustersAfter(s, e)))
  }

  /** A process that has started from a readable file, its first validation loop about to begin. */
  function Begun(text: string, files: Files, key: string): State
  {
    State(W.Populate(W.World(text, map[], Inv.Boot(files, key))),
          O.State(map[], map[0 := O.Loop(GroupRows(W.Rows(text)), {})]), false, 1, {})
  }

  ghost function Run(text: string, files: Files, key: string, events: seq<Event>): Option<State>
  {
    if events == [] then if W.Readable(text) then Some(Begun(text, files, key)) else None
    else
      var s :- Run(text, files, key, events[..|events| - 1]);
      Step(s, events[|events| - 1])
  }

  // ---------- Both sides run as before ----------

  function FileEvents(events: seq<Event>): seq<W.Event>
  {
    if events == [] then []
    else FileEvents(events[..|events| - 1]) + match events[|events| - 1] case File(e) => [e] case _ => []
  }

  /** The file side of the process is a run of it alone, so the theorems about those runs apply. */
  lemma {:induction false} FileSideRuns(text: string, files: Files, key: string, events: seq<Event>)
    requires Run(text, files, key, events).Some?
    ensures W.Start(text, files, key).Some?
    ensures W.Run(AsPrinted, W.Start(text, files, key).value, FileEvents(events))
         == Some(Run(text, files, key, events).value.world)
  {
    hide Step, W.Step, W.Readable, W.Populate;
    if events != [] {
      var before, last := events[..|events| - 1], events[|events| - 1];
      FileSideRuns(text, files, key, before);
      StepWorld(Run(text, files, key, before).value, last);
      var all := FileEvents(events);
      assert if last.File? then all[..|all| - 1] == FileEvents(before) else all == FileEvents(before);
    }
  }

  lemma StepWorld(s: State, e: Event)
    requires Step(s, e).Some?
    ensures if e.File? then W.Step(AsPrinted, s.world, e.e) == Some(Step(s, e).value.world)
            else Step(s, e).value.world == s.world
  {
    hide W.Step, ClustersAfter, CanFetch, K.FetchCrashes, Completes;
  }

  ghost function ClusterSteps(text: string, files: Files, key: string, events: seq<Event>): seq<O.Step>
    requires Run(text, files, key, events).Some?
  {
    if events == [] then [O.Start(0, W.Rows(text))]
    else
      var before := events[..|events| - 1];
      ClusterSteps(text, files, key, before) + ClusterStep(Run(text, files, key, before).value, events[|events| - 1])
  }

  /** Loops are counted, and one that has initialised anything has made the cluster map. */
  ghost predicate LoopsCounted(s: State)
  {
    && (forall v :: v in s.clusters.loops ==> v < s.started)
    && (forall v, k :: v in s.clusters.loops && k in s.clusters.loops[v].started ==> s.made)
  }

  lemma StepAdvances(s: State, e: Event)
    requires LoopsCounted(s) && Step(s, e).Some?
    ensures LoopsCounted(Step(s, e).value)
    ensures AllTaken(s.clusters, ClusterStep(s, e))
  {
    hide W.Step, W.Rows, Completes, GroupRows, C.InitCluster, C.WriteBack, O.Observed, Extracts, K.FetchCrashes, ReportsOf;
    var steps := ClusterStep(s, e);
    if |steps| == 1 {
      OneStep(s.clusters, steps[0]);
    } else if |steps| == 2 {
      TwoSteps(s.clusters, steps[0], steps[1]);
      assert steps == [steps[0], steps[1]];
    }
  }

  lemma OneStep(c: O.State, a: O.Step)
    ensures Advance(c, [a]) == match O.Next(c, a) case None => c case Some(t) => t
    ensures AllTaken(c, [a]) <==> O.Next(c, a).Some?
  {
    assert [a][..0] == [];
  }

  lemma TwoSteps(c: O.State, a: O.Step, b: O.Step)
    requires O.Next(c, a).Some? && O.Next(O.Next(c, a).value, b).Some?
    ensures AllTaken(c, [a, b]) && Advance(c, [a, b]) == O.Next(O.Next(c, a).value, b).value
  {
    assert [a, b][..1] == [a];
    OneStep(c, a);
  }

  predicate AllTaken(c: O.State, steps: seq<O.Step>)
  {
    steps == [] ||
    (AllTaken(c, steps[..|steps| - 1]) && O.Next(Advance(c, steps[..|steps| - 1]), steps[|steps| - 1]).Some?)
  }

  lemma {:induction false} RunExtends(a: seq<O.Step>, b: seq<O.Step>)
    requires O.Run(a).Some? && AllTaken(O.Run(a).value, b)
    ensures O.Run(a + b) == Some(Advance(O.Run(a).value, b))
  {
    hide O.Next;
    if b == [] {
      assert a + b == a;
    } else {
      RunExtends(a, b[..|b| - 1]);
      assert (a + b)[..|a + b| - 1] == a + b[..|b| - 1];
    }
  }

  /** The cluster side is a run of overlapping loops, so the theorems about those apply; and every fetch
      of the background validation finds a cluster map. */
  lemma {:induction false} ClusterSideRuns(text: string, files: Files, key: string, events: seq<Event>)
    requires Run(text, files, key, events).Some?
    ensures var s := Run(text, files, key, events).value;
            && O.Run(ClusterSteps(text, files, key, events)) == Some(s.clusters)
            && LoopsCounted(s)
            && (forall e :: CanFetch(s, e) ==> s.made)
  {
    hide Step, ClusterStep, O.Next;
    if events == [] {
      FirstLoop(text);
    } else {
      var before, last := events[..|events| - 1], events[|events| - 1];
      ClusterSideRuns(text, files, key, before);
      var s := Run(text, files, key, before).value;
      StepAdvances(s, last);
      StepClusters(s, last);
      RunExtends(ClusterSteps(text, files, key, before), ClusterStep(s, last));
    }
  }

  lemma StepClusters(s: State, e: Event)
    requires Step(s, e).Some?
    ensures Step(s, e).value.clusters == Advance(s.clusters, ClusterStep(s, e))
  {
    hide W.Step, W.Rows, Completes, O.Next, Extracts, K.FetchCrashes, ReportsOf;
  }

  lemma FirstLoop(text: string)
    ensures O.Run([O.Start(0, W.Rows(text))]) == Some(O.State(map[], map[0 := O.Loop(GroupRows(W.Rows(text)), {})]))
  {
    hide GroupRows, W.Rows;
    assert [O.Start(0, W.Rows(text))][..0] == [];
  }

  /** A scan that gets through, and nothing else, starts a validation loop, over the groups of the file it
      has read. */
  lemma LoopPerScan(s: State, e: Event)
    requires LoopsCounted(s) && Step(s, e).Some?
    ensures var t := Step(s, e).value;
            if e.File? && W.Repopulates(s.world, e.e) && W.Readable(t.world.text) then
              t.clusters == s.clusters.(loops := s.clusters.loops[s.started := O.Loop(GroupRows(W.Rows(t.world.text)), {})])
            else
              && t.clusters.loops.Keys == s.clusters.loops.Keys
              && forall v :: v in s.clusters.loops ==> t.clusters.loops[v].groups == s.clusters.loops[v].groups
  {
    hide W.Step, W.Rows, W.Readable, W.Repopulates, GroupRows, C.InitCluster, C.WriteBack, O.Observed, Extracts,
         K.FetchCrashes, ReportsOf;
    if e.File? {
      W.TextOfStep(AsPrinted, s.world, e.e);
    }
    StepAdvances(s, e);
    var steps := ClusterStep(s, e);
    if |steps| == 1 {
      OneStep(s.clusters, steps[0]);
    } else if |steps| == 2 {
      TwoSteps(s.clusters, steps[0], steps[1]);
      assert steps == [steps[0], steps[1]];
    }
  }

  /** Each fetch of a loop ends at most once. */
  lemma {:induction false} FetchesEndOnce(text: string, files: Files, key: string, events: seq<Event>, e: Event)
    requires Run(text, files, key, events).Some? && CanFetch(Run(text, files, key, events).value, e)
    ensures forall i :: 0 <= i < |events| && Run(text, files, key, events[..i]).Some?
                        && CanFetch(Run(text, files, key, events[..i]).value, events[i])
                        ==> (events[i].v, events[i].k, events[i].i) != (e.v, e.k, e.i)
  {
    hide Run;
    forall i | 0 <= i < |events| && Run(text, files, key, events[..i]).Some?
               && CanFetch(Run(text, files, key, events[..i]).value, events[i])
      ensures (events[i].v, events[i].k, events[i].i) != (e.v, e.k, e.i)
    {
      FetchRemembered(text, files, key, events, i);
      NotFetchedYet(Run(text, files, key, events).value, e);
    }
  }

  lemma NotFetchedYet(s: State, e: Event)
    requires CanFetch(s, e)
    ensures e.Fetch? && (e.v, e.k, e.i) !in s.fetched
  {
  }

  lemma StepRemembers(s: State, e: Event)
    requires Step(s, e).Some?
    ensures s.fetched <= Step(s, e).value.fetched
    ensures CanFetch(s, e) ==> e.Fetch? && (e.v, e.k, e.i) in Step(s, e).value.fetched
  {
    hide W.Step, ClustersAfter, K.FetchCrashes, Completes, Extracts;
  }

  lemma {:induction false} FetchRemembered(text: string, files: Files, key: string, events: seq<Event>, i: nat)
    requires i < |events| && Run(text, files, key, events).Some? && Run(text, files, key, events[..i]).Some?
    requires CanFetch(Run(text, files, key, events[..i]).value, events[i])
    ensures events[i].Fetch? && (events[i].v, events[i].k, events[i].i) in Run(text, files, key, events).value.fetched
  {
    hide Step, CanFetch;
    var before := events[..|events| - 1];
    StepRemembers(Run(text, files, key, before).value, events[|events| - 1]);
    if i < |events| - 1 {
      assert before[..i] == events[..i];
      FetchRemembered(text, files, key, before, i);
    } else {
      assert events[..i] == before;
    }
  }

  // ---------- Survival ----------

  /** The entry of this cluster is there, its kubeconfig can be used, and its cluster does not answer: read off
      the initialisation that made it last. */
  ghost predicate EntryFails(steps: seq<O.Step>, k: string, env: Env)
    requires O.Run(steps).Some?
  {
    var m, loops := O.Maker(steps, k), O.Run(steps).value.loops;
    && m.Some? && m.value < |steps| && steps[m.value].Init? && steps[m.value].v in loops
    && k in loops[steps[m.value].v].groups
    && var master := C.LastMaster(loops[steps[m.value].v].groups[k]);
    && master.Some?
    && var kubeConfig := Path(KubeConfig, MacAsID(master.value.mac));
    && env.connects(kubeConfig) && env.query(kubeConfig).None?
  }

  lemma EntryFailsIff(steps: seq<O.Step>, k: string, env: Env)
    requires O.Run(steps).Some?
    ensures var cm := O.Run(steps).value.cm;
            EntryFails(steps, k, env) <==> k in cm && K.QueryFails(cm[k], env.connects, env.query)
  {
    hide O.Run, O.Maker, Path, MacAsID, C.LastMaster;
    O.EntriesOverlapped(steps, k);
  }

  /** Event i ends the process: the watcher meets a short line; or a fetch of the background validation meets
      output that does not parse, or finds credentials while some cluster with an entry fails to
      answer. */
  ghost predicate Ends(text: string, files: Files, key: string, events: seq<Event>, i: nat)
    requires i < |events|
  {
    var before, e := events[..i], events[i];
    && Run(text, files, key, before).Some?
    && var s := Run(text, files, key, before).value;
    || (e == File(W.Reload) && !W.Readable(s.world.text))
    || (CanFetch(s, e)
        && (e.run.Unparseable?
            || (e.found.Some? && O.Run(ClusterSteps(text, files, key, before)).Some?
                && exists k :: EntryFails(ClusterSteps(text, files, key, before), k, e.env))))
  }

  lemma FileStepEnds(s: State, e: W.Event)
    ensures Step(s, File(e)).None? <==> e.Reload? && !W.Readable(s.world.text)
  {
    hide W.Readable, W.Populate, ClustersAfter, Completes;
  }

  lemma FoundIsNotNothing(run: K.PlaybookRun, env: Env, found: Option<C.Creds>)
    requires Extracts(run, env, found) && run.Results?
    ensures A.Possible(env.decode, run.plays, None) <==> found.None?
  {
    hide A.Usable;
  }

  lemma FetchStepEnds(s: State, e: Event)
    requires e.Fetch? && (CanFetch(s, e) ==> s.made)
    ensures Step(s, e).None? <==>
              CanFetch(s, e)
              && (e.run.Unparseable?
                  || (e.found.Some? && exists k :: k in s.clusters.cm && K.QueryFails(s.clusters.cm[k], e.env.connects, e.env.query)))
  {
    hide A.Possible, K.QueryFails, ClustersAfter, Spawned;
    if CanFetch(s, e) && e.run.Results? {
      FoundIsNotNothing(e.run, e.env, e.found);
    }
  }

  lemma StepEnds(text: string, files: Files, key: string, events: seq<Event>)
    requires events != [] && Run(text, files, key, events[..|events| - 1]).Some?
    ensures Run(text, files, key, events).None? <==> Ends(text, files, key, events, |events| - 1)
  {
    hide W.Readable, Step, CanFetch, EntryFails, ClusterSteps, O.Run, K.QueryFails;
    var before, e := events[..|events| - 1], events[|events| - 1];
    var s := Run(text, files, key, before).value;
    ClusterSideRuns(text, files, key, before);
    if e.File? {
      FileStepEnds(s, e.e);
      OnlyFetchesFetch(s, e);
    } else if e.Fetch? {
      FetchStepEnds(s, e);
      forall k
        ensures EntryFails(ClusterSteps(text, files, key, before), k, e.env)
           <==> k in s.clusters.cm && K.QueryFails(s.clusters.cm[k], e.env.connects, e.env.query)
      {
        EntryFailsIff(ClusterSteps(text, files, key, before), k, e.env);
      }
    } else {
      OtherStepLives(s, e);
      OnlyFetchesFetch(s, e);
    }
  }

  lemma OnlyFetchesFetch(s: State, e: Event)
    ensures CanFetch(s, e) ==> e.Fetch?
  {
  }

  lemma OtherStepLives(s: State, e: Event)
    requires !e.File? && !e.Fetch?
    ensures Step(s, e).Some?
  {
    hide ClustersAfter;
  }

  /** A process started from this file outlives a run exactly when the file was readable and no event of it
      is one that ends the process. */
  lemma {:induction false} SurvivesIff(text: string, files: Files, key: string, events: seq<Event>)
    ensures Run(text, files, key, events).Some?
       <==> W.Readable(text) && forall i :: 0 <= i < |events| ==> !Ends(text, files, key, events, i)
  {
    hide W.Readable, Step, Ends;
    if events != [] {
      var n := |events| - 1;
      var before := events[..n];
      SurvivesIff(text, files, key, before);
      forall i | 0 <= i < n
        ensures Ends(text, files, key, events, i) <==> Ends(text, files, key, before, i)
      {
        EndsWithin(text, files, key, events, i);
      }
      if Run(text, files, key, before).Some? {
        StepEnds(text, files, key, events);
      }
    }
  }

  lemma EndsWithin(text: string, files: Files, key: string, events: seq<Event>, i: nat)
    requires i < |events| - 1
    ensures Ends(text, files, key, events, i) <==> Ends(text, files, key, events[..|events| - 1], i)
  {
    hide Run, CanFetch, EntryFails, ClusterSteps, O.Run;
    assert events[..|events| - 1][..i] == events[..i];
  }

  /** One failing query is enough, however good the file: from every readable file with a cluster that has a
      master, a fetch that finds credentials while no cluster answers ends the process. */
  lemma {:induction false} FailingQueryEnds(text: string, files: Files, key: string, k: string, i: nat,
                                            plays: seq<A.Play>, env: Env, creds: C.Creds)
    requires W.Readable(text) && k in GroupRows(W.Rows(text))
    requires C.HasMaster(GroupRows(W.Rows(text))[k]) && i < |GroupRows(W.Rows(text))[k]|
    requires A.Possible(env.decode, plays, Some(creds))
    requires forall kubeConfig :: env.connects(kubeConfig) && env.query(kubeConfig).None?
    ensures var events := [Init(0, k), Fetch(0, k, i, K.Results(plays), env, Some(creds))];
            Run(text, files, key, events[..1]).Some? && Run(text, files, key, events).None?
  {
    hide GroupRows, W.Rows, W.Readable, W.Populate, A.Possible, C.NewCluster, C.LastMaster;
    var fetch := Fetch(0, k, i, K.Results(plays), env, Some(creds));
    var events := [Init(0, k), fetch];
    var begun := Begun(text, files, key);
    assert events[..1] == [Init(0, k)] && events[..1][..0] == [];
    assert Run(text, files, key, []) == Some(begun);
    C.LastMasterIff(GroupRows(W.Rows(text))[k]);
    OneStep(begun.clusters, O.Init(0, k));
    var s := Step(begun, Init(0, k)).value;
    assert Run(text, files, key, events[..1]) == Some(s);
    assert k in s.clusters.cm && K.QueryFails(s.clusters.cm[k], env.connects, env.query);
    assert CanFetch(s, fetch);
    FoundIsNotNothing(fetch.run, env, Some(creds));
    assert Step(s, fetch).None?;
  }
}
