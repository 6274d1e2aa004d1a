/** The same operations cut into the atomic steps that really interleave: registration checks,
    appends, opening the file, resetting the inventory, scanning row by row, publication, callbacks,
    and the operator replacing the file. Any number of them may be under way at once. */
module Publication {
  import opened Text
  import opened Csv
  import opened Templates
  import opened Population
  import W = World
  import Inv = InventorySteps

  /** handled tells the repopulation of a registration, whose panic the HTTP server recovers, from
      one of the watcher. version is the number of the file version that the finished scan read. */
  datatype Proc =
    | Checked(req: W.Request)
    | Ready(handled: bool)
    | Opened(handled: bool, file: nat)
    | Scanning(handled: bool, file: nat, at: nat, built: Index)
    | Scanned(built: Index, version: nat)

  /** files are the contents of the files that ever stood at the path, the last one current; a scan
      keeps the one it opened. history lists every content the path ever showed, its versions; latest
      numbers the last version of each file, and shown the version whose index is published. A scan opens
      its file before it begins, which is when it resets the inventory. */
  datatype State = State(files: seq<seq<Row>>, history: seq<seq<Row>>, latest: seq<nat>, index: Index, shown: nat,
                         inv: Inv.InvState, procs: map<nat, Proc>)

  datatype Step =
    | Check(p: nat, req: W.Request)
    | Append(p: nat)
    | Spawn(p: nat)
    | Open(p: nat)
    | Begin(p: nat)
    | ScanRow(p: nat)
    | Abort(p: nat)
    | EndScan(p: nat)
    | Publish(p: nat)
    | Replace(rows: seq<Row>)
    | Callback(mac: string)

  predicate IsReady(s: State, p: nat)
  {
    p in s.procs && s.procs[p].Ready?
  }

  predicate Scans(s: State, p: nat)
  {
    p in s.procs && s.procs[p].Scanning? && s.procs[p].file < |s.files|
  }

  predicate CanScan(s: State, p: nat)
  {
    Scans(s, p) && s.procs[p].at < |s.files[s.procs[p].file]|
  }

  function NextRow(s: State, p: nat): Row
    requires CanScan(s, p)
  {
    s.files[s.procs[p].file][s.procs[p].at]
  }

  /** The state after a step, None when the step cannot be taken. A watcher's scan that aborts ends the
      process, so only handled scans have an Abort step. */
  function Next(s: State, step: Step): Option<State>
  {
    match step
    case Check(p, req) =>
      if p in s.procs || !W.ValidOS(req.os) || !W.Fresh(s.index, req) then None
      else Some(s.(procs := s.procs[p := Checked(req)]))
    case Append(p) =>
      if !(p in s.procs && s.procs[p].Checked?) || s.files == [] || |s.latest| != |s.files| then None
      else
        var n := |s.files| - 1;
        var v := s.files[n] + [W.RegisteredRow(s.procs[p].req)];
        Some(s.(files := s.files[n := v], history := s.history + [v], latest := s.latest[n := |s.history|],
                procs := s.procs[p := Ready(true)]))
    case Spawn(p) =>
      if p in s.procs then None else Some(s.(procs := s.procs[p := Ready(false)]))
    case Open(p) =>
      if !IsReady(s, p) || s.files == [] then None
      else Some(s.(procs := s.procs[p := Opened(s.procs[p].handled, |s.files| - 1)]))
    case Begin(p) =>
      if !(p in s.procs && s.procs[p].Opened? && s.procs[p].file < |s.files|) then None
      else
        Some(s.(procs := s.procs[p := Scanning(s.procs[p].handled, s.procs[p].file, 0, map[])],
                inv := Inv.ResetAll(s.inv)))
    case ScanRow(p) =>
      if !CanScan(s, p) then None
      else
        var proc := s.procs[p];
        var row := NextRow(s, p);
        Some(s.(procs := s.procs[p := proc.(at := proc.at + 1, built := proc.built[row.mac := ClientOf(row)])],
                inv := Inv.GenerateRow(s.inv, row)))
    case Abort(p) =>
      if !(Scans(s, p) && s.procs[p].handled) then None
      else Some(s.(procs := s.procs - {p}))
    case EndScan(p) =>
      if !(Scans(s, p) && s.procs[p].at == |s.files[s.procs[p].file]|) || |s.latest| != |s.files| then None
      else Some(s.(procs := s.procs[p := Scanned(s.procs[p].built, s.latest[s.procs[p].file])]))
    case Publish(p) =>
      if !(p in s.procs && s.procs[p].Scanned?) then None
      else Some(s.(index := s.procs[p].built, shown := s.procs[p].version, procs := s.procs - {p}))
    case Replace(rows) =>
      Some(s.(files := s.files + [rows], history := s.history + [rows], latest := s.latest + [|s.history|]))
    case Callback(mac) =>
      Some(s.(inv := Inv.HandleCallback(s.inv, mac).0))
  }

  function Run(s: State, steps: seq<Step>): Option<State>
  {
    if steps == [] then Some(s)
    else
      var t :- Run(s, steps[..|steps| - 1]);
      Next(t, steps[|steps| - 1])
  }

  /** Startup done: one complete pass over the file. */
  function Start(rows: seq<Row>, inv: Inv.InvState): State
  {
    State([rows], [rows], [0], IndexOf(rows), 0, PopulateInv(inv, rows), map[])
  }

  // ---------- Versions ----------

  ghost predicate ProcOk(s: State, proc: Proc)
  {
    match proc
    case Opened(_, f) => f < |s.files|
    case Scanning(_, f, at, built) => f < |s.files| && at <= |s.files[f]| && built == IndexOf(s.files[f][..at])
    case Scanned(built, v) => v < |s.history| && built == IndexOf(s.history[v])
    case _ => true
  }

  /** latest numbers, for each file, the version that it shows or last showed. */
  ghost predicate VersionsOk(s: State)
  {
    && s.files != [] && |s.latest| == |s.files|
    && (forall f :: 0 <= f < |s.files| ==> s.latest[f] < |s.history| && s.history[s.latest[f]] == s.files[f])
    && s.latest[|s.files| - 1] == |s.history| - 1
  }

  ghost predicate Consistent(s: State)
  {
    && VersionsOk(s)
    && (forall p :: p in s.procs ==> ProcOk(s, s.procs[p]))
    && s.shown < |s.history| && s.index == IndexOf(s.history[s.shown])
  }

  /** History only grows, and no file that a scan has open loses what it had. */
  ghost predicate Grows(s: State, t: State)
  {
    && s.history <= t.history
    && |s.files| <= |t.files|
    && forall f :: 0 <= f < |s.files| ==> s.files[f] <= t.files[f]
  }

  lemma GrowthKeepsProcs(s: State, t: State, proc: Proc)
    requires Grows(s, t) && ProcOk(s, proc)
    ensures ProcOk(t, proc)
  {
    match proc
    case Scanning(_, f, at, built) =>
      assert s.files[f][..at] == t.files[f][..at];
    case Scanned(built, v) => assert t.history[v] == s.history[v];
    case _ =>
  }

  lemma NextGrows(s: State, step: Step)
    requires Next(s, step).Some?
    ensures Grows(s, Next(s, step).value)
  {
    hide Inv.GenerateRow, Inv.HandleCallback, Inv.ResetAll, ClientOf;
  }

  lemma VersionsStayOk(s: State, step: Step)
    requires VersionsOk(s) && Next(s, step).Some?
    ensures VersionsOk(Next(s, step).value)
  {
    hide Inv.GenerateRow, Inv.HandleCallback, Inv.ResetAll, ClientOf;
  }

  /** The process that moves: its own next state is fine too. */
  lemma MoverStaysOk(s: State, step: Step)
    requires Consistent(s) && Next(s, step).Some?
    ensures forall p :: p in Next(s, step).value.procs && (p !in s.procs || s.procs[p] != Next(s, step).value.procs[p])
              ==> ProcOk(Next(s, step).value, Next(s, step).value.procs[p])
  {
    hide Inv.GenerateRow, Inv.HandleCallback, Inv.ResetAll, IndexOf;
    var t := Next(s, step).value;
    match step
    case Begin(p) =>
      assert t.files[s.procs[p].file][..0] == [];
      IndexOfEmpty();
    case ScanRow(p) =>
      var f, at := s.procs[p].file, s.procs[p].at;
      assert s.files[f][..at + 1] == s.files[f][..at] + [s.files[f][at]];
      IndexSnoc(s.files[f][..at], s.files[f][at]);
    case EndScan(p) =>
      var f := s.procs[p].file;
      assert s.files[f][..s.procs[p].at] == s.files[f];
    case _ =>
  }

  lemma IndexOfEmpty()
    ensures IndexOf([]) == map[]
  {
  }

  lemma {:induction false} IndexSnoc(rows: seq<Row>, row: Row)
    ensures IndexOf(rows + [row]) == IndexOf(rows)[row.mac := ClientOf(row)]
  {
    assert (rows + [row])[..|rows + [row]| - 1] == rows;
  }

  lemma NextKeepsConsistent(s: State, step: Step)
    requires Consistent(s) && Next(s, step).Some?
    ensures Consistent(Next(s, step).value)
  {
    hide Inv.GenerateRow, Inv.HandleCallback, Inv.ResetAll, IndexOf, ProcOk, VersionsOk;
    var t := Next(s, step).value;
    NextGrows(s, step);
    MoverStaysOk(s, step);
    VersionsStayOk(s, step);
    forall p | p in t.procs
      ensures ProcOk(t, t.procs[p])
    {
      if p in s.procs && s.procs[p] == t.procs[p] {
        GrowthKeepsProcs(s, t, s.procs[p]);
      }
    }
    if step.Publish? {
      ScannedOk(s, s.procs[step.p]);
    }
    assert t.history[s.shown] == s.history[s.shown];
  }

  lemma ScannedOk(s: State, proc: Proc)
    requires ProcOk(s, proc) && proc.Scanned?
    ensures proc.version < |s.history| && proc.built == IndexOf(s.history[proc.version])
  {
  }

  lemma {:induction false} RunConsistent(rows: seq<Row>, inv: Inv.InvState, steps: seq<Step>)
    requires Run(Start(rows, inv), steps).Some?
    ensures Consistent(Run(Start(rows, inv), steps).value)
  {
    hide Next, IndexOf, PopulateInv;
    if steps == [] {
    } else {
      RunConsistent(rows, inv, steps[..|steps| - 1]);
      NextKeepsConsistent(Run(Start(rows, inv), steps[..|steps| - 1]).value, steps[|steps| - 1]);
    }
  }

  /** Whatever is under way, the client map that DHCP and the handlers see is the complete index of
      one version that the file went through. */
  lemma {:induction false} PublishedIndexIsComplete(rows: seq<Row>, inv: Inv.InvState, steps: seq<Step>)
    requires Run(Start(rows, inv), steps).Some?
    ensures var s := Run(Start(rows, inv), steps).value;
            s.shown < |s.history| && s.index == IndexOf(s.history[s.shown])
  {
    RunConsistent(rows, inv, steps);
  }

  predicate Handled(proc: Proc)
  {
    match proc
    case Ready(handled) => handled
    case Opened(handled, _) => handled
    case Scanning(handled, _, _, _) => handled
    case _ => false
  }

  /** Process p has appended a line at step a and not published, aborted or been spawned anew since. */
  predicate Registers(steps: seq<Step>, p: nat, a: nat)
  {
    && a < |steps| && steps[a] == Append(p)
    && forall i :: a < i < |steps| ==> steps[i] != Spawn(p) && steps[i] != Publish(p) && steps[i] != Abort(p)
  }

  lemma HandledStep(s: State, step: Step, p: nat)
    requires Next(s, step).Some? && p in Next(s, step).value.procs && Handled(Next(s, step).value.procs[p])
    ensures step == Append(p)
            || (p in s.procs && Handled(s.procs[p]) && step != Spawn(p) && step != Publish(p) && step != Abort(p))
  {
    hide Inv.GenerateRow, Inv.HandleCallback, Inv.ResetAll, ClientOf;
  }

  lemma {:induction false} HandledRegisters(s: State, steps: seq<Step>, p: nat) returns (a: nat)
    requires s.procs == map[] && Run(s, steps).Some?
    requires p in Run(s, steps).value.procs && Handled(Run(s, steps).value.procs[p])
    ensures Registers(steps, p, a)
  {
    hide Next;
    var before, last := steps[..|steps| - 1], |steps| - 1;
    HandledStep(Run(s, before).value, steps[last], p);
    if steps[last] == Append(p) {
      a := last;
    } else {
      a := HandledRegisters(s, before, p);
      assert forall i :: 0 <= i < last ==> before[i] == steps[i];
    }
  }

  /** A scan that aborts and leaves a living process is that of a registration which has appended its line
      before; the watcher's scans have no such step. */
  lemma {:induction false} OnlyRegistrationsAbort(s: State, steps: seq<Step>, p: nat) returns (a: nat)
    requires s.procs == map[] && Run(s, steps + [Abort(p)]).Some?
    ensures Registers(steps, p, a)
  {
    hide Next;
    assert (steps + [Abort(p)])[..|steps + [Abort(p)]| - 1] == steps;
    AbortIsHandled(Run(s, steps).value, p);
    a := HandledRegisters(s, steps, p);
  }

  lemma AbortIsHandled(s: State, p: nat)
    requires Next(s, Abort(p)).Some?
    ensures p in s.procs && Handled(s.procs[p])
  {
  }

  /** What a step does to the files and their versions. */
  lemma FilesStep(s: State, step: Step)
    requires Next(s, step).Some? && VersionsOk(s)
    ensures var t, n := Next(s, step).value, |s.files| - 1;
            match step
            case Append(p) =>
              && p in s.procs && s.procs[p].Checked?
              && t.files == s.files[n := s.files[n] + [W.RegisteredRow(s.procs[p].req)]]
              && |t.history| == |s.history| + 1 && t.latest == s.latest[n := |s.history|]
            case Replace(rows) =>
              t.files == s.files + [rows] && |t.history| == |s.history| + 1 && t.latest == s.latest + [|s.history|]
            case _ => t.files == s.files && t.history == s.history && t.latest == s.latest
  {
    hide Inv.GenerateRow, Inv.HandleCallback, Inv.ResetAll, ClientOf;
  }

  /** What a step does to a finished scan, and to the published version. */
  lemma ScanStep(s: State, step: Step, p: nat)
    requires Next(s, step).Some?
    ensures var t := Next(s, step).value;
            && (step != EndScan(p) && p in t.procs && t.procs[p].Scanned? ==>
                  p in s.procs && s.procs[p] == t.procs[p] && step != Publish(p))
            && (!step.Publish? ==> t.shown == s.shown)
            && (step == Publish(p) ==> p in s.procs && s.procs[p].Scanned? && t.shown == s.procs[p].version)
            && (step == EndScan(p) ==> Scans(s, p) && p in t.procs && t.procs[p].Scanned?
                                       && s.procs[p].file < |s.latest| && t.procs[p].version == s.latest[s.procs[p].file])
  {
    hide Inv.GenerateRow, Inv.HandleCallback, Inv.ResetAll, ClientOf;
  }

  /** The inventory side of a run is a run of the inventory machine, so what that machine keeps over
      every interleaving holds here. */
  function InvStep(t: State, step: Step): seq<Inv.Step>
  {
    match step
    case Begin(_) => [Inv.Reset]
    case ScanRow(p) => if CanScan(t, p) then [Inv.Generate(NextRow(t, p))] else []
    case Callback(mac) => if mac == "" then [] else [Inv.Callback(mac)]
    case _ => []
  }

  function InvSteps(s: State, steps: seq<Step>): seq<Inv.Step>
    requires Run(s, steps).Some?
  {
    if steps == [] then []
    else
      var before := steps[..|steps| - 1];
      InvSteps(s, before) + InvStep(Run(s, before).value, steps[|steps| - 1])
  }

  lemma InvStepFollows(t: State, step: Step)
    requires Next(t, step).Some?
    ensures Next(t, step).value.inv == Inv.Run(t.inv, InvStep(t, step))
  {
    hide Inv.GenerateRow, IndexOf, ClientOf;
    var steps := InvStep(t, step);
    if steps != [] {
      assert steps[..0] == [];
      assert Inv.Run(t.inv, steps) == Inv.Apply(t.inv, steps[0]);
    }
  }

  lemma {:induction false} InventoryFollowsSteps(s: State, steps: seq<Step>)
    requires Run(s, steps).Some?
    ensures Run(s, steps).value.inv == Inv.Run(s.inv, InvSteps(s, steps))
  {
    hide Next, InvStep;
    if steps != [] {
      var before := steps[..|steps| - 1];
      InventoryFollowsSteps(s, before);
      var t := Run(s, before).value;
      InvStepFollows(t, steps[|steps| - 1]);
      Inv.RunConcat(s.inv, InvSteps(s, before), InvStep(t, steps[|steps| - 1]));
    }
  }

  /** So even mid-repopulation, with several scans and callbacks interleaved, every machine that is
      in the inventory at all has a closed provisioning chain on disk. */
  lemma {:induction false} ChainClosesConcurrently(files: Files, key: string, rows: seq<Row>, steps: seq<Step>, mac: string)
    requires Run(Start(rows, Inv.Boot(files, key)), steps).Some?
    requires mac in Run(Start(rows, Inv.Boot(files, key)), steps).value.inv.machines
    ensures Inv.ChainClosesAt(Run(Start(rows, Inv.Boot(files, key)), steps).value.inv, MacAsID(mac))
  {
    hide Inv.ChainClosesAt, Inv.Run, Run, InvSteps;
    var s := Start(rows, Inv.Boot(files, key));
    InventoryFollowsSteps(s, steps);
    Inv.RunConcat(Inv.Boot(files, key), Pass(rows), InvSteps(s, steps));
    Inv.ChainCloses(files, key, Pass(rows) + InvSteps(s, steps), mac);
  }
}
