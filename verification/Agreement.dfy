/** Inventory and index in a concurrent run: whose rows the inventory holds, when a callback is
    accepted, and when the two agree. */
module Agreement {
  import opened Text
  import opened Csv
  import opened Templates
  import opened Population
  import opened Publication
  import Inv = InventorySteps

  // ---------- Whose rows the inventory holds ----------

  /** What the scans have done since the last of them began: its process, the MACs it has read itself, those
      that other scans have read meanwhile, the version it has read if it is through, and whether it
      found no other scan open. */
  datatype Tally = Tally(leader: Option<nat>, own: set<string>, strays: set<string>, version: Option<nat>, alone: bool)

  ghost predicate NoneOpen(s: State)
  {
    forall q :: q in s.procs ==> !s.procs[q].Scanning?
  }

  /** The tally after one more step, taken in state s. */
  ghost function Tallied(a: Tally, s: State, step: Step): Tally
  {
    match step
    case Begin(p) => Tally(Some(p), {}, {}, None, NoneOpen(s))
    case ScanRow(p) =>
      if !CanScan(s, p) then a
      else if a.leader == Some(p) then a.(own := a.own + {NextRow(s, p).mac})
      else a.(strays := a.strays + {NextRow(s, p).mac})
    case EndScan(p) =>
      if a.leader == Some(p) && Scans(s, p) && s.procs[p].file < |s.latest| then
        a.(version := Some(s.latest[s.procs[p].file]))
      else a
    case _ => a
  }

  ghost function TallyOf(rows: seq<Row>, inv: Inv.InvState, steps: seq<Step>): Tally
    requires Run(Start(rows, inv), steps).Some?
  {
    if steps == [] then Tally(None, IndexOf(rows).Keys, {}, Some(0), true)
    else
      var before := steps[..|steps| - 1];
      Tallied(TallyOf(rows, inv, before), Run(Start(rows, inv), before).value, steps[|steps| - 1])
  }

  /** The scan that began last, as far as it got. */
  ghost predicate LeaderOk(s: State, a: Tally, p: nat)
  {
    a.leader == Some(p) && p in s.procs ==>
      match s.procs[p]
      case Scanning(_, _, _, built) => a.own == built.Keys && a.version == None
      case Scanned(_, v) => a.version == Some(v)
      case _ => true
  }

  ghost predicate TallyOk(s: State, a: Tally)
  {
    && s.inv.machines.Keys == a.own + a.strays
    && (forall p :: LeaderOk(s, a, p))
    && (a.version.Some? ==> a.version.value < |s.history| && a.own == IndexOf(s.history[a.version.value]).Keys)
    && (a.alone ==> a.strays == {} && forall q :: q in s.procs && s.procs[q].Scanning? ==> a.leader == Some(q))
  }

  lemma ScanRowTallied(s: State, a: Tally, p: nat)
    requires TallyOk(s, a) && Next(s, ScanRow(p)).Some?
    ensures TallyOk(Next(s, ScanRow(p)).value, Tallied(a, s, ScanRow(p)))
  {
    hide IndexOf, ClientOf, Inv.RowFiles;
    var t, b := Next(s, ScanRow(p)).value, Tallied(a, s, ScanRow(p));
    assert LeaderOk(s, a, p);
    forall q
      ensures LeaderOk(t, b, q)
    {
      assert LeaderOk(s, a, q);
    }
  }

  lemma EndScanTallied(s: State, a: Tally, p: nat)
    requires TallyOk(s, a) && Consistent(s) && Next(s, EndScan(p)).Some?
    ensures TallyOk(Next(s, EndScan(p)).value, Tallied(a, s, EndScan(p)))
  {
    hide IndexOf, ClientOf, Inv.GenerateRow;
    var t, b := Next(s, EndScan(p)).value, Tallied(a, s, EndScan(p));
    var f := s.procs[p].file;
    assert LeaderOk(s, a, p);
    assert ProcOk(s, s.procs[p]);
    assert s.files[f][..s.procs[p].at] == s.files[f] == s.history[s.latest[f]];
    forall q
      ensures LeaderOk(t, b, q)
    {
      assert LeaderOk(s, a, q);
    }
  }

  lemma CallbackKeepsKeys(s: Inv.InvState, mac: string)
    ensures Inv.HandleCallback(s, mac).0.machines.Keys == s.machines.Keys
  {
    hide WriteBootFiles;
  }

  lemma OtherStepTallied(s: State, a: Tally, step: Step)
    requires TallyOk(s, a) && Next(s, step).Some? && !step.ScanRow? && !step.EndScan?
    ensures TallyOk(Next(s, step).value, Tallied(a, s, step))
  {
    hide IndexOf, ClientOf, Inv.GenerateRow, Inv.HandleCallback;
    var t, b := Next(s, step).value, Tallied(a, s, step);
    if step.Callback? {
      CallbackKeepsKeys(s.inv, step.mac);
    }
    forall q
      ensures LeaderOk(t, b, q)
    {
      assert LeaderOk(s, a, q);
    }
  }

  /** Over every interleaving the inventory has exactly the MACs of the tally. */
  lemma {:induction false} RunTallied(rows: seq<Row>, inv: Inv.InvState, steps: seq<Step>)
    requires Run(Start(rows, inv), steps).Some?
    ensures TallyOk(Run(Start(rows, inv), steps).value, TallyOf(rows, inv, steps))
  {
    hide Next, IndexOf, PopulateInv, TallyOk, Consistent, Tallied;
    if steps == [] {
      StartTallied(rows, inv);
    } else {
      var before, step := steps[..|steps| - 1], steps[|steps| - 1];
      RunTallied(rows, inv, before);
      var s, a := Run(Start(rows, inv), before).value, TallyOf(rows, inv, before);
      if step.ScanRow? {
        ScanRowTallied(s, a, step.p);
      } else if step.EndScan? {
        RunConsistent(rows, inv, before);
        EndScanTallied(s, a, step.p);
      } else {
        OtherStepTallied(s, a, step);
      }
    }
  }

  lemma StartTallied(rows: seq<Row>, inv: Inv.InvState)
    ensures TallyOk(Start(rows, inv), TallyOf(rows, inv, []))
  {
    hide PopulateInv;
    InventoryMatchesIndex(inv, rows);
  }

  // ---------- Callbacks ----------

  /** Whether some scan has read a row of the MAC since a scan last began. */
  ghost predicate Reached(rows: seq<Row>, inv: Inv.InvState, steps: seq<Step>, mac: string)
    requires Run(Start(rows, inv), steps).Some?
  {
    if steps == [] then mac in IndexOf(rows)
    else
      var before := steps[..|steps| - 1];
      match steps[|steps| - 1]
      case Begin(_) => false
      case ScanRow(p) =>
        var s := Run(Start(rows, inv), before).value;
        Reached(rows, inv, before, mac) || (CanScan(s, p) && NextRow(s, p).mac == mac)
      case _ => Reached(rows, inv, before, mac)
  }

  /** In every interleaving a callback is accepted exactly when its MAC is not empty and some scan has
      read a row of it since a scan last began; whether the index lists it plays no part. */
  lemma {:induction false} CallbackAcceptedIff(rows: seq<Row>, inv: Inv.InvState, steps: seq<Step>, mac: string)
    requires Run(Start(rows, inv), steps).Some?
    ensures var s := Run(Start(rows, inv), steps).value;
            && (mac in s.inv.machines <==> Reached(rows, inv, steps, mac))
            && (Inv.HandleCallback(s.inv, mac).1 == Inv.Accepted <==> mac != "" && Reached(rows, inv, steps, mac))
  {
    hide IndexOf, ClientOf, Inv.RowFiles, Inv.LogInstalled, PopulateInv;
    if steps == [] {
      InventoryMatchesIndex(inv, rows);
    } else {
      var before, step := steps[..|steps| - 1], steps[|steps| - 1];
      CallbackAcceptedIff(rows, inv, before, mac);
      if step.Callback? {
        CallbackKeepsKeys(Run(Start(rows, inv), before).value.inv, step.mac);
      }
    }
  }

  // ---------- Agreement ----------

  ghost predicate Agrees(s: State)
  {
    s.inv.machines.Keys == s.index.Keys
  }

  /** In every interleaving inventory and index have the same MACs exactly when what the scan that began last has
      read, and what others have read since, together are those of the published version. If that scan is
      through and its version is the published one, this means that the others have read no MAC outside
      that version; it holds in particular when the scan found no other one open. */
  lemma {:induction false} AgreementIff(rows: seq<Row>, inv: Inv.InvState, steps: seq<Step>)
    requires Run(Start(rows, inv), steps).Some?
    ensures var s, a := Run(Start(rows, inv), steps).value, TallyOf(rows, inv, steps);
            s.shown < |s.history| &&
            var published := IndexOf(s.history[s.shown]).Keys;
            && (Agrees(s) <==> a.own + a.strays == published)
            && (a.version.Some? ==>
                  a.version.value < |s.history|
                  && (Agrees(s) <==> IndexOf(s.history[a.version.value]).Keys + a.strays == published))
            && (a.version == Some(s.shown) ==> (Agrees(s) <==> a.strays <= published))
            && (a.version == Some(s.shown) && a.alone ==> Agrees(s))
  {
    hide Run, Start, IndexOf, VersionsOk, ProcOk, LeaderOk, TallyOf;
    RunTallied(rows, inv, steps);
    RunConsistent(rows, inv, steps);
  }

  /** The scan of process p that began at b is the last to begin. */
  predicate BeganLast(steps: seq<Step>, b: nat, p: nat)
  {
    b < |steps| && steps[b] == Begin(p) && forall i :: b < i < |steps| ==> !steps[i].Begin?
  }

  /** It found no other scan open. */
  ghost predicate BeganAlone(rows: seq<Row>, inv: Inv.InvState, steps: seq<Step>, b: nat, p: nat)
  {
    BeganLast(steps, b, p) && Run(Start(rows, inv), steps[..b]).Some? && NoneOpen(Run(Start(rows, inv), steps[..b]).value)
  }

  lemma TallyStep(s: State, a: Tally, step: Step)
    requires Next(s, step).Some?
    ensures var t, b := Next(s, step).value, Tallied(a, s, step);
            && (!step.Begin? ==> b.leader == a.leader && b.alone == a.alone)
            && (step.Begin? ==> b.leader == Some(step.p) && (b.alone <==> NoneOpen(s)))
            && (!step.Begin? ==> forall q :: q in t.procs && t.procs[q].Scanning? ==> q in s.procs && s.procs[q].Scanning?)
            && (!step.Begin? && !step.EndScan? ==> b.version == a.version)
            && (step.EndScan? ==> step.p in s.procs && s.procs[step.p].Scanning?
                                  && (a.leader != Some(step.p) ==> b.version == a.version))
            && (!step.Begin? && (step.ScanRow? ==> a.leader != Some(step.p)) ==> b.own == a.own)
            && (step.ScanRow? ==> step.p in s.procs && s.procs[step.p].Scanning?)
            && (step.Abort? ==> Scans(s, step.p) && step.p !in t.procs)
            && (step.Publish? ==> step.p in s.procs && s.procs[step.p].Scanned? && t.shown == s.procs[step.p].version
                                  && step.p !in t.procs)
            && (!step.Publish? ==> t.shown == s.shown)
  {
    hide Inv.GenerateRow, Inv.HandleCallback, Inv.ResetAll, ClientOf;
  }

  lemma BeganPrefix(rows: seq<Row>, inv: Inv.InvState, steps: seq<Step>, b: nat, p: nat)
    requires b < |steps| - 1 && BeganLast(steps, b, p)
    ensures BeganLast(steps[..|steps| - 1], b, p) && !steps[|steps| - 1].Begin?
    ensures BeganAlone(rows, inv, steps, b, p) ==> BeganAlone(rows, inv, steps[..|steps| - 1], b, p)
  {
    hide Run, Start, NoneOpen;
    var before := steps[..|steps| - 1];
    assert before[..b] == steps[..b];
    assert forall i :: 0 <= i < |before| ==> before[i] == steps[i];
  }

  lemma {:induction false} Leads(rows: seq<Row>, inv: Inv.InvState, steps: seq<Step>, b: nat, p: nat)
    requires Run(Start(rows, inv), steps).Some? && BeganLast(steps, b, p)
    ensures TallyOf(rows, inv, steps).leader == Some(p)
    ensures BeganAlone(rows, inv, steps, b, p) ==> TallyOf(rows, inv, steps).alone
  {
    hide Next, Start, NoneOpen, Tallied;
    var before := steps[..|steps| - 1];
    TallyStep(Run(Start(rows, inv), before).value, TallyOf(rows, inv, before), steps[|steps| - 1]);
    if b < |steps| - 1 {
      BeganPrefix(rows, inv, steps, b, p);
      Leads(rows, inv, before, b, p);
    } else {
      assert steps[..b] == before;
    }
  }

  lemma {:induction false} PublishedByLeader(rows: seq<Row>, inv: Inv.InvState, steps: seq<Step>, b: nat, p: nat, n: nat)
    requires Run(Start(rows, inv), steps).Some? && BeganLast(steps, b, p)
    requires b < n < |steps| && steps[n] == Publish(p)
    requires forall i :: n < i < |steps| ==> !steps[i].Publish?
    ensures var s := Run(Start(rows, inv), steps).value;
            TallyOf(rows, inv, steps).version == Some(s.shown) && (p in s.procs ==> !s.procs[p].Scanning?)
  {
    hide Next, Start, TallyOk, Tallied, NoneOpen;
    var before := steps[..|steps| - 1];
    var s, a := Run(Start(rows, inv), before).value, TallyOf(rows, inv, before);
    assert forall i :: 0 <= i < |before| ==> before[i] == steps[i];
    BeganPrefix(rows, inv, steps, b, p);
    TallyStep(s, a, steps[|steps| - 1]);
    Leads(rows, inv, before, b, p);
    if n < |steps| - 1 {
      PublishedByLeader(rows, inv, before, b, p, n);
    } else {
      RunTallied(rows, inv, before);
      TallyLeader(s, a, p);
    }
  }

  lemma TallyLeader(s: State, a: Tally, p: nat)
    requires TallyOk(s, a)
    ensures LeaderOk(s, a, p) && s.inv.machines.Keys == a.own + a.strays
  {
  }

  /** Read off the steps: if no other scan was open when the last scan to begin began, and that scan
      published last, inventory and index agree from then on. */
  lemma {:induction false} LoneScanAgrees(rows: seq<Row>, inv: Inv.InvState, steps: seq<Step>, b: nat, p: nat, n: nat)
    requires Run(Start(rows, inv), steps).Some? && BeganAlone(rows, inv, steps, b, p)
    requires b < n < |steps| && steps[n] == Publish(p)
    requires forall i :: n < i < |steps| ==> !steps[i].Publish?
    ensures Agrees(Run(Start(rows, inv), steps).value)
  {
    hide Run, Start, Agrees, IndexOf, NoneOpen, TallyOf;
    Leads(rows, inv, steps, b, p);
    PublishedByLeader(rows, inv, steps, b, p, n);
    AgreementIff(rows, inv, steps);
  }

  /** While such a scan is under way the inventory is exactly the part of the file it has read. */
  lemma {:induction false} LoneScanShowsPrefix(rows: seq<Row>, inv: Inv.InvState, steps: seq<Step>, b: nat, p: nat)
    requires Run(Start(rows, inv), steps).Some? && BeganAlone(rows, inv, steps, b, p)
    requires var s := Run(Start(rows, inv), steps).value; p in s.procs && s.procs[p].Scanning?
    ensures var s := Run(Start(rows, inv), steps).value;
            var f, at := s.procs[p].file, s.procs[p].at;
            && f < |s.files| && at <= |s.files[f]|
            && s.inv.machines.Keys == IndexOf(s.files[f][..at]).Keys
  {
    hide Run, Start, IndexOf, NoneOpen, TallyOf;
    Leads(rows, inv, steps, b, p);
    RunTallied(rows, inv, steps);
    RunConsistent(rows, inv, steps);
    var s := Run(Start(rows, inv), steps).value;
    assert LeaderOk(s, TallyOf(rows, inv, steps), p) && ProcOk(s, s.procs[p]);
  }

  // ---------- When the last scan to begin aborts ----------

  /** The part of the file that the scan of p has read at this point. */
  function PartRead(s: State, p: nat): seq<Row>
    requires Scans(s, p) && s.procs[p].at <= |s.files[s.procs[p].file]|
  {
    s.files[s.procs[p].file][..s.procs[p].at]
  }

  ghost predicate AbortsAt(rows: seq<Row>, inv: Inv.InvState, steps: seq<Step>, p: nat, n: nat)
  {
    && n < |steps| && steps[n] == Abort(p) && Run(Start(rows, inv), steps[..n]).Some?
    && var s := Run(Start(rows, inv), steps[..n]).value;
    Scans(s, p) && s.procs[p].at <= |s.files[s.procs[p].file]|
  }

  lemma {:induction false} OwnAfterAbort(rows: seq<Row>, inv: Inv.InvState, steps: seq<Step>, b: nat, p: nat, n: nat)
    requires Run(Start(rows, inv), steps).Some? && BeganLast(steps, b, p) && b < n < |steps| && steps[n] == Abort(p)
    ensures AbortsAt(rows, inv, steps, p, n)
    ensures TallyOf(rows, inv, steps).own == IndexOf(PartRead(Run(Start(rows, inv), steps[..n]).value, p)).Keys
    ensures var s := Run(Start(rows, inv), steps).value; p in s.procs ==> !s.procs[p].Scanning?
  {
    hide Next, Start, TallyOk, Tallied, NoneOpen, IndexOf, Consistent;
    var before := steps[..|steps| - 1];
    var s, a := Run(Start(rows, inv), before).value, TallyOf(rows, inv, before);
    BeganPrefix(rows, inv, steps, b, p);
    TallyStep(s, a, steps[|steps| - 1]);
    Leads(rows, inv, before, b, p);
    if n < |steps| - 1 {
      OwnAfterAbort(rows, inv, before, b, p, n);
      assert before[..n] == steps[..n];
    } else {
      assert steps[..n] == before;
      RunTallied(rows, inv, before);
      TallyLeader(s, a, p);
      RunConsistent(rows, inv, before);
      OpenScanOk(s, p);
    }
  }

  lemma OpenScanOk(s: State, p: nat)
    requires Consistent(s) && Scans(s, p)
    ensures ProcOk(s, s.procs[p])
  {
  }

  /** If the last scan to begin aborts, then from there on, and so at rest, inventory and index have the same MACs
      exactly when the part it had read and what others have read since are those of the published
      version. If it began alone, only the part counts. */
  lemma {:induction false} AbortedAgreementIff(rows: seq<Row>, inv: Inv.InvState, steps: seq<Step>, b: nat, p: nat, n: nat)
    requires Run(Start(rows, inv), steps).Some? && BeganLast(steps, b, p) && b < n < |steps| && steps[n] == Abort(p)
    ensures AbortsAt(rows, inv, steps, p, n)
    ensures var s := Run(Start(rows, inv), steps).value;
            var part := IndexOf(PartRead(Run(Start(rows, inv), steps[..n]).value, p)).Keys;
            s.shown < |s.history| &&
            var published := IndexOf(s.history[s.shown]).Keys;
            && (Agrees(s) <==> part + TallyOf(rows, inv, steps).strays == published)
            && (BeganAlone(rows, inv, steps, b, p) ==> (Agrees(s) <==> part == published))
  {
    hide Run, Start, Agrees, IndexOf, NoneOpen, TallyOf, PartRead, LeaderOk;
    OwnAfterAbort(rows, inv, steps, b, p, n);
    AgreementIff(rows, inv, steps);
    Leads(rows, inv, steps, b, p);
    RunTallied(rows, inv, steps);
  }
}
