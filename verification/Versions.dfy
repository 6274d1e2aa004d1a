/** Which version of the file is published in a concurrent run, when a publication goes back to an older
    one, and when the file stays distinct. */
module PublishedVersions {
  import opened Text
  import opened Csv
  import opened Population
  import opened Publication
  import W = World
  import Inv = InventorySteps

  predicate IsChange(step: Step)
  {
    step.Append? || step.Replace?
  }

  /** The number of changes of the file, so the number of the version after these steps. */
  function Changes(steps: seq<Step>): nat
  {
    if steps == [] then 0
    else Changes(steps[..|steps| - 1]) + if IsChange(steps[|steps| - 1]) then 1 else 0
  }

  function Replaces(steps: seq<Step>): nat
  {
    if steps == [] then 0
    else Replaces(steps[..|steps| - 1]) + if steps[|steps| - 1].Replace? then 1 else 0
  }

  /** How far into the steps file f has been the current one: up to its replacement, or to the end. */
  function LastSeen(steps: seq<Step>, f: nat): nat
  {
    if steps == [] then 0
    else if Replaces(steps[..|steps| - 1]) > f then LastSeen(steps[..|steps| - 1], f)
    else if Replaces(steps) > f then |steps| - 1
    else |steps|
  }

  lemma {:induction false} LastSeenBound(steps: seq<Step>, f: nat)
    ensures LastSeen(steps, f) <= |steps|
  {
    if steps != [] {
      LastSeenBound(steps[..|steps| - 1], f);
    }
  }

  /** Versions are counted by the changes, and a file's last version by those before its replacement. */
  lemma {:induction false} VersionsAreChanges(rows: seq<Row>, inv: Inv.InvState, steps: seq<Step>)
    requires Run(Start(rows, inv), steps).Some?
    ensures var s := Run(Start(rows, inv), steps).value;
            && |s.history| == 1 + Changes(steps)
            && |s.files| == |s.latest| == 1 + Replaces(steps)
            && forall f :: 0 <= f < |s.files| ==>
                 LastSeen(steps, f) <= |steps| && s.latest[f] == Changes(steps[..LastSeen(steps, f)])
  {
    hide IndexOf, PopulateInv, Next, VersionsOk;
    if steps == [] {
      assert steps[..0] == [];
    } else {
      var before := steps[..|steps| - 1];
      VersionsAreChanges(rows, inv, before);
      RunConsistent(rows, inv, before);
      var s, t := Run(Start(rows, inv), before).value, Run(Start(rows, inv), steps).value;
      FilesStep(s, steps[|steps| - 1]);
      forall f | 0 <= f < |t.files|
        ensures LastSeen(steps, f) <= |steps| && t.latest[f] == Changes(steps[..LastSeen(steps, f)])
      {
        LastSeenBound(steps, f);
        assert steps[..|steps|] == steps && before[..|before|] == before;
        if f < |s.files| && LastSeen(steps, f) < |steps| {
          assert steps[..LastSeen(steps, f)] == before[..LastSeen(steps, f)];
        }
      }
    }
  }

  /** Event e is the end of a scan; the number of steps up to which the scan has followed the path: all
      of them, or those before the file it has open was replaced. */
  ghost function ReadUpTo(rows: seq<Row>, inv: Inv.InvState, steps: seq<Step>, e: nat): nat
    requires Ends(rows, inv, steps, e)
  {
    LastSeen(steps[..e], Run(Start(rows, inv), steps[..e]).value.procs[steps[e].p].file)
  }

  ghost predicate Ends(rows: seq<Row>, inv: Inv.InvState, steps: seq<Step>, e: nat)
  {
    && e < |steps| && steps[e].EndScan?
    && Run(Start(rows, inv), steps[..e]).Some?
    && Scans(Run(Start(rows, inv), steps[..e]).value, steps[e].p)
  }

  /** Process p holds the finished scan that ended at event e. */
  ghost predicate Holds(rows: seq<Row>, inv: Inv.InvState, steps: seq<Step>, p: nat, e: nat)
  {
    && Ends(rows, inv, steps, e) && steps[e] == EndScan(p)
    && forall i :: e < i < |steps| ==> steps[i] != EndScan(p) && steps[i] != Publish(p)
  }

  /** The index was published last by a scan that ended at event e. */
  ghost predicate Published(rows: seq<Row>, inv: Inv.InvState, steps: seq<Step>, e: nat)
  {
    Ends(rows, inv, steps, e) &&
    exists n :: e < n < |steps| && steps[n] == Publish(steps[e].p)
                && (forall i :: n < i < |steps| ==> !steps[i].Publish?)
                && (forall i :: e < i < n ==> steps[i] != EndScan(steps[e].p) && steps[i] != Publish(steps[e].p))
  }

  lemma EndsPrefix(rows: seq<Row>, inv: Inv.InvState, steps: seq<Step>, e: nat)
    requires steps != [] && e < |steps| - 1
    ensures Ends(rows, inv, steps, e) <==> Ends(rows, inv, steps[..|steps| - 1], e)
    ensures Ends(rows, inv, steps, e) ==>
              ReadUpTo(rows, inv, steps, e) == ReadUpTo(rows, inv, steps[..|steps| - 1], e)
  {
    hide Run, Start, LastSeen;
    assert steps[..|steps| - 1][..e] == steps[..e];
  }

  /** The version that the scan ending at e reads. */
  lemma {:induction false} EndScanReads(rows: seq<Row>, inv: Inv.InvState, steps: seq<Step>)
    requires steps != [] && steps[|steps| - 1].EndScan? && Run(Start(rows, inv), steps).Some?
    ensures Ends(rows, inv, steps, |steps| - 1)
    ensures var s := Run(Start(rows, inv), steps).value;
            var p := steps[|steps| - 1].p;
            var upTo := ReadUpTo(rows, inv, steps, |steps| - 1);
            && upTo <= |steps| && p in s.procs && s.procs[p].Scanned?
            && s.procs[p].version == Changes(steps[..upTo])
  {
    hide LastSeen, IndexOf, Start, Next;
    var before, p := steps[..|steps| - 1], steps[|steps| - 1].p;
    VersionsAreChanges(rows, inv, before);
    ScanStep(Run(Start(rows, inv), before).value, steps[|steps| - 1], p);
    var f := Run(Start(rows, inv), before).value.procs[p].file;
    LastSeenBound(before, f);
    assert before[..LastSeen(before, f)] == steps[..LastSeen(before, f)];
  }

  lemma HoldsStill(rows: seq<Row>, inv: Inv.InvState, steps: seq<Step>, p: nat, e: nat)
    requires steps != [] && steps[|steps| - 1] != EndScan(p) && steps[|steps| - 1] != Publish(p)
    requires Holds(rows, inv, steps[..|steps| - 1], p, e)
    ensures Holds(rows, inv, steps, p, e)
    ensures ReadUpTo(rows, inv, steps, e) == ReadUpTo(rows, inv, steps[..|steps| - 1], e)
  {
    hide Ends, ReadUpTo;
    var before := steps[..|steps| - 1];
    EndsWithin(rows, inv, before, e);
    EndsPrefix(rows, inv, steps, e);
    assert forall i :: 0 <= i < |before| ==> steps[i] == before[i];
  }

  /** A finished scan holds the version that the path showed when the scan last followed it. */
  lemma {:induction false} ScanHolds(rows: seq<Row>, inv: Inv.InvState, steps: seq<Step>, p: nat) returns (e: nat)
    requires Run(Start(rows, inv), steps).Some?
    requires p in Run(Start(rows, inv), steps).value.procs && Run(Start(rows, inv), steps).value.procs[p].Scanned?
    ensures Holds(rows, inv, steps, p, e) && ReadUpTo(rows, inv, steps, e) <= |steps|
    ensures Run(Start(rows, inv), steps).value.procs[p].version == Changes(steps[..ReadUpTo(rows, inv, steps, e)])
  {
    hide IndexOf, PopulateInv, Next, LastSeen, ReadUpTo, Changes, Ends;
    if steps[|steps| - 1] == EndScan(p) {
      e := |steps| - 1;
      EndScanReads(rows, inv, steps);
    } else {
      var before := steps[..|steps| - 1];
      ScanStep(Run(Start(rows, inv), before).value, steps[|steps| - 1], p);
      e := ScanHolds(rows, inv, before, p);
      HoldsStill(rows, inv, steps, p, e);
      assert before[..ReadUpTo(rows, inv, before, e)] == steps[..ReadUpTo(rows, inv, before, e)];
    }
  }

  predicate NoPublish(steps: seq<Step>)
  {
    forall i :: 0 <= i < |steps| ==> !steps[i].Publish?
  }

  /** The published version: that of startup until the first publication, and from then on the one that
      the path showed when the last publisher's scan last followed it. */
  lemma {:induction false} ShownVersion(rows: seq<Row>, inv: Inv.InvState, steps: seq<Step>) returns (e: nat)
    requires Run(Start(rows, inv), steps).Some?
    ensures var s := Run(Start(rows, inv), steps).value;
            if NoPublish(steps) then s.shown == 0
            else
              && Published(rows, inv, steps, e) && ReadUpTo(rows, inv, steps, e) <= |steps|
              && s.shown == Changes(steps[..ReadUpTo(rows, inv, steps, e)])
  {
    hide IndexOf, PopulateInv, Next, LastSeen, ReadUpTo, Changes, Ends;
    e := 0;
    if steps != [] {
      var n := |steps| - 1;
      var before := steps[..n];
      assert forall i :: 0 <= i < n ==> steps[i] == before[i];
      ScanStep(Run(Start(rows, inv), before).value, steps[n], if steps[n].Publish? then steps[n].p else 0);
      if steps[n].Publish? {
        e := ScanHolds(rows, inv, before, steps[n].p);
        PublishedNow(rows, inv, steps, e);
        assert before[..ReadUpTo(rows, inv, before, e)] == steps[..ReadUpTo(rows, inv, before, e)];
      } else {
        e := ShownVersion(rows, inv, before);
        if !NoPublish(before) {
          PublishedStill(rows, inv, steps, e);
          assert before[..ReadUpTo(rows, inv, before, e)] == steps[..ReadUpTo(rows, inv, before, e)];
        }
      }
    }
  }

  lemma PublishedNow(rows: seq<Row>, inv: Inv.InvState, steps: seq<Step>, e: nat)
    requires steps != [] && steps[|steps| - 1].Publish?
    requires Holds(rows, inv, steps[..|steps| - 1], steps[|steps| - 1].p, e)
    ensures Published(rows, inv, steps, e)
    ensures ReadUpTo(rows, inv, steps, e) == ReadUpTo(rows, inv, steps[..|steps| - 1], e)
  {
    hide Ends, ReadUpTo;
    var n := |steps| - 1;
    var before := steps[..n];
    assert Ends(rows, inv, before, e);
    EndsWithin(rows, inv, before, e);
    EndsPrefix(rows, inv, steps, e);
    assert forall i :: 0 <= i < |before| ==> steps[i] == before[i];
    assert steps[n] == Publish(steps[e].p);
  }

  lemma EndsWithin(rows: seq<Row>, inv: Inv.InvState, steps: seq<Step>, e: nat)
    requires Ends(rows, inv, steps, e)
    ensures e < |steps| && steps[e].EndScan?
  {
  }

  lemma PublishedStill(rows: seq<Row>, inv: Inv.InvState, steps: seq<Step>, e: nat)
    requires steps != [] && !steps[|steps| - 1].Publish?
    requires Published(rows, inv, steps[..|steps| - 1], e)
    ensures Published(rows, inv, steps, e)
    ensures ReadUpTo(rows, inv, steps, e) == ReadUpTo(rows, inv, steps[..|steps| - 1], e)
  {
    hide Ends, ReadUpTo;
    var before := steps[..|steps| - 1];
    EndsWithin(rows, inv, before, e);
    EndsPrefix(rows, inv, steps, e);
    assert forall i :: 0 <= i < |before| ==> steps[i] == before[i];
    var n :| e < n < |before| && before[n] == Publish(before[e].p)
             && (forall i :: n < i < |before| ==> !before[i].Publish?)
             && (forall i :: e < i < n ==> before[i] != EndScan(before[e].p) && before[i] != Publish(before[e].p));
    assert steps[n] == Publish(steps[e].p);
  }

  predicate ChangedBetween(steps: seq<Step>, a: nat, b: nat)
    requires b <= |steps|
  {
    exists c :: a <= c < b && IsChange(steps[c])
  }

  lemma {:induction false} ChangesBetween(steps: seq<Step>, a: nat, b: nat)
    requires a <= |steps| && b <= |steps|
    ensures Changes(steps[..a]) < Changes(steps[..b]) <==> ChangedBetween(steps, a, b)
    decreases b
  {
    if b > 0 {
      assert steps[..b][..b - 1] == steps[..b - 1];
      ChangesBetween(steps, a, b - 1);
      if a <= b - 1 {
        ChangesMonotone(steps, a, b - 1);
      } else {
        ChangesMonotone(steps, b, a);
      }
    }
  }

  lemma {:induction false} ChangesMonotone(steps: seq<Step>, a: nat, b: nat)
    requires a <= b <= |steps|
    ensures Changes(steps[..a]) <= Changes(steps[..b])
    decreases b
  {
    if a < b {
      assert steps[..b][..b - 1] == steps[..b - 1];
      ChangesMonotone(steps, a, b - 1);
    }
  }

  /** The published index is that of the newest version exactly when the file did not change after the
      last publisher's scan last followed it; before any publication, when it did not change at all. */
  lemma {:induction false} ShownIsNewestIff(rows: seq<Row>, inv: Inv.InvState, steps: seq<Step>) returns (e: nat)
    requires Run(Start(rows, inv), steps).Some?
    ensures var s := Run(Start(rows, inv), steps).value;
            if NoPublish(steps) then s.shown == |s.history| - 1 <==> !ChangedBetween(steps, 0, |steps|)
            else
              && Published(rows, inv, steps, e)
              && (s.shown == |s.history| - 1 <==> !ChangedBetween(steps, ReadUpTo(rows, inv, steps, e), |steps|))
  {
    hide Ends, ReadUpTo, Run, Start;
    e := ShownVersion(rows, inv, steps);
    VersionsAreChanges(rows, inv, steps);
    assert steps[..|steps|] == steps && steps[..0] == [];
    var upTo := if NoPublish(steps) then 0 else PublishedUpTo(rows, inv, steps, e);
    ChangesBetween(steps, upTo, |steps|);
    ChangesMonotone(steps, upTo, |steps|);
  }

  ghost function PublishedUpTo(rows: seq<Row>, inv: Inv.InvState, steps: seq<Step>, e: nat): nat
    requires Published(rows, inv, steps, e)
  {
    ReadUpTo(rows, inv, steps, e)
  }

  /** A publication takes the index back to an older version exactly when the file changed between
      the point up to which its own scan followed the file and the point up to which the previous
      publisher's did: an older reading published later. The first publication never does. */
  lemma {:induction false} GoesBackIff(rows: seq<Row>, inv: Inv.InvState, steps: seq<Step>, p: nat)
    returns (own: nat, last: nat)
    requires Run(Start(rows, inv), steps + [Publish(p)]).Some?
    ensures Run(Start(rows, inv), steps).Some?
    ensures Holds(rows, inv, steps, p, own) && ReadUpTo(rows, inv, steps, own) <= |steps|
    ensures var s, t := Run(Start(rows, inv), steps).value, Run(Start(rows, inv), steps + [Publish(p)]).value;
            if NoPublish(steps) then t.shown >= s.shown
            else
              && Published(rows, inv, steps, last) && ReadUpTo(rows, inv, steps, last) <= |steps|
              && (t.shown < s.shown <==> ChangedBetween(steps, ReadUpTo(rows, inv, steps, own), ReadUpTo(rows, inv, steps, last)))
  {
    hide ReadUpTo, Next, IndexOf, PopulateInv, Changes;
    var all := steps + [Publish(p)];
    assert all[..|all| - 1] == steps;
    ScanStep(Run(Start(rows, inv), steps).value, Publish(p), p);
    own := ScanHolds(rows, inv, steps, p);
    last := ShownVersion(rows, inv, steps);
    if !NoPublish(steps) {
      ChangesBetween(steps, ReadUpTo(rows, inv, steps, own), ReadUpTo(rows, inv, steps, last));
    }
  }

  // ---------- Distinctness in an interleaving ----------

  function Current(s: State): seq<Row>
    requires s.files != []
  {
    s.files[|s.files| - 1]
  }

  /** No row of the file has the MAC or the address of the request. */
  predicate NewTo(rows: seq<Row>, req: W.Request)
  {
    forall i :: 0 <= i < |rows| ==> rows[i].mac != req.mac && rows[i].ip != req.ip
  }

  lemma DistinctSnocIff(rows: seq<Row>, req: W.Request)
    ensures Distinct(rows + [W.RegisteredRow(req)]) <==> Distinct(rows) && NewTo(rows, req)
  {
    var all := rows + [W.RegisteredRow(req)];
    if Distinct(all) {
      forall i | 0 <= i < |rows|
        ensures rows[i].mac != req.mac && rows[i].ip != req.ip
      {
        assert all[i] == rows[i] && all[|rows|] == W.RegisteredRow(req);
      }
      assert forall i :: 0 <= i < |rows| ==> all[i] == rows[i];
    }
  }

  /** Whether every append since the file was last put in place met a file without its MAC and address,
      starting from a distinct one. */
  ghost predicate AppendsWereNew(rows: seq<Row>, inv: Inv.InvState, steps: seq<Step>)
    requires Run(Start(rows, inv), steps).Some?
  {
    if steps == [] then Distinct(rows)
    else
      var before, last := steps[..|steps| - 1], steps[|steps| - 1];
      var s := Run(Start(rows, inv), before).value;
      match last
      case Replace(new_) => Distinct(new_)
      case Append(p) =>
        AppendsWereNew(rows, inv, before) && s.files != [] && p in s.procs && s.procs[p].Checked?
        && NewTo(Current(s), s.procs[p].req)
      case _ => AppendsWereNew(rows, inv, before)
  }

  /** In every interleaving the file is distinct exactly when it was put in place distinct and each
      registration still found its MAC and its address new to the file when it came to append: what
      its check saw in the published index does not matter. */
  lemma {:induction false} DistinctIffAppendsWereNew(rows: seq<Row>, inv: Inv.InvState, steps: seq<Step>)
    requires Run(Start(rows, inv), steps).Some?
    ensures var s := Run(Start(rows, inv), steps).value;
            s.files != [] && (Distinct(Current(s)) <==> AppendsWereNew(rows, inv, steps))
  {
    hide IndexOf, PopulateInv, Next, Distinct, NewTo, VersionsOk;
    if steps != [] {
      var before, last := steps[..|steps| - 1], steps[|steps| - 1];
      DistinctIffAppendsWereNew(rows, inv, before);
      RunConsistent(rows, inv, before);
      var s := Run(Start(rows, inv), before).value;
      FilesStep(s, last);
      if last.Append? {
        DistinctSnocIff(Current(s), s.procs[last.p].req);
      }
    }
  }
}
