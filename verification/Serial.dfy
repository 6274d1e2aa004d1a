/** The atomic steps of one registration or repopulation, taken without interruption, come to the serialised
    operation. */
module Serial {
  import opened Text
  import opened Csv
  import opened Population
  import opened Publication
  import W = World
  import Inv = InventorySteps

  lemma {:induction false} RunConcat(s: State, a: seq<Step>, b: seq<Step>)
    ensures Run(s, a + b) == match Run(s, a) case None => None case Some(t) => Run(t, b)
  {
    hide Next;
    if b == [] {
      assert a + b == a;
    } else {
      assert (a + b)[..|a + b| - 1] == a + b[..|b| - 1];
      RunConcat(s, a, b[..|b| - 1]);
    }
  }

  lemma {:induction false} RunOne(s: State, step: Step)
    ensures Run(s, [step]) == Next(s, step)
  {
    hide Next;
    assert [step][..0] == [];
    assert Run(s, []) == Some(s);
  }

  function ScanRows(p: nat, n: nat): seq<Step>
  {
    seq(n, _ => ScanRow(p))
  }

  /** A repopulation by process p of a file with n rows. */
  function PassSteps(p: nat, n: nat): seq<Step>
  {
    [Open(p)] + [Begin(p)] + ScanRows(p, n) + [EndScan(p)] + [Publish(p)]
  }

  /** The state after the scan of p has read the first k rows of file f. */
  function Midway(s: State, p: nat, handled: bool, f: nat, k: nat): State
    requires f < |s.files| && k <= |s.files[f]|
  {
    s.(procs := s.procs[p := Scanning(handled, f, k, IndexOf(s.files[f][..k]))],
       inv := PopulateInv(s.inv, s.files[f][..k]))
  }

  lemma {:induction false} RowsRun(s: State, p: nat, handled: bool, f: nat, k: nat)
    requires f < |s.files| && k <= |s.files[f]|
    ensures Run(Midway(s, p, handled, f, 0), ScanRows(p, k)) == Some(Midway(s, p, handled, f, k))
  {
    hide Midway, Next;
    if k == 0 {
      assert ScanRows(p, 0) == [];
    } else {
      RowsRun(s, p, handled, f, k - 1);
      RowRuns(s, p, handled, f, k - 1);
      assert ScanRows(p, k)[..k - 1] == ScanRows(p, k - 1);
    }
  }

  lemma RowRuns(s: State, p: nat, handled: bool, f: nat, k: nat)
    requires f < |s.files| && k < |s.files[f]|
    ensures Next(Midway(s, p, handled, f, k), ScanRow(p)) == Some(Midway(s, p, handled, f, k + 1))
  {
    hide IndexOf, PopulateInv, Inv.GenerateRow, ClientOf;
    var rows := s.files[f];
    assert rows[..k + 1] == rows[..k] + [rows[k]];
    IndexSnoc(rows[..k], rows[k]);
    PopulateSnoc(s.inv, rows[..k], rows[k]);
    var m := Midway(s, p, handled, f, k);
    assert m.procs[p := Midway(s, p, handled, f, k + 1).procs[p]] == Midway(s, p, handled, f, k + 1).procs;
  }

  lemma BeginRuns(s: State, p: nat)
    requires IsReady(s, p) && s.files != []
    ensures Run(s, [Open(p)] + [Begin(p)]) == Some(Midway(s, p, s.procs[p].handled, |s.files| - 1, 0))
  {
    hide IndexOf, PopulateInv, Run;
    var f := |s.files| - 1;
    var t := s.(procs := s.procs[p := Opened(s.procs[p].handled, f)]);
    RunOne(s, Open(p));
    RunConcat(s, [Open(p)], [Begin(p)]);
    RunOne(t, Begin(p));
    assert s.files[f][..0] == [];
    IndexOfEmpty();
    PassEmpty(s.inv);
    var m := Midway(s, p, s.procs[p].handled, f, 0);
    assert t.procs[p := m.procs[p]] == m.procs;
  }

  lemma EndRuns(s: State, p: nat, handled: bool)
    requires s.files != [] && |s.latest| == |s.files|
    ensures var f := |s.files| - 1;
            var rows := s.files[f];
            Run(Midway(s, p, handled, f, |rows|), [EndScan(p)] + [Publish(p)]) ==
            Some(s.(index := IndexOf(rows), shown := s.latest[f], inv := PopulateInv(s.inv, rows), procs := s.procs - {p}))
  {
    hide IndexOf, PopulateInv, Run;
    var f := |s.files| - 1;
    var rows := s.files[f];
    var m := Midway(s, p, handled, f, |rows|);
    assert rows[..|rows|] == rows;
    var t := m.(procs := m.procs[p := Scanned(IndexOf(rows), s.latest[f])]);
    RunOne(m, EndScan(p));
    RunConcat(m, [EndScan(p)], [Publish(p)]);
    RunOne(t, Publish(p));
    assert t.procs - {p} == s.procs - {p};
  }

  /** An undisturbed repopulation publishes the index of the whole current file and leaves the inventory of one
      complete pass over it. */
  lemma {:induction false} PassIsPopulate(s: State, p: nat)
    requires IsReady(s, p) && VersionsOk(s)
    ensures var rows := s.files[|s.files| - 1];
            Run(s, PassSteps(p, |rows|)) ==
            Some(s.(index := IndexOf(rows), shown := |s.history| - 1, inv := PopulateInv(s.inv, rows), procs := s.procs - {p}))
  {
    hide Run, Next, IndexOf, PopulateInv, Midway, ScanRows;
    var f, h := |s.files| - 1, s.procs[p].handled;
    var n := |s.files[f]|;
    BeginRuns(s, p);
    RowsRun(s, p, h, f, n);
    EndRuns(s, p, h);
    RunConcat(s, [Open(p)] + [Begin(p)], ScanRows(p, n));
    RunConcat(s, [Open(p)] + [Begin(p)] + ScanRows(p, n), [EndScan(p)] + [Publish(p)]);
    assert PassSteps(p, n) == [Open(p)] + [Begin(p)] + ScanRows(p, n) + ([EndScan(p)] + [Publish(p)]);
  }

  /** The world shows the current file, the published index and the inventory of this state. */
  ghost predicate Shows(w: W.World, s: State)
  {
    s.files != [] && W.Rows(w.text) == s.files[|s.files| - 1] && w.index == s.index && w.inv == s.inv
  }

  lemma RegistrationSteps(s: State, p: nat, req: W.Request)
    requires VersionsOk(s) && p !in s.procs
    ensures Next(s, Check(p, req)).Some? <==> W.ValidOS(req.os) && W.Fresh(s.index, req)
    ensures W.ValidOS(req.os) && W.Fresh(s.index, req) ==>
              var rows := s.files[|s.files| - 1] + [W.RegisteredRow(req)];
              var t := Run(s, [Check(p, req)] + [Append(p)]);
              && t.Some? && IsReady(t.value, p) && VersionsOk(t.value) && t.value.files[|t.value.files| - 1] == rows
              && t.value.index == s.index && t.value.inv == s.inv && t.value.procs - {p} == s.procs
  {
    hide W.Fresh, Run;
    if W.ValidOS(req.os) && W.Fresh(s.index, req) {
      RunOne(s, Check(p, req));
      RunConcat(s, [Check(p, req)], [Append(p)]);
      var c := Next(s, Check(p, req)).value;
      RunOne(c, Append(p));
      VersionsStayOk(s, Check(p, req));
      VersionsStayOk(c, Append(p));
    }
  }

  /** An undisturbed registration is the serialised one: its check fails exactly where the handler refuses, and
      otherwise file, index and inventory end up the same. */
  lemma {:induction false} StepsArePost(w: W.World, s: State, p: nat, req: W.Request)
    requires VersionsOk(s) && p !in s.procs && Shows(w, s)
    requires EndsWithNewline(w.text) && W.Readable(w.text) && Clean(req.ip) && Clean(req.mac)
    ensures Next(s, Check(p, req)).Some? <==> W.Post(Padded, w, req).1 == W.Added
    ensures W.Post(Padded, w, req).1 == W.Added ==>
              var n := |s.files[|s.files| - 1]| + 1;
              var t := Run(s, [Check(p, req)] + [Append(p)] + PassSteps(p, n));
              t.Some? && Shows(W.Post(Padded, w, req).0, t.value) && t.value.procs == s.procs
  {
    hide Run, Next, IndexOf, PopulateInv, W.Fresh, PassSteps, EndsWithNewline, W.Readable, W.Rows, W.Post;
    RegistrationSteps(s, p, req);
    PostWhenFresh(w, req);
    if W.ValidOS(req.os) && W.Fresh(s.index, req) {
      var n := |s.files[|s.files| - 1]| + 1;
      var t := Run(s, [Check(p, req)] + [Append(p)]).value;
      PassIsPopulate(t, p);
      RunConcat(s, [Check(p, req)] + [Append(p)], PassSteps(p, n));
    }
  }

  lemma PostWhenFresh(w: W.World, req: W.Request)
    requires EndsWithNewline(w.text) && W.Readable(w.text) && Clean(req.ip) && Clean(req.mac)
    ensures W.Post(Padded, w, req).1 == W.Added <==> W.ValidOS(req.os) && W.Fresh(w.index, req)
    ensures W.ValidOS(req.os) && W.Fresh(w.index, req) ==>
              var t, rows := W.Post(Padded, w, req).0, W.Rows(w.text) + [W.RegisteredRow(req)];
              W.Rows(t.text) == rows && t.index == IndexOf(rows) && t.inv == PopulateInv(w.inv, rows)
  {
    hide EndsWithNewline, W.Readable, W.Rows, IndexOf, PopulateInv, W.Append;
    if W.ValidOS(req.os) {
      W.OsIsClean(req.os);
      W.PaddedAppend(w.text, req);
    }
  }
}
