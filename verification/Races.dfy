/** Concrete concurrent runs in which the conditions of the interleaving theorems fail. */
module Races {
  import opened Text
  import opened Csv
  import opened Population
  import opened Publication
  import opened Agreement
  import W = World
  import Inv = InventorySteps

  ghost predicate Trace(states: seq<State>, steps: seq<Step>)
  {
    && |states| == |steps| + 1
    && forall i :: 0 <= i < |steps| ==> Next(states[i], steps[i]) == Some(states[i + 1])
  }

  lemma {:induction false} TraceRuns(states: seq<State>, steps: seq<Step>)
    requires Trace(states, steps)
    ensures Run(states[0], steps) == Some(states[|steps|])
  {
    hide Next;
    if steps != [] {
      var before, last := states[..|steps|], |steps| - 1;
      assert forall i :: 0 <= i < last ==> steps[..last][i] == steps[i];
      assert forall i :: 0 <= i <= last ==> before[i] == states[i];
      assert Trace(before, steps[..last]);
      TraceRuns(before, steps[..last]);
      assert Next(states[last], steps[last]) == Some(states[last + 1]);
    }
  }

  const R1 := Row("10.0.0.1", "aa", "", "centos", UNCLAIMED, "", "")
  const R2 := Row("10.0.0.2", "bb", "", "centos", UNCLAIMED, "", "")

  lemma MacsDiffer()
    ensures "aa" != "bb" && "" != "bb"
  {
    assert "aa"[0] != "bb"[0];
  }

  lemma IndexOfTwo(a: Row, b: Row)
    ensures IndexOf([]) == map[]
    ensures IndexOf([a]) == map[a.mac := ClientOf(a)]
    ensures IndexOf([a, b]) == map[a.mac := ClientOf(a)][b.mac := ClientOf(b)]
  {
    IndexOfEmpty();
    IndexSnoc([], a);
    IndexSnoc([a], b);
    assert [] + [a] == [a] && [a] + [b] == [a, b];
  }

  /** The inventory can be seen half built: during a repopulation it matches no version the file
      ever had, and the callback of a registered machine is refused. */
  lemma {:induction false} InventorySeenHalfBuilt(inv: Inv.InvState)
    ensures var s := Run(Start([R1, R2], inv), [Spawn(0), Open(0), Begin(0), ScanRow(0)]);
            && s.Some?
            && (forall i :: 0 <= i < |s.value.history| ==> s.value.inv.machines.Keys != IndexOf(s.value.history[i]).Keys)
            && "bb" in s.value.index
            && Inv.HandleCallback(s.value.inv, "bb").1 == Inv.Refused
  {
    hide IndexOf, ClientOf, Inv.RowFiles, PopulateInv, Run;
    var steps := [Spawn(0), Open(0), Begin(0), ScanRow(0)];
    var s0 := Start([R1, R2], inv);
    var s1 := Next(s0, steps[0]).value;
    var s2 := Next(s1, steps[1]).value;
    var s3 := Next(s2, steps[2]).value;
    var s4 := Next(s3, steps[3]).value;
    TraceRuns([s0, s1, s2, s3, s4], steps);
    assert s4.inv.machines.Keys == {R1.mac};
    HalfBuilt(s4);
  }

  lemma HalfBuilt(s: State)
    requires s.history == [[R1, R2]] && s.index == IndexOf([R1, R2]) && s.inv.machines.Keys == {R1.mac}
    ensures "bb" in s.index && Inv.HandleCallback(s.inv, "bb").1 == Inv.Refused
    ensures forall i :: 0 <= i < |s.history| ==> s.inv.machines.Keys != IndexOf(s.history[i]).Keys
  {
    hide IndexOf, ClientOf;
    MacsDiffer();
    IndexOfTwo(R1, R2);
    assert "bb" in IndexOf(s.history[0]).Keys;
  }

  /** Two registrations that both check before either appends break distinctness, and any index
      of the resulting file offers one address twice. */
  lemma {:induction false} UncoordinatedRegistrationsCollide(inv: Inv.InvState)
    ensures var q1, q2 := W.Request("aa", "10.0.0.1", "centos"), W.Request("bb", "10.0.0.1", "centos");
            var s := Run(Start([], inv), [Check(1, q1), Check(2, q2), Append(1), Append(2)]);
            && s.Some?
            && s.value.files == [[W.RegisteredRow(q1), W.RegisteredRow(q2)]]
            && !Distinct(s.value.files[0]) && !OffersInjective(IndexOf(s.value.files[0]))
  {
    hide IndexOf, PopulateInv, Run, Distinct, OffersInjective, ClientOf;
    MacsDiffer();
    var q1, q2 := W.Request("aa", "10.0.0.1", "centos"), W.Request("bb", "10.0.0.1", "centos");
    var r1, r2 := W.RegisteredRow(q1), W.RegisteredRow(q2);
    IndexOfEmpty();
    var steps := [Check(1, q1), Check(2, q2), Append(1), Append(2)];
    var s0 := Start([], inv);
    var s1 := Next(s0, steps[0]).value;
    var s2 := Next(s1, steps[1]).value;
    var s3 := Next(s2, steps[2]).value;
    var s4 := Next(s3, steps[3]).value;
    TraceRuns([s0, s1, s2, s3, s4], steps);
    assert [] + [r1] == [r1] && [r1] + [r2] == [r1, r2];
    assert s3.files[0] == [r1] && s4.files == [[r1, r2]];
    SharedAddress(r1, r2);
  }

  lemma SharedAddress(a: Row, b: Row)
    requires a.mac != b.mac && a.ip == b.ip
    ensures !Distinct([a, b]) && !OffersInjective(IndexOf([a, b]))
  {
    hide IndexOf;
    IndexOfTwo(a, b);
    assert [a, b][0].ip == [a, b][1].ip;
    assert IndexOf([a, b])[a.mac].offerIP == IndexOf([a, b])[b.mac].offerIP;
  }

  // ---------- An old version published last ----------

  /** What the first row read by a scan changes. */
  lemma FirstRow(s: State, t: State, p: nat, row: Row)
    requires CanScan(s, p) && s.procs[p].at == 0 && s.procs[p].built == map[] && NextRow(s, p) == row
    requires t == s.(procs := t.procs, inv := t.inv)
    requires t.procs == s.procs[p := s.procs[p].(at := 1, built := map[row.mac := ClientOf(row)])]
    requires t.inv == Inv.GenerateRow(s.inv, row)
    ensures Next(s, ScanRow(p)) == Some(t)
  {
    hide Inv.GenerateRow, ClientOf;
    assert map[][row.mac := ClientOf(row)] == map[row.mac := ClientOf(row)];
  }

  function Registration(): W.Request
  {
    W.Request("aa", "10.0.0.1", "centos")
  }

  function OldLastSteps(): seq<Step>
  {
    [Spawn(0), Open(0), Begin(0), EndScan(0), Check(1, Registration()), Append(1), Open(1), Begin(1), ScanRow(1),
     EndScan(1), Publish(1), Publish(0)]
  }

  function OldLastState(k: nat, inv: Inv.InvState): State
    requires k <= 12
  {
    var r := W.RegisteredRow(Registration());
    var full: Index := map["aa" := ClientOf(r)];
    var i0 := PopulateInv(inv, []);
    var i1 := Inv.ResetAll(i0);
    var i2 := Inv.ResetAll(i1);
    var i3 := Inv.GenerateRow(i2, r);
    var late, one := Scanned(map[], 0), [[], [r]];
    match k
    case 0 => State([[]], [[]], [0], map[], 0, i0, map[])
    case 1 => State([[]], [[]], [0], map[], 0, i0, map[0 := Ready(false)])
    case 2 => State([[]], [[]], [0], map[], 0, i0, map[0 := Opened(false, 0)])
    case 3 => State([[]], [[]], [0], map[], 0, i1, map[0 := Scanning(false, 0, 0, map[])])
    case 4 => State([[]], [[]], [0], map[], 0, i1, map[0 := late])
    case 5 => State([[]], [[]], [0], map[], 0, i1, map[0 := late, 1 := Checked(Registration())])
    case 6 => State([[r]], one, [1], map[], 0, i1, map[0 := late, 1 := Ready(true)])
    case 7 => State([[r]], one, [1], map[], 0, i1, map[0 := late, 1 := Opened(true, 0)])
    case 8 => State([[r]], one, [1], map[], 0, i2, map[0 := late, 1 := Scanning(true, 0, 0, map[])])
    case 9 => State([[r]], one, [1], map[], 0, i3, map[0 := late, 1 := Scanning(true, 0, 1, full)])
    case 10 => State([[r]], one, [1], map[], 0, i3, map[0 := late, 1 := Scanned(full, 1)])
    case 11 => State([[r]], one, [1], full, 1, i3, map[0 := late])
    case 12 => State([[r]], one, [1], map[], 0, i3, map[])
  }

  lemma OldLastEarly(k: nat, inv: Inv.InvState)
    requires k < 4
    ensures Next(OldLastState(k, inv), OldLastSteps()[k]) == Some(OldLastState(k + 1, inv))
  {
    hide IndexOf, PopulateInv, Inv.GenerateRow, Inv.ResetAll, ClientOf;
    var s, t := OldLastState(k, inv), OldLastState(k + 1, inv);
    assert s.procs[0 := t.procs[0]] == t.procs;
  }

  lemma OldLastMiddle(k: nat, inv: Inv.InvState)
    requires 4 <= k < 8
    ensures Next(OldLastState(k, inv), OldLastSteps()[k]) == Some(OldLastState(k + 1, inv))
  {
    hide IndexOf, PopulateInv, Inv.GenerateRow, Inv.ResetAll, ClientOf;
    var s, t := OldLastState(k, inv), OldLastState(k + 1, inv);
    var r := W.RegisteredRow(Registration());
    assert s.procs[1 := t.procs[1]] == t.procs;
    if k == 5 {
      assert s.files[0] + [r] == [r] && s.files[0 := [r]] == t.files && s.history + [[r]] == t.history;
      assert s.latest[0 := 1] == t.latest;
    }
  }

  lemma OldLastLate(k: nat, inv: Inv.InvState)
    requires 8 <= k < 12
    ensures Next(OldLastState(k, inv), OldLastSteps()[k]) == Some(OldLastState(k + 1, inv))
  {
    hide IndexOf, PopulateInv, Inv.GenerateRow, Inv.ResetAll, ClientOf;
    var s, t := OldLastState(k, inv), OldLastState(k + 1, inv);
    match k
    case 8 =>
      assert s.procs[1 := t.procs[1]] == t.procs;
      FirstRow(s, t, 1, W.RegisteredRow(Registration()));
    case 9 => assert s.procs[1 := t.procs[1]] == t.procs;
    case 10 => assert s.procs - {1} == t.procs;
    case 11 => assert s.procs - {0} == t.procs;
  }

  /** A slow scan can publish an old version over a newer one: the registered client, served a
      moment ago, is gone from the index. */
  lemma {:induction false} OldVersionPublishedLast(inv: Inv.InvState)
    ensures var s := Run(Start([], inv), OldLastSteps()[..11]);
            var t := Run(Start([], inv), OldLastSteps());
            s.Some? && t.Some? && "aa" in s.value.index && "aa" !in t.value.index && t.value.shown < s.value.shown
  {
    hide Run, Next, IndexOf, PopulateInv, OldLastState;
    forall k | 0 <= k < 12
      ensures Next(OldLastState(k, inv), OldLastSteps()[k]) == Some(OldLastState(k + 1, inv))
    {
      if k < 4 {
        OldLastEarly(k, inv);
      } else if k < 8 {
        OldLastMiddle(k, inv);
      } else {
        OldLastLate(k, inv);
      }
    }
    OldLastEnds(inv);
    var early := seq(12, k requires 0 <= k < 12 => OldLastState(k, inv));
    var all := seq(13, k requires 0 <= k < 13 => OldLastState(k, inv));
    TraceRuns(early, OldLastSteps()[..11]);
    TraceRuns(all, OldLastSteps());
  }

  lemma OldLastEnds(inv: Inv.InvState)
    ensures Start([], inv) == OldLastState(0, inv)
    ensures var s, t := OldLastState(11, inv), OldLastState(12, inv);
            "aa" in s.index && "aa" !in t.index && t.shown < s.shown
  {
    hide Next, IndexOf, PopulateInv, ClientOf;
    IndexOfEmpty();
  }

  // ---------- Lasting disagreement ----------

  /** A registration appends a row; the watcher rescans; the registration opens the file for its own scan. */
  function SlowSteps(): seq<Step>
  {
    [Check(0, Registration()), Append(0), Spawn(1), Open(1), Begin(1), ScanRow(1), EndScan(1), Publish(1), Open(0), Begin(0)]
  }

  /** The file is replaced and rescanned by the watcher while the scan of the registration reads on. */
  function StraySteps(): seq<Step>
  {
    [Replace([R2]), Spawn(1), Open(1), Begin(1), ScanRow(1), ScanRow(0), EndScan(0), Publish(0), EndScan(1), Publish(1)]
  }

  function SlowState(k: nat, inv: Inv.InvState): State
    requires k <= 10
  {
    var r := W.RegisteredRow(Registration());
    var x: Index := map["aa" := ClientOf(r)];
    var i0 := PopulateInv(inv, []);
    var i1 := Inv.ResetAll(i0);
    var i2 := Inv.GenerateRow(i1, r);
    var ready, empty, one := Ready(true), [[]], [[], [r]];
    match k
    case 0 => State(empty, empty, [0], map[], 0, i0, map[])
    case 1 => State(empty, empty, [0], map[], 0, i0, map[0 := Checked(Registration())])
    case 2 => State([[r]], one, [1], map[], 0, i0, map[0 := ready])
    case 3 => State([[r]], one, [1], map[], 0, i0, map[0 := ready, 1 := Ready(false)])
    case 4 => State([[r]], one, [1], map[], 0, i0, map[0 := ready, 1 := Opened(false, 0)])
    case 5 => State([[r]], one, [1], map[], 0, i1, map[0 := ready, 1 := Scanning(false, 0, 0, map[])])
    case 6 => State([[r]], one, [1], map[], 0, i2, map[0 := ready, 1 := Scanning(false, 0, 1, x)])
    case 7 => State([[r]], one, [1], map[], 0, i2, map[0 := ready, 1 := Scanned(x, 1)])
    case 8 => State([[r]], one, [1], x, 1, i2, map[0 := ready])
    case 9 => State([[r]], one, [1], x, 1, i2, map[0 := Opened(true, 0)])
    case 10 => StrayState(0, i2)
  }

  /** i2 is the inventory that the watcher's first scan leaves. */
  function StrayState(k: nat, i2: Inv.InvState): State
    requires k <= 10
  {
    var r := W.RegisteredRow(Registration());
    var x: Index := map["aa" := ClientOf(r)];
    var x2: Index := map["bb" := ClientOf(R2)];
    var i3 := Inv.ResetAll(i2);
    var i4 := Inv.ResetAll(i3);
    var i5 := Inv.GenerateRow(i4, R2);
    var i6 := Inv.GenerateRow(i5, r);
    var both, all := [[r], [R2]], [[], [r], [R2]];
    var slow, newer := Scanning(true, 0, 0, map[]), Scanning(false, 1, 1, x2);
    match k
    case 0 => State([[r]], [[], [r]], [1], x, 1, i3, map[0 := slow])
    case 1 => State(both, all, [1, 2], x, 1, i3, map[0 := slow])
    case 2 => State(both, all, [1, 2], x, 1, i3, map[0 := slow, 1 := Ready(false)])
    case 3 => State(both, all, [1, 2], x, 1, i3, map[0 := slow, 1 := Opened(false, 1)])
    case 4 => State(both, all, [1, 2], x, 1, i4, map[0 := slow, 1 := Scanning(false, 1, 0, map[])])
    case 5 => State(both, all, [1, 2], x, 1, i5, map[0 := slow, 1 := newer])
    case 6 => State(both, all, [1, 2], x, 1, i6, map[0 := Scanning(true, 0, 1, x), 1 := newer])
    case 7 => State(both, all, [1, 2], x, 1, i6, map[0 := Scanned(x, 1), 1 := newer])
    case 8 => State(both, all, [1, 2], x, 1, i6, map[1 := newer])
    case 9 => State(both, all, [1, 2], x, 1, i6, map[1 := Scanned(x2, 2)])
    case 10 => State(both, all, [1, 2], x2, 2, i6, map[])
  }

  lemma SlowEarly(k: nat, inv: Inv.InvState)
    requires k < 4
    ensures Next(SlowState(k, inv), SlowSteps()[k]) == Some(SlowState(k + 1, inv))
  {
    hide IndexOf, PopulateInv, Inv.GenerateRow, Inv.ResetAll, ClientOf, StrayState;
    var s, t := SlowState(k, inv), SlowState(k + 1, inv);
    var r := W.RegisteredRow(Registration());
    match k
    case 0 => assert s.procs[0 := t.procs[0]] == t.procs;
    case 1 =>
      assert s.files[0] + [r] == [r] && s.files[0 := [r]] == t.files && s.history + [[r]] == t.history;
      assert s.latest[0 := 1] == t.latest;
      assert s.procs[0 := t.procs[0]] == t.procs;
    case 2 => assert s.procs[1 := t.procs[1]] == t.procs;
    case 3 => assert s.procs[1 := t.procs[1]] == t.procs;
  }

  lemma SlowMiddle(k: nat, inv: Inv.InvState)
    requires 4 <= k < 7
    ensures Next(SlowState(k, inv), SlowSteps()[k]) == Some(SlowState(k + 1, inv))
  {
    hide IndexOf, PopulateInv, Inv.GenerateRow, Inv.ResetAll, ClientOf, StrayState;
    var s, t := SlowState(k, inv), SlowState(k + 1, inv);
    assert s.procs[1 := t.procs[1]] == t.procs;
    if k == 5 {
      FirstRow(s, t, 1, W.RegisteredRow(Registration()));
    }
  }

  lemma SlowLate(k: nat, inv: Inv.InvState)
    requires 7 <= k < 10
    ensures Next(SlowState(k, inv), SlowSteps()[k]) == Some(SlowState(k + 1, inv))
  {
    hide IndexOf, PopulateInv, Inv.GenerateRow, Inv.ResetAll, ClientOf;
    var s, t := SlowState(k, inv), SlowState(k + 1, inv);
    match k
    case 7 => assert s.procs - {1} == t.procs;
    case 8 => assert s.procs[0 := t.procs[0]] == t.procs;
    case 9 => assert s.procs[0 := t.procs[0]] == t.procs;
  }

  lemma StrayEarly(k: nat, i2: Inv.InvState)
    requires k < 4
    ensures Next(StrayState(k, i2), StraySteps()[k]) == Some(StrayState(k + 1, i2))
  {
    hide IndexOf, PopulateInv, Inv.GenerateRow, Inv.ResetAll, ClientOf;
    var s, t := StrayState(k, i2), StrayState(k + 1, i2);
    match k
    case 0 => assert s.files + [[R2]] == t.files && s.history + [[R2]] == t.history && s.latest + [2] == t.latest;
    case 1 => assert s.procs[1 := t.procs[1]] == t.procs;
    case 2 => assert s.procs[1 := t.procs[1]] == t.procs;
    case 3 => assert s.procs[1 := t.procs[1]] == t.procs;
  }

  lemma StrayRow(k: nat, i2: Inv.InvState)
    requires 4 <= k < 6
    ensures Next(StrayState(k, i2), StraySteps()[k]) == Some(StrayState(k + 1, i2))
  {
    hide IndexOf, PopulateInv, Inv.GenerateRow, Inv.ResetAll, ClientOf;
    var s, t := StrayState(k, i2), StrayState(k + 1, i2);
    var p, row := if k == 4 then 1 else 0, if k == 4 then R2 else W.RegisteredRow(Registration());
    assert s.procs[p := t.procs[p]] == t.procs;
    FirstRow(s, t, p, row);
  }

  lemma StrayLate(k: nat, i2: Inv.InvState)
    requires 6 <= k < 10
    ensures Next(StrayState(k, i2), StraySteps()[k]) == Some(StrayState(k + 1, i2))
  {
    hide IndexOf, PopulateInv, Inv.GenerateRow, Inv.ResetAll, ClientOf;
    var s, t := StrayState(k, i2), StrayState(k + 1, i2);
    match k
    case 6 => assert s.procs[0 := t.procs[0]] == t.procs;
    case 7 => assert s.procs - {0} == t.procs;
    case 8 => assert s.procs[1 := t.procs[1]] == t.procs;
    case 9 => assert s.procs - {1} == t.procs;
  }

  function LastingState(k: nat, inv: Inv.InvState): State
    requires k <= 20
  {
    if k < 10 then SlowState(k, inv) else StrayState(k - 10, SlowState(8, inv).inv)
  }

  lemma LastingStep(k: nat, inv: Inv.InvState)
    requires k < 20
    ensures Next(LastingState(k, inv), (SlowSteps() + StraySteps())[k]) == Some(LastingState(k + 1, inv))
  {
    hide Next, IndexOf, PopulateInv, ClientOf, Inv.GenerateRow, Inv.ResetAll, StrayState;
    if k < 4 {
      SlowEarly(k, inv);
    } else if k < 7 {
      SlowMiddle(k, inv);
    } else if k < 10 {
      SlowLate(k, inv);
    } else if k < 14 {
      StrayEarly(k - 10, SlowState(8, inv).inv);
    } else if k < 16 {
      StrayRow(k - 10, SlowState(8, inv).inv);
    } else {
      StrayLate(k - 10, SlowState(8, inv).inv);
    }
  }

  /** The disagreement can last. A registration's scan still reads the old file while the watcher rescans
      the new one. At the end no process is under way and the watcher has rescanned after every
      change, yet the inventory matches no version the file ever had: it lists a machine that the
      index does not. */
  lemma {:induction false} DisagreementLasts(inv: Inv.InvState)
    ensures var s := Run(Start([], inv), SlowSteps() + StraySteps());
            && s.Some? && s.value.procs == map[]
            && |s.value.history| == 3 && s.value.history[2] == [R2] && s.value.index == IndexOf([R2])
            && !Agrees(s.value)
            && (forall i :: 0 <= i < |s.value.history| ==> s.value.inv.machines.Keys != IndexOf(s.value.history[i]).Keys)
  {
    hide Run, Next, IndexOf, PopulateInv, ClientOf, SlowState, StrayState;
    forall k | 0 <= k < 20
      ensures Next(LastingState(k, inv), (SlowSteps() + StraySteps())[k]) == Some(LastingState(k + 1, inv))
    {
      LastingStep(k, inv);
    }
    LastingEnds(inv);
    var all := seq(21, k requires 0 <= k < 21 => LastingState(k, inv));
    TraceRuns(all, SlowSteps() + StraySteps());
  }

  lemma LastingEnds(inv: Inv.InvState)
    ensures Start([], inv) == LastingState(0, inv)
    ensures var s := LastingState(20, inv);
            && s.procs == map[] && |s.history| == 3 && s.history[2] == [R2]
            && s.index == IndexOf([R2]) && s.inv.machines.Keys == {"aa", "bb"} && !Agrees(s)
            && forall i :: 0 <= i < 3 ==> IndexOf(s.history[i]).Keys != {"aa", "bb"}
  {
    hide Next, IndexOf, PopulateInv, ClientOf, Inv.RowFiles;
    MacsDiffer();
    IndexOfTwo(W.RegisteredRow(Registration()), R2);
    IndexOfTwo(R2, R2);
    var s := LastingState(20, inv);
    assert s.inv.machines.Keys == {"aa", "bb"};
    assert "aa" !in IndexOf([R2]).Keys && "bb" !in IndexOf([W.RegisteredRow(Registration())]).Keys;
    assert s.history[0] == [];
  }
}
