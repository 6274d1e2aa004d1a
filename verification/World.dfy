/** The shared state as a whole, under the events that reach it one at a time: a registration, a
    repopulation, an install callback, an operator's edit of the client file. */
module World {
  import opened Text
  import opened Csv
  import opened Templates
  import opened Population
  import Inv = InventorySteps

  datatype World = World(text: string, index: Index, inv: Inv.InvState)

  function Rows(text: string): seq<Row>
  {
    ScanRows(DataLines(text))
  }

  predicate Readable(text: string)
  {
    AllWide(DataLines(text))
  }

  /** One repopulation. A short line aborts it: the rows before it are in the inventory and on disk
      by then, but the index is published last and stays the old one. */
  function Populate(w: World): World
  {
    World(w.text, if Readable(w.text) then IndexOf(Rows(w.text)) else w.index, PopulateInv(w.inv, Rows(w.text)))
  }

  datatype Request = Request(mac: string, ip: string, os: string)

  datatype Reply = BadBody | InvalidOS | MacExists | IPExists | Added | Aborted

  predicate ValidOS(os: string)
  {
    os == "debian" || os == "centos" || os == "ubuntu"
  }

  predicate IPTaken(index: Index, ip: string)
  {
    exists m :: m in index && index[m].offerIP == ip
  }

  predicate Fresh(index: Index, req: Request)
  {
    req.mac !in index && !IPTaken(index, req.ip)
  }

  function Append(text: string, fmt: Format, req: Request): string
  {
    text + RegistrationLine(fmt, req.ip, req.mac, req.os) + "\n"
  }

  /** A registration request, with the line format as a parameter. */
  function Post(fmt: Format, w: World, req: Request): (World, Reply)
  {
    if !ValidOS(req.os) then (w, InvalidOS)
    else if req.mac in w.index then (w, MacExists)
    else if IPTaken(w.index, req.ip) then (w, IPExists)
    else
      var t := w.(text := Append(w.text, fmt, req));
      (Populate(t), if Readable(t.text) then Added else Aborted)
  }

  /** What each reply means. The checks come in this order: an unknown OS, a MAC that is indexed, an address that some
      client is offered. Only past all three is the line appended and the file scanned. */
  lemma {:induction false} ReplyMeans(fmt: Format, w: World, req: Request)
    ensures var (t, r) := Post(fmt, w, req);
            && (r == InvalidOS <==> req.os !in {"debian", "centos", "ubuntu"})
            && (r == MacExists <==> req.os in {"debian", "centos", "ubuntu"} && req.mac in w.index)
            && (r == IPExists <==> req.os in {"debian", "centos", "ubuntu"} && req.mac !in w.index
                                   && exists m :: m in w.index && w.index[m].offerIP == req.ip)
            && (r in {InvalidOS, MacExists, IPExists} ==> t == w)
            && (r !in {InvalidOS, MacExists, IPExists} ==>
                  && t.text == w.text + RegistrationLine(fmt, req.ip, req.mac, req.os) + "\n"
                  && (r == Added <==> Readable(t.text)) && (r == Aborted <==> !Readable(t.text))
                  && t.index == (if r == Added then IndexOf(Rows(t.text)) else w.index)
                  && t.inv == PopulateInv(w.inv, Rows(t.text)))
  {
    hide Readable, Rows, PopulateInv, IndexOf, RegistrationLine;
  }

  /** Reload is the watcher's repopulation, Edit an operator's change of the file before the watcher
      has seen it. */
  datatype Event = Register(req: Request) | Reload | Callback(mac: string) | Edit(text: string)

  /** None is the end of the process. A scan that meets a short line panics. The HTTP server recovers
      that in a registration; in the watcher's goroutine nothing does. */
  function Step(fmt: Format, w: World, e: Event): Option<World>
  {
    match e
    case Register(req) => Some(Post(fmt, w, req).0)
    case Reload => if Readable(w.text) then Some(Populate(w)) else None
    case Callback(mac) => Some(w.(inv := Inv.HandleCallback(w.inv, mac).0))
    case Edit(text) => Some(w.(text := text))
  }

  function Run(fmt: Format, w: World, events: seq<Event>): Option<World>
  {
    if events == [] then Some(w)
    else
      var t :- Run(fmt, w, events[..|events| - 1]);
      Step(fmt, t, events[|events| - 1])
  }

  /** Process start: one repopulation from whatever is on disk, unprotected as in the watcher. */
  function Start(text: string, files: Files, key: string): Option<World>
  {
    if Readable(text) then Some(Populate(World(text, map[], Inv.Boot(files, key)))) else None
  }

  // ---------- Survival ----------

  /** Whether event i is a repopulation that meets a short line. */
  ghost predicate MeetsShortLine(fmt: Format, w: World, events: seq<Event>, i: nat)
    requires i < |events|
  {
    events[i].Reload? && Run(fmt, w, events[..i]).Some? && !Readable(Run(fmt, w, events[..i]).value.text)
  }

  /** A run survives exactly when none of its repopulations by the watcher meets a short line. */
  lemma {:induction false} SurvivesIff(fmt: Format, w: World, events: seq<Event>)
    ensures Run(fmt, w, events).Some? <==> forall i :: 0 <= i < |events| ==> !MeetsShortLine(fmt, w, events, i)
  {
    hide Readable, Post, Populate;
    if events != [] {
      var n := |events| - 1;
      var before := events[..n];
      SurvivesIff(fmt, w, before);
      forall i | 0 <= i < n
        ensures MeetsShortLine(fmt, w, events, i) <==> MeetsShortLine(fmt, w, before, i)
      {
        assert before[..i] == events[..i];
      }
      assert MeetsShortLine(fmt, w, events, n) || events[n].Reload? || Step(fmt, w, events[n]).Some?;
    }
  }

  lemma {:induction false} RunConcat(fmt: Format, w: World, a: seq<Event>, b: seq<Event>)
    ensures Run(fmt, w, a + b) == match Run(fmt, w, a) case None => None case Some(t) => Run(fmt, t, b)
  {
    hide Step;
    if b == [] {
      assert a + b == a;
    } else {
      assert (a + b)[..|a + b| - 1] == a + b[..|b| - 1];
      RunConcat(fmt, w, a, b[..|b| - 1]);
    }
  }

  // ---------- The inventory over every run ----------

  function InvSteps(fmt: Format, w: World, e: Event): seq<Inv.Step>
  {
    match e
    case Register(req) =>
      if ValidOS(req.os) && Fresh(w.index, req) then Pass(Rows(Append(w.text, fmt, req))) else []
    case Reload => Pass(Rows(w.text))
    case Callback(mac) => if mac == "" then [] else [Inv.Callback(mac)]
    case Edit(_) => []
  }

  lemma StepFollows(fmt: Format, w: World, e: Event)
    requires Step(fmt, w, e).Some?
    ensures Step(fmt, w, e).value.inv == Inv.Run(w.inv, InvSteps(fmt, w, e))
  {
    hide Rows, Readable, Append, IndexOf, Pass, IPTaken;
    if e.Callback? && e.mac != "" {
      assert [Inv.Callback(e.mac)][..0] == [];
      assert Inv.Run(w.inv, [Inv.Callback(e.mac)]) == Inv.Apply(w.inv, Inv.Callback(e.mac));
    }
  }

  /** The steps of the inventory machine that these events come to. */
  function StepsOf(fmt: Format, w: World, events: seq<Event>): seq<Inv.Step>
    requires Run(fmt, w, events).Some?
  {
    if events == [] then []
    else
      var before := events[..|events| - 1];
      StepsOf(fmt, w, before) + InvSteps(fmt, Run(fmt, w, before).value, events[|events| - 1])
  }

  lemma {:induction false} RunFollows(fmt: Format, w: World, events: seq<Event>)
    requires Run(fmt, w, events).Some?
    ensures Run(fmt, w, events).value.inv == Inv.Run(w.inv, StepsOf(fmt, w, events))
  {
    hide Step, InvSteps, Inv.Run;
    if events == [] {
      RunNothing(w.inv);
    } else {
      var before, last := events[..|events| - 1], events[|events| - 1];
      RunFollows(fmt, w, before);
      var t := Run(fmt, w, before).value;
      StepFollows(fmt, t, last);
      Inv.RunConcat(w.inv, StepsOf(fmt, w, before), InvSteps(fmt, t, last));
    }
  }

  lemma {:induction false} RunNothing(s: Inv.InvState)
    ensures Inv.Run(s, []) == s
  {
  }

  /** After every surviving run of registrations in either format, repopulations, callbacks and edits,
      from a process with nothing in memory: the chain is closed for every machine, and disk agrees
      with memory if the MACs in the inventory have no '-'. */
  lemma {:induction false} DiskAgreesOverRuns(fmt: Format, w: World, files: Files, key: string, events: seq<Event>)
    requires w.inv == Inv.Boot(files, key) && Run(fmt, w, events).Some?
    ensures var s := Run(fmt, w, events).value.inv;
            && (forall m :: m in s.machines ==> Inv.ChainClosesAt(s, MacAsID(m)))
            && ((forall m :: m in s.machines ==> DashFree(m)) ==> Inv.DiskAgrees(s))
  {
    hide Inv.ChainClosesAt, Inv.DiskAgrees, Inv.Run, Run, MacAsID, DashFree;
    RunFollows(fmt, w, events);
    var steps := StepsOf(fmt, w, events);
    var s := Run(fmt, w, events).value.inv;
    forall m | m in s.machines
      ensures Inv.ChainClosesAt(s, MacAsID(m))
    {
      Inv.ChainCloses(files, key, steps, m);
    }
    if forall m :: m in s.machines ==> DashFree(m) {
      Inv.DiskAgreesWithoutCollisions(files, key, steps);
    }
  }

  predicate Repopulates(w: World, e: Event)
  {
    e.Reload? || (e.Register? && ValidOS(e.req.os) && Fresh(w.index, e.req))
  }

  /** Whether the MAC was called back since the last repopulation, complete or aborted. */
  predicate CalledBackSince(fmt: Format, w: World, events: seq<Event>, mac: string)
    requires Run(fmt, w, events).Some?
  {
    events != [] &&
    var before, last := events[..|events| - 1], events[|events| - 1];
    && !Repopulates(Run(fmt, w, before).value, last)
    && ((last == Callback(mac) && mac != "") || CalledBackSince(fmt, w, before, mac))
  }

  lemma {:induction false} PassForgets(steps: seq<Inv.Step>, rows: seq<Row>, mac: string)
    ensures !Inv.CalledBack(steps + Pass(rows), mac)
  {
    var all := steps + Pass(rows);
    if rows == [] {
      assert Pass([]) == [Inv.Reset];
      assert all[|all| - 1] == Inv.Reset;
    } else {
      PassSnoc(rows);
      assert all[..|all| - 1] == steps + Pass(rows[..|rows| - 1]);
      PassForgets(steps, rows[..|rows| - 1], mac);
    }
  }

  lemma {:induction false} EventSteps(fmt: Format, w: World, e: Event, steps: seq<Inv.Step>, mac: string)
    ensures Inv.CalledBack(steps + InvSteps(fmt, w, e), mac)
       <==> !Repopulates(w, e) && ((e == Callback(mac) && mac != "") || Inv.CalledBack(steps, mac))
  {
    hide Pass, Rows, Append, IPTaken;
    if Repopulates(w, e) {
      PassForgets(steps, Rows(if e.Reload? then w.text else Append(w.text, fmt, e.req)), mac);
    } else if e.Callback? && e.mac != "" {
      assert (steps + [Inv.Callback(e.mac)])[..|steps|] == steps;
    } else {
      assert steps + InvSteps(fmt, w, e) == steps;
    }
  }

  lemma {:induction false} CalledBackFollows(fmt: Format, w: World, events: seq<Event>, mac: string)
    requires Run(fmt, w, events).Some?
    ensures Inv.CalledBack(StepsOf(fmt, w, events), mac) <==> CalledBackSince(fmt, w, events, mac)
  {
    hide Step, InvSteps, Repopulates;
    if events != [] {
      var before := events[..|events| - 1];
      CalledBackFollows(fmt, w, before, mac);
      EventSteps(fmt, Run(fmt, w, before).value, events[|events| - 1], StepsOf(fmt, w, before), mac);
    }
  }

  /** Over every surviving run from a process with nothing in memory, a machine is flagged, and shared by
      both maps, exactly when it was called back since the last repopulation. */
  lemma {:induction false} FlaggedIff(fmt: Format, w: World, files: Files, key: string, events: seq<Event>, mac: string)
    requires w.inv == Inv.Boot(files, key) && Run(fmt, w, events).Some?
    requires mac in Run(fmt, w, events).value.inv.machines
    ensures var s := Run(fmt, w, events).value.inv;
            && (s.machines[mac].installed <==> CalledBackSince(fmt, w, events, mac))
            && (mac in s.aliased <==> CalledBackSince(fmt, w, events, mac))
  {
    hide Run, Inv.Run, StepsOf, CalledBackSince;
    RunFollows(fmt, w, events);
    CalledBackFollows(fmt, w, events, mac);
    Inv.InstalledIffCalledBack(files, key, StepsOf(fmt, w, events), mac);
  }

  /** An edit of the file takes effect at the next repopulation, which survives exactly when every
      line of the new text can be read; whatever was published before plays no part. */
  lemma {:induction false} EditTakesEffect(fmt: Format, w: World, text: string)
    ensures var t := Run(fmt, w, [Edit(text), Reload]);
            && (t.Some? <==> Readable(text))
            && (t.Some? ==> t.value.text == text && t.value.index == IndexOf(Rows(text))
                            && t.value.inv.machines.Keys == IndexOf(Rows(text)).Keys)
  {
    hide Readable, Rows, IndexOf, PopulateInv;
    var events := [Edit(text), Reload];
    assert events[..1] == [Edit(text)] && events[..1][..0] == [];
    assert Run(fmt, w, events[..1]) == Some(w.(text := text));
    InventoryMatchesIndex(w.inv, Rows(text));
  }

  // ---------- Distinct addresses over every run ----------

  /** The file is complete and readable, its MACs and its addresses are distinct. */
  ghost predicate GoodText(text: string)
  {
    EndsWithNewline(text) && Readable(text) && Distinct(Rows(text))
  }

  /** In addition the published index is the index of exactly this file. */
  ghost predicate Synced(w: World)
  {
    GoodText(w.text) && w.index == IndexOf(Rows(w.text))
  }

  /** Requests have no comma or newline in MAC and address; edits leave a good file, and the watcher
      sees each of them before anything else happens. */
  ghost predicate CleanEvents(events: seq<Event>)
  {
    forall i :: 0 <= i < |events| ==> CleanAt(events, i)
  }

  ghost predicate CleanAt(events: seq<Event>, i: nat)
    requires i < |events|
  {
    match events[i]
    case Register(req) => Clean(req.ip) && Clean(req.mac)
    case Edit(text) => GoodText(text) && (i + 1 < |events| ==> events[i + 1].Reload?)
    case _ => true
  }

  lemma CleanPrefix(events: seq<Event>)
    requires events != [] && CleanEvents(events)
    ensures CleanEvents(events[..|events| - 1])
  {
    hide GoodText, Clean;
    var before := events[..|events| - 1];
    forall i | 0 <= i < |before|
      ensures CleanAt(before, i)
    {
      assert CleanAt(events, i);
    }
  }

  function RegisteredRow(req: Request): Row
  {
    Row(req.ip, req.mac, "pxelinux.0", req.os, UNCLAIMED, "", "")
  }

  /** A padded registration adds exactly its row at the end of a readable file. */
  lemma PaddedAppend(text: string, req: Request)
    requires EndsWithNewline(text) && Readable(text)
    requires Clean(req.ip) && Clean(req.mac) && Clean(req.os)
    ensures var t := Append(text, Padded, req);
            EndsWithNewline(t) && Readable(t) && Rows(t) == Rows(text) + [RegisteredRow(req)]
  {
    var line := RegistrationLine(Padded, req.ip, req.mac, req.os);
    PaddedLine(req.ip, req.mac, req.os);
    AppendAddsLineIff(text, line);
    ScanRowsConcat(DataLines(text), [line]);
    SingleRow(line);
    AllWideConcat(DataLines(text), [line]);
  }

  lemma SingleRow(line: string)
    requires Wide(line)
    ensures ScanRows([line]) == [RowOf(line)]
  {
    assert [line][1..] == [];
    assert ScanRows([]) == [];
  }

  lemma AllWideConcat(a: seq<string>, b: seq<string>)
    ensures AllWide(a + b) <==> AllWide(a) && AllWide(b)
  {
    if AllWide(a + b) {
      assert forall i :: 0 <= i < |a| ==> a[i] == (a + b)[i];
      assert forall i :: 0 <= i < |b| ==> b[i] == (a + b)[|a| + i];
    }
  }

  lemma {:induction false} FreshInRows(rows: seq<Row>, req: Request)
    requires Distinct(rows)
    ensures Fresh(IndexOf(rows), req)
       <==> forall i :: 0 <= i < |rows| ==> rows[i].mac != req.mac && rows[i].ip != req.ip
  {
    IndexOfDistinct(rows);
    if Fresh(IndexOf(rows), req) {
      forall i | 0 <= i < |rows|
        ensures rows[i].mac != req.mac && rows[i].ip != req.ip
      {
        assert IndexOf(rows)[rows[i].mac].offerIP == rows[i].ip;
      }
    }
  }

  /** A registration is accepted exactly when no row of the file has its MAC or its address, and
      then the row is on file and served. */
  lemma {:induction false} PostKeepsSynced(w: World, req: Request)
    requires Synced(w) && Clean(req.ip) && Clean(req.mac)
    ensures var (t, r) := Post(Padded, w, req);
            && Synced(t)
            && r != Aborted && r != BadBody
            && (r == Added <==> ValidOS(req.os) && forall i :: 0 <= i < |Rows(w.text)| ==>
                                                   Rows(w.text)[i].mac != req.mac && Rows(w.text)[i].ip != req.ip)
            && Rows(t.text) == Rows(w.text) + (if r == Added then [RegisteredRow(req)] else [])
            && (r == Added ==> req.mac in t.index && t.index[req.mac] == ClientOf(RegisteredRow(req)))
  {
    FreshInRows(Rows(w.text), req);
    if ValidOS(req.os) && Fresh(w.index, req) {
      OsIsClean(req.os);
      PaddedAppend(w.text, req);
      DistinctSnoc(Rows(w.text), RegisteredRow(req));
    }
  }

  lemma {:induction false} DistinctSnoc(rows: seq<Row>, row: Row)
    requires Distinct(rows)
    requires forall i :: 0 <= i < |rows| ==> rows[i].mac != row.mac && rows[i].ip != row.ip
    ensures Distinct(rows + [row])
    ensures row.mac in IndexOf(rows + [row]) && IndexOf(rows + [row])[row.mac] == ClientOf(row)
  {
    assert (rows + [row])[..|rows + [row]| - 1] == rows;
  }

  /** A padded line keeps a good file good exactly when its MAC and its address are new to the file:
      it is the file that matters, not the index that the handler asks. */
  lemma {:induction false} PaddedAppendGoodIff(text: string, req: Request)
    requires GoodText(text) && Clean(req.ip) && Clean(req.mac) && Clean(req.os)
    ensures GoodText(Append(text, Padded, req))
       <==> forall i :: 0 <= i < |Rows(text)| ==> Rows(text)[i].mac != req.mac && Rows(text)[i].ip != req.ip
  {
    hide Rows, EndsWithNewline, Readable, Append;
    PaddedAppend(text, req);
    var rows, all := Rows(text), Rows(Append(text, Padded, req));
    if Distinct(all) {
      forall i | 0 <= i < |rows|
        ensures rows[i].mac != req.mac && rows[i].ip != req.ip
      {
        assert all[i] == rows[i] && all[|rows|] == RegisteredRow(req);
      }
    }
  }

  lemma OsIsClean(os: string)
    requires ValidOS(os)
    ensures Clean(os)
  {
  }

  lemma ReloadSyncs(w: World)
    requires GoodText(w.text)
    ensures Step(Padded, w, Reload) == Some(Populate(w)) && Synced(Populate(w)) && Populate(w).text == w.text
  {
    hide Rows, EndsWithNewline, Distinct, IndexOf, PopulateInv;
  }

  lemma QuietKeepsSynced(w: World, e: Event)
    requires e.Callback? || e.Edit?
    ensures Step(Padded, w, e).Some? && Step(Padded, w, e).value.index == w.index
    ensures e.Callback? ==> Step(Padded, w, e).value.text == w.text
  {
    hide Inv.HandleCallback;
  }

  lemma SyncedOffers(w: World)
    requires Synced(w)
    ensures OffersInjective(w.index)
  {
    hide Rows, GoodText, IndexOf, OffersInjective;
    assert Distinct(Rows(w.text)) by { GoodIsDistinct(w.text); }
    DistinctOffers(Rows(w.text));
  }

  lemma GoodIsDistinct(text: string)
    requires GoodText(text)
    ensures Distinct(Rows(text))
  {
  }

  /** Every serialised run of padded registrations, repopulations, callbacks and promptly reloaded
      edits survives, keeps MACs and addresses distinct in the file, and offers no address twice; it
      loses no row unless an edit does. */
  lemma {:induction false} DistinctOverRuns(w: World, events: seq<Event>)
    requires Synced(w) && CleanEvents(events)
    ensures Run(Padded, w, events).Some?
    ensures var t := Run(Padded, w, events).value;
            && GoodText(t.text) && OffersInjective(t.index)
            && (events == [] || !events[|events| - 1].Edit? ==> Synced(t))
            && ((forall i :: 0 <= i < |events| ==> !events[i].Edit?) ==> Rows(w.text) <= Rows(t.text))
  {
    hide GoodText, Rows, Step, OffersInjective, Clean, IndexOf;
    if events == [] {
      SyncedOffers(w);
    } else {
      var before, last := events[..|events| - 1], events[|events| - 1];
      assert forall i :: 0 <= i < |before| ==> before[i] == events[i];
      CleanPrefix(events);
      assert CleanAt(events, |events| - 1);
      assert before != [] ==> CleanAt(events, |events| - 2);
      DistinctOverRuns(w, before);
      var t := Run(Padded, w, before).value;
      assert last.Reload? || before == [] || !before[|before| - 1].Edit?;
      match last
      case Register(req) =>
        PostKeepsSynced(t, req);
        RegisterStep(t, req);
        SyncedOffers(Post(Padded, t, req).0);
      case Reload =>
        ReloadSyncs(t);
        SyncedOffers(Populate(t));
      case _ =>
        QuietKeepsSynced(t, last);
        EditText(t, last);
    }
  }

  lemma RegisterStep(w: World, req: Request)
    ensures Step(Padded, w, Register(req)) == Some(Post(Padded, w, req).0)
  {
  }

  lemma EditText(w: World, e: Event)
    ensures e.Edit? ==> Step(Padded, w, e).value.text == e.text
  {
  }

  // ---------- The line as it is printed ----------

  function Commas(req: Request): nat
  {
    multiset(req.ip)[','] + multiset(req.mac)[','] + multiset(req.os)[',']
  }

  predicate NewlineFreeRequest(req: Request)
  {
    '\n' !in req.ip && '\n' !in req.mac && '\n' !in req.os
  }

  /** After a registration as printed the file can be read exactly when it could before and the
      request itself carried three commas. */
  lemma {:induction false} PrintedReadableIff(text: string, req: Request)
    requires EndsWithNewline(text) && NewlineFreeRequest(req)
    ensures Readable(Append(text, AsPrinted, req)) <==> Readable(text) && Commas(req) >= 3
  {
    var line := RegistrationLine(AsPrinted, req.ip, req.mac, req.os);
    NewlineFree(req.ip, req.mac, req.os);
    AppendAddsLineIff(text, line);
    RegistrationWidth(req.ip, req.mac, req.os);
    AllWideConcat(DataLines(text), [line]);
    assert AllWide([line]) <==> Wide(line) by {
      assert [line][0] == line;
    }
  }

  lemma AppendEnds(text: string, fmt: Format, req: Request)
    ensures EndsWithNewline(Append(text, fmt, req))
  {
  }

  /** Edits leave whole lines, and requests have no newline. */
  predicate Tidy(e: Event)
  {
    match e
    case Edit(text) => EndsWithNewline(text)
    case Register(req) => NewlineFreeRequest(req)
    case _ => true
  }

  /** Whether the file was put in place with a short line, or a registration accepted since then carried
      fewer than three commas. */
  predicate Damaged(w: World, events: seq<Event>)
    requires Run(AsPrinted, w, events).Some?
  {
    if events == [] then !Readable(w.text)
    else
      var before, last := events[..|events| - 1], events[|events| - 1];
      match last
      case Edit(text) => !Readable(text)
      case Register(req) =>
        Damaged(w, before) || (Repopulates(Run(AsPrinted, w, before).value, last) && Commas(req) < 3)
      case _ => Damaged(w, before)
  }

  /** Whether the next scan of a run gets through, read off its edits and the registrations it accepted. */
  lemma {:induction false} ReadableIff(w: World, events: seq<Event>)
    requires Run(AsPrinted, w, events).Some?
    requires EndsWithNewline(w.text) && forall i :: 0 <= i < |events| ==> Tidy(events[i])
    ensures EndsWithNewline(Run(AsPrinted, w, events).value.text)
    ensures Readable(Run(AsPrinted, w, events).value.text) <==> !Damaged(w, events)
  {
    hide Step, EndsWithNewline, Readable, Commas, NewlineFreeRequest;
    if events != [] {
      var before, last := events[..|events| - 1], events[|events| - 1];
      assert forall i :: 0 <= i < |before| ==> before[i] == events[i];
      ReadableIff(w, before);
      var t := Run(AsPrinted, w, before).value;
      TextOfStep(AsPrinted, t, last);
      assert Tidy(last);
      if last.Register? {
        PrintedReadableIff(t.text, last.req);
        AppendEnds(t.text, AsPrinted, last.req);
      }
    }
  }

  function TextAfter(fmt: Format, w: World, e: Event): string
  {
    match e
    case Register(req) => if Repopulates(w, e) then Append(w.text, fmt, req) else w.text
    case Edit(text) => text
    case _ => w.text
  }

  lemma TextOfStep(fmt: Format, w: World, e: Event)
    requires Step(fmt, w, e).Some?
    ensures Step(fmt, w, e).value.text == TextAfter(fmt, w, e)
  {
    hide Readable, Append, Inv.HandleCallback, IPTaken;
  }

  /** The fields of the printed line: an address that carries commas shifts the others. */
  lemma PrintedFields(ip: string, mac: string, os: string)
    requires ValidOS(os)
    ensures var line := RegistrationLine(AsPrinted, ip, mac, os);
            && Split(line, ',') == Split(ip, ',') + Split(mac, ',') + ["pxelinux.0", os]
            && '\n' !in os
  {
    hide Split;
    Join4(ip, mac, "pxelinux.0", os);
    OsIsClean(os);
    SplitFree("pxelinux.0", ',');
    SplitFree(os, ',');
    SplitConcat("pxelinux.0", os, ',');
    SplitConcat(mac, "pxelinux.0" + [','] + os, ',');
    SplitConcat(ip, mac + [','] + ("pxelinux.0" + [','] + os), ',');
    assert ip + [','] + (mac + [','] + ("pxelinux.0" + [','] + os))
        == RegistrationLine(AsPrinted, ip, mac, os);
  }

  /** The address alone prints a whole row of the requested MAC. */
  predicate CarriesOwnRow(req: Request)
  {
    |Split(req.ip, ',')| >= 4 && Split(req.ip, ',')[1] == req.mac
  }

  lemma ReadsAsOwnRowIff(ip: string, mac: string, os: string)
    requires ValidOS(os)
    ensures var line := RegistrationLine(AsPrinted, ip, mac, os);
            && (Wide(line) && RowOf(line).mac == mac <==> CarriesOwnRow(Request(mac, ip, os)))
            && (CarriesOwnRow(Request(mac, ip, os)) ==> RowOf(line).ip == Split(ip, ',')[0])
  {
    hide Split;
    PrintedFields(ip, mac, os);
    SplitPiecesFree(ip, ',');
    SplitPiecesFree(mac, ',');
    var p, q := Split(ip, ','), Split(mac, ',');
    assert p[0] in p && q[0] in q && (|p| > 1 ==> p[1] in p);
    if ',' !in mac {
      SplitFree(mac, ',');
    }
  }

  /** When a registration as printed takes effect: from a published readable file, an accepted request
      is served afterwards exactly when its address carries a whole row of its MAC; then it is
      offered the first piece of that address. */
  lemma {:induction false} PrintedServedIff(w: World, req: Request)
    requires EndsWithNewline(w.text) && Readable(w.text) && w.index == IndexOf(Rows(w.text))
    requires ValidOS(req.os) && Fresh(w.index, req) && NewlineFreeRequest(req)
    ensures var t := Post(AsPrinted, w, req).0;
            && (req.mac in t.index <==> CarriesOwnRow(req))
            && (CarriesOwnRow(req) ==> t.index[req.mac].offerIP == Split(req.ip, ',')[0])
  {
    hide RegistrationLine, DataLines, EndsWithNewline, Split, IndexOf, PopulateInv, Wide, RowOf, AllWide, CarriesOwnRow, ClientOf;
    var line := RegistrationLine(AsPrinted, req.ip, req.mac, req.os);
    PrintedReadableIff(w.text, req);
    ReadsAsOwnRowIff(req.ip, req.mac, req.os);
    RegistrationWidth(req.ip, req.mac, req.os);
    if Wide(line) {
      NewlineFree(req.ip, req.mac, req.os);
      AppendAddsLineIff(w.text, line);
      ScanRowsConcat(DataLines(w.text), [line]);
      SingleRow(line);
      LastOneServed(Rows(w.text), RowOf(line));
    }
  }

  lemma LastOneServed(rows: seq<Row>, row: Row)
    ensures var index := IndexOf(rows + [row]);
            && index == IndexOf(rows)[row.mac := ClientOf(row)]
            && index[row.mac].offerIP == row.ip
  {
    assert (rows + [row])[..|rows + [row]| - 1] == rows;
  }

  /** The scan cannot get through this file, and appended lines stay separate lines. */
  predicate Stuck(text: string)
  {
    EndsWithNewline(text) && !Readable(text)
  }

  /** Anything but a repopulation by the watcher or an edit. */
  predicate Untouched(e: Event)
  {
    !e.Reload? && !e.Edit? && (e.Register? ==> NewlineFreeRequest(e.req))
  }

  lemma AppendKeepsStuck(text: string, req: Request)
    requires Stuck(text) && NewlineFreeRequest(req)
    ensures Stuck(Append(text, AsPrinted, req))
  {
    PrintedReadableIff(text, req);
    AppendEnds(text, AsPrinted, req);
  }

  lemma PostEffect(fmt: Format, w: World, req: Request)
    ensures var t := Post(fmt, w, req).0;
            t == w || t == Populate(w.(text := Append(w.text, fmt, req)))
  {
  }

  lemma PopulateEffect(w: World)
    ensures Populate(w).text == w.text
    ensures !Readable(w.text) ==> Populate(w).index == w.index
  {
  }

  lemma StepKeepsStuck(w: World, e: Event)
    requires Stuck(w.text) && Untouched(e)
    ensures Step(AsPrinted, w, e).Some?
    ensures Stuck(Step(AsPrinted, w, e).value.text) && Step(AsPrinted, w, e).value.index == w.index
  {
    match e
    case Register(req) =>
      AppendKeepsStuck(w.text, req);
      PostEffect(AsPrinted, w, req);
      PopulateEffect(w.(text := Append(w.text, AsPrinted, req)));
    case Callback(mac) =>
  }

  /** An unreadable file stays unreadable, and the index it left behind stays published, until an
      edit. */
  lemma {:induction false} StuckUntilTouched(w: World, events: seq<Event>)
    requires Stuck(w.text)
    requires forall i :: 0 <= i < |events| ==> Untouched(events[i])
    ensures Run(AsPrinted, w, events).Some?
    ensures Stuck(Run(AsPrinted, w, events).value.text) && Run(AsPrinted, w, events).value.index == w.index
  {
    if events != [] {
      var before := events[..|events| - 1];
      assert forall i :: 0 <= i < |before| ==> before[i] == events[i];
      StuckUntilTouched(w, before);
      StepKeepsStuck(Run(AsPrinted, w, before).value, events[|events| - 1]);
    }
  }

  lemma PostedText(w: World, req: Request)
    requires EndsWithNewline(w.text) && NewlineFreeRequest(req) && Commas(req) < 3
    requires ValidOS(req.os) && Fresh(w.index, req)
    ensures var (t, r) := Post(AsPrinted, w, req);
            r == Aborted && t.text == Append(w.text, AsPrinted, req) && t.index == w.index && Stuck(t.text)
    ensures DataLines(Append(w.text, AsPrinted, req))
         == DataLines(w.text) + [RegistrationLine(AsPrinted, req.ip, req.mac, req.os)]
  {
    hide RegistrationLine, DataLines, AllWide;
    PrintedReadableIff(w.text, req);
    AppendEnds(w.text, AsPrinted, req);
    NewlineFree(req.ip, req.mac, req.os);
    AppendAddsLineIff(w.text, RegistrationLine(AsPrinted, req.ip, req.mac, req.os));
  }

  /** The world after an accepted registration as printed and any untouched events. */
  function AfterPrinted(w: World, req: Request, events: seq<Event>): Option<World>
  {
    Run(AsPrinted, Post(AsPrinted, w, req).0, events)
  }

  /** An accepted registration as printed aborts its own repopulation. Whatever else is registered or
      called back after it, the process lives on with the index it had, and the same request is
      accepted again; but the next repopulation by the watcher, and every process start from this
      file, ends the process. */
  lemma {:induction false} PrintedRegistrationFreezes(w: World, req: Request, events: seq<Event>)
    requires EndsWithNewline(w.text) && NewlineFreeRequest(req) && Commas(req) < 3
    requires ValidOS(req.os) && Fresh(w.index, req)
    requires forall i :: 0 <= i < |events| ==> Untouched(events[i])
    ensures Post(AsPrinted, w, req).1 == Aborted
    ensures var u := AfterPrinted(w, req, events);
            && u.Some? && u.value.index == w.index
            && Post(AsPrinted, u.value, req).1 == Aborted
            && Post(AsPrinted, u.value, req).0.text == Append(u.value.text, AsPrinted, req)
            && Step(AsPrinted, u.value, Reload) == None
            && (forall files, key :: Start(u.value.text, files, key) == None)
  {
    hide DataLines, AllWide, Append, Commas, EndsWithNewline, Fresh, Post;
    PostedText(w, req);
    StuckUntilTouched(Post(AsPrinted, w, req).0, events);
    var u := AfterPrinted(w, req, events).value;
    StuckEnds(u.text);
    PostedText(u, req);
  }

  lemma StuckEnds(text: string)
    requires Stuck(text)
    ensures EndsWithNewline(text) && !Readable(text)
  {
  }

  /** So a run that reaches the watcher before an edit is over, whatever would follow. */
  lemma {:induction false} PrintedRegistrationEndsTheProcess(w: World, req: Request, events: seq<Event>, rest: seq<Event>)
    requires EndsWithNewline(w.text) && NewlineFreeRequest(req) && Commas(req) < 3
    requires ValidOS(req.os) && Fresh(w.index, req)
    requires forall i :: 0 <= i < |events| ==> Untouched(events[i])
    ensures AfterPrinted(w, req, events + [Reload] + rest) == None
  {
    hide Post, Step, Append, Commas, Fresh, EndsWithNewline;
    PrintedRegistrationFreezes(w, req, events);
    var t := Post(AsPrinted, w, req).0;
    RunConcat(AsPrinted, t, events + [Reload], rest);
    assert (events + [Reload])[..|events + [Reload]| - 1] == events;
  }

  /** Until then registrations do not even stay distinct: the same request is on file twice. */
  lemma {:induction false} PrintedAcceptedTwice(w: World, req: Request, events: seq<Event>)
    requires EndsWithNewline(w.text) && NewlineFreeRequest(req) && Commas(req) < 3
    requires ValidOS(req.os) && Fresh(w.index, req)
    requires forall i :: 0 <= i < |events| ==> events[i].Callback?
    ensures var line := RegistrationLine(AsPrinted, req.ip, req.mac, req.os);
            var t := AfterPrinted(w, req, events + [Register(req)]);
            t.Some? && DataLines(t.value.text) == DataLines(w.text) + [line, line]
  {
    hide RegistrationLine, DataLines, AllWide, EndsWithNewline, Post, Append, Commas, Fresh;
    PostedText(w, req);
    var t := Post(AsPrinted, w, req).0;
    CallbacksKeepText(t, events);
    var u := Run(AsPrinted, t, events).value;
    StuckEnds(t.text);
    PostedText(u, req);
    var all := events + [Register(req)];
    assert all[..|all| - 1] == events;
  }

  lemma {:induction false} CallbacksKeepText(w: World, events: seq<Event>)
    requires forall i :: 0 <= i < |events| ==> events[i].Callback?
    ensures Run(AsPrinted, w, events).Some?
    ensures Run(AsPrinted, w, events).value.text == w.text && Run(AsPrinted, w, events).value.index == w.index
  {
    hide Inv.HandleCallback;
    if events != [] {
      var before := events[..|events| - 1];
      assert forall i :: 0 <= i < |before| ==> before[i] == events[i];
      CallbacksKeepText(w, before);
    }
  }
}
