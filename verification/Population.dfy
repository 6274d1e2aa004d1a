/** What one pass over the client file should produce: the client index, the inventory, the
    generated files and the rows grouped by cluster. Pure folds over the rows, with the laws that
    relate them. */
module Population {
  import opened Text
  import opened Orders
  import opened Csv
  import opened Templates
  import opened InventorySteps

  // ---------- The client index ----------

  /** The machine is a copy of the inventory object, not the object. */
  datatype Client = Client(offerIP: string, mac: string, bootFileUrl: string, osType: string, machine: Machine)

  type Index = map<string, Client>

  function ClientOf(row: Row): Client
  {
    Client(row.ip, row.mac, row.bootFile, row.os, MachineOf(row))
  }

  function IndexOf(rows: seq<Row>): Index
  {
    if rows == [] then map[]
    else
      var last := rows[|rows| - 1];
      IndexOf(rows[..|rows| - 1])[last.mac := ClientOf(last)]
  }

  /** The last row of a MAC. */
  function LastOf(rows: seq<Row>, mac: string): Option<Row>
  {
    if rows == [] then None
    else if rows[|rows| - 1].mac == mac then Some(rows[|rows| - 1])
    else LastOf(rows[..|rows| - 1], mac)
  }

  /** The last row whose MAC has this id. */
  function LastOfID(rows: seq<Row>, id: string): Option<Row>
  {
    if rows == [] then None
    else if MacAsID(rows[|rows| - 1].mac) == id then Some(rows[|rows| - 1])
    else LastOfID(rows[..|rows| - 1], id)
  }

  lemma {:induction false} LastOfIsLast(rows: seq<Row>, mac: string)
    ensures LastOf(rows, mac).None? <==> forall i :: 0 <= i < |rows| ==> rows[i].mac != mac
    ensures LastOf(rows, mac).Some? ==>
              exists i :: 0 <= i < |rows| && rows[i] == LastOf(rows, mac).value && rows[i].mac == mac
                          && forall j :: i < j < |rows| ==> rows[j].mac != mac
  {
    if rows != [] {
      var before := rows[..|rows| - 1];
      LastOfIsLast(before, mac);
      if rows[|rows| - 1].mac != mac {
        assert forall i :: 0 <= i < |before| ==> before[i] == rows[i];
      }
    }
  }

  /** Repeated MACs: the last row wins. */
  lemma {:induction false} IndexIsLastWins(rows: seq<Row>, mac: string)
    ensures mac in IndexOf(rows) <==> LastOf(rows, mac).Some?
    ensures mac in IndexOf(rows) ==> IndexOf(rows)[mac] == ClientOf(LastOf(rows, mac).value)
  {
    if rows != [] {
      IndexIsLastWins(rows[..|rows| - 1], mac);
    }
  }

  predicate Distinct(rows: seq<Row>)
  {
    forall i, j :: 0 <= i < j < |rows| ==> rows[i].mac != rows[j].mac && rows[i].ip != rows[j].ip
  }

  lemma {:induction false} IndexOfDistinct(rows: seq<Row>)
    requires Distinct(rows)
    ensures forall i :: 0 <= i < |rows| ==>
              rows[i].mac in IndexOf(rows) && IndexOf(rows)[rows[i].mac] == ClientOf(rows[i])
    ensures forall m :: m in IndexOf(rows) ==> exists i :: 0 <= i < |rows| && rows[i].mac == m
  {
    if rows != [] {
      IndexOfDistinct(rows[..|rows| - 1]);
      assert forall i :: 0 <= i < |rows| - 1 ==> rows[..|rows| - 1][i] == rows[i];
    }
  }

  ghost predicate OffersInjective(index: Index)
  {
    forall a, b :: a in index && b in index && a != b ==> index[a].offerIP != index[b].offerIP
  }

  lemma {:induction false} DistinctOffers(rows: seq<Row>)
    requires Distinct(rows)
    ensures OffersInjective(IndexOf(rows))
  {
    IndexOfDistinct(rows);
  }

  // ---------- The inventory after one pass ----------

  function Pass(rows: seq<Row>): seq<Step>
  {
    [Reset] + Generates(rows)
  }

  function PopulateInv(s: InvState, rows: seq<Row>): InvState
  {
    Run(s, Pass(rows))
  }

  lemma PassSnoc(rows: seq<Row>)
    requires rows != []
    ensures Pass(rows)[..|Pass(rows)| - 1] == Pass(rows[..|rows| - 1])
    ensures Pass(rows)[|Pass(rows)| - 1] == Generate(rows[|rows| - 1])
  {
  }

  lemma PassEmpty(s: InvState)
    ensures PopulateInv(s, []) == ResetAll(s)
  {
    assert Pass([]) == [Reset];
    assert Run(s, [Reset][..0]) == s;
  }

  /** The scan loop: one more row. */
  lemma {:induction false} PopulateSnoc(s: InvState, rows: seq<Row>, row: Row)
    ensures PopulateInv(s, rows + [row]) == GenerateRow(PopulateInv(s, rows), row)
    ensures IndexOf(rows + [row]) == IndexOf(rows)[row.mac := ClientOf(row)]
    ensures GroupRows(rows + [row]) == AddToGroup(GroupRows(rows), row)
  {
    PassSnoc(rows + [row]);
    assert (rows + [row])[..|rows + [row]| - 1] == rows;
  }

  lemma {:induction false} PopulateFromBoot(s: InvState, rows: seq<Row>)
    ensures PopulateInv(s, rows) == Run(Boot(s.files, s.sshKey), Pass(rows))
    decreases |rows|
  {
    if rows == [] {
      PassEmpty(s);
      PassEmpty(Boot(s.files, s.sshKey));
    } else {
      PassSnoc(rows);
      PopulateFromBoot(s, rows[..|rows| - 1]);
    }
  }

  /** Index and inventory come from the same rows: same keys, and the record copied into a client
      is the inventory record. */
  lemma {:induction false} InventoryMatchesIndex(s: InvState, rows: seq<Row>)
    ensures var t := PopulateInv(s, rows);
            && t.machines.Keys == IndexOf(rows).Keys
            && (forall m :: m in t.machines ==> t.machines[m] == IndexOf(rows)[m].machine)
            && t.installed == {} && t.aliased == {} && t.sshKey == s.sshKey
  {
    hide RowFiles, MachineOf;
    if rows == [] {
      PassEmpty(s);
    } else {
      PassSnoc(rows);
      InventoryMatchesIndex(s, rows[..|rows| - 1]);
    }
  }

  /** Client and machine agree field by field until a callback flags the machine; the client never
      sees that, it holds a copy. The OS columns differ exactly for an unknown OS, which only the
      client keeps. */
  ghost predicate Agree(c: Client, m: Machine)
  {
    && c.machine == m.(installed := false)
    && c.offerIP == m.ip
    && MacAsID(c.mac) == m.id
    && (c.osType == m.osType <==> Known(c.osType) || c.osType == "")
  }

  lemma {:induction false} CallbacksKeepMachines(s: InvState, macs: seq<string>)
    ensures var t := Run(s, Callbacks(macs));
            && t.machines.Keys == s.machines.Keys
            && (forall m :: m in s.machines ==>
                  t.machines[m] == s.machines[m].(installed := s.machines[m].installed || m in macs))
  {
    hide WriteBootFiles;
    if macs != [] {
      var before, last := macs[..|macs| - 1], macs[|macs| - 1];
      var cs := Callbacks(macs);
      assert cs[..|cs| - 1] == Callbacks(before) && cs[|cs| - 1] == Callback(last);
      CallbacksKeepMachines(s, before);
      assert macs == before + [last];
      assert forall m :: m in macs <==> m in before || m == last;
    }
  }

  /** Between repopulations the installed map has exactly the flagged machines as keys, and its
      entries are the very objects of the machine map. */
  lemma {:induction false} InstalledMapIsFlagged(s: InvState, rows: seq<Row>, macs: seq<string>)
    ensures var t := Run(PopulateInv(s, rows), Callbacks(macs));
            && t.installed == t.aliased
            && t.installed == set m | m in t.machines && t.machines[m].installed
    decreases |macs|
  {
    var p := PopulateInv(s, rows);
    InventoryMatchesIndex(s, rows);
    CallbacksKeepMachines(p, macs);
    assert forall m :: m in p.machines ==> !IndexOf(rows)[m].machine.installed by {
      forall m | m in p.machines
        ensures !IndexOf(rows)[m].machine.installed
      {
        IndexIsLastWins(rows, m);
        MachineOfCanonical(LastOf(rows, m).value);
      }
    }
    CallbacksEnter(p, macs);
  }

  lemma {:induction false} CallbacksEnter(s: InvState, macs: seq<string>)
    requires s.installed == s.aliased
    ensures var t := Run(s, Callbacks(macs));
            t.installed == t.aliased && t.installed == s.installed + set m | m in s.machines && m in macs
  {
    hide WriteBootFiles, MacAsID;
    var cs := Callbacks(macs);
    if macs != [] {
      var before, mac := macs[..|macs| - 1], macs[|macs| - 1];
      assert cs[..|cs| - 1] == Callbacks(before);
      assert macs == before + [mac];
      CallbacksEnter(s, before);
      CallbacksKeepMachines(s, before);
    }
  }

  lemma {:induction false} IndexAgreesWithInventory(s: InvState, rows: seq<Row>, macs: seq<string>, mac: string)
    requires mac in IndexOf(rows)
    ensures var t := Run(PopulateInv(s, rows), Callbacks(macs));
            && mac in t.machines
            && Agree(IndexOf(rows)[mac], t.machines[mac])
            && (t.machines[mac].installed <==> mac in macs)
  {
    InventoryMatchesIndex(s, rows);
    CallbacksKeepMachines(PopulateInv(s, rows), macs);
    IndexIsLastWins(rows, mac);
    LastOfIsLast(rows, mac);
    MachineOfCanonical(LastOf(rows, mac).value);
  }

  // ---------- Files of one pass ----------

  /** The files one pass writes, whatever was on disk before. */
  function WrittenFiles(rows: seq<Row>, key: string): Files
  {
    if rows == [] then map[]
    else RowFiles(WrittenFiles(rows[..|rows| - 1], key), rows[|rows| - 1], key)
  }

  lemma UpdateOnTop<K, V>(base: map<K, V>, top: map<K, V>, k: K, v: V)
    ensures (base + top)[k := v] == base + top[k := v]
  {
  }

  lemma BootFilesOnTop(base: Files, top: Files, mac: string, m: Machine)
    ensures WriteBootFiles(base + top, mac, m) == base + WriteBootFiles(top, mac, m)
  {
    var bios, efi := Path(BiosCfg, MacAsID(mac)), Path(EfiCfg, MacAsID(mac));
    UpdateOnTop(base, top, bios, Pxe(PxeMenu(m)));
    UpdateOnTop(base, top[bios := Pxe(PxeMenu(m))], efi, Grub(GrubMenu(m)));
  }

  lemma SeedsOnTop(base: Files, top: Files, os: string, mac: string, key: string)
    ensures WriteSeeds(base + top, os, mac, key) == base + WriteSeeds(top, os, mac, key)
  {
    if Known(os) {
      var seed, meta := Path(SeedKind(os), MacAsID(mac)), Path(MetaData, MacAsID(mac));
      UpdateOnTop(base, top, seed, SeedOf(os, mac, key));
      UpdateOnTop(base, top[seed := SeedOf(os, mac, key)], meta, Blank);
    }
  }

  lemma RowFilesOnTop(base: Files, top: Files, row: Row, key: string)
    ensures RowFiles(base + top, row, key) == base + RowFiles(top, row, key)
  {
    SeedsOnTop(base, top, row.os, row.mac, key);
    BootFilesOnTop(base, WriteSeeds(top, row.os, row.mac, key), row.mac, MachineOf(row));
  }

  lemma {:induction false} PassFiles(s: InvState, rows: seq<Row>)
    ensures PopulateInv(s, rows).files == s.files + WrittenFiles(rows, s.sshKey)
  {
    if rows == [] {
      PassEmpty(s);
    } else {
      var before := rows[..|rows| - 1];
      PassSnoc(rows);
      PassFiles(s, before);
      InventoryMatchesIndex(s, before);
      RowFilesOnTop(s.files, WrittenFiles(before, s.sshKey), rows[|rows| - 1], s.sshKey);
    }
  }

  lemma {:induction false} WrittenBootPaths(rows: seq<Row>, key: string, mac: string)
    requires mac in IndexOf(rows)
    ensures Path(BiosCfg, MacAsID(mac)) in WrittenFiles(rows, key)
    ensures Path(EfiCfg, MacAsID(mac)) in WrittenFiles(rows, key)
  {
    hide PxeMenu, GrubMenu, Path, MachineOf, SeedOf;
    var last := rows[|rows| - 1];
    if last.mac != mac {
      WrittenBootPaths(rows[..|rows| - 1], key, mac);
    }
  }

  lemma {:induction false} CallbacksStayOnWritten(s: InvState, rows: seq<Row>, macs: seq<string>)
    requires s.machines.Keys <= IndexOf(rows).Keys
    ensures var t := Run(s, Callbacks(macs));
            && t.machines.Keys == s.machines.Keys && t.sshKey == s.sshKey
            && t.files + WrittenFiles(rows, s.sshKey) == s.files + WrittenFiles(rows, s.sshKey)
  {
    hide WriteBootFiles, WrittenFiles, IndexOf, Path, MacAsID;
    if macs != [] {
      var before, mac := macs[..|macs| - 1], macs[|macs| - 1];
      var cs := Callbacks(macs);
      assert cs[..|cs| - 1] == Callbacks(before);
      CallbacksStayOnWritten(s, rows, before);
      var u := Run(s, Callbacks(before));
      if mac in u.machines {
        WrittenBootPaths(rows, s.sshKey, mac);
        BootWriteUnder(u.files, WrittenFiles(rows, s.sshKey), mac, u.machines[mac].(installed := true));
      }
    }
  }

  lemma BootWriteUnder(base: Files, top: Files, mac: string, m: Machine)
    requires Path(BiosCfg, MacAsID(mac)) in top && Path(EfiCfg, MacAsID(mac)) in top
    ensures WriteBootFiles(base, mac, m) + top == base + top
  {
    hide PxeMenu, GrubMenu, Path, MacAsID;
  }

  /** Repopulating from an unchanged file undoes every callback since the last pass, in memory and
      on disk: a machine that had finished its install is sent to the installer again. With no
      callbacks in between this says that a second pass changes nothing. */
  lemma {:induction false} RepopulateForgetsCallbacks(s: InvState, rows: seq<Row>, macs: seq<string>)
    ensures PopulateInv(Run(PopulateInv(s, rows), Callbacks(macs)), rows) == PopulateInv(s, rows)
  {
    var t := PopulateInv(s, rows);
    var u := Run(t, Callbacks(macs));
    var w := WrittenFiles(rows, s.sshKey);
    InventoryMatchesIndex(s, rows);
    CallbacksStayOnWritten(t, rows, macs);
    PassFiles(s, rows);
    PassFiles(u, rows);
    LayTwice(s.files, w);
    SameInventory(s, u, rows);
  }

  lemma LayTwice<K, V>(base: map<K, V>, top: map<K, V>)
    ensures base + top + top == base + top
  {
  }

  lemma SameInventory(s: InvState, u: InvState, rows: seq<Row>)
    requires s.sshKey == u.sshKey
    ensures PopulateInv(u, rows).(files := map[]) == PopulateInv(s, rows).(files := map[])
  {
    InventoryMatchesIndex(s, rows);
    InventoryMatchesIndex(u, rows);
    assert PopulateInv(u, rows).machines == PopulateInv(s, rows).machines;
  }

  /** After a pass and any callbacks a machine shows the columns of the last row of its MAC. */
  lemma {:induction false} InventoryShowsRow(s: InvState, rows: seq<Row>, macs: seq<string>, mac: string)
    requires LastOf(rows, mac).Some?
    ensures var t, r := Run(PopulateInv(s, rows), Callbacks(macs)), LastOf(rows, mac).value;
            && mac in t.machines
            && var m := t.machines[mac];
            && m.ip == r.ip && m.cluster == r.cluster && m.template == r.template && m.role == r.role
            && m.id == MacAsID(mac) && (m.installed <==> mac in macs)
            && m.osType == (if r.os == "centos" || r.os == "ubuntu" || r.os == "debian" then r.os else "")
  {
    hide MachineOf, IndexOf, PopulateInv, Run;
    InventoryMatchesIndex(s, rows);
    CallbacksKeepMachines(PopulateInv(s, rows), macs);
    IndexIsLastWins(rows, mac);
    LastOfIsLast(rows, mac);
    RecordShowsRow(LastOf(rows, mac).value);
  }

  /** The user of the installed system is the one its fetch logs in as: the OS column of the group's node. */
  lemma {:induction false} SeedUserIsFetchUser(s: InvState, rows: seq<Row>, macs: seq<string>, mac: string)
    requires LastOf(rows, mac).Some? && Known(LastOf(rows, mac).value.os)
    ensures var t, r := Run(PopulateInv(s, rows), Callbacks(macs)), LastOf(rows, mac).value;
            var p := Path(SeedKind(r.os), MacAsID(mac));
            && p in t.files && t.files[p].Seed?
            && t.files[p].cfg.username == NodeOf(r).os && t.files[p].cfg.sshPubKey == s.sshKey
  {
    hide Run, PopulateInv, Pass, IndexOf, LastOf, Path, SeedKind, MacAsID;
    InventoryShowsRow(s, rows, macs, mac);
    PopulateFromBoot(s, rows);
    RunConcat(Boot(s.files, s.sshKey), Pass(rows), Callbacks(macs));
    SeedLetsFetchesIn(s.files, s.sshKey, Pass(rows) + Callbacks(macs), mac);
  }

  // ---------- Disk and memory after one pass ----------

  lemma {:induction false} PassLastWriter(rows: seq<Row>, id: string)
    ensures var w := LastWriter(Pass(rows), id);
            var r := LastOfID(rows, id);
            && (w.Some? <==> r.Some?)
            && (r.Some? ==> w == Some(r.value.mac) && MacAsID(r.value.mac) == id && LastOf(rows, r.value.mac) == r)
  {
    if rows == [] {
      assert Pass(rows) == [Reset];
      assert LastWriter([Reset][..0], id) == None;
    } else {
      PassSnoc(rows);
      PassLastWriter(rows[..|rows| - 1], id);
    }
  }

  function OsColumn(row: Row): string
  {
    if Known(row.os) then row.os else ""
  }

  /** The rows a MAC ends up with and an equal id ends up with install the same system. */
  predicate IDsAgreeOnOs(rows: seq<Row>)
  {
    forall i :: 0 <= i < |rows| && LastOf(rows, rows[i].mac) == Some(rows[i]) ==>
      var w := LastOfID(rows, MacAsID(rows[i].mac));
      w.Some? && OsColumn(w.value) == OsColumn(rows[i])
  }

  lemma {:induction false} PassLooks(s: InvState, rows: seq<Row>, m: string)
    requires m in PopulateInv(s, rows).machines
    ensures var t := PopulateInv(s, rows);
            var r, v := LastOf(rows, m), LastOfID(rows, MacAsID(m));
            && r.Some? && r.value.mac == m && v.Some?
            && t.machines[m].osType == OsColumn(r.value) && !t.machines[m].installed
            && LastWriter(Pass(rows), MacAsID(m)) == Some(v.value.mac)
            && v.value.mac in t.machines
            && t.machines[v.value.mac].osType == OsColumn(v.value) && !t.machines[v.value.mac].installed
  {
    InventoryMatchesIndex(s, rows);
    IndexIsLastWins(rows, m);
    LastOfIsLast(rows, m);
    MachineOfCanonical(LastOf(rows, m).value);
    LastByIDExists(rows, m);
    PassLastWriter(rows, MacAsID(m));
    var v := LastOfID(rows, MacAsID(m)).value;
    IndexIsLastWins(rows, v.mac);
    MachineOfCanonical(v);
  }

  lemma {:induction false} LastByIDExists(rows: seq<Row>, m: string)
    requires LastOf(rows, m).Some?
    ensures LastOfID(rows, MacAsID(m)).Some?
  {
    if rows[|rows| - 1].mac != m {
      LastByIDExists(rows[..|rows| - 1], m);
    }
  }

  /** After a pass disk agrees with memory exactly when MACs that share an id ask for the same
      operating system: this can be read off the file. */
  lemma {:induction false} PassDiskAgreesIff(s: InvState, rows: seq<Row>)
    ensures DiskAgrees(PopulateInv(s, rows)) <==> IDsAgreeOnOs(rows)
  {
    var t := PopulateInv(s, rows);
    PopulateFromBoot(s, rows);
    DiskAgreesIff(s.files, s.sshKey, Pass(rows));
    forall m | m in t.machines
      ensures LooksLikeWriter(t, Pass(rows), m) <==> LooksLikeItsID(rows, m)
    {
      PassLooks(s, rows, m);
    }
    IDsAgreeByMac(s, rows);
  }

  predicate LooksLikeItsID(rows: seq<Row>, m: string)
  {
    var r, v := LastOf(rows, m), LastOfID(rows, MacAsID(m));
    r.Some? && v.Some? && OsColumn(r.value) == OsColumn(v.value)
  }

  lemma IDsAgreeByMac(s: InvState, rows: seq<Row>)
    ensures IDsAgreeOnOs(rows)
       <==> forall m :: m in PopulateInv(s, rows).machines ==> LooksLikeItsID(rows, m)
  {
    InventoryMatchesIndex(s, rows);
    forall m | m in PopulateInv(s, rows).machines
      ensures exists i :: 0 <= i < |rows| && rows[i].mac == m && LastOf(rows, m) == Some(rows[i])
    {
      IndexIsLastWins(rows, m);
      LastOfIsLast(rows, m);
    }
    forall i | 0 <= i < |rows| && LastOf(rows, rows[i].mac) == Some(rows[i])
      ensures rows[i].mac in PopulateInv(s, rows).machines
    {
      IndexIsLastWins(rows, rows[i].mac);
    }
  }

  /** The row whose machine is in the boot files of the id after a pass and callbacks: that of the last
      accepted callback with this id, otherwise the last row with it. */
  function LastRewriter(rows: seq<Row>, macs: seq<string>, id: string): Option<Row>
  {
    if macs == [] then LastOfID(rows, id)
    else
      var m := macs[|macs| - 1];
      if MacAsID(m) == id && LastOf(rows, m).Some? then LastOf(rows, m)
      else LastRewriter(rows, macs[..|macs| - 1], id)
  }

  /** The machine of each MAC has the system of the row that its boot files were last written for, and
      both or neither have called back. */
  predicate AgreesWithRewriter(rows: seq<Row>, macs: seq<string>, m: string)
  {
    var r, w := LastOf(rows, m), LastRewriter(rows, macs, MacAsID(m));
    r.Some? && w.Some? && OsColumn(r.value) == OsColumn(w.value) && (m in macs <==> w.value.mac in macs)
  }

  predicate RewritersAgree(rows: seq<Row>, macs: seq<string>)
  {
    forall i :: 0 <= i < |rows| ==> AgreesWithRewriter(rows, macs, rows[i].mac)
  }

  lemma {:induction false} RewriterIsWriter(s: InvState, rows: seq<Row>, macs: seq<string>, id: string)
    ensures var w, r := LastWriter(Pass(rows) + Callbacks(macs), id), LastRewriter(rows, macs, id);
            && (w.Some? <==> r.Some?)
            && (r.Some? ==> w == Some(r.value.mac) && LastOf(rows, r.value.mac) == r)
  {
    hide IndexOf, PopulateInv, Pass, LastOfID;
    var steps := Pass(rows) + Callbacks(macs);
    if macs == [] {
      assert steps == Pass(rows);
      PassLastWriter(rows, id);
    } else {
      var before, m := macs[..|macs| - 1], macs[|macs| - 1];
      assert steps[..|steps| - 1] == Pass(rows) + Callbacks(before) && steps[|steps| - 1] == Callback(m);
      RewriterIsWriter(s, rows, before, id);
      PresentAfterPass(s, rows, before, m);
      LastOfIsLast(rows, m);
    }
  }

  lemma {:induction false} PresentAfterPass(s: InvState, rows: seq<Row>, macs: seq<string>, m: string)
    ensures Present(Pass(rows) + Callbacks(macs), m) <==> LastOf(rows, m).Some?
    ensures m in PopulateInv(s, rows).machines <==> LastOf(rows, m).Some?
  {
    hide IndexOf, Pass, Run, Present;
    PresentIff(s.files, s.sshKey, Pass(rows) + Callbacks(macs), m);
    RunConcat(Boot(s.files, s.sshKey), Pass(rows), Callbacks(macs));
    PopulateFromBoot(s, rows);
    CallbacksKeepMachines(PopulateInv(s, rows), macs);
    InventoryMatchesIndex(s, rows);
    IndexIsLastWins(rows, m);
  }

  /** After a pass and any callbacks, whether disk agrees with memory can be read off the file and the
      MACs called back. */
  lemma {:induction false} CallbacksDiskAgreesIff(s: InvState, rows: seq<Row>, macs: seq<string>)
    ensures DiskAgrees(Run(PopulateInv(s, rows), Callbacks(macs))) <==> RewritersAgree(rows, macs)
  {
    hide IndexOf, PopulateInv, Pass, Run, DiskAgrees, LooksLikeWriter, AgreesWithRewriter, LastOf;
    var p, steps := PopulateInv(s, rows), Pass(rows) + Callbacks(macs);
    var t := Run(p, Callbacks(macs));
    PopulateFromBoot(s, rows);
    RunConcat(Boot(s.files, s.sshKey), Pass(rows), Callbacks(macs));
    DiskAgreesIff(s.files, s.sshKey, steps);
    CallbacksKeepMachines(p, macs);
    forall m | m in t.machines
      ensures LooksLikeWriter(t, steps, m) <==> AgreesWithRewriter(rows, macs, m)
      ensures exists i :: 0 <= i < |rows| && rows[i].mac == m
    {
      RewriterLooks(s, rows, macs, m);
    }
    forall i | 0 <= i < |rows|
      ensures rows[i].mac in t.machines
    {
      RowIsListed(s, rows, i);
    }
  }

  lemma RowIsListed(s: InvState, rows: seq<Row>, i: nat)
    requires i < |rows|
    ensures rows[i].mac in PopulateInv(s, rows).machines
  {
    hide PopulateInv, IndexOf, LastOf;
    InventoryMatchesIndex(s, rows);
    IndexIsLastWins(rows, rows[i].mac);
    LastOfIsLast(rows, rows[i].mac);
  }

  lemma RewriterLooks(s: InvState, rows: seq<Row>, macs: seq<string>, m: string)
    requires m in Run(PopulateInv(s, rows), Callbacks(macs)).machines
    ensures LooksLikeWriter(Run(PopulateInv(s, rows), Callbacks(macs)), Pass(rows) + Callbacks(macs), m)
       <==> AgreesWithRewriter(rows, macs, m)
    ensures exists i :: 0 <= i < |rows| && rows[i].mac == m
  {
    hide IndexOf, PopulateInv, Pass, Run, LastOf, LastRewriter, LastWriter;
    var p := PopulateInv(s, rows);
    var w := LastRewriter(rows, macs, MacAsID(m));
    CallbacksKeepMachines(p, macs);
    RewriterIsWriter(s, rows, macs, MacAsID(m));
    MachineShowsRow(s, rows, m);
    if w.Some? {
      PresentAfterPass(s, rows, [], w.value.mac);
      MachineShowsRow(s, rows, w.value.mac);
    }
  }

  lemma {:induction false} MachineShowsRow(s: InvState, rows: seq<Row>, m: string)
    requires m in PopulateInv(s, rows).machines
    ensures var r, t := LastOf(rows, m), PopulateInv(s, rows);
            r.Some? && t.machines[m].osType == OsColumn(r.value) && !t.machines[m].installed
    ensures exists i :: 0 <= i < |rows| && rows[i].mac == m
  {
    InventoryMatchesIndex(s, rows);
    IndexIsLastWins(rows, m);
    LastOfIsLast(rows, m);
    MachineOfCanonical(LastOf(rows, m).value);
  }

  /** Two clients whose MACs differ in a separator only: the second row takes over the boot files
      of the first. */
  lemma {:induction false} CollidingRowsDisagree(s: InvState)
    ensures !DiskAgrees(PopulateInv(s, [Row("10.0.0.1", "aa:01", "", "debian", UNCLAIMED, "", ""),
                                        Row("10.0.0.2", "aa-01", "", "centos", UNCLAIMED, "", "")]))
  {
    var a := Row("10.0.0.1", "aa:01", "", "debian", UNCLAIMED, "", "");
    var b := Row("10.0.0.2", "aa-01", "", "centos", UNCLAIMED, "", "");
    var rows := [a, b];
    assert rows[..1] == [a];
    assert a.mac[2] != b.mac[2];
    assert LastOf(rows, a.mac) == LastOf([a], a.mac) == Some(a);
    IDCollision(a.mac, b.mac);
    assert LastOfID(rows, MacAsID(a.mac)) == Some(b);
    assert "debian"[0] != "centos"[0];
    assert rows[0] == a;
    PassDiskAgreesIff(s, rows);
  }

  // ---------- Cluster grouping ----------

  datatype Node = Node(mac: string, role: string, os: string, ip: string)

  type Groups = map<string, seq<Node>>

  function NodeOf(row: Row): Node
  {
    Node(row.mac, row.role, row.os, row.ip)
  }

  function Members(g: Groups, c: string): seq<Node>
  {
    if c in g then g[c] else []
  }

  function AddToGroup(g: Groups, row: Row): Groups
  {
    g[row.cluster := Members(g, row.cluster) + [NodeOf(row)]]
  }

  function GroupRows(rows: seq<Row>): Groups
  {
    if rows == [] then map[]
    else AddToGroup(GroupRows(rows[..|rows| - 1]), rows[|rows| - 1])
  }

  /** The nodes of the rows of one cluster, in file order. */
  function NodesIn(rows: seq<Row>, c: string): seq<Node>
  {
    if rows == [] then []
    else
      NodesIn(rows[..|rows| - 1], c) + (if rows[|rows| - 1].cluster == c then [NodeOf(rows[|rows| - 1])] else [])
  }

  function Nodes(rows: seq<Row>): seq<Node>
  {
    seq(|rows|, i requires 0 <= i < |rows| => NodeOf(rows[i]))
  }

  /** Each group is the rows of its cluster in file order, and there are no empty groups. */
  lemma {:induction false} GroupIsFilter(rows: seq<Row>, c: string)
    ensures Members(GroupRows(rows), c) == NodesIn(rows, c)
    ensures c in GroupRows(rows) <==> exists i :: 0 <= i < |rows| && rows[i].cluster == c
    ensures c in GroupRows(rows) ==> GroupRows(rows)[c] != []
  {
    if rows != [] {
      var before := rows[..|rows| - 1];
      GroupIsFilter(before, c);
      assert forall i :: 0 <= i < |before| ==> before[i] == rows[i];
      if rows[|rows| - 1].cluster == c {
        assert rows[|rows| - 1].cluster == c;
      } else if i :| 0 <= i < |rows| && rows[i].cluster == c {
        assert before[i].cluster == c;
      }
    }
  }

  /** Every node of a group stands for a row of the cluster: what is fetched for it is fetched from
      the address, with the OS name, and for the MAC of that row. */
  lemma {:induction false} NodeIsRow(rows: seq<Row>, c: string, i: nat)
    requires c in GroupRows(rows) && i < |GroupRows(rows)[c]|
    ensures var n := GroupRows(rows)[c][i];
            exists m :: 0 <= m < |rows| && rows[m].cluster == c
                        && n.mac == rows[m].mac && n.ip == rows[m].ip && n.os == rows[m].os && n.role == rows[m].role
  {
    var before, last := rows[..|rows| - 1], rows[|rows| - 1];
    if last.cluster == c && i == |Members(GroupRows(before), c)| {
      assert rows[|rows| - 1].cluster == c;
    } else {
      NodeIsRow(before, c, i);
      var n := GroupRows(before)[c][i];
      var m :| 0 <= m < |before| && before[m].cluster == c
               && n.mac == before[m].mac && n.ip == before[m].ip && n.os == before[m].os && n.role == before[m].role;
      assert rows[m] == before[m];
    }
  }

  function Flatten(order: seq<string>, g: Groups): seq<Node>
  {
    if order == [] then [] else Members(g, order[0]) + Flatten(order[1..], g)
  }

  lemma MembersAfterAdd(g: Groups, row: Row, c: string)
    ensures Members(AddToGroup(g, row), c) == Members(g, c) + (if c == row.cluster then [NodeOf(row)] else [])
  {
  }

  lemma {:induction false} FlattenAdd(order: seq<string>, g: Groups, row: Row)
    requires NoRepeat(order)
    ensures multiset(Flatten(order, AddToGroup(g, row)))
         == multiset(Flatten(order, g)) + (if row.cluster in order then multiset{NodeOf(row)} else multiset{})
  {
    hide AddToGroup, Members, NodeOf;
    if order != [] {
      var h, first, rest := AddToGroup(g, row), order[0], order[1..];
      assert order == [first] + rest;
      assert row.cluster in order <==> row.cluster == first || row.cluster in rest;
      assert row.cluster == first ==> row.cluster !in rest;
      FlattenAdd(rest, g, row);
      MembersAfterAdd(g, row, first);
      assert Flatten(order, h) == Members(h, first) + Flatten(rest, h);
      assert Flatten(order, g) == Members(g, first) + Flatten(rest, g);
    }
  }

  /** Grouping loses and invents nothing: in any order of the clusters, the groups together hold
      each row once. */
  lemma {:induction false} GroupingConserves(order: seq<string>, rows: seq<Row>)
    requires NoRepeat(order) && forall i :: 0 <= i < |rows| ==> rows[i].cluster in order
    ensures multiset(Flatten(order, GroupRows(rows))) == multiset(Nodes(rows))
  {
    hide Flatten, AddToGroup;
    if rows == [] {
      FlattenEmpty(order);
    } else {
      var before := rows[..|rows| - 1];
      assert forall i :: 0 <= i < |before| ==> before[i] == rows[i];
      GroupingConserves(order, before);
      FlattenAdd(order, GroupRows(before), rows[|rows| - 1]);
      assert Nodes(rows) == Nodes(before) + [NodeOf(rows[|rows| - 1])];
    }
  }

  lemma {:induction false} FlattenEmpty(order: seq<string>)
    ensures Flatten(order, map[]) == []
  {
    if order != [] {
      FlattenEmpty(order[1..]);
    }
  }

  predicate MacsDistinct(rows: seq<Row>)
  {
    forall i, j :: 0 <= i < j < |rows| ==> rows[i].mac != rows[j].mac
  }

  predicate HasMac(nodes: seq<Node>, mac: string)
  {
    exists i :: 0 <= i < |nodes| && nodes[i].mac == mac
  }

  lemma {:induction false} NodesInHasMac(rows: seq<Row>, c: string, mac: string)
    ensures HasMac(NodesIn(rows, c), mac) <==> exists i :: 0 <= i < |rows| && rows[i].mac == mac && rows[i].cluster == c
  {
    if rows != [] {
      var before, last := rows[..|rows| - 1], rows[|rows| - 1];
      NodesInHasMac(before, c, mac);
      var ns := NodesIn(rows, c);
      var ms := NodesIn(before, c);
      if HasMac(ns, mac) {
        var i :| 0 <= i < |ns| && ns[i].mac == mac;
        if i < |ms| {
          assert ms[i].mac == mac;
          var j :| 0 <= j < |before| && before[j].mac == mac && before[j].cluster == c;
          assert rows[j] == before[j];
        } else {
          assert rows[|rows| - 1].mac == mac;
        }
      }
      if i :| 0 <= i < |rows| && rows[i].mac == mac && rows[i].cluster == c {
        if i < |before| {
          assert before[i] == rows[i];
          var k :| 0 <= k < |ms| && ms[k].mac == mac;
          assert ns[k].mac == mac;
        } else {
          assert ns[|ns| - 1].mac == mac;
        }
      }
    }
  }

  /** The cluster a client reports is the one group that lists its MAC, as long as MACs are
      distinct; otherwise it is still one of them, that of the last row. */
  lemma {:induction false} ClientClusterIsItsGroup(rows: seq<Row>, mac: string, c: string)
    requires mac in IndexOf(rows)
    ensures HasMac(Members(GroupRows(rows), IndexOf(rows)[mac].machine.cluster), mac)
    ensures MacsDistinct(rows) && HasMac(Members(GroupRows(rows), c), mac) ==> c == IndexOf(rows)[mac].machine.cluster
  {
    IndexIsLastWins(rows, mac);
    LastOfIsLast(rows, mac);
    var own := IndexOf(rows)[mac].machine.cluster;
    var i :| 0 <= i < |rows| && rows[i] == LastOf(rows, mac).value && rows[i].mac == mac;
    GroupIsFilter(rows, own);
    NodesInHasMac(rows, own, mac);
    GroupIsFilter(rows, c);
    NodesInHasMac(rows, c, mac);
  }
}
