/** The machine inventory and the files generated from it as a state machine. Its three steps are
    the atomic pieces that startup, the file watcher and the HTTP handlers interleave: clearing the
    inventory, generating one row, and one install callback. */
module InventorySteps {
  import opened Text
  import opened Csv
  import opened Templates

  /** aliased holds the MACs whose entry in the installed map is the very object that the machine
      map holds; installed holds all keys of the installed map. */
  datatype InvState = InvState(machines: map<string, Machine>, installed: set<string>, aliased: set<string>,
                               files: Files, sshKey: string)

  datatype Step = Reset | Generate(row: Row) | Callback(mac: string)

  function ResetAll(s: InvState): InvState
  {
    s.(machines := map[], installed := {}, aliased := {})
  }

  function GenerateRow(s: InvState, row: Row): InvState
  {
    s.(machines := s.machines[row.mac := MachineOf(row)],
       aliased := s.aliased - {row.mac},
       files := RowFiles(s.files, row, s.sshKey))
  }

  /** The boot-file column plays no part in the inventory. */
  lemma BootFileUnused(s: InvState, row: Row)
    ensures GenerateRow(s, row) == GenerateRow(s, row.(bootFile := ""))
    ensures MachineOf(row) == MachineOf(row.(bootFile := ""))
  {
  }

  function RowFiles(files: Files, row: Row, key: string): Files
  {
    WriteBootFiles(WriteSeeds(files, row.os, row.mac, key), row.mac, MachineOf(row))
  }

  /** An unknown MAC is an error and changes nothing. */
  function LogInstalled(s: InvState, mac: string): InvState
  {
    if mac !in s.machines then s
    else
      var m := s.machines[mac].(installed := true);
      s.(machines := s.machines[mac := m],
         installed := s.installed + {mac},
         aliased := s.aliased + {mac},
         files := WriteBootFiles(s.files, mac, m))
  }

  function Apply(s: InvState, step: Step): InvState
  {
    match step
    case Reset => ResetAll(s)
    case Generate(row) => GenerateRow(s, row)
    case Callback(mac) => LogInstalled(s, mac)
  }

  function Run(s: InvState, steps: seq<Step>): InvState
  {
    if steps == [] then s
    else Apply(Run(s, steps[..|steps| - 1]), steps[|steps| - 1])
  }

  /** A freshly started process: nothing in memory, anything at all on disk. */
  function Boot(files: Files, key: string): InvState
  {
    InvState(map[], {}, {}, files, key)
  }

  // ---------- What every step keeps ----------

  ghost predicate WellFormed(s: InvState)
  {
    && (forall m :: m in s.machines ==> s.machines[m].id == MacAsID(m) && Canonical(s.machines[m]))
    && (forall m :: m in s.machines ==> (s.machines[m].installed <==> m in s.aliased))
    && s.aliased <= s.machines.Keys
    && s.aliased <= s.installed
  }

  lemma MachineOfCanonical(row: Row)
    ensures Canonical(MachineOf(row))
    ensures MachineOf(row).id == MacAsID(row.mac) && !MachineOf(row).installed
    ensures MachineOf(row).osType == if Known(row.os) then row.os else ""
  {
  }

  lemma StepKeepsWellFormed(s: InvState, step: Step)
    requires WellFormed(s)
    ensures WellFormed(Apply(s, step))
  {
    hide GenerateRow, LogInstalled;
    match step
    case Reset =>
    case Generate(row) => GenerateKeepsWellFormed(s, row);
    case Callback(mac) => CallbackKeepsWellFormed(s, mac);
  }

  lemma GenerateKeepsWellFormed(s: InvState, row: Row)
    requires WellFormed(s)
    ensures WellFormed(GenerateRow(s, row))
  {
    hide RowFiles, MachineOf, MacAsID, Canonical;
    MachineOfCanonical(row);
  }

  lemma CallbackKeepsWellFormed(s: InvState, mac: string)
    requires WellFormed(s)
    ensures WellFormed(LogInstalled(s, mac))
  {
    hide WriteBootFiles, MacAsID, Profile;
  }

  lemma {:induction false} RunWellFormed(s: InvState, steps: seq<Step>)
    requires WellFormed(s)
    ensures WellFormed(Run(s, steps))
    ensures Run(s, steps).sshKey == s.sshKey
  {
    if steps != [] {
      RunWellFormed(s, steps[..|steps| - 1]);
      StepKeepsWellFormed(Run(s, steps[..|steps| - 1]), steps[|steps| - 1]);
    }
  }

  /** No file holds the remains of an aborted template. */
  ghost predicate Whole(files: Files)
  {
    forall p :: p in files ==> files[p] != Grub(None) && files[p] != Pxe(None)
  }

  lemma BootWriteWhole(files: Files, mac: string, m: Machine)
    requires Canonical(m) && Whole(files)
    ensures Whole(WriteBootFiles(files, mac, m))
  {
    hide Path, MacAsID, GrubMenu, PxeMenu, Canonical;
    CanonicalRenders(m);
  }

  lemma SeedWriteWhole(files: Files, os: string, mac: string, key: string)
    requires Whole(files)
    ensures Whole(WriteSeeds(files, os, mac, key))
  {
    hide Path, MacAsID;
  }

  /** Over every interleaving the OS data of a machine is the variant its OS type selects from, so
      both templates always go through: no step ever aborts half-way. */
  lemma {:induction false} RenderingNeverFails(files: Files, key: string, steps: seq<Step>)
    requires Whole(files)
    ensures var s := Run(Boot(files, key), steps);
            && Whole(s.files)
            && forall m :: m in s.machines ==>
                 VariantMatches(s.machines[m]) && GrubMenu(s.machines[m]).Some? && PxeMenu(s.machines[m]).Some?
  {
    hide WriteBootFiles, WriteSeeds, MachineOf, Canonical, GrubMenu, PxeMenu, VariantMatches;
    var s := Run(Boot(files, key), steps);
    RunWellFormed(Boot(files, key), steps);
    forall m | m in s.machines
      ensures VariantMatches(s.machines[m]) && GrubMenu(s.machines[m]).Some? && PxeMenu(s.machines[m]).Some?
    {
      CanonicalRenders(s.machines[m]);
    }
    if steps != [] {
      RenderingNeverFails(files, key, steps[..|steps| - 1]);
      var s0 := Run(Boot(files, key), steps[..|steps| - 1]);
      match steps[|steps| - 1]
      case Reset =>
      case Generate(row) =>
        MachineOfCanonical(row);
        SeedWriteWhole(s0.files, row.os, row.mac, s0.sshKey);
        BootWriteWhole(WriteSeeds(s0.files, row.os, row.mac, s0.sshKey), row.mac, MachineOf(row));
      case Callback(mac) =>
        if mac in s0.machines {
          BootWriteWhole(s0.files, mac, s.machines[mac]);
        }
    }
  }

  // ---------- The installed flag ----------

  /** Whether the MAC was generated since the last reset. */
  predicate Present(steps: seq<Step>, mac: string)
  {
    steps != [] &&
    var last := steps[|steps| - 1];
    match last
    case Reset => false
    case Generate(row) => row.mac == mac || Present(steps[..|steps| - 1], mac)
    case Callback(_) => Present(steps[..|steps| - 1], mac)
  }

  /** Whether a callback for the MAC came after it was last generated. */
  predicate CalledBack(steps: seq<Step>, mac: string)
  {
    steps != [] &&
    var last := steps[|steps| - 1];
    match last
    case Reset => false
    case Generate(row) => row.mac != mac && CalledBack(steps[..|steps| - 1], mac)
    case Callback(m) => m == mac || CalledBack(steps[..|steps| - 1], mac)
  }

  lemma {:induction false} PresentIff(files: Files, key: string, steps: seq<Step>, mac: string)
    ensures mac in Run(Boot(files, key), steps).machines <==> Present(steps, mac)
  {
    hide WriteBootFiles, WriteSeeds, MachineOf;
    if steps != [] {
      PresentIff(files, key, steps[..|steps| - 1], mac);
    }
  }

  /** Over every interleaving: a machine is flagged, and its entry in the installed map is the
      same object, exactly when a callback followed its last generation. */
  lemma {:induction false} InstalledIffCalledBack(files: Files, key: string, steps: seq<Step>, mac: string)
    requires mac in Run(Boot(files, key), steps).machines
    ensures var s := Run(Boot(files, key), steps);
            (s.machines[mac].installed <==> CalledBack(steps, mac)) && (mac in s.aliased <==> CalledBack(steps, mac))
  {
    hide WriteBootFiles, WriteSeeds, Profile;
    var before := steps[..|steps| - 1];
    RunWellFormed(Boot(files, key), before);
    RunWellFormed(Boot(files, key), steps);
    if mac in Run(Boot(files, key), before).machines {
      InstalledIffCalledBack(files, key, before, mac);
    }
  }

  /** The generated rows of one repopulation. */
  function Generates(rows: seq<Row>): seq<Step>
  {
    seq(|rows|, i requires 0 <= i < |rows| => Generate(rows[i]))
  }

  function Callbacks(macs: seq<string>): seq<Step>
  {
    seq(|macs|, i requires 0 <= i < |macs| => Callback(macs[i]))
  }

  lemma {:induction false} RunConcat(s: InvState, a: seq<Step>, b: seq<Step>)
    ensures Run(s, a + b) == Run(Run(s, a), b)
  {
    if b == [] {
      assert a + b == a;
    } else {
      assert (a + b)[..|a + b| - 1] == a + b[..|b| - 1];
      RunConcat(s, a, b[..|b| - 1]);
    }
  }

  /** Whether an accepted callback for the MAC was followed by another generation of it in the same
      epoch, with no callback since. */
  predicate Regenerated(steps: seq<Step>, mac: string)
  {
    steps != [] &&
    var before := steps[..|steps| - 1];
    match steps[|steps| - 1]
    case Reset => false
    case Generate(row) => Regenerated(before, mac) || (row.mac == mac && Logged(before, mac))
    case Callback(m) => (m != mac || !Present(before, mac)) && Regenerated(before, mac)
  }

  /** Whether a callback for the MAC was accepted since the last reset. */
  predicate Logged(steps: seq<Step>, mac: string)
  {
    steps != [] &&
    var before := steps[..|steps| - 1];
    match steps[|steps| - 1]
    case Reset => false
    case Generate(_) => Logged(before, mac)
    case Callback(m) => Logged(before, mac) || (m == mac && Present(before, mac))
  }

  /** The keys of the installed map are the MACs with an accepted callback since the last reset. A
      key whose entry is not the object of the machine map any more means exactly that the machine
      was generated again afterwards. */
  lemma {:induction false} InstalledKeys(files: Files, key: string, steps: seq<Step>, mac: string)
    ensures mac in Run(Boot(files, key), steps).installed <==> Logged(steps, mac)
    ensures var s := Run(Boot(files, key), steps);
            mac in s.installed && mac !in s.aliased <==> Regenerated(steps, mac)
  {
    hide WriteBootFiles, WriteSeeds, MachineOf;
    if steps != [] {
      var before := steps[..|steps| - 1];
      InstalledKeys(files, key, before, mac);
      PresentIff(files, key, before, mac);
      RunWellFormed(Boot(files, key), before);
    }
  }

  // ---------- Boot files ----------

  /** The MAC whose generation or accepted callback last wrote the boot files of this id. */
  function LastWriter(steps: seq<Step>, id: string): Option<string>
  {
    if steps == [] then None
    else
      var before := steps[..|steps| - 1];
      match steps[|steps| - 1]
      case Reset => LastWriter(before, id)
      case Generate(row) => if MacAsID(row.mac) == id then Some(row.mac) else LastWriter(before, id)
      case Callback(m) => if MacAsID(m) == id && Present(before, m) then Some(m) else LastWriter(before, id)
  }

  /** Both boot files of an id are the current rendering of this machine. */
  predicate Shows(files: Files, id: string, m: Machine)
  {
    && Path(BiosCfg, id) in files && files[Path(BiosCfg, id)] == Pxe(PxeMenu(m))
    && Path(EfiCfg, id) in files && files[Path(EfiCfg, id)] == Grub(GrubMenu(m))
  }

  lemma BootWriteShows(files: Files, mac: string, m: Machine, id: string, other: Machine)
    ensures Shows(WriteBootFiles(files, mac, m), MacAsID(mac), m)
    ensures id != MacAsID(mac) && Shows(files, id, other) ==> Shows(WriteBootFiles(files, mac, m), id, other)
  {
    hide PxeMenu, GrubMenu, Path, MacAsID;
    PathInjective(BiosCfg, MacAsID(mac), EfiCfg, MacAsID(mac));
    PathInjective(BiosCfg, MacAsID(mac), EfiCfg, id);
    PathInjective(BiosCfg, MacAsID(mac), BiosCfg, id);
    PathInjective(EfiCfg, MacAsID(mac), EfiCfg, id);
    PathInjective(EfiCfg, MacAsID(mac), BiosCfg, id);
  }

  lemma SeedWriteKeepsBoot(files: Files, os: string, mac: string, key: string, id: string, m: Machine)
    requires Shows(files, id, m)
    ensures Shows(WriteSeeds(files, os, mac, key), id, m)
  {
    hide PxeMenu, GrubMenu, Path;
    if Known(os) {
      PathInjective(SeedKind(os), MacAsID(mac), BiosCfg, id);
      PathInjective(SeedKind(os), MacAsID(mac), EfiCfg, id);
      PathInjective(MetaData, MacAsID(mac), BiosCfg, id);
      PathInjective(MetaData, MacAsID(mac), EfiCfg, id);
    }
  }

  /** Over every interleaving, both boot files of a machine in the inventory hold the rendering of
      the current object of the MAC that wrote them last, and that MAC is in the inventory too. */
  lemma {:induction false} DiskShowsLastWriter(files: Files, key: string, steps: seq<Step>, mac: string)
    requires mac in Run(Boot(files, key), steps).machines
    ensures var s := Run(Boot(files, key), steps);
            var w := LastWriter(steps, MacAsID(mac));
            w.Some? && w.value in s.machines && MacAsID(w.value) == MacAsID(mac)
            && Shows(s.files, MacAsID(mac), s.machines[w.value])
  {
    hide WriteBootFiles, WriteSeeds, MachineOf, Shows;
    var boot := Boot(files, key);
    var before := steps[..|steps| - 1];
    var s0 := Run(boot, before);
    var id := MacAsID(mac);
    match steps[|steps| - 1]
    case Generate(row) =>
      if MacAsID(row.mac) == id {
        BootWriteShows(WriteSeeds(s0.files, row.os, row.mac, s0.sshKey), row.mac, MachineOf(row), id, MachineOf(row));
      } else {
        DiskShowsLastWriter(files, key, before, mac);
        var w := s0.machines[LastWriter(before, id).value];
        SeedWriteKeepsBoot(s0.files, row.os, row.mac, s0.sshKey, id, w);
        BootWriteShows(WriteSeeds(s0.files, row.os, row.mac, s0.sshKey), row.mac, MachineOf(row), id, w);
      }
    case Callback(m) =>
      DiskShowsLastWriter(files, key, before, mac);
      PresentIff(files, key, before, m);
      if m in s0.machines {
        BootWriteShows(s0.files, m, s0.machines[m].(installed := true), id, s0.machines[LastWriter(before, id).value]);
      }
    case Reset =>
  }

  ghost predicate DiskAgrees(s: InvState)
  {
    forall m :: m in s.machines ==> Shows(s.files, MacAsID(m), s.machines[m])
  }

  /** Every machine asks for the same operating system and carries the same flag as the machine
      that last wrote the boot files of its id. */
  ghost predicate LooksLikeWriter(s: InvState, steps: seq<Step>, mac: string)
    requires mac in s.machines
  {
    var w := LastWriter(steps, MacAsID(mac));
    && w.Some? && w.value in s.machines
    && s.machines[mac].osType == s.machines[w.value].osType
    && s.machines[mac].installed == s.machines[w.value].installed
  }

  /** Disk agrees with memory exactly when every machine looks like the last writer of its id. */
  lemma {:induction false} DiskAgreesIff(files: Files, key: string, steps: seq<Step>)
    ensures var s := Run(Boot(files, key), steps);
            DiskAgrees(s) <==> forall m :: m in s.machines ==> LooksLikeWriter(s, steps, m)
  {
    var s := Run(Boot(files, key), steps);
    RunWellFormed(Boot(files, key), steps);
    forall m | m in s.machines
      ensures Shows(s.files, MacAsID(m), s.machines[m]) <==> LooksLikeWriter(s, steps, m)
    {
      DiskShowsLastWriter(files, key, steps, m);
      MenusDetermine(s.machines[m], s.machines[LastWriter(steps, MacAsID(m)).value]);
    }
  }

  ghost predicate IDsDistinct(s: InvState)
  {
    forall a, b :: a in s.machines && b in s.machines && MacAsID(a) == MacAsID(b) ==> a == b
  }

  /** In particular it agrees after every interleaving whose MACs have distinct ids, which MACs
      without '-' always have. */
  lemma {:induction false} DiskAgreesWithoutCollisions(files: Files, key: string, steps: seq<Step>)
    requires IDsDistinct(Run(Boot(files, key), steps))
          || forall m :: m in Run(Boot(files, key), steps).machines ==> DashFree(m)
    ensures DiskAgrees(Run(Boot(files, key), steps))
  {
    var s := Run(Boot(files, key), steps);
    forall m | m in s.machines
      ensures Shows(s.files, MacAsID(m), s.machines[m])
    {
      DiskShowsLastWriter(files, key, steps, m);
      var w := LastWriter(steps, MacAsID(m)).value;
      if DashFree(m) && DashFree(w) {
        IDInjective(m, w);
      }
    }
  }

  // ---------- One callback, one file ----------

  ghost predicate OnlyChanged(before: Files, after: Files, paths: set<string>)
  {
    && after.Keys == before.Keys
    && forall p :: p in before && p !in paths ==> after[p] == before[p]
  }

  lemma Overwrite(files: Files, mac: string, m: Machine, w: Machine)
    requires Shows(files, MacAsID(mac), w)
    ensures var bios, efi := Path(BiosCfg, MacAsID(mac)), Path(EfiCfg, MacAsID(mac));
            var f := WriteBootFiles(files, mac, m);
            && OnlyChanged(files, f, {bios, efi})
            && (OnlyChanged(files, f, {efi}) <==> PxeMenu(m) == PxeMenu(w))
  {
    var bios, efi := Path(BiosCfg, MacAsID(mac)), Path(EfiCfg, MacAsID(mac));
    PathInjective(BiosCfg, MacAsID(mac), EfiCfg, MacAsID(mac));
    var f := WriteBootFiles(files, mac, m);
    assert f[bios] == Pxe(PxeMenu(m)) && files[bios] == Pxe(PxeMenu(w));
  }

  /** A callback rewrites two files, but the BIOS one with what it already holds, unless another
      MAC with the same id and a different operating system had written it. Everything else on disk
      stays. */
  lemma {:induction false} CallbackChangesOneFile(files: Files, key: string, steps: seq<Step>, mac: string)
    requires mac in Run(Boot(files, key), steps).machines
    ensures var s := Run(Boot(files, key), steps);
            var bios, efi := Path(BiosCfg, MacAsID(mac)), Path(EfiCfg, MacAsID(mac));
            var after := LogInstalled(s, mac).files;
            var w := LastWriter(steps, MacAsID(mac));
            && OnlyChanged(s.files, after, {bios, efi})
            && w.Some? && w.value in s.machines
            && (OnlyChanged(s.files, after, {efi}) <==> s.machines[w.value].osType == s.machines[mac].osType)
  {
    var s := Run(Boot(files, key), steps);
    RunWellFormed(Boot(files, key), steps);
    DiskShowsLastWriter(files, key, steps, mac);
    var w := s.machines[LastWriter(steps, MacAsID(mac)).value];
    var m := s.machines[mac].(installed := true);
    Overwrite(s.files, mac, m, w);
    MenusDetermine(m, w);
  }

  // ---------- The provisioning chain ----------

  ghost predicate SeedReady(s: InvState, mac: string)
    requires mac in s.machines && Known(s.machines[mac].osType)
  {
    var p := Path(SeedKind(s.machines[mac].osType), MacAsID(mac));
    && p in s.files && s.files[p].Seed?
    && var owner := s.files[p].cfg.mac;
    && owner in s.machines && MacAsID(owner) == MacAsID(mac)
    && s.files[p] == SeedOf(s.machines[mac].osType, owner, s.sshKey)
    && (s.machines[mac].osType == "ubuntu" ==> MetaReady(s.files, MacAsID(mac)))
  }

  /** cloud-init asks for a meta-data file next to user-data. */
  predicate MetaReady(files: Files, id: string)
  {
    Path(MetaData, id) in files && files[Path(MetaData, id)] == Blank
  }

  lemma BootWriteKeepsSeed(files: Files, mac: string, m: Machine, os: string, id: string)
    requires Known(os)
    ensures var p := Path(SeedKind(os), id);
            var f := WriteBootFiles(files, mac, m);
            (p in f <==> p in files) && (p in files ==> f[p] == files[p])
            && (MetaReady(files, id) ==> MetaReady(f, id))
  {
    hide Path;
    PathInjective(SeedKind(os), id, BiosCfg, MacAsID(mac));
    PathInjective(SeedKind(os), id, EfiCfg, MacAsID(mac));
    PathInjective(MetaData, id, BiosCfg, MacAsID(mac));
    PathInjective(MetaData, id, EfiCfg, MacAsID(mac));
  }

  lemma SeedWriteSeed(files: Files, os: string, mac: string, key: string, os2: string, id: string)
    requires Known(os2)
    ensures var p := Path(SeedKind(os2), id);
            var f := WriteSeeds(files, os, mac, key);
            if os == os2 && id == MacAsID(mac) then
              p in f && f[p] == SeedOf(os, mac, key) && (os == "ubuntu" ==> MetaReady(f, id))
            else
              (p in f <==> p in files) && (p in files ==> f[p] == files[p]) && (MetaReady(files, id) ==> MetaReady(f, id))
  {
    hide Path;
    PathInjective(SeedKind(os2), id, MetaData, MacAsID(mac));
    PathInjective(MetaData, id, MetaData, MacAsID(mac));
    if Known(os) {
      PathInjective(SeedKind(os2), id, SeedKind(os), MacAsID(mac));
      PathInjective(MetaData, id, SeedKind(os), MacAsID(mac));
    }
  }

  /** Every machine with a known operating system has a seed file naming a MAC of the inventory
      with the same id. */
  lemma {:induction false} SeedsReady(files: Files, key: string, steps: seq<Step>, mac: string)
    requires mac in Run(Boot(files, key), steps).machines
    requires Known(Run(Boot(files, key), steps).machines[mac].osType)
    ensures SeedReady(Run(Boot(files, key), steps), mac)
  {
    hide WriteBootFiles, WriteSeeds, MachineOf, Path, SeedKind, MetaReady;
    var before := steps[..|steps| - 1];
    var s0 := Run(Boot(files, key), before);
    var s := Run(Boot(files, key), steps);
    var os, id := s.machines[mac].osType, MacAsID(mac);
    match steps[|steps| - 1]
    case Generate(row) =>
      MachineOfCanonical(row);
      BootWriteKeepsSeed(WriteSeeds(s0.files, row.os, row.mac, s0.sshKey), row.mac, MachineOf(row), os, id);
      SeedWriteSeed(s0.files, row.os, row.mac, s0.sshKey, os, id);
      if row.mac != mac {
        SeedsReady(files, key, before, mac);
      }
    case Callback(m) =>
      SeedsReady(files, key, before, mac);
      if m in s0.machines {
        BootWriteKeepsSeed(s0.files, m, s.machines[m], os, id);
      }
    case Reset =>
  }

  /** Over every interleaving the seed of a machine gives the user named like its OS the key of the store, and
      names the system after the OS, whichever MAC with the same id it was made for. */
  lemma {:induction false} SeedLetsFetchesIn(files: Files, key: string, steps: seq<Step>, mac: string)
    requires mac in Run(Boot(files, key), steps).machines
    requires Known(Run(Boot(files, key), steps).machines[mac].osType)
    ensures var s := Run(Boot(files, key), steps);
            var os := s.machines[mac].osType;
            var p := Path(SeedKind(os), MacAsID(mac));
            && p in s.files && s.files[p].Seed? && s.files[p].os == os
            && s.files[p].cfg.sshPubKey == key && s.files[p].cfg.username == os && s.files[p].cfg.hostname == os + "-node"
            && s.files[p].cfg.mac in s.machines && MacAsID(s.files[p].cfg.mac) == MacAsID(mac)
  {
    hide Run, Path, MacAsID, SeedKind, SeedOf;
    var s := Run(Boot(files, key), steps);
    RunWellFormed(Boot(files, key), steps);
    SeedsReady(files, key, steps, mac);
    var os := s.machines[mac].osType;
    SeedFields(os, s.files[Path(SeedKind(os), MacAsID(mac))].cfg.mac, key);
  }

  /** The handler: an empty MAC is ignored, an unknown one refused. */
  datatype Response = Ignored | Refused | Accepted

  function HandleCallback(s: InvState, mac: string): (InvState, Response)
  {
    if mac == "" then (s, Ignored)
    else if mac !in s.machines then (s, Refused)
    else (LogInstalled(s, mac), Accepted)
  }

  /** What the chain promises for the BIOS file of one id: if it installs at all, the URL leads to a seed on
      disk that names a machine of the inventory with this id. */
  ghost predicate BiosLeadsToSeed(s: InvState, id: string)
  {
    var bios := Path(BiosCfg, id);
    && bios in s.files && s.files[bios].Pxe? && s.files[bios].bios.Some?
    && var url := BiosInstallURL(s.files[bios].bios.value.boot);
    url.Some? ==>
      var seed := ServedPath(url.value);
      && seed.Some? && seed.value in s.files && s.files[seed.value].Seed?
      && var mac := CallbackMac(CallbackURL(s.files[seed.value].cfg));
      mac.Some? && mac.value in s.machines && MacAsID(mac.value) == id
  }

  /** What the chain promises for the EFI file of one id: if its default entry installs, the URL
      leads to a seed on disk whose callback, unless its MAC is empty, is accepted and turns the
      default entry of this very file into the local chainload. */
  ghost predicate ChainClosesAt(s: InvState, id: string)
  {
    var efi := Path(EfiCfg, id);
    && BiosLeadsToSeed(s, id)
    && efi in s.files && s.files[efi].Grub? && s.files[efi].menu.Some? && |s.files[efi].menu.value| == 2
    && var url := InstallURL(s.files[efi].menu.value[0]);
    url.Some? ==>
      var seed := ServedPath(url.value);
      && seed.Some? && seed.value in s.files && s.files[seed.value].Seed?
      && var mac := CallbackMac(CallbackURL(s.files[seed.value].cfg));
      && mac.Some? && mac.value in s.machines && MacAsID(mac.value) == id
      && var (t, r) := HandleCallback(s, mac.value);
      && (r == Accepted <==> mac.value != "")
      && (r == Accepted ==>
            && t.machines[mac.value].installed
            && t.files[efi].Grub? && t.files[efi].menu.Some? && |t.files[efi].menu.value| == 2
            && t.files[efi].menu.value[0].LocalChain?)
  }

  /** The chain closes for every inventory machine after every interleaving. */
  lemma {:induction false} ChainCloses(files: Files, key: string, steps: seq<Step>, mac: string)
    requires mac in Run(Boot(files, key), steps).machines
    ensures ChainClosesAt(Run(Boot(files, key), steps), MacAsID(mac))
  {
    DiskShowsLastWriter(files, key, steps, mac);
    ChainClosesForWriter(files, key, steps, LastWriter(steps, MacAsID(mac)).value);
  }

  /** The boot files of this id send both kinds of installer to this path. */
  ghost predicate InstallsFrom(files: Files, id: string, seed: string)
  {
    var efi, bios := Path(EfiCfg, id), Path(BiosCfg, id);
    && efi in files && files[efi].Grub? && files[efi].menu.Some? && |files[efi].menu.value| == 2
    && bios in files && files[bios].Pxe? && files[bios].bios.Some?
    && var url := BiosInstallURL(files[bios].bios.value.boot);
    && url.Some? && ServedPath(url.value) == Some(seed)
    && (files[efi].menu.value[0].LocalChain? || InstallURL(files[efi].menu.value[0]) == url)
  }

  /** With distinct ids the seed that a machine is sent to is its own. */
  lemma {:induction false} ChainIsOwn(files: Files, key: string, steps: seq<Step>, mac: string)
    requires IDsDistinct(Run(Boot(files, key), steps))
    requires mac in Run(Boot(files, key), steps).machines
    requires Known(Run(Boot(files, key), steps).machines[mac].osType)
    ensures var s := Run(Boot(files, key), steps);
            var os := s.machines[mac].osType;
            var seed := Path(SeedKind(os), MacAsID(mac));
            && seed in s.files && s.files[seed] == SeedOf(os, mac, key)
            && InstallsFrom(s.files, MacAsID(mac), seed)
  {
    var s := Run(Boot(files, key), steps);
    RunWellFormed(Boot(files, key), steps);
    DiskShowsLastWriter(files, key, steps, mac);
    SeedsReady(files, key, steps, mac);
    OwnMenus(s.files, s.machines[mac]);
  }

  lemma OwnMenus(files: Files, m: Machine)
    requires Canonical(m) && Known(m.osType) && Shows(files, m.id, m)
    ensures InstallsFrom(files, m.id, Path(SeedKind(m.osType), m.id))
  {
    var f := m.(installed := false);
    CanonicalRenders(m);
    URLServesSeed(f);
    MenusDetermine(m, f);
    DefaultEntry(m);
  }

  /** The documented outcome: with distinct ids the default EFI entry of a machine is the local
      chainload exactly when it called back after it was last generated. */
  lemma {:induction false} LocalBootIffCalledBack(files: Files, key: string, steps: seq<Step>, mac: string)
    requires IDsDistinct(Run(Boot(files, key), steps))
    requires mac in Run(Boot(files, key), steps).machines
    ensures var s := Run(Boot(files, key), steps);
            var efi := Path(EfiCfg, MacAsID(mac));
            && efi in s.files && s.files[efi].Grub? && s.files[efi].menu.Some? && |s.files[efi].menu.value| == 2
            && var first := s.files[efi].menu.value[0];
            && (first.LocalChain? <==> CalledBack(steps, mac))
            && (CalledBack(steps, mac) && Known(s.machines[mac].osType) ==>
                  first == LocalChain(MacAsID(mac), Some("/EFI/" + s.machines[mac].osType + "/grubx64.efi")))
  {
    var s := Run(Boot(files, key), steps);
    RunWellFormed(Boot(files, key), steps);
    DiskShowsLastWriter(files, key, steps, mac);
    InstalledIffCalledBack(files, key, steps, mac);
    CanonicalRenders(s.machines[mac]);
    DefaultEntry(s.machines[mac]);
  }

  lemma {:induction false} ChainClosesForWriter(files: Files, key: string, steps: seq<Step>, w: string)
    requires var s := Run(Boot(files, key), steps);
             w in s.machines && Shows(s.files, MacAsID(w), s.machines[w])
    ensures ChainClosesAt(Run(Boot(files, key), steps), MacAsID(w))
  {
    hide PxeMenu, GrubMenu, Path, MacAsID, WriteBootFiles, ServedPath, CallbackURL, CallbackMac, BiosLeadsToSeed;
    var s := Run(Boot(files, key), steps);
    BiosLeads(files, key, steps, w);
    RunWellFormed(Boot(files, key), steps);
    CanonicalRenders(s.machines[w]);
    DefaultEntry(s.machines[w]);
    if Known(s.machines[w].osType) && !s.machines[w].installed {
      URLServesSeed(s.machines[w]);
      SeedsReady(files, key, steps, w);
      var owner := s.files[Path(SeedKind(s.machines[w].osType), MacAsID(w))].cfg.mac;
      SeedCallsBack(s.machines[w].osType, owner, s.sshKey);
      var m := s.machines[owner].(installed := true);
      BootWriteShows(s.files, owner, m, MacAsID(w), m);
      CanonicalRenders(m);
      DefaultEntry(m);
    } else {
      NoInstallURL(s.machines[w]);
    }
  }

  lemma {:induction false} BiosLeads(files: Files, key: string, steps: seq<Step>, w: string)
    requires var s := Run(Boot(files, key), steps);
             w in s.machines && Shows(s.files, MacAsID(w), s.machines[w])
    ensures BiosLeadsToSeed(Run(Boot(files, key), steps), MacAsID(w))
  {
    hide GrubMenu, Path, MacAsID, ServedPath, CallbackURL, CallbackMac, Run;
    var s := Run(Boot(files, key), steps);
    RunWellFormed(Boot(files, key), steps);
    var m := s.machines[w];
    var f := m.(installed := false);
    CanonicalRenders(m);
    MenusDetermine(m, f);
    if Known(m.osType) {
      URLServesSeed(f);
      SeedsReady(files, key, steps, w);
      SeedCallsBack(m.osType, s.files[Path(SeedKind(m.osType), MacAsID(w))].cfg.mac, s.sshKey);
    }
  }

  lemma NoInstallURL(m: Machine)
    requires Canonical(m) && (!Known(m.osType) || m.installed)
    ensures GrubMenu(m).Some? && |GrubMenu(m).value| == 2 && InstallURL(GrubMenu(m).value[0]).None?
  {
  }
}
