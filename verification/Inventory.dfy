/** internal/inventory with its heap: machine objects shared between the machine map and the
    installed map, updated in place, and the generated files. Every method is proved against a step
    of InventorySteps. */
module Inventory {
  import opened Text
  import opened Csv
  import opened Templates
  import Steps = InventorySteps

  class MachineObject {
    var ip: string
    var cluster: string
    var template: string
    var id: string
    var role: string
    var osName: string
    var osType: string
    var kernel: string
    var osData: OsData
    var installed: bool

    constructor (ip: string, cluster: string, template: string, id: string, role: string)
      ensures Value() == Machine(ip, cluster, template, id, role, "", "", "", NoData, false)
    {
      this.ip, this.cluster, this.template, this.id, this.role := ip, cluster, template, id, role;
      osName, osType, kernel, osData, installed := "", "", "", NoData, false;
    }

    function Value(): Machine
      reads this
    {
      Machine(ip, cluster, template, id, role, osName, osType, kernel, osData, installed)
    }

    method Flag()
      modifies this
      ensures Value() == old(Value()).(installed := true)
    {
      installed := true;
    }
  }

  datatype Mode = Bios | Efi

  /** The last line of the public key file; "" when there is none. */
  function LastKey(keyFile: Option<string>): string
  {
    if keyFile.None? || Lines(keyFile.value) == [] then ""
    else Lines(keyFile.value)[|Lines(keyFile.value)| - 1]
  }

  /** The key is the last line of the file, and empty without a file. */
  lemma {:induction false} LastKeyIsLastLine(text: string, line: string)
    requires (text == "" || EndsWithNewline(text)) && '\n' !in line
    ensures LastKey(Some(text + line + "\n")) == line
    ensures line != "" ==> LastKey(Some(text + line)) == line
    ensures LastKey(None) == ""
  {
    hide Split;
    SplitConcat(text + line, "", '\n');
    assert text + line + "\n" == (text + line) + ['\n'] + "";
    SplitAppendFree(text, line, '\n');
    SplitEmpty('\n');
    LastPiece(text, '\n');
  }

  class Store {
    var machines: map<string, MachineObject>
    var installed: map<string, MachineObject>
    var files: Files
    const keyFile: Option<string>

    /** No object stands for two MACs, within the machine map or across the two maps. */
    ghost predicate Valid()
      reads this
    {
      && (forall a, b :: a in machines && b in machines && a != b ==> machines[a] != machines[b])
      && (forall a, b :: a in machines && b in installed && a != b ==> machines[a] != installed[b])
    }

    ghost function View(): (view: map<string, Machine>)
      reads this`machines, machines.Values
      ensures view.Keys == machines.Keys
    {
      map m | m in machines :: machines[m].Value()
    }

    ghost function Aliased(): set<string>
      reads this`machines, this`installed
    {
      set m | m in machines && m in installed && machines[m] == installed[m]
    }

    ghost function State(): Steps.InvState
      reads this, machines.Values
    {
      Steps.InvState(View(), installed.Keys, Aliased(), files, LastKey(keyFile))
    }

    constructor (files: Files, keyFile: Option<string>)
      ensures Valid() && State() == Steps.Boot(files, LastKey(keyFile))
      ensures machines == map[] && installed == map[]
    {
      machines, installed := map[], map[];
      this.files, this.keyFile := files, keyFile;
    }

    method Init()
      requires Valid()
      modifies this`machines, this`installed
      ensures Valid() && State() == Steps.ResetAll(old(State()))
    {
      machines, installed := map[], map[];
    }

    method ReadSSHKey(m: string) returns (chunk: Option<map<string, string>>)
      ensures chunk.None? <==> keyFile.None?
      ensures (if chunk.Some? && m in chunk.value then chunk.value[m] else "") == LastKey(keyFile)
    {
      if keyFile.None? {
        return None;
      }
      var lines := Lines(keyFile.value);
      var keys: map<string, string> := map[];
      for i := 0 to |lines|
        invariant i == 0 ==> keys == map[]
        invariant i > 0 ==> keys == map[m := lines[i - 1]]
      {
        keys := keys[m := lines[i]];
      }
      return Some(keys);
    }

    method GenSeed(os: string, id: string, mac: string)
      requires Known(os) && id == MacAsID(mac)
      modifies this`files
      ensures files == WriteSeeds(old(files), os, mac, LastKey(keyFile))
      ensures var p := Path(SeedKind(os), id);
              && p in files && files[p].Seed? && files[p].os == os
              && files[p].cfg.sshPubKey == LastKey(keyFile) && files[p].cfg.username == os
              && files[p].cfg.hostname == os + "-node" && files[p].cfg.mac == mac
              && files[p].cfg.callbackHost == "192.168.99.1:8033"
    {
      var chunk := ReadSSHKey(mac);
      var key := if chunk.Some? && mac in chunk.value then chunk.value[mac] else "";
      files := files[Path(SeedKind(os), id) := SeedOf(os, mac, key)];
      SeedFields(os, mac, key);
      PathInjective(SeedKind(os), id, MetaData, id);
      if os == "ubuntu" {
        files := files[Path(MetaData, id) := Blank];
      }
    }

    method GenPXEEntry(mode: Mode, m: string, target: MachineObject)
      modifies this`files
      ensures files == match mode
                       case Bios => old(files)[Path(BiosCfg, MacAsID(m)) := Pxe(PxeMenu(target.Value()))]
                       case Efi => old(files)[Path(EfiCfg, MacAsID(m)) := Grub(GrubMenu(target.Value()))]
    {
      match mode
      case Bios => files := files[Path(BiosCfg, MacAsID(m)) := Pxe(PxeMenu(target.Value()))];
      case Efi => files := files[Path(EfiCfg, MacAsID(m)) := Grub(GrubMenu(target.Value()))];
    }

    /** Builds the object field by field and writes its seed; the maps are not touched yet. */
    method Build(ip: string, m: string, t: string, c: string, role: string, ansibleTemplate: string)
      returns (target: MachineObject)
      modifies this`files
      ensures fresh(target)
      ensures target.Value() == MachineOf(Row(ip, m, "", t, c, ansibleTemplate, role))
      ensures files == WriteSeeds(old(files), t, m, LastKey(keyFile))
    {
      hide WriteSeeds, Path, MacAsID, LastKey, Lines, SeedKind, SeedOf;
      NoSeedsIfUnknown(files, t, m, LastKey(keyFile));
      var macAsID := MacAsID(m);
      target := new MachineObject(ip, c, ansibleTemplate, macAsID, role);
      if t == "centos" {
        target.osName, target.osType, target.kernel := "Centos Stream 10", t, "/images/centos/vmlinuz";
        target.osData := CentOS("/images/centos/initrd.img", "",
                                "http://192.168.99.1:8033/centos/" + macAsID + "/install.ks",
                                "http://192.168.99.1:8033/centos/mirror/",
                                "http://192.168.99.1:8033/centos/mirror");
        GenSeed(t, macAsID, m);
      } else if t == "ubuntu" {
        target.osName, target.osType, target.kernel := "Ubuntu 20.04", t, "/images/ubuntu/linux";
        target.osData := Ubuntu("/images/ubuntu/initrd", "",
                                "http://192.168.99.1:8033/ubuntu/iso/ubuntu-26.04-live-server-amd64.iso",
                                "/dev/null",
                                "http://192.168.99.1:8033/ubuntu/" + macAsID + "/",
                                "/dev/ram0");
        GenSeed(t, macAsID, m);
      } else if t == "debian" {
        target.osName, target.osType, target.kernel := "Debian 12", t, "/images/debian/linux";
        target.osData := Debian("/images/debian/initrd.gz",
                                "http://192.168.99.1:8033/debian/preseed-" + macAsID + ".cfg");
        GenSeed(t, macAsID, m);
      }
    }

    method WriteEntries(m: string, target: MachineObject)
      modifies this`files
      ensures files == WriteBootFiles(old(files), m, target.Value())
    {
      GenPXEEntry(Bios, m, target);
      GenPXEEntry(Efi, m, target);
    }

    method Enter(m: string, target: MachineObject)
      requires Valid() && target !in machines.Values && target !in installed.Values
      modifies this`machines
      ensures Valid() && machines == old(machines)[m := target]
      ensures State() == var s := old(State());
                         s.(machines := s.machines[m := target.Value()], aliased := s.aliased - {m})
    {
      machines := machines[m := target];
      assert View() == old(View())[m := target.Value()];
      assert Aliased() == old(Aliased()) - {m};
    }

    /** Generates one row: a new object, its files, then its entry in the machine map. An older
        object of the same MAC is replaced, also if the installed map still holds it. */
    method Generate(ip: string, m: string, t: string, c: string, role: string, ansibleTemplate: string)
      returns (target: MachineObject)
      requires Valid()
      modifies this`machines, this`files
      ensures Valid() && fresh(target) && machines == old(machines)[m := target]
      ensures target.Value() == MachineOf(Row(ip, m, "", t, c, ansibleTemplate, role))
      ensures target.ip == ip && target.cluster == c && target.template == ansibleTemplate && target.role == role
      ensures target.id == MacAsID(m) && !target.installed
      ensures State() == Steps.GenerateRow(old(State()), Row(ip, m, "", t, c, ansibleTemplate, role))
    {
      hide WriteBootFiles, WriteSeeds, Path, PxeMenu, GrubMenu, MachineOf;
      target := Build(ip, m, t, c, role, ansibleTemplate);
      WriteEntries(m, target);
      assert View() == old(View()) && Aliased() == old(Aliased());
      Enter(m, target);
      RecordShowsRow(Row(ip, m, "", t, c, ansibleTemplate, role));
    }

    lemma {:induction false} ViewAt(m: string)
      requires m in machines
      ensures View()[m] == machines[m].Value()
    {
    }

    method SetInstalled(m: string)
      requires Valid() && m in machines
      modifies machines[m]
      ensures Valid() && machines == old(machines) && installed == old(installed) && files == old(files)
      ensures Aliased() == old(Aliased())
      ensures View() == old(View())[m := old(View())[m].(installed := true)]
    {
      hide MachineObject.Value;
      machines[m].Flag();
      forall k | k in machines && k != m
        ensures machines[k].Value() == old(machines[k].Value())
      {
        assert machines[k] != machines[m];
      }
    }

    method EnterInstalled(m: string)
      requires Valid() && m in machines
      modifies this`installed
      ensures Valid() && installed == old(installed)[m := machines[m]]
      ensures Aliased() == old(Aliased()) + {m}
    {
      installed := installed[m := machines[m]];
    }

    /** The install callback: the object is flagged in place and shared by both maps. */
    method LogInstalledMachine(m: string) returns (known: bool)
      requires Valid()
      modifies this`installed, this`files, if m in machines then {machines[m]} else {}
      ensures Valid() && machines == old(machines)
      ensures known <==> m in machines
      ensures known ==> m in installed && installed[m] == machines[m]
      ensures State() == Steps.LogInstalled(old(State()), m)
    {
      hide WriteBootFiles, View, Aliased, LastKey;
      if m !in machines {
        return false;
      }
      EnterInstalled(m);
      SetInstalled(m);
      ghost var view := View();
      ViewAt(m);
      WriteEntries(m, machines[m]);
      assert View() == view;
      assert files == WriteBootFiles(old(files), m, view[m]);
      return true;
    }

    method HandleCallback(mac: string) returns (r: Steps.Response)
      requires Valid()
      modifies this`installed, this`files, if mac in machines then {machines[mac]} else {}
      ensures Valid() && machines == old(machines)
      ensures (State(), r) == Steps.HandleCallback(old(State()), mac)
    {
      if mac == "" {
        return Steps.Ignored;
      }
      var known := LogInstalledMachine(mac);
      return if known then Steps.Accepted else Steps.Refused;
    }
  }
}
