/** internal/db and the handlers that feed it: the client file, the published index and the
    inventory behind it. Every method is proved against a function of World. */
module FileData {
  import opened Text
  import opened Csv
  import opened Templates
  import opened Population
  import W = World
  import Steps = InventorySteps
  import Inventory

  lemma ScanStarts(s: Steps.InvState, lines: seq<string>)
    ensures AllWide(lines[..0])
    ensures PopulateInv(s, ScanRows(lines[..0])) == Steps.ResetAll(s)
    ensures IndexOf(ScanRows(lines[..0])) == map[] && GroupRows(ScanRows(lines[..0])) == map[]
  {
    PassEmpty(s);
    assert ScanRows(lines[..0]) == [];
  }

  lemma ScanAdvances(lines: seq<string>, i: nat)
    requires i < |lines| && AllWide(lines[..i]) && Wide(lines[i])
    ensures AllWide(lines[..i + 1]) && ScanRows(lines[..i + 1]) == ScanRows(lines[..i]) + [RowOf(lines[i])]
  {
    assert lines[..i + 1] == lines[..i] + [lines[i]];
    ScanRowsConcat(lines[..i], [lines[i]]);
    W.SingleRow(lines[i]);
  }

  lemma {:induction false} ScanStops(lines: seq<string>, i: nat)
    requires i < |lines| && AllWide(lines[..i]) && !Wide(lines[i])
    ensures !AllWide(lines) && ScanRows(lines) == ScanRows(lines[..i])
  {
    assert lines == lines[..i] + lines[i..];
    ScanRowsConcat(lines[..i], lines[i..]);
    assert lines[i..][0] == lines[i];
    assert ScanRows(lines[i..]) == [];
  }

  class Worker {
    var text: string
    var active: Index
    const store: Inventory.Store

    constructor (text: string, store: Inventory.Store)
      requires store.Valid()
      ensures this.store == store && World() == W.World(text, map[], store.State())
    {
      this.text, this.store, active := text, store, map[];
    }

    ghost function World(): W.World
      reads this, store, store.machines.Values
    {
      W.World(text, active, store.State())
    }

    /** Scans the file line by line, rebuilding the inventory as it goes, and publishes the new index
        at the end. complete is false when a short line aborted the scan. clusters is what the
        background validation then works on. */
    method Populate() returns (complete: bool, clusters: Groups)
      requires store.Valid()
      modifies this`active, store`machines, store`installed, store`files
      ensures store.Valid()
      ensures World() == W.Populate(old(World()))
      ensures complete <==> W.Readable(text)
      ensures complete ==> clusters == GroupRows(W.Rows(text))
    {
      hide Steps.GenerateRow, MachineOf, PopulateInv, Split, DataLines, Pass, IndexOf, GroupRows, ScanRows, AllWide;
      var lines := DataLines(text);
      store.Init();
      var m: Index := map[];
      clusters := map[];
      ghost var s := old(store.State());
      ScanStarts(s, lines);
      for i := 0 to |lines|
        invariant store.Valid() && active == old(active)
        invariant AllWide(lines[..i])
        invariant store.State() == PopulateInv(s, ScanRows(lines[..i]))
        invariant m == IndexOf(ScanRows(lines[..i]))
        invariant clusters == GroupRows(ScanRows(lines[..i]))
      {
        var f := Split(lines[i], ',');
        if |f| < 7 {
          ScanStops(lines, i);
          return false, clusters;
        }
        var currCluster := if f[4] == "" then UNCLAIMED else f[4];
        ghost var row := Row(f[0], f[1], f[2], f[3], currCluster, f[5], f[6]);
        ScanAdvances(lines, i);
        PopulateSnoc(s, ScanRows(lines[..i]), row);
        Steps.BootFileUnused(store.State(), row);
        var machine := store.Generate(f[0], f[1], f[3], currCluster, f[6], f[5]);
        m := m[f[1] := Client(f[0], f[1], f[2], f[3], machine.Value())];
        clusters := clusters[currCluster := Members(clusters, currCluster) + [Node(f[1], f[6], f[3], f[0])]];
      }
      assert lines[..|lines|] == lines;
      active := m;
      return true, clusters;
    }

    /** Whether some client of the index is offered this address: a scan with early exit over the
        index in any order. */
    method IPExists(index: Index, ip: string) returns (taken: bool)
      ensures taken <==> W.IPTaken(index, ip)
    {
      var rest := index.Keys;
      while rest != {}
        invariant rest <= index.Keys
        invariant forall m :: m in index && m !in rest ==> index[m].offerIP != ip
      {
        var m :| m in rest;
        if index[m].offerIP == ip {
          return true;
        }
        rest := rest - {m};
      }
      return false;
    }

    /** Checks the index once more, appends the four-field line and repopulates. */
    method AddItemToFile(ip: string, mac: string, os: string) returns (added: bool, complete: bool)
      requires store.Valid()
      modifies this, store`machines, store`installed, store`files
      ensures store.Valid()
      ensures added <==> W.Fresh(old(active), W.Request(mac, ip, os))
      ensures !added ==> World() == old(World())
      ensures added ==>
                World() == W.Populate(old(World()).(text := W.Append(old(text), AsPrinted, W.Request(mac, ip, os))))
      ensures added ==> (complete <==> W.Readable(text))
    {
      hide RegistrationLine, DataLines, AllWide, W.Populate;
      if mac in active {
        return false, false;
      }
      var taken := IPExists(active, ip);
      if taken {
        return false, false;
      }
      text := text + RegistrationLine(AsPrinted, ip, mac, os) + "\n";
      var clusters;
      complete, clusters := Populate();
      return true, complete;
    }

    /** The POST branch of the registration handler; None is a body that does not decode. */
    method HandlePipeline(body: Option<W.Request>) returns (reply: W.Reply)
      requires store.Valid()
      modifies this, store`machines, store`installed, store`files
      ensures store.Valid()
      ensures body.None? ==> reply == W.BadBody && World() == old(World())
      ensures body.Some? ==> (World(), reply) == W.Post(AsPrinted, old(World()), body.value)
    {
      if body.None? {
        return W.BadBody;
      }
      var req := body.value;
      if !(req.os in {"debian", "centos", "ubuntu"}) {
        return W.InvalidOS;
      }
      if req.mac in active {
        return W.MacExists;
      }
      var taken := IPExists(active, req.ip);
      if taken {
        return W.IPExists;
      }
      var _, complete := AddItemToFile(req.ip, req.mac, req.os);
      return if complete then W.Added else W.Aborted;
    }

    /** The watcher's reaction to a change of the file, and process start. survives is false when the
        panic of the scan, which nothing recovers here, ends the process. */
    method Watch() returns (survives: bool)
      requires store.Valid()
      modifies this`active, store`machines, store`installed, store`files
      ensures store.Valid()
      ensures W.Step(AsPrinted, old(World()), W.Reload) == if survives then Some(World()) else None
      ensures survives <==> W.Readable(text)
    {
      var clusters;
      survives, clusters := Populate();
    }

    method HandleCallback(mac: string) returns (r: Steps.Response)
      requires store.Valid()
      modifies store`installed, store`files, if mac in store.machines then {store.machines[mac]} else {}
      ensures store.Valid()
      ensures Some(World()) == W.Step(AsPrinted, old(World()), W.Callback(mac))
      ensures r == Steps.HandleCallback(old(World()).inv, mac).1
    {
      r := store.HandleCallback(mac);
    }
  }
}
