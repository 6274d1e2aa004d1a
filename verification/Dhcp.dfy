/** internal/dhcp: answering PXE clients from the published index. */
module Dhcp {
  import opened Text
  import opened Csv
  import opened Population
  import W = World

  type Addr = seq<bv8>

  datatype MessageType = Discover | Request | Offer | Ack | OtherType

  datatype Message = Message(mac: string, kind: MessageType, vendorClass: Option<string>, arch: Option<seq<bv8>>,
                             noClientIP: bool, broadcast: bool)

  datatype Code = ServerID | SubnetMask | Router | DNS | TFTPServerName | BootFileName | LeaseTime | Kind
                | OtherCode(n: nat)

  datatype Value = Address(a: Addr) | Name(s: string) | Seconds(n: nat) | Type(t: MessageType)

  datatype Reply = Reply(broadcast: bool, yourIP: Option<Addr>, serverIP: Option<Addr>, gatewayIP: Option<Addr>,
                         serverName: string, bootFile: string, options: map<Code, Value>)

  const SERVER: Addr := [192, 168, 99, 1]
  const SERVER_NAME := "192.168.99.1"
  const MASK: Addr := [255, 255, 255, 0]
  const NAME_SERVER: Addr := [8, 8, 8, 8]

  /** The network and boot options every answer carries. */
  function NetworkOptions(bootFile: string): map<Code, Value>
  {
    map[ServerID := Address(SERVER), SubnetMask := Address(MASK), Router := Address(SERVER), DNS := Address(NAME_SERVER),
        TFTPServerName := Name(SERVER_NAME), BootFileName := Name(bootFile), LeaseTime := Seconds(12 * 3600)]
  }

  predicate Contains(s: string, part: string)
  {
    exists i :: 0 <= i <= |s| && StartsAt(s, part, i)
  }

  predicate StartsAt(s: string, part: string, i: nat)
    requires i <= |s|
  {
    part <= s[i..]
  }

  const LEGACY := ["PXEClient:Arch:00000", "PXEClient:Arch:00006", "PXEClient:Arch:00007"]

  predicate Legacy(m: Message)
  {
    || (m.vendorClass.Some? && exists i :: 0 <= i < |LEGACY| && Contains(m.vendorClass.value, LEGACY[i]))
    || (m.noClientIP && m.broadcast)
    || (m.arch.Some? && |m.arch.value| >= 2 && m.arch.value[0] == 0 && m.arch.value[1] == 0)
  }

  method IsLegacyPXEClient(m: Message) returns (legacy: bool)
    ensures legacy <==> Legacy(m)
  {
    if m.vendorClass.Some? {
      for i := 0 to |LEGACY|
        invariant forall j :: 0 <= j < i ==> !Contains(m.vendorClass.value, LEGACY[j])
      {
        if Contains(m.vendorClass.value, LEGACY[i]) {
          return true;
        }
      }
    }
    if m.noClientIP && m.broadcast {
      return true;
    }
    if m.arch.Some? && |m.arch.value| >= 2 {
      if m.arch.value[0] == 0 && m.arch.value[1] == 0 {
        return true;
      }
    }
    return false;
  }

  /** What may be sent in answer to a message. base is the empty reply derived from it, None when
      that fails; parse reads an address column. */
  ghost predicate Answers(index: Index, m: Message, base: Option<Reply>, parse: string -> Option<Addr>,
                          sent: Option<Reply>)
  {
    && (sent.Some? <==> base.Some? && m.mac in index && (m.kind == Discover || m.kind == Request))
    && (sent.Some? ==>
          var c, r := index[m.mac], sent.value;
          && r.yourIP == parse(c.offerIP)
          && r.bootFile == c.bootFileUrl
          && r.broadcast == Legacy(m)
          && r.serverIP == Some(SERVER) && r.gatewayIP == Some(SERVER) && r.serverName == SERVER_NAME
          && r.options == base.value.options + NetworkOptions(c.bootFileUrl)
                          + map[Kind := Type(if m.kind == Discover then Offer else Ack)])
  }

  /** Two addresses lie in one network under the mask. */
  predicate SameNetwork(a: Addr, b: Addr, mask: Addr)
  {
    |a| == |b| == |mask| && forall i :: 0 <= i < |a| ==> a[i] & mask[i] == b[i] & mask[i]
  }

  /** The options of every answer repeat its own fields: it is the server that is named as gateway, server and
      TFTP server, in the client's network; the name server, mask and lease are the fixed ones, and
      every other option is that of the base reply. */
  lemma {:induction false} OptionsRepeatReply(index: Index, m: Message, base: Option<Reply>, parse: string -> Option<Addr>,
                                              sent: Option<Reply>)
    requires Answers(index, m, base, parse, sent) && sent.Some?
    ensures var r := sent.value;
            && base.Some? && r.serverIP == Some([192, 168, 99, 1]) && r.gatewayIP.Some? && r.serverName == "192.168.99.1"
            && {Router, ServerID, TFTPServerName, BootFileName, DNS, SubnetMask, LeaseTime, Kind} <= r.options.Keys
            && r.options[Router] == Address(r.gatewayIP.value)
            && r.options[ServerID] == Address(r.serverIP.value)
            && r.options[TFTPServerName] == Name(r.serverName)
            && r.options[BootFileName] == Name(r.bootFile)
            && r.options[DNS] == Address([8, 8, 8, 8])
            && r.options[SubnetMask] == Address([255, 255, 255, 0])
            && r.options[LeaseTime] == Seconds(43200)
            && r.options[Kind] == Type(if m.kind == Discover then Offer else Ack)
            && SameNetwork(r.gatewayIP.value, r.serverIP.value, r.options[SubnetMask].a)
            && forall c :: c !in {Router, ServerID, TFTPServerName, BootFileName, DNS, SubnetMask, LeaseTime, Kind} ==>
                 (c in r.options <==> c in base.value.options)
                 && (c in r.options ==> r.options[c] == base.value.options[c])
  {
    hide Legacy;
  }

  /** The legacy conditions: a vendor class that contains one of three architectures, a broadcasting client without
      an address, or architecture 0. */
  lemma {:induction false} LegacyIff(m: Message)
    ensures Legacy(m) <==>
              || (m.vendorClass.Some?
                  && exists a, b, arch :: arch in {"00000", "00006", "00007"}
                                          && m.vendorClass.value == a + ("PXEClient:Arch:" + arch) + b)
              || (m.noClientIP && m.broadcast)
              || (m.arch.Some? && [0, 0] <= m.arch.value)
  {
    LegacyNames();
    if m.vendorClass.Some? {
      forall i | 0 <= i < |LEGACY|
        ensures Contains(m.vendorClass.value, LEGACY[i])
           <==> exists a, b :: m.vendorClass.value == a + LEGACY[i] + b
      {
        ContainsIff(m.vendorClass.value, LEGACY[i]);
      }
    }
  }

  lemma LegacyNames()
    ensures |LEGACY| == 3
    ensures LEGACY[0] == "PXEClient:Arch:" + "00000" && LEGACY[1] == "PXEClient:Arch:" + "00006"
         && LEGACY[2] == "PXEClient:Arch:" + "00007"
  {
  }

  lemma ContainsIff(s: string, part: string)
    ensures Contains(s, part) <==> exists a, b :: s == a + part + b
  {
    if Contains(s, part) {
      var i :| 0 <= i <= |s| && StartsAt(s, part, i);
      assert s == s[..i] + part + s[i + |part|..];
    }
    if a, b :| s == a + part + b {
      assert s[|a|..] == part + b;
      assert StartsAt(s, part, |a|);
    }
  }

  method SetOptions(options: map<Code, Value>, bootFile: string) returns (o: map<Code, Value>)
    ensures o == options + NetworkOptions(bootFile)
    ensures o.Keys == options.Keys + {ServerID, SubnetMask, Router, DNS, TFTPServerName, BootFileName, LeaseTime}
    ensures o[ServerID] == Address([192, 168, 99, 1]) && o[Router] == Address([192, 168, 99, 1])
    ensures o[SubnetMask] == Address([255, 255, 255, 0]) && o[DNS] == Address([8, 8, 8, 8])
    ensures o[TFTPServerName] == Name("192.168.99.1") && o[BootFileName] == Name(bootFile) && o[LeaseTime] == Seconds(43200)
  {
    o := options;
    o := o[ServerID := Address(SERVER)];
    o := o[SubnetMask := Address(MASK)];
    o := o[Router := Address(SERVER)];
    o := o[DNS := Address(NAME_SERVER)];
    o := o[TFTPServerName := Name(SERVER_NAME)];
    o := o[BootFileName := Name(bootFile)];
    o := o[LeaseTime := Seconds(12 * 3600)];
  }

  method Handle(index: Index, m: Message, base: Option<Reply>, parse: string -> Option<Addr>)
    returns (sent: Option<Reply>)
    ensures Answers(index, m, base, parse, sent)
  {
    hide Legacy, NetworkOptions;
    var legacy := IsLegacyPXEClient(m);
    if base.None? {
      return None;
    }
    var reply := base.value;
    if m.mac !in index {
      return None;
    }
    var client := index[m.mac];
    if legacy {
      reply := reply.(broadcast := true);
    } else {
      reply := reply.(broadcast := false);
    }
    reply := reply.(yourIP := parse(client.offerIP), serverIP := Some(SERVER), gatewayIP := Some(SERVER));
    reply := reply.(serverName := SERVER_NAME, bootFile := client.bootFileUrl);
    var options := SetOptions(reply.options, client.bootFileUrl);
    reply := reply.(options := options);
    match m.kind {
      case Discover => reply := reply.(options := reply.options[Kind := Type(Offer)]);
      case Request => reply := reply.(options := reply.options[Kind := Type(Ack)]);
      case _ => return None;
    }
    return Some(reply);
  }

  // ---------- Runs ----------

  datatype Exchange = Exchange(m: Message, base: Option<Reply>, sent: Option<Reply>)

  /** Before each message any callbacks and edits of the file may arrive, but nothing that
      repopulates. */
  datatype Turn = Turn(quiet: seq<W.Event>, exchange: Exchange)

  predicate AllQuiet(events: seq<W.Event>)
  {
    forall i :: 0 <= i < |events| ==> events[i].Callback? || events[i].Edit?
  }

  ghost predicate Conversation(w: W.World, turns: seq<Turn>, parse: string -> Option<Addr>)
    decreases |turns|
  {
    turns == [] ||
    var w1 := W.Run(AsPrinted, w, turns[0].quiet);
    var e := turns[0].exchange;
    && AllQuiet(turns[0].quiet)
    && w1.Some?
    && Answers(w1.value.index, e.m, e.base, parse, e.sent)
    && Conversation(w1.value, turns[1..], parse)
  }

  lemma {:induction false} QuietKeepsIndex(w: W.World, events: seq<W.Event>)
    requires AllQuiet(events)
    ensures W.Run(AsPrinted, w, events).Some? && W.Run(AsPrinted, w, events).value.index == w.index
  {
    if events != [] {
      var before := events[..|events| - 1];
      assert forall i :: 0 <= i < |before| ==> before[i] == events[i];
      QuietKeepsIndex(w, before);
    }
  }

  lemma {:induction false} ConversationAnswers(w: W.World, turns: seq<Turn>, parse: string -> Option<Addr>, i: nat)
    requires Conversation(w, turns, parse) && i < |turns|
    ensures var e := turns[i].exchange;
            Answers(w.index, e.m, e.base, parse, e.sent)
    decreases i
  {
    QuietKeepsIndex(w, turns[0].quiet);
    if i > 0 {
      ConversationAnswers(W.Run(AsPrinted, w, turns[0].quiet).value, turns[1..], parse, i - 1);
    }
  }

  /** Between repopulations, whatever is exchanged, called back or edited, every Offer and Ack to one MAC
      carries the same address and boot file: the client ends up with what it was offered. */
  lemma {:induction false} SameOfferEveryTime(w: W.World, turns: seq<Turn>, parse: string -> Option<Addr>, i: nat, j: nat)
    requires Conversation(w, turns, parse) && i < |turns| && j < |turns|
    requires turns[i].exchange.m.mac == turns[j].exchange.m.mac
    requires turns[i].exchange.sent.Some? && turns[j].exchange.sent.Some?
    ensures turns[i].exchange.sent.value.yourIP == turns[j].exchange.sent.value.yourIP
    ensures turns[i].exchange.sent.value.bootFile == turns[j].exchange.sent.value.bootFile
  {
    ConversationAnswers(w, turns, parse, i);
    ConversationAnswers(w, turns, parse, j);
  }

  ghost predicate AddressesDistinct(index: Index, parse: string -> Option<Addr>)
  {
    forall a, b :: a in index && b in index && a != b ==> parse(index[a].offerIP) != parse(index[b].offerIP)
  }

  /** Two MACs are never sent the same address. */
  ghost predicate NoSharedAddress(w: W.World, turns: seq<Turn>)
  {
    forall i, j :: 0 <= i < |turns| && 0 <= j < |turns|
                   && turns[i].exchange.sent.Some? && turns[j].exchange.sent.Some?
                   && turns[i].exchange.m.mac != turns[j].exchange.m.mac
                   ==> turns[i].exchange.sent.value.yourIP != turns[j].exchange.sent.value.yourIP
  }

  /** No conversation shares an address exactly when the index is distinct in addresses as parsed;
      distinct columns are not enough, since every column that is no address parses to nothing. */
  lemma {:induction false} NoSharedAddressIff(w: W.World, parse: string -> Option<Addr>)
    ensures (forall turns :: Conversation(w, turns, parse) ==> NoSharedAddress(w, turns))
       <==> AddressesDistinct(w.index, parse)
  {
    if AddressesDistinct(w.index, parse) {
      forall turns: seq<Turn> | Conversation(w, turns, parse)
        ensures NoSharedAddress(w, turns)
      {
        forall i | 0 <= i < |turns|
          ensures var e := turns[i].exchange; Answers(w.index, e.m, e.base, parse, e.sent)
        {
          ConversationAnswers(w, turns, parse, i);
        }
      }
    } else {
      var a, b :| a in w.index && b in w.index && a != b && parse(w.index[a].offerIP) == parse(w.index[b].offerIP);
      var turns := [Turn([], Discovery(w.index, a, parse)), Turn([], Discovery(w.index, b, parse))];
      TwoDiscoveries(w, a, b, parse);
      assert !NoSharedAddress(w, turns) by {
        assert turns[0].exchange.sent.value.yourIP == turns[1].exchange.sent.value.yourIP;
      }
    }
  }

  function Discovery(index: Index, mac: string, parse: string -> Option<Addr>): Exchange
    requires mac in index
  {
    var m := Message(mac, Discover, None, None, false, false);
    var c := index[mac];
    var reply := Reply(false, parse(c.offerIP), Some(SERVER), Some(SERVER), SERVER_NAME, c.bootFileUrl,
                       NetworkOptions(c.bootFileUrl) + map[Kind := Type(Offer)]);
    Exchange(m, Some(Reply(false, None, None, None, "", "", map[])), Some(reply))
  }

  lemma DiscoveryAnswers(index: Index, mac: string, parse: string -> Option<Addr>)
    requires mac in index
    ensures var e := Discovery(index, mac, parse); Answers(index, e.m, e.base, parse, e.sent)
  {
    var n: map<Code, Value> := NetworkOptions(index[mac].bootFileUrl);
    assert map[] + n == n;
  }

  lemma {:induction false} TwoDiscoveries(w: W.World, a: string, b: string, parse: string -> Option<Addr>)
    requires a in w.index && b in w.index
    ensures Conversation(w, [Turn([], Discovery(w.index, a, parse)), Turn([], Discovery(w.index, b, parse))], parse)
  {
    hide Answers, Discovery;
    DiscoveryAnswers(w.index, a, parse);
    DiscoveryAnswers(w.index, b, parse);
    var turns := [Turn([], Discovery(w.index, a, parse)), Turn([], Discovery(w.index, b, parse))];
    assert W.Run(AsPrinted, w, []) == Some(w);
    assert turns[1..] == [Turn([], Discovery(w.index, b, parse))];
    assert turns[1..][1..] == [];
    assert Conversation(w, [], parse);
    assert Conversation(w, turns[1..], parse);
  }

  // ---------- From a line of the file to the wire ----------

  /** After a repopulation a client is offered the address and boot file written in the last line of
      the file that names its MAC. */
  lemma {:induction false} ServedAsWritten(w: W.World, i: nat, r: Row, m: Message, base: Option<Reply>,
                                           parse: string -> Option<Addr>, sent: Option<Reply>)
    requires W.Readable(w.text) && i < |DataLines(w.text)| && DataLines(w.text)[i] == Join(Fields(r), ',')
    requires forall f :: f in Fields(r) ==> ',' !in f
    requires forall j :: i < j < |DataLines(w.text)| ==> RowOf(DataLines(w.text)[j]).mac != r.mac
    requires m.mac == r.mac && Answers(W.Populate(w).index, m, base, parse, sent)
    ensures sent.Some? <==> base.Some? && (m.kind == Discover || m.kind == Request)
    ensures sent.Some? ==> sent.value.yourIP == parse(r.ip) && sent.value.bootFile == r.bootFile
  {
    hide Split, Legacy, PopulateInv;
    var lines := DataLines(w.text);
    RowsAt(lines);
    SplitOfJoinFree(Fields(r), ',');
    LastOccurrence(W.Rows(w.text), i);
    IndexIsLastWins(W.Rows(w.text), r.mac);
  }

  lemma {:induction false} RowsAt(lines: seq<string>)
    requires AllWide(lines)
    ensures |ScanRows(lines)| == |lines| && forall i :: 0 <= i < |lines| ==> ScanRows(lines)[i] == RowOf(lines[i])
  {
    hide RowOf, Split;
    if lines != [] {
      assert forall i :: 0 <= i < |lines[1..]| ==> lines[1..][i] == lines[i + 1];
      RowsAt(lines[1..]);
    }
  }

  lemma {:induction false} LastOccurrence(rows: seq<Row>, i: nat)
    requires i < |rows| && forall j :: i < j < |rows| ==> rows[j].mac != rows[i].mac
    ensures LastOf(rows, rows[i].mac) == Some(rows[i])
  {
    if i < |rows| - 1 {
      LastOccurrence(rows[..|rows| - 1], i);
    }
  }
}
