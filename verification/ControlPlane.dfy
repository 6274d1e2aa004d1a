/** internal/http, the playbook handler: which node a worker joins, and when the handler gets there
    at all; with the reading of a Kubernetes node that it builds on. */
module ControlPlane {
  import opened Text
  import opened Orders
  import opened Csv
  import opened Population
  import opened Clusters
  import K = KubeClient

  const CONTROL := "control-plane"

  datatype Pair = Pair(kind: string, value: string)

  /** A node as the Kubernetes API delivers it; label keys in no particular order. */
  datatype RawNode = RawNode(name: string, conditions: seq<Pair>, labels: set<string>, addresses: seq<Pair>)

  function LastOfKind(ps: seq<Pair>, kind: string): string
  {
    if ps == [] then ""
    else if ps[|ps| - 1].kind == kind then ps[|ps| - 1].value
    else LastOfKind(ps[..|ps| - 1], kind)
  }

  /** The value is that of the last pair of this kind, and empty exactly if there is none or it is empty itself. */
  lemma {:induction false} LastOfKindIff(ps: seq<Pair>, kind: string, value: string)
    ensures LastOfKind(ps, kind) == value
       <==> || (exists i :: 0 <= i < |ps| && ps[i].kind == kind && ps[i].value == value
                           && forall j :: i < j < |ps| ==> ps[j].kind != kind)
            || (value == "" && forall j :: 0 <= j < |ps| ==> ps[j].kind != kind)
  {
    if ps != [] {
      var before := ps[..|ps| - 1];
      assert forall i :: 0 <= i < |before| ==> before[i] == ps[i];
      if ps[|ps| - 1].kind != kind {
        LastOfKindIff(before, kind, value);
      }
    }
  }

  /** Status, roles and address of a node. Whatever the label order, "control-plane" is listed once
      if the label is there and never otherwise, and a node without role labels is a worker. */
  method ParseNode(raw: RawNode) returns (node: KubeNode, status: string)
    ensures node.name == raw.name
    ensures status == if Pair("Ready", "True") in raw.conditions then "Ready" else "NotReady"
    ensures multiset(node.roles)[CONTROL] == if "node-role.kubernetes.io/control-plane" in raw.labels then 1 else 0
    ensures multiset(node.roles)["worker"] == if "node-role.kubernetes.io/worker" in raw.labels
                                                 || "node-role.kubernetes.io/control-plane" !in raw.labels then 1 else 0
    ensures forall r :: r in node.roles ==> r == CONTROL || r == "worker"
    ensures node.internalIP == LastOfKind(raw.addresses, "InternalIP")
    ensures || (node.internalIP == "" && forall j :: 0 <= j < |raw.addresses| ==> raw.addresses[j].kind != "InternalIP")
            || exists i :: 0 <= i < |raw.addresses| && raw.addresses[i] == Pair("InternalIP", node.internalIP)
                           && forall j :: i < j < |raw.addresses| ==> raw.addresses[j].kind != "InternalIP"
  {
    status := "NotReady";
    for i := 0 to |raw.conditions|
      invariant status == if Pair("Ready", "True") in raw.conditions[..i] then "Ready" else "NotReady"
    {
      assert raw.conditions[..i + 1] == raw.conditions[..i] + [raw.conditions[i]];
      if raw.conditions[i].kind == "Ready" && raw.conditions[i].value == "True" {
        status := "Ready";
      }
    }
    assert raw.conditions[..|raw.conditions|] == raw.conditions;

    var roles := ParseRoles(raw.labels);
    var internalIP := "";
    for i := 0 to |raw.addresses|
      invariant internalIP == LastOfKind(raw.addresses[..i], "InternalIP")
    {
      assert raw.addresses[..i + 1][..i] == raw.addresses[..i];
      if raw.addresses[i].kind == "InternalIP" {
        internalIP := raw.addresses[i].value;
      }
    }
    assert raw.addresses[..|raw.addresses|] == raw.addresses;
    node := KubeNode(raw.name, roles, internalIP);
    LastOfKindIff(raw.addresses, "InternalIP", internalIP);
  }

  method ParseRoles(labels: set<string>) returns (roles: seq<string>)
    ensures multiset(roles)[CONTROL] == if "node-role.kubernetes.io/control-plane" in labels then 1 else 0
    ensures multiset(roles)["worker"] == if "node-role.kubernetes.io/worker" in labels
                                            || "node-role.kubernetes.io/control-plane" !in labels then 1 else 0
    ensures forall r :: r in roles ==> r == CONTROL || r == "worker"
  {
    var control, worker := "node-role.kubernetes.io/control-plane", "node-role.kubernetes.io/worker";
    assert control[24] == 'c' && worker[24] == 'w';
    assert CONTROL[0] != "worker"[0];
    roles := [];
    var rest := labels;
    while rest != {}
      invariant rest <= labels
      invariant multiset(roles)[CONTROL] == if control in labels - rest then 1 else 0
      invariant multiset(roles)["worker"] == if worker in labels - rest then 1 else 0
      invariant forall r :: r in roles ==> r == CONTROL || r == "worker"
    {
      var key :| key in rest;
      if key == control {
        roles := roles + [CONTROL];
      }
      if key == worker {
        roles := roles + ["worker"];
      }
      rest := rest - {key};
    }
    assert labels - {} == labels;
    if |roles| == 0 {
      roles := roles + ["worker"];
    } else {
      assert roles[0] in multiset(roles);
      assert roles[0] in roles;
      assert control in labels || worker in labels;
    }
  }

  // ---------- The node to join ----------

  datatype NodeObj = NodeObj(name: string, ip: string, mac: string, role: string)

  const NO_NODE := NodeObj("", "", "", "")

  function LastControl(nodes: seq<KubeNode>): Option<KubeNode>
  {
    if nodes == [] then None
    else if CONTROL in nodes[|nodes| - 1].roles then Some(nodes[|nodes| - 1])
    else LastControl(nodes[..|nodes| - 1])
  }

  /** The last node with the control-plane role, none exactly if no node has it. */
  lemma {:induction false} LastControlIff(nodes: seq<KubeNode>)
    ensures LastControl(nodes).None? <==> forall i :: 0 <= i < |nodes| ==> "control-plane" !in nodes[i].roles
    ensures LastControl(nodes).Some? ==>
              exists i :: 0 <= i < |nodes| && nodes[i] == LastControl(nodes).value && "control-plane" in nodes[i].roles
                          && forall j :: i < j < |nodes| ==> "control-plane" !in nodes[j].roles
  {
    if nodes != [] {
      var before := nodes[..|nodes| - 1];
      assert forall i :: 0 <= i < |before| ==> before[i] == nodes[i];
      LastControlIff(before);
    }
  }

  predicate Matches(c: Client, ip: string)
  {
    c.machine.ip == ip
  }

  /** Nobody if no client has the address, otherwise any client that has it. */
  ghost predicate Found(clients: Index, ip: string, mac: string, name: string)
  {
    if forall m :: m in clients ==> !Matches(clients[m], ip) then mac == "" && name == ""
    else exists m :: m in clients && Matches(clients[m], ip) && mac == clients[m].mac && name == clients[m].machine.osType
  }

  ghost predicate Selected(nodes: seq<KubeNode>, clients: Index, obj: NodeObj)
  {
    match LastControl(nodes)
    case None => obj == NO_NODE
    case Some(n) => obj.ip == n.internalIP && obj.role == CONTROL && Found(clients, n.internalIP, obj.mac, obj.name)
  }

  /** The client loop: it does not stop at a match, so the last match in map order stays. */
  method FindClient(clients: Index, ip: string) returns (mac: string, name: string)
    ensures Found(clients, ip, mac, name)
  {
    mac, name := "", "";
    var rest := clients.Keys;
    while rest != {}
      invariant rest <= clients.Keys
      invariant (mac == "" && name == "" && forall m :: m in clients && m !in rest ==> !Matches(clients[m], ip))
             || (exists m :: m in clients && Matches(clients[m], ip)
                             && mac == clients[m].mac && name == clients[m].machine.osType)
    {
      var m :| m in rest;
      if clients[m].machine.ip == ip {
        name := clients[m].machine.osType;
        mac := clients[m].mac;
        assert Matches(clients[m], ip);
      }
      rest := rest - {m};
    }
  }

  method SelectNode(nodes: seq<KubeNode>, clients: Index) returns (obj: NodeObj)
    ensures Selected(nodes, clients, obj)
  {
    obj := NO_NODE;
    for i := 0 to |nodes|
      invariant Selected(nodes[..i], clients, obj)
    {
      assert nodes[..i + 1][..i] == nodes[..i];
      ghost var before := obj;
      var roles := nodes[i].roles;
      for j := 0 to |roles|
        invariant CONTROL !in roles[..j] ==> obj == before
        invariant CONTROL in roles[..j] ==>
                    && obj.ip == nodes[i].internalIP && obj.role == CONTROL
                    && Found(clients, nodes[i].internalIP, obj.mac, obj.name)
      {
        assert roles[..j + 1] == roles[..j] + [roles[j]];
        if roles[j] == CONTROL {
          var mac, name := FindClient(clients, nodes[i].internalIP);
          obj := NodeObj(name, nodes[i].internalIP, mac, roles[j]);
        }
      }
      assert roles[..|roles|] == roles;
    }
    assert nodes[..|nodes|] == nodes;
  }

  ghost predicate Keyed(clients: Index)
  {
    forall m :: m in clients ==> clients[m].mac == m
  }

  /** At most one client has the address. */
  ghost predicate MatchUnique(clients: Index, ip: string)
  {
    forall a, b :: a in clients && b in clients && Matches(clients[a], ip) && Matches(clients[b], ip) ==> a == b
  }

  lemma FoundUniqueIff(clients: Index, ip: string)
    requires Keyed(clients)
    ensures (forall mac, name, mac2, name2 :: Found(clients, ip, mac, name) && Found(clients, ip, mac2, name2)
                                              ==> mac == mac2 && name == name2)
       <==> MatchUnique(clients, ip)
  {
    if !MatchUnique(clients, ip) {
      var a, b :| a in clients && b in clients && Matches(clients[a], ip) && Matches(clients[b], ip) && a != b;
      assert Found(clients, ip, a, clients[a].machine.osType);
      assert Found(clients, ip, b, clients[b].machine.osType);
    }
  }

  lemma {:induction false} SelectedUniqueIff(nodes: seq<KubeNode>, clients: Index)
    requires Keyed(clients)
    ensures (forall a, b :: Selected(nodes, clients, a) && Selected(nodes, clients, b) ==> a == b)
       <==> LastControl(nodes).None? || MatchUnique(clients, LastControl(nodes).value.internalIP)
  {
    if LastControl(nodes).Some? {
      var ip := LastControl(nodes).value.internalIP;
      FoundUniqueIff(clients, ip);
      if !MatchUnique(clients, ip) {
        var mac, name, mac2, name2 :| Found(clients, ip, mac, name) && Found(clients, ip, mac2, name2)
                                      && !(mac == mac2 && name == name2);
        assert Selected(nodes, clients, NodeObj(name, ip, mac, CONTROL));
        assert Selected(nodes, clients, NodeObj(name2, ip, mac2, CONTROL));
      }
    }
  }

  // ---------- Explicit orders ----------

  /** The client loop over these keys in order: the last match stays. */
  function FindIn(clients: Index, ip: string, order: seq<string>): (string, string)
    requires forall i :: 0 <= i < |order| ==> order[i] in clients
  {
    if order == [] then ("", "")
    else
      var n := |order| - 1;
      var c := clients[order[n]];
      if Matches(c, ip) then (c.mac, c.machine.osType) else FindIn(clients, ip, order[..n])
  }

  /** The role loop of one node, obj being the choice so far; it searches the clients once for every
      control-plane role, each time in an order of its own. */
  function ChooseInOrder(node: KubeNode, roles: seq<string>, clients: Index, orders: seq<seq<string>>, obj: NodeObj): NodeObj
    requires |orders| == |roles| && forall j :: 0 <= j < |orders| ==> Lists(orders[j], clients.Keys)
  {
    if roles == [] then obj
    else
      var n := |roles| - 1;
      if roles[n] == CONTROL then
        assert Lists(orders[n], clients.Keys);
        var (mac, name) := FindIn(clients, node.internalIP, orders[n]);
        NodeObj(name, node.internalIP, mac, CONTROL)
      else ChooseInOrder(node, roles[..n], clients, orders[..n], obj)
  }

  predicate OrdersSearches(nodes: seq<KubeNode>, clients: Index, orders: seq<seq<seq<string>>>)
  {
    && |orders| == |nodes|
    && forall i :: 0 <= i < |nodes| ==>
         |orders[i]| == |nodes[i].roles| && forall j :: 0 <= j < |orders[i]| ==> Lists(orders[i][j], clients.Keys)
  }

  /** The selection with the order of every client search fixed. */
  function SelectInOrder(nodes: seq<KubeNode>, clients: Index, orders: seq<seq<seq<string>>>): NodeObj
    requires OrdersSearches(nodes, clients, orders)
  {
    if nodes == [] then NO_NODE
    else
      var n := |nodes| - 1;
      ChooseInOrder(nodes[n], nodes[n].roles, clients, orders[n], SelectInOrder(nodes[..n], clients, orders[..n]))
  }

  lemma {:induction false} FindFinds(clients: Index, ip: string, order: seq<string>)
    requires forall i :: 0 <= i < |order| ==> order[i] in clients
    ensures var (mac, name) := FindIn(clients, ip, order);
            || (mac == "" && name == "" && forall m :: m in order ==> !Matches(clients[m], ip))
            || exists m :: m in order && Matches(clients[m], ip) && mac == clients[m].mac && name == clients[m].machine.osType
  {
    hide Matches;
    if order != [] {
      FindFinds(clients, ip, order[..|order| - 1]);
      assert order == order[..|order| - 1] + [order[|order| - 1]];
    }
  }

  lemma {:induction false} FoundInOrder(clients: Index, ip: string, order: seq<string>)
    requires Lists(order, clients.Keys)
    ensures var (mac, name) := FindIn(clients, ip, order); Found(clients, ip, mac, name)
  {
    hide Matches, FindIn;
    FindFinds(clients, ip, order);
  }

  /** What can be found is exactly what some order of the clients finds. */
  lemma {:induction false} FoundIff(clients: Index, ip: string, mac: string, name: string)
    ensures Found(clients, ip, mac, name)
       <==> exists order :: Lists(order, clients.Keys) && FindIn(clients, ip, order) == (mac, name)
  {
    hide Matches, Found;
    if order :| Lists(order, clients.Keys) && FindIn(clients, ip, order) == (mac, name) {
      FoundInOrder(clients, ip, order);
    }
    if Found(clients, ip, mac, name) {
      FindableInOrder(clients, ip, mac, name);
    }
  }

  lemma {:induction false} FindableInOrder(clients: Index, ip: string, mac: string, name: string)
    requires Found(clients, ip, mac, name)
    ensures exists order :: Lists(order, clients.Keys) && FindIn(clients, ip, order) == (mac, name)
  {
    hide Matches;
    if m :| m in clients && Matches(clients[m], ip) && mac == clients[m].mac && name == clients[m].machine.osType {
      var order := OrderEndingIn(clients.Keys, m);
      assert Lists(order, clients.Keys);
      assert FindIn(clients, ip, order) == (mac, name);
    } else {
      var order := SomeOrder(clients.Keys);
      FoundInOrder(clients, ip, order);
      assert FindIn(clients, ip, order) == (mac, name);
    }
  }

  lemma {:induction false} ChoiceOfNode(node: KubeNode, roles: seq<string>, clients: Index, orders: seq<seq<string>>,
                                        obj: NodeObj)
    requires |orders| == |roles| && forall j :: 0 <= j < |orders| ==> Lists(orders[j], clients.Keys)
    ensures var r := ChooseInOrder(node, roles, clients, orders, obj);
            if CONTROL in roles then
              r.ip == node.internalIP && r.role == CONTROL
              && exists order :: Lists(order, clients.Keys) && FindIn(clients, node.internalIP, order) == (r.mac, r.name)
            else r == obj
  {
    hide FindIn;
    if roles != [] {
      var n := |roles| - 1;
      assert roles == roles[..n] + [roles[n]];
      if roles[n] == CONTROL {
        assert Lists(orders[n], clients.Keys);
      } else {
        ChoiceOfNode(node, roles[..n], clients, orders[..n], obj);
      }
    }
  }

  lemma {:induction false} SelectionIsSelected(nodes: seq<KubeNode>, clients: Index, orders: seq<seq<seq<string>>>)
    requires OrdersSearches(nodes, clients, orders)
    ensures Selected(nodes, clients, SelectInOrder(nodes, clients, orders))
  {
    hide FindIn, Found, ChooseInOrder;
    if nodes != [] {
      var n := |nodes| - 1;
      var before := SelectInOrder(nodes[..n], clients, orders[..n]);
      SelectionIsSelected(nodes[..n], clients, orders[..n]);
      ChoiceOfNode(nodes[n], nodes[n].roles, clients, orders[n], before);
      var r := SelectInOrder(nodes, clients, orders);
      if CONTROL in nodes[n].roles {
        FoundIff(clients, nodes[n].internalIP, r.mac, r.name);
      }
    }
  }

  /** Searching in one and the same order every time. */
  function SameOrder(nodes: seq<KubeNode>, order: seq<string>): seq<seq<seq<string>>>
  {
    seq(|nodes|, i requires 0 <= i < |nodes| => seq(|nodes[i].roles|, _ => order))
  }

  lemma {:induction false} SameOrderSelects(nodes: seq<KubeNode>, clients: Index, order: seq<string>)
    requires Lists(order, clients.Keys)
    ensures OrdersSearches(nodes, clients, SameOrder(nodes, order))
    ensures SelectInOrder(nodes, clients, SameOrder(nodes, order))
         == match LastControl(nodes)
            case None => NO_NODE
            case Some(k) => var (mac, name) := FindIn(clients, k.internalIP, order);
                            NodeObj(name, k.internalIP, mac, CONTROL)
  {
    hide FindIn, ChooseInOrder;
    if nodes != [] {
      var n := |nodes| - 1;
      var orders := SameOrder(nodes, order);
      SameOrderSelects(nodes[..n], clients, order);
      assert orders[..n] == SameOrder(nodes[..n], order);
      SameOrderChoice(nodes[n], nodes[n].roles, clients, order, SelectInOrder(nodes[..n], clients, orders[..n]));
      assert orders[n] == seq(|nodes[n].roles|, _ => order);
    }
  }

  lemma {:induction false} SameOrderChoice(node: KubeNode, roles: seq<string>, clients: Index, order: seq<string>, obj: NodeObj)
    requires Lists(order, clients.Keys)
    ensures ChooseInOrder(node, roles, clients, seq(|roles|, _ => order), obj)
         == if CONTROL in roles then
              var (mac, name) := FindIn(clients, node.internalIP, order); NodeObj(name, node.internalIP, mac, CONTROL)
            else obj
  {
    hide FindIn;
    if roles != [] {
      var n := |roles| - 1;
      assert roles == roles[..n] + [roles[n]];
      assert seq(|roles|, _ => order)[..n] == seq(n, _ => order);
      SameOrderChoice(node, roles[..n], clients, order, obj);
    }
  }

  /** What can be selected is exactly what some orders of the client searches select. */
  lemma {:induction false} SelectedIff(nodes: seq<KubeNode>, clients: Index, obj: NodeObj)
    ensures Selected(nodes, clients, obj)
       <==> exists orders :: OrdersSearches(nodes, clients, orders) && SelectInOrder(nodes, clients, orders) == obj
  {
    hide SelectInOrder, OrdersSearches, FindIn, Found;
    if orders :| OrdersSearches(nodes, clients, orders) && SelectInOrder(nodes, clients, orders) == obj {
      SelectionIsSelected(nodes, clients, orders);
    }
    if Selected(nodes, clients, obj) {
      var order := SomeOrder(clients.Keys);
      if LastControl(nodes).Some? {
        FoundIff(clients, obj.ip, obj.mac, obj.name);
        order :| Lists(order, clients.Keys) && FindIn(clients, obj.ip, order) == (obj.mac, obj.name);
      }
      SameOrderSelects(nodes, clients, order);
    }
  }

  /** All orders join the same node exactly when at most one client has the address of the last
      control-plane node, or there is no such node. */
  lemma {:induction false} SelectionUniqueIff(nodes: seq<KubeNode>, clients: Index)
    requires Keyed(clients)
    ensures (forall a, b :: OrdersSearches(nodes, clients, a) && OrdersSearches(nodes, clients, b)
                            ==> SelectInOrder(nodes, clients, a) == SelectInOrder(nodes, clients, b))
       <==> LastControl(nodes).None? || MatchUnique(clients, LastControl(nodes).value.internalIP)
  {
    hide SelectInOrder, OrdersSearches, Selected, MatchUnique, Keyed;
    SelectedUniqueIff(nodes, clients);
    if forall a, b :: Selected(nodes, clients, a) && Selected(nodes, clients, b) ==> a == b {
      forall a, b | OrdersSearches(nodes, clients, a) && OrdersSearches(nodes, clients, b)
        ensures SelectInOrder(nodes, clients, a) == SelectInOrder(nodes, clients, b)
      {
        SelectedIff(nodes, clients, SelectInOrder(nodes, clients, a));
        SelectedIff(nodes, clients, SelectInOrder(nodes, clients, b));
      }
    } else {
      var a, b :| Selected(nodes, clients, a) && Selected(nodes, clients, b) && a != b;
      SelectedIff(nodes, clients, a);
      SelectedIff(nodes, clients, b);
    }
  }

  /** The object names the rows with this address, or nobody. */
  ghost predicate NamesRow(rows: seq<Row>, ip: string, obj: NodeObj)
  {
    && obj.ip == ip && obj.role == CONTROL
    && (forall i :: 0 <= i < |rows| && rows[i].ip == ip ==> obj.mac == rows[i].mac && obj.name == OsColumn(rows[i]))
    && ((forall i :: 0 <= i < |rows| ==> rows[i].ip != ip) ==> obj.mac == "" && obj.name == "")
  }

  /** With distinct addresses in the file: the node is the row with its address, or nobody. */
  lemma {:induction false} SelectionFromRows(nodes: seq<KubeNode>, rows: seq<Row>, obj: NodeObj)
    requires Distinct(rows) && LastControl(nodes).Some?
    ensures Selected(nodes, IndexOf(rows), obj) <==> NamesRow(rows, LastControl(nodes).value.internalIP, obj)
  {
    hide IndexOf, LastControl, Distinct;
    var ip := LastControl(nodes).value.internalIP;
    if i :| 0 <= i < |rows| && rows[i].ip == ip {
      FoundRow(rows, i);
    } else {
      FoundNobody(rows, ip);
    }
  }

  lemma {:induction false} FoundRow(rows: seq<Row>, i: nat)
    requires Distinct(rows) && i < |rows|
    ensures forall j :: 0 <= j < |rows| && rows[j].ip == rows[i].ip ==> j == i
    ensures forall mac, name :: Found(IndexOf(rows), rows[i].ip, mac, name)
                                <==> mac == rows[i].mac && name == OsColumn(rows[i])
  {
    var clients := IndexOf(rows);
    IndexOfDistinct(rows);
    RowShows(rows[i]);
    assert Matches(clients[rows[i].mac], rows[i].ip);
    forall m | m in clients && Matches(clients[m], rows[i].ip)
      ensures m == rows[i].mac
    {
      var j :| 0 <= j < |rows| && rows[j].mac == m;
      RowShows(rows[j]);
    }
  }

  lemma {:induction false} FoundNobody(rows: seq<Row>, ip: string)
    requires Distinct(rows) && forall i :: 0 <= i < |rows| ==> rows[i].ip != ip
    ensures forall mac, name :: Found(IndexOf(rows), ip, mac, name) <==> mac == "" && name == ""
  {
    IndexOfDistinct(rows);
    forall m | m in IndexOf(rows)
      ensures !Matches(IndexOf(rows)[m], ip)
    {
      var j :| 0 <= j < |rows| && rows[j].mac == m;
      RowShows(rows[j]);
    }
  }

  lemma RowShows(row: Row)
    ensures var c := ClientOf(row);
            c.machine.ip == row.ip && c.machine.osType == OsColumn(row) && c.mac == row.mac
  {
  }

  // ---------- Getting that far ----------

  datatype Outcome = NoQuery | Panic | Playbook(ip: string, mac: string, user: string, template: string, node: NodeObj)

  /** The playbook runs exactly when the MAC is indexed, the query succeeded, and the client's own
      cluster is in the map with a report. */
  ghost predicate Prepares(mac: string, clients: Index, queried: Option<ClusterMap>, o: Outcome)
  {
    && (o.NoQuery? <==> mac == "")
    && (o.Playbook? <==>
          && mac != "" && mac in clients && queried.Some?
          && clients[mac].machine.cluster in queried.value
          && queried.value[clients[mac].machine.cluster].info.Some?)
    && (o.Playbook? ==>
          var c := clients[mac];
          && o.ip == c.offerIP && o.mac == mac && o.user == c.osType && o.template == c.machine.template
          && Selected(queried.value[c.machine.cluster].info.value, clients, o.node))
  }

  /** The handler up to the playbook call. queried is the outcome of the cluster query, None after a
      failure, which the handler does not look at. Its own check for an unknown MAC comes after the
      first use of the missing client. */
  method PrepareAnsible(mac: string, clients: Index, queried: Option<ClusterMap>) returns (o: Outcome)
    ensures Prepares(mac, clients, queried, o)
  {
    if mac == "" {
      return NoQuery;
    }
    if mac !in clients {
      return Panic;
    }
    var value := clients[mac];
    if queried.None? || value.machine.cluster !in queried.value {
      return Panic;
    }
    var info := queried.value[value.machine.cluster].info;
    if info.None? {
      return Panic;
    }
    var node := SelectNode(info.value, clients);
    return Playbook(value.offerIP, mac, value.osType, value.machine.template, node);
  }

  /** After a successful query the handler reaches the playbook exactly for the clients whose cluster has an entry
      and can be reached by its kubeconfig, or has a report from before. */
  lemma {:induction false} QueriedReaches(mac: string, clients: Index, cm: ClusterMap, connects: string -> bool,
                                          query: string -> Option<seq<KubeNode>>, o: Outcome)
    requires mac != "" && mac in clients
    requires forall k :: k in cm && connects(cm[k].kubeConfig) ==> query(cm[k].kubeConfig).Some?
    requires Prepares(mac, clients, Some(K.AllRefreshed(cm, connects, query)), o)
    ensures var k := clients[mac].machine.cluster;
            && (o.Playbook? <==> k in cm && (connects(cm[k].kubeConfig) || cm[k].info.Some?))
            && (o.Playbook? && connects(cm[k].kubeConfig) ==>
                  Selected(query(cm[k].kubeConfig).value, clients, o.node))
  {
    hide Selected;
    var k := clients[mac].machine.cluster;
    if k in cm {
      K.RefreshedMeans(cm[k], connects, query);
    }
  }

  /** For a client of the file the playbook gets the columns of its last row, and it joins a node of
      the cluster in that row; a cluster that never had a master makes the handler panic. */
  lemma {:induction false} PlaybookFollowsRow(rows: seq<Row>, events: seq<Event>, r: Row, o: Outcome)
    requires LastOf(rows, r.mac) == Some(r) && r.mac != ""
    requires forall i :: 0 <= i < |events| ==> Legal(events[i])
    requires Prepares(r.mac, IndexOf(rows), Some(Run(events)), o)
    ensures o.Playbook? ==> o.ip == r.ip && o.mac == r.mac && o.user == r.os && o.template == r.template
    ensures o.Playbook? ==> r.cluster in Run(events) && Run(events)[r.cluster].info.Some?
                            && Selected(Run(events)[r.cluster].info.value, IndexOf(rows), o.node)
    ensures LastMastered(events, r.cluster).None? ==> o == Panic
  {
    hide Run, Legal, Selected;
    IndexIsLastWins(rows, r.mac);
    ClusterEntries(events, r.cluster);
  }
}
