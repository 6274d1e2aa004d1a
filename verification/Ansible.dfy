/** internal/ansible: finding cluster credentials in the JSON results of a playbook. */
module Ansible {
  import opened Text
  import opened Orders
  import opened Clusters

  /** A host's message as decoded: absent, a string, or any other JSON value. */
  datatype Msg = Null | Str(s: string) | Other

  type Task = map<string, Msg>
  type Play = seq<Task>

  /** decode stands for parsing a message as a credentials record. */
  function Usable(decode: string -> Option<Creds>, msg: Msg): Option<Creds>
  {
    if !msg.Str? || msg.s == "" then None
    else
      var c :- decode(msg.s);
      if c.server != "" && c.token != "" then Some(c) else None
  }

  /** A message is usable exactly when it is a non-empty string that decodes to a record with a server and a token;
      and then it gives the record as decoded. */
  lemma UsableIff(decode: string -> Option<Creds>, msg: Msg)
    ensures Usable(decode, msg).Some?
       <==> exists s :: msg == Str(s) && s != "" && decode(s).Some?
                        && decode(s).value.server != "" && decode(s).value.token != ""
    ensures forall s :: msg == Str(s) && Usable(decode, msg).Some? ==> Usable(decode, msg) == decode(s)
  {
  }

  predicate Offers(decode: string -> Option<Creds>, task: Task, c: Creds)
  {
    exists h :: h in task && Usable(decode, task[h]) == Some(c)
  }

  predicate OffersNothing(decode: string -> Option<Creds>, task: Task)
  {
    forall h :: h in task ==> Usable(decode, task[h]).None?
  }

  predicate IsTask(plays: seq<Play>, p: nat, t: nat)
  {
    p < |plays| && t < |plays[p]|
  }

  /** No task before (p, t) in play and task order offers credentials. */
  ghost predicate NothingBefore(decode: string -> Option<Creds>, plays: seq<Play>, p: nat, t: nat)
  {
    forall q: nat, u: nat :: IsTask(plays, q, u) && (q < p || (q == p && u < t)) ==> OffersNothing(decode, plays[q][u])
  }

  /** (p, t) is the earliest task that offers credentials, and offers these. */
  ghost predicate First(decode: string -> Option<Creds>, plays: seq<Play>, p: nat, t: nat, c: Creds)
    requires IsTask(plays, p, t)
  {
    Offers(decode, plays[p][t], c) && NothingBefore(decode, plays, p, t)
  }

  /** Nothing if no task offers any, otherwise what the first offering task offers. */
  ghost predicate Possible(decode: string -> Option<Creds>, plays: seq<Play>, r: Option<Creds>)
  {
    match r
    case None => forall p: nat, t: nat :: IsTask(plays, p, t) ==> OffersNothing(decode, plays[p][t])
    case Some(c) =>
      exists p: nat, t: nat :: IsTask(plays, p, t) && First(decode, plays, p, t, c)
  }

  /** Searches a task's hosts in any order for a non-empty string that decodes to a server and a token, and
      returns the record as decoded. */
  method SearchHosts(decode: string -> Option<Creds>, task: Task) returns (r: Option<Creds>)
    ensures r.None? ==> OffersNothing(decode, task)
    ensures r.Some? ==> Offers(decode, task, r.value)
    ensures r.None? <==> forall h, s :: h in task && task[h] == Str(s) && s != "" && decode(s).Some?
                                        ==> decode(s).value.server == "" || decode(s).value.token == ""
    ensures r.Some? ==> exists h, s :: h in task && task[h] == Str(s) && s != "" && decode(s) == r
                                       && r.value.server != "" && r.value.token != ""
  {
    var rest := task.Keys;
    while rest != {}
      invariant rest <= task.Keys
      invariant forall h :: h in task && h !in rest ==> Usable(decode, task[h]).None?
    {
      var h :| h in rest;
      rest := rest - {h};
      var msg := task[h];
      if msg.Null? {
        continue;
      }
      if !msg.Str? || msg.s == "" {
        continue;
      }
      var creds := decode(msg.s);
      if creds.None? {
        continue;
      }
      if creds.value.server != "" && creds.value.token != "" {
        assert task[h] == Str(msg.s);
        return creds;
      }
    }
    return None;
  }

  /** Some result means exactly that some host of some task has a non-empty string that decodes to a server and a
      token; and every result is such a record as decoded, from a host of the earliest task with one. */
  lemma {:induction false} PossibleMeans(decode: string -> Option<Creds>, plays: seq<Play>, r: Option<Creds>)
    requires Possible(decode, plays, r)
    ensures r.Some?
       <==> exists p: nat, t: nat, h, s :: IsTask(plays, p, t) && h in plays[p][t] && plays[p][t][h] == Str(s) && s != ""
              && decode(s).Some? && decode(s).value.server != "" && decode(s).value.token != ""
    ensures r.Some? ==>
              exists p: nat, t: nat, h, s :: IsTask(plays, p, t) && h in plays[p][t] && plays[p][t][h] == Str(s) && s != ""
                && decode(s) == r && r.value.server != "" && r.value.token != ""
                && forall q: nat, u: nat, g, x :: IsTask(plays, q, u) && (q < p || (q == p && u < t))
                     && g in plays[q][u] && plays[q][u][g] == Str(x) && x != "" && decode(x).Some?
                     ==> decode(x).value.server == "" || decode(x).value.token == ""
  {
    match r
    case Some(c) =>
      var p: nat, t: nat :| IsTask(plays, p, t) && First(decode, plays, p, t, c);
      var h :| h in plays[p][t] && Usable(decode, plays[p][t][h]) == Some(c);
      UsableIff(decode, plays[p][t][h]);
      var s := plays[p][t][h].s;
      assert plays[p][t][h] == Str(s);
      forall q: nat, u: nat, g, x | IsTask(plays, q, u) && (q < p || (q == p && u < t))
                                    && g in plays[q][u] && plays[q][u][g] == Str(x) && x != "" && decode(x).Some?
        ensures decode(x).value.server == "" || decode(x).value.token == ""
      {
        assert OffersNothing(decode, plays[q][u]);
        UsableIff(decode, plays[q][u][g]);
      }
    case None =>
      forall p: nat, t: nat, h, s | IsTask(plays, p, t) && h in plays[p][t] && plays[p][t][h] == Str(s) && s != ""
                                    && decode(s).Some?
        ensures decode(s).value.server == "" || decode(s).value.token == ""
      {
        assert OffersNothing(decode, plays[p][t]);
        UsableIff(decode, plays[p][t][h]);
      }
  }

  /** Fails exactly when no message anywhere decodes to a server and a token; otherwise it returns
      such credentials from the earliest task that has any. */
  method ExtractCreds(decode: string -> Option<Creds>, plays: seq<Play>) returns (r: Option<Creds>)
    ensures Possible(decode, plays, r)
    ensures r.None? <==> Possible(decode, plays, None)
    ensures r.None? <==> forall p: nat, t: nat :: IsTask(plays, p, t) ==> OffersNothing(decode, plays[p][t])
    ensures r.Some? ==>
              exists p: nat, t: nat, h, s :: IsTask(plays, p, t) && h in plays[p][t] && plays[p][t][h] == Str(s) && s != ""
                && decode(s) == r && r.value.server != "" && r.value.token != ""
  {
    for p := 0 to |plays|
      invariant NothingBefore(decode, plays, p, 0)
    {
      for t := 0 to |plays[p]|
        invariant NothingBefore(decode, plays, p, t)
      {
        r := SearchHosts(decode, plays[p][t]);
        if r.Some? {
          assert First(decode, plays, p, t, r.value);
          assert IsTask(plays, p, t);
          return r;
        }
      }
    }
    return None;
  }

  /** The first offering task offers one result only. */
  ghost predicate FirstTaskAgrees(decode: string -> Option<Creds>, plays: seq<Play>)
  {
    forall p: nat, t: nat, c, d ::
      IsTask(plays, p, t) && First(decode, plays, p, t, c) && First(decode, plays, p, t, d) ==> c == d
  }

  lemma FirstTaskUnique(decode: string -> Option<Creds>, plays: seq<Play>,
                                           p: nat, t: nat, c: Creds, q: nat, u: nat, d: Creds)
    requires IsTask(plays, p, t) && First(decode, plays, p, t, c)
    requires IsTask(plays, q, u) && First(decode, plays, q, u, d)
    ensures p == q && t == u
  {
    assert !OffersNothing(decode, plays[p][t]) && !OffersNothing(decode, plays[q][u]);
  }

  // ---------- Explicit orders ----------

  /** Searching the hosts in the given order. */
  function SearchInOrder(decode: string -> Option<Creds>, task: Task, order: seq<string>): Option<Creds>
    requires forall i :: 0 <= i < |order| ==> order[i] in task
  {
    if order == [] then None
    else if Usable(decode, task[order[0]]).Some? then Usable(decode, task[order[0]])
    else SearchInOrder(decode, task, order[1..])
  }

  predicate OrdersHosts(tasks: Play, orders: seq<seq<string>>)
  {
    && |orders| == |tasks|
    && forall t :: 0 <= t < |tasks| ==> Lists(orders[t], tasks[t].Keys)
  }

  predicate OrdersAll(plays: seq<Play>, orders: seq<seq<seq<string>>>)
  {
    && |orders| == |plays|
    && forall p :: 0 <= p < |plays| ==> OrdersHosts(plays[p], orders[p])
  }

  function SearchTasks(decode: string -> Option<Creds>, tasks: Play, orders: seq<seq<string>>): Option<Creds>
    requires OrdersHosts(tasks, orders)
  {
    if tasks == [] then None
    else
      var n := |tasks| - 1;
      var earlier := SearchTasks(decode, tasks[..n], orders[..n]);
      if earlier.Some? then earlier else SearchInOrder(decode, tasks[n], orders[n])
  }

  /** Extraction with the host order of every task fixed. */
  function ExtractInOrder(decode: string -> Option<Creds>, plays: seq<Play>, orders: seq<seq<seq<string>>>): Option<Creds>
    requires OrdersAll(plays, orders)
  {
    if plays == [] then None
    else
      var n := |plays| - 1;
      var earlier := ExtractInOrder(decode, plays[..n], orders[..n]);
      if earlier.Some? then earlier else SearchTasks(decode, plays[n], orders[n])
  }

  lemma {:induction false} SearchIsOffer(decode: string -> Option<Creds>, task: Task, order: seq<string>)
    requires forall i :: 0 <= i < |order| ==> order[i] in task
    ensures var r := SearchInOrder(decode, task, order);
            && (r.None? ==> forall h :: h in order ==> Usable(decode, task[h]).None?)
            && (r.Some? ==> Offers(decode, task, r.value))
  {
    hide Usable;
    if order != [] && Usable(decode, task[order[0]]).None? {
      SearchIsOffer(decode, task, order[1..]);
    }
  }

  /** The search ends in the first task that offers anything. */
  lemma {:induction false} TasksEndAtFirst(decode: string -> Option<Creds>, tasks: Play, orders: seq<seq<string>>)
    requires OrdersHosts(tasks, orders)
    ensures var r := SearchTasks(decode, tasks, orders);
            && (r.None? ==> forall t: nat :: t < |tasks| ==> OffersNothing(decode, tasks[t]))
            && (r.Some? ==> exists t: nat :: t < |tasks| && Offers(decode, tasks[t], r.value)
                              && r == SearchInOrder(decode, tasks[t], orders[t])
                              && forall u: nat :: u < t ==> OffersNothing(decode, tasks[u]))
  {
    hide SearchInOrder, Offers;
    if tasks != [] {
      var n := |tasks| - 1;
      TasksEndAtFirst(decode, tasks[..n], orders[..n]);
      SearchIsOffer(decode, tasks[n], orders[n]);
      assert forall t: nat :: t < n ==> tasks[..n][t] == tasks[t] && orders[..n][t] == orders[t];
    }
  }

  lemma {:induction false} PlaysEndAtFirst(decode: string -> Option<Creds>, plays: seq<Play>,
                                           orders: seq<seq<seq<string>>>)
    requires OrdersAll(plays, orders)
    ensures var r := ExtractInOrder(decode, plays, orders);
            && (r.None? ==> NothingBefore(decode, plays, |plays|, 0))
            && (r.Some? ==> exists p: nat, t: nat :: IsTask(plays, p, t) && First(decode, plays, p, t, r.value)
                              && OrdersHosts(plays[p], orders[p])
                              && r == SearchInOrder(decode, plays[p][t], orders[p][t]))
  {
    hide SearchInOrder, SearchTasks, Offers, OffersNothing;
    if plays != [] {
      var n := |plays| - 1;
      PlaysEndAtFirst(decode, plays[..n], orders[..n]);
      TasksEndAtFirst(decode, plays[n], orders[n]);
      assert forall p: nat :: p < n ==> plays[..n][p] == plays[p] && orders[..n][p] == orders[p];
      assert forall p: nat, t: nat :: p < n ==> (IsTask(plays[..n], p, t) <==> IsTask(plays, p, t));
      var earlier, r := ExtractInOrder(decode, plays[..n], orders[..n]), ExtractInOrder(decode, plays, orders);
      if earlier.Some? {
        var p: nat, t: nat :| IsTask(plays[..n], p, t) && First(decode, plays[..n], p, t, earlier.value)
                              && OrdersHosts(plays[..n][p], orders[..n][p])
                              && earlier == SearchInOrder(decode, plays[..n][p][t], orders[..n][p][t]);
        assert IsTask(plays, p, t) && First(decode, plays, p, t, r.value);
      } else if r.Some? {
        var t: nat :| t < |plays[n]| && Offers(decode, plays[n][t], r.value)
                      && r == SearchInOrder(decode, plays[n][t], orders[n][t])
                      && forall u: nat :: u < t ==> OffersNothing(decode, plays[n][u]);
        assert IsTask(plays, n, t) && First(decode, plays, n, t, r.value);
      }
    }
  }

  /** Some order of all hosts in which the given host of the given task comes first. */
  ghost function OrdersFrom(plays: seq<Play>, p: nat, t: nat, h: string): (orders: seq<seq<seq<string>>>)
    ensures OrdersAll(plays, orders)
    ensures IsTask(plays, p, t) && h in plays[p][t] ==> orders[p][t] != [] && orders[p][t][0] == h
  {
    seq(|plays|, q requires 0 <= q < |plays| =>
      seq(|plays[q]|, u requires 0 <= u < |plays[q]| =>
        if q == p && u == t && h in plays[q][u] then OrderFrom(plays[q][u].Keys, h) else SomeOrder(plays[q][u].Keys)))
  }

  /** The possible results are exactly those that some order of the hosts produces. */
  lemma {:induction false} PossibleIff(decode: string -> Option<Creds>, plays: seq<Play>, r: Option<Creds>)
    ensures Possible(decode, plays, r)
       <==> exists orders :: OrdersAll(plays, orders) && ExtractInOrder(decode, plays, orders) == r
  {
    hide ExtractInOrder, OffersNothing, Usable;
    if orders :| OrdersAll(plays, orders) && ExtractInOrder(decode, plays, orders) == r {
      PlaysEndAtFirst(decode, plays, orders);
    }
    if Possible(decode, plays, r) {
      Producible(decode, plays, r);
    }
  }

  lemma {:induction false} Producible(decode: string -> Option<Creds>, plays: seq<Play>, r: Option<Creds>)
    requires Possible(decode, plays, r)
    ensures exists orders :: OrdersAll(plays, orders) && ExtractInOrder(decode, plays, orders) == r
  {
    hide ExtractInOrder, Usable;
    match r
    case None =>
      var orders := OrdersFrom(plays, 0, 0, "");
      PlaysEndAtFirst(decode, plays, orders);
    case Some(c) =>
      var p: nat, t: nat :| IsTask(plays, p, t) && First(decode, plays, p, t, c);
      var h :| h in plays[p][t] && Usable(decode, plays[p][t][h]) == Some(c);
      var orders := OrdersFrom(plays, p, t, h);
      assert SearchInOrder(decode, plays[p][t], orders[p][t]) == Some(c);
      PlaysEndAtFirst(decode, plays, orders);
      EndsAt(decode, plays, orders, p, t, c);
  }

  /** Every order ends at the same task. */
  lemma {:induction false} EndsAt(decode: string -> Option<Creds>, plays: seq<Play>, orders: seq<seq<seq<string>>>,
                                  p: nat, t: nat, c: Creds)
    requires OrdersAll(plays, orders) && IsTask(plays, p, t) && First(decode, plays, p, t, c)
    ensures ExtractInOrder(decode, plays, orders) == SearchInOrder(decode, plays[p][t], orders[p][t])
  {
    hide ExtractInOrder, SearchInOrder, Usable;
    PlaysEndAtFirst(decode, plays, orders);
    var r := ExtractInOrder(decode, plays, orders);
    assert !OffersNothing(decode, plays[p][t]);
    assert r.Some?;
    var q: nat, u: nat :| IsTask(plays, q, u) && First(decode, plays, q, u, r.value)
                          && OrdersHosts(plays[q], orders[q])
                          && r == SearchInOrder(decode, plays[q][u], orders[q][u]);
    FirstTaskUnique(decode, plays, p, t, c, q, u, r.value);
  }

  /** All host orders produce one result exactly when the first offering task agrees with itself. */
  lemma {:induction false} ResultUniqueIff(decode: string -> Option<Creds>, plays: seq<Play>)
    ensures (forall a, b :: OrdersAll(plays, a) && OrdersAll(plays, b)
                            ==> ExtractInOrder(decode, plays, a) == ExtractInOrder(decode, plays, b))
       <==> FirstTaskAgrees(decode, plays)
  {
    hide ExtractInOrder, Possible, First;
    if FirstTaskAgrees(decode, plays) {
      forall a, b | OrdersAll(plays, a) && OrdersAll(plays, b)
        ensures ExtractInOrder(decode, plays, a) == ExtractInOrder(decode, plays, b)
      {
        PossibleIff(decode, plays, ExtractInOrder(decode, plays, a));
        PossibleIff(decode, plays, ExtractInOrder(decode, plays, b));
        PossibleAgree(decode, plays, ExtractInOrder(decode, plays, a), ExtractInOrder(decode, plays, b));
      }
    } else {
      var p: nat, t: nat, c, d :|
        IsTask(plays, p, t) && First(decode, plays, p, t, c) && First(decode, plays, p, t, d) && c != d;
      FirstIsPossible(decode, plays, p, t, c);
      FirstIsPossible(decode, plays, p, t, d);
      PossibleIff(decode, plays, Some(c));
      PossibleIff(decode, plays, Some(d));
    }
  }

  lemma FirstIsPossible(decode: string -> Option<Creds>, plays: seq<Play>, p: nat, t: nat, c: Creds)
    requires IsTask(plays, p, t) && First(decode, plays, p, t, c)
    ensures Possible(decode, plays, Some(c))
  {
  }

  lemma PossibleAgree(decode: string -> Option<Creds>, plays: seq<Play>,
                                         r: Option<Creds>, s: Option<Creds>)
    requires FirstTaskAgrees(decode, plays) && Possible(decode, plays, r) && Possible(decode, plays, s)
    ensures r == s
  {
    if r.Some? && s.Some? {
      var p: nat, t: nat :| IsTask(plays, p, t) && First(decode, plays, p, t, r.value);
      var q: nat, u: nat :| IsTask(plays, q, u) && First(decode, plays, q, u, s.value);
      FirstTaskUnique(decode, plays, p, t, r.value, q, u, s.value);
    }
  }
}
