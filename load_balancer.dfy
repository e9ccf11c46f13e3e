/**
 A worst-fit load balancer (`LoadBalancer`): each application goes to the
 machine with the most spare capacity (`weight`), ties going to the smallest
 machine key. The machines live in a max-priority queue keyed by machine key
 (`HashedPQ`, whose own code is not part of this model); it is modelled as a
 map from machine key to machine, whose `remove()`/`peek()` yield some machine
 of maximum weight (in an order among equal weights that the model leaves
 open), `remove(undefined, key)` and `get(key)` address a machine by its key,
 and `insert` stores a machine under its key.
 */
module Balancer {
  import opened Optional
  import opened Seqs

  /** A running application: its id, the key of the machine it was placed
      on, and the capacity it uses. */
  datatype App = App(id: int, onMachine: int, loadUse: int)

  /** A machine: its key, its remaining capacity and its applications in
      the order they were placed. */
  datatype Machine = Machine(key: int, weight: int, apps: seq<App>)

  /** The balancer's state: the machine queue and `apps`, app id to app. */
  datatype Balance = Balance(machines: map<int, Machine>, apps: map<int, App>)

  /** Every machine is stored under its own key. */
  ghost predicate KeyedBy(ms: map<int, Machine>)
  {
    forall k :: k in ms ==> ms[k].key == k
  }

  /** The state the balancer keeps: machines under their keys, every
      recorded app under its own id, and every recorded app listed by the
      machine that its `onMachine` names. */
  ghost predicate Consistent(b: Balance)
  {
    && KeyedBy(b.machines)
    && (forall id :: id in b.apps ==> b.apps[id].id == id)
    && (forall id :: id in b.apps ==>
          b.apps[id].onMachine in b.machines && b.apps[id] in b.machines[b.apps[id].onMachine].apps)
  }

  /** Machine `k` has maximum weight in `ms`. */
  predicate Heaviest(ms: map<int, Machine>, k: int)
  {
    k in ms && forall j :: j in ms ==> ms[j].weight <= ms[k].weight
  }

  /** Machine `k` is the worst fit: maximum weight, and the smallest key
      among the machines of that weight. */
  predicate Best(ms: map<int, Machine>, k: int)
  {
    Heaviest(ms, k) && forall j :: j in ms && ms[j].weight == ms[k].weight ==> k <= j
  }

  /** Every non-empty queue has a worst-fit machine. */
  lemma {:induction false} BestExists(ms: map<int, Machine>)
    requires ms != map[]
    ensures exists k :: Best(ms, k)
    decreases |ms|
  {
    assert exists x :: x in ms by {
      if forall x :: x !in ms {
        assert false;
      }
    }
    var j :| j in ms;
    var rest := ms - {j};
    forall x | x in ms && x != j ensures x in rest && rest[x] == ms[x] {
    }
    if rest == map[] {
      assert Best(ms, j);
    } else {
      assert |rest| < |ms| by {
        assert rest.Keys == ms.Keys - {j};
      }
      BestExists(rest);
      var k :| Best(rest, k);
      if ms[j].weight > ms[k].weight || (ms[j].weight == ms[k].weight && j < k) {
        assert Best(ms, j);
      } else {
        assert Best(ms, k);
      }
    }
  }

  /** The worst-fit machine is unique. */
  lemma BestUnique(ms: map<int, Machine>, k: int, j: int)
    requires Best(ms, k) && Best(ms, j)
    ensures k == j
  {
    assert ms[j].weight <= ms[k].weight && ms[k].weight <= ms[j].weight;
  }

  /** The key `#pickMachine` settles on. */
  ghost function Pick(ms: map<int, Machine>): (k: int)
    requires ms != map[]
    ensures Best(ms, k)
  {
    BestExists(ms);
    var k :| Best(ms, k); k
  }

  /** The machine after it takes on app `a`: its weight drops by the app's
      load and the app is appended. */
  function Assign(m: Machine, a: App): Machine
  {
    m.(weight := m.weight - a.loadUse, apps := m.apps + [a])
  }

  /** The machine after app `a` stops: the first occurrence of `a` leaves its
      list and its load is given back. */
  function Release(m: Machine, a: App): Machine
    requires a in m.apps
  {
    var i := IndexOf(m.apps, a);
    m.(weight := m.weight + a.loadUse, apps := m.apps[..i] + m.apps[i + 1..])
  }

  /** Stopping an app just placed on a machine that did not list it gives the
      machine back exactly: weight and application list. */
  lemma ReleaseAssign(m: Machine, a: App)
    requires a !in m.apps
    ensures Release(Assign(m, a), a) == m
  {
    var s := Assign(m, a).apps;
    assert s[|m.apps|] == a;
    var i := IndexOf(s, a);
    assert i == |m.apps|;
    assert s[..i] == m.apps;
  }

  /** The app that `addApplication` records on machine `k`: a new app, or
      the re-offered one relabelled to machine `k`. */
  function Recorded(app: Option<App>, appId: int, loadUse: int, k: int): (a: App)
    ensures a.onMachine == k
    ensures app.None? ==> a == App(appId, k, loadUse)
    ensures app.Some? ==> a.id == app.value.id && a.loadUse == app.value.loadUse
  {
    if app.None? then App(appId, k, loadUse) else app.value.(onMachine := k)
  }

  /** `addApplication(appId, loadUse, app)`: the result (`None` for the
      source's -1) and the state afterwards. */
  ghost function Added(b: Balance, appId: int, loadUse: int, app: Option<App>): (Option<int>, Balance)
  {
    if b.machines == map[] then (None, b)
    else
      var k := Pick(b.machines);
      var m := b.machines[k];
      if loadUse <= m.weight then
        var a := Recorded(app, appId, loadUse, k);
        (Some(k), Balance(b.machines[k := Assign(m, a)], b.apps[appId := a]))
      else (None, b)
  }

  /** `addApplication` fails exactly when no machine has room for the load;
      otherwise it returns the worst-fit machine, whose weight drops by
      exactly `loadUse` and stays non-negative, whose list gains the app at
      its end, and under whose key the app is recorded. Nothing else changes. */
  lemma AddedSpec(b: Balance, appId: int, loadUse: int, app: Option<App>)
    requires app.Some? ==> app.value.loadUse == loadUse
    ensures var (r, b2) := Added(b, appId, loadUse, app);
      && (r.Some? <==> exists k :: k in b.machines && loadUse <= b.machines[k].weight)
      && (r.None? ==> b2 == b)
      && (r.Some? ==>
            var k := r.value;
            var a := b2.apps[appId];
            && Best(b.machines, k)
            && b2.machines.Keys == b.machines.Keys
            && (forall j :: j in b.machines && j != k ==> b2.machines[j] == b.machines[j])
            && b2.machines[k].weight == b.machines[k].weight - loadUse >= 0
            && b2.machines[k].apps == b.machines[k].apps + [a]
            && a.onMachine == k
            && b2.apps == b.apps[appId := a])
  {
    if b.machines != map[] {
      var k := Pick(b.machines);
      if loadUse > b.machines[k].weight {
        forall j | j in b.machines ensures loadUse > b.machines[j].weight {
        }
      }
    }
  }

  /** `addApplication` keeps the state consistent. */
  lemma AddedConsistent(b: Balance, appId: int, loadUse: int, app: Option<App>)
    requires Consistent(b)
    requires app.Some? ==> app.value.id == appId
    ensures Consistent(Added(b, appId, loadUse, app).1)
  {
    if b.machines != map[] {
      var k := Pick(b.machines);
      var m := b.machines[k];
      if loadUse <= m.weight {
        var a := Recorded(app, appId, loadUse, k);
        var b2 := Added(b, appId, loadUse, app).1;
        forall id | id in b2.apps
          ensures b2.apps[id].onMachine in b2.machines && b2.apps[id] in b2.machines[b2.apps[id].onMachine].apps
        {
          if id != appId {
            var x := b.apps[id];
            if x.onMachine == k {
              assert x in m.apps;
              assert x in Assign(m, a).apps;
            }
          }
        }
      }
    }
  }

  /** `stopApplication(appId)`: an unknown id changes nothing; otherwise the
      app is dropped from `apps` and released by the machine it names. */
  ghost function Stopped(b: Balance, appId: int): Balance
    requires Consistent(b)
  {
    if appId !in b.apps then b
    else
      var a := b.apps[appId];
      Balance(b.machines[a.onMachine := Release(b.machines[a.onMachine], a)], b.apps - {appId})
  }

  /** `stopApplication` keeps the state consistent. */
  lemma StoppedConsistent(b: Balance, appId: int)
    requires Consistent(b)
    ensures Consistent(Stopped(b, appId))
  {
    if appId in b.apps {
      var a := b.apps[appId];
      var k := a.onMachine;
      var s := b.machines[k].apps;
      var i := IndexOf(s, a);
      var b2 := Stopped(b, appId);
      forall id | id in b2.apps
        ensures b2.apps[id].onMachine in b2.machines && b2.apps[id] in b2.machines[b2.apps[id].onMachine].apps
      {
        var x := b.apps[id];
        if x.onMachine == k {
          var j :| 0 <= j < |s| && s[j] == x;
          assert x != a;
          if j < i {
            assert s[..i][j] == x;
          } else {
            assert s[i + 1..][j - i - 1] == x;
          }
          assert x in s[..i] + s[i + 1..];
        }
      }
    }
  }

  /** `stopApplication` of an unknown id changes nothing. Of a known id, the
      app leaves `apps`, its machine gets its load back and loses the first
      copy of it from its list, the order of the others kept, and every
      other machine is untouched. */
  lemma StoppedSpec(b: Balance, appId: int)
    requires Consistent(b)
    ensures appId !in b.apps ==> Stopped(b, appId) == b
    ensures appId in b.apps ==>
      var a := b.apps[appId];
      var k := a.onMachine;
      var b2 := Stopped(b, appId);
      && b2.apps == b.apps - {appId}
      && b2.machines.Keys == b.machines.Keys
      && (forall j :: j in b.machines && j != k ==> b2.machines[j] == b.machines[j])
      && b2.machines[k].key == b.machines[k].key
      && b2.machines[k].weight == b.machines[k].weight + a.loadUse
      && multiset(b2.machines[k].apps) + multiset{a} == multiset(b.machines[k].apps)
      && var i := IndexOf(b.machines[k].apps, a);
         b2.machines[k].apps == b.machines[k].apps[..i] + b.machines[k].apps[i + 1..]
  {
    if appId in b.apps {
      var a := b.apps[appId];
      var s := b.machines[a.onMachine].apps;
      var i := IndexOf(s, a);
      assert s == s[..i] + [a] + s[i + 1..];
    }
  }

  /** No machine lists an app with id `appId`: the id is fresh. */
  ghost predicate FreshId(b: Balance, appId: int)
  {
    && appId !in b.apps
    && forall k, x :: k in b.machines && x in b.machines[k].apps ==> x.id != appId
  }

  /** Placing a new app under a fresh id and stopping it again restores the
      state exactly: every machine's weight and application list, and
      `apps`. */
  lemma AddThenStop(b: Balance, appId: int, loadUse: int)
    requires Consistent(b) && FreshId(b, appId)
    ensures var b2 := Added(b, appId, loadUse, None).1;
      Consistent(b2) && Stopped(b2, appId) == b
  {
    AddedConsistent(b, appId, loadUse, None);
    if b.machines != map[] {
      var k := Pick(b.machines);
      var m := b.machines[k];
      if loadUse <= m.weight {
        var a := App(appId, k, loadUse);
        ReleaseAssign(m, a);
        var b2 := Added(b, appId, loadUse, None).1;
        assert b2.apps - {appId} == b.apps;
        assert b2.machines[k := Release(Assign(m, a), a)] == b.machines;
      }
    }
  }

  /** The re-offers of `removeMachine`: each app in turn goes back through
      `addApplication` with its own id and load. */
  ghost function Reoffered(b: Balance, pending: seq<App>): Balance
    decreases |pending|
  {
    if |pending| == 0 then b
    else Reoffered(Added(b, pending[0].id, pending[0].loadUse, Some(pending[0])).1, pending[1..])
  }

  /** The state once machine `key` is gone and none of its apps is recorded. */
  ghost function Detached(b: Balance, key: int): Balance
  {
    Balance(b.machines - {key}, map id | id in b.apps && b.apps[id].onMachine != key :: b.apps[id])
  }

  /** `removeMachine(key)`: the machine leaves the queue, its apps are
      unrecorded, and each is re-offered and recorded again if placed. */
  ghost function Removed(b: Balance, key: int): Balance
    requires key in b.machines
  {
    Reoffered(Detached(b, key), b.machines[key].apps)
  }

  /** Re-offering apps keeps the state consistent and never brings back a
      machine key. */
  lemma {:induction false} ReofferedConsistent(b: Balance, pending: seq<App>)
    requires Consistent(b)
    ensures Consistent(Reoffered(b, pending))
    ensures Reoffered(b, pending).machines.Keys == b.machines.Keys
    decreases |pending|
  {
    if |pending| > 0 {
      var p := pending[0];
      AddedConsistent(b, p.id, p.loadUse, Some(p));
      AddedSpec(b, p.id, p.loadUse, Some(p));
      ReofferedConsistent(Added(b, p.id, p.loadUse, Some(p)).1, pending[1..]);
    }
  }

  /** The apps to re-offer have ids that are pairwise distinct and not yet
      recorded. */
  ghost predicate FreshPending(b: Balance, pending: seq<App>)
  {
    && (forall i :: 0 <= i < |pending| ==> pending[i].id !in b.apps)
    && (forall i, j :: 0 <= i < j < |pending| ==> pending[i].id != pending[j].id)
  }

  /** One step of `Reoffered`: the first app is offered, and the rest are
      still fresh for the state that follows. */
  lemma ReofferedRest(b: Balance, pending: seq<App>)
    requires FreshPending(b, pending) && |pending| > 0
    ensures var p := pending[0];
      var b1 := Added(b, p.id, p.loadUse, Some(p)).1;
      && Reoffered(b, pending) == Reoffered(b1, pending[1..])
      && b1.apps.Keys <= b.apps.Keys + {p.id}
      && FreshPending(b1, pending[1..])
  {
    var p := pending[0];
    var rest := pending[1..];
    var b1 := Added(b, p.id, p.loadUse, Some(p)).1;
    AddedSpec(b, p.id, p.loadUse, Some(p));
    forall i | 0 <= i < |rest| ensures rest[i].id !in b1.apps {
      assert rest[i] == pending[i + 1];
    }
    forall i, j | 0 <= i < j < |rest| ensures rest[i].id != rest[j].id {
      assert rest[i] == pending[i + 1] && rest[j] == pending[j + 1];
    }
  }

  /** Re-offering apps leaves every app recorded before untouched. */
  lemma {:induction false} ReofferedKeepsRecorded(b: Balance, pending: seq<App>)
    requires FreshPending(b, pending)
    ensures var r := Reoffered(b, pending);
      forall id :: id in b.apps ==> id in r.apps && r.apps[id] == b.apps[id]
    decreases |pending|
  {
    if |pending| > 0 {
      var p := pending[0];
      var b1 := Added(b, p.id, p.loadUse, Some(p)).1;
      ReofferedRest(b, pending);
      AddedSpec(b, p.id, p.loadUse, Some(p));
      ReofferedKeepsRecorded(b1, pending[1..]);
      forall id | id in b.apps ensures id in b1.apps && b1.apps[id] == b.apps[id] {
        assert id != p.id;
      }
    }
  }

  /** Re-offering apps records no id but the old ones and the offered ones. */
  lemma {:induction false} ReofferedOnlyOffered(b: Balance, pending: seq<App>)
    ensures var r := Reoffered(b, pending);
      forall id :: id in r.apps ==> id in b.apps || exists i :: 0 <= i < |pending| && pending[i].id == id
    decreases |pending|
  {
    if |pending| > 0 {
      var p := pending[0];
      var rest := pending[1..];
      var b1 := Added(b, p.id, p.loadUse, Some(p)).1;
      var r := Reoffered(b, pending);
      AddedSpec(b, p.id, p.loadUse, Some(p));
      ReofferedOnlyOffered(b1, rest);
      forall id | id in r.apps ensures id in b.apps || exists i :: 0 <= i < |pending| && pending[i].id == id {
        if id !in b.apps && id !in b1.apps {
          var j :| 0 <= j < |rest| && rest[j].id == id;
          assert pending[j + 1].id == id;
        } else if id !in b.apps {
          assert pending[0].id == id;
        }
      }
    }
  }

  /** An offered app that ends up recorded is the offered one relabelled to
      a machine that lists it. */
  lemma {:induction false} ReofferedRecordsOffered(b: Balance, pending: seq<App>)
    requires Consistent(b) && FreshPending(b, pending)
    ensures var r := Reoffered(b, pending);
      forall i :: 0 <= i < |pending| && pending[i].id in r.apps ==>
        var a := r.apps[pending[i].id];
        && a == pending[i].(onMachine := a.onMachine)
        && a.onMachine in r.machines && a in r.machines[a.onMachine].apps
    decreases |pending|
  {
    ReofferedConsistent(b, pending);
    if |pending| > 0 {
      var p := pending[0];
      var rest := pending[1..];
      var b1 := Added(b, p.id, p.loadUse, Some(p)).1;
      var r := Reoffered(b, pending);
      ReofferedRest(b, pending);
      AddedSpec(b, p.id, p.loadUse, Some(p));
      AddedConsistent(b, p.id, p.loadUse, Some(p));
      ReofferedRecordsOffered(b1, rest);
      ReofferedKeepsRecorded(b1, rest);
      ReofferedOnlyOffered(b1, rest);
      forall i | 0 <= i < |pending| && pending[i].id in r.apps
        ensures var a := r.apps[pending[i].id];
          a == pending[i].(onMachine := a.onMachine)
      {
        if i > 0 {
          assert pending[i] == rest[i - 1];
        }
      }
    }
  }

  /** A machine that took none of the offered apps is exactly as it was. */
  lemma {:induction false} ReofferedSparesIdle(b: Balance, pending: seq<App>)
    requires FreshPending(b, pending)
    ensures var r := Reoffered(b, pending);
      forall k :: k in b.machines && TookNone(r, pending, k) ==> k in r.machines && r.machines[k] == b.machines[k]
    decreases |pending|
  {
    if |pending| > 0 {
      var p := pending[0];
      var rest := pending[1..];
      var b1 := Added(b, p.id, p.loadUse, Some(p)).1;
      var r := Reoffered(b, pending);
      ReofferedRest(b, pending);
      AddedSpec(b, p.id, p.loadUse, Some(p));
      ReofferedSparesIdle(b1, rest);
      ReofferedKeepsRecorded(b1, rest);
      forall k | k in b.machines && TookNone(r, pending, k) ensures k in r.machines && r.machines[k] == b.machines[k] {
        assert TookNone(r, rest, k) by {
          forall i | 0 <= i < |rest| && rest[i].id in r.apps ensures r.apps[rest[i].id].onMachine != k {
            assert rest[i] == pending[i + 1];
          }
        }
        if p.id in b1.apps {
          assert pending[0].id in r.apps;
        }
      }
    }
  }

  /** None of the offered apps ended up recorded on machine `k`. */
  ghost predicate TookNone(r: Balance, pending: seq<App>, k: int)
  {
    forall i :: 0 <= i < |pending| && pending[i].id in r.apps ==> r.apps[pending[i].id].onMachine != k
  }

  /** `removeMachine` keeps the state consistent: the machine is gone, the
      other machines remain, and every recorded app, re-placed or not, names
      a machine that lists it. */
  lemma RemovedConsistent(b: Balance, key: int)
    requires Consistent(b) && key in b.machines
    ensures Consistent(Removed(b, key))
    ensures Removed(b, key).machines.Keys == b.machines.Keys - {key}
  {
    DetachedConsistent(b, key);
    ReofferedConsistent(Detached(b, key), b.machines[key].apps);
  }

  /** Taking machine `key` away together with its records keeps the state consistent. */
  lemma DetachedConsistent(b: Balance, key: int)
    requires Consistent(b) && key in b.machines
    ensures Consistent(Detached(b, key))
  {
    var d := Detached(b, key);
    forall id | id in d.apps
      ensures d.apps[id].onMachine in d.machines && d.apps[id] in d.machines[d.apps[id].onMachine].apps
    {
      assert b.apps[id].onMachine != key;
    }
  }

  /** The apps listed by machine `key` have distinct ids, and none of those
      ids is recorded on another machine. `addApplication` accepts a reused
      id (lines 53-69), so this is a hypothesis about the history, not an
      invariant of the balancer. */
  ghost predicate OwnApps(b: Balance, key: int)
    requires key in b.machines
  {
    var apps := b.machines[key].apps;
    && (forall i, j :: 0 <= i < j < |apps| ==> apps[i].id != apps[j].id)
    && (forall i :: 0 <= i < |apps| && apps[i].id in b.apps ==> b.apps[apps[i].id].onMachine == key)
  }

  /** Under `OwnApps`, the apps `removeMachine` re-offers are fresh for the
      detached state. */
  lemma DetachedFresh(b: Balance, key: int)
    requires key in b.machines && OwnApps(b, key)
    ensures FreshPending(Detached(b, key), b.machines[key].apps)
  {
  }

  /** What `removeMachine(key)` does to each app, when the removed machine's
      apps are its own (`OwnApps`): apps on other machines are untouched; a
      re-offered app that ends up recorded is that app with only its machine
      changed, on a surviving machine that lists it, and one not recorded was
      dropped; no other id appears; a surviving machine that took none of the
      re-offered apps is exactly as it was. */
  lemma RemovedFate(b: Balance, key: int)
    requires Consistent(b) && key in b.machines && OwnApps(b, key)
    ensures var r, pending := Removed(b, key), b.machines[key].apps;
      && (forall id :: id in b.apps && b.apps[id].onMachine != key ==> id in r.apps && r.apps[id] == b.apps[id])
      && (forall i :: 0 <= i < |pending| && pending[i].id in r.apps ==>
            var a := r.apps[pending[i].id];
            && a == pending[i].(onMachine := a.onMachine)
            && a.onMachine != key && a.onMachine in r.machines && a in r.machines[a.onMachine].apps)
      && (forall id :: id in r.apps ==>
            (id in b.apps && b.apps[id].onMachine != key) || exists i :: 0 <= i < |pending| && pending[i].id == id)
      && (forall k :: k in b.machines && k != key && TookNone(r, pending, k) ==> k in r.machines && r.machines[k] == b.machines[k])
  {
    var d, pending := Detached(b, key), b.machines[key].apps;
    DetachedConsistent(b, key);
    DetachedFresh(b, key);
    RemovedConsistent(b, key);
    ReofferedKeepsRecorded(d, pending);
    ReofferedRecordsOffered(d, pending);
    ReofferedOnlyOffered(d, pending);
    ReofferedSparesIdle(d, pending);
  }

  /** The app that `addApplication` records as written (line 59): a
      re-offered app keeps its old `onMachine`. */
  function RecordedAsWritten(app: Option<App>, appId: int, loadUse: int, k: int): App
  {
    if app.None? then App(appId, k, loadUse) else app.value
  }

  /** `addApplication` as written. */
  ghost function AddedAsWritten(b: Balance, appId: int, loadUse: int, app: Option<App>): (Option<int>, Balance)
  {
    if b.machines == map[] then (None, b)
    else
      var k := Pick(b.machines);
      var m := b.machines[k];
      if loadUse <= m.weight then
        var a := RecordedAsWritten(app, appId, loadUse, k);
        (Some(k), Balance(b.machines[k := Assign(m, a)], b.apps[appId := a]))
      else (None, b)
  }

  /** `removeMachine` as written: the machine leaves the queue, `apps` is
      left as it is, and each app is re-offered by `addApplication` as
      written. */
  ghost function RemovedAsWritten(b: Balance, key: int): Balance
    requires key in b.machines
  {
    ReofferedAsWritten(Balance(b.machines - {key}, b.apps), b.machines[key].apps)
  }

  /** The re-offers of `removeMachine` as written. */
  ghost function ReofferedAsWritten(b: Balance, pending: seq<App>): Balance
    decreases |pending|
  {
    if |pending| == 0 then b
    else ReofferedAsWritten(AddedAsWritten(b, pending[0].id, pending[0].loadUse, Some(pending[0])).1, pending[1..])
  }

  /** Two machines, 0 and 1, with app 7 (load 3) on machine 0. */
  ghost function TwoMachines(spare: int): Balance
  {
    var a := App(7, 0, 3);
    Balance(map[0 := Machine(0, 5, [a]), 1 := Machine(1, spare, [])], map[7 := a])
  }

  /** As written, an app re-placed by `removeMachine` keeps naming the
      removed machine: removing machine 0 moves app 7 to machine 1, but the
      recorded app still says machine 0, which no longer exists (a later
      `stopApplication(7)` finds no machine). The corrected removal records
      it on machine 1. */
  lemma RemoveAsWrittenStale()
    ensures Consistent(TwoMachines(5))
    ensures var b2 := RemovedAsWritten(TwoMachines(5), 0);
      7 in b2.apps && 1 in b2.machines && b2.apps[7] in b2.machines[1].apps
      && b2.apps[7].onMachine !in b2.machines && !Consistent(b2)
    ensures var b3 := Removed(TwoMachines(5), 0);
      7 in b3.apps && b3.apps[7].onMachine == 1 && Consistent(b3)
  {
    var b := TwoMachines(5);
    var a := App(7, 0, 3);
    var one := map[1 := Machine(1, 5, [])];
    assert Best(one, 1);
    assert Pick(one) == 1 by {
      BestUnique(one, Pick(one), 1);
    }
    assert Balance(b.machines - {0}, b.apps).machines == one;
    assert Detached(b, 0).machines == one;
    assert Detached(b, 0).apps == map[];
    assert b.machines[0].apps == [a] && [a][1..] == [];
    RemovedConsistent(b, 0);
  }

  /** As written, an app that finds no room when `removeMachine` re-offers
      it stays in `apps`, naming the removed machine: with no spare capacity
      on machine 1, app 7 is placed nowhere yet still recorded. The corrected
      removal drops it. */
  lemma RemoveAsWrittenKeepsUnplaced()
    ensures Consistent(TwoMachines(0))
    ensures var b2 := RemovedAsWritten(TwoMachines(0), 0);
      7 in b2.apps && b2.apps[7].onMachine !in b2.machines && !Consistent(b2)
    ensures 7 !in Removed(TwoMachines(0), 0).apps
  {
    var b := TwoMachines(0);
    var a := App(7, 0, 3);
    var one := map[1 := Machine(1, 0, [])];
    assert Best(one, 1);
    assert Pick(one) == 1 by {
      BestUnique(one, Pick(one), 1);
    }
    assert Balance(b.machines - {0}, b.apps).machines == one;
    assert Detached(b, 0).machines == one;
    assert Detached(b, 0).apps == map[];
    assert b.machines[0].apps == [a] && [a][1..] == [];
  }

  /** The keys of a list of machines. */
  ghost function Keys(ts: seq<Machine>): set<int>
  {
    set i | 0 <= i < |ts| :: ts[i].key
  }

  /** `ts` are machines of `orig`, all of weight `w`, with distinct keys of
      at least `low`. */
  ghost predicate Drained(orig: map<int, Machine>, ts: seq<Machine>, w: int, low: int)
  {
    && (forall i :: 0 <= i < |ts| ==> ts[i].key in orig && orig[ts[i].key] == ts[i])
    && (forall i :: 0 <= i < |ts| ==> ts[i].weight == w && low <= ts[i].key)
    && (forall i, j :: 0 <= i < j < |ts| ==> ts[i].key != ts[j].key)
  }

  /** Taking one more machine of weight `w` off the queue. */
  lemma DrainedAppend(orig: map<int, Machine>, ts: seq<Machine>, w: int, low: int, t: Machine)
    requires Drained(orig, ts, w, low)
    requires t.key in orig && orig[t.key] == t && t.weight == w && t.key !in Keys(ts)
    ensures Drained(orig, ts + [t], w, if t.key < low then t.key else low)
    ensures Keys(ts + [t]) == Keys(ts) + {t.key}
  {
    KeysAppend(ts, t);
    var us := ts + [t];
    forall i, j | 0 <= i < j < |us| ensures us[i].key != us[j].key {
      if j == |ts| {
        assert us[i] == ts[i];
      }
    }
  }

  /** Removing one more key from what is left of `orig`. */
  lemma TakeOneMore(orig: map<int, Machine>, s: set<int>, k: int)
    ensures (orig - s) - {k} == orig - (s + {k})
  {
  }

  lemma KeysAppend(ts: seq<Machine>, t: Machine)
    ensures Keys(ts + [t]) == Keys(ts) + {t.key}
  {
    var us := ts + [t];
    forall k | k in Keys(us) ensures k in Keys(ts) + {t.key} {
      var i :| 0 <= i < |us| && us[i].key == k;
      if i < |ts| {
        assert ts[i].key == k;
      }
    }
    forall k | k in Keys(ts) ensures k in Keys(us) {
      var i :| 0 <= i < |ts| && ts[i].key == k;
      assert us[i].key == k;
    }
    assert us[|ts|].key == t.key;
  }

  /** The priority queue's `peek`: a key of maximum weight, `None` when the
      queue is empty; which one among equal weights is left open. */
  method Peek(ms: map<int, Machine>) returns (r: Option<int>)
    ensures r.None? <==> ms == map[]
    ensures r.Some? ==> Heaviest(ms, r.value)
  {
    if ms == map[] {
      return None;
    }
    BestExists(ms);
    var k :| Best(ms, k);
    return Some(k);
  }

  /** The first loop of `#pickMachine`: `transfer`, just taken off the
      queue `orig` as a machine of maximum weight, is followed off the queue
      by every machine of the same weight; the one with the smallest key is
      kept. Returns it, all machines taken off, and what is left. */
  method Drain(pq: map<int, Machine>, first: Machine, ghost orig: map<int, Machine>)
      returns (transfer: Machine, transfers: seq<Machine>, rest: map<int, Machine>)
    requires KeyedBy(orig) && Heaviest(orig, first.key) && orig[first.key] == first
    requires pq == orig - {first.key}
    ensures Best(orig, transfer.key) && orig[transfer.key] == transfer
    ensures Drained(orig, transfers, transfer.weight, transfer.key) && transfer in transfers
    ensures rest == orig - Keys(transfers)
  {
    transfer := first;
    rest := pq;
    transfers := [transfer];
    assert Keys(transfers) == {first.key} by {
      KeysAppend([], first);
      assert [] + [first] == transfers;
    }
    ghost var w := transfer.weight;
    var next := Peek(rest);
    while next.Some? && rest[next.value].weight == transfer.weight
      invariant transfer.key in orig && orig[transfer.key] == transfer && transfer.weight == w
      invariant forall j :: j in orig ==> orig[j].weight <= w
      invariant Drained(orig, transfers, w, transfer.key)
      invariant transfer in transfers
      invariant rest == orig - Keys(transfers)
      invariant next.None? <==> rest == map[]
      invariant next.Some? ==> Heaviest(rest, next.value)
      decreases |rest|
    {
      var key := next.value;
      var t := rest[key];
      assert t == orig[key] && t.key == key && key !in Keys(transfers);
      assert |rest - {key}| < |rest| by {
        assert (rest - {key}).Keys == rest.Keys - {key};
      }
      DrainedAppend(orig, transfers, w, transfer.key, t);
      TakeOneMore(orig, Keys(transfers), key);
      rest := rest - {key};
      if t.key < transfer.key {
        transfer := t;
      }
      transfers := transfers + [t];
      next := Peek(rest);
    }
    assert forall j :: j in rest ==> rest[j].weight < w by {
      if next.Some? {
        assert rest[next.value].weight != w;
      }
    }
    assert Best(orig, transfer.key) by {
      forall j | j in orig && orig[j].weight == w ensures transfer.key <= j {
        assert j !in rest;
        assert j in Keys(transfers);
        var i :| 0 <= i < |transfers| && transfers[i].key == j;
      }
    }
  }

  class LoadBalancer {
    /** The machine queue, by machine key. */
    var machines: map<int, Machine>
    /** App id to app. */
    var apps: map<int, App>

    ghost predicate Valid()
      reads this
    {
      Consistent(Balance(machines, apps))
    }

    constructor ()
      ensures Valid() && machines == map[] && apps == map[]
    {
      machines := map[];
      apps := map[];
    }

    /** `addMachine`: a new machine with spare capacity `cap` and no apps. */
    method AddMachine(machineId: int, cap: int)
      requires Valid() && machineId !in machines
      modifies this
      ensures Valid()
      ensures machines == old(machines)[machineId := Machine(machineId, cap, [])] && apps == old(apps)
    {
      machines := machines[machineId := Machine(machineId, cap, [])];
    }

    /** `#pickMachine`: takes the worst-fit machine out of the queue, `None`
        when the queue is empty. It pulls machines of the maximum weight off
        the queue one by one, keeps the one with the smallest key and puts
        the others back. */
    method PickMachine() returns (r: Option<Machine>)
      requires KeyedBy(machines)
      modifies this
      ensures apps == old(apps)
      ensures old(machines) == map[] ==> r == None && machines == old(machines)
      ensures old(machines) != map[] ==>
        && r.Some? && Best(old(machines), r.value.key) && old(machines)[r.value.key] == r.value
        && machines == old(machines) - {r.value.key}
    {
      ghost var orig := machines;
      var first := Peek(machines);
      if first.None? {
        return None;
      }
      var transfer, transfers, rest := Drain(machines - {first.value}, machines[first.value], orig);
      machines := rest;
      PutBack(transfers, transfer, orig);
      return Some(transfer);
    }

    /** The last loop of `#pickMachine`: every machine taken off the queue
        except `transfer` goes back in. */
    method PutBack(transfers: seq<Machine>, transfer: Machine, ghost orig: map<int, Machine>)
      requires Drained(orig, transfers, transfer.weight, transfer.key) && transfer in transfers
      requires machines == orig - Keys(transfers)
      modifies this
      ensures machines == orig - {transfer.key} && apps == old(apps)
    {
      for i := 0 to |transfers|
        invariant machines == orig - (Keys(transfers[i..]) + {transfer.key}) && apps == old(apps)
      {
        var t := transfers[i];
        assert Keys(transfers[i..]) == {t.key} + Keys(transfers[i + 1..]);
        assert t.key !in Keys(transfers[i + 1..]);
        if t != transfer {
          machines := machines[t.key := t];
        }
      }
    }

    /** `addApplication(appId, loadUse, app)`; `app` is the app being
        re-offered by `removeMachine`, which passes its own id and load. */
    method AddApplication(appId: int, loadUse: int, app: Option<App>) returns (r: Option<int>)
      requires Valid()
      requires app.Some? ==> app.value.id == appId && app.value.loadUse == loadUse
      modifies this
      ensures Valid()
      ensures (r, Balance(machines, apps)) == Added(old(Balance(machines, apps)), appId, loadUse, app)
    {
      ghost var b := Balance(machines, apps);
      AddedConsistent(b, appId, loadUse, app);
      var picked := PickMachine();
      if picked.None? {
        return None;
      }
      var transfer := picked.value;
      BestUnique(b.machines, transfer.key, Pick(b.machines));
      if loadUse <= transfer.weight {
        var a := Recorded(app, appId, loadUse, transfer.key);
        machines := machines[transfer.key := Assign(transfer, a)];
        apps := apps[appId := a];
        assert machines == b.machines[transfer.key := Assign(transfer, a)];
        return Some(transfer.key);
      } else {
        machines := machines[transfer.key := transfer];
        assert machines == b.machines;
        return None;
      }
    }

    /** `stopApplication(appId)`. */
    method StopApplication(appId: int)
      requires Valid()
      modifies this
      ensures Valid()
      ensures Balance(machines, apps) == Stopped(old(Balance(machines, apps)), appId)
    {
      StoppedConsistent(Balance(machines, apps), appId);
      if appId in apps {
        var app := apps[appId];
        apps := apps - {appId};
        var machine := machines[app.onMachine];
        machines := machines[app.onMachine := Release(machine, app)];
      }
    }

    /** `removeMachine(machineId)`, with the apps of the machine unrecorded
        first and recorded again as they are re-placed. */
    method RemoveMachine(machineId: int)
      requires Valid() && machineId in machines
      modifies this
      ensures Valid()
      ensures Balance(machines, apps) == Removed(old(Balance(machines, apps)), machineId)
    {
      ghost var goal := Removed(Balance(machines, apps), machineId);
      RemovedConsistent(Balance(machines, apps), machineId);
      var removed := machines[machineId];
      machines, apps := machines - {machineId}, map id | id in apps && apps[id].onMachine != machineId :: apps[id];
      for i := 0 to |removed.apps|
        invariant Valid()
        invariant Reoffered(Balance(machines, apps), removed.apps[i..]) == goal
      {
        var app := removed.apps[i];
        assert removed.apps[i..][1..] == removed.apps[i + 1..];
        AddedConsistent(Balance(machines, apps), app.id, app.loadUse, Some(app));
        var placed := AddApplication(app.id, app.loadUse, Some(app));
      }
      assert removed.apps[|removed.apps|..] == [];
    }

    /** `getApplications(machineId)`: the ids of the machine's first ten
        apps, in the order they were placed. */
    method GetApplications(machineId: int) returns (r: seq<int>)
      requires machineId in machines
      ensures |r| == if |machines[machineId].apps| < 10 then |machines[machineId].apps| else 10
      ensures forall i :: 0 <= i < |r| ==> r[i] == machines[machineId].apps[i].id
    {
      var list := machines[machineId].apps;
      var n := if |list| < 10 then |list| else 10;
      r := seq(n, i requires 0 <= i < n => list[i].id);
    }
  }
}
