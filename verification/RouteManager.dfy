/**
 go/internal/routemanager/manager.go: the active route handlers and the running client watchers, two maps over
 high-availability groups that every update of the routes has to keep in agreement, whatever fails.
 */
module RouteManager {

  /** A route; routes with the same group id serve the same network. */
  datatype Route = Route(id: string, haID: string, peer: string, bits: nat, isDynamic: bool)

  type HAMap = map<string, seq<Route>>

  /** A group of routes sent to a watcher. */
  datatype RoutesUpdate = RoutesUpdate(serial: nat, routes: seq<Route>)

  /** The handler of a group's first route, with a record of what it was asked to do. */
  class Handler {
    const id: string
    const route: Route
    ghost var attempts: nat
    ghost var adds: nat
    ghost var removes: nat

    constructor (id: string, route: Route)
      ensures this.id == id && this.route == route && attempts == 0 && adds == 0 && removes == 0
    {
      this.id, this.route := id, route;
      attempts, adds, removes := 0, 0, 0;
    }

    method AddRoute(works: bool) returns (ok: bool)
      modifies this
      ensures ok == works
      ensures attempts == old(attempts) + 1 && adds == old(adds) + (if works then 1 else 0) && removes == old(removes)
    {
      attempts := attempts + 1;
      adds := adds + if works then 1 else 0;
      ok := works;
    }

    method RemoveRoute(works: bool) returns (ok: bool)
      modifies this
      ensures ok == works
      ensures attempts == old(attempts) && adds == old(adds) && removes == old(removes) + 1
    {
      removes := removes + 1;
      ok := works;
    }
  }

  /** The watcher of a group, bound to a handler for its whole life. */
  class Watcher {
    const id: string
    const route: Route
    const handler: Handler
    ghost var starts: nat
    ghost var stops: nat
    ghost var updates: seq<RoutesUpdate>

    constructor (id: string, route: Route, handler: Handler)
      ensures this.id == id && this.route == route && this.handler == handler
      ensures starts == 0 && stops == 0 && updates == []
    {
      this.id, this.route, this.handler := id, route, handler;
      starts, stops, updates := 0, 0, [];
    }

    method Start()
      modifies this`starts
      ensures starts == old(starts) + 1
    {
      starts := starts + 1;
    }

    method Stop()
      modifies this`stops
      ensures stops == old(stops) + 1
    {
      stops := stops + 1;
    }

    method SendUpdate(update: RoutesUpdate)
      modifies this`updates
      ensures updates == old(updates) + [update]
    {
      updates := updates + [update];
    }
  }

  /** The groups that have a route. */
  function Groups(networks: HAMap): set<string> {
    set id | id in networks && networks[id] != []
  }

  /** The system calls that will fail, by group. */
  datatype Faults = Faults(addFails: set<string>, removeFails: set<string>)

  class Manager {
    const disableClientRoutes: bool
    var activeRoutes: map<string, Handler>
    var clientNetworks: map<string, Watcher>
    var clientRoutes: HAMap

    /** Every handler that was ever made, and every watcher that was ever started. */
    ghost var handlers: set<Handler>
    ghost var watchers: set<Watcher>

    constructor (disableClientRoutes: bool)
      ensures this.disableClientRoutes == disableClientRoutes
      ensures Valid() && handlers == {} && watchers == {}
    {
      this.disableClientRoutes := disableClientRoutes;
      activeRoutes, clientNetworks, clientRoutes := map[], map[], map[];
      handlers, watchers := {}, {};
    }

    // ---- invariants ----

    ghost predicate IsActive(h: Handler)
      reads this`activeRoutes
    {
      h.id in activeRoutes && activeRoutes[h.id] == h
    }

    ghost predicate IsRunning(w: Watcher)
      reads this`clientNetworks
    {
      w.id in clientNetworks && clientNetworks[w.id] == w
    }

    /** A handler was asked once to add its route; it is active if that worked and its removal was not asked for. */
    ghost predicate Accounted(h: Handler)
      reads this`activeRoutes, h
    {
      h.attempts == 1 && h.adds <= 1 && (IsActive(h) ==> h.adds == 1)
      && h.removes == if h.adds == 1 && !IsActive(h) then 1 else 0
    }

    /** A watcher was started once, and is either running or was stopped once. */
    ghost predicate WatcherAccounted(w: Watcher)
      reads this`clientNetworks, w
    {
      w.starts == 1 && w.stops == if IsRunning(w) then 0 else 1
    }

    /** Handler conservation. */
    ghost predicate HandlersConserved()
      reads this`activeRoutes, this`handlers, handlers
    {
      && (forall h :: h in handlers ==> Accounted(h))
      && (forall id :: id in activeRoutes ==> activeRoutes[id] in handlers && activeRoutes[id].id == id)
    }

    /** Watcher conservation. */
    ghost predicate WatchersConserved()
      reads this`clientNetworks, this`watchers, watchers
    {
      && (forall w :: w in watchers ==> WatcherAccounted(w))
      && (forall id :: id in clientNetworks ==> clientNetworks[id] in watchers && clientNetworks[id].id == id)
    }

    ghost predicate Conserved()
      reads this, handlers, watchers
    {
      HandlersConserved() && WatchersConserved()
    }

    /** What the running watchers were told. */
    ghost function Told(): (told: map<string, seq<RoutesUpdate>>)
      requires WatchersConserved()
      reads this`clientNetworks, this`watchers, watchers
      ensures told.Keys == clientNetworks.Keys
    {
      map id | id in clientNetworks :: clientNetworks[id].updates
    }

    /** The state of the manager, as maps. */
    ghost function Snap(): Snapshot
      requires WatchersConserved()
      reads this`activeRoutes, this`clientNetworks, this`watchers, watchers
    {
      Snapshot(activeRoutes, clientNetworks, Told())
    }

    /** Every running watcher is bound to the active handler of its group. */
    ghost predicate Bound()
      reads this`clientNetworks, this`activeRoutes
    {
      InAgreement(clientNetworks, activeRoutes)
    }

    ghost predicate Valid()
      reads this, handlers, watchers
    {
      Conserved() && Bound()
    }

    // ---- routes ----

    /** Drops a group's handler, whether or not its removal works. */
    method DropRoute(id: string, works: bool) returns (ok: bool)
      requires HandlersConserved() && id in activeRoutes
      modifies this`activeRoutes, handlers
      ensures HandlersConserved() && activeRoutes == old(activeRoutes) - {id}
      ensures ok == works
    {
      var handler := activeRoutes[id];
      assert IsActive(handler) && Accounted(handler);
      ok := handler.RemoveRoute(works);
      activeRoutes := activeRoutes - {id};
      assert Accounted(handler);
    }

    /** Makes the handler of a group, and keeps it when its route can be added. */
    method ActivateRoute(id: string, route: Route, works: bool) returns (ok: bool)
      requires HandlersConserved() && id !in activeRoutes
      modifies this`activeRoutes, this`handlers
      ensures HandlersConserved() && handlers >= old(handlers)
      ensures forall h :: h in handlers && h !in old(handlers) ==> fresh(h)
      ensures ok == works
      ensures !works ==> activeRoutes == old(activeRoutes)
      ensures works ==> id in activeRoutes && activeRoutes == old(activeRoutes)[id := activeRoutes[id]]
                        && activeRoutes[id].route == route && fresh(activeRoutes[id])
    {
      var handler := new Handler(id, route);
      ok := handler.AddRoute(works);
      handlers := handlers + {handler};
      if ok {
        activeRoutes := activeRoutes[id := handler];
      }
      assert Accounted(handler);
      assert forall h :: h in old(handlers) ==> h.id == id ==> !old(IsActive(h));
    }

    method DropRoutes(ids: set<string>, fails: set<string>) returns (ok: bool)
      requires HandlersConserved() && ids <= activeRoutes.Keys
      modifies this`activeRoutes, handlers
      ensures HandlersConserved() && activeRoutes == old(activeRoutes) - ids
      ensures ok <==> ids !! fails
    {
      hide HandlersConserved;
      ok := true;
      var left := ids;
      while left != {}
        invariant left <= ids && HandlersConserved() && activeRoutes == old(activeRoutes) - (ids - left)
        invariant ok <==> (ids - left) !! fails
        decreases |left|
      {
        var id :| id in left;
        var removed := DropRoute(id, id !in fails);
        ok := ok && removed;
        left := left - {id};
      }
      assert ids - {} == ids;
    }

    method ActivateRoutes(toAdd: map<string, Route>, fails: set<string>) returns (ok: bool)
      requires HandlersConserved() && toAdd.Keys !! activeRoutes.Keys
      modifies this`activeRoutes, this`handlers
      ensures HandlersConserved() && handlers >= old(handlers)
      ensures forall h :: h in handlers && h !in old(handlers) ==> fresh(h)
      ensures activeRoutes.Keys == old(activeRoutes).Keys + (toAdd.Keys - fails)
      ensures forall id :: id in old(activeRoutes) ==> activeRoutes[id] == old(activeRoutes)[id]
      ensures forall id :: id in toAdd.Keys - fails ==> activeRoutes[id].route == toAdd[id] && fresh(activeRoutes[id])
      ensures ok <==> toAdd.Keys !! fails
    {
      hide HandlersConserved;
      ok := true;
      var left := toAdd.Keys;
      while left != {}
        invariant left <= toAdd.Keys && HandlersConserved()
        invariant handlers >= old(handlers) && (forall h :: h in handlers && h !in old(handlers) ==> fresh(h))
        invariant activeRoutes.Keys == old(activeRoutes).Keys + (toAdd.Keys - left - fails)
        invariant forall id :: id in old(activeRoutes) ==> activeRoutes[id] == old(activeRoutes)[id]
        invariant forall id :: id in toAdd.Keys - left - fails ==>
                                 activeRoutes[id].route == toAdd[id] && fresh(activeRoutes[id])
        invariant ok <==> (toAdd.Keys - left) !! fails
        decreases |left|
      {
        var id :| id in left;
        var added := ActivateRoute(id, toAdd[id], id !in fails);
        ok := ok && added;
        left := left - {id};
      }
      assert toAdd.Keys - {} == toAdd.Keys;
    }

    /**
     Makes the active routes those of the groups, as far as the system lets it: a group that stays keeps its handler,
     a group that goes loses it even when the removal fails, and a group that comes gets one unless adding fails.
     */
    method UpdateSystemRoutes(newRoutes: HAMap, faults: Faults) returns (ok: bool)
      requires HandlersConserved()
      modifies this`activeRoutes, this`handlers, handlers
      ensures HandlersConserved() && handlers >= old(handlers)
      ensures forall h :: h in handlers && h !in old(handlers) ==> fresh(h)
      ensures activeRoutes.Keys ==
              Groups(newRoutes) * old(activeRoutes).Keys
              + (Groups(newRoutes) - old(activeRoutes).Keys - faults.addFails)
      ensures forall id :: id in Groups(newRoutes) * old(activeRoutes).Keys ==>
                             activeRoutes[id] == old(activeRoutes)[id]
      ensures forall id :: id in activeRoutes && id !in old(activeRoutes) ==>
                             fresh(activeRoutes[id]) && activeRoutes[id].route == newRoutes[id][0]
      ensures ok <==> (old(activeRoutes).Keys - Groups(newRoutes)) !! faults.removeFails
                      && (Groups(newRoutes) - old(activeRoutes).Keys) !! faults.addFails
    {
      var toAdd := map id | id in newRoutes && newRoutes[id] != [] :: newRoutes[id][0];
      var toRemove := activeRoutes.Keys - toAdd.Keys;
      toAdd := toAdd - activeRoutes.Keys;
      var removed := DropRoutes(toRemove, faults.removeFails);
      var added := ActivateRoutes(toAdd, faults.addFails);
      ok := removed && added;
      assert toRemove == old(activeRoutes).Keys - Groups(newRoutes);
      assert toAdd.Keys == Groups(newRoutes) - old(activeRoutes).Keys;
    }

    // ---- watchers ----

    method StopClient(id: string)
      requires WatchersConserved() && id in clientNetworks
      modifies this`clientNetworks, watchers`stops
      ensures WatchersConserved() && clientNetworks == old(clientNetworks) - {id} && Told() == old(Told()) - {id}
    {
      var client := clientNetworks[id];
      assert IsRunning(client) && WatcherAccounted(client);
      client.Stop();
      clientNetworks := clientNetworks - {id};
      assert WatcherAccounted(client);
    }

    method StopClients(ids: set<string>)
      requires WatchersConserved() && ids <= clientNetworks.Keys
      modifies this`clientNetworks, watchers`stops
      ensures WatchersConserved() && clientNetworks == old(clientNetworks) - ids && Told() == old(Told()) - ids
    {
      hide WatchersConserved, Told;
      var left := ids;
      while left != {}
        invariant left <= ids && WatchersConserved() && clientNetworks == old(clientNetworks) - (ids - left)
        invariant Told() == old(Told()) - (ids - left)
        decreases |left|
      {
        var id :| id in left;
        StopClient(id);
        left := left - {id};
      }
      assert ids - {} == ids;
    }

    /** Stops the watchers of the groups that are gone, and no others. */
    method StopObsoleteClients(networks: HAMap)
      requires WatchersConserved()
      modifies this`clientNetworks, watchers`stops
      ensures WatchersConserved()
      ensures clientNetworks == old(clientNetworks) - (old(clientNetworks).Keys - networks.Keys)
      ensures Told() == old(Told()) - (old(clientNetworks).Keys - networks.Keys)
    {
      hide WatchersConserved, Told;
      StopClients(clientNetworks.Keys - networks.Keys);
    }

    /** Starts the watcher of a group on its active handler. */
    method StartClient(id: string, route: Route, update: RoutesUpdate)
      requires WatchersConserved() && id !in clientNetworks && id in activeRoutes
      modifies this`clientNetworks, this`watchers
      ensures WatchersConserved() && watchers >= old(watchers)
      ensures forall w :: w in watchers && w !in old(watchers) ==> fresh(w)
      ensures id in clientNetworks && clientNetworks == old(clientNetworks)[id := clientNetworks[id]]
      ensures fresh(clientNetworks[id]) && clientNetworks[id].handler == activeRoutes[id]
      ensures clientNetworks[id].route == route
      ensures clientNetworks[id].updates == [update]
    {
      var watcher := new Watcher(id, route, activeRoutes[id]);
      clientNetworks := clientNetworks[id := watcher];
      watcher.Start();
      watcher.SendUpdate(update);
      watchers := watchers + {watcher};
      assert WatcherAccounted(watcher);
      assert forall w :: w in old(watchers) ==> w.id == id ==> !old(IsRunning(w));
    }

    method Notify(id: string, update: RoutesUpdate)
      requires WatchersConserved() && id in clientNetworks
      modifies watchers`updates
      ensures WatchersConserved()
      ensures clientNetworks[id].updates == old(clientNetworks[id].updates) + [update]
      ensures forall w :: w in watchers && w != clientNetworks[id] ==> w.updates == old(w.updates)
    {
      var watcher := clientNetworks[id];
      assert WatcherAccounted(watcher);
      watcher.SendUpdate(update);
      assert WatcherAccounted(watcher);
    }

    /** Tells a group's watcher about its routes, starting one when the group has an active handler and none runs. */
    method ServeClient(id: string, update: RoutesUpdate, notifyRunning: bool)
      requires WatchersConserved() && (id in activeRoutes ==> update.routes != [])
      modifies this`clientNetworks, this`watchers, watchers`updates
      ensures WatchersConserved() && watchers >= old(watchers)
      ensures forall w :: w in watchers && w !in old(watchers) ==> fresh(w)
      ensures id in old(clientNetworks) || id !in activeRoutes ==> clientNetworks == old(clientNetworks)
      ensures id !in old(clientNetworks) && id in activeRoutes ==>
                id in clientNetworks && clientNetworks == old(clientNetworks)[id := clientNetworks[id]]
                && clientNetworks[id].handler == activeRoutes[id]
      ensures Told() == ServedOne(old(Told()), activeRoutes.Keys, id, update, notifyRunning)
    {
      hide WatcherAccounted;
      if id in clientNetworks {
        if notifyRunning {
          Notify(id, update);
        }
        return;
      }
      if id !in activeRoutes {
        return;
      }
      StartClient(id, update.routes[0], update);
    }

    /**
     Serves every group: watchers that run keep running, a group with an active handler gets a watcher, and every
     watcher that was to be told is told exactly once.
     */
    method ServeClients(networks: HAMap, serial: nat, notifyRunning: bool)
      requires WatchersConserved() && activeRoutes.Keys <= Groups(networks)
      modifies this`clientNetworks, this`watchers, watchers`updates
      ensures WatchersConserved() && watchers >= old(watchers)
      ensures forall w :: w in watchers && w !in old(watchers) ==> fresh(w)
      ensures Grown(old(clientNetworks), clientNetworks, activeRoutes, networks.Keys)
      ensures Served(old(Told()), Told(), networks, networks.Keys, serial, notifyRunning)
    {
      hide WatchersConserved, Told, Served, ServedOne, Grown, Splits, Groups;
      ActiveHaveRoutes(activeRoutes.Keys, networks);
      ghost var before, told := clientNetworks, Told();
      NoneServed(before, activeRoutes, told, networks, serial, notifyRunning);
      var left := networks.Keys;
      ghost var done: set<string> := {};
      NothingDone(networks.Keys);
      while left != {}
        invariant Splits(networks.Keys, left, done) && left <= networks.Keys && done <= networks.Keys
        invariant WatchersConserved()
        invariant watchers >= old(watchers) && (forall w :: w in watchers && w !in old(watchers) ==> fresh(w))
        invariant Grown(before, clientNetworks, activeRoutes, done)
        invariant Served(told, Told(), networks, done, serial, notifyRunning)
        decreases |left|
      {
        var id :| id in left;
        ghost var now := clientNetworks;
        SplitOne(networks.Keys, left, done, id);
        ServedOneMore(told, Told(), activeRoutes.Keys, networks, done, id, serial, notifyRunning);
        ServeClient(id, RoutesUpdate(serial, networks[id]), notifyRunning);
        GrownOneMore(before, now, clientNetworks, activeRoutes, done, id);
        left, done := left - {id}, done + {id};
      }
      NothingLeft(networks.Keys, done);
    }

    /** Stops the watchers of the groups that are gone, and serves the others. */
    method UpdateClients(networks: HAMap, serial: nat, notifyRunning: bool)
      requires WatchersConserved() && activeRoutes.Keys <= Groups(networks)
      modifies this`clientNetworks, this`watchers, watchers`updates, watchers`stops
      ensures WatchersConserved() && watchers >= old(watchers)
      ensures forall w :: w in watchers && w !in old(watchers) ==> fresh(w)
      ensures Grown(old(clientNetworks) - (old(clientNetworks).Keys - networks.Keys), clientNetworks, activeRoutes,
                    networks.Keys)
      ensures Served(old(Told()) - (old(clientNetworks).Keys - networks.Keys), Told(), networks, networks.Keys, serial,
                     notifyRunning)
    {
      hide WatchersConserved, Told, Served, Grown, Groups;
      StopObsoleteClients(networks);
      ServeClients(networks, serial, notifyRunning);
    }

    /**
     The common part of both operations. Afterwards the running watchers are bound to the active handlers exactly when
     no running watcher's group came without a route.
     */
    method Reconcile(networks: HAMap, serial: nat, notifyRunning: bool, faults: Faults) returns (ok: bool)
      requires Conserved()
      modifies this`activeRoutes, this`clientNetworks, this`handlers, this`watchers, handlers, watchers
      ensures Conserved()
      ensures handlers >= old(handlers) && (forall h :: h in handlers && h !in old(handlers) ==> fresh(h))
      ensures watchers >= old(watchers) && (forall w :: w in watchers && w !in old(watchers) ==> fresh(w))
      ensures forall id :: id in activeRoutes && id !in old(activeRoutes) ==> fresh(activeRoutes[id])
      ensures Reconciled(old(Snap()), Snap(), networks, serial, notifyRunning, faults, ok)
    {
      hide HandlersConserved, WatchersConserved, Told, Served, Grown, InAgreement, NoneEmptied, Groups;
      hide Reconciled;
      ghost var before, active, told := clientNetworks, activeRoutes, Told();
      ok := UpdateSystemRoutes(networks, faults);
      UpdateClients(networks, serial, notifyRunning);
      BoundAfter(before, active, before - (before.Keys - networks.Keys), clientNetworks, activeRoutes, networks);
      AllReconciled(Snapshot(active, before, told), Snap(), networks, serial, notifyRunning, faults, ok);
    }

    /** Routes from the management server; `filtered` are those that the route selector lets through. */
    method UpdateRoutes(serial: nat, clients: HAMap, filtered: HAMap, closed: bool, faults: Faults) returns (ok: bool)
      requires Conserved()
      modifies this`activeRoutes, this`clientNetworks, this`clientRoutes, this`handlers, this`watchers
      modifies handlers, watchers
      ensures Conserved()
      ensures handlers >= old(handlers) && (forall h :: h in handlers && h !in old(handlers) ==> fresh(h))
      ensures watchers >= old(watchers) && (forall w :: w in watchers && w !in old(watchers) ==> fresh(w))
      ensures clientRoutes == if closed then old(clientRoutes) else clients
      ensures forall id :: id in activeRoutes && id !in old(activeRoutes) ==> fresh(activeRoutes[id])
      ensures if closed || disableClientRoutes then ok && Snap() == old(Snap())
              else Reconciled(old(Snap()), Snap(), filtered, serial, true, faults, ok)
    {
      hide HandlersConserved, WatchersConserved, Told, Reconciled;
      if closed {
        return true;
      }
      ok := true;
      if !disableClientRoutes {
        ok := Reconcile(filtered, serial, true, faults);
      }
      clientRoutes := clients;
    }

    /** A new selection of routes; the watchers that keep running are not told. */
    method TriggerSelection(filtered: HAMap, faults: Faults) returns (ghost ok: bool)
      requires Conserved()
      modifies this`activeRoutes, this`clientNetworks, this`handlers, this`watchers, handlers, watchers
      ensures Conserved()
      ensures handlers >= old(handlers) && (forall h :: h in handlers && h !in old(handlers) ==> fresh(h))
      ensures watchers >= old(watchers) && (forall w :: w in watchers && w !in old(watchers) ==> fresh(w))
      ensures forall id :: id in activeRoutes && id !in old(activeRoutes) ==> fresh(activeRoutes[id])
      ensures Reconciled(old(Snap()), Snap(), filtered, 0, false, faults, ok)
    {
      hide HandlersConserved, WatchersConserved, Told, Reconciled;
      var worked := Reconcile(filtered, 0, false, faults);
      ok := worked;
    }

    /** Any run of updates and selections, with whatever failures, keeps everything as long as no group is empty. */
    method RunOperations(ops: seq<Operation>)
      requires Valid() && forall op :: op in ops ==> NoEmptyGroup(op.networks)
      modifies this`activeRoutes, this`clientNetworks, this`clientRoutes, this`handlers, this`watchers
      modifies handlers, watchers
      ensures Valid()
      ensures watchers >= old(watchers) && handlers >= old(handlers)
    {
      hide HandlersConserved, WatchersConserved, Told, Served, InAgreement, Groups, Reconciled, NoneEmptied;
      for i := 0 to |ops|
        invariant Valid()
        invariant watchers >= old(watchers) && (forall w :: w in watchers && w !in old(watchers) ==> fresh(w))
        invariant handlers >= old(handlers) && (forall h :: h in handlers && h !in old(handlers) ==> fresh(h))
      {
        assert ops[i] in ops;
        ghost var was := Snap();
        match ops[i] {
          case Update(serial, networks, closed, faults) =>
            var ok := UpdateRoutes(serial, networks, networks, closed, faults);
            if !closed && !disableClientRoutes {
              KeptBound(was, Snap(), networks, serial, true, faults, ok);
            }
          case Selection(networks, faults) =>
            ghost var ok := TriggerSelection(networks, faults);
            KeptBound(was, Snap(), networks, 0, false, faults, ok);
        }
      }
    }
  }

  /** The active handlers, the running watchers, and what these were told. */
  datatype Snapshot = Snapshot(
    active: map<string, Handler>,
    clients: map<string, Watcher>,
    told: map<string, seq<RoutesUpdate>>)

  /**
   What an operation does. The active groups are the ones with a route that were active or could be added; the handlers
   of groups that stay are kept, and the others are for the first route. The running watchers are those of listed groups
   that ran or have an active handler; those that ran are kept. Each is told as it should be. Watchers and handlers
   agree afterwards, if they did before, exactly when no running watcher's group came without a route.
   */
  ghost predicate Reconciled(was: Snapshot, now: Snapshot, networks: HAMap, serial: nat, notifyRunning: bool,
                             faults: Faults, ok: bool) {
    var groups := Groups(networks);
    && now.active.Keys == groups * was.active.Keys + (groups - was.active.Keys - faults.addFails)
    && (forall id :: id in groups * was.active.Keys ==> now.active[id] == was.active[id])
    && (forall id :: id in now.active && id !in was.active ==> now.active[id].route == networks[id][0])
    && now.clients.Keys == networks.Keys * (was.clients.Keys + now.active.Keys)
    && (forall id :: id in networks.Keys * was.clients.Keys ==> now.clients[id] == was.clients[id])
    && Served(was.told - (was.clients.Keys - networks.Keys), now.told, networks, networks.Keys, serial, notifyRunning)
    && (InAgreement(was.clients, was.active) ==>
          (InAgreement(now.clients, now.active) <==> NoneEmptied(was.clients, networks)))
    && (ok <==> (was.active.Keys - groups) !! faults.removeFails && (groups - was.active.Keys) !! faults.addFails)
  }

  lemma AllReconciled(was: Snapshot, now: Snapshot, networks: HAMap, serial: nat, notifyRunning: bool, faults: Faults,
                      ok: bool)
    requires var groups := Groups(networks);
             now.active.Keys == groups * was.active.Keys + (groups - was.active.Keys - faults.addFails)
             && (forall id :: id in groups * was.active.Keys ==> now.active[id] == was.active[id])
             && (forall id :: id in now.active && id !in was.active ==> now.active[id].route == networks[id][0])
             && (ok <==> (was.active.Keys - groups) !! faults.removeFails
                         && (groups - was.active.Keys) !! faults.addFails)
    requires now.clients.Keys == networks.Keys * (was.clients.Keys + now.active.Keys)
    requires forall id :: id in networks.Keys * was.clients.Keys ==> now.clients[id] == was.clients[id]
    requires Served(was.told - (was.clients.Keys - networks.Keys), now.told, networks, networks.Keys, serial,
                    notifyRunning)
    requires InAgreement(was.clients, was.active) ==>
               (InAgreement(now.clients, now.active) <==> NoneEmptied(was.clients, networks))
    ensures Reconciled(was, now, networks, serial, notifyRunning, faults, ok)
  {
    hide Served, InAgreement, NoneEmptied;
  }

  /** Without errors the active groups are exactly the ones with a route. */
  lemma ReconciledWithoutErrors(was: Snapshot, now: Snapshot, networks: HAMap, serial: nat, notifyRunning: bool,
                                faults: Faults)
    requires Reconciled(was, now, networks, serial, notifyRunning, faults, true)
    ensures now.active.Keys == Groups(networks)
  {
    hide Served, InAgreement, NoneEmptied, Groups;
    AllGroupsActive(was.active.Keys, Groups(networks), faults.addFails);
  }

  /** When no group is empty the agreement is kept. */
  lemma KeptBound(was: Snapshot, now: Snapshot, networks: HAMap, serial: nat, notifyRunning: bool, faults: Faults,
                  ok: bool)
    requires Reconciled(was, now, networks, serial, notifyRunning, faults, ok) && NoEmptyGroup(networks)
    requires InAgreement(was.clients, was.active)
    ensures InAgreement(now.clients, now.active)
  {
    hide Served, InAgreement, Groups;
  }

  /** What happens to a manager: an update or a selection, with the groups the route selector let through. */
  datatype Operation =
    | Update(serial: nat, networks: HAMap, closed: bool, faults: Faults)
    | Selection(networks: HAMap, faults: Faults)

  predicate NoEmptyGroup(networks: HAMap) {
    forall id :: id in networks ==> networks[id] != []
  }

  lemma AllGroupsActive(active: set<string>, groups: set<string>, fails: set<string>)
    ensures groups - active !! fails ==> groups * active + (groups - active - fails) == groups
  {
  }

  /** Running watchers and active handlers, as maps, agree. */
  ghost predicate InAgreement(clients: map<string, Watcher>, active: map<string, Handler>) {
    forall id :: id in clients ==> id in active && clients[id].handler == active[id]
  }

  /** Every group that a watcher keeps running for has a route. */
  predicate NoneEmptied(clients: map<string, Watcher>, networks: HAMap) {
    forall id :: id in clients && id in networks ==> networks[id] != []
  }

  lemma BoundAfter(clients: map<string, Watcher>, active: map<string, Handler>, kept: map<string, Watcher>,
                   clientsAfter: map<string, Watcher>, activeAfter: map<string, Handler>, networks: HAMap)
    requires kept == clients - (clients.Keys - networks.Keys)
    requires activeAfter.Keys <= Groups(networks)
    requires forall id :: id in Groups(networks) * active.Keys ==> id in activeAfter && activeAfter[id] == active[id]
    requires Grown(kept, clientsAfter, activeAfter, networks.Keys)
    ensures clientsAfter.Keys == networks.Keys * (clients.Keys + activeAfter.Keys)
    ensures forall id :: id in networks.Keys * clients.Keys ==> clientsAfter[id] == clients[id]
    ensures InAgreement(clients, active) ==>
              (InAgreement(clientsAfter, activeAfter) <==> NoneEmptied(clients, networks))
  {
    if InAgreement(clients, active) && InAgreement(clientsAfter, activeAfter) {
      forall id | id in clients && id in networks
        ensures networks[id] != []
      {
        assert id in clientsAfter;
      }
    }
  }

  /** Some groups are done and the others are left. */
  predicate Splits(all: set<string>, left: set<string>, done: set<string>) {
    left + done == all && left !! done
  }

  lemma SplitOne(all: set<string>, left: set<string>, done: set<string>, id: string)
    requires Splits(all, left, done) && id in left
    ensures Splits(all, left - {id}, done + {id}) && id in all && id !in done && done <= all && left - {id} <= all
  {
  }

  lemma NothingDone(all: set<string>)
    ensures Splits(all, all, {})
  {
  }

  lemma NothingLeft(all: set<string>, done: set<string>)
    requires Splits(all, {}, done)
    ensures done == all
  {
  }

  lemma ActiveHaveRoutes(active: set<string>, networks: HAMap)
    requires active <= Groups(networks)
    ensures forall id :: id in active ==> id in networks && networks[id] != []
  {
  }

  /** The watchers that ran still run, and the served groups with an active handler have one bound to it. */
  ghost predicate Grown(before: map<string, Watcher>, after: map<string, Watcher>, active: map<string, Handler>,
                        ids: set<string>) {
    && after.Keys == before.Keys + ids * active.Keys
    && (forall id :: id in before ==> after[id] == before[id])
    && (forall id :: id in after && id !in before ==> after[id].handler == active[id])
  }

  lemma GrownOneMore(before: map<string, Watcher>, now: map<string, Watcher>, after: map<string, Watcher>,
                     active: map<string, Handler>, ids: set<string>, id: string)
    requires Grown(before, now, active, ids)
    requires id in now || id !in active ==> after == now
    requires id !in now && id in active ==>
               id in after && after == now[id := after[id]] && after[id].handler == active[id]
    ensures Grown(before, after, active, ids + {id})
  {
  }

  lemma NoneServed(clients: map<string, Watcher>, active: map<string, Handler>, told: map<string, seq<RoutesUpdate>>,
                   networks: HAMap, serial: nat, notifyRunning: bool)
    ensures Grown(clients, clients, active, {})
    ensures Served(told, told, networks, {}, serial, notifyRunning)
  {
  }

  /** What the watchers were told after one group was served. */
  ghost function ServedOne(told: map<string, seq<RoutesUpdate>>, active: set<string>, id: string, update: RoutesUpdate,
                           notifyRunning: bool): map<string, seq<RoutesUpdate>> {
    if id in told then if notifyRunning then told[id := told[id] + [update]] else told
    else if id in active then told[id := [update]]
    else told
  }

  /** Some groups were served: a new watcher was told its group once, a running one when it was to be told. */
  ghost predicate Served(before: map<string, seq<RoutesUpdate>>, after: map<string, seq<RoutesUpdate>>, networks: HAMap,
                         ids: set<string>, serial: nat, notifyRunning: bool)
    requires ids <= networks.Keys
  {
    && (forall id :: id in before ==>
                       id in after
                       && after[id] == before[id] + if notifyRunning && id in ids
                                                    then [RoutesUpdate(serial, networks[id])] else [])
    && (forall id :: id in after && id !in before ==> id in ids && after[id] == [RoutesUpdate(serial, networks[id])])
  }

  lemma ServedOneMore(before: map<string, seq<RoutesUpdate>>, now: map<string, seq<RoutesUpdate>>, active: set<string>,
                      networks: HAMap, ids: set<string>, id: string, serial: nat, notifyRunning: bool)
    requires ids <= networks.Keys && id in networks && id !in ids
    requires Served(before, now, networks, ids, serial, notifyRunning)
    ensures Served(before, ServedOne(now, active, id, RoutesUpdate(serial, networks[id]), notifyRunning), networks,
                   ids + {id}, serial, notifyRunning)
  {
  }

  // ---- classifying routes ----

  /** Routes of groups that this peer serves itself are server routes; the supported others are grouped. */
  datatype Classified = Classified(serverRoutes: map<string, Route>, clientRoutes: HAMap)

  /** Whether the system routes any prefix, and otherwise the longest prefix that counts as a default route. */
  datatype Support = Support(routable: bool, minRangeBits: nat)

  predicate IsRouteSupported(r: Route, support: Support) {
    support.routable || r.isDynamic || r.bits > support.minRangeBits
  }

  /** The groups that this peer serves. */
  function OwnIDs(routes: seq<Route>, pubKey: string): set<string> {
    if routes == [] then {}
    else
      var front, last := OwnIDs(routes[..|routes| - 1], pubKey), routes[|routes| - 1];
      if last.peer == pubKey then front + {last.haID} else front
  }

  lemma {:induction false} OwnIDsMembers(routes: seq<Route>, pubKey: string, haID: string)
    ensures haID in OwnIDs(routes, pubKey) <==> exists r :: r in routes && r.haID == haID && r.peer == pubKey
  {
    if routes != [] {
      OwnIDsMembers(routes[..|routes| - 1], pubKey, haID);
      assert forall r :: r in routes <==> r in routes[..|routes| - 1] || r == routes[|routes| - 1];
    }
  }

  /** The routes of a group that a client may use, in order. */
  /** No route of the group is one of this peer. */
  predicate OthersServe(routes: seq<Route>, pubKey: string, haID: string) {
    forall own :: own in routes && own.haID == haID ==> own.peer != pubKey
  }

  /** The order of a client group is that of the routes: one more route that belongs there goes to its end. */
  lemma ClientGroupOrder(all: seq<Route>, routes: seq<Route>, pubKey: string, support: Support, haID: string, r: Route)
    ensures ClientGroup(all, [], pubKey, support, haID) == []
    ensures ClientGroup(all, routes + [r], pubKey, support, haID) ==
            ClientGroup(all, routes, pubKey, support, haID)
            + if r.haID == haID && OthersServe(all, pubKey, haID)
                 && (support.routable || r.isDynamic || r.bits > support.minRangeBits) then [r] else []
  {
    hide OwnIDs;
    OwnIDsMembers(all, pubKey, haID);
    assert (routes + [r])[..|routes|] == routes;
  }

  function ClientGroup(all: seq<Route>, routes: seq<Route>, pubKey: string, support: Support, haID: string)
    : seq<Route>
  {
    if routes == [] then []
    else
      var front, last := ClientGroup(all, routes[..|routes| - 1], pubKey, support, haID), routes[|routes| - 1];
      if last.haID == haID && haID !in OwnIDs(all, pubKey) && IsRouteSupported(last, support) then front + [last]
      else front
  }

  /** The routes that this peer serves, by id; a later route replaces an earlier one. */
  function ServedRoutes(routes: seq<Route>, pubKey: string): map<string, Route> {
    if routes == [] then map[]
    else
      var front, last := ServedRoutes(routes[..|routes| - 1], pubKey), routes[|routes| - 1];
      if last.peer == pubKey then front[last.id := last] else front
  }

  method ClassifyRoutes(pubKey: string, support: Support, newRoutes: seq<Route>) returns (r: Classified)
    ensures r.serverRoutes == ServedRoutes(newRoutes, pubKey)
    ensures NoEmptyGroup(r.clientRoutes)
    ensures forall haID :: ClientGroup(newRoutes, newRoutes, pubKey, support, haID) ==
                           if haID in r.clientRoutes then r.clientRoutes[haID] else []
    ensures forall haID: string, q: Route ::
              haID in r.clientRoutes && q in r.clientRoutes[haID] <==>
              q in newRoutes && q.haID == haID && OthersServe(newRoutes, pubKey, haID)
              && (support.routable || q.isDynamic || q.bits > support.minRangeBits)
    ensures support.routable ==>
              forall q: Route :: q in newRoutes && OthersServe(newRoutes, pubKey, q.haID) ==>
                                   q.haID in r.clientRoutes && q in r.clientRoutes[q.haID]
  {
    hide IsRouteSupported, OwnIDs, ServedRoutes, OthersServe, ClientGroup;
    NoOwnRoutes(pubKey);
    var servers: map<string, Route> := map[];
    var ownNetworkIDs: set<string> := {};
    for i := 0 to |newRoutes|
      invariant ownNetworkIDs == OwnIDs(newRoutes[..i], pubKey)
      invariant servers == ServedRoutes(newRoutes[..i], pubKey)
    {
      var newRoute := newRoutes[i];
      OwnOneMore(newRoutes, i, pubKey);
      if newRoute.peer == pubKey {
        ownNetworkIDs := ownNetworkIDs + {newRoute.haID};
        servers := servers[newRoute.id := newRoute];
      }
    }
    assert newRoutes[..|newRoutes|] == newRoutes;
    var clients := GroupClientRoutes(pubKey, support, newRoutes, ownNetworkIDs);
    r := Classified(servers, clients);
    GroupedMembers(newRoutes, pubKey, support, clients);
  }

  lemma GroupedMembers(routes: seq<Route>, pubKey: string, support: Support, clients: HAMap)
    requires forall haID :: ClientGroup(routes, routes, pubKey, support, haID) ==
                            if haID in clients then clients[haID] else []
    ensures forall haID: string, q: Route ::
              haID in clients && q in clients[haID] <==>
              q in routes && q.haID == haID && OthersServe(routes, pubKey, haID)
              && (support.routable || q.isDynamic || q.bits > support.minRangeBits)
  {
    hide OthersServe, ClientGroup;
    forall haID: string, q: Route
      ensures haID in clients && q in clients[haID] <==> q in ClientGroup(routes, routes, pubKey, support, haID)
    {
    }
    forall haID: string, q: Route
      ensures q in ClientGroup(routes, routes, pubKey, support, haID) <==>
              q in routes && q.haID == haID && OthersServe(routes, pubKey, haID)
              && (support.routable || q.isDynamic || q.bits > support.minRangeBits)
    {
      ClientGroupMembers(routes, routes, pubKey, support, haID, q);
    }
  }

  lemma NoOwnRoutes(pubKey: string)
    ensures OwnIDs([], pubKey) == {} && ServedRoutes([], pubKey) == map[]
  {
  }

  lemma OwnOneMore(routes: seq<Route>, i: nat, pubKey: string)
    requires i < |routes|
    ensures OwnIDs(routes[..i + 1], pubKey) ==
            OwnIDs(routes[..i], pubKey) + if routes[i].peer == pubKey then {routes[i].haID} else {}
    ensures ServedRoutes(routes[..i + 1], pubKey) ==
            if routes[i].peer == pubKey then ServedRoutes(routes[..i], pubKey)[routes[i].id := routes[i]]
            else ServedRoutes(routes[..i], pubKey)
  {
    assert routes[..i + 1][..i] == routes[..i];
  }

  lemma NoClientGroups(routes: seq<Route>, pubKey: string, support: Support)
    ensures forall haID :: ClientGroup(routes, routes[..0], pubKey, support, haID) == []
  {
  }

  lemma ClientGroupOneMore(routes: seq<Route>, i: nat, pubKey: string, support: Support)
    requires i < |routes|
    ensures forall haID :: ClientGroup(routes, routes[..i + 1], pubKey, support, haID) ==
                           ClientGroup(routes, routes[..i], pubKey, support, haID)
                           + if routes[i].haID == haID && haID !in OwnIDs(routes, pubKey)
                                && IsRouteSupported(routes[i], support) then [routes[i]] else []
  {
    hide IsRouteSupported, OwnIDs;
    assert routes[..i + 1][..i] == routes[..i];
  }

  method GroupClientRoutes(pubKey: string, support: Support, newRoutes: seq<Route>, own: set<string>)
    returns (clients: HAMap)
    requires own == OwnIDs(newRoutes, pubKey)
    ensures NoEmptyGroup(clients)
    ensures forall haID :: ClientGroup(newRoutes, newRoutes, pubKey, support, haID) ==
                           if haID in clients then clients[haID] else []
  {
    hide IsRouteSupported, OwnIDs, ClientGroup;
    clients := map[];
    NoClientGroups(newRoutes, pubKey, support);
    for i := 0 to |newRoutes|
      invariant NoEmptyGroup(clients)
      invariant forall haID :: ClientGroup(newRoutes, newRoutes[..i], pubKey, support, haID) ==
                               if haID in clients then clients[haID] else []
    {
      var newRoute := newRoutes[i];
      ClientGroupOneMore(newRoutes, i, pubKey, support);
      if newRoute.haID !in own {
        if !IsRouteSupported(newRoute, support) {
          continue;
        }
        var group := if newRoute.haID in clients then clients[newRoute.haID] else [];
        clients := clients[newRoute.haID := group + [newRoute]];
      }
    }
    assert newRoutes[..|newRoutes|] == newRoutes;
  }

  /** The server routes are exactly those of the peer, each under its id. */
  lemma {:induction false} ServedRoutesMembers(routes: seq<Route>, pubKey: string)
    ensures forall id :: id in ServedRoutes(routes, pubKey) <==>
                           exists r :: r in routes && r.id == id && r.peer == pubKey
    ensures forall id :: id in ServedRoutes(routes, pubKey) ==>
                           var r := ServedRoutes(routes, pubKey)[id]; r in routes && r.id == id && r.peer == pubKey
  {
    if routes != [] {
      ServedRoutesMembers(routes[..|routes| - 1], pubKey);
      assert forall r :: r in routes <==> r in routes[..|routes| - 1] || r == routes[|routes| - 1];
    }
  }

  /** Of several own routes with one id the last is served. */
  lemma {:induction false} LastIsServed(routes: seq<Route>, pubKey: string, i: nat)
    requires i < |routes| && routes[i].peer == pubKey
    requires forall j :: i < j < |routes| && routes[j].peer == pubKey ==> routes[j].id != routes[i].id
    ensures routes[i].id in ServedRoutes(routes, pubKey) && ServedRoutes(routes, pubKey)[routes[i].id] == routes[i]
  {
    if i < |routes| - 1 {
      LastIsServed(routes[..|routes| - 1], pubKey, i);
    }
  }

  /**
   A client group holds exactly the routes of a group that this peer does not serve which the system can route: all of
   them, or else the dynamic ones and those longer than what counts as a default route.
   */
  lemma {:induction false} ClientGroupMembers(all: seq<Route>, routes: seq<Route>, pubKey: string, support: Support,
                                              haID: string, r: Route)
    ensures r in ClientGroup(all, routes, pubKey, support, haID) <==>
            r in routes && r.haID == haID && OthersServe(all, pubKey, haID)
            && (support.routable || r.isDynamic || r.bits > support.minRangeBits)
  {
    hide OwnIDs;
    OwnIDsMembers(all, pubKey, haID);
    if routes != [] {
      ClientGroupMembers(all, routes[..|routes| - 1], pubKey, support, haID, r);
      assert r in routes <==> r in routes[..|routes| - 1] || r == routes[|routes| - 1];
    }
  }

  /** A group whose watcher runs and that comes without a route breaks the agreement at once. */
  method EmptyGroupBreaksAgreement(m: Manager, id: string, serial: nat)
    requires m.Valid() && id in m.clientNetworks && !m.disableClientRoutes
    modifies m`activeRoutes, m`clientNetworks, m`clientRoutes, m`handlers, m`watchers, m.handlers, m.watchers
    ensures m.Conserved() && !m.Bound()
  {
    hide m.HandlersConserved, m.WatchersConserved, m.Told, Served, InAgreement, Groups;
    var networks: HAMap := map[id := []];
    assert id in networks && networks[id] == [] && !NoneEmptied(m.clientNetworks, networks);
    var _ := m.UpdateRoutes(serial, networks, networks, false, Faults({}, {}));
  }
}
