/** Who is woken: what a signalled key and a visit mean for the clients that wait. */
module BlockedMeaning {
  import opened Wrappers
  import opened Blocked
  import opened BlockedClients

  /** The kind of waiting that an object of a type ends. */
  ghost predicate Ends(o: ObjType, t: BType) {
    || (o.AList? && t.OnList?)
    || (o.AZset? && t.OnZset?)
    || (o.AStream? && t.OnStream?)
    || (o.AModule? && t.OnModule?)
  }

  /** Objects of other types wake nobody. */
  ghost predicate CanWake(o: ObjType) {
    o.AList? || o.AZset? || o.AStream? || o.AModule?
  }

  lemma TypeMeans(o: ObjType, t: BType)
    requires !t.NoBlock?
    ensures BlockedTypeOf(o) == t <==> Ends(o, t)
    ensures BlockedTypeOf(o).NoBlock? <==> !CanWake(o)
  {
  }

  /** Somebody waits for such an object, or is a client of a module. */
  ghost predicate SomeoneBlocked(clients: map<Client, Info>, o: ObjType) {
    exists c :: c in clients && clients[c].blocked && (Ends(o, clients[c].btype) || clients[c].btype.OnModule?)
  }

  /** Somebody waits for this key; for a deleted one only those count that want to know. */
  ghost predicate SomeoneWaitsFor(clients: map<Client, Info>, k: Key, deleted: bool) {
    exists c :: c in clients && k in clients[c].keys && (deleted ==> clients[c].noKey)
  }

  lemma BlockedCount(clients: map<Client, Info>, byType: map<BType, int>, total: int, t: BType)
    requires CountsTypes(clients, byType, total)
    ensures t in byType && (byType[t] != 0 <==> exists c :: c in clients && clients[c].blocked && clients[c].btype == t)
  {
    assert t in byType && byType[t] == |OfType(clients, t)|;
    if c :| c in clients && clients[c].blocked && clients[c].btype == t {
      assert c in OfType(clients, t);
    } else {
      assert forall c :: c !in OfType(clients, t);
      assert OfType(clients, t) == {};
    }
  }

  lemma WaitingKey(clients: map<Client, Info>, bk: map<Key, seq<Client>>, nk: map<Key, int>, k: Key)
    requires Linked(clients, bk) && CountsNoKey(NoKeyClients(clients), bk, nk)
    ensures k in bk <==> SomeoneWaitsFor(clients, k, false)
    ensures k in nk <==> SomeoneWaitsFor(clients, k, true)
  {
    if k in bk {
      var c := bk[k][0];
      assert c in bk[k];
      assert c in clients && k in clients[c].keys;
    }
    var n := NoKeyClients(clients) * Elems(Waiters(bk, k));
    assert CountOk(n, nk, k);
    if c :| c in clients && k in clients[c].keys && clients[c].noKey {
      assert k in bk && c in bk[k];
      assert c in n;
    } else {
      assert n == {};
    }
  }

  /** A key is worth queueing exactly if an object of its type can wake somebody, somebody is blocked for
      such objects or by a module, and somebody waits for the key. */
  lemma SignalMeans(clients: map<Client, Info>, bk: map<Key, seq<Client>>, nk: map<Key, int>,
                    byType: map<BType, int>, total: int, s: Signal)
    requires Linked(clients, bk) && CountsNoKey(NoKeyClients(clients), bk, nk) && CountsTypes(clients, byType, total)
    ensures Queues(s, byType, bk, nk) <==>
            && CanWake(s.otype) && SomeoneBlocked(clients, s.otype) && SomeoneWaitsFor(clients, s.key, s.deleted)
  {
    hide Linked, CountsNoKey, CountsTypes, NoKeyClients;
    WaitingKey(clients, bk, nk, s.key);
    var t := BlockedTypeOf(s.otype);
    BlockedCount(clients, byType, total, t);
    BlockedCount(clients, byType, total, OnModule);
    assert CanWake(s.otype) ==>
        (SomeoneBlocked(clients, s.otype) <==>
         || (exists c :: c in clients && clients[c].blocked && clients[c].btype == t)
         || (exists c :: c in clients && clients[c].blocked && clients[c].btype == OnModule));
  }

  /** Nobody is missed: a key that somebody waits for is queued when an object of the awaited type comes. */
  lemma NobodyIsMissed(clients: map<Client, Info>, bk: map<Key, seq<Client>>, nk: map<Key, int>,
                       byType: map<BType, int>, total: int, s: Signal, c: Client)
    requires StatesOk(clients) && Linked(clients, bk) && CountsNoKey(NoKeyClients(clients), bk, nk)
    requires CountsTypes(clients, byType, total) && c in clients && s.key in clients[c].keys && !s.deleted
    requires Ends(s.otype, clients[c].btype) || (clients[c].btype.OnModule? && CanWake(s.otype))
    ensures Queues(s, byType, bk, nk)
  {
    SignalMeans(clients, bk, nk, byType, total, s);
    assert clients[c].blocked;
  }

  /** A visit runs the command of a client exactly if the key holds what it waits for, or it wants to know
      that the key is gone; a client of a module is left to its callback. */
  lemma VisitMeans(v: Visit, info: Info)
    requires !info.btype.NoBlock?
    ensures Serves(v, info) <==>
            !info.btype.OnModule? && (info.noKey || (v.found.Some? && Ends(v.found.value, info.btype)))
  {
    if v.found.Some? {
      TypeMeans(v.found.value, info.btype);
    }
  }
}
