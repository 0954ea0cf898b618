/** Blocking, unblocking and signalling, in place. */
module BlockedClients {
  import opened Wrappers
  import opened Blocked

  datatype ObjType = AString | AList | ASet | AZset | AHash | AModule | AStream

  /** getBlockedTypeByType. */
  function BlockedTypeOf(t: ObjType): BType {
    match t
    case AList => OnList
    case AZset => OnZset
    case AModule => OnModule
    case AStream => OnStream
    case _ => NoBlock
  }

  datatype Signal = Signal(key: Key, otype: ObjType, deleted: bool)

  /** Somebody may be waiting for the key. */
  predicate Queues(s: Signal, byType: map<BType, int>, bk: map<Key, seq<Client>>, nk: map<Key, int>) {
    var t := BlockedTypeOf(s.otype);
    && !t.NoBlock? && t in byType && OnModule in byType && (byType[t] != 0 || byType[OnModule] != 0)
    && (if s.deleted then s.key in nk else s.key in bk)
  }

  /** A single signal for a key that is not queued yet. */
  ghost predicate OneQueues(signals: seq<Signal>, readyKeys: set<Key>, byType: map<BType, int>,
                            bk: map<Key, seq<Client>>,
                            nk: map<Key, int>) {
    |signals| == 1 && signals[0].key !in readyKeys && Queues(signals[0], byType, bk, nk)
  }

  datatype Again = Again(btype: BType, keys: seq<Key>, onNoKey: bool)

  /** What a visit meets and does: the object at the key, the keys signalled by the command or by the
      callback of a module when it runs, whether the command blocks again, and whether the callback
      serves its client. */
  datatype Visit = Visit(found: Option<ObjType>, signals: seq<Signal>, again: Option<Again>, moduleOk: bool)

  predicate VisitOk(v: Visit) {
    v.again.Some? ==> WaitsForData(v.again.value.btype)
  }

  /** A visit that leaves its client waiting signals nothing. */
  predicate Quiet(v: Visit) {
    v.signals != [] ==> v.again.None? && v.moduleOk
  }

  predicate BlocksAgain(v: Visit, k: Key) {
    v.again.Some? && k in KeySet(v.again.value.keys)
  }

  /** Whether the object suits what the client waits for. */
  predicate Suits(o: Option<ObjType>, info: Info) {
    (o.Some? && (info.btype == BlockedTypeOf(o.value) || info.btype.OnModule?)) || info.noKey
  }

  /** The visit unblocks the client and runs its command. */
  predicate Serves(v: Visit, info: Info) {
    Suits(v.found, info) && !info.btype.OnModule?
  }

  /** The clients that a visit can still serve: a module client is answered once. */
  ghost function Servable(clients: map<Client, Info>, answered: set<Client>): set<Client> {
    set c | c in clients && clients[c].blocked && !(clients[c].btype.OnModule? && c in answered)
  }

  /** Less to serve, or nothing new to do. */
  ghost predicate Progress(before: set<Client>, after: set<Client>, ready: seq<Key>, ready': seq<Key>) {
    |after| <= |before| && (|after| == |before| ==> ready' == ready)
  }

  /** Those of the first `n` waiters that stay blocked through their visit, in their order. */
  function Stayed(was: map<Client, Info>, list: seq<Client>, plan: nat -> Visit, start: nat, n: nat): seq<Client>
    requires n <= |list|
  {
    if n == 0 then []
    else
      var c := list[n - 1];
      Stayed(was, list, plan, start, n - 1) + (if c in was && Serves(plan(start + n - 1), was[c]) then [] else [c])
  }

  /** Those of the first `n` waiters that are served and block on the key again, in their order. */
  function Requeued(was: map<Client, Info>, k: Key, list: seq<Client>, plan: nat -> Visit, start: nat,
                    n: nat): seq<Client>
    requires n <= |list|
  {
    if n == 0 then []
    else
      var (c, v) := (list[n - 1], plan(start + n - 1));
      Requeued(was, k, list, plan, start, n - 1)
      + (if c in was && Serves(v, was[c]) && BlocksAgain(v, k) then [c] else [])
  }

  /** The waiters of a key while it is served: those that stay, those not visited, those that came back. */
  ghost function Line(before: seq<Client>, list: seq<Client>, i: nat, behind: seq<Client>): seq<Client>
    requires i <= |list|
  {
    before + list[i..] + behind
  }

  /** Nothing changed for the clients that were not visited. */
  ghost predicate OthersKept(was: map<Client, Info>, now: map<Client, Info>, visited: seq<Client>) {
    now.Keys == was.Keys && forall c :: c in was && c !in visited ==> now[c] == was[c]
  }

  class BlockedClients {
    var clients: map<Client, Info>
    var blockingKeys: map<Key, seq<Client>>
    var noKey: map<Key, int>
    var byType: map<BType, int>
    var blocked: int
    var readyKeys: set<Key>
    var ready: seq<Key>

    // the module clients whose callback served them and that wait to be unblocked by the module
    var answered: set<Client>

    // the keys that handleClientsBlockedOnKeys has taken from the list and not yet served
    ghost var taken: seq<Key>

    // the keys whose waiters were visited, in order
    ghost var handled: seq<Key>

    /** db->ready_keys holds exactly the keys still queued, each queued once. */
    ghost predicate ReadyOk()
      reads this
    {
      NoDup(taken + ready) && Elems(taken + ready) == readyKeys
    }

    ghost predicate Valid()
      reads this
    {
      && StatesOk(clients) && Linked(clients, blockingKeys)
      && CountsNoKey(NoKeyClients(clients), blockingKeys, noKey)
      && CountsTypes(clients, byType, blocked)
    }

    constructor ()
      ensures Valid() && ReadyOk() && clients == map[] && taken == []
    {
      clients := map[];
      blockingKeys := map[];
      noKey := map[];
      byType := map[NoBlock := 0, OnList := 0, OnWait := 0, OnWaitAof := 0, OnModule := 0, OnStream := 0, OnZset := 0,
              OnPostpone := 0, OnShutdown := 0, OnLazyfree := 0];
      blocked := 0;
      readyKeys := {};
      ready := [];
      answered := {};
      taken := [];
      new;
      forall t ensures t in byType && byType[t] == 0 {
        match t
        case NoBlock =>
        case OnList =>
        case OnWait =>
        case OnWaitAof =>
        case OnModule =>
        case OnStream =>
        case OnZset =>
        case OnPostpone =>
        case OnShutdown =>
        case OnLazyfree =>
      }
      NobodyBlocked(clients, byType);
    }

    /** initClientBlockingState: a client connects. */
    method InitClientBlockingState(c: Client, isModule: bool)
      requires Valid() && c !in clients
      modifies this`clients
      ensures Valid() && clients == old(clients)[c := Info(false, NoBlock, {}, false, isModule)]
    {
      Connected(clients, byType, blocked, c, Info(false, NoBlock, {}, false, isModule));
      clients := clients[c := Info(false, NoBlock, {}, false, isModule)];
    }

    /** blockClient. */
    method BlockClient(c: Client, btype: BType)
      requires c in clients && !clients[c].blocked && !btype.NoBlock? && CountsTypes(clients, byType, blocked)
      modifies this`clients, this`byType, this`blocked
      ensures clients == old(clients)[c := old(clients)[c].(blocked := true, btype := btype)]
      ensures CountsTypes(clients, byType, blocked)
      ensures old(Valid()) ==> Valid()
    {
      var info := clients[c].(blocked := true, btype := btype);
      CountBlock(clients, byType, blocked, c, info);
      if Valid() {
        BlockedState(clients, blockingKeys, c, info);
      }
      clients := clients[c := info];
      if !info.isModule {
        blocked := blocked + 1;
      }
      byType := byType[btype := byType[btype] + 1];
    }

    /** One key of blockForKeys; `n` are the clients counted for deletions. */
    method AddWaiter(c: Client, k: Key, onNoKey: bool, ghost n: set<Client>)
      requires c in clients && Linked(clients, blockingKeys) && CountsNoKey(n, blockingKeys, noKey)
      requires (onNoKey <==> c in n)
      modifies this`clients, this`blockingKeys, this`noKey
      ensures clients == WithKeys(old(clients), c, old(clients)[c].keys + {k})
      ensures Linked(clients, blockingKeys) && CountsNoKey(n, blockingKeys, noKey)
      ensures forall j :: Waiters(blockingKeys, j)
                          == Waiters(old(blockingKeys), j) + (if j == k && k !in old(clients)[c].keys then [c] else [])
    {
      hide Linked, CountsNoKey;
      if k !in clients[c].keys {
        LinkAdd(clients, blockingKeys, c, k);
        NoKeyAppend(n, blockingKeys, noKey, k, c);
        clients := WithKeys(clients, c, clients[c].keys + {k});
        blockingKeys := blockingKeys[k := Waiters(blockingKeys, k) + [c]];
        if onNoKey {
          noKey := noKey[k := if k in noKey then noKey[k] + 1 else 1];
        }
      } else {
        assert clients[c].keys + {k} == clients[c].keys;
      }
    }

    /** The loop of blockForKeys. */
    method AddWaiters(c: Client, keys: seq<Key>, onNoKey: bool, ghost n: set<Client>)
      requires c in clients && clients[c].keys == {} && (onNoKey <==> c in n)
      requires Linked(clients, blockingKeys) && CountsNoKey(n, blockingKeys, noKey)
      modifies this`clients, this`blockingKeys, this`noKey
      ensures clients == WithKeys(old(clients), c, KeySet(keys))
      ensures Linked(clients, blockingKeys) && CountsNoKey(n, blockingKeys, noKey)
      ensures forall k :: Waiters(blockingKeys, k)
                          == Waiters(old(blockingKeys), k) + (if k in KeySet(keys) then [c] else [])
    {
      hide Linked, CountsNoKey, Waiters;
      ghost var was, bk0 := clients, blockingKeys;
      assert KeySet(keys[..0]) == {};
      assert WithKeys(was, c, {}) == was;
      for j := 0 to |keys|
        invariant clients == WithKeys(was, c, KeySet(keys[..j]))
        invariant Linked(clients, blockingKeys) && CountsNoKey(n, blockingKeys, noKey)
        invariant forall k :: Waiters(blockingKeys, k) == Waiters(bk0, k) + (if k in KeySet(keys[..j]) then [c] else [])
      {
        KeySetNext(keys[..j], keys[j]);
        assert keys[..j + 1] == keys[..j] + [keys[j]];
        AddWaiter(c, keys[j], onNoKey, n);
      }
      assert keys[..|keys|] == keys;
    }

    /** blockForKeys: the client goes to the tail of the list of each key it does not wait for yet. */
    method BlockForKeys(c: Client, btype: BType, keys: seq<Key>, onNoKey: bool)
      requires Valid() && c in clients && !clients[c].blocked && WaitsForData(btype)
      modifies this`clients, this`blockingKeys, this`noKey, this`byType, this`blocked
      ensures Valid()
      ensures clients == old(clients)[c := Info(true, btype, KeySet(keys), onNoKey, old(clients)[c].isModule)]
      ensures forall k :: Waiters(blockingKeys, k)
                          == Waiters(old(blockingKeys), k) + (if k in KeySet(keys) then [c] else [])
    {
      hide Linked, CountsNoKey, NoKeyClients, CountsTypes, Waiters;
      ghost var was := clients;
      ghost var n := NoKeyClients(clients) + (if onNoKey then {c} else {});
      StartBlocking(clients, blockingKeys, noKey, c, onNoKey);
      AddWaiters(c, keys, onNoKey, n);
      FinishBlocking(was, clients, blockingKeys, noKey, byType, blocked, c, btype, onNoKey, n);
      clients := clients[c := clients[c].(noKey := onNoKey)];
      BlockClient(c, btype);
    }

    /** releaseBlockedEntry without the client's own side. */
    method ReleaseBlockedEntry(c: Client, k: Key)
      requires c in clients && k in blockingKeys && c in blockingKeys[k] && NoDup(blockingKeys[k])
      requires CountsNoKey(NoKeyClients(clients), blockingKeys, noKey)
      modifies this`blockingKeys, this`noKey
      ensures blockingKeys == Unlink(old(blockingKeys), k, c)
      ensures CountsNoKey(NoKeyClients(clients), blockingKeys, noKey)
    {
      ghost var n := NoKeyClients(clients);
      if clients[c].noKey {
        NoKeyPresent(n, blockingKeys, noKey, k, c);
      }
      NoKeyRemove(n, blockingKeys, noKey, k, c);
      var l := Remove(blockingKeys[k], c);
      if l == [] {
        blockingKeys := blockingKeys - {k};
        noKey := noKey - {k};
      } else {
        blockingKeys := blockingKeys[k := l];
        if clients[c].noKey {
          if noKey[k] - 1 == 0 {
            noKey := noKey - {k};
          } else {
            noKey := noKey[k := noKey[k] - 1];
          }
        }
      }
    }

    /** unblockClientWaitingData: the client leaves the list of each of its keys. */
    method UnblockClientWaitingData(c: Client)
      requires Valid() && c in clients
      modifies this`clients, this`blockingKeys, this`noKey
      ensures clients == WithKeys(old(clients), c, {})
      ensures Linked(clients, blockingKeys) && CountsNoKey(NoKeyClients(clients), blockingKeys, noKey)
      ensures forall k :: Waiters(blockingKeys, k) == Remove(Waiters(old(blockingKeys), k), c)
    {
      hide Linked, CountsNoKey, NoKeyClients, Remove, Unlink, StatesOk, CountsTypes;
      ghost var was := clients;
      var todo := clients[c].keys;
      assert WithKeys(was, c, todo) == was;
      RemoveNothing(was, blockingKeys, c);
      while todo != {}
        invariant todo <= was[c].keys && clients == was
        invariant Linked(WithKeys(was, c, todo), blockingKeys)
        invariant CountsNoKey(NoKeyClients(clients), blockingKeys, noKey)
        invariant forall k :: Waiters(blockingKeys, k) == if k in todo then Waiters(old(blockingKeys), k)
                else Remove(Waiters(old(blockingKeys), k), c)
        decreases todo
      {
        SomeNumber(todo);
        var k :| k in todo;
        ghost var bk := blockingKeys;
        LinkedAt(WithKeys(was, c, todo), bk, c, k);
        LinkRemove(WithKeys(was, c, todo), bk, c, k);
        UnlinkWaiters(bk, k, c);
        ReleaseBlockedEntry(c, k);
        assert WithKeys(WithKeys(was, c, todo), c, todo - {k}) == WithKeys(was, c, todo - {k});
        todo := todo - {k};
      }
      SameNoKey(clients, c);
      clients := WithKeys(clients, c, {});
    }

    /** The first part of unblockClientOnKey: one key of the client is released. */
    method ReleaseKey(c: Client, k: Key)
      requires Valid() && c in clients && k in clients[c].keys
      modifies this`clients, this`blockingKeys, this`noKey
      ensures Valid() && clients == WithKeys(old(clients), c, old(clients)[c].keys - {k})
      ensures forall j :: Waiters(blockingKeys, j) == if j == k then Remove(Waiters(old(blockingKeys), k), c)
              else Waiters(old(blockingKeys), j)
    {
      hide Linked, CountsNoKey, Remove, Unlink, CountsTypes;
      ghost var was := clients;
      LinkedAt(clients, blockingKeys, c, k);
      LinkRemove(clients, blockingKeys, c, k);
      UnlinkWaiters(blockingKeys, k, c);
      ReleaseBlockedEntry(c, k);
      KeyReleased(clients, byType, blocked, c, clients[c].keys - {k});
      clients := WithKeys(clients, c, clients[c].keys - {k});
    }

    /** unblockClientOnKey, up to the command being run again. */
    method UnblockClientOnKey(c: Client, k: Key)
      requires Valid() && c in clients && k in clients[c].keys
      modifies this`clients, this`blockingKeys, this`noKey, this`byType, this`blocked, this`answered
      ensures Valid() && answered == old(answered) - {c}
      ensures clients == old(clients)[c := Info(false, NoBlock, {}, false, old(clients)[c].isModule)]
      ensures forall j :: Waiters(blockingKeys, j) == Remove(Waiters(old(blockingKeys), j), c)
    {
      hide Linked, CountsNoKey, CountsTypes, Remove;
      ghost var bk := blockingKeys;
      LinkedAt(clients, bk, c, k);
      RemoveTwice(bk[k], c);
      ReleaseKey(c, k);
      UnblockClient(c);
    }

    /** unblockClient, for every kind of blocking. */
    method UnblockClient(c: Client)
      requires Valid() && c in clients && clients[c].blocked
      modifies this`clients, this`blockingKeys, this`noKey, this`byType, this`blocked, this`answered
      ensures Valid() && answered == old(answered) - {c}
      ensures clients == old(clients)[c := Info(false, NoBlock, {}, false, old(clients)[c].isModule)]
      ensures forall k :: Waiters(blockingKeys, k) == Remove(Waiters(old(blockingKeys), k), c)
    {
      hide Linked, CountsNoKey, CountsTypes, NoKeyClients, Remove, Waiters;
      var btype := clients[c].btype;
      ghost var was := clients;
      if WaitsForData(btype) {
        UnblockClientWaitingData(c);
      } else {
        RemoveNothing(was, blockingKeys, c);
        assert WithKeys(was, c, {}) == was;
      }
      var info := Info(false, NoBlock, {}, false, clients[c].isModule);
      Unblocked(was, clients, blockingKeys, noKey, byType, blocked, c, info);
      if !info.isModule {
        blocked := blocked - 1;
      }
      byType := byType[btype := byType[btype] - 1];
      clients := clients[c := info];
      answered := answered - {c};
    }

    /** signalKeyAsReadyLogic. */
    method SignalKeyAsReady(signal: Signal)
      requires Valid() && ReadyOk()
      modifies this`readyKeys, this`ready
      ensures Valid() && ReadyOk()
      ensures ready == if Queues(signal, byType, blockingKeys, noKey) && signal.key !in old(readyKeys)
                       then old(ready) + [signal.key] else old(ready)
    {
      var btype := BlockedTypeOf(signal.otype);
      if btype.NoBlock? || (byType[btype] == 0 && byType[OnModule] == 0) {
        return;
      }
      if signal.deleted {
        if signal.key !in noKey {
          return;
        }
      } else if signal.key !in blockingKeys {
        return;
      }
      if signal.key in readyKeys {
        return;
      }
      assert signal.key !in Elems(taken + ready);
      AppendTo(taken + ready, signal.key);
      assert taken + (ready + [signal.key]) == (taken + ready) + [signal.key];
      readyKeys := readyKeys + {signal.key};
      ready := ready + [signal.key];
    }

    method SignalAll(signals: seq<Signal>)
      requires Valid() && ReadyOk()
      modifies this`readyKeys, this`ready
      ensures Valid() && ReadyOk() && old(ready) <= ready && (signals == [] ==> ready == old(ready))
      ensures OneQueues(signals, old(readyKeys), byType, blockingKeys, noKey) ==> ready == old(ready) + [signals[0].key]
    {
      for i := 0 to |signals|
        invariant Valid() && ReadyOk() && old(ready) <= ready
        invariant i == 0 ==> ready == old(ready) && readyKeys == old(readyKeys)
        invariant i == 1 && OneQueues(signals, old(readyKeys), byType, blockingKeys, noKey) ==>
                    ready == old(ready) + [signals[0].key]
      {
        SignalKeyAsReady(signals[i]);
      }
    }

    /** Unblock a client and run its command again. */
    method RunAgain(c: Client, k: Key, v: Visit)
      requires Valid() && ReadyOk() && c in clients && k in clients[c].keys && VisitOk(v)
      requires clients[c].blocked && !clients[c].btype.OnModule?
      modifies this`clients, this`blockingKeys, this`noKey, this`byType, this`blocked, this`readyKeys, this`ready,
               this`answered
      ensures Valid() && ReadyOk() && old(ready) <= ready
      ensures Quiet(v) ==>
                Progress(Servable(old(clients), old(answered)), Servable(clients, answered), old(ready), ready)
      ensures c in clients && clients == old(clients)[c := clients[c]]
      ensures Waiters(blockingKeys, k) == Remove(Waiters(old(blockingKeys), k), c)
              + (if BlocksAgain(v, k) then [c] else [])
    {
      hide Linked, CountsNoKey, CountsTypes, NoKeyClients, Waiters, Remove, NoDup, Elems, StatesOk, Servable, Progress;
      UnblockClientOnKey(c, k);
      SignalAll(v.signals);
      if v.again.Some? {
        var again := v.again.value;
        BlockForKeys(c, again.btype, again.keys, again.onNoKey);
      }
      if Quiet(v) {
        ServedClient(old(clients), old(answered), clients, answered, c, old(ready), ready);
      }
    }

    /** One visited waiter: its command runs again if the key suits it, or the callback of its module,
        which at most marks it as answered. */
    method Serve(c: Client, k: Key, v: Visit) returns (served: bool)
      requires Valid() && ReadyOk() && c in clients && k in clients[c].keys && VisitOk(v)
      modifies this`clients, this`blockingKeys, this`noKey, this`byType, this`blocked, this`readyKeys, this`ready,
               this`answered
      ensures Valid() && ReadyOk() && old(ready) <= ready
      ensures Quiet(v) ==>
                Progress(Servable(old(clients), old(answered)), Servable(clients, answered), old(ready), ready)
      ensures served == Serves(v, old(clients)[c])
      ensures c in clients && clients == old(clients)[c := clients[c]]
      ensures Waiters(blockingKeys, k)
              == if served then Remove(Waiters(old(blockingKeys), k), c) + (if BlocksAgain(v, k) then [c] else [])
                 else Waiters(old(blockingKeys), k)
      ensures !served ==>
                && clients == old(clients) && blockingKeys == old(blockingKeys)
                && noKey == old(noKey) && byType == old(byType)
      ensures !served && !v.moduleOk ==> answered == old(answered)
      ensures OneQueues(v.signals, old(readyKeys), old(byType), old(blockingKeys), old(noKey)) ==>
                !served && Suits(v.found, old(clients)[c]) && c !in old(answered) ==>
                        ready == old(ready) + [v.signals[0].key]
    {
      assert clients[c].blocked;
      hide Linked, CountsNoKey, CountsTypes, NoKeyClients, Waiters, Remove, NoDup, Elems, StatesOk, Servable;
      served := false;
      if Suits(v.found, clients[c]) {
        if !clients[c].btype.OnModule? {
          served := true;
          RunAgain(c, k, v);
        } else if c !in answered {
          SignalAll(v.signals);
          if v.moduleOk {
            answered := answered + {c};
            ServedClient(old(clients), old(answered), clients, answered, c, old(ready), ready);
          }
        }
      }
    }

    /** Why visits have to be quiet: the callback of a module that does not serve its client and signals
        the key again brings back the state in which the key was taken from the queue. */
    method EndlessVisit(c: Client, k: Key)
      requires Valid() && ReadyOk() && c in clients && k in clients[c].keys && k !in readyKeys
      requires clients[c].btype.OnModule? && c !in answered
      modifies this`clients, this`blockingKeys, this`noKey, this`byType, this`blocked, this`readyKeys, this`ready,
               this`answered
      ensures Valid() && ReadyOk() && ready == old(ready) + [k] && readyKeys == old(readyKeys) + {k}
      ensures clients == old(clients) && blockingKeys == old(blockingKeys) && answered == old(answered)
    {
      SomeoneWaits(clients, blockingKeys, byType, blocked, c, k);
      ghost var before := ready;
      var _ := Serve(c, k, Visit(Some(AModule), [Signal(k, AModule, false)], None, false));
      AppendTo(taken + before, k);
      assert taken + (before + [k]) == (taken + before) + [k];
    }

    /** One turn of the loop: the next node is read before the visit, as listNext does. */
    method VisitNext(receiver: Client, k: Key, v: Visit, ghost list: seq<Client>, ghost i: nat,
                     ghost before: seq<Client>, ghost behind: seq<Client>)
      returns (next: Option<Client>, ghost before': seq<Client>, ghost behind': seq<Client>)
      requires Valid() && ReadyOk() && VisitOk(v) && i < |list| && receiver == list[i]
      requires Waiters(blockingKeys, k) == Line(before, list, i, behind)
      modifies this`clients, this`blockingKeys, this`noKey, this`byType, this`blocked, this`readyKeys, this`ready,
               this`answered
      ensures Valid() && ReadyOk() && old(ready) <= ready
      ensures Quiet(v) ==>
                Progress(Servable(old(clients), old(answered)), Servable(clients, answered), old(ready), ready)
      ensures i + 1 < |list| ==> next == Some(list[i + 1])
      ensures Waiters(blockingKeys, k) == Line(before', list, i + 1, behind')
      ensures receiver in old(clients) && receiver in clients && clients == old(clients)[receiver := clients[receiver]]
      ensures before' == before + (if Serves(v, old(clients)[receiver]) then [] else [receiver])
      ensures behind' == behind + (if Serves(v, old(clients)[receiver]) && BlocksAgain(v, k) then [receiver] else [])
    {
      hide Linked, CountsNoKey, CountsTypes, NoKeyClients, Remove, Elems, NoDup, StatesOk, KeySet, After, Waiters;
      MidList(clients, blockingKeys, k, before, list[i..], behind);
      VisitedOne(list, i, before, behind, Waiters(blockingKeys, k));
      next := After(Waiters(blockingKeys, k), receiver);
      var served := Serve(receiver, k, v);
      before', behind' := before, behind;
      if served {
        Joined(before, list[i + 1..], behind, receiver);
        behind' := behind + (if BlocksAgain(v, k) then [receiver] else []);
      } else {
        before' := before + [receiver];
      }
    }

    /** handleClientsBlockedOnKey: the waiters present at the start are visited, each once and in the
        order in which they came, although visited clients may block again on the same key. */
    method HandleClientsBlockedOnKey(k: Key, plan: nat -> Visit, start: nat) returns (visited: seq<Client>, used: nat)
      requires Valid() && ReadyOk() && forall i :: VisitOk(plan(i))
      modifies this`clients, this`blockingKeys, this`noKey, this`byType, this`blocked, this`readyKeys, this`ready,
               this`answered, this`handled
      ensures Valid() && ReadyOk() && old(ready) <= ready && handled == old(handled) + [k]
      ensures visited == Waiters(old(blockingKeys), k)
      ensures Waiters(blockingKeys, k) == Stayed(old(clients), visited, plan, start, |visited|)
                                          + Requeued(old(clients), k, visited, plan, start, |visited|)
      ensures OthersKept(old(clients), clients, visited)
      ensures used == start + |visited|
      ensures (forall i :: Quiet(plan(i))) ==>
                Progress(Servable(old(clients), old(answered)), Servable(clients, answered), old(ready), ready)
    {
      hide Linked, CountsNoKey, CountsTypes, NoKeyClients, NoDup, Elems, StatesOk, OthersKept, Stayed, Requeued,
              Serves, BlocksAgain, Waiters, Suits, KeySet, Line;
      ghost var list := Waiters(blockingKeys, k);
      WaitersOnce(clients, blockingKeys, k);
      NoneVisited(clients, k, list, plan, start);
      var next := if Waiters(blockingKeys, k) != [] then Some(Waiters(blockingKeys, k)[0]) else None;
      var count := |Waiters(blockingKeys, k)|;
      visited, used := [], start;
      ghost var before, behind: seq<Client> := [], [];
      ghost var i := 0;
      assert list[..0] == [];
      while next.Some? && count > 0
        invariant Valid() && ReadyOk() && old(ready) <= ready && handled == old(handled)
        invariant 0 <= i <= |list| && count == |list| - i && visited == list[..i]
        invariant i < |list| ==> next == Some(list[i])
        invariant Waiters(blockingKeys, k) == Line(before, list, i, behind)
        invariant before == Stayed(old(clients), list, plan, start, i)
        invariant behind == Requeued(old(clients), k, list, plan, start, i)
        invariant OthersKept(old(clients), clients, list[..i])
        invariant used == start + i
        invariant (forall j :: Quiet(plan(j))) ==>
                    Progress(Servable(old(clients), old(answered)), Servable(clients, answered), old(ready), ready)
        decreases count
      {
        var receiver := next.value;
        count := count - 1;
        var v := plan(used);
        ghost var now := clients;
        next, before, behind := VisitNext(receiver, k, v, list, i, before, behind);
        used := used + 1;
        visited := visited + [receiver];
        VisitedNext(old(clients), now, clients, k, list, plan, start, i);
        i := i + 1;
      }
      assert i == |list| && visited == list;
      LineEnds(before, list, behind);
      handled := handled + [k];
    }

    /** handleClientsBlockedOnKeys: runs until no key is queued. */
    method HandleClientsBlockedOnKeys(plan: nat -> Visit)
      requires Valid() && ReadyOk() && taken == [] && forall i :: VisitOk(plan(i)) && Quiet(plan(i))
      modifies this
      ensures Valid() && ReadyOk() && taken == [] && ready == [] && readyKeys == {}
      ensures old(handled) + old(ready) <= handled
    {
      hide Linked, CountsNoKey, CountsTypes, StatesOk;
      var used := 0;
      while ready != []
        invariant Valid() && ReadyOk() && taken == []
        invariant old(handled) + old(ready) <= handled + ready
        decreases |Servable(clients, answered)|, |ready|
      {
        var l := ready;
        ghost var before := Servable(clients, answered);
        assert [] + ready == ready && ready + [] == ready;
        ready := [];
        taken := l;
        while l != []
          invariant Valid() && ReadyOk() && taken == l && Progress(before, Servable(clients, answered), [], ready)
          invariant old(handled) + old(ready) <= handled + l + ready
          decreases |l|
        {
          var k := l[0];
          ghost var was, queued := handled, ready;
          FirstTaken(l, ready, readyKeys);
          readyKeys := readyKeys - {k};
          taken := l[1..];
          var visited;
          visited, used := HandleClientsBlockedOnKey(k, plan, used);
          QueueMoves(old(handled) + old(ready), was, l, queued, handled, ready);
          l := l[1..];
        }
      }
      assert Elems([] + []) == {};
    }
  }

  lemma SomeoneWaits(clients: map<Client, Info>, bk: map<Key, seq<Client>>, byType: map<BType, int>, total: int,
                     c: Client, k: Key)
    requires StatesOk(clients) && Linked(clients, bk) && CountsTypes(clients, byType, total)
    requires c in clients && k in clients[c].keys && clients[c].btype.OnModule?
    ensures k in bk && OnModule in byType && byType[OnModule] != 0
  {
    LinkedAt(clients, bk, c, k);
    assert c in OfType(clients, OnModule);
    assert OnModule in byType && byType[OnModule] == |OfType(clients, OnModule)|;
  }

  /** A client that was served is not servable any more, unless it blocked again. */
  lemma ServedClient(was: map<Client, Info>, answered: set<Client>, clients: map<Client, Info>,
                     answered': set<Client>, c: Client,
                     ready: seq<Key>, ready': seq<Key>)
    requires c in was && was[c].blocked && !(was[c].btype.OnModule? && c in answered)
    requires c in clients && clients == was[c := clients[c]] && answered' - {c} == answered - {c}
    requires clients[c].blocked && !(clients[c].btype.OnModule? && c in answered') ==> ready' == ready
    ensures Progress(Servable(was, answered), Servable(clients, answered'), ready, ready')
  {
    var (before, after) := (Servable(was, answered), Servable(clients, answered'));
    forall x | x != c ensures x in after <==> x in before {
      assert x in answered' - {c} <==> x in answered - {c};
    }
    assert c in before;
    if c in after {
      assert after == before;
    } else {
      assert after == before - {c};
    }
  }

  /** Moving the first key of the list to those handled, while others join at the end. */
  lemma QueueMoves(start: seq<Key>, was: seq<Key>, l: seq<Key>, before: seq<Key>, now: seq<Key>, after: seq<Key>)
    requires l != [] && start <= was + l + before && now == was + [l[0]] && before <= after
    ensures start <= now + l[1..] + after
  {
    assert now + l[1..] + after == was + l + after;
    assert was + l + after == was + l + before + after[|before|..];
  }

  lemma WaitersOnce(clients: map<Client, Info>, bk: map<Key, seq<Client>>, k: Key)
    requires Linked(clients, bk)
    ensures NoDup(Waiters(bk, k))
  {
  }

  lemma LineEnds(before: seq<Client>, list: seq<Client>, behind: seq<Client>)
    ensures Line(before, list, |list|, behind) == before + behind
  {
  }

  lemma NoneVisited(was: map<Client, Info>, k: Key, list: seq<Client>, plan: nat -> Visit, start: nat)
    ensures OthersKept(was, was, list[..0]) && Line([], list, 0, []) == list
    ensures Stayed(was, list, plan, start, 0) == [] && Requeued(was, k, list, plan, start, 0) == []
  {
  }

  lemma VisitedNext(was: map<Client, Info>, now: map<Client, Info>, after: map<Client, Info>, k: Key,
                    list: seq<Client>, plan: nat -> Visit, start: nat, i: nat)
    requires NoDup(list) && i < |list| && OthersKept(was, now, list[..i])
    requires list[i] in now && list[i] in after && after == now[list[i] := after[list[i]]]
    ensures OthersKept(was, after, list[..i + 1]) && list[..i] + [list[i]] == list[..i + 1]
    ensures var v := plan(start + i);
            && Stayed(was, list, plan, start, i + 1) == Stayed(was, list, plan, start, i)
                    + (if Serves(v, now[list[i]]) then [] else [list[i]])
            && Requeued(was, k, list, plan, start, i + 1) == Requeued(was, k, list, plan, start, i)
                    + (if Serves(v, now[list[i]]) && BlocksAgain(v, k) then [list[i]] else [])
  {
    hide Serves, BlocksAgain;
    var c := list[i];
    assert c in was.Keys && c !in list[..i];
    assert now[c] == was[c];
    assert list[..i + 1] == list[..i] + [list[i]];
  }

  function KeySet(keys: seq<Key>): set<Key> {
    set k | k in keys
  }

  lemma KeySetNext(keys: seq<Key>, k: Key)
    ensures KeySet(keys + [k]) == KeySet(keys) + {k}
    ensures k in KeySet(keys) ==> KeySet(keys + [k]) == KeySet(keys)
  {
  }

  lemma BlockedState(clients: map<Client, Info>, bk: map<Key, seq<Client>>, c: Client, info: Info)
    requires StatesOk(clients) && Linked(clients, bk) && c in clients && !clients[c].blocked
    requires info == clients[c].(blocked := true, btype := info.btype) && !info.btype.NoBlock?
    ensures StatesOk(clients[c := info]) && Linked(clients[c := info], bk)
    ensures NoKeyClients(clients[c := info]) == NoKeyClients(clients)
  {
    LinkSame(clients, clients[c := info], bk);
  }

  /** Whether a client in no list wants to know about deletions does not matter yet. */
  lemma NoKeyIrrelevant(n: set<Client>, n': set<Client>, bk: map<Key, seq<Client>>, nk: map<Key, int>, c: Client)
    requires CountsNoKey(n, bk, nk) && (forall x :: x != c ==> (x in n <==> x in n'))
    requires forall k :: c !in Waiters(bk, k)
    ensures CountsNoKey(n', bk, nk)
  {
    forall k ensures CountOk(n' * Elems(Waiters(bk, k)), nk, k) {
      assert CountOk(n * Elems(Waiters(bk, k)), nk, k);
      assert c !in Waiters(bk, k);
      assert n' * Elems(Waiters(bk, k)) == n * Elems(Waiters(bk, k)) by {
        assert forall x :: x in n' * Elems(Waiters(bk, k)) <==> x in n * Elems(Waiters(bk, k));
      }
    }
  }

  lemma StartBlocking(clients: map<Client, Info>, bk: map<Key, seq<Client>>, nk: map<Key, int>, c: Client,
                      onNoKey: bool)
    requires StatesOk(clients) && Linked(clients, bk) && CountsNoKey(NoKeyClients(clients), bk, nk) && c in clients
    requires !clients[c].blocked
    ensures CountsNoKey(NoKeyClients(clients) + (if onNoKey then {c} else {}), bk, nk)
    ensures WithKeys(clients, c, {}) == clients && KeySet([]) == {} && c !in NoKeyClients(clients)
  {
    NoKeyIrrelevant(NoKeyClients(clients), NoKeyClients(clients) + (if onNoKey then {c} else {}), bk, nk, c);
  }

  /** Changes that leave the kind of blocking alone leave the counters right. */
  lemma SameCounters(was: map<Client, Info>, clients: map<Client, Info>, byType: map<BType, int>, total: int)
    requires CountsTypes(was, byType, total) && clients.Keys == was.Keys
    requires forall c :: c in was ==>
              && clients[c].blocked == was[c].blocked && clients[c].btype == was[c].btype
              && clients[c].isModule == was[c].isModule
    ensures CountsTypes(clients, byType, total)
  {
    forall t ensures t in byType && byType[t] == |OfType(clients, t)| {
      assert t in byType && byType[t] == |OfType(was, t)|;
      assert forall c :: c in OfType(clients, t) <==> c in OfType(was, t);
      assert OfType(clients, t) == OfType(was, t);
    }
    assert forall c :: c in Regular(clients) <==> c in Regular(was);
    assert Regular(clients) == Regular(was);
  }

  lemma FinishBlocking(was: map<Client, Info>, clients: map<Client, Info>, bk: map<Key, seq<Client>>,
                       nk: map<Key, int>, byType: map<BType, int>, total: int, c: Client, btype: BType, onNoKey: bool,
                       n: set<Client>)
    requires StatesOk(was) && c in was && !was[c].blocked && c in clients
    requires clients == WithKeys(was, c, clients[c].keys)
    requires Linked(clients, bk) && CountsNoKey(n, bk, nk) && n == NoKeyClients(was) + (if onNoKey then {c} else {})
    requires CountsTypes(was, byType, total) && WaitsForData(btype)
    ensures var with := clients[c := clients[c].(noKey := onNoKey)];
            var done := with[c := with[c].(blocked := true, btype := btype)];
            CountsTypes(with, byType, total) && StatesOk(done) && Linked(done, bk) &&
                    CountsNoKey(NoKeyClients(done), bk, nk)
  {
    hide Linked, CountsNoKey, CountsTypes, NoKeyClients;
    var with := clients[c := clients[c].(noKey := onNoKey)];
    var done := with[c := with[c].(blocked := true, btype := btype)];
    LinkSame(clients, done, bk);
    SameCounters(was, with, byType, total);
    NoKeyJoins(was, done, c, onNoKey);
  }

  lemma NoKeyJoins(was: map<Client, Info>, done: map<Client, Info>, c: Client, onNoKey: bool)
    requires c in was && !was[c].noKey && c in done && done == was[c := done[c]] && done[c].noKey == onNoKey
    ensures NoKeyClients(done) == NoKeyClients(was) + (if onNoKey then {c} else {})
  {
  }

  /** listNext: the node after the one returned. */
  function After(l: seq<Client>, c: Client): Option<Client> {
    if l == [] then None
    else if l[0] == c then (if |l| > 1 then Some(l[1]) else None)
    else After(l[1..], c)
  }

  lemma {:induction false} AfterMiddle(a: seq<Client>, c: Client, b: seq<Client>)
    requires c !in a
    ensures After(a + [c] + b, c) == if b == [] then None else Some(b[0])
  {
    if a != [] {
      AfterMiddle(a[1..], c, b);
      assert (a + [c] + b)[1..] == a[1..] + [c] + b;
    }
  }

  lemma RemoveHead(c: Client, b: seq<Client>)
    ensures Remove([c] + b, c) == b
  {
    assert ([c] + b)[1..] == b;
  }

  lemma RemoveLater(x: Client, l: seq<Client>, c: Client)
    requires x != c
    ensures Remove([x] + l, c) == [x] + Remove(l, c)
  {
    assert ([x] + l)[1..] == l;
  }

  lemma {:induction false} RemoveMiddle(a: seq<Client>, c: Client, b: seq<Client>)
    requires c !in a
    ensures Remove(a + [c] + b, c) == a + b
  {
    if a == [] {
      assert a + [c] + b == [c] + b && a + b == b;
      RemoveHead(c, b);
    } else {
      hide Remove;
      RemoveMiddle(a[1..], c, b);
      assert a + [c] + b == [a[0]] + (a[1..] + [c] + b) && a + b == [a[0]] + (a[1..] + b);
      RemoveLater(a[0], a[1..] + [c] + b, c);
    }
  }

  lemma Joined(a: seq<Client>, l: seq<Client>, b: seq<Client>, c: Client)
    ensures a + l + b + [c] == a + l + (b + [c]) && a + l + b + [] == a + l + b
  {
  }

  /** A list in the middle of the waiters, one step on. */
  lemma VisitedOne(list: seq<Client>, i: nat, before: seq<Client>, behind: seq<Client>, w: seq<Client>)
    requires i < |list| && w == before + list[i..] + behind && list[i] !in before
    ensures i + 1 < |list| ==> After(w, list[i]) == Some(list[i + 1])
    ensures Remove(w, list[i]) == before + list[i + 1..] + behind
    ensures w == (before + [list[i]]) + list[i + 1..] + behind
  {
    var rest := list[i + 1..] + behind;
    assert w == before + [list[i]] + rest;
    AfterMiddle(before, list[i], rest);
    RemoveMiddle(before, list[i], rest);
    assert before + rest == before + list[i + 1..] + behind;
  }

  /** The waiters of a key are distinct and wait for it. */
  lemma MidList(clients: map<Client, Info>, bk: map<Key, seq<Client>>, k: Key, a: seq<Client>, l: seq<Client>,
                b: seq<Client>)
    requires Linked(clients, bk) && Waiters(bk, k) == a + l + b && l != []
    ensures l[0] !in a && l[0] in clients && k in clients[l[0]].keys
  {
    var w := a + l + b;
    assert w[|a|] == l[0];
    assert forall i :: 0 <= i < |a| ==> w[i] == a[i];
    assert l[0] in w;
  }

  lemma NobodyBlocked(clients: map<Client, Info>, byType: map<BType, int>)
    requires clients == map[] && forall t :: t in byType && byType[t] == 0
    ensures CountsTypes(clients, byType, 0) && NoKeyClients(clients) == {}
  {
    forall t ensures OfType(clients, t) == {} {
    }
    assert Regular(clients) == {};
  }

  lemma Connected(clients: map<Client, Info>, byType: map<BType, int>, total: int, c: Client, info: Info)
    requires c !in clients && !info.blocked && !info.noKey && CountsTypes(clients, byType, total)
    ensures CountsTypes(clients[c := info], byType, total) && NoKeyClients(clients[c := info]) == NoKeyClients(clients)
  {
    forall t ensures OfType(clients[c := info], t) == OfType(clients, t) {
    }
    assert Regular(clients[c := info]) == Regular(clients);
  }

  lemma FirstTaken(l: seq<Key>, ready: seq<Key>, keys: set<Key>)
    requires l != [] && NoDup(l + ready) && Elems(l + ready) == keys
    ensures NoDup(l[1..] + ready) && Elems(l[1..] + ready) == keys - {l[0]}
  {
    var (all, rest) := (l + ready, l[1..] + ready);
    assert all[0] == l[0] && forall i :: 0 <= i < |rest| ==> rest[i] == all[i + 1];
    assert all == [l[0]] + rest;
  }

  lemma SameNoKey(clients: map<Client, Info>, c: Client)
    requires c in clients
    ensures NoKeyClients(WithKeys(clients, c, {})) == NoKeyClients(clients)
  {
  }

  /** A client without keys is in no list. */
  lemma RemoveNothing(clients: map<Client, Info>, bk: map<Key, seq<Client>>, c: Client)
    requires Linked(clients, bk) && c in clients
    ensures forall k :: k !in clients[c].keys ==> Remove(Waiters(bk, k), c) == Waiters(bk, k)
  {
    forall k | k !in clients[c].keys ensures Remove(Waiters(bk, k), c) == Waiters(bk, k) {
      RemoveAbsent(Waiters(bk, k), c);
    }
  }

  lemma RemoveTwice(l: seq<Client>, c: Client)
    requires NoDup(l)
    ensures Remove(Remove(l, c), c) == Remove(l, c)
  {
    RemoveFrom(l, c);
    assert c !in Elems(Remove(l, c));
    RemoveAbsent(Remove(l, c), c);
  }

  lemma KeyReleased(clients: map<Client, Info>, byType: map<BType, int>, total: int, c: Client, keys: set<Key>)
    requires c in clients && StatesOk(clients) && CountsTypes(clients, byType, total) && keys <= clients[c].keys
    ensures var after := WithKeys(clients, c, keys);
            StatesOk(after) && CountsTypes(after, byType, total) && NoKeyClients(after) == NoKeyClients(clients)
  {
    var after := WithKeys(clients, c, keys);
    forall t ensures OfType(after, t) == OfType(clients, t) {
    }
    assert Regular(after) == Regular(clients);
  }

  lemma {:induction false} RemoveAbsent(l: seq<Client>, c: Client)
    requires c !in l
    ensures Remove(l, c) == l
  {
    if l != [] {
      RemoveAbsent(l[1..], c);
    }
  }

  /** With its keys gone, clearing the state of a client keeps everything in agreement. */
  lemma Unblocked(was: map<Client, Info>, clients: map<Client, Info>, bk: map<Key, seq<Client>>, nk: map<Key, int>,
                  byType: map<BType, int>, total: int, c: Client, info: Info)
    requires c in was && was[c].blocked && clients == WithKeys(was, c, {}) && StatesOk(was)
    requires CountsTypes(was, byType, total) && Linked(clients, bk) && CountsNoKey(NoKeyClients(clients), bk, nk)
    requires info == Info(false, NoBlock, {}, false, was[c].isModule)
    ensures was[c].btype in byType
    ensures var t := was[c].btype;
            StatesOk(clients[c := info]) && Linked(clients[c := info], bk) &&
                    CountsNoKey(NoKeyClients(clients[c := info]), bk, nk)
            && CountsTypes(clients[c := info], byType[t := byType[t] - 1], if info.isModule then total else total - 1)
  {
    CountUnblock(was, byType, total, c, info);
    assert clients[c := info] == was[c := info];
    LinkSame(clients, clients[c := info], bk);
    NoKeyLeaves(clients, bk, nk, c, info);
  }

  lemma NoKeyLeaves(clients: map<Client, Info>, bk: map<Key, seq<Client>>, nk: map<Key, int>, c: Client, info: Info)
    requires c in clients && clients[c].keys == {} && Linked(clients, bk)
    requires CountsNoKey(NoKeyClients(clients), bk, nk) && !info.noKey
    ensures CountsNoKey(NoKeyClients(clients[c := info]), bk, nk)
  {
    var (n, n') := (NoKeyClients(clients), NoKeyClients(clients[c := info]));
    forall k ensures CountOk(n' * Elems(Waiters(bk, k)), nk, k) {
      assert CountOk(n * Elems(Waiters(bk, k)), nk, k);
      assert n' * Elems(Waiters(bk, k)) == n * Elems(Waiters(bk, k));
    }
  }
}
