/** Clients blocked on keys: several dictionaries and counters that describe one relation. */
module Blocked {
  type Client = int

  /** A key together with its database. */
  type Key = int

  datatype BType =
    NoBlock | OnList | OnWait | OnWaitAof | OnModule | OnStream | OnZset | OnPostpone | OnShutdown | OnLazyfree

  /** The blocking state of a client. */
  datatype Info = Info(blocked: bool, btype: BType, keys: set<Key>, noKey: bool, isModule: bool)

  // ---------------------------------------------------------------------------------------
  // Waiter lists
  // ---------------------------------------------------------------------------------------

  function Elems(l: seq<Client>): set<Client> {
    set c | c in l
  }

  ghost predicate NoDup(l: seq<Client>) {
    forall i, j :: 0 <= i < j < |l| ==> l[i] != l[j]
  }

  function Waiters(bk: map<Key, seq<Client>>, k: Key): seq<Client> {
    if k in bk then bk[k] else []
  }

  /** The list without a client. */
  function Remove(l: seq<Client>, c: Client): seq<Client> {
    if l == [] then [] else if l[0] == c then l[1..] else [l[0]] + Remove(l[1..], c)
  }

  lemma {:induction false} RemoveFrom(l: seq<Client>, c: Client)
    requires NoDup(l)
    ensures NoDup(Remove(l, c)) && Elems(Remove(l, c)) == Elems(l) - {c}
  {
    if l != [] {
      var tail := l[1..];
      assert Elems(l) == {l[0]} + Elems(tail);
      assert l[0] !in tail;
      RemoveFrom(tail, c);
      if l[0] != c {
        var r := Remove(tail, c);
        assert Elems([l[0]] + r) == {l[0]} + Elems(r);
        assert l[0] !in r by {
          assert l[0] !in Elems(r);
        }
      }
    }
  }

  lemma AppendTo(l: seq<Client>, c: Client)
    requires NoDup(l) && c !in l
    ensures NoDup(l + [c]) && Elems(l + [c]) == Elems(l) + {c}
  {
  }

  // ---------------------------------------------------------------------------------------
  // The relation
  // ---------------------------------------------------------------------------------------

  /** A key is among the keys of a client exactly if the client is, once, in the list of the key. */
  ghost predicate Linked(clients: map<Client, Info>, bk: map<Key, seq<Client>>) {
    && (forall k :: k in bk ==> bk[k] != [] && NoDup(bk[k]))
    && (forall k, c :: k in bk && c in bk[k] ==> c in clients && k in clients[c].keys)
    && (forall k, c :: c in clients && k in clients[c].keys ==> k in bk && c in bk[k])
  }

  function NoKeyClients(clients: map<Client, Info>): set<Client> {
    set c | c in clients && clients[c].noKey
  }

  /** The reference counts for keys whose deletion wakes somebody. */
  ghost predicate CountsNoKey(n: set<Client>, bk: map<Key, seq<Client>>, nk: map<Key, int>) {
    forall k :: CountOk(n * Elems(Waiters(bk, k)), nk, k)
  }

  /** Absent when zero. */
  ghost predicate CountOk(n: set<Client>, nk: map<Key, int>, k: Key) {
    if n == {} then k !in nk else k in nk && nk[k] == |n|
  }

  function OfType(clients: map<Client, Info>, t: BType): set<Client> {
    set c | c in clients && clients[c].blocked && clients[c].btype == t
  }

  function Regular(clients: map<Client, Info>): set<Client> {
    set c | c in clients && clients[c].blocked && !clients[c].isModule
  }

  ghost predicate CountsTypes(clients: map<Client, Info>, byType: map<BType, int>, total: int) {
    (forall t :: t in byType && byType[t] == |OfType(clients, t)|) && total == |Regular(clients)|
  }

  ghost predicate StatesOk(clients: map<Client, Info>) {
    forall c :: c in clients ==>
      && (!clients[c].blocked ==> clients[c].btype.NoBlock? && clients[c].keys == {} && !clients[c].noKey)
      && (clients[c].blocked ==> !clients[c].btype.NoBlock?)
      && (clients[c].keys != {} ==> WaitsForData(clients[c].btype))
      && (clients[c].noKey ==> WaitsForData(clients[c].btype))
  }

  predicate WaitsForData(t: BType) {
    t.OnList? || t.OnZset? || t.OnStream? || t.OnModule?
  }

  lemma CountFrame(n: set<Client>, nk: map<Key, int>, nk': map<Key, int>, k: Key)
    requires CountOk(n, nk, k) && (k in nk' <==> k in nk) && (k in nk ==> nk'[k] == nk[k])
    ensures CountOk(n, nk', k)
  {
  }

  function CountUp(nk: map<Key, int>, k: Key): map<Key, int> {
    nk[k := if k in nk then nk[k] + 1 else 1]
  }

  function CountDown(nk: map<Key, int>, k: Key): map<Key, int>
    requires k in nk
  {
    if nk[k] - 1 == 0 then nk - {k} else nk[k := nk[k] - 1]
  }

  lemma CountedUp(n: set<Client>, nk: map<Key, int>, k: Key, c: Client)
    requires CountOk(n, nk, k) && c !in n
    ensures CountOk(n + {c}, CountUp(nk, k), k)
  {
  }

  lemma CountedDown(n: set<Client>, nk: map<Key, int>, k: Key, c: Client)
    requires CountOk(n, nk, k) && c in n
    ensures k in nk && CountOk(n - {c}, CountDown(nk, k), k)
  {
    assert n == (n - {c}) + {c};
  }

  /** A new waiter at the tail of the list of `k`. */
  lemma NoKeyAppend(n: set<Client>, bk: map<Key, seq<Client>>, nk: map<Key, int>, k: Key, c: Client)
    requires CountsNoKey(n, bk, nk) && c !in Waiters(bk, k)
    ensures CountsNoKey(n, bk[k := Waiters(bk, k) + [c]], if c in n then CountUp(nk, k) else nk)
  {
    var l := Waiters(bk, k);
    var bk' := bk[k := l + [c]];
    var nk' := if c in n then CountUp(nk, k) else nk;
    forall j ensures CountOk(n * Elems(Waiters(bk', j)), nk', j) {
      assert CountOk(n * Elems(Waiters(bk, j)), nk, j);
      if j == k {
        assert n * Elems(l + [c]) == n * Elems(l) + (if c in n then {c} else {});
        if c in n {
          CountedUp(n * Elems(l), nk, k, c);
        }
      } else {
        CountFrame(n * Elems(Waiters(bk, j)), nk, nk', j);
      }
    }
  }

  /** The lists after a waiter left the list of `k`; an empty list is dropped. */
  function Unlink(bk: map<Key, seq<Client>>, k: Key, c: Client): map<Key, seq<Client>>
    requires k in bk
  {
    if Remove(bk[k], c) == [] then bk - {k} else bk[k := Remove(bk[k], c)]
  }

  lemma UnlinkWaiters(bk: map<Key, seq<Client>>, k: Key, c: Client)
    requires k in bk
    ensures forall j :: Waiters(Unlink(bk, k, c), j) == if j == k then Remove(bk[k], c) else Waiters(bk, j)
  {
  }

  /** The counts after a waiter left; with the list gone the entry goes too. */
  function UnlinkCount(n: set<Client>, bk: map<Key, seq<Client>>, nk: map<Key, int>, k: Key, c: Client): map<Key, int>
    requires k in bk && (c in n ==> k in nk)
  {
    if Remove(bk[k], c) == [] then nk - {k} else if c in n then CountDown(nk, k) else nk
  }

  lemma NoKeyPresent(n: set<Client>, bk: map<Key, seq<Client>>, nk: map<Key, int>, k: Key, c: Client)
    requires CountsNoKey(n, bk, nk) && c in Waiters(bk, k) && c in n
    ensures k in nk && nk[k] >= 1
  {
    assert CountOk(n * Elems(Waiters(bk, k)), nk, k);
    assert c in n * Elems(Waiters(bk, k));
  }

  lemma NoKeyRemove(n: set<Client>, bk: map<Key, seq<Client>>, nk: map<Key, int>, k: Key, c: Client)
    requires CountsNoKey(n, bk, nk) && k in bk && NoDup(bk[k]) && c in bk[k] && (c in n ==> k in nk)
    ensures CountsNoKey(n, Unlink(bk, k, c), UnlinkCount(n, bk, nk, k, c))
  {
    var (bk', nk') := (Unlink(bk, k, c), UnlinkCount(n, bk, nk, k, c));
    RemoveFrom(bk[k], c);
    UnlinkWaiters(bk, k, c);
    forall j ensures CountOk(n * Elems(Waiters(bk', j)), nk', j) {
      assert CountOk(n * Elems(Waiters(bk, j)), nk, j);
      if j == k {
        var before := n * Elems(bk[k]);
        assert n * Elems(Remove(bk[k], c)) == before - {c};
        if Remove(bk[k], c) == [] {
          assert before - {c} == {};
        } else if c in n {
          CountedDown(before, nk, k, c);
        } else {
          assert before - {c} == before;
        }
      } else {
        CountFrame(n * Elems(Waiters(bk, j)), nk, nk', j);
      }
    }
  }

  // ---------------------------------------------------------------------------------------
  // One client more or less
  // ---------------------------------------------------------------------------------------

  function WithKeys(clients: map<Client, Info>, c: Client, keys: set<Key>): map<Client, Info>
    requires c in clients
  {
    clients[c := clients[c].(keys := keys)]
  }

  lemma LinkAdd(clients: map<Client, Info>, bk: map<Key, seq<Client>>, c: Client, k: Key)
    requires Linked(clients, bk) && c in clients && k !in clients[c].keys
    ensures c !in Waiters(bk, k)
    ensures Linked(WithKeys(clients, c, clients[c].keys + {k}), bk[k := Waiters(bk, k) + [c]])
  {
    if k in bk {
      AppendTo(bk[k], c);
    }
  }

  lemma LinkRemove(clients: map<Client, Info>, bk: map<Key, seq<Client>>, c: Client, k: Key)
    requires Linked(clients, bk) && c in clients && k in clients[c].keys
    ensures k in bk && Linked(WithKeys(clients, c, clients[c].keys - {k}), Unlink(bk, k, c))
  {
    var l := Remove(bk[k], c);
    RemoveFrom(bk[k], c);
    assert forall d :: d in l <==> d in Elems(l);
    assert forall d :: d in bk[k] <==> d in Elems(bk[k]);
  }

  lemma LinkedAt(clients: map<Client, Info>, bk: map<Key, seq<Client>>, c: Client, k: Key)
    requires Linked(clients, bk) && c in clients && k in clients[c].keys
    ensures k in bk && c in bk[k] && NoDup(bk[k])
  {
  }

  lemma LinkSame(clients: map<Client, Info>, clients': map<Client, Info>, bk: map<Key, seq<Client>>)
    requires Linked(clients, bk) && clients'.Keys == clients.Keys
    requires forall c :: c in clients ==> clients'[c].keys == clients[c].keys
    ensures Linked(clients', bk)
  {
  }

  lemma OneChange(a: set<Client>, b: set<Client>, c: Client)
    requires forall x :: x != c ==> (x in a <==> x in b)
    ensures |b| == |a| - (if c in a then 1 else 0) + (if c in b then 1 else 0)
  {
    var rest := a - {c};
    assert rest == b - {c} by {
      assert forall x :: x in rest <==> x in b - {c};
    }
    assert c in a ==> a == rest + {c};
    assert c !in a ==> a == rest;
    assert c in b ==> b == rest + {c};
    assert c !in b ==> b == rest;
  }

  lemma TypeCount(clients: map<Client, Info>, c: Client, info: Info, t: BType)
    requires c in clients
    ensures |OfType(clients[c := info], t)| == |OfType(clients, t)|
              - (if clients[c].blocked && clients[c].btype == t then 1 else 0) + (if info.blocked &&
                      info.btype == t then 1 else 0)
  {
    OneChange(OfType(clients, t), OfType(clients[c := info], t), c);
  }

  lemma RegularCount(clients: map<Client, Info>, c: Client, info: Info)
    requires c in clients
    ensures |Regular(clients[c := info])| == |Regular(clients)|
              - (if clients[c].blocked && !clients[c].isModule then 1 else 0) + (if info.blocked &&
                      !info.isModule then 1 else 0)
  {
    OneChange(Regular(clients), Regular(clients[c := info]), c);
  }

  lemma CountBlock(clients: map<Client, Info>, byType: map<BType, int>, total: int, c: Client, info: Info)
    requires CountsTypes(clients, byType, total) && c in clients && !clients[c].blocked
    requires info.blocked && info.isModule == clients[c].isModule
    ensures CountsTypes(clients[c := info], byType[info.btype := byType[info.btype] + 1], if info.isModule then total
            else total + 1)
  {
    hide OfType, Regular;
    forall t ensures t in byType && byType[info.btype := byType[info.btype] + 1][t] == |OfType(clients[c := info], t)| {
      TypeCount(clients, c, info, t);
    }
    RegularCount(clients, c, info);
  }

  lemma CountUnblock(clients: map<Client, Info>, byType: map<BType, int>, total: int, c: Client, info: Info)
    requires CountsTypes(clients, byType, total) && c in clients && clients[c].blocked
    requires !info.blocked && info.isModule == clients[c].isModule
    ensures var t := clients[c].btype;
            CountsTypes(clients[c := info], byType[t := byType[t] - 1], if info.isModule then total else total - 1)
  {
    hide OfType, Regular;
    var b := clients[c].btype;
    forall t ensures t in byType && byType[b := byType[b] - 1][t] == |OfType(clients[c := info], t)| {
      TypeCount(clients, c, info, t);
    }
    RegularCount(clients, c, info);
  }
}
