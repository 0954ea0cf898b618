/** The state of one cluster node, updated in place: the slot table, the per-node slot bitmaps and
    counters, and the epochs.  Every method is proved against its function in ClusterNode.dfy and
    keeps the three views of the slot table in agreement. */
module ClusterState {
  import opened Wrappers
  import opened ClusterNode
  import opened ClusterRoles
  import opened ClusterVotes
  import opened ClusterPromotion

  /** An entry of the nodes table: `slots` are the positions of the set bits of its bitmap. */
  datatype Node = Node(info: Peer, slots: set<nat>, numslots: int) {
    function ClearBit(j: nat): Node {
      if j in slots then this.(slots := slots - {j}, numslots := numslots - 1) else this
    }

    function SetBit(j: nat): Node {
      if j in slots then this else this.(slots := slots + {j}, numslots := numslots + 1)
    }
  }

  /** Slot `j` is assigned to a node exactly when bit `j` of that node is set, and every counter
      is the number of set bits. */
  ghost predicate ThreeViews(owner: seq<Ref>, nodes: map<Name, Node>) {
    forall n <- nodes :: nodes[n].slots == SlotsOf(owner, n) && nodes[n].numslots == |nodes[n].slots|
  }

  ghost function Infos(nodes: map<Name, Node>): map<Name, Peer> {
    map n | n in nodes :: nodes[n].info
  }

  lemma InfosUpdate(nodes: map<Name, Node>, n: Name, info: Peer)
    requires n in nodes
    ensures Infos(nodes[n := nodes[n].(info := info)]) == Infos(nodes)[n := info]
  {
  }

  lemma ClearViews(owner: seq<Ref>, nodes: map<Name, Node>, j: nat)
    requires ThreeViews(owner, nodes) && j < |owner| && owner[j].To? && owner[j].name in nodes
    ensures var n := owner[j].name;
            && j in nodes[n].slots
            && ThreeViews(owner[j := Null], nodes[n := nodes[n].ClearBit(j)])
            && Infos(nodes[n := nodes[n].ClearBit(j)]) == Infos(nodes)
  {
    var n := owner[j].name;
    var owner' := owner[j := Null];
    assert j in SlotsOf(owner, n);
    assert SlotsOf(owner', n) == SlotsOf(owner, n) - {j};
    forall k <- nodes | k != n
      ensures SlotsOf(owner', k) == SlotsOf(owner, k)
    {
    }
  }

  lemma SetViews(owner: seq<Ref>, nodes: map<Name, Node>, n: Name, j: nat)
    requires ThreeViews(owner, nodes) && j < |owner| && owner[j].Null? && n in nodes
    ensures ThreeViews(owner[j := To(n)], nodes[n := nodes[n].SetBit(j)])
    ensures Infos(nodes[n := nodes[n].SetBit(j)]) == Infos(nodes)
  {
    var owner' := owner[j := To(n)];
    assert SlotsOf(owner', n) == SlotsOf(owner, n) + {j};
    forall k <- nodes | k != n
      ensures SlotsOf(owner', k) == SlotsOf(owner, k)
    {
    }
  }

  /** Moving one more slot extends the set of slots handed over. */
  lemma ReassignMore(t: Tables, gone: set<nat>, n: Name, j: nat)
    requires j < |t.owner| && j !in gone
    ensures DelSlot(Reassign(t, gone, Null), j) == Reassign(t, gone + {j}, Null)
    ensures AddSlot(DelSlot(Reassign(t, gone, To(n)), j), n, j) == Reassign(t, gone + {j}, To(n))
  {
  }

  lemma ReassignNone(t: Tables, to: Ref)
    ensures Reassign(t, {}, to) == t
  {
    assert Reassign(t, {}, to).owner == t.owner;
  }

  ghost function Below(s: set<nat>, i: nat): set<nat> {
    set j | j in s && j < i
  }

  lemma BelowMore(s: set<nat>, i: nat)
    ensures Below(s, i + 1) == if i in s then Below(s, i) + {i} else Below(s, i)
    ensures |Below(s, i + 1)| == if i in s then |Below(s, i)| + 1 else |Below(s, i)|
  {
    assert i !in Below(s, i);
  }

  lemma BelowAll(s: set<nat>, i: nat)
    requires forall j <- s :: j < i
    ensures Below(s, i) == s
  {
  }

  /** A claim applied to the slots before `i`. */
  ghost function ClaimedBelow(s: Server, sender: Name, epoch: nat, claim: set<nat>, i: nat): Tables
    requires Wf(s)
  {
    var mine := SlotsOf(s.tables.owner, sender);
    var t := Reassign(s.tables, Below(Rebound(s, sender, epoch, claim), i), To(sender));
    t.(notClaiming := t.notClaiming - Below(mine * claim, i) + Below(mine - claim, i))
  }

  lemma ClaimedNone(s: Server, sender: Name, epoch: nat, claim: set<nat>)
    requires Wf(s)
    ensures ClaimedBelow(s, sender, epoch, claim, 0) == s.tables
  {
    assert ClaimedBelow(s, sender, epoch, claim, 0).owner == s.tables.owner;
  }

  lemma ClaimedAll(s: Server, sender: Name, epoch: nat, claim: set<nat>)
    requires Wf(s)
    ensures ClaimedBelow(s, sender, epoch, claim, SLOTS) == ClaimSlots(s, sender, epoch, claim)
  {
    var mine := SlotsOf(s.tables.owner, sender);
    BelowAll(Rebound(s, sender, epoch, claim), SLOTS);
    BelowAll(mine * claim, SLOTS);
    BelowAll(mine - claim, SLOTS);
  }

  lemma OwnersMore(t: Tables, bound: set<nat>, n: Name, j: nat)
    requires j < |t.owner|
    ensures Reassign(t, Below(bound, j + 1), To(n)).owner
            == if j in bound then Reassign(t, Below(bound, j), To(n)).owner[j := To(n)]
               else Reassign(t, Below(bound, j), To(n)).owner
    ensures Reassign(t, Below(bound, j), To(n)).owner[j] == t.owner[j]
  {
    BelowMore(bound, j);
  }

  lemma UncertainMore(all: set<nat>, bound: set<nat>, kept: set<nat>, dropped: set<nat>, j: nat)
    requires bound !! kept && bound !! dropped && kept !! dropped
    ensures all - Below(bound, j + 1) - Below(kept, j + 1) + Below(dropped, j + 1)
            == var u := all - Below(bound, j) - Below(kept, j) + Below(dropped, j);
               if j in bound || j in kept then u - {j} else if j in dropped then u + {j} else u
  {
    BelowMore(bound, j);
    BelowMore(kept, j);
    BelowMore(dropped, j);
  }

  /** What processing slot `j` adds to the owners and to the uncertain slots. */
  lemma ClaimedMore(s: Server, sender: Name, epoch: nat, claim: set<nat>, j: nat)
    requires Wf(s) && j < SLOTS
    ensures var t := ClaimedBelow(s, sender, epoch, claim, j);
            var u := ClaimedBelow(s, sender, epoch, claim, j + 1);
            var bound := Rebinds(s, sender, epoch, claim, j);
            && u.importing == t.importing == s.tables.importing
            && u.migrating == t.migrating == s.tables.migrating
            && t.owner[j] == s.tables.owner[j] && (j in t.notClaiming <==> j in s.tables.notClaiming)
            && u.owner == (if bound then t.owner[j := To(sender)] else t.owner)
            && u.notClaiming == (if bound || (t.owner[j] == To(sender) && j in claim) then t.notClaiming - {j}
                                 else if t.owner[j] == To(sender) then t.notClaiming + {j}
                                 else t.notClaiming)
  {
    var mine := SlotsOf(s.tables.owner, sender);
    var bound := Rebound(s, sender, epoch, claim);
    OwnersMore(s.tables, bound, sender, j);
    UncertainMore(s.tables.notClaiming, bound, mine * claim, mine - claim, j);
    assert j in mine <==> s.tables.owner[j] == To(sender);
    assert j in bound <==> Rebinds(s, sender, epoch, claim, j);
  }

  /** The slots that a claim takes from `curmaster`, which is NULL for a replica without a master. */
  ghost function Taken(s: Server, sender: Name, epoch: nat, claim: set<nat>, curmaster: Ref): set<nat>
    requires Wf(s)
  {
    set j | j in Rebound(s, sender, epoch, claim) && s.tables.owner[j] == curmaster
  }

  /** How the processing of a claim ends: it returns, it reads the slot count of a master that is not
      known, or clusterSetMaster finds that this node still owns slots. */
  datatype Ending = Returns | NullMaster | StillOwnsSlots

  ghost function EndingOf(s: Server, sender: Name, epoch: nat, claim: set<nat>): Ending
    requires Wf(s) && sender in s.peers
  {
    var t := s.(tables := ClaimSlots(s, sender, epoch, claim));
    if sender == s.me || s.config.noRedirection then Returns
    else if CurMaster(s).Null? && Taken(s, sender, epoch, claim, Null) != {} then NullMaster
    else if NextMaster(s, sender, epoch, claim).To? && NumSlots(t, s.me) != 0 then StillOwnsSlots
    else Returns
  }

  lemma TakenIsLost(s: Server, sender: Name, epoch: nat, claim: set<nat>)
    requires Wf(s)
    ensures CurMaster(s).To? ==> Taken(s, sender, epoch, claim, CurMaster(s)) == Lost(s, sender, epoch, claim)
    ensures CurMaster(s).Null? ==> Lost(s, sender, epoch, claim) == {}
  {
  }

  /** Neither of the two happens to a node with a proper role. */
  lemma ProperRoleReturns(s: Server, sender: Name, epoch: nat, claim: set<nat>)
    requires Wf(s) && sender in s.peers && RoleOk(s)
    ensures EndingOf(s, sender, epoch, claim) == Returns
  {
    if sender != s.me && NextMaster(s, sender, epoch, claim).To? {
      FollowsEmpty(s, sender, epoch, claim);
    }
  }

  /** A node that knows the masters 2 and 3. */
  function Node1(my: Peer, owner: seq<Ref>): Server {
    Server(1, map[1 := my, 2 := Peer(true, Null, 0, false, 1, 0), 3 := Peer(true, Null, 0, false, 2, 0)],
           Tables(owner, ClosedSlots(), ClosedSlots(), {}), 2, 0, Election(0, 0, false, 0, 0), 2, Manual(0, false),
           Config(true, false))
  }

  /** A replica whose master is not known, and node 3 claims the unassigned slot 7. */
  lemma ClaimWithoutMaster()
    ensures var s := Node1(Peer(false, Null, 0, false, 0, 0), ClosedSlots());
            Wf(s) && EndingOf(s, 3, 2, {7}) == NullMaster
  {
    var s := Node1(Peer(false, Null, 0, false, 0, 0), ClosedSlots());
    assert Rebinds(s, 3, 2, {7}, 7);
    assert 7 in Taken(s, 3, 2, {7}, Null);
  }

  /** A replica of node 2 to which slot 5 was added, and node 3 claims the last slot of node 2. */
  lemma ClaimWithSlots()
    ensures var s := Node1(Peer(false, To(2), 0, false, 0, 0), ClosedSlots()[0 := To(2)][5 := To(1)]);
            Wf(s) && EndingOf(s, 3, 2, {0}) == StillOwnsSlots
  {
    var s := Node1(Peer(false, To(2), 0, false, 0, 0), ClosedSlots()[0 := To(2)][5 := To(1)]);
    var t := s.(tables := ClaimSlots(s, 3, 2, {0}));
    assert Rebinds(s, 3, 2, {0}, 0);
    assert 0 in Lost(s, 3, 2, {0});
    assert SlotsOf(t.tables.owner, 2) == {};
    assert 5 in SlotsOf(t.tables.owner, 1);
  }

  ghost function UnlinkBelow(table: seq<Ref>, n: Name, i: nat): seq<Ref> {
    seq(|table|, j requires 0 <= j < |table| => if j < i && table[j] == To(n) then Null else table[j])
  }

  /** Node `n` forgotten in the slots before `i`. */
  ghost function Forgotten(t: Tables, n: Name, i: nat): Tables {
    Tables(UnlinkBelow(t.owner, n, i), UnlinkBelow(t.importing, n, i), UnlinkBelow(t.migrating, n, i),
           t.notClaiming - Below(SlotsOf(t.owner, n), i))
  }

  ghost function ForgetAt(t: Tables, n: Name, j: nat): Tables
    requires j < |t.owner| == |t.importing| == |t.migrating|
  {
    var u := t.(importing := if t.importing[j] == To(n) then t.importing[j := Null] else t.importing,
                migrating := if t.migrating[j] == To(n) then t.migrating[j := Null] else t.migrating);
    if t.owner[j] == To(n) then DelSlot(u, j) else u
  }

  lemma ForgetMore(t: Tables, n: Name, j: nat)
    requires j < |t.owner| == |t.importing| == |t.migrating|
    ensures ForgetAt(Forgotten(t, n, j), n, j) == Forgotten(t, n, j + 1)
  {
    BelowMore(SlotsOf(t.owner, n), j);
    var (f, g) := (ForgetAt(Forgotten(t, n, j), n, j), Forgotten(t, n, j + 1));
    assert f.owner == g.owner && f.importing == g.importing && f.migrating == g.migrating;
    assert f.notClaiming == g.notClaiming;
  }

  lemma ForgottenAll(s: Server, n: Name)
    requires Wf(s)
    ensures Forgotten(s.tables, n, 0) == s.tables
    ensures Forgotten(s.tables, n, SLOTS) == DelNode(s, n).tables
  {
    assert Forgotten(s.tables, n, 0).owner == s.tables.owner;
    assert Forgotten(s.tables, n, 0).importing == s.tables.importing;
    assert Forgotten(s.tables, n, 0).migrating == s.tables.migrating;
    BelowAll(SlotsOf(s.tables.owner, n), SLOTS);
    assert Forgotten(s.tables, n, SLOTS).owner == DelNode(s, n).tables.owner;
  }

  lemma ForgottenNode(s: Server, nodes: map<Name, Node>, n: Name)
    requires Wf(s) && s.me != n && Infos(nodes) == s.peers && ThreeViews(DelNode(s, n).tables.owner, nodes)
    ensures var rest := map k | k in nodes && k != n :: nodes[k].(info := Orphan(nodes[k].info, n));
            && Infos(rest) == DelNode(s, n).peers && ThreeViews(DelNode(s, n).tables.owner, rest)
            && Wf(DelNode(s, n))
  {
  }

  /** The slots covered by a list of inclusive ranges. */
  ghost function Expand(ranges: seq<(nat, nat)>): set<nat> {
    if ranges == [] then {}
    else Expand(ranges[..|ranges| - 1]) + Span(ranges[|ranges| - 1])
  }

  predicate Within(r: (nat, nat), j: nat) {
    r.0 <= j <= r.1
  }

  ghost function Span(r: (nat, nat)): set<nat> {
    set j: nat | j <= r.1 && Within(r, j)
  }

  /** Ranges that name exactly the slots of a node before `i`, with no more ranges than slots. */
  ghost predicate Covers(ranges: seq<(nat, nat)>, mine: set<nat>, i: nat) {
    Expand(ranges) == Below(mine, i) && |ranges| <= |Below(mine, i)|
  }

  lemma SizeBelow(mine: set<nat>, i: nat)
    requires i in mine
    ensures |Below(mine, i)| < |mine|
  {
    assert mine == Below(mine, i) + (mine - Below(mine, i));
    assert i in mine - Below(mine, i);
    assert |mine| == |Below(mine, i)| + |mine - Below(mine, i)|;
  }

  lemma CoversMore(ranges: seq<(nat, nat)>, mine: set<nat>, start: nat, end: nat)
    requires Covers(ranges, mine, start) && start < end
    requires forall j :: start <= j < end ==> j in mine
    ensures Covers(ranges + [(start, end - 1)], mine, end)
  {
    var more := ranges + [(start, end - 1)];
    assert more[..|more| - 1] == ranges;
    assert Below(mine, end) == Below(mine, start) + Span((start, end - 1));
    assert start in Below(mine, end) && Below(mine, start) + {start} <= Below(mine, end);
    assert |Below(mine, end) - (Below(mine, start) + {start})| + |Below(mine, start) + {start}| ==
            |Below(mine, end)| by {
      assert Below(mine, end) == (Below(mine, end) - (Below(mine, start) + {start})) + (Below(mine, start) + {start});
    }
  }

  lemma CoversSkip(ranges: seq<(nat, nat)>, mine: set<nat>, i: nat, i': nat)
    requires Covers(ranges, mine, i) && i <= i' && forall j :: i <= j < i' ==> j !in mine
    ensures Covers(ranges, mine, i')
  {
    assert Below(mine, i) == Below(mine, i');
  }

  ghost predicate AllCover(nodes: map<Name, Node>, pairs: map<Name, seq<(nat, nat)>>, filtered: set<Name>, i: nat) {
    && pairs.Keys == nodes.Keys
    && forall k <- nodes :: k !in filtered ==> Covers(pairs[k], nodes[k].slots, i)
  }

  /** Slots that belong to nobody add nothing. */
  lemma SkipFree(owner: seq<Ref>, nodes: map<Name, Node>, pairs: map<Name, seq<(nat, nat)>>, filtered: set<Name>,
                 i: nat)
    requires ThreeViews(owner, nodes) && i < |owner| && owner[i].Null? && AllCover(nodes, pairs, filtered, i)
    ensures AllCover(nodes, pairs, filtered, i + 1)
  {
    forall k <- nodes | k !in filtered
      ensures Covers(pairs[k], nodes[k].slots, i + 1)
    {
      CoversSkip(pairs[k], nodes[k].slots, i, i + 1);
    }
  }

  /** Emit the range of a run of slots of one node, unless the node is filtered out. */
  method EmitRange(ghost owner: seq<Ref>, nodes: map<Name, Node>, pairs: map<Name, seq<(nat, nat)>>,
                   filtered: set<Name>, n: Name, start: nat, end: nat)
    returns (more: map<Name, seq<(nat, nat)>>)
    requires ThreeViews(owner, nodes) && n in nodes && start < end <= |owner|
    requires forall j :: start <= j < end ==> owner[j] == To(n)
    requires AllCover(nodes, pairs, filtered, start)
    ensures AllCover(nodes, more, filtered, end)
  {
    forall k <- nodes | k !in filtered && k != n
      ensures Covers(pairs[k], nodes[k].slots, end)
    {
      CoversSkip(pairs[k], nodes[k].slots, start, end);
    }
    more := pairs;
    if n !in filtered {
      assert start in nodes[n].slots;
      SizeBelow(nodes[n].slots, start);
      assert 2 * |pairs[n]| + 1 < 2 * nodes[n].numslots;
      CoversMore(pairs[n], nodes[n].slots, start, end);
      more := pairs[n := pairs[n] + [(start, end - 1)]];
    }
  }

  class ClusterState {
    const me: Name
    const config: Config
    const slots: array<Ref>
    const importing: array<Ref>
    const migrating: array<Ref>
    var nodes: map<Name, Node>
    var notClaiming: set<nat>
    var currentEpoch: nat
    var lastVoteEpoch: nat
    var auth: Election
    var size: nat
    var mf: Manual

    ghost function View(): Server
      reads this, slots, importing, migrating
    {
      Server(me, Infos(nodes), Tables(slots[..], importing[..], migrating[..], notClaiming),
             currentEpoch, lastVoteEpoch, auth, size, mf, config)
    }

    ghost predicate Valid()
      reads this, slots, importing, migrating
    {
      && slots != importing && slots != migrating && importing != migrating
      && Wf(View())
      && ThreeViews(slots[..], nodes)
    }

    /** A fresh node: a master alone in its cluster, with no slots and all epochs at zero. */
    constructor (me: Name, shard: nat, config: Config)
      ensures Valid() && fresh(slots) && fresh(importing) && fresh(migrating)
      ensures View() == Server(me, map[me := Peer(true, Null, shard, false, 0, 0)],
                               Tables(ClosedSlots(), ClosedSlots(), ClosedSlots(), {}),
                               0, 0, Election(0, 0, false, 0, 0), 0, Manual(0, false), config)
    {
      this.me, this.config := me, config;
      slots := new Ref[SLOTS](_ => Null);
      importing := new Ref[SLOTS](_ => Null);
      migrating := new Ref[SLOTS](_ => Null);
      nodes := map[me := Node(Peer(true, Null, shard, false, 0, 0), {}, 0)];
      notClaiming, currentEpoch, lastVoteEpoch, size := {}, 0, 0, 0;
      auth, mf := Election(0, 0, false, 0, 0), Manual(0, false);
      new;
      assert slots[..] == ClosedSlots() && importing[..] == ClosedSlots() && migrating[..] == ClosedSlots();
      assert SlotsOf(slots[..], me) == {};
    }

    /** Mark a slot as unassigned.  The assertion that its owner's bit is set cannot fail. */
    method DelSlot(j: nat) returns (ok: bool)
      requires Valid() && j < SLOTS
      modifies this`nodes, this`notClaiming, slots
      ensures Valid() && ok == old(slots[j]).To? && nodes.Keys == old(nodes.Keys)
      ensures View() == old(View()).(tables := ClusterNode.DelSlot(old(View()).tables, j))
    {
      var n := slots[j];
      if n.Null? {
        assert slots[..] == slots[..][j := Null];
        return false;
      }
      ClearViews(slots[..], nodes, j);
      assert j in nodes[n.name].slots;
      nodes := nodes[n.name := nodes[n.name].ClearBit(j)];
      slots[j] := Null;
      notClaiming := notClaiming - {j};
      assert slots[..] == old(slots[..])[j := Null];
      return true;
    }

    /** Assign a free slot; an assigned one is left as it is. */
    method AddSlot(n: Name, j: nat) returns (ok: bool)
      requires Valid() && j < SLOTS && n in nodes
      modifies this`nodes, slots
      ensures Valid() && ok == old(slots[j]).Null? && nodes.Keys == old(nodes.Keys)
      ensures View() == old(View()).(tables := ClusterNode.AddSlot(old(View()).tables, n, j))
    {
      if slots[j].To? {
        return false;
      }
      SetViews(slots[..], nodes, n, j);
      nodes := nodes[n := nodes[n].SetBit(j)];
      slots[j] := To(n);
      assert slots[..] == old(slots[..])[j := To(n)];
      return true;
    }

    /** Hand every slot of one node to another; returns how many. */
    method MoveNodeSlots(from: Name, to: Name) returns (processed: nat)
      requires Valid() && from in nodes && to in nodes
      modifies this`nodes, this`notClaiming, slots
      ensures Valid() && nodes.Keys == old(nodes.Keys) && processed == NumSlots(old(View()), from)
      ensures View() == old(View()).(tables := ClusterNode.MoveNodeSlots(old(View()).tables, from, to))
    {
      processed := 0;
      ghost var mine := SlotsOf(slots[..], from);
      ReassignNone(View().tables, To(to));
      assert Below(mine, 0) == {};
      for j := 0 to SLOTS
        invariant Valid() && nodes.Keys == old(nodes.Keys) && processed == |Below(mine, j)|
        invariant View() == old(View()).(tables := Reassign(old(View()).tables, Below(mine, j), To(to)))
      {
        BelowMore(mine, j);
        ReassignMore(old(View()).tables, Below(mine, j), to, j);
        assert j in nodes[from].slots <==> j in mine;
        if j in nodes[from].slots {
          var _ := DelSlot(j);
          var _ := AddSlot(to, j);
          processed := processed + 1;
        }
      }
      BelowAll(mine, SLOTS);
    }

    /** Unassign every slot of a node; returns how many. */
    method DelNodeSlots(n: Name) returns (deleted: nat)
      requires Valid() && n in nodes
      modifies this`nodes, this`notClaiming, slots
      ensures Valid() && nodes.Keys == old(nodes.Keys) && deleted == NumSlots(old(View()), n)
      ensures View() == old(View()).(tables := ClusterNode.DelNodeSlots(old(View()).tables, n))
    {
      deleted := 0;
      ghost var mine := SlotsOf(slots[..], n);
      ReassignNone(View().tables, Null);
      assert Below(mine, 0) == {};
      for j := 0 to SLOTS
        invariant Valid() && nodes.Keys == old(nodes.Keys) && deleted == |Below(mine, j)|
        invariant View() == old(View()).(tables := Reassign(old(View()).tables, Below(mine, j), Null))
      {
        BelowMore(mine, j);
        ReassignMore(old(View()).tables, Below(mine, j), n, j);
        assert j in nodes[n].slots <==> j in mine;
        if j in nodes[n].slots {
          var _ := DelSlot(j);
          deleted := deleted + 1;
        }
      }
      BelowAll(mine, SLOTS);
    }

    method ForgetSlot(n: Name, j: nat)
      requires Valid() && j < SLOTS && n in nodes
      modifies this`nodes, this`notClaiming, slots, importing, migrating
      ensures Valid() && nodes.Keys == old(nodes.Keys)
      ensures View() == old(View()).(tables := ForgetAt(old(View()).tables, n, j))
    {
      if importing[j] == To(n) {
        importing[j] := Null;
      }
      assert importing[..] == ForgetAt(old(View()).tables, n, j).importing;
      if migrating[j] == To(n) {
        migrating[j] := Null;
      }
      assert migrating[..] == ForgetAt(old(View()).tables, n, j).migrating;
      if slots[j] == To(n) {
        var _ := DelSlot(j);
      }
    }

    /** Forget a node: no slot, importing or migrating entry refers to it afterwards. */
    method DelNode(n: Name)
      requires Valid() && n in nodes && n != me
      modifies this`nodes, this`notClaiming, slots, importing, migrating
      ensures Valid() && View() == ClusterNode.DelNode(old(View()), n)
    {
      ForgottenAll(View(), n);
      for j := 0 to SLOTS
        invariant Valid() && nodes.Keys == old(nodes.Keys)
        invariant View() == old(View()).(tables := Forgotten(old(View()).tables, n, j))
      {
        ForgetMore(old(View()).tables, n, j);
        ForgetSlot(n, j);
      }
      ForgottenNode(old(View()), nodes, n);
      nodes := map k | k in nodes && k != n :: nodes[k].(info := Orphan(nodes[k].info, n));
    }

    /** Become a replica; the source insists that this node owns no slots. */
    method SetMaster(n: Name) returns (aborts: bool)
      requires Valid() && n in nodes && n != me
      modifies this`nodes, this`mf, importing, migrating
      ensures Valid() && aborts == (NumSlots(old(View()), me) != 0)
      ensures View() == if aborts then old(View()) else ClusterNode.SetMaster(old(View()), n)
    {
      assert nodes[me].numslots == NumSlots(View(), me);
      if nodes[me].numslots != 0 {
        return true;
      }
      SetMasterWf(View(), n);
      var my := nodes[me];
      if my.info.master {
        forall j | 0 <= j < importing.Length {
          importing[j] := Null;
        }
        forall j | 0 <= j < migrating.Length {
          migrating[j] := Null;
        }
        assert importing[..] == ClosedSlots() && migrating[..] == ClosedSlots();
      }
      InfosUpdate(nodes, me, my.info.(master := false, slaveof := To(n), shard := nodes[n].info.shard));
      nodes := nodes[me := my.(info := my.info.(master := false, slaveof := To(n), shard := nodes[n].info.shard))];
      mf := Manual(0, false);
      return false;
    }

    /** Process the claim of one slot.  Returns whether the slot was taken from `curmaster`. */
    method ClaimSlot(sender: Name, epoch: nat, claim: set<nat>, curmaster: Ref, j: nat, ghost s: Server)
      returns (lost: bool)
      requires Valid() && Wf(s) && s.peers == View().peers && sender in nodes && j < SLOTS
      requires View().tables == ClaimedBelow(s, sender, epoch, claim, j)
      modifies this`nodes, this`notClaiming, slots
      ensures Valid() && nodes.Keys == old(nodes.Keys)
      ensures View() == old(View()).(tables := ClaimedBelow(s, sender, epoch, claim, j + 1))
      ensures lost == (Rebinds(s, sender, epoch, claim, j) && s.tables.owner[j] == curmaster)
    {
      ClaimedMore(s, sender, epoch, claim, j);
      lost := false;
      if j in claim {
        if slots[j] == To(sender) {
          notClaiming := notClaiming - {j};
        } else if importing[j].Null?
                  && (slots[j].Null? || j in notClaiming || nodes[slots[j].name].info.configEpoch < epoch) {
          lost := slots[j] == curmaster;
          var _ := DelSlot(j);
          var _ := AddSlot(sender, j);
        }
      } else if slots[j] == To(sender) {
        notClaiming := notClaiming + {j};
      }
    }

    /** The pass over all slots: how many the sender claims, and how many `curmaster` lost. */
    method ClaimAllSlots(sender: Name, epoch: nat, claim: set<nat>, curmaster: Ref)
      returns (senderSlots: nat, migrated: nat)
      requires Valid() && sender in nodes && InRange(claim)
      modifies this`nodes, this`notClaiming, slots
      ensures Valid() && nodes.Keys == old(nodes.Keys)
      ensures View() == old(View()).(tables := ClaimSlots(old(View()), sender, epoch, claim))
      ensures senderSlots == |claim| && migrated == |Taken(old(View()), sender, epoch, claim, curmaster)|
    {
      ghost var s := View();
      ghost var lost := Taken(s, sender, epoch, claim, curmaster);
      ClaimedNone(s, sender, epoch, claim);
      senderSlots, migrated := 0, 0;
      assert Below(claim, 0) == {} && Below(lost, 0) == {};
      for j := 0 to SLOTS
        invariant Valid() && nodes.Keys == old(nodes.Keys)
        invariant View() == s.(tables := ClaimedBelow(s, sender, epoch, claim, j))
        invariant senderSlots == |Below(claim, j)| && migrated == |Below(lost, j)|
      {
        BelowMore(claim, j);
        BelowMore(lost, j);
        var taken := ClaimSlot(sender, epoch, claim, curmaster, j, s);
        assert taken <==> j in lost;
        senderSlots := if j in claim then senderSlots + 1 else senderSlots;
        migrated := if taken then migrated + 1 else migrated;
      }
      ClaimedAll(s, sender, epoch, claim);
      BelowAll(claim, SLOTS);
      BelowAll(lost, SLOTS);
    }

    /** A master's claim, as received in a PING, PONG or UPDATE. */
    method UpdateSlotsConfigWith(sender: Name, epoch: nat, claim: set<nat>) returns (ending: Ending)
      requires Valid() && sender in nodes && InRange(claim)
      modifies this`nodes, this`notClaiming, this`mf, slots, importing, migrating
      ensures Valid() && ending == EndingOf(old(View()), sender, epoch, claim)
      ensures ending.Returns? ==> View() == ClusterNode.UpdateSlotsConfigWith(old(View()), sender, epoch, claim)
      ensures old(RoleOk(View())) ==> ending.Returns?
    {
      ghost var s := View();
      if RoleOk(s) {
        ProperRoleReturns(s, sender, epoch, claim);
      }
      if sender == me {
        return Returns;
      }
      var curmaster := if nodes[me].info.master then To(me) else nodes[me].info.slaveof;
      var senderSlots, migrated := ClaimAllSlots(sender, epoch, claim, curmaster);
      if config.noRedirection {
        return Returns;
      }
      TakenIsLost(s, sender, epoch, claim);
      assert migrated > 0 <==> Taken(s, sender, epoch, claim, curmaster) != {};
      if migrated > 0 && curmaster.Null? {
        return NullMaster;
      }
      var up := nodes[me].info.slaveof;
      assert curmaster.To? ==> nodes[curmaster.name].numslots == NumSlots(View(), curmaster.name);
      if migrated > 0 && nodes[curmaster.name].numslots == 0
         && (config.allowMigration || senderSlots == migrated) {
        var aborts := SetMaster(sender);
        return if aborts then StillOwnsSlots else Returns;
      } else if up.To? && nodes[up.name].info.slaveof.To? && nodes[up.name].info.slaveof != To(me) {
        var aborts := SetMaster(nodes[up.name].info.slaveof.name);
        return if aborts then StillOwnsSlots else Returns;
      }
      return Returns;
    }

    /** The slot ranges of every node that is not filtered out, in one pass over the slot table.
        The buffer of 2 * numslots entries allocated for a node is never exceeded. */
    method GenNodesSlotsInfo(filtered: set<Name>) returns (pairs: map<Name, seq<(nat, nat)>>)
      requires Valid()
      ensures pairs.Keys == nodes.Keys
      ensures forall k <- nodes :: k !in filtered ==>
                Expand(pairs[k]) == nodes[k].slots && 2 * |pairs[k]| <= 2 * nodes[k].numslots
    {
      pairs := map k | k in nodes :: [];
      var n, start := Null, 0;
      for i := 0 to SLOTS + 1
        invariant n.To? ==> i <= SLOTS && start < i && n.name in nodes && forall j :: start <= j < i ==> slots[j] == n
        invariant n.Null? ==> i <= SLOTS
        invariant AllCover(nodes, pairs, filtered, if n.Null? then i else start)
      {
        if n.To? && (i == SLOTS || n != slots[i]) {
          pairs := EmitRange(slots[..], nodes, pairs, filtered, n.name, start, i);
          n := Null;
        }
        if n.Null? {
          if i == SLOTS {
            break;
          }
          n, start := slots[i], i;
          if n.Null? {
            SkipFree(slots[..], nodes, pairs, filtered, i);
          }
        }
      }
      forall k <- nodes | k !in filtered
        ensures Expand(pairs[k]) == nodes[k].slots && |pairs[k]| <= nodes[k].numslots
      {
        BelowAll(nodes[k].slots, SLOTS);
      }
    }

    /** The greatest epoch this node knows of. */
    method GetMaxEpoch() returns (max: nat)
      requires Valid()
      ensures IsMaxEpoch(View(), max)
    {
      max := 0;
      var rest := nodes.Keys;
      while rest != {}
        invariant rest <= nodes.Keys
        invariant forall n <- nodes.Keys - rest :: nodes[n].info.configEpoch <= max
        invariant max == 0 || exists n <- nodes :: nodes[n].info.configEpoch == max
        decreases |rest|
      {
        SomeNumber(rest);
        var n :| n in rest;
        if nodes[n].info.configEpoch > max {
          max := nodes[n].info.configEpoch;
        }
        rest := rest - {n};
      }
      ghost var peers := View().peers;
      assert forall n <- nodes :: peers[n] == nodes[n].info;
      if max < currentEpoch {
        max := currentEpoch;
      }
    }

    method SetInfo(n: Name, info: Peer)
      requires Valid() && n in nodes && (info.slaveof.To? ==> info.slaveof.name in nodes)
      modifies this`nodes
      ensures Valid() && nodes.Keys == old(nodes.Keys) && View() == SetPeer(old(View()), n, info)
    {
      SetPeerWf(View(), n, info);
      InfosUpdate(nodes, n, info);
      nodes := nodes[n := nodes[n].(info := info)];
    }

    /** Take a new configuration epoch without consensus, unless this node's is the greatest. */
    method BumpConfigEpochWithoutConsensus() returns (bumped: bool, ghost max: nat)
      requires Valid()
      modifies this`nodes, this`currentEpoch
      ensures Valid() && IsMaxEpoch(old(View()), max) && View() == BumpEpoch(old(View()), max)
      ensures bumped == (View() != old(View()))
    {
      var m := GetMaxEpoch();
      max := m;
      bumped := nodes[me].info.configEpoch == 0 || nodes[me].info.configEpoch != m;
      if bumped {
        currentEpoch := currentEpoch + 1;
        SetInfo(me, nodes[me].info.(configEpoch := currentEpoch));
      }
    }

    /** Vote for the replica asking for it if every condition holds. */
    method SendFailoverAuthIfNeeded(m: Msg, force: bool, env: Env) returns (granted: bool)
      requires Valid() && m.src in nodes && InRange(m.myslots)
      modifies this`nodes, this`lastVoteEpoch
      ensures Valid() && granted == GrantsVote(old(View()), m, force, env)
      ensures View() == ProcessAuthRequest(old(View()), m, force, env).0
      ensures m.kind == AuthRequest(force) && m.currentEpoch <= old(currentEpoch) ==>
                (granted <==> MayVote(old(View()), m, env))
    {
      if m.kind == AuthRequest(force) && m.currentEpoch <= currentEpoch {
        GrantIsMayVote(View(), m, env);
      }
      hide MayVote;
      var node := nodes[m.src].info;
      assert nodes[me].numslots == NumSlots(View(), me);
      assert View().peers[m.src] == node;
      if !nodes[me].info.master || nodes[me].numslots == 0
         || m.currentEpoch < currentEpoch || lastVoteEpoch == currentEpoch
         || node.master || node.slaveof.Null?
         || (!nodes[node.slaveof.name].info.failed && !force)
         || env.now - nodes[node.slaveof.name].info.votedTime < env.timeout * 2 {
        return false;
      }
      var master := node.slaveof.name;
      for j := 0 to SLOTS
        invariant forall i <- m.myslots :: i < j ==>
                    slots[i].Null? || i in notClaiming || nodes[slots[i].name].info.configEpoch <= m.configEpoch
      {
        if j in m.myslots && slots[j].To? && j !in notClaiming
           && nodes[slots[j].name].info.configEpoch > m.configEpoch {
          return false;
        }
      }
      lastVoteEpoch := currentEpoch;
      SetInfo(master, nodes[master].info.(votedTime := env.now));
      return true;
    }

    /** Become a master and claim every slot of the old one. */
    method FailoverReplaceYourMaster()
      requires Valid()
      modifies this`nodes, this`notClaiming, this`mf, slots
      ensures Valid() && View() == ReplaceMaster(old(View()))
      ensures var my := old(nodes[me].info);
              if my.master || my.slaveof.Null? then View() == old(View())
              else forall j :: 0 <= j < SLOTS ==>
                     slots[j] == if old(slots[j]) == my.slaveof then To(me) else old(slots[j])
      ensures !old(nodes[me].info.master) && old(nodes[me].info.slaveof.To?) ==>
                Promoted(old(View()), old(nodes[me].info.slaveof.name), View())
    {
      var my := nodes[me].info;
      if !my.master && my.slaveof.To? {
        PromotionTakesSlots(View());
      }
      hide Promoted;
      if my.master || my.slaveof.Null? {
        return;
      }
      SetInfo(me, my.(master := true, slaveof := Null));
      var _ := MoveNodeSlots(my.slaveof.name, me);
      mf := Manual(0, false);
    }
  }
}
