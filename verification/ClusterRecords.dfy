/** What the handlers leave on record, entry by entry: the slots after a claim, the master to follow,
    the roles after an announcement, and the corrections sent back. */
module ClusterRecords {
  import opened ClusterNode
  import opened ClusterProtocol
  import opened ClusterVotes
  import opened ClusterPromotion

  // ---------------------------------------------------------------------------------------
  // Slots
  // ---------------------------------------------------------------------------------------

  /** The slots of `from` belong to `to` and nobody doubts it; the others are as they were. */
  lemma MovedSlots(t: Tables, from: Name, to: Name)
    ensures var u := MoveNodeSlots(t, from, to);
            && |u.owner| == |t.owner| && u.importing == t.importing && u.migrating == t.migrating
            && (forall j :: 0 <= j < |t.owner| ==>
                  u.owner[j] == if t.owner[j] == To(from) then To(to) else t.owner[j])
            && (forall j :: j in u.notClaiming <==>
                  j in t.notClaiming && !(j < |t.owner| && t.owner[j] == To(from)))
  {
  }

  lemma DeletedSlots(t: Tables, n: Name)
    ensures var u := DelNodeSlots(t, n);
            && |u.owner| == |t.owner| && u.importing == t.importing && u.migrating == t.migrating
            && (forall j :: 0 <= j < |t.owner| ==> u.owner[j] == if t.owner[j] == To(n) then Null else t.owner[j])
            && (forall j :: j in u.notClaiming <==> j in t.notClaiming && !(j < |t.owner| && t.owner[j] == To(n)))
  {
  }

  ghost function Forgets(r: Ref, n: Name): Ref {
    if r == To(n) then Null else r
  }

  /** Nothing refers to a deleted node; everything else is as it was. */
  lemma DeletedNode(s: Server, n: Name)
    requires Wf(s)
    ensures var t := DelNode(s, n);
            && t.peers.Keys == s.peers.Keys - {n}
            && (forall k <- t.peers :: t.peers[k] == s.peers[k].(slaveof := Forgets(s.peers[k].slaveof, n)))
            && |t.tables.owner| == |t.tables.importing| == |t.tables.migrating| == SLOTS
            && (forall j :: 0 <= j < SLOTS ==>
                  && t.tables.owner[j] == Forgets(s.tables.owner[j], n)
                  && t.tables.importing[j] == Forgets(s.tables.importing[j], n)
                  && t.tables.migrating[j] == Forgets(s.tables.migrating[j], n))
            && (forall j :: j in t.tables.notClaiming <==>
                  j in s.tables.notClaiming && !(j < SLOTS && s.tables.owner[j] == To(n)))
            && t.currentEpoch == s.currentEpoch && t.lastVoteEpoch == s.lastVoteEpoch && t.auth == s.auth
  {
  }

  /** The claimant gets a slot that it does not have, that is not being imported here, and that nobody
      claims or that is owned under a smaller epoch. */
  ghost predicate Takes(s: Server, sender: Name, epoch: nat, claim: set<nat>, j: nat)
    requires Wf(s) && j < SLOTS
  {
    var owner := s.tables.owner[j];
    && j in claim && owner != To(sender) && s.tables.importing[j].Null?
    && (owner.Null? || j in s.tables.notClaiming || s.peers[owner.name].configEpoch < epoch)
  }

  lemma ClaimedSlots(s: Server, sender: Name, epoch: nat, claim: set<nat>)
    requires Wf(s)
    ensures var t := ClaimSlots(s, sender, epoch, claim);
            && |t.owner| == SLOTS && t.importing == s.tables.importing && t.migrating == s.tables.migrating
            && (forall j: nat :: j < SLOTS ==>
                  t.owner[j] == if Takes(s, sender, epoch, claim, j) then To(sender) else s.tables.owner[j])
            && (forall j: nat :: j < SLOTS ==>
                  (j in t.notClaiming <==>
                     if s.tables.owner[j] == To(sender) then j !in claim
                     else j in s.tables.notClaiming && !Takes(s, sender, epoch, claim, j)))
  {
    forall j: nat | j < SLOTS
      ensures Takes(s, sender, epoch, claim, j) <==> j in Rebound(s, sender, epoch, claim)
    {
    }
  }

  // ---------------------------------------------------------------------------------------
  // The master to follow
  // ---------------------------------------------------------------------------------------

  /** The claim takes the last slots of `master`; without replica migration it takes nothing else. */
  ghost predicate TakesOver(s: Server, sender: Name, epoch: nat, claim: set<nat>, master: Ref)
    requires Wf(s)
  {
    && master.To?
    && (exists j: nat :: j < SLOTS && Takes(s, sender, epoch, claim, j) && s.tables.owner[j] == master)
    && (forall j: nat :: j < SLOTS && s.tables.owner[j] == master ==> Takes(s, sender, epoch, claim, j))
    && (s.config.allowMigration
        || forall j <- claim :: j < SLOTS && Takes(s, sender, epoch, claim, j) && s.tables.owner[j] == master)
  }

  lemma LostIsTaken(s: Server, sender: Name, epoch: nat, claim: set<nat>, j: nat)
    requires Wf(s)
    ensures j in Lost(s, sender, epoch, claim) <==>
            && j < SLOTS && Takes(s, sender, epoch, claim, j)
            && s.tables.owner[j].To? && s.tables.owner[j] == CurMaster(s)
  {
  }

  lemma SameSize(a: set<nat>, b: set<nat>)
    requires a <= b
    ensures |a| == |b| <==> a == b
  {
    if a != b {
      assert b == a + (b - a) && b - a != {};
    }
  }

  lemma LeftWithout(s: Server, sender: Name, epoch: nat, claim: set<nat>, n: Name)
    requires Wf(s) && n != sender
    ensures var t := s.(tables := ClaimSlots(s, sender, epoch, claim));
            NumSlots(t, n) == 0 <==>
            forall j: nat :: j < SLOTS && s.tables.owner[j] == To(n) ==> Takes(s, sender, epoch, claim, j)
  {
    var t := s.(tables := ClaimSlots(s, sender, epoch, claim));
    ClaimedSlots(s, sender, epoch, claim);
    ServesIsNumSlots(t, n);
    hide ClaimSlots, Takes;
    if j: nat :| j < SLOTS && s.tables.owner[j] == To(n) && !Takes(s, sender, epoch, claim, j) {
      assert t.tables.owner[j] == To(n);
    }
  }

  lemma TakesOverMeans(s: Server, sender: Name, epoch: nat, claim: set<nat>)
    requires Wf(s) && sender in s.peers && sender != s.me
    ensures var lost := Lost(s, sender, epoch, claim);
            var t := s.(tables := ClaimSlots(s, sender, epoch, claim));
            TakesOver(s, sender, epoch, claim, CurMaster(s)) <==>
            && lost != {} && NumSlots(t, CurMaster(s).name) == 0
            && (s.config.allowMigration || |claim| == |lost|)
  {
    var lost := Lost(s, sender, epoch, claim);
    var master := CurMaster(s);
    forall j: nat
      ensures j in lost <==>
              j < SLOTS && Takes(s, sender, epoch, claim, j) && s.tables.owner[j].To? && s.tables.owner[j] == master
    {
      LostIsTaken(s, sender, epoch, claim, j);
    }
    SameSize(lost, claim);
    if master.To? && master.name != sender {
      LeftWithout(s, sender, epoch, claim, master.name);
    }
    hide Lost, ClaimSlots, CurMaster, NumSlots;
    assert claim == lost <==> forall j <- claim :: j in lost;
  }

  /** The claimant is followed if it takes over this node's master, or this node; otherwise a replica of
      a replica follows its master's master. */
  lemma NextMasterMeans(s: Server, sender: Name, epoch: nat, claim: set<nat>)
    requires Wf(s) && sender in s.peers && sender != s.me
    ensures var my := s.peers[s.me];
            var master := if my.master then To(s.me) else my.slaveof;
            var takesOver := TakesOver(s, sender, epoch, claim, master);
            NextMaster(s, sender, epoch, claim) ==
            if s.config.noRedirection then Null
            else if takesOver then To(sender)
            else if my.slaveof.To? && s.peers[my.slaveof.name].slaveof != To(s.me) then
              s.peers[my.slaveof.name].slaveof
            else Null
  {
    TakesOverMeans(s, sender, epoch, claim);
    hide Lost, ClaimSlots, NumSlots, TakesOver;
  }

  /** Becoming a replica: the role, the shard of the new master, and no slot left open by a master. */
  lemma SetMasterMeans(s: Server, n: Name)
    requires Wf(s) && n in s.peers && n != s.me
    ensures var t := SetMaster(s, n);
            && t.peers == s.peers[s.me := s.peers[s.me].(master := false, slaveof := To(n), shard := s.peers[n].shard)]
            && t.tables.owner == s.tables.owner && t.tables.notClaiming == s.tables.notClaiming
            && |t.tables.importing| == |t.tables.migrating| == SLOTS
            && (forall j :: 0 <= j < SLOTS ==>
                  && t.tables.importing[j] == (if s.peers[s.me].master then Null else s.tables.importing[j])
                  && t.tables.migrating[j] == (if s.peers[s.me].master then Null else s.tables.migrating[j]))
            && t.mf == Manual(0, false) && t.currentEpoch == s.currentEpoch && t.auth == s.auth
            && t.lastVoteEpoch == s.lastVoteEpoch
  {
  }

  // ---------------------------------------------------------------------------------------
  // Roles
  // ---------------------------------------------------------------------------------------

  /** A node that announces itself as a master is one on record; nothing else changes. */
  lemma MasterAnnounced(s: Server, m: Msg)
    requires Wf(s) && m.src in s.peers && m.slaveof.Null?
    ensures var t := SwitchRole(s, m);
            && t == s.(peers := t.peers) && t.peers.Keys == s.peers.Keys
            && t.peers[m.src] == (if s.peers[m.src].master then s.peers[m.src]
                                  else s.peers[m.src].(master := true, slaveof := Null))
            && forall k <- s.peers :: k != m.src ==> t.peers[k] == s.peers[k]
  {
  }

  lemma DemotedSlots(s: Server, m: Msg, master: Ref)
    requires Wf(s) && m.src in s.peers && (master.To? ==> master.name in s.peers && master.name != m.src)
    ensures var t := Demote(s, m, master);
            var heir := master.To? && s.peers[master.name].shard == s.peers[m.src].shard;
            && t.me == s.me && t.peers.Keys == s.peers.Keys && t.peers[m.src] == s.peers[m.src].(master := false)
            && (forall k <- s.peers :: t.peers[k].shard == s.peers[k].shard)
            && |t.tables.owner| == SLOTS
            && (forall j :: 0 <= j < SLOTS ==>
                  t.tables.owner[j] ==
                    if s.tables.owner[j] != To(m.src) then s.tables.owner[j]
                    else if !heir then Null
                    else if s.peers[m.src].configEpoch > m.configEpoch then To(m.src) else master)
            && (heir && s.peers[m.src].configEpoch <= m.configEpoch ==>
                  t.peers[master.name].master && t.peers[master.name].configEpoch == m.configEpoch)
            && t.currentEpoch == s.currentEpoch && t.auth == s.auth && t.lastVoteEpoch == s.lastVoteEpoch
  {
    DeletedSlots(s.tables, m.src);
    if master.To? {
      MovedSlots(s.tables, m.src, master.name);
    }
    hide MoveNodeSlots, DelNodeSlots;
  }

  /** A master that announces itself as a replica of a known node of its shard hands over its slots and
      its epoch, unless its claim was newer; of any other node, its slots are free. */
  lemma ReplicaAnnounced(s: Server, m: Msg)
    requires Wf(s) && m.src in s.peers && m.slaveof.To? && s.peers[m.src].master && m.slaveof.name != m.src
    ensures var t := SwitchRole(s, m);
            var x := m.slaveof.name;
            var heir := x in s.peers && s.peers[x].shard == s.peers[m.src].shard;
            && t.peers.Keys == s.peers.Keys && !t.peers[m.src].master
            && (x in s.peers ==> t.peers[m.src].slaveof == To(x))
            && (x in s.peers && s.peers[m.src].slaveof != To(x) ==> t.peers[m.src].shard == s.peers[x].shard)
            && (x !in s.peers ==> t.peers[m.src].slaveof == s.peers[m.src].slaveof)
            && |t.tables.owner| == SLOTS
            && (forall j :: 0 <= j < SLOTS ==>
                  t.tables.owner[j] ==
                    if s.tables.owner[j] != To(m.src) then s.tables.owner[j]
                    else if !heir then Null
                    else if s.peers[m.src].configEpoch > m.configEpoch then To(m.src) else To(x))
            && (heir && s.peers[m.src].configEpoch <= m.configEpoch ==>
                  t.peers[x].master && t.peers[x].configEpoch == m.configEpoch)
            && t.currentEpoch == s.currentEpoch && t.auth == s.auth && t.lastVoteEpoch == s.lastVoteEpoch
  {
    var master := if m.slaveof.name in s.peers then m.slaveof else Null;
    DemoteWf(s, m, master);
    DemotedSlots(s, m, master);
    var t := Demote(s, m, master);
    assert SwitchRole(s, m) == FollowMaster(t, m.src, master);
    hide Demote, Wf, SwitchRole;
  }

  /** A replica on record only changes whom it follows. */
  lemma ReplicaFollows(s: Server, m: Msg)
    requires Wf(s) && m.src in s.peers && m.slaveof.To? && !s.peers[m.src].master
    ensures var t := SwitchRole(s, m);
            && t.peers.Keys == s.peers.Keys && t.tables == s.tables && !t.peers[m.src].master
            && t.peers[m.src].slaveof == (if m.slaveof.name in s.peers then m.slaveof else s.peers[m.src].slaveof)
            && t.currentEpoch == s.currentEpoch && t.auth == s.auth && t.lastVoteEpoch == s.lastVoteEpoch
  {
    DemoteWf(s, m, if m.slaveof.name in s.peers then m.slaveof else Null);
  }

  // ---------------------------------------------------------------------------------------
  // Corrections
  // ---------------------------------------------------------------------------------------

  /** The record of a slot that the sender claims although another node owns it under a greater epoch. */
  ghost predicate Contradicts(s: Server, m: Msg, j: nat)
    requires Wf(s) && j < SLOTS
  {
    && j in m.myslots && s.tables.owner[j].To? && s.tables.owner[j] != To(m.src) && j !in s.tables.notClaiming
    && s.peers[s.tables.owner[j].name].configEpoch > m.configEpoch
  }

  /** An UPDATE about the owner of such a slot, with all it owns for certain. */
  ghost predicate Corrects(s: Server, m: Msg, o: Msg)
    requires Wf(s)
  {
    && o.kind.Update? && o.dst == m.src && o.src == s.me && o.kind.about in s.peers
    && o.kind.epoch == s.peers[o.kind.about].configEpoch > m.configEpoch
    && (exists j: nat :: j < SLOTS && Contradicts(s, m, j) && s.tables.owner[j] == To(o.kind.about))
    && (forall j :: j in o.kind.slots <==>
          0 <= j < SLOTS && s.tables.owner[j] == To(o.kind.about) && j !in s.tables.notClaiming)
  }

  lemma CorrectionMeans(s: Server, m: Msg, dirty: bool)
    requires Wf(s)
    ensures var out := Correction(s, m, dirty);
            if dirty && exists j: nat :: j < SLOTS && Contradicts(s, m, j)
            then |out| == 1 && Corrects(s, m, out[0]) else out == []
  {
    var k := FirstOutdated(s, m, 0);
    forall j: nat | j < SLOTS
      ensures Contradicts(s, m, j) <==> Outdated(s, m, j)
    {
    }
    if k < SLOTS {
      assert Contradicts(s, m, k);
    }
    hide FirstOutdated;
  }

  /** A claim that somebody announces of a slot owned by another under a greater epoch is answered by an
      UPDATE about such an owner. */
  lemma OldClaimIsCorrected(s: Server, m: Msg, env: Env, j: nat)
    requires Wf(s) && m.kind.Ping? && m.src in s.peers && m.slaveof.Null? && j < SLOTS
    requires var t := ProcessHeader(s, m); Wf(t) && Contradicts(t, m, j)
    ensures var (u, out) := Receive(s, m, env);
            exists o <- out :: o.kind.Update? && o.dst == m.src && o.kind.epoch > m.configEpoch
  {
    var t := ProcessHeader(s, m);
    MasterAnnounced(t, m);
    SwitchRoleWf(t, m);
    var r := SwitchRole(t, m);
    assert Contradicts(r, m, j);
    assert Dirty(r, m) by {
      assert j !in SlotsOf(r.tables.owner, m.src);
    }
    var u := UpdateSlotsConfigWith(r, m.src, m.configEpoch, m.myslots);
    UpdateSlotsConfigWf(r, m.src, m.configEpoch, m.myslots);
    ClaimKeepsContradiction(r, m, j);
    CorrectionMeans(u, m, true);
    var out := Correction(u, m, true);
    assert out[0] in Receive(s, m, env).1 by {
      hide SwitchRole, UpdateSlotsConfigWith, ProcessHeader, Correction, HandleCollision, Dirty, Wf;
    }
  }

  lemma ClaimKeepsContradiction(r: Server, m: Msg, j: nat)
    requires Wf(r) && m.src in r.peers && j < SLOTS && Contradicts(r, m, j)
    ensures var u := UpdateSlotsConfigWith(r, m.src, m.configEpoch, m.myslots); Wf(u) && Contradicts(u, m, j)
  {
    ClaimedSlots(r, m.src, m.configEpoch, m.myslots);
    UpdateSlotsConfigWf(r, m.src, m.configEpoch, m.myslots);
    hide ClaimSlots, NextMaster;
  }

  // ---------------------------------------------------------------------------------------
  // UPDATE messages and acknowledgements
  // ---------------------------------------------------------------------------------------

  /** An UPDATE about a known node with a greater epoch makes it a master with that epoch and applies its
      claim; any other changes nothing. */
  lemma UpdateMeans(s: Server, about: Name, epoch: nat, claim: set<nat>)
    requires Wf(s)
    ensures var t := ProcessUpdate(s, about, epoch, claim);
            if about in s.peers && s.peers[about].configEpoch < epoch then
              && about in t.peers && t.peers[about].configEpoch == epoch && (about == s.me ==> t.tables == s.tables)
              && (about != s.me ==>
                    && t.peers[about].master && |t.tables.owner| == SLOTS
                    && (!s.peers[about].master ==> t.peers[about].slaveof.Null?)
                    && forall j: nat :: j < SLOTS ==>
                         t.tables.owner[j] == if Takes(s, about, epoch, claim, j) then To(about) else s.tables.owner[j])
            else t == s
  {
    if about in s.peers && s.peers[about].configEpoch < epoch {
      var t := SetAsMaster(s, about);
      SetAsMasterWf(s, about);
      SetPeerWf(t, about, t.peers[about].(configEpoch := epoch));
      var u := SetPeer(t, about, t.peers[about].(configEpoch := epoch));
      if about == s.me {
        assert ProcessUpdate(s, about, epoch, claim) == u;
      } else {
        SameTakes(s, u, about, epoch, claim);
        ClaimedSlots(u, about, epoch, claim);
        UpdateSlotsConfigWf(u, about, epoch, claim);
        hide ClaimSlots, NextMaster, Takes;
      }
    }
  }

  lemma SameTakes(s: Server, u: Server, about: Name, epoch: nat, claim: set<nat>)
    requires Wf(s) && Wf(u) && u.tables == s.tables && u.peers.Keys == s.peers.Keys
    requires forall k <- s.peers :: k != about ==> u.peers[k].configEpoch == s.peers[k].configEpoch
    ensures forall j: nat :: j < SLOTS ==> (Takes(u, about, epoch, claim, j) <==> Takes(s, about, epoch, claim, j))
  {
  }

  /** An acknowledgement counts if it comes from a known master that serves slots and is not older than
      the election. */
  lemma AckMeans(s: Server, m: Msg, env: Env)
    requires Wf(s) && m.kind.AuthAck? && m.src in s.peers
    ensures var t := Receive(s, m, env).0;
            var counts := s.peers[m.src].master && Serves(s, m.src) && m.currentEpoch >= s.auth.epoch;
            t.auth == s.auth.(count := s.auth.count + if counts then 1 else 0)
  {
    HeaderKeeps(s, m);
    ServesIsNumSlots(s, m.src);
    ServesIsNumSlots(ProcessHeader(s, m), m.src);
  }

  // ---------------------------------------------------------------------------------------
  // Commands
  // ---------------------------------------------------------------------------------------

  /** Adding and deleting a slot, opening it, and closing it by naming nobody. */
  lemma SlotCommandMeans(s: Server, c: Command, i: nat)
    requires Wf(s) && CommandEnabled(s, c) && i < SLOTS
    requires c.AddSlots? || c.DelSlots? || c.Importing? || c.Migrating?
    ensures var t := Apply(s, c);
            && t == s.(tables := t.tables)
            && |t.tables.owner| == |t.tables.importing| == |t.tables.migrating| == SLOTS
            && t.tables.owner[i] ==
                 (if i == c.slot && c.AddSlots? && s.tables.owner[i].Null? then To(s.me)
                  else if i == c.slot && c.DelSlots? then Null else s.tables.owner[i])
            && t.tables.importing[i] ==
                 (if i == c.slot && (c.AddSlots? || c.DelSlots?) then Null
                  else if i == c.slot && c.Importing? then c.from else s.tables.importing[i])
            && t.tables.migrating[i] == (if i == c.slot && c.Migrating? then c.to else s.tables.migrating[i])
  {
  }

  /** CLUSTER SETSLOT NODE binds the slot, closes it where it is done, and takes a new epoch if this node
      ends an import; a master that gives away its last slot follows the new owner. */
  lemma SetSlotNodeMeans(s: Server, j: nat, n: Name, noKeys: bool, max: nat)
    requires Wf(s) && j < SLOTS && n in s.peers && s.peers[s.me].master
    ensures var t := AssignSlot(s, j, n, noKeys, max);
            var last := forall i :: 0 <= i < SLOTS && s.tables.owner[i] == To(s.me) ==> i == j;
            var follows := s.tables.owner[j] == To(s.me) && n != s.me && last && s.config.allowMigration;
            && |t.tables.owner| == |t.tables.importing| == |t.tables.migrating| == SLOTS
            && (forall i :: 0 <= i < SLOTS ==> t.tables.owner[i] == if i == j then To(n) else s.tables.owner[i])
            && t.peers[s.me].master == !follows && (follows ==> t.peers[s.me].slaveof == To(n))
            && (n == s.me ==> t.tables.importing[j].Null?)
            && (noKeys ==> t.tables.migrating[j].Null?)
            && t.currentEpoch == s.currentEpoch +
                 (if n == s.me && s.tables.importing[j].To? && (MyEpoch(s) == 0 || MyEpoch(s) != max) then 1 else 0)
  {
    var open := if noKeys then s.tables.(migrating := s.tables.migrating[j := Null]) else s.tables;
    var t := s.(tables := AddSlot(DelSlot(open, j), n, j));
    ServesIsNumSlots(t, s.me);
    assert forall i :: 0 <= i < SLOTS && i != j ==> t.tables.owner[i] == s.tables.owner[i];
    if i :| 0 <= i < SLOTS && s.tables.owner[i] == To(s.me) && i != j {
      assert t.tables.owner[i] == To(s.me);
    }
  }

  /** A new configuration epoch, above all others, exactly if this node does not have the greatest. */
  lemma BumpMeans(s: Server, max: nat)
    requires Wf(s) && IsMaxEpoch(s, max)
    ensures var t := BumpEpoch(s, max);
            && t.tables == s.tables && t.peers.Keys == s.peers.Keys
            && (forall k <- s.peers :: k != s.me ==> t.peers[k] == s.peers[k])
            && (if MyEpoch(s) > 0 && s.currentEpoch <= MyEpoch(s)
                   && (forall k <- s.peers :: s.peers[k].configEpoch <= MyEpoch(s))
                then t == s
                else t.currentEpoch == s.currentEpoch + 1 == t.peers[s.me].configEpoch)
  {
  }

  /** After a reset a node is a master alone, without slots; a hard one also takes its epochs and its
      name. */
  lemma ResetMeans(s: Server, name: Name)
    requires Wf(s)
    ensures var t := SoftReset(s);
            && t.me == s.me && t.peers.Keys == {s.me} && t.peers[s.me].master && t.peers[s.me].slaveof.Null?
            && t.peers[s.me].configEpoch == MyEpoch(s) && t.currentEpoch == s.currentEpoch
            && t.lastVoteEpoch == s.lastVoteEpoch && t.auth == s.auth && t.mf == Manual(0, false)
            && t.tables.notClaiming == {} && |t.tables.owner| == |t.tables.importing| == |t.tables.migrating| == SLOTS
            && forall j :: 0 <= j < SLOTS ==>
                 t.tables.owner[j].Null? && t.tables.importing[j].Null? && t.tables.migrating[j].Null?
    ensures var (t, u) := (SoftReset(s), HardReset(s, name));
            && u.me == name && u.peers == map[name := t.peers[s.me].(configEpoch := 0)]
            && u.currentEpoch == 0 && u.lastVoteEpoch == 0 && u.auth == s.auth && u.tables == t.tables
  {
  }

  /** The remaining commands: meeting a node, flagging one, counting the masters that serve slots, setting
      the epoch of a node that is alone and has none, and a manual failover. */
  lemma OtherCommandsMean(s: Server, c: Command)
    requires Wf(s) && CommandEnabled(s, c)
    requires c.Meet? || c.FlagFailure? || c.UpdateState? || c.ConfigEpochCmd? || c.ManualFailover?
    ensures var t := Apply(s, c);
            && t.tables == s.tables && t.auth == s.auth && t.lastVoteEpoch == s.lastVoteEpoch
            && (forall k <- s.peers :: k in t.peers)
            && (c.Meet? ==> t.peers == s.peers[c.node := Peer(c.asMaster, Null, c.shard, false, 0, 0)])
            && (c.FlagFailure? ==> t.peers == s.peers[c.node := s.peers[c.node].(failed := c.failed)])
            && (c.UpdateState? ==>
                  t == s.(size := |set n | n in s.peers && s.peers[n].master && Serves(s, n)|))
            && (c.ManualFailover? ==> t == s.(mf := Manual(c.end, c.canStart)))
            && (c.ConfigEpochCmd? ==>
                  if s.peers.Keys == {s.me} && MyEpoch(s) == 0 then
                    && t.peers == s.peers[s.me := s.peers[s.me].(configEpoch := c.epoch)]
                    && t.currentEpoch >= c.epoch && t.currentEpoch >= s.currentEpoch
                    && (t.currentEpoch == c.epoch || t.currentEpoch == s.currentEpoch)
                  else t == s)
  {
    if c.UpdateState? {
      forall n ensures NumSlots(s, n) > 0 <==> Serves(s, n) {
        ServesIsNumSlots(s, n);
      }
      assert Serving(s) == set n | n in s.peers && s.peers[n].master && Serves(s, n);
    }
    if c.ConfigEpochCmd? {
      AloneMeans(s);
    }
    hide Serves, NumSlots;
  }

  lemma AloneMeans(s: Server)
    requires s.me in s.peers
    ensures |s.peers| > 1 <==> s.peers.Keys != {s.me}
  {
    assert |s.peers| == |s.peers.Keys|;
    if s.peers.Keys != {s.me} {
      assert s.peers.Keys == {s.me} + (s.peers.Keys - {s.me}) && s.peers.Keys - {s.me} != {};
    }
  }

  // ---------------------------------------------------------------------------------------
  // PING
  // ---------------------------------------------------------------------------------------

  /** A PING that wants an answer gets the announcement of this node, as it was after the header. */
  lemma PingIsAnswered(s: Server, m: Msg, env: Env)
    requires Wf(s) && m.kind.Ping? && m.kind.wantsReply
    ensures var t := if m.src in s.peers then ProcessHeader(s, m) else s;
            Wf(t) && exists o <- Receive(s, m, env).1 :: o.kind == Ping(false) && o.dst == m.src && Announces(t, o)
  {
    var t := if m.src in s.peers then ProcessHeader(s, m) else s;
    if m.src in s.peers {
      HeaderKeeps(s, m);
    }
    BuildAnnounces(t, Ping(false), m.src);
    assert Receive(s, m, env).1[0] == Build(t, Ping(false), m.src);
    hide Receive, ProcessHeader, Build, Announces, Wf;
    assert Build(t, Ping(false), m.src) in Receive(s, m, env).1;
  }

  lemma CollisionMoves(u: Server, sender: Name)
    requires u.me in u.peers && sender in u.peers && u.me < sender
    requires u.peers[u.me].master && u.peers[sender].master && u.peers[sender].configEpoch == MyEpoch(u)
    ensures HandleCollision(u, sender) == AdvanceMyEpoch(u)
  {
  }

  lemma PingCollides(t: Server, m: Msg)
    requires Wf(t) && m.src in t.peers && m.slaveof.Null? && t.me < m.src
    requires t.peers[t.me].master && t.peers[m.src].configEpoch == m.configEpoch == MyEpoch(t)
    ensures var v := ProcessPing(t, m).0;
            && t.me in v.peers
            && (v.peers[t.me].master ==> v.peers[t.me].configEpoch == v.currentEpoch == t.currentEpoch + 1)
  {
    MasterAnnounced(t, m);
    SwitchRoleWf(t, m);
    var r := SwitchRole(t, m);
    UpdateSlotsConfigWf(r, m.src, m.configEpoch, m.myslots);
    ClaimKeepsPeers(r, m);
    var u := if r.peers[m.src].master && Dirty(r, m)
             then UpdateSlotsConfigWith(r, m.src, m.configEpoch, m.myslots) else r;
    hide SwitchRole, Dirty, UpdateSlotsConfigWith, Wf, Correction, HandleCollision;
    if u.peers[u.me].master {
      CollisionMoves(u, m.src);
    }
  }

  /** A master that hears from another master of its own configuration epoch, with a greater name, and stays
      a master takes a new epoch above all it knew. */
  lemma PingResolvesCollision(s: Server, m: Msg, env: Env)
    requires Wf(s) && m.kind.Ping? && m.src in s.peers && m.slaveof.Null? && s.me < m.src
    requires s.peers[s.me].master && m.configEpoch == MyEpoch(s) && s.peers[m.src].configEpoch <= m.configEpoch
    ensures var t := Receive(s, m, env).0;
            s.me in t.peers && t.peers[s.me].master ==>
              && t.peers[s.me].configEpoch == t.currentEpoch
              && t.currentEpoch > s.currentEpoch && t.currentEpoch > m.currentEpoch
  {
    HeaderKeeps(s, m);
    var t := ProcessHeader(s, m);
    assert t.peers[m.src].configEpoch == m.configEpoch && t.peers[s.me] == s.peers[s.me];
    PingCollides(t, m);
    assert Receive(s, m, env).0 == ProcessPing(t, m).0;
    hide ProcessHeader, ProcessPing, Receive, Wf;
  }

  lemma ClaimKeepsPeers(r: Server, m: Msg)
    requires Wf(r) && m.src in r.peers && m.src != r.me
    ensures var u := UpdateSlotsConfigWith(r, m.src, m.configEpoch, m.myslots);
            && u.me == r.me && u.currentEpoch == r.currentEpoch && u.peers.Keys == r.peers.Keys
            && u.peers[m.src] == r.peers[m.src] && u.peers[r.me].configEpoch == r.peers[r.me].configEpoch
            && (u.peers[r.me].master ==> r.peers[r.me].master)
  {
    hide ClaimSlots, NextMaster;
  }
}
