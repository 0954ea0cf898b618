/** What the handlers of one server do to its epochs and to its election counters. */
module ClusterEpochs {
  import opened ClusterNode

  ghost predicate Below(peers: map<Name, Peer>, e: nat) {
    forall n <- peers :: peers[n].configEpoch <= e
  }

  /** The current epoch covers every epoch this server has recorded. */
  ghost predicate EpochsSound(s: Server) {
    Below(s.peers, s.currentEpoch) && s.lastVoteEpoch <= s.currentEpoch
  }

  /** And the epoch in which a replica has asked for votes and was answered. */
  ghost predicate EpochsOrdered(s: Server) {
    && EpochsSound(s)
    && (s.auth.sent && s.auth.count > 0 ==> s.auth.epoch <= s.currentEpoch)
  }

  /** A message never advertises a configuration newer than its sender's current epoch. */
  ghost predicate EpochsCovered(m: Msg) {
    && m.configEpoch <= m.currentEpoch
    && (m.kind.Update? ==> m.kind.epoch <= m.currentEpoch)
  }

  ghost predicate SameElection(s: Server, t: Server) {
    t.lastVoteEpoch == s.lastVoteEpoch && t.auth == s.auth
  }

  /** Nothing but the nodes and slot tables changed. */
  ghost predicate SameCounters(s: Server, t: Server) {
    && t.me == s.me && t.peers.Keys == s.peers.Keys
    && t.currentEpoch == s.currentEpoch && t.size == s.size
    && SameElection(s, t)
  }

  ghost predicate SameEpochs(s: Server, t: Server) {
    && SameCounters(s, t)
    && forall n <- s.peers :: t.peers[n].configEpoch == s.peers[n].configEpoch
  }

  lemma SetMasterEpochs(s: Server, n: Name)
    requires Wf(s) && n in s.peers
    ensures SameEpochs(s, SetMaster(s, n))
  {
    SetMasterWf(s, n);
  }

  lemma UpdateSlotsEpochs(s: Server, sender: Name, epoch: nat, claim: set<nat>)
    requires Wf(s) && sender in s.peers
    ensures SameEpochs(s, UpdateSlotsConfigWith(s, sender, epoch, claim))
  {
    ClaimSlotsKnown(s, sender, epoch, claim);
    if sender != s.me && NextMaster(s, sender, epoch, claim).To? {
      SetMasterEpochs(s.(tables := ClaimSlots(s, sender, epoch, claim)), NextMaster(s, sender, epoch, claim).name);
    }
  }

  lemma DemoteEpochs(s: Server, m: Msg, master: Ref, e: nat)
    requires Wf(s) && m.src in s.peers && (master.To? ==> master.name in s.peers)
    requires Below(s.peers, e) && m.configEpoch <= e
    ensures SameCounters(s, Demote(s, m, master)) && Below(Demote(s, m, master).peers, e)
  {
    DemoteWf(s, m, master);
  }

  lemma FollowMasterEpochs(s: Server, sender: Name, master: Ref, e: nat)
    requires Wf(s) && sender in s.peers && (master.To? ==> master.name in s.peers)
    requires Below(s.peers, e)
    ensures SameCounters(s, FollowMaster(s, sender, master)) && Below(FollowMaster(s, sender, master).peers, e)
  {
    FollowMasterWf(s, sender, master);
  }

  lemma SwitchRoleEpochs(s: Server, m: Msg, e: nat)
    requires Wf(s) && m.src in s.peers
    requires Below(s.peers, e) && m.configEpoch <= e
    ensures SameCounters(s, SwitchRole(s, m)) && Below(SwitchRole(s, m).peers, e)
  {
    SwitchRoleWf(s, m);
    if m.slaveof.To? {
      var master := if m.slaveof.name in s.peers then m.slaveof else Null;
      DemoteWf(s, m, master);
      DemoteEpochs(s, m, master, e);
      FollowMasterEpochs(if s.peers[m.src].master then Demote(s, m, master) else s, m.src, master, e);
    }
  }

  lemma AdvanceWf(s: Server)
    requires Wf(s)
    ensures Wf(AdvanceMyEpoch(s))
  {
    SetPeerWf(s.(currentEpoch := s.currentEpoch + 1), s.me, s.peers[s.me].(configEpoch := s.currentEpoch + 1));
  }

  lemma AdvanceEpochs(s: Server)
    requires Wf(s) && EpochsOrdered(s)
    ensures var t := AdvanceMyEpoch(s);
            EpochsOrdered(t) && SameElection(s, t) && t.currentEpoch == s.currentEpoch + 1
            && t.me == s.me && t.peers.Keys == s.peers.Keys
  {
    SetPeerWf(s.(currentEpoch := s.currentEpoch + 1), s.me, s.peers[s.me].(configEpoch := s.currentEpoch + 1));
  }

  /** What any step of a server may do to its epochs. */
  ghost predicate Advances(s: Server, t: Server) {
    && t.me == s.me && EpochsOrdered(t)
    && s.currentEpoch <= t.currentEpoch
    && s.lastVoteEpoch <= t.lastVoteEpoch
  }

  /** The replies of a handler: covered, from this server, to the sender, and never a request. */
  ghost predicate Replies(s: Server, m: Msg, out: seq<Msg>) {
    forall o <- out :: EpochsCovered(o) && o.src == s.me && o.dst == m.src && !o.kind.AuthRequest?
  }

  lemma CorrectionCovered(s: Server, m: Msg, dirty: bool)
    requires Wf(s) && EpochsOrdered(s)
    ensures Replies(s, m, Correction(s, m, dirty)) && forall o <- Correction(s, m, dirty) :: o.kind.Update?
  {
  }

  lemma CollisionEpochs(s: Server, sender: Name)
    requires Wf(s) && EpochsOrdered(s) && sender in s.peers
    ensures Advances(s, HandleCollision(s, sender)) && SameElection(s, HandleCollision(s, sender))
  {
    AdvanceEpochs(s);
  }

  /** Two masters with one configEpoch that hear of each other: the one with the smaller name alone
      moves, to an epoch above that of the other. */
  lemma CollisionResolves(s: Server, t: Server)
    requires Wf(s) && EpochsOrdered(s) && Wf(t) && EpochsOrdered(t) && s.me < t.me
    requires t.me in s.peers && s.me in t.peers && MyEpoch(s) == MyEpoch(t)
    requires s.peers[s.me].master && s.peers[t.me].master && s.peers[t.me].configEpoch == MyEpoch(t)
    requires t.peers[s.me].configEpoch == MyEpoch(s)
    ensures HandleCollision(t, s.me) == t
    ensures var u := HandleCollision(s, t.me);
            && MyEpoch(u) == u.currentEpoch && MyEpoch(u) > s.currentEpoch && MyEpoch(u) > MyEpoch(t)
  {
    AdvanceEpochs(s);
    assert MyEpoch(s) <= s.currentEpoch;
  }

  lemma ProcessPingEpochs(s: Server, m: Msg)
    requires Wf(s) && EpochsOrdered(s) && m.src in s.peers && m.configEpoch <= s.currentEpoch
    ensures var (t, out) := ProcessPing(s, m);
            Advances(s, t) && SameElection(s, t) && Replies(s, m, out)
            && forall o <- out :: o.kind.Update?
  {
    SwitchRoleWf(s, m);
    SwitchRoleEpochs(s, m, s.currentEpoch);
    var t := SwitchRole(s, m);
    UpdateSlotsConfigWf(t, m.src, m.configEpoch, m.myslots);
    UpdateSlotsEpochs(t, m.src, m.configEpoch, m.myslots);
    var u := if t.peers[m.src].master && Dirty(t, m)
             then UpdateSlotsConfigWith(t, m.src, m.configEpoch, m.myslots) else t;
    assert EpochsOrdered(u);
    CorrectionCovered(u, m, Dirty(t, m));
    CollisionEpochs(u, m.src);
  }

  lemma ProcessUpdateEpochs(s: Server, about: Name, epoch: nat, claim: set<nat>)
    requires Wf(s) && EpochsOrdered(s) && epoch <= s.currentEpoch
    ensures var t := ProcessUpdate(s, about, epoch, claim);
            Advances(s, t) && SameElection(s, t)
  {
    if about in s.peers && s.peers[about].configEpoch < epoch {
      SetAsMasterWf(s, about);
      var t := SetAsMaster(s, about);
      SetPeerWf(t, about, t.peers[about].(configEpoch := epoch));
      UpdateSlotsEpochs(SetPeer(t, about, t.peers[about].(configEpoch := epoch)), about, epoch, claim);
    }
  }

  lemma ProcessHeaderEpochs(s: Server, m: Msg)
    requires Wf(s) && EpochsOrdered(s) && m.src in s.peers && EpochsCovered(m)
    ensures var t := ProcessHeader(s, m);
            Advances(s, t) && SameElection(s, t) && m.currentEpoch <= t.currentEpoch && m.src in t.peers
  {
    ProcessHeaderWf(s, m);
  }

  /** A vote is granted in the epoch of the request, at most once per epoch. */
  lemma ProcessAuthRequestEpochs(s: Server, m: Msg, force: bool, env: Env)
    requires Wf(s) && EpochsOrdered(s) && m.src in s.peers && m.currentEpoch <= s.currentEpoch
    ensures var (t, out) := ProcessAuthRequest(s, m, force, env);
            && Advances(s, t) && Replies(s, m, out)
            && t.auth == s.auth
            && (out == [] ==> t == s)
            && (out != [] ==>
                  && |out| == 1 && out[0].kind.AuthAck?
                  && out[0].currentEpoch == t.lastVoteEpoch == m.currentEpoch
                  && s.lastVoteEpoch < t.lastVoteEpoch)
  {
    if GrantsVote(s, m, force, env) {
      var master := s.peers[m.src].slaveof.name;
      SetPeerWf(s.(lastVoteEpoch := s.currentEpoch), master, s.peers[master].(votedTime := env.now));
    }
  }

  /** The whole receive path keeps the epochs ordered and never lets them decrease. */
  lemma ReceiveEpochs(s: Server, m: Msg, env: Env)
    requires Wf(s) && EpochsOrdered(s) && EpochsCovered(m)
    ensures var (t, out) := Receive(s, m, env); Advances(s, t) && Replies(s, m, out)
  {
    if m.src in s.peers {
      ProcessHeaderEpochs(s, m);
      var t := ProcessHeader(s, m);
      match m.kind
      case Ping(_) => ProcessPingEpochs(t, m);
      case AuthRequest(force) => ProcessAuthRequestEpochs(t, m, force, env);
      case AuthAck =>
      case Update(about, epoch, slots) => ProcessUpdateEpochs(t, about, epoch, slots);
    }
  }

  /** Which part of the election state each kind of message can touch. */
  lemma ReceiveElection(s: Server, m: Msg, env: Env)
    requires Wf(s) && EpochsOrdered(s) && EpochsCovered(m)
    ensures var (t, out) := Receive(s, m, env);
            && (m.kind.AuthRequest? && out != [] ==>
                  && |out| == 1 && out[0].kind.AuthAck?
                  && out[0].currentEpoch == t.lastVoteEpoch == m.currentEpoch
                  && s.lastVoteEpoch < t.lastVoteEpoch)
            && (!(m.kind.AuthRequest? && out != []) ==>
                  t.lastVoteEpoch == s.lastVoteEpoch && forall o <- out :: !o.kind.AuthAck?)
            && t.auth ==
                 (if m.kind.AuthAck? && m.src in s.peers && CountsAck(ProcessHeader(s, m), m)
                  then s.auth.(count := s.auth.count + 1) else s.auth)
  {
    if m.src in s.peers {
      ProcessHeaderEpochs(s, m);
      var t := ProcessHeader(s, m);
      match m.kind
      case Ping(_) => ProcessPingEpochs(t, m);
      case AuthRequest(force) => ProcessAuthRequestEpochs(t, m, force, env);
      case AuthAck =>
      case Update(about, epoch, slots) => ProcessUpdateEpochs(t, about, epoch, slots);
    }
  }

  lemma ProcessPingWf(s: Server, m: Msg)
    requires Wf(s) && m.src in s.peers
    ensures Wf(ProcessPing(s, m).0) && ProcessPing(s, m).0.me == s.me
  {
    SwitchRoleWf(s, m);
    var t := SwitchRole(s, m);
    UpdateSlotsConfigWf(t, m.src, m.configEpoch, m.myslots);
    AdvanceWf(if t.peers[m.src].master && Dirty(t, m)
              then UpdateSlotsConfigWith(t, m.src, m.configEpoch, m.myslots) else t);
  }

  lemma ProcessUpdateWf(s: Server, about: Name, epoch: nat, claim: set<nat>)
    requires Wf(s)
    ensures Wf(ProcessUpdate(s, about, epoch, claim)) && ProcessUpdate(s, about, epoch, claim).me == s.me
  {
    if about in s.peers && s.peers[about].configEpoch < epoch {
      SetAsMasterWf(s, about);
      var t := SetAsMaster(s, about);
      SetPeerWf(t, about, t.peers[about].(configEpoch := epoch));
      UpdateSlotsConfigWf(SetPeer(t, about, t.peers[about].(configEpoch := epoch)), about, epoch, claim);
    }
  }

  lemma ProcessAuthRequestWf(s: Server, m: Msg, force: bool, env: Env)
    requires Wf(s) && m.src in s.peers
    ensures var r := ProcessAuthRequest(s, m, force, env); Wf(r.0) && r.0.me == s.me
  {
    if GrantsVote(s, m, force, env) {
      var master := s.peers[m.src].slaveof.name;
      SetPeerWf(s.(lastVoteEpoch := s.currentEpoch), master, s.peers[master].(votedTime := env.now));
    }
  }

  lemma ReceiveWf(s: Server, m: Msg, env: Env)
    requires Wf(s)
    ensures Wf(Receive(s, m, env).0) && Receive(s, m, env).0.me == s.me
  {
    if m.src in s.peers {
      ProcessHeaderWf(s, m);
      var h := ProcessHeader(s, m);
      match m.kind
      case Ping(_) => ProcessPingWf(h, m);
      case AuthRequest(force) => ProcessAuthRequestWf(h, m, force, env);
      case AuthAck =>
      case Update(about, epoch, slots) => ProcessUpdateWf(h, about, epoch, slots);
    }
  }

  lemma ReplaceMasterWf(s: Server)
    requires Wf(s)
    ensures Wf(ReplaceMaster(s)) && ReplaceMaster(s).me == s.me
  {
    var my := s.peers[s.me];
    if my.slaveof.To? {
      SetAsMasterWf(s, s.me);
      ReassignKnown(s.tables, SlotsOf(s.tables.owner, my.slaveof.name), To(s.me), s.peers.Keys);
    }
  }

  /** A tick never lowers an epoch: the epoch of a victory was asked for under a current epoch
      that covered it. */
  lemma TickEpochs(s: Server, env: Env)
    requires Wf(s) && EpochsOrdered(s)
    ensures var t := FailoverTick(s, env); Wf(t) && Advances(s, t) && t.lastVoteEpoch == s.lastVoteEpoch
    ensures Decide(s, env).Ask? ==>
              var t := FailoverTick(s, env); s.currentEpoch < t.currentEpoch == t.auth.epoch
  {
    match Decide(s, env)
    case Win =>
      SetPeerWf(s, s.me, s.peers[s.me].(configEpoch := s.auth.epoch));
      ReplaceMasterWf(if MyEpoch(s) < s.auth.epoch then WithMyEpoch(s, s.auth.epoch) else s);
    case _ =>
  }
}
