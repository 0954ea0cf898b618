/** The roles of the nodes over whole runs: a master replicates nobody, and a replica knows its master
    and owns no slots.  One command alone can break this. */
module ClusterRoles {
  import opened ClusterNode
  import opened ClusterEpochs
  import opened ClusterProtocol

  ghost predicate RoleOk(s: Server)
    requires s.me in s.peers
  {
    var my := s.peers[s.me];
    if my.master then my.slaveof.Null? else my.slaveof.To? && SlotsOf(s.tables.owner, s.me) == {}
  }

  /** Handlers that leave this node's role alone, and its slots if it is a replica. */
  ghost predicate SameRole(s: Server, t: Server)
    requires s.me in s.peers
  {
    && t.me == s.me && t.me in t.peers
    && t.peers[s.me].master == s.peers[s.me].master && t.peers[s.me].slaveof == s.peers[s.me].slaveof
    && (!s.peers[s.me].master ==> SlotsOf(t.tables.owner, s.me) <= SlotsOf(s.tables.owner, s.me))
  }

  lemma SameRoleOk(s: Server, t: Server)
    requires s.me in s.peers && RoleOk(s) && SameRole(s, t)
    ensures t.me in t.peers && RoleOk(t)
  {
  }

  lemma ReassignSlots(t: Tables, gone: set<nat>, to: Ref, n: Name)
    requires to != To(n)
    ensures SlotsOf(Reassign(t, gone, to).owner, n) <= SlotsOf(t.owner, n)
  {
  }

  lemma ClaimTakesOnly(s: Server, sender: Name, epoch: nat, claim: set<nat>)
    requires Wf(s) && sender != s.me
    ensures SlotsOf(ClaimSlots(s, sender, epoch, claim).owner, s.me) <= SlotsOf(s.tables.owner, s.me)
  {
    ReassignSlots(s.tables, Rebound(s, sender, epoch, claim), To(sender), s.me);
  }

  /** A node with a proper role owns nothing when a claim makes it follow another. */
  lemma FollowsEmpty(s: Server, sender: Name, epoch: nat, claim: set<nat>)
    requires Wf(s) && sender in s.peers && sender != s.me && RoleOk(s) && NextMaster(s, sender, epoch, claim).To?
    ensures SlotsOf(ClaimSlots(s, sender, epoch, claim).owner, s.me) == {}
  {
    ClaimTakesOnly(s, sender, epoch, claim);
  }

  lemma UpdateSlotsRole(s: Server, sender: Name, epoch: nat, claim: set<nat>)
    requires Wf(s) && sender in s.peers && RoleOk(s)
    ensures var t := UpdateSlotsConfigWith(s, sender, epoch, claim); t.me in t.peers && RoleOk(t)
  {
    UpdateSlotsConfigWf(s, sender, epoch, claim);
    if sender != s.me {
      var t := s.(tables := ClaimSlots(s, sender, epoch, claim));
      if NextMaster(s, sender, epoch, claim).To? {
        FollowsEmpty(s, sender, epoch, claim);
      } else {
        ClaimTakesOnly(s, sender, epoch, claim);
        SameRoleOk(s, t);
      }
    }
  }

  // ---------------------------------------------------------------------------------------
  // Messages
  // ---------------------------------------------------------------------------------------

  lemma DemoteRole(s: Server, m: Msg, master: Ref)
    requires Wf(s) && m.src in s.peers && m.src != s.me && (master.To? ==> master.name in s.peers) && RoleOk(s)
    ensures var t := Demote(s, m, master); t.me in t.peers && RoleOk(t)
  {
    DemoteWf(s, m, master);
    var mine := SlotsOf(s.tables.owner, m.src);
    ReassignSlots(s.tables, mine, Null, s.me);
    if master.To? && master.name != s.me {
      ReassignSlots(s.tables, mine, master, s.me);
    }
  }

  lemma SwitchRoleRole(s: Server, m: Msg)
    requires Wf(s) && m.src in s.peers && m.src != s.me && RoleOk(s)
    ensures var t := SwitchRole(s, m); t.me in t.peers && RoleOk(t)
  {
    SwitchRoleWf(s, m);
    if m.slaveof.To? {
      var master := if m.slaveof.name in s.peers then m.slaveof else Null;
      DemoteRole(s, m, master);
      DemoteWf(s, m, master);
    }
  }

  lemma HandleCollisionRole(s: Server, sender: Name)
    requires s.me in s.peers && sender in s.peers && RoleOk(s)
    ensures var t := HandleCollision(s, sender); t.me in t.peers && RoleOk(t)
  {
  }

  lemma PingRole(s: Server, m: Msg)
    requires Wf(s) && m.src in s.peers && m.src != s.me && RoleOk(s)
    ensures var t := ProcessPing(s, m).0; t.me in t.peers && RoleOk(t)
  {
    SwitchRoleRole(s, m);
    SwitchRoleWf(s, m);
    var t := SwitchRole(s, m);
    UpdateSlotsRole(t, m.src, m.configEpoch, m.myslots);
    UpdateSlotsConfigWf(t, m.src, m.configEpoch, m.myslots);
    var u := if t.peers[m.src].master && Dirty(t, m)
             then UpdateSlotsConfigWith(t, m.src, m.configEpoch, m.myslots) else t;
    HandleCollisionRole(u, m.src);
    hide SwitchRole, UpdateSlotsConfigWith, HandleCollision, RoleOk, Wf, Dirty, Correction;
  }

  lemma UpdateRole(s: Server, about: Name, epoch: nat, claim: set<nat>)
    requires Wf(s) && RoleOk(s)
    ensures var t := ProcessUpdate(s, about, epoch, claim); t.me in t.peers && RoleOk(t)
  {
    if about in s.peers && s.peers[about].configEpoch < epoch {
      var t := SetAsMaster(s, about);
      SetAsMasterWf(s, about);
      SetPeerWf(t, about, t.peers[about].(configEpoch := epoch));
      UpdateSlotsRole(SetPeer(t, about, t.peers[about].(configEpoch := epoch)), about, epoch, claim);
    }
  }

  lemma ReceiveRole(s: Server, m: Msg, env: Env)
    requires Wf(s) && m.src != s.me && RoleOk(s)
    ensures var t := Receive(s, m, env).0; t.me in t.peers && RoleOk(t)
  {
    if m.src in s.peers {
      var t := ProcessHeader(s, m);
      ProcessHeaderWf(s, m);
      SameRoleOk(s, t);
      match m.kind
      case Ping(_) => PingRole(t, m);
      case Update(about, epoch, slots) => UpdateRole(t, about, epoch, slots);
      case AuthRequest(force) => SameRoleOk(t, ProcessAuthRequest(t, m, force, env).0);
      case AuthAck =>
    }
  }

  // ---------------------------------------------------------------------------------------
  // Timers and commands
  // ---------------------------------------------------------------------------------------

  lemma TickRole(s: Server, env: Env)
    requires Wf(s) && RoleOk(s)
    ensures var t := FailoverTick(s, env); t.me in t.peers && RoleOk(t)
  {
  }

  /** CLUSTER ADDSLOTS looks at the slot only, not at the role of the node. */
  ghost predicate AddsToReplica(s: Server, c: Command)
    requires Wf(s)
  {
    c.AddSlots? && c.slot < SLOTS && s.tables.owner[c.slot].Null? && !s.peers[s.me].master
  }

  lemma TablesRole(s: Server, c: Command)
    requires Wf(s) && RoleOk(s) && CommandEnabled(s, c)
    requires c.AddSlots? || c.DelSlots? || c.Importing? || c.Migrating?
    ensures var t := Apply(s, c); t.me in t.peers && (RoleOk(t) <==> !AddsToReplica(s, c))
  {
    var t := Apply(s, c);
    if AddsToReplica(s, c) {
      assert c.slot in SlotsOf(t.tables.owner, s.me);
    } else {
      SameRoleOk(s, t);
    }
  }

  lemma AssignRole(s: Server, j: nat, n: Name, noKeys: bool, max: nat)
    requires Wf(s) && RoleOk(s) && j < SLOTS && n in s.peers && s.peers[s.me].master
    ensures var t := AssignSlot(s, j, n, noKeys, max); t.me in t.peers && RoleOk(t)
  {
  }

  lemma ForgetRole(s: Server, n: Name)
    requires Wf(s) && RoleOk(s) && CommandEnabled(s, Forget(n))
    ensures var t := DelNode(s, n); t.me in t.peers && RoleOk(t)
  {
    ReassignSlots(s.tables, SlotsOf(s.tables.owner, n), Null, s.me);
  }

  lemma ApplyRole(s: Server, c: Command)
    requires Wf(s) && RoleOk(s) && CommandEnabled(s, c)
    ensures var t := Apply(s, c); t.me in t.peers && (RoleOk(t) <==> !AddsToReplica(s, c))
  {
    match c
    case AddSlots(_) => TablesRole(s, c);
    case DelSlots(_) => TablesRole(s, c);
    case Importing(_, _) => TablesRole(s, c);
    case Migrating(_, _) => TablesRole(s, c);
    case SetSlotNode(j, n, noKeys, max) => AssignRole(s, j, n, noKeys, max);
    case Forget(n) => ForgetRole(s, n);
    case _ =>
  }

  // ---------------------------------------------------------------------------------------
  // Whole runs
  // ---------------------------------------------------------------------------------------

  /** Nodes have no link to themselves. */
  ghost predicate NoSelfMessages(sys: System) {
    forall m <- sys.net :: m.src != m.dst
  }

  ghost predicate RolesOk(sys: System) {
    forall n <- sys.nodes :: sys.nodes[n].me in sys.nodes[n].peers && RoleOk(sys.nodes[n])
  }

  ghost predicate BreaksRole(sys: System, step: Step) {
    step.Local? && step.n in sys.nodes && Wf(sys.nodes[step.n]) && AddsToReplica(sys.nodes[step.n], step.c)
  }

  lemma PingAnswers(s: Server, m: Msg)
    requires Wf(s) && m.src in s.peers
    ensures forall o <- ProcessPing(s, m).1 :: o.src == s.me && o.dst == m.src
  {
    SwitchRoleWf(s, m);
    UpdateSlotsConfigWf(SwitchRole(s, m), m.src, m.configEpoch, m.myslots);
    hide SwitchRole, UpdateSlotsConfigWith, Dirty, HandleCollision, FirstOutdated, Wf;
  }

  /** Every answer goes back to the sender. */
  lemma Answers(s: Server, m: Msg, env: Env)
    requires Wf(s)
    ensures forall o <- Receive(s, m, env).1 :: o.src == s.me && o.dst == m.src
  {
    if m.src in s.peers {
      ProcessHeaderWf(s, m);
      if m.kind.Ping? {
        PingAnswers(ProcessHeader(s, m), m);
      }
      hide ProcessPing, ProcessHeader, Wf, ProcessUpdate, GrantsVote;
    }
  }

  lemma DeliverRoles(sys: System, m: Msg, env: Env)
    requires AllWf(sys) && m in sys.net && m.dst in sys.nodes && RolesOk(sys) && NoSelfMessages(sys)
    ensures RolesOk(DeliverTo(sys, m, env)) && NoSelfMessages(DeliverTo(sys, m, env))
  {
    ReceiveRole(sys.nodes[m.dst], m, env);
    Answers(sys.nodes[m.dst], m, env);
    hide Receive, RoleOk, Wf, CountVoter, Granted;
  }

  lemma TickRoles(sys: System, n: Name, env: Env)
    requires AllWf(sys) && n in sys.nodes && RolesOk(sys) && NoSelfMessages(sys)
    ensures RolesOk(TickAt(sys, n, env)) && NoSelfMessages(TickAt(sys, n, env))
  {
    TickRole(sys.nodes[n], env);
    hide FailoverTick, Decide, RoleOk, Wf;
  }

  /** One step keeps the roles, unless it adds a slot to a replica. */
  lemma StepRoles(sys: System, step: Step)
    requires AllWf(sys) && Enabled(sys, step) && RolesOk(sys) && NoSelfMessages(sys)
    ensures NoSelfMessages(Next(sys, step)) && (RolesOk(Next(sys, step)) <==> !BreaksRole(sys, step))
  {
    match step
    case Deliver(m, env) => DeliverRoles(sys, m, env);
    case Tick(n, env) => TickRoles(sys, n, env);
    case Local(n, c) =>
      ApplyRole(sys.nodes[n], c);
      LocalRoles(sys, n, Apply(sys.nodes[n], c));
    case ResetHard(n, name) =>
    case _ =>
  }

  lemma LocalRoles(sys: System, n: Name, t: Server)
    requires RolesOk(sys) && n in sys.nodes && t.me in t.peers
    ensures RolesOk(sys.(nodes := sys.nodes[n := t])) <==> RoleOk(t)
  {
    assert sys.nodes[n := t][n] == t;
  }

  ghost predicate NothingBreaks(states: seq<System>, steps: seq<Step>) {
    forall i :: 0 <= i < |steps| && i < |states| ==> !BreaksRole(states[i], steps[i])
  }

  lemma {:induction false} RunRoles(states: seq<System>, steps: seq<Step>, k: nat)
    requires Run(states, steps) && RolesOk(states[0]) && NoSelfMessages(states[0]) && NothingBreaks(states, steps)
    requires k < |states|
    ensures RolesOk(states[k]) && NoSelfMessages(states[k])
  {
    if k > 0 {
      RunRoles(states, steps, k - 1);
      assert Takes(states[k - 1], steps[k - 1], states[k]);
      assert !BreaksRole(states[k - 1], steps[k - 1]);
      StepRoles(states[k - 1], steps[k - 1]);
    }
  }

  /** The first step that breaks a role leaves one broken. */
  lemma {:induction false} BrokenRun(states: seq<System>, steps: seq<Step>, i: nat)
    requires Run(states, steps) && RolesOk(states[0]) && NoSelfMessages(states[0])
    requires i < |steps| && BreaksRole(states[i], steps[i])
    ensures exists k: nat :: k < |states| && !RolesOk(states[k])
  {
    if j: nat :| j < i && BreaksRole(states[j], steps[j]) {
      BrokenRun(states, steps, j);
    } else {
      var (first, done) := (states[..i + 1], steps[..i]);
      forall j | 0 <= j < i ensures Takes(first[j], done[j], first[j + 1]) {
        assert Takes(states[j], steps[j], states[j + 1]);
      }
      RunRoles(first, done, i);
      assert Takes(states[i], steps[i], states[i + 1]);
      StepRoles(states[i], steps[i]);
      assert !RolesOk(states[i + 1]);
    }
  }

  /** Over whole runs: the roles are proper in every state if and only if no slot is ever added to a
      replica. */
  lemma RolesAreExact(states: seq<System>, steps: seq<Step>)
    requires Run(states, steps) && RolesOk(states[0]) && NoSelfMessages(states[0])
    ensures (forall k: nat :: k < |states| ==> RolesOk(states[k])) <==> NothingBreaks(states, steps)
  {
    if NothingBreaks(states, steps) {
      forall k: nat | k < |states| ensures RolesOk(states[k]) {
        RunRoles(states, steps, k);
      }
    } else {
      var i :| 0 <= i < |steps| && i < |states| && BreaksRole(states[i], steps[i]);
      BrokenRun(states, steps, i);
    }
  }
}
