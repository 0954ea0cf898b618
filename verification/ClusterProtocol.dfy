/** The cluster bus as a state machine: every server's state, the messages in flight, and one
    step per handler, timer or command.  All choices (what arrives, what is lost, the clock,
    the operator) are in the step, so a run is a list of steps. */
module ClusterProtocol {
  import opened ClusterNode
  import opened ClusterEpochs

  datatype Vote = Vote(voter: Name, epoch: nat, candidate: Name)

  /** A replica that reached the quorum: the epoch of the election, the cluster size it used,
      the voters it counted in that epoch and the acknowledgements left over from before. */
  datatype Victory = Victory(replica: Name, epoch: nat, size: nat, counted: set<Name>, stale: nat)

  /** History of a replica's current election: the voters counted in `authEpoch` since the
      counter was last cleared, and the acknowledgements counted before `authEpoch` began. */
  datatype Tally = Tally(counted: set<Name>, stale: nat)

  datatype System = System(
    nodes: map<Name, Server>,
    net: multiset<Msg>,
    votes: set<Vote>,
    tally: map<Name, Tally>,
    wins: set<Victory>)

  /** Commands and local events that send no message of their own. */
  datatype Command =
    | AddSlots(slot: nat)
    | DelSlots(slot: nat)
    | Importing(slot: nat, from: Ref)
    | Migrating(slot: nat, to: Ref)
    | SetSlotNode(slot: nat, node: Name, noKeys: bool, max: nat)
    | BumpEpochCmd(max: nat)
    | ConfigEpochCmd(epoch: nat)
    | Replicate(master: Name)
    | Forget(node: Name)
    | Meet(node: Name, shard: nat, asMaster: bool)
    | FlagFailure(node: Name, failed: bool)
    | UpdateState
    | ManualFailover(end: int, canStart: bool)
    | TakeoverCmd(max: nat)
    | ResetSoft

  datatype Step =
    | Deliver(m: Msg, env: Env)
    | Drop(m: Msg)
    | Duplicate(m: Msg)
    | SendPing(n: Name, dst: Name, wantsReply: bool)
    | Tick(n: Name, env: Env)
    | Local(n: Name, c: Command)
    | ResetHard(n: Name, name: Name)

  // ---------------------------------------------------------------------------------------
  // Steps
  // ---------------------------------------------------------------------------------------

  ghost predicate CommandEnabled(s: Server, c: Command)
    requires Wf(s)
  {
    match c
    case AddSlots(j) => j < SLOTS
    case DelSlots(j) => j < SLOTS
    case Importing(j, from) => j < SLOTS && (from.To? ==> from.name in s.peers)
    case Migrating(j, to) => j < SLOTS && (to.To? ==> to.name in s.peers)
    case SetSlotNode(j, n, noKeys, max) =>
      j < SLOTS && n in s.peers && s.peers[s.me].master && s.peers[n].master && IsMaxEpoch(s, max)
    case BumpEpochCmd(max) => IsMaxEpoch(s, max)
    case Replicate(n) => n in s.peers && n != s.me && s.peers[n].master
                         && (s.peers[s.me].master ==> NumSlots(s, s.me) == 0)
    case Forget(n) => n in s.peers && n != s.me
                      && !(!s.peers[s.me].master && s.peers[s.me].slaveof == To(n))
    case Meet(n, _, _) => n !in s.peers
    case FlagFailure(n, failed) => n in s.peers
    case TakeoverCmd(max) => IsMaxEpoch(s, max)
    case _ => true
  }

  function AssignSlot(s: Server, j: nat, n: Name, noKeys: bool, max: nat): Server
    requires Wf(s) && j < SLOTS && n in s.peers
  {
    var open := if noKeys then s.tables.(migrating := s.tables.migrating[j := Null]) else s.tables;
    var t := s.(tables := AddSlot(DelSlot(open, j), n, j));
    var u := if s.tables.owner[j] == To(s.me) && n != s.me && NumSlots(t, s.me) == 0
                && s.config.allowMigration
             then SetMaster(t, n) else t;
    if n == s.me && u.tables.importing[j].To? then
      BumpEpoch(u, max).(tables := u.tables.(importing := u.tables.importing[j := Null]))
    else u
  }

  function Import(t: Tables, j: nat, from: Ref): Tables
    requires j < |t.importing|
  {
    t.(importing := t.importing[j := from])
  }

  function Apply(s: Server, c: Command): Server
    requires Wf(s)
  {
    match c
    case AddSlots(j) => if j < SLOTS then s.(tables := AddSlot(Import(s.tables, j, Null), s.me, j)) else s
    case DelSlots(j) => if j < SLOTS then s.(tables := DelSlot(Import(s.tables, j, Null), j)) else s
    case Importing(j, from) => if j < SLOTS then s.(tables := Import(s.tables, j, from)) else s
    case Migrating(j, to) =>
      if j < SLOTS then s.(tables := s.tables.(migrating := s.tables.migrating[j := to])) else s
    case SetSlotNode(j, n, noKeys, max) =>
      if j < SLOTS && n in s.peers then AssignSlot(s, j, n, noKeys, max) else s
    case BumpEpochCmd(max) => BumpEpoch(s, max)
    case ConfigEpochCmd(epoch) => SetConfigEpoch(s, epoch)
    case Replicate(n) => if n in s.peers then SetMaster(s, n) else s
    case Forget(n) => DelNode(s, n)
    case Meet(n, shard, asMaster) => SetPeer(s, n, Peer(asMaster, Null, shard, false, 0, 0))
    case FlagFailure(n, failed) => if n in s.peers then SetPeer(s, n, s.peers[n].(failed := failed)) else s
    case UpdateState => s.(size := CountMasters(s))
    case ManualFailover(end, canStart) => s.(mf := Manual(end, canStart))
    case TakeoverCmd(max) => Takeover(s, max)
    case ResetSoft => SoftReset(s)
  }

  ghost predicate AllWf(sys: System) {
    && sys.tally.Keys == sys.nodes.Keys
    && forall n <- sys.nodes :: Wf(sys.nodes[n]) && sys.nodes[n].me == n
  }

  ghost predicate Enabled(sys: System, step: Step)
    requires AllWf(sys)
  {
    match step
    case Deliver(m, env) => m in sys.net && m.dst in sys.nodes
    case Drop(m) => m in sys.net
    case Duplicate(m) => m in sys.net
    case SendPing(n, dst, _) => n in sys.nodes && dst != n
    case Tick(n, env) => n in sys.nodes
    case Local(n, c) => n in sys.nodes && CommandEnabled(sys.nodes[n], c)
    case ResetHard(n, name) => n in sys.nodes && name !in sys.nodes
  }

  function Requests(s: Server): multiset<Msg>
    requires Wf(s)
  {
    multiset(set p | p in s.peers && p != s.me :: Build(s, AuthRequest(s.mf.end != 0), p))
  }

  /** Bookkeeping of a delivery: the vote that was granted, or the voter that was counted. */
  function Granted(m: Msg, out: seq<Msg>, epoch: nat): set<Vote> {
    if m.kind.AuthRequest? && out != [] then {Vote(m.dst, epoch, m.src)} else {}
  }

  function CountVoter(t: Tally, s: Server, m: Msg): Tally
    requires Wf(s)
  {
    if m.kind.AuthAck? && m.src in s.peers && CountsAck(ProcessHeader(s, m), m)
    then t.(counted := t.counted + {m.src}) else t
  }

  function DeliverTo(sys: System, m: Msg, env: Env): System
    requires m.dst in sys.nodes && m.dst in sys.tally && Wf(sys.nodes[m.dst])
  {
    var s := sys.nodes[m.dst];
    var (t, out) := Receive(s, m, env);
    sys.(nodes := sys.nodes[m.dst := t],
         net := sys.net - multiset{m} + multiset(out),
         votes := sys.votes + Granted(m, out, t.lastVoteEpoch),
         tally := sys.tally[m.dst := CountVoter(sys.tally[m.dst], s, m)])
  }

  function TickAt(sys: System, n: Name, env: Env): System
    requires n in sys.nodes && n in sys.tally && Wf(sys.nodes[n])
  {
    var s := sys.nodes[n];
    var t := FailoverTick(s, env);
    var moved := sys.(nodes := sys.nodes[n := t]);
    match Decide(s, env)
    case Schedule => moved.(tally := sys.tally[n := Tally({}, 0)])
    case Ask =>
      moved.(net := sys.net + Requests(t), tally := sys.tally[n := Tally({}, s.auth.count)])
    case Win =>
      moved.(wins := sys.wins + {Victory(n, s.auth.epoch, s.size, sys.tally[n].counted, sys.tally[n].stale)})
    case _ => moved
  }

  ghost function Next(sys: System, step: Step): System
    requires AllWf(sys) && Enabled(sys, step)
  {
    match step
    case Deliver(m, env) => DeliverTo(sys, m, env)
    case Drop(m) => sys.(net := sys.net - multiset{m})
    case Duplicate(m) => sys.(net := sys.net + multiset{m})
    case SendPing(n, dst, reply) => sys.(net := sys.net + multiset{Build(sys.nodes[n], Ping(reply), dst)})
    case Tick(n, env) => TickAt(sys, n, env)
    case Local(n, c) => sys.(nodes := sys.nodes[n := Apply(sys.nodes[n], c)])
    case ResetHard(n, name) =>
      sys.(nodes := (sys.nodes - {n})[name := HardReset(sys.nodes[n], name)],
           tally := (sys.tally - {n})[name := sys.tally[n]])
  }

  // ---------------------------------------------------------------------------------------
  // Epochs over whole runs
  // ---------------------------------------------------------------------------------------

  lemma AssignSlotEpochs(s: Server, j: nat, n: Name, noKeys: bool, max: nat)
    requires Wf(s) && EpochsOrdered(s) && j < SLOTS && n in s.peers
    ensures var t := AssignSlot(s, j, n, noKeys, max); Wf(t) && Advances(s, t) && SameElection(s, t)
  {
    var open := if noKeys then s.tables.(migrating := s.tables.migrating[j := Null]) else s.tables;
    var t := s.(tables := AddSlot(DelSlot(open, j), n, j));
    assert TablesKnown(t.tables, s.peers.Keys);
    if n == s.me {
      AdvanceWf(t);
      AdvanceEpochs(t);
    } else {
      SetMasterWf(t, n);
      SetMasterEpochs(t, n);
    }
  }

  /** Commands that move an epoch. */
  lemma EpochCommands(s: Server, c: Command)
    requires Wf(s) && EpochsOrdered(s) && CommandEnabled(s, c)
    requires c.BumpEpochCmd? || c.ConfigEpochCmd? || c.TakeoverCmd?
    ensures var t := Apply(s, c); Wf(t) && Advances(s, t) && SameElection(s, t)
  {
    match c
    case BumpEpochCmd(max) =>
      AdvanceWf(s);
      AdvanceEpochs(s);
    case ConfigEpochCmd(epoch) => SetPeerWf(s, s.me, s.peers[s.me].(configEpoch := epoch));
    case TakeoverCmd(max) =>
      AdvanceWf(s);
      AdvanceEpochs(s);
      ReplaceMasterWf(BumpEpoch(s, max));
  }

  lemma TableCommands(s: Server, c: Command)
    requires Wf(s) && EpochsOrdered(s) && CommandEnabled(s, c)
    requires c.AddSlots? || c.DelSlots? || c.Importing? || c.Migrating? || c.Forget?
    ensures var t := Apply(s, c); Wf(t) && Advances(s, t) && SameElection(s, t)
  {
  }

  lemma ApplyEpochs(s: Server, c: Command)
    requires Wf(s) && EpochsOrdered(s) && CommandEnabled(s, c)
    ensures var t := Apply(s, c); Wf(t) && Advances(s, t) && SameElection(s, t)
  {
    if c.BumpEpochCmd? || c.ConfigEpochCmd? || c.TakeoverCmd? {
      EpochCommands(s, c);
    } else if c.AddSlots? || c.DelSlots? || c.Importing? || c.Migrating? || c.Forget? {
      TableCommands(s, c);
    } else if c.SetSlotNode? {
      AssignSlotEpochs(s, c.slot, c.node, c.noKeys, c.max);
    } else if c.Replicate? {
      SetMasterWf(s, c.master);
      SetMasterEpochs(s, c.master);
    } else if c.FlagFailure? {
      SetPeerWf(s, c.node, s.peers[c.node].(failed := c.failed));
    }
  }

  /** In a good state every server's current epoch covers everything it has stored, and every
      message in flight is covered by the current epoch in its own header. */
  ghost predicate EpochInv(sys: System) {
    && AllWf(sys)
    && (forall n <- sys.nodes :: EpochsOrdered(sys.nodes[n]))
    && forall m <- sys.net :: EpochsCovered(m)
  }

  /** The property itself: nothing stored or in flight is beyond the current epoch beside it. */
  ghost predicate SystemSound(sys: System) {
    && (forall n <- sys.nodes :: EpochsSound(sys.nodes[n]))
    && forall m <- sys.net :: EpochsCovered(m)
  }

  /** A hard reset does not clear a vote request that is still open, nor the answers counted. */
  ghost predicate QuietReset(sys: System, step: Step) {
    step.ResetHard? && step.n in sys.nodes ==>
      var auth := sys.nodes[step.n].auth;
      !auth.sent || auth.count == 0 || auth.epoch == 0
  }

  /** Every server still there has epochs at least as great as before. */
  ghost predicate NoEpochDecreases(sys: System, sys': System) {
    forall n <- sys.nodes :: n in sys'.nodes ==>
      && sys.nodes[n].currentEpoch <= sys'.nodes[n].currentEpoch
      && sys.nodes[n].lastVoteEpoch <= sys'.nodes[n].lastVoteEpoch
  }

  /** A step that moves one server forward and adds covered messages keeps the invariant. */
  lemma PutNode(sys: System, n: Name, t: Server, sys': System)
    requires EpochInv(sys) && n in sys.nodes && Wf(t) && Advances(sys.nodes[n], t)
    requires sys'.nodes == sys.nodes[n := t] && sys'.tally.Keys == sys.tally.Keys
    requires forall m <- sys'.net :: m in sys.net || EpochsCovered(m)
    ensures EpochInv(sys') && NoEpochDecreases(sys, sys')
  {
  }

  lemma DeliverEpochs(sys: System, m: Msg, env: Env)
    requires EpochInv(sys) && m in sys.net && m.dst in sys.nodes
    ensures EpochInv(DeliverTo(sys, m, env)) && NoEpochDecreases(sys, DeliverTo(sys, m, env))
  {
    var s := sys.nodes[m.dst];
    ReceiveWf(s, m, env);
    ReceiveEpochs(s, m, env);
    PutNode(sys, m.dst, Receive(s, m, env).0, DeliverTo(sys, m, env));
  }

  lemma TickAtEpochs(sys: System, n: Name, env: Env)
    requires EpochInv(sys) && n in sys.nodes
    ensures EpochInv(TickAt(sys, n, env)) && NoEpochDecreases(sys, TickAt(sys, n, env))
  {
    var s := sys.nodes[n];
    TickEpochs(s, env);
    PutNode(sys, n, FailoverTick(s, env), TickAt(sys, n, env));
  }

  /** A hard reset keeps the invariant exactly when no answered vote request is open; that no other
      reset is safe is in ClusterLoudReset.dfy. */
  lemma HardResetEpochs(sys: System, n: Name, name: Name)
    requires EpochInv(sys) && n in sys.nodes && name !in sys.nodes
    ensures EpochInv(Next(sys, ResetHard(n, name))) <==> QuietReset(sys, ResetHard(n, name))
    ensures NoEpochDecreases(sys, Next(sys, ResetHard(n, name)))
  {
    var sys' := Next(sys, ResetHard(n, name));
    assert EpochsOrdered(sys'.nodes[name]) <==> QuietReset(sys, ResetHard(n, name));
  }

  /** One step keeps the invariant; a hard reset does so exactly when it is quiet. */
  lemma StepEpochs(sys: System, step: Step)
    requires EpochInv(sys) && Enabled(sys, step)
    ensures EpochInv(Next(sys, step)) <==> QuietReset(sys, step)
    ensures NoEpochDecreases(sys, Next(sys, step))
  {
    match step
    case Deliver(m, env) => DeliverEpochs(sys, m, env);
    case Tick(n, env) => TickAtEpochs(sys, n, env);
    case Local(n, c) =>
      ApplyEpochs(sys.nodes[n], c);
      PutNode(sys, n, Apply(sys.nodes[n], c), Next(sys, step));
    case ResetHard(n, name) => HardResetEpochs(sys, n, name);
    case _ =>
  }

  /** A started cluster: every server has loaded a configuration whose epochs are ordered, no
      message is in flight and no election was held. */
  ghost predicate Started(sys: System) {
    && EpochInv(sys)
    && sys.net == multiset{} && sys.votes == {} && sys.wins == {}
    && (forall n <- sys.nodes :: sys.nodes[n].auth.count == 0 && sys.nodes[n].auth.epoch == 0)
    && forall n <- sys.tally :: sys.tally[n] == Tally({}, 0)
  }

  ghost predicate Takes(sys: System, step: Step, sys': System) {
    AllWf(sys) && Enabled(sys, step) && sys' == Next(sys, step)
  }

  /** A run: `states[i]` takes `steps[i]` and becomes `states[i + 1]`. */
  ghost predicate Run(states: seq<System>, steps: seq<Step>) {
    && |states| == |steps| + 1
    && forall i :: 0 <= i < |steps| ==> Takes(states[i], steps[i], states[i + 1])
  }

  ghost predicate QuietResets(states: seq<System>, steps: seq<Step>) {
    forall i :: 0 <= i < |steps| && i < |states| ==> QuietReset(states[i], steps[i])
  }

  /** The distributed epoch invariant holds in every state of every run. */
  lemma {:induction false} RunEpochs(states: seq<System>, steps: seq<Step>, k: nat)
    requires Run(states, steps) && QuietResets(states, steps) && EpochInv(states[0]) && k < |states|
    ensures EpochInv(states[k]) && SystemSound(states[k])
  {
    if k > 0 {
      RunEpochs(states, steps, k - 1);
      assert Takes(states[k - 1], steps[k - 1], states[k]);
      assert QuietReset(states[k - 1], steps[k - 1]);
      StepEpochs(states[k - 1], steps[k - 1]);
    }
  }

  ghost predicate NoHardReset(steps: seq<Step>) {
    forall i :: 0 <= i < |steps| ==> !steps[i].ResetHard?
  }

  lemma NoHardIsQuiet(states: seq<System>, steps: seq<Step>)
    requires NoHardReset(steps)
    ensures QuietResets(states, steps)
  {
  }

  lemma StepServers(states: seq<System>, steps: seq<Step>, k: nat)
    requires Run(states, steps) && k < |steps| && EpochInv(states[k]) && !steps[k].ResetHard?
    ensures states[k + 1].nodes.Keys == states[k].nodes.Keys && NoEpochDecreases(states[k], states[k + 1])
  {
    assert Takes(states[k], steps[k], states[k + 1]);
    StepEpochs(states[k], steps[k]);
  }

  lemma Transitive(a: System, b: System, c: System)
    requires a.nodes.Keys == b.nodes.Keys && NoEpochDecreases(a, b) && NoEpochDecreases(b, c)
    ensures NoEpochDecreases(a, c)
  {
  }

  /** Without hard resets the servers stay the same and no epoch ever decreases. */
  lemma {:induction false} RunMonotone(states: seq<System>, steps: seq<Step>, j: nat, k: nat)
    requires Run(states, steps) && EpochInv(states[0]) && NoHardReset(steps) && j <= k < |states|
    ensures states[k].nodes.Keys == states[j].nodes.Keys && NoEpochDecreases(states[j], states[k])
    decreases k - j
  {
    hide Takes, QuietReset, EpochInv;
    if j < k {
      hide NoEpochDecreases;
      RunMonotone(states, steps, j, k - 1);
      NoHardIsQuiet(states, steps);
      RunEpochs(states, steps, k - 1);
      StepServers(states, steps, k - 1);
      Transitive(states[j], states[k - 1], states[k]);
    }
  }
}
