/** One server's view of the cluster, as a value, and what each message handler, timer and
    command of the cluster bus does to it.  The class in ClusterState.dfy performs the slot
    and epoch operations in place and is proved against the functions of this module; the
    distributed machine in ClusterProtocol.dfy runs these functions on every node. */
module ClusterNode {

  // Node IDs are compared as byte strings; only their identity and order matter here.
  type Name = int

  /** A pointer to a node of the nodes table, or NULL. */
  datatype Ref = Null | To(name: Name)

  const SLOTS: nat := 16384

  /** What a server knows about one node of its nodes table. */
  datatype Peer = Peer(
    master: bool,
    slaveof: Ref,
    shard: nat,
    failed: bool,
    configEpoch: nat,
    votedTime: int)

  /** The slot tables: who serves, imports and receives each slot, and the slots whose owner
      stopped claiming them. */
  datatype Tables = Tables(
    owner: seq<Ref>,
    importing: seq<Ref>,
    migrating: seq<Ref>,
    notClaiming: set<nat>)

  /** A replica's failover_auth_* fields. */
  datatype Election = Election(time: int, count: nat, sent: bool, rank: nat, epoch: nat)

  datatype Manual = Manual(end: int, canStart: bool)

  datatype Config = Config(allowMigration: bool, noRedirection: bool)

  datatype Server = Server(
    me: Name,
    peers: map<Name, Peer>,
    tables: Tables,
    currentEpoch: nat,
    lastVoteEpoch: nat,
    auth: Election,
    size: nat,
    mf: Manual,
    config: Config)

  datatype Kind =
    | Ping(wantsReply: bool)
    | AuthRequest(force: bool)
    | AuthAck
    | Update(about: Name, epoch: nat, slots: set<nat>)

  /** A cluster bus message: the header fields the handlers read, and the payload. */
  datatype Msg = Msg(
    kind: Kind,
    src: Name,
    dst: Name,
    currentEpoch: nat,
    configEpoch: nat,
    myslots: set<nat>,
    slaveof: Ref)

  /** The clock, the random delay, the replica rank and the configuration read by the timers. */
  datatype Env = Env(now: int, delay: nat, rank: nat, staleData: bool, noFailover: bool, timeout: nat)

  predicate InRange(claim: set<nat>) {
    forall j <- claim :: j < SLOTS
  }

  predicate RefsKnown(table: seq<Ref>, known: set<Name>) {
    && |table| == SLOTS
    && forall j :: 0 <= j < SLOTS && table[j].To? ==> table[j].name in known
  }

  predicate OwnedOnly(notClaiming: set<nat>, owner: seq<Ref>) {
    forall j <- notClaiming :: j < |owner| && owner[j].To?
  }

  predicate TablesKnown(t: Tables, known: set<Name>) {
    && RefsKnown(t.owner, known)
    && RefsKnown(t.importing, known)
    && RefsKnown(t.migrating, known)
    && OwnedOnly(t.notClaiming, t.owner)
  }

  predicate MastersKnown(peers: map<Name, Peer>) {
    forall n <- peers :: peers[n].slaveof.To? ==> peers[n].slaveof.name in peers
  }

  /** No table refers to a node that is not in the nodes table, and the uncertainty bitmap
      is set only for slots that have an owner. */
  predicate Wf(s: Server) {
    && s.me in s.peers
    && MastersKnown(s.peers)
    && TablesKnown(s.tables, s.peers.Keys)
  }

  function SlotsOf(owner: seq<Ref>, n: Name): set<nat> {
    set j | 0 <= j < |owner| && owner[j] == To(n)
  }

  function NumSlots(s: Server, n: Name): nat {
    |SlotsOf(s.tables.owner, n)|
  }

  predicate Unclaimed(t: Tables, j: nat)
    requires j < |t.owner|
  {
    t.owner[j].Null? || j in t.notClaiming
  }

  // ---------------------------------------------------------------------------------------
  // Slot operations
  // ---------------------------------------------------------------------------------------

  function DelSlot(t: Tables, j: nat): Tables
    requires j < |t.owner|
  {
    t.(owner := t.owner[j := Null], notClaiming := t.notClaiming - {j})
  }

  function AddSlot(t: Tables, n: Name, j: nat): Tables
    requires j < |t.owner|
  {
    if t.owner[j].To? then t else t.(owner := t.owner[j := To(n)])
  }

  /** Hand every slot of `gone` to `to` (or to nobody), leaving the others alone. */
  function Reassign(t: Tables, gone: set<nat>, to: Ref): Tables {
    t.(owner := seq(|t.owner|, j requires 0 <= j < |t.owner| => if j in gone then to else t.owner[j]),
       notClaiming := t.notClaiming - gone)
  }

  function MoveNodeSlots(t: Tables, from: Name, to: Name): Tables {
    Reassign(t, SlotsOf(t.owner, from), To(to))
  }

  function DelNodeSlots(t: Tables, n: Name): Tables {
    Reassign(t, SlotsOf(t.owner, n), Null)
  }

  function Unlink(table: seq<Ref>, n: Name): seq<Ref> {
    seq(|table|, j requires 0 <= j < |table| => if table[j] == To(n) then Null else table[j])
  }

  function Orphan(p: Peer, n: Name): Peer {
    if p.slaveof == To(n) then p.(slaveof := Null) else p
  }

  function DelNode(s: Server, n: Name): Server {
    s.(tables := Tables(DelNodeSlots(s.tables, n).owner, Unlink(s.tables.importing, n),
                        Unlink(s.tables.migrating, n), DelNodeSlots(s.tables, n).notClaiming),
       peers := map k | k in s.peers && k != n :: Orphan(s.peers[k], n))
  }

  // ---------------------------------------------------------------------------------------
  // Roles
  // ---------------------------------------------------------------------------------------

  function SetPeer(s: Server, n: Name, p: Peer): Server {
    s.(peers := s.peers[n := p])
  }

  function SetAsMaster(s: Server, n: Name): Server
    requires n in s.peers
  {
    if s.peers[n].master then s
    else SetPeer(s, n, s.peers[n].(master := true, slaveof := Null))
  }

  function ClosedSlots(): seq<Ref> {
    seq(SLOTS, j => Null)
  }

  function ResetManualFailover(s: Server): Server {
    s.(mf := Manual(0, false))
  }

  /** Turn this node into a replica of `n`. */
  function SetMaster(s: Server, n: Name): Server
    requires s.me in s.peers && n in s.peers
  {
    var my := s.peers[s.me];
    var t := if my.master then s.(tables := s.tables.(importing := ClosedSlots(), migrating := ClosedSlots())) else s;
    ResetManualFailover(
      SetPeer(t, s.me, my.(master := false, slaveof := To(n), shard := s.peers[n].shard)))
  }

  // ---------------------------------------------------------------------------------------
  // Slot claims
  // ---------------------------------------------------------------------------------------

  /** A claimed slot changes hands when it is not the claimant's already, is not being imported
      here, and is unclaimed or owned under a smaller configuration epoch. */
  predicate Rebinds(s: Server, sender: Name, epoch: nat, claim: set<nat>, j: nat)
    requires Wf(s)
  {
    && j < SLOTS
    && j in claim
    && s.tables.owner[j] != To(sender)
    && s.tables.importing[j].Null?
    && (Unclaimed(s.tables, j) || s.peers[s.tables.owner[j].name].configEpoch < epoch)
  }

  function Rebound(s: Server, sender: Name, epoch: nat, claim: set<nat>): set<nat>
    requires Wf(s)
  {
    set j | 0 <= j < SLOTS && Rebinds(s, sender, epoch, claim, j)
  }

  /** The slot tables after a claim: what changed hands, and which owned slots the claimant
      confirmed or stopped claiming. */
  function ClaimSlots(s: Server, sender: Name, epoch: nat, claim: set<nat>): Tables
    requires Wf(s)
  {
    var mine := SlotsOf(s.tables.owner, sender);
    var t := Reassign(s.tables, Rebound(s, sender, epoch, claim), To(sender));
    t.(notClaiming := t.notClaiming - (mine * claim) + (mine - claim))
  }

  function CurMaster(s: Server): Ref
    requires s.me in s.peers
  {
    if s.peers[s.me].master then To(s.me) else s.peers[s.me].slaveof
  }

  /** The slots taken away from this node or from the master it replicates. */
  function Lost(s: Server, sender: Name, epoch: nat, claim: set<nat>): set<nat>
    requires Wf(s)
  {
    set j | j in Rebound(s, sender, epoch, claim) && s.tables.owner[j].To? && s.tables.owner[j] == CurMaster(s)
  }

  /** The node to follow after a claim, or NULL: the claimant when it took the last slot of this node
      or of its master, else the master's own master. */
  function NextMaster(s: Server, sender: Name, epoch: nat, claim: set<nat>): (r: Ref)
    requires Wf(s) && sender in s.peers && sender != s.me
    ensures r.To? ==> r.name in s.peers && r.name != s.me
  {
    var lost := Lost(s, sender, epoch, claim);
    var t := s.(tables := ClaimSlots(s, sender, epoch, claim));
    var up := s.peers[s.me].slaveof;
    if s.config.noRedirection then Null
    else if lost != {} && NumSlots(t, CurMaster(s).name) == 0
            && (s.config.allowMigration || |claim| == |lost|) then To(sender)
    else if up.To? && s.peers[up.name].slaveof.To? && s.peers[up.name].slaveof != To(s.me) then
      s.peers[up.name].slaveof
    else Null
  }

  function UpdateSlotsConfigWith(s: Server, sender: Name, epoch: nat, claim: set<nat>): Server
    requires Wf(s) && sender in s.peers
  {
    if sender == s.me then s
    else
      var t := s.(tables := ClaimSlots(s, sender, epoch, claim));
      var master := NextMaster(s, sender, epoch, claim);
      if master.To? then SetMaster(t, master.name) else t
  }

  // ---------------------------------------------------------------------------------------
  // Epochs
  // ---------------------------------------------------------------------------------------

  function MyEpoch(s: Server): nat
    requires s.me in s.peers
  {
    s.peers[s.me].configEpoch
  }

  function WithMyEpoch(s: Server, e: nat): Server
    requires s.me in s.peers
  {
    SetPeer(s, s.me, s.peers[s.me].(configEpoch := e))
  }

  /** `max` is the greatest epoch this server knows of. */
  ghost predicate IsMaxEpoch(s: Server, max: nat) {
    && s.currentEpoch <= max
    && (forall n <- s.peers :: s.peers[n].configEpoch <= max)
    && (max == s.currentEpoch || exists n <- s.peers :: s.peers[n].configEpoch == max)
  }

  function AdvanceMyEpoch(s: Server): Server
    requires s.me in s.peers
  {
    WithMyEpoch(s.(currentEpoch := s.currentEpoch + 1), s.currentEpoch + 1)
  }

  /** The outcome for the greatest known epoch `max`. */
  function BumpEpoch(s: Server, max: nat): Server
    requires s.me in s.peers
  {
    if MyEpoch(s) == 0 || MyEpoch(s) != max then AdvanceMyEpoch(s) else s
  }

  function HandleCollision(s: Server, sender: Name): Server
    requires s.me in s.peers && sender in s.peers
  {
    if s.peers[sender].configEpoch != MyEpoch(s) || !s.peers[sender].master || !s.peers[s.me].master
       || sender <= s.me
    then s else AdvanceMyEpoch(s)
  }

  function SetConfigEpoch(s: Server, epoch: nat): Server
    requires s.me in s.peers
  {
    if |s.peers| > 1 || MyEpoch(s) != 0 then s
    else
      WithMyEpoch(s.(currentEpoch := if s.currentEpoch < epoch then epoch else s.currentEpoch), epoch)
  }

  // ---------------------------------------------------------------------------------------
  // Messages
  // ---------------------------------------------------------------------------------------

  /** A replica advertises its master's slots and configuration epoch. */
  function Advertised(s: Server): Name
    requires Wf(s)
  {
    var my := s.peers[s.me];
    if !my.master && my.slaveof.To? then my.slaveof.name else s.me
  }

  function Build(s: Server, kind: Kind, dst: Name): Msg
    requires Wf(s)
  {
    var m := Advertised(s);
    Msg(kind, s.me, dst, s.currentEpoch, s.peers[m].configEpoch, SlotsOf(s.tables.owner, m), s.peers[s.me].slaveof)
  }

  function BuildUpdate(s: Server, about: Name, dst: Name): Msg
    requires Wf(s) && about in s.peers
  {
    Build(s, Update(about, s.peers[about].configEpoch, SlotsOf(s.tables.owner, about) - s.tables.notClaiming), dst)
  }

  function ProcessHeader(s: Server, m: Msg): Server
    requires m.src in s.peers
  {
    var t := if m.currentEpoch > s.currentEpoch then s.(currentEpoch := m.currentEpoch) else s;
    if m.configEpoch > s.peers[m.src].configEpoch
    then SetPeer(t, m.src, s.peers[m.src].(configEpoch := m.configEpoch)) else t
  }

  /** A known master announces that it is now a replica. */
  function Demote(s: Server, m: Msg, master: Ref): Server
    requires Wf(s) && m.src in s.peers && (master.To? ==> master.name in s.peers)
  {
    var sender := s.peers[m.src];
    var t :=
      if master.To? && s.peers[master.name].shard == sender.shard then
        if sender.configEpoch > m.configEpoch then s
        else
          var u := SetAsMaster(s.(tables := MoveNodeSlots(s.tables, m.src, master.name)), master.name);
          SetPeer(u, master.name, u.peers[master.name].(configEpoch := m.configEpoch))
      else s.(tables := DelNodeSlots(s.tables, m.src));
    SetPeer(t, m.src, t.peers[m.src].(master := false))
  }

  function FollowMaster(s: Server, sender: Name, master: Ref): Server
    requires Wf(s) && sender in s.peers && (master.To? ==> master.name in s.peers)
  {
    if master.To? && s.peers[sender].slaveof != master then
      var shard := s.peers[master.name].shard;
      var t := SetPeer(s, sender, s.peers[sender].(slaveof := master, shard := shard));
      if s.me != sender && s.peers[s.me].slaveof == To(sender)
      then SetPeer(t, s.me, s.peers[s.me].(shard := shard)) else t
    else s
  }

  function SwitchRole(s: Server, m: Msg): Server
    requires Wf(s) && m.src in s.peers
  {
    if m.slaveof.Null? then SetAsMaster(s, m.src)
    else
      var master := if m.slaveof.name in s.peers then m.slaveof else Null;
      var t := if s.peers[m.src].master then Demote(s, m, master) else s;
      DemoteWf(s, m, master);
      FollowMaster(t, m.src, master)
  }

  /** The claimed slots differ from what we have on record for the sender or its master. */
  predicate Dirty(s: Server, m: Msg)
    requires m.src in s.peers
  {
    var sm := if s.peers[m.src].master then To(m.src) else s.peers[m.src].slaveof;
    sm.To? && SlotsOf(s.tables.owner, sm.name) != m.myslots
  }

  /** A slot the sender claims under a smaller epoch than that of its owner here. */
  predicate Outdated(s: Server, m: Msg, j: nat)
    requires Wf(s)
  {
    && j < SLOTS && j in m.myslots
    && s.tables.owner[j] != To(m.src)
    && !Unclaimed(s.tables, j)
    && s.peers[s.tables.owner[j].name].configEpoch > m.configEpoch
  }

  /** The least slot at or after `j` about which the sender has to be corrected, or `SLOTS`. */
  function FirstOutdated(s: Server, m: Msg, j: nat): (k: nat)
    requires Wf(s) && j <= SLOTS
    ensures j <= k <= SLOTS
    ensures k < SLOTS ==> Outdated(s, m, k)
    ensures forall i :: j <= i < k ==> !Outdated(s, m, i)
    decreases SLOTS - j
  {
    if j == SLOTS || Outdated(s, m, j) then j else FirstOutdated(s, m, j + 1)
  }

  function Correction(s: Server, m: Msg, dirty: bool): seq<Msg>
    requires Wf(s)
  {
    var j := FirstOutdated(s, m, 0);
    if dirty && j < SLOTS then [BuildUpdate(s, s.tables.owner[j].name, m.src)] else []
  }

  function ProcessPing(s: Server, m: Msg): (r: (Server, seq<Msg>))
    requires Wf(s) && m.src in s.peers
  {
    SwitchRoleWf(s, m);
    var t := SwitchRole(s, m);
    var dirty := Dirty(t, m);
    var u := if t.peers[m.src].master && dirty
             then UpdateSlotsConfigWith(t, m.src, m.configEpoch, m.myslots) else t;
    UpdateSlotsConfigWf(t, m.src, m.configEpoch, m.myslots);
    var out := Correction(u, m, dirty);
    if u.peers[u.me].master && u.peers[m.src].master && m.configEpoch == MyEpoch(u)
    then (HandleCollision(u, m.src), out) else (u, out)
  }

  function ProcessUpdate(s: Server, about: Name, epoch: nat, claim: set<nat>): Server
    requires Wf(s)
  {
    if about !in s.peers || s.peers[about].configEpoch >= epoch then s
    else
      var t := SetAsMaster(s, about);
      SetAsMasterWf(s, about);
      var u := SetPeer(t, about, t.peers[about].(configEpoch := epoch));
      SetPeerWf(t, about, t.peers[about].(configEpoch := epoch));
      UpdateSlotsConfigWith(u, about, epoch, claim)
  }

  /** The checks a voter makes, in the order of the source. */
  predicate GrantsVote(s: Server, m: Msg, force: bool, env: Env)
    requires Wf(s) && m.src in s.peers
  {
    var candidate := s.peers[m.src];
    && s.peers[s.me].master && NumSlots(s, s.me) > 0
    && m.currentEpoch >= s.currentEpoch
    && s.lastVoteEpoch != s.currentEpoch
    && !candidate.master && candidate.slaveof.To?
    && (s.peers[candidate.slaveof.name].failed || force)
    && env.now - s.peers[candidate.slaveof.name].votedTime >= env.timeout * 2
    && forall j <- m.myslots | j < SLOTS ::
         Unclaimed(s.tables, j) || s.peers[s.tables.owner[j].name].configEpoch <= m.configEpoch
  }

  function ProcessAuthRequest(s: Server, m: Msg, force: bool, env: Env): (r: (Server, seq<Msg>))
    requires Wf(s) && m.src in s.peers
  {
    if !GrantsVote(s, m, force, env) then (s, [])
    else
      var master := s.peers[m.src].slaveof.name;
      var t := SetPeer(s.(lastVoteEpoch := s.currentEpoch), master, s.peers[master].(votedTime := env.now));
      (t, [Build(t, AuthAck, m.src)])
  }

  predicate CountsAck(s: Server, m: Msg)
    requires m.src in s.peers
  {
    s.peers[m.src].master && NumSlots(s, m.src) > 0 && m.currentEpoch >= s.auth.epoch
  }

  function ProcessAuthAck(s: Server, m: Msg): Server
    requires m.src in s.peers
  {
    if CountsAck(s, m) then s.(auth := s.auth.(count := s.auth.count + 1)) else s
  }

  function Receive(s: Server, m: Msg, env: Env): (r: (Server, seq<Msg>))
    requires Wf(s)
  {
    if m.src !in s.peers then
      (s, if m.kind.Ping? && m.kind.wantsReply then [Build(s, Ping(false), m.src)] else [])
    else
      var t := ProcessHeader(s, m);
      ProcessHeaderWf(s, m);
      match m.kind
      case Ping(wantsReply) =>
        var (u, out) := ProcessPing(t, m);
        (u, (if wantsReply then [Build(t, Ping(false), m.src)] else []) + out)
      case AuthRequest(force) => ProcessAuthRequest(t, m, force, env)
      case AuthAck => (ProcessAuthAck(t, m), [])
      case Update(about, epoch, slots) => (ProcessUpdate(t, about, epoch, slots), [])
  }

  // ---------------------------------------------------------------------------------------
  // Replica failover
  // ---------------------------------------------------------------------------------------

  function AuthTimeout(env: Env): nat {
    if env.timeout * 2 < 2000 then 2000 else env.timeout * 2
  }

  function NeededQuorum(s: Server): nat {
    s.size / 2 + 1
  }

  /** The masters that serve slots, as this server sees them. */
  function Serving(s: Server): set<Name> {
    set n | n in s.peers && s.peers[n].master && NumSlots(s, n) > 0
  }

  function CountMasters(s: Server): nat {
    |Serving(s)|
  }

  /** What this replica does at a tick of the failover timer. */
  datatype Decision = Idle | Schedule | Wait | Ask | Win

  predicate MayFailover(s: Server, env: Env)
    requires Wf(s)
  {
    var my := s.peers[s.me];
    var manual := s.mf.end != 0 && s.mf.canStart;
    && !my.master && my.slaveof.To?
    && (s.peers[my.slaveof.name].failed || manual)
    && (!env.noFailover || manual)
    && NumSlots(s, my.slaveof.name) > 0
    && (!env.staleData || manual)
  }

  /** Before asking for votes, a replica that dropped in rank waits longer. */
  function Rerank(s: Server, env: Env): Server {
    if !s.auth.sent && s.mf.end == 0 && env.rank > s.auth.rank
    then s.(auth := s.auth.(time := s.auth.time + (env.rank - s.auth.rank) * 1000, rank := env.rank)) else s
  }

  /** The age of the attempt is taken before the rank is updated. */
  function Decide(s: Server, env: Env): Decision
    requires Wf(s)
  {
    var age := env.now - s.auth.time;
    if !MayFailover(s, env) then Idle
    else if age > AuthTimeout(env) * 2 then Schedule
    else if env.now < Rerank(s, env).auth.time || age > AuthTimeout(env) then Wait
    else if !s.auth.sent then Ask
    else if s.auth.count >= NeededQuorum(s) then Win
    else Wait
  }

  /** Forget the votes of the previous attempt and pick the start of the next one. */
  function ScheduleElection(s: Server, env: Env): Server {
    s.(auth := if s.mf.end != 0 then Election(env.now, 0, false, 0, s.auth.epoch)
               else Election(env.now + 500 + env.delay + env.rank * 1000, 0, false, env.rank, s.auth.epoch))
  }

  function StartElection(s: Server): Server {
    s.(currentEpoch := s.currentEpoch + 1, auth := s.auth.(epoch := s.currentEpoch + 1, sent := true))
  }

  /** Become a master and claim every slot of the old one. */
  function ReplaceMaster(s: Server): Server
    requires Wf(s)
  {
    var my := s.peers[s.me];
    if my.master || my.slaveof.Null? then s
    else
      ResetManualFailover(SetAsMaster(s, s.me).(tables := MoveNodeSlots(s.tables, my.slaveof.name, s.me)))
  }

  function WinElection(s: Server): Server
    requires Wf(s)
  {
    ReplaceMaster(if MyEpoch(s) < s.auth.epoch then WithMyEpoch(s, s.auth.epoch) else s)
  }

  /** The state after a tick; `Ask` is when the vote requests leave the node. */
  function FailoverTick(s: Server, env: Env): Server
    requires Wf(s)
  {
    match Decide(s, env)
    case Idle => s
    case Schedule => ScheduleElection(s, env)
    case Wait => Rerank(s, env)
    case Ask => StartElection(Rerank(s, env))
    case Win => WinElection(s)
  }

  // ---------------------------------------------------------------------------------------
  // Commands
  // ---------------------------------------------------------------------------------------

  /** CLUSTER FAILOVER TAKEOVER. */
  function Takeover(s: Server, max: nat): Server
    requires Wf(s)
  {
    if s.peers[s.me].master || s.peers[s.me].slaveof.Null? then s
    else ReplaceMaster(BumpEpoch(s, max))
  }

  /** CLUSTER RESET SOFT: forget every other node and every slot. */
  function SoftReset(s: Server): Server
    requires Wf(s)
  {
    var t := SetAsMaster(s, s.me);
    ResetManualFailover(
      t.(tables := Tables(ClosedSlots(), ClosedSlots(), ClosedSlots(), {}),
         peers := map[s.me := t.peers[s.me].(slaveof := Null)]))
  }

  /** CLUSTER RESET HARD: also zero the epochs and take a new node ID. */
  function HardReset(s: Server, name: Name): Server
    requires Wf(s)
  {
    var t := SoftReset(s);
    t.(me := name, currentEpoch := 0, lastVoteEpoch := 0,
       peers := map[name := t.peers[s.me].(configEpoch := 0)])
  }

  // ---------------------------------------------------------------------------------------
  // Every operation keeps the tables well formed
  // ---------------------------------------------------------------------------------------

  lemma ReassignKnown(t: Tables, gone: set<nat>, to: Ref, known: set<Name>)
    requires TablesKnown(t, known) && (to.To? ==> to.name in known)
    ensures TablesKnown(Reassign(t, gone, to), known)
  {
  }

  lemma ClaimSlotsKnown(s: Server, sender: Name, epoch: nat, claim: set<nat>)
    requires Wf(s) && sender in s.peers
    ensures TablesKnown(ClaimSlots(s, sender, epoch, claim), s.peers.Keys)
  {
    ReassignKnown(s.tables, Rebound(s, sender, epoch, claim), To(sender), s.peers.Keys);
  }

  lemma SetPeerWf(s: Server, n: Name, p: Peer)
    requires Wf(s) && n in s.peers && (p.slaveof.To? ==> p.slaveof.name in s.peers)
    ensures Wf(SetPeer(s, n, p)) && SetPeer(s, n, p).peers.Keys == s.peers.Keys
  {
    assert SetPeer(s, n, p).peers.Keys == s.peers.Keys;
  }

  lemma SetAsMasterWf(s: Server, n: Name)
    requires Wf(s) && n in s.peers
    ensures Wf(SetAsMaster(s, n)) && SetAsMaster(s, n).peers.Keys == s.peers.Keys
  {
    SetPeerWf(s, n, s.peers[n].(master := true, slaveof := Null));
  }

  lemma SetMasterWf(s: Server, n: Name)
    requires Wf(s) && n in s.peers
    ensures Wf(SetMaster(s, n)) && SetMaster(s, n).peers.Keys == s.peers.Keys
  {
    var my := s.peers[s.me];
    var t := if my.master then s.(tables := s.tables.(importing := ClosedSlots(), migrating := ClosedSlots())) else s;
    SetPeerWf(t, s.me, my.(master := false, slaveof := To(n), shard := s.peers[n].shard));
  }

  lemma UpdateSlotsConfigWf(s: Server, sender: Name, epoch: nat, claim: set<nat>)
    requires Wf(s) && sender in s.peers
    ensures var t := UpdateSlotsConfigWith(s, sender, epoch, claim);
            Wf(t) && t.me == s.me && t.peers.Keys == s.peers.Keys
  {
    ClaimSlotsKnown(s, sender, epoch, claim);
    if sender != s.me && NextMaster(s, sender, epoch, claim).To? {
      SetMasterWf(s.(tables := ClaimSlots(s, sender, epoch, claim)), NextMaster(s, sender, epoch, claim).name);
    }
  }

  /** The new master of the shard takes the slots and the announced epoch. */
  lemma PromoteWf(s: Server, m: Msg, master: Name)
    requires Wf(s) && m.src in s.peers && master in s.peers
    ensures var u := SetAsMaster(s.(tables := MoveNodeSlots(s.tables, m.src, master)), master);
            var t := SetPeer(u, master, u.peers[master].(configEpoch := m.configEpoch));
            Wf(t) && t.peers.Keys == s.peers.Keys
  {
    ReassignKnown(s.tables, SlotsOf(s.tables.owner, m.src), To(master), s.peers.Keys);
    var v := s.(tables := MoveNodeSlots(s.tables, m.src, master));
    SetAsMasterWf(v, master);
    var u := SetAsMaster(v, master);
    SetPeerWf(u, master, u.peers[master].(configEpoch := m.configEpoch));
  }

  lemma DemoteWf(s: Server, m: Msg, master: Ref)
    requires Wf(s) && m.src in s.peers && (master.To? ==> master.name in s.peers)
    ensures var t := Demote(s, m, master);
            Wf(t) && t.me == s.me && t.peers.Keys == s.peers.Keys
  {
    var t: Server;
    if master.To? && s.peers[master.name].shard == s.peers[m.src].shard {
      if s.peers[m.src].configEpoch > m.configEpoch {
        t := s;
      } else {
        PromoteWf(s, m, master.name);
        var u := SetAsMaster(s.(tables := MoveNodeSlots(s.tables, m.src, master.name)), master.name);
        t := SetPeer(u, master.name, u.peers[master.name].(configEpoch := m.configEpoch));
      }
    } else {
      ReassignKnown(s.tables, SlotsOf(s.tables.owner, m.src), Null, s.peers.Keys);
      t := s.(tables := DelNodeSlots(s.tables, m.src));
    }
    SetPeerWf(t, m.src, t.peers[m.src].(master := false));
  }

  lemma FollowMasterWf(s: Server, sender: Name, master: Ref)
    requires Wf(s) && sender in s.peers && (master.To? ==> master.name in s.peers)
    ensures var t := FollowMaster(s, sender, master);
            Wf(t) && t.me == s.me && t.peers.Keys == s.peers.Keys
  {
    if master.To? && s.peers[sender].slaveof != master {
      var shard := s.peers[master.name].shard;
      var p := s.peers[sender].(slaveof := master, shard := shard);
      SetPeerWf(s, sender, p);
      SetPeerWf(SetPeer(s, sender, p), s.me, s.peers[s.me].(shard := shard));
    }
  }

  lemma SwitchRoleWf(s: Server, m: Msg)
    requires Wf(s) && m.src in s.peers
    ensures var t := SwitchRole(s, m);
            Wf(t) && t.me == s.me && t.peers.Keys == s.peers.Keys
  {
    if m.slaveof.Null? {
      SetAsMasterWf(s, m.src);
    } else {
      var master := if m.slaveof.name in s.peers then m.slaveof else Null;
      DemoteWf(s, m, master);
      FollowMasterWf(if s.peers[m.src].master then Demote(s, m, master) else s, m.src, master);
    }
  }

  lemma ProcessHeaderWf(s: Server, m: Msg)
    requires Wf(s) && m.src in s.peers
    ensures var t := ProcessHeader(s, m);
            Wf(t) && t.me == s.me && t.peers.Keys == s.peers.Keys
  {
    SetPeerWf(s.(currentEpoch := if m.currentEpoch > s.currentEpoch then m.currentEpoch else s.currentEpoch),
              m.src, s.peers[m.src].(configEpoch := m.configEpoch));
  }
}
