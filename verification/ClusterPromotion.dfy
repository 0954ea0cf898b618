/** When a replica asks for votes, when it wins and what it takes over, slot by slot. */
module ClusterPromotion {
  import opened ClusterNode
  import opened ClusterEpochs
  import opened ClusterProtocol
  import opened ClusterVotes
  import opened ClusterRoles

  // ---------------------------------------------------------------------------------------
  // The failover timer
  // ---------------------------------------------------------------------------------------

  ghost predicate Manually(s: Server) {
    s.mf.end != 0 && s.mf.canStart
  }

  /** A replica of a master that serves slots and that it holds for failed, allowed to fail over and with
      data that is recent enough; in a manual failover none of the last three is asked for. */
  ghost predicate Eligible(s: Server, env: Env)
    requires Wf(s)
  {
    var my := s.peers[s.me];
    && !my.master && my.slaveof.To? && Serves(s, my.slaveof.name)
    && (Manually(s) || (s.peers[my.slaveof.name].failed && !env.noFailover && !env.staleData))
  }

  ghost function Patience(env: Env): nat {
    if 2 * env.timeout > 2000 then 2 * env.timeout else 2000
  }

  /** When the attempt begins: a replica that dropped in rank meanwhile waits a second per rank. */
  ghost function Begins(s: Server, env: Env): int {
    if !s.auth.sent && s.mf.end == 0 && env.rank > s.auth.rank
    then s.auth.time + 1000 * (env.rank - s.auth.rank) else s.auth.time
  }

  /** The attempt has begun and has not expired. */
  ghost predicate InTime(s: Server, env: Env) {
    Begins(s, env) <= env.now && env.now - s.auth.time <= Patience(env)
  }

  ghost predicate Asks(s: Server, env: Env)
    requires Wf(s)
  {
    Eligible(s, env) && InTime(s, env) && !s.auth.sent
  }

  ghost predicate Wins(s: Server, env: Env)
    requires Wf(s)
  {
    Eligible(s, env) && InTime(s, env) && s.auth.sent && 2 * s.auth.count > s.size
  }

  ghost predicate Starts(s: Server, env: Env)
    requires Wf(s)
  {
    Eligible(s, env) && env.now - s.auth.time > 2 * Patience(env)
  }

  lemma DecideMeans(s: Server, env: Env)
    requires Wf(s)
    ensures Decide(s, env).Ask? <==> Asks(s, env)
    ensures Decide(s, env).Win? <==> Wins(s, env)
    ensures Decide(s, env).Schedule? <==> Starts(s, env)
  {
    if s.peers[s.me].slaveof.To? {
      ServesIsNumSlots(s, s.peers[s.me].slaveof.name);
    }
    hide Serves, NumSlots, Wf;
  }

  /** What a vote request does to the server: a new epoch, and the request is out. */
  ghost predicate Asked(s: Server, t: Server) {
    && t.currentEpoch == s.currentEpoch + 1 && t.auth.epoch == t.currentEpoch && t.auth.sent
    && t.auth.count == s.auth.count && t.peers == s.peers && t.tables == s.tables
    && t.lastVoteEpoch == s.lastVoteEpoch && t.mf == s.mf
  }

  /** A new attempt: no votes, and a start that the rank and a random delay put off. */
  ghost predicate Restarted(s: Server, env: Env, t: Server) {
    && !t.auth.sent && t.auth.count == 0 && t.auth.epoch == s.auth.epoch
    && t.auth.time == (if s.mf.end != 0 then env.now else env.now + 500 + env.delay + 1000 * env.rank)
    && t.auth.rank == (if s.mf.end != 0 then 0 else env.rank) && t == s.(auth := t.auth)
  }

  // ---------------------------------------------------------------------------------------
  // Promotion
  // ---------------------------------------------------------------------------------------

  /** A replica of `former` has become a master: every slot of the old master is its own, the others and
      the open slots are as they were, and nobody doubts the slots that moved. */
  ghost predicate Promoted(s: Server, former: Name, t: Server)
    requires s.me in s.peers
  {
    && t.me == s.me && t.me in t.peers && t.peers[s.me].master && t.peers[s.me].slaveof.Null?
    && |t.tables.owner| == |s.tables.owner|
    && (forall j :: 0 <= j < |s.tables.owner| ==>
          t.tables.owner[j] == if s.tables.owner[j] == To(former) then To(s.me) else s.tables.owner[j])
    && (forall j :: j in t.tables.notClaiming <==>
          j in s.tables.notClaiming && !(j < |s.tables.owner| && s.tables.owner[j] == To(former)))
    && t.tables.importing == s.tables.importing && t.tables.migrating == s.tables.migrating
    && t.peers.Keys == s.peers.Keys && (forall n <- s.peers :: n != s.me ==> t.peers[n] == s.peers[n])
    && t.mf == Manual(0, false) && t.currentEpoch == s.currentEpoch && t.lastVoteEpoch == s.lastVoteEpoch
    && t.auth == s.auth
  }

  lemma PromotionTakesSlots(s: Server)
    requires Wf(s) && !s.peers[s.me].master && s.peers[s.me].slaveof.To?
    ensures Promoted(s, s.peers[s.me].slaveof.name, ReplaceMaster(s))
    ensures ReplaceMaster(s).peers[s.me].configEpoch == s.peers[s.me].configEpoch
  {
  }

  /** The old master owns nothing, and the new one what both owned. */
  lemma PromotionLeavesNothing(s: Server, former: Name, t: Server)
    requires s.me in s.peers && former != s.me && Promoted(s, former, t)
    ensures !Serves(t, former)
    ensures SlotsOf(t.tables.owner, s.me) == SlotsOf(s.tables.owner, former) + SlotsOf(s.tables.owner, s.me)
  {
  }

  /** CLUSTER FAILOVER TAKEOVER promotes a replica under a new epoch, unless it has the greatest already. */
  lemma TakeoverMeans(s: Server, max: nat)
    requires Wf(s) && IsMaxEpoch(s, max) && !s.peers[s.me].master && s.peers[s.me].slaveof.To?
    ensures var (t, bumps) := (Takeover(s, max), MyEpoch(s) == 0 || MyEpoch(s) != max);
            && s.me in t.peers
            && t.currentEpoch == (if bumps then s.currentEpoch + 1 else s.currentEpoch)
            && t.peers[s.me].configEpoch == (if bumps then s.currentEpoch + 1 else MyEpoch(s))
            && Promoted(s.(currentEpoch := t.currentEpoch), s.peers[s.me].slaveof.name, t)
  {
    var u := BumpEpoch(s, max);
    AdvanceWf(s);
    PromotionTakesSlots(u);
    hide Wf;
  }

  /** A replica becomes a master in a tick if and only if it wins; then it has at least the epoch of the
      election and the slots of its master. */
  lemma WinIsExact(s: Server, env: Env)
    requires Wf(s)
    ensures var t := FailoverTick(s, env);
            && s.me in t.peers && (t.peers[s.me].master != s.peers[s.me].master <==> Wins(s, env))
            && (Wins(s, env) ==>
                  && Promoted(s, s.peers[s.me].slaveof.name, t)
                  && t.peers[s.me].configEpoch ==
                       if MyEpoch(s) < s.auth.epoch then s.auth.epoch else MyEpoch(s))
  {
    DecideMeans(s, env);
    if Wins(s, env) {
      var u := if MyEpoch(s) < s.auth.epoch then WithMyEpoch(s, s.auth.epoch) else s;
      SetPeerWf(s, s.me, s.peers[s.me].(configEpoch := s.auth.epoch));
      PromotionTakesSlots(u);
    }
    hide Decide, Eligible, InTime, ReplaceMaster, Wf;
  }

  /** A tick asks for votes, starts an attempt, or changes at most when the attempt begins. */
  lemma TickIsExact(s: Server, env: Env)
    requires Wf(s) && !Wins(s, env)
    ensures var t := FailoverTick(s, env);
            && (Asks(s, env) ==> Asked(s, t))
            && (Starts(s, env) ==> Restarted(s, env, t))
            && (!Asks(s, env) && !Starts(s, env) ==>
                  t == s.(auth := t.auth) && t.auth.sent == s.auth.sent && t.auth.count == s.auth.count
                  && t.auth.epoch == s.auth.epoch)
  {
    DecideMeans(s, env);
    hide Decide, Eligible, InTime, Wf;
  }

  // ---------------------------------------------------------------------------------------
  // Messages
  // ---------------------------------------------------------------------------------------

  /** A master announces itself, a replica its master. */
  ghost predicate Announces(s: Server, m: Msg)
    requires Wf(s)
  {
    var my := s.peers[s.me];
    var n := if my.master || my.slaveof.Null? then s.me else my.slaveof.name;
    && m.src == s.me && m.currentEpoch == s.currentEpoch && m.configEpoch == s.peers[n].configEpoch
    && m.slaveof == my.slaveof
    && forall j :: j in m.myslots <==> 0 <= j < |s.tables.owner| && s.tables.owner[j] == To(n)
  }

  lemma BuildAnnounces(s: Server, kind: Kind, dst: Name)
    requires Wf(s)
    ensures Announces(s, Build(s, kind, dst)) && Build(s, kind, dst).kind == kind && Build(s, kind, dst).dst == dst
  {
  }

  /** A replica that asks sends a request in the new epoch to every node it knows. */
  lemma AskSends(sys: System, n: Name, env: Env, p: Name)
    requires AllWf(sys) && n in sys.nodes && Asks(sys.nodes[n], env) && p in sys.nodes[n].peers && p != n
    ensures var t := TickAt(sys, n, env).nodes[n];
            && Wf(t) && t.currentEpoch == sys.nodes[n].currentEpoch + 1
            && exists m <- TickAt(sys, n, env).net ::
                 m.kind == AuthRequest(sys.nodes[n].mf.end != 0) && m.dst == p && Announces(t, m)
  {
    var s := sys.nodes[n];
    DecideMeans(s, env);
    TickIsExact(s, env);
    var t := FailoverTick(s, env);
    var m := Build(t, AuthRequest(t.mf.end != 0), p);
    BuildAnnounces(t, AuthRequest(t.mf.end != 0), p);
    assert m in (set q | q in t.peers && q != t.me :: Build(t, AuthRequest(t.mf.end != 0), q));
    assert m in Requests(t);
    hide Decide, FailoverTick, Wf, Asks, Wins, Starts, Build;
  }

  /** The winner announces exactly what its master owned. */
  lemma WinnerAnnounces(s: Server, env: Env, kind: Kind, dst: Name)
    requires Wf(s) && Wins(s, env) && RoleOk(s)
    ensures var t := FailoverTick(s, env);
            && Wf(t) && !Serves(t, s.peers[s.me].slaveof.name)
            && Build(t, kind, dst).myslots == SlotsOf(s.tables.owner, s.peers[s.me].slaveof.name)
            && Build(t, kind, dst).configEpoch >= s.auth.epoch && Build(t, kind, dst).slaveof.Null?
  {
    NotItsOwnMaster(s, env);
    WinIsExact(s, env);
    var t := FailoverTick(s, env);
    PromotedWf(s, s.peers[s.me].slaveof.name, t);
    PromotionLeavesNothing(s, s.peers[s.me].slaveof.name, t);
    hide FailoverTick, Wins, SlotsOf;
  }

  lemma NotItsOwnMaster(s: Server, env: Env)
    requires Wf(s) && Eligible(s, env) && RoleOk(s)
    ensures s.peers[s.me].slaveof != To(s.me)
  {
    var master := s.peers[s.me].slaveof;
    var j :| 0 <= j < |s.tables.owner| && s.tables.owner[j] == master;
    assert j in SlotsOf(s.tables.owner, master.name);
  }

  lemma PromotedWf(s: Server, former: Name, t: Server)
    requires Wf(s) && Promoted(s, former, t)
    ensures Wf(t)
  {
  }

  /** The step in which a victory was won. */
  ghost predicate WonAt(sys: System, step: Step, w: Victory) {
    && step.Tick? && step.n == w.replica && w.replica in sys.nodes && Wf(sys.nodes[w.replica])
    && Wins(sys.nodes[w.replica], step.env)
    && w.epoch == sys.nodes[w.replica].auth.epoch && w.size == sys.nodes[w.replica].size
  }

  lemma StepWins(sys: System, step: Step, w: Victory)
    requires AllWf(sys) && Enabled(sys, step)
    ensures w in Next(sys, step).wins ==> w in sys.wins || WonAt(sys, step, w)
  {
    hide FailoverTick, Decide, Receive, Apply, HardReset, Wins, Wf, CommandEnabled, Requests;
    if step.Tick? {
      DecideMeans(sys.nodes[step.n], step.env);
    }
  }

  lemma WinsAt(states: seq<System>, steps: seq<Step>, k: nat, w: Victory)
    requires Run(states, steps) && k + 1 < |states| && w in states[k + 1].wins
    ensures k < |steps| && (w in states[k].wins || WonAt(states[k], steps[k], w))
  {
    assert Takes(states[k], steps[k], states[k + 1]);
    StepWins(states[k], steps[k], w);
  }

  /** Every victory of a run was won by a replica that was eligible and had more than half of the votes
      it counted with. */
  lemma {:induction false} VictoriesAreEarned(states: seq<System>, steps: seq<Step>, k: nat, w: Victory)
    returns (i: nat)
    requires Run(states, steps) && states[0].wins == {} && k < |states| && w in states[k].wins
    ensures i < k && i < |steps| && WonAt(states[i], steps[i], w)
  {
    if k == 0 {
      assert false;
    } else {
      hide *;
      WinsAt(states, steps, k - 1, w);
      if w in states[k - 1].wins {
        i := VictoriesAreEarned(states, steps, k - 1, w);
      } else {
        i := k - 1;
      }
    }
  }

  /** In a run in which no slot is added to a replica, the winner of an election announces, right after it
      has won, exactly the slots of its former master, under the epoch of the election or a greater one. */
  lemma WinnerTakesOver(states: seq<System>, steps: seq<Step>, k: nat, w: Victory, dst: Name) returns (i: nat)
    requires Run(states, steps) && states[0].wins == {} && k < |states| && w in states[k].wins
    requires RolesOk(states[0]) && NoSelfMessages(states[0]) && NothingBreaks(states, steps)
    ensures i < k && WonAt(states[i], steps[i], w) && w.replica in states[i + 1].nodes
    ensures var (s, t) := (states[i].nodes[w.replica], states[i + 1].nodes[w.replica]);
            && s.peers[s.me].slaveof.To? && Wf(t) && !Serves(t, s.peers[s.me].slaveof.name)
            && var m := Build(t, Ping(false), dst);
            && m.myslots == SlotsOf(s.tables.owner, s.peers[s.me].slaveof.name)
            && m.configEpoch >= w.epoch && m.slaveof.Null?
  {
    i := VictoriesAreEarned(states, steps, k, w);
    RunRoles(states, steps, i);
    WinnerAnnounces(states[i].nodes[w.replica], steps[i].env, Ping(false), dst);
    TickTaken(states, steps, i, w);
    hide *;
  }

  lemma TickTaken(states: seq<System>, steps: seq<Step>, i: nat, w: Victory)
    requires Run(states, steps) && i < |steps| && WonAt(states[i], steps[i], w)
    ensures w.replica in states[i + 1].nodes
    ensures states[i + 1].nodes[w.replica] == FailoverTick(states[i].nodes[w.replica], steps[i].env)
    ensures states[i].nodes[w.replica].peers[states[i].nodes[w.replica].me].slaveof.To?
  {
    assert Takes(states[i], steps[i], states[i + 1]);
    hide FailoverTick, Decide, Requests;
  }
}
