/** What a vote, an election and a promotion mean, in terms of what the server had on record: when a
    vote leaves, when a replica asks and when it wins, and what the winner takes over. */
module ClusterVotes {
  import opened ClusterNode
  import opened ClusterEpochs
  import opened ClusterProtocol
  import opened ClusterElection

  // ---------------------------------------------------------------------------------------
  // Voting
  // ---------------------------------------------------------------------------------------

  ghost predicate Serves(s: Server, n: Name) {
    exists j :: 0 <= j < |s.tables.owner| && s.tables.owner[j] == To(n)
  }

  lemma ServesIsNumSlots(s: Server, n: Name)
    ensures Serves(s, n) <==> NumSlots(s, n) > 0
  {
    if Serves(s, n) {
      var j :| 0 <= j < |s.tables.owner| && s.tables.owner[j] == To(n);
      assert j in SlotsOf(s.tables.owner, n);
    } else {
      assert SlotsOf(s.tables.owner, n) == {};
    }
  }

  /** The claim of the candidate is not older than that of any slot's owner who still claims it. */
  ghost predicate ClaimIsCurrent(s: Server, m: Msg)
    requires Wf(s)
  {
    forall j :: 0 <= j < SLOTS && j in m.myslots && s.tables.owner[j].To? && j !in s.tables.notClaiming ==>
      s.peers[s.tables.owner[j].name].configEpoch <= m.configEpoch
  }

  /** A master that serves slots is asked in an epoch that is not behind its own and in which it has not
      voted, by a replica whose master it holds for failed, unless the request is forced, and for whose
      master it has not voted for two timeouts. */
  ghost predicate MayVote(s: Server, m: Msg, env: Env)
    requires Wf(s)
  {
    && m.kind.AuthRequest? && m.src in s.peers
    && s.peers[s.me].master && Serves(s, s.me)
    && s.currentEpoch <= m.currentEpoch && s.lastVoteEpoch != m.currentEpoch
    && !s.peers[m.src].master && s.peers[m.src].slaveof.To?
    && var master := s.peers[s.peers[m.src].slaveof.name];
    && (master.failed || m.kind.force)
    && env.now - master.votedTime >= 2 * env.timeout
    && ClaimIsCurrent(s, m)
  }

  /** What the header of a message leaves of a record. */
  lemma HeaderKeeps(s: Server, m: Msg)
    requires Wf(s) && m.src in s.peers
    ensures var t := ProcessHeader(s, m);
            && Wf(t) && t.me == s.me && t.tables == s.tables && t.lastVoteEpoch == s.lastVoteEpoch
            && t.currentEpoch == (if m.currentEpoch > s.currentEpoch then m.currentEpoch else s.currentEpoch)
            && t.peers.Keys == s.peers.Keys
            && forall n <- s.peers ::
                 && t.peers[n].master == s.peers[n].master && t.peers[n].slaveof == s.peers[n].slaveof
                 && t.peers[n].failed == s.peers[n].failed && t.peers[n].votedTime == s.peers[n].votedTime
                 && (n != m.src ==> t.peers[n] == s.peers[n])
                 && (t.peers[n].configEpoch <= m.configEpoch <==> s.peers[n].configEpoch <= m.configEpoch)
  {
    ProcessHeaderWf(s, m);
  }

  lemma ClaimAfterHeader(s: Server, m: Msg)
    requires Wf(s) && m.src in s.peers
    ensures var t := ProcessHeader(s, m); Wf(t) && (ClaimIsCurrent(t, m) <==> ClaimIsCurrent(s, m))
  {
    HeaderKeeps(s, m);
    hide ProcessHeader;
  }

  /** The checks of a voter that has processed the header. */
  lemma GrantIsMayVote(s: Server, m: Msg, env: Env)
    requires Wf(s) && m.src in s.peers && m.kind.AuthRequest? && m.currentEpoch <= s.currentEpoch
    ensures GrantsVote(s, m, m.kind.force, env) <==> MayVote(s, m, env)
  {
    ServesIsNumSlots(s, s.me);
    assert (forall j <- m.myslots | j < SLOTS ::
              Unclaimed(s.tables, j) || s.peers[s.tables.owner[j].name].configEpoch <= m.configEpoch)
           <==> ClaimIsCurrent(s, m);
  }

  lemma GrantMeans(s: Server, m: Msg, env: Env)
    requires Wf(s) && m.src in s.peers && m.kind.AuthRequest?
    ensures var t := ProcessHeader(s, m); Wf(t) && (GrantsVote(t, m, m.kind.force, env) <==> MayVote(s, m, env))
  {
    HeaderKeeps(s, m);
    ClaimAfterHeader(s, m);
    var t := ProcessHeader(s, m);
    ServesIsNumSlots(s, s.me);
    ServesIsNumSlots(t, s.me);
    assert t.peers[m.src].slaveof == s.peers[m.src].slaveof;
    hide ProcessHeader, Wf;
    assert (forall j <- m.myslots | j < SLOTS ::
              Unclaimed(t.tables, j) || t.peers[t.tables.owner[j].name].configEpoch <= m.configEpoch)
           <==> ClaimIsCurrent(t, m);
  }

  ghost predicate NoAck(out: seq<Msg>) {
    forall o <- out :: !o.kind.AuthAck?
  }

  lemma SwitchRoleKeepsVote(s: Server, m: Msg)
    requires Wf(s) && m.src in s.peers
    ensures SwitchRole(s, m).lastVoteEpoch == s.lastVoteEpoch
  {
  }

  lemma PingSendsNoAck(s: Server, m: Msg)
    requires Wf(s) && m.src in s.peers
    ensures var (t, out) := ProcessPing(s, m); NoAck(out) && t.lastVoteEpoch == s.lastVoteEpoch
  {
    SwitchRoleWf(s, m);
    SwitchRoleKeepsVote(s, m);
    var t := SwitchRole(s, m);
    UpdateSlotsConfigWf(t, m.src, m.configEpoch, m.myslots);
    hide SwitchRole, Dirty, ClaimSlots, NextMaster, FirstOutdated, Wf;
  }

  lemma OthersSendNoAck(s: Server, m: Msg, env: Env)
    requires Wf(s) && !m.kind.AuthRequest?
    ensures var (t, out) := Receive(s, m, env); NoAck(out) && t.lastVoteEpoch == s.lastVoteEpoch
  {
    if m.src in s.peers {
      ProcessHeaderWf(s, m);
      if m.kind.Ping? {
        PingSendsNoAck(ProcessHeader(s, m), m);
      }
      hide ProcessPing, ClaimSlots, NextMaster, Wf;
    }
  }

  /** The record of the vote and the answer. */
  ghost predicate Voted(s: Server, m: Msg, env: Env, t: Server, out: seq<Msg>)
    requires Wf(s) && MayVote(s, m, env)
  {
    var master := s.peers[m.src].slaveof.name;
    && |out| == 1 && out[0].kind.AuthAck? && out[0].src == s.me && out[0].dst == m.src
    && out[0].currentEpoch == m.currentEpoch == t.lastVoteEpoch == t.currentEpoch
    && t.tables == s.tables && t.auth == s.auth && t.peers.Keys == s.peers.Keys
    && t.peers[master].votedTime == env.now
  }

  lemma GrantRecords(s: Server, m: Msg, force: bool, env: Env)
    requires Wf(s) && m.src in s.peers && GrantsVote(s, m, force, env) && s.currentEpoch == m.currentEpoch
    ensures var (t, out) := ProcessAuthRequest(s, m, force, env);
            && |out| == 1 && out[0].kind.AuthAck? && out[0].src == s.me && out[0].dst == m.src
            && out[0].currentEpoch == m.currentEpoch == t.lastVoteEpoch == t.currentEpoch
            && t.tables == s.tables && t.auth == s.auth && t.peers.Keys == s.peers.Keys
            && t.peers[s.peers[m.src].slaveof.name].votedTime == env.now
  {
    hide SlotsOf;
  }

  /** An acknowledgement leaves if and only if the server may vote; it goes to the candidate and names
      the epoch of the request, and the vote is on record before it leaves. */
  lemma VoteIsExact(s: Server, m: Msg, env: Env)
    requires Wf(s)
    ensures var (t, out) := Receive(s, m, env);
            && (!NoAck(out) <==> MayVote(s, m, env))
            && (MayVote(s, m, env) ==> Voted(s, m, env, t, out))
            && (!MayVote(s, m, env) ==> t.lastVoteEpoch == s.lastVoteEpoch && (m.kind.AuthRequest? ==> out == []))
  {
    if !m.kind.AuthRequest? {
      OthersSendNoAck(s, m, env);
    } else if m.src in s.peers {
      HeaderKeeps(s, m);
      GrantMeans(s, m, env);
      var t := ProcessHeader(s, m);
      if MayVote(s, m, env) {
        GrantRecords(t, m, m.kind.force, env);
      }
      hide GrantsVote, Wf, ClaimIsCurrent, Serves;
    }
  }

  /** The step in which a vote was cast. */
  ghost predicate CastAt(sys: System, step: Step, v: Vote) {
    && step.Deliver? && step.m.dst in sys.nodes && Wf(sys.nodes[step.m.dst])
    && v == Vote(step.m.dst, step.m.currentEpoch, step.m.src)
    && MayVote(sys.nodes[step.m.dst], step.m, step.env)
  }

  /** A step records exactly the vote that it casts, and sends it. */
  lemma StepVotes(sys: System, step: Step, v: Vote)
    requires AllWf(sys) && Enabled(sys, step)
    ensures v in Next(sys, step).votes <==> v in sys.votes || CastAt(sys, step, v)
    ensures CastAt(sys, step, v) ==>
              exists o <- Next(sys, step).net ::
                o.kind.AuthAck? && o.src == v.voter && o.dst == v.candidate && o.currentEpoch == v.epoch
  {
    hide FailoverTick, Decide, Apply, HardReset, Receive, MayVote, CommandEnabled, Requests;
    if step.Deliver? {
      var m := step.m;
      VoteIsExact(sys.nodes[m.dst], m, step.env);
      AuthOnly(sys.nodes[m.dst], m, step.env);
      var out := Receive(sys.nodes[m.dst], m, step.env).1;
      if CastAt(sys, step, v) {
        assert out[0] in Next(sys, step).net;
      }
    }
  }

  lemma AuthOnly(s: Server, m: Msg, env: Env)
    requires Wf(s)
    ensures MayVote(s, m, env) ==> m.kind.AuthRequest?
  {
  }

  lemma VotesAt(states: seq<System>, steps: seq<Step>, k: nat, v: Vote)
    requires Run(states, steps) && k + 1 < |states| && v in states[k + 1].votes
    ensures k < |steps| && (v in states[k].votes || CastAt(states[k], steps[k], v))
  {
    assert Takes(states[k], steps[k], states[k + 1]);
    StepVotes(states[k], steps[k], v);
  }

  /** Every vote of a run was cast by a master that served slots and had the reasons to cast it. */
  lemma {:induction false} VotesAreEarned(states: seq<System>, steps: seq<Step>, k: nat, v: Vote) returns (i: nat)
    requires Run(states, steps) && states[0].votes == {} && k < |states| && v in states[k].votes
    ensures i < k && i < |steps| && CastAt(states[i], steps[i], v)
  {
    if k == 0 {
      assert false;
    } else {
      hide *;
      VotesAt(states, steps, k - 1, v);
      if v in states[k - 1].votes {
        i := VotesAreEarned(states, steps, k - 1, v);
      } else {
        i := k - 1;
      }
    }
  }

  // ---------------------------------------------------------------------------------------
  // Without a manual failover
  // ---------------------------------------------------------------------------------------

  ghost predicate Unforced(sys: System, n: Name) {
    forall m <- sys.net :: m.kind.AuthRequest? && m.src == n ==> !m.kind.force
  }

  /** The server never was in a manual failover. */
  ghost predicate NeverManual(states: seq<System>, n: Name) {
    forall i :: 0 <= i < |states| && n in states[i].nodes ==> states[i].nodes[n].mf.end == 0
  }

  lemma TickKeepsManual(s: Server, env: Env)
    requires Wf(s) && Decide(s, env).Ask?
    ensures FailoverTick(s, env).mf == s.mf && FailoverTick(s, env).me == s.me
  {
  }

  lemma StepUnforced(sys: System, step: Step, n: Name)
    requires AllWf(sys) && Enabled(sys, step) && Unforced(sys, n) && (n in sys.nodes ==> sys.nodes[n].mf.end == 0)
    ensures Unforced(Next(sys, step), n)
  {
    hide Receive, FailoverTick, Decide, Apply, HardReset, MayVote, CommandEnabled, Wf;
    match step
    case Deliver(m, env) => NoRequests(sys.nodes[m.dst], m, env);
    case Tick(p, env) =>
      if Decide(sys.nodes[p], env).Ask? {
        TickKeepsManual(sys.nodes[p], env);
      }
    case _ =>
  }

  lemma PingSendsNoRequest(s: Server, m: Msg)
    requires Wf(s) && m.src in s.peers
    ensures forall o <- ProcessPing(s, m).1 :: !o.kind.AuthRequest?
  {
    SwitchRoleWf(s, m);
    UpdateSlotsConfigWf(SwitchRole(s, m), m.src, m.configEpoch, m.myslots);
    hide SwitchRole, UpdateSlotsConfigWith, Dirty, HandleCollision, FirstOutdated, Wf;
  }

  lemma NoRequests(s: Server, m: Msg, env: Env)
    requires Wf(s)
    ensures forall o <- Receive(s, m, env).1 :: !o.kind.AuthRequest?
  {
    if m.src in s.peers {
      ProcessHeaderWf(s, m);
      if m.kind.Ping? {
        PingSendsNoRequest(ProcessHeader(s, m), m);
      }
      hide ProcessPing, ProcessHeader, ProcessUpdate, GrantsVote, Wf;
    }
  }

  lemma {:induction false} RunUnforced(states: seq<System>, steps: seq<Step>, n: Name, k: nat)
    requires Run(states, steps) && states[0].net == multiset{} && NeverManual(states, n) && k < |states|
    ensures Unforced(states[k], n)
  {
    if k > 0 {
      RunUnforced(states, steps, n, k - 1);
      assert Takes(states[k - 1], steps[k - 1], states[k]);
      StepUnforced(states[k - 1], steps[k - 1], n);
    }
  }

  /** The voter held the master of the candidate for failed. */
  ghost predicate SawFailure(s: Server, candidate: Name) {
    && candidate in s.peers && s.peers[candidate].slaveof.To?
    && s.peers[candidate].slaveof.name in s.peers && s.peers[s.peers[candidate].slaveof.name].failed
  }

  /** A replica that wins without a manual failover was counted by a majority each of which served
      slots and held its master for failed when it voted. */
  lemma WinnerWasNeeded(states: seq<System>, steps: seq<Step>, k: nat, w: Victory, v: Name) returns (i: nat)
    requires Run(states, steps) && Started(states[0]) && NoHardReset(steps) && NoDuplicates(steps) && k < |states|
    requires w in states[k].wins && w.stale == 0 && NeverManual(states, w.replica) && v in w.counted
    ensures |w.counted| >= w.size / 2 + 1
    ensures i < k && i < |steps| && CastAt(states[i], steps[i], Vote(v, w.epoch, w.replica))
    ensures SawFailure(states[i].nodes[v], w.replica) && Serves(states[i].nodes[v], v)
  {
    RunElection(states, steps, k);
    assert WonFairly(states[k].votes, w);
    i := VotesAreEarned(states, steps, k, Vote(v, w.epoch, w.replica));
    RunUnforced(states, steps, w.replica, i);
    assert Takes(states[i], steps[i], states[i + 1]);
  }
}
