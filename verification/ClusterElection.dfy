/** Election safety: in every run without duplicated messages and hard resets, the votes a
    replica counts are votes cast for it in the epoch it asks for, and two replicas never both
    reach the quorum in one epoch as long as no acknowledgement is counted before the epoch it
    is counted in has begun. */
module ClusterElection {
  import opened ClusterNode
  import opened ClusterEpochs
  import opened ClusterProtocol

  ghost predicate OneVotePerEpoch(votes: set<Vote>) {
    forall v, w :: v in votes && w in votes && v.voter == w.voter && v.epoch == w.epoch ==> v == w
  }

  /** A recorded vote is not ahead of its voter, nor of the election of its candidate. */
  ghost predicate VotesKnown(sys: System) {
    forall v <- sys.votes ::
      && v.voter in sys.nodes && v.epoch <= sys.nodes[v.voter].lastVoteEpoch
      && v.candidate in sys.nodes && v.epoch <= sys.nodes[v.candidate].auth.epoch
  }

  ghost predicate RequestsKnown(sys: System) {
    forall m <- sys.net :: m.kind.AuthRequest? ==>
      m.src in sys.nodes && m.currentEpoch <= sys.nodes[m.src].auth.epoch
  }

  /** An acknowledgement in flight carries one recorded vote, not counted yet, and no other
      message carries the same vote. */
  ghost predicate AckKnown(sys: System, m: Msg) {
    && Vote(m.src, m.currentEpoch, m.dst) in sys.votes
    && sys.net[m] == 1
    && (m.dst in sys.nodes && m.dst in sys.tally && m.currentEpoch == sys.nodes[m.dst].auth.epoch
        ==> m.src !in sys.tally[m.dst].counted)
  }

  ghost predicate SameVote(m: Msg, m': Msg) {
    m.kind.AuthAck? && m'.kind.AuthAck? && m.src == m'.src && m.currentEpoch == m'.currentEpoch
  }

  ghost predicate AcksKnown(sys: System) {
    && (forall m <- sys.net :: m.kind.AuthAck? ==> AckKnown(sys, m))
    && forall m, m' :: m in sys.net && m' in sys.net && SameVote(m, m') ==> m == m'
  }

  /** The counter is exactly the distinct voters of this epoch plus the acknowledgements that
      were counted before the epoch began. */
  ghost predicate Tallied(sys: System, n: Name)
    requires n in sys.nodes && n in sys.tally
  {
    var s := sys.nodes[n];
    && s.auth.count == |sys.tally[n].counted| + sys.tally[n].stale
    && forall v <- sys.tally[n].counted :: Vote(v, s.auth.epoch, n) in sys.votes
  }

  ghost predicate WonFairly(votes: set<Vote>, w: Victory) {
    && |w.counted| + w.stale >= w.size / 2 + 1
    && forall v <- w.counted :: Vote(v, w.epoch, w.replica) in votes
  }

  ghost predicate ElectionInv(sys: System) {
    && sys.tally.Keys == sys.nodes.Keys
    && (forall n <- sys.nodes :: sys.nodes[n].auth.epoch <= sys.nodes[n].currentEpoch)
    && OneVotePerEpoch(sys.votes)
    && VotesKnown(sys)
    && RequestsKnown(sys)
    && AcksKnown(sys)
    && (forall n <- sys.nodes :: Tallied(sys, n))
    && forall w <- sys.wins :: WonFairly(sys.votes, w)
  }

  // ---------------------------------------------------------------------------------------
  // What each kind of step does to the election
  // ---------------------------------------------------------------------------------------

  ghost predicate SameCount(a: Election, b: Election) {
    a.count == b.count && a.epoch == b.epoch && a.sent == b.sent
  }

  /** The same servers; every election but that of `n` is as it was and no vote is forgotten. */
  ghost predicate OnlyAt(sys: System, n: Name, sys': System) {
    && sys'.nodes.Keys == sys.nodes.Keys && sys'.tally.Keys == sys.tally.Keys
    && forall k <- sys.nodes ::
         && sys.nodes[k].currentEpoch <= sys'.nodes[k].currentEpoch
         && sys.nodes[k].lastVoteEpoch <= sys'.nodes[k].lastVoteEpoch
         && (k != n && k in sys.tally ==>
               SameCount(sys.nodes[k].auth, sys'.nodes[k].auth) && sys'.tally[k] == sys.tally[k])
  }

  ghost predicate SameElectionAt(sys: System, n: Name, sys': System)
    requires n in sys.nodes && n in sys'.nodes && n in sys.tally && n in sys'.tally
  {
    SameCount(sys.nodes[n].auth, sys'.nodes[n].auth) && sys'.tally[n] == sys.tally[n]
  }

  /** Nothing that concerns elections happened, except that messages came and went. */
  lemma QuietStep(sys: System, n: Name, sys': System)
    requires ElectionInv(sys) && n in sys.nodes && OnlyAt(sys, n, sys') && SameElectionAt(sys, n, sys')
    requires sys'.votes == sys.votes && sys'.wins == sys.wins
    requires forall m <- sys'.net :: (m.kind.AuthAck? || m.kind.AuthRequest?) ==> sys'.net[m] <= sys.net[m]
    ensures ElectionInv(sys')
  {
  }

  /** The acknowledgement of a vote in a new epoch is unlike any message in flight, and its
      voter has not been counted by the candidate in that epoch. */
  lemma FreshAck(sys: System, ack: Msg)
    requires ElectionInv(sys) && ack.kind.AuthAck? && ack.src in sys.nodes
    requires sys.nodes[ack.src].lastVoteEpoch < ack.currentEpoch
    ensures ack !in sys.net && forall o <- sys.net :: !SameVote(ack, o)
    ensures forall v <- sys.votes :: v.voter == ack.src ==> v.epoch < ack.currentEpoch
    ensures ack.dst in sys.nodes && ack.currentEpoch == sys.nodes[ack.dst].auth.epoch ==>
              ack.src !in sys.tally[ack.dst].counted
  {
    forall o <- sys.net
      ensures !SameVote(ack, o)
    {
      if o.kind.AuthAck? {
        assert AckKnown(sys, o);
      }
    }
    assert ack.dst in sys.nodes ==> Tallied(sys, ack.dst);
  }

  lemma GrantAcks(sys: System, m: Msg, ack: Msg, sys': System)
    requires ElectionInv(sys) && ack.kind.AuthAck? && !m.kind.AuthAck? && ack.src in sys.nodes
    requires OnlyAt(sys, ack.src, sys') && SameElectionAt(sys, ack.src, sys')
    requires sys.nodes[ack.src].lastVoteEpoch < ack.currentEpoch
    requires sys'.votes == sys.votes + {Vote(ack.src, ack.currentEpoch, ack.dst)}
    requires sys'.net == sys.net - multiset{m} + multiset{ack}
    ensures AcksKnown(sys')
  {
    FreshAck(sys, ack);
    forall o <- sys'.net | o.kind.AuthAck?
      ensures AckKnown(sys', o)
    {
      if o != ack {
        assert AckKnown(sys, o);
      }
    }
  }

  /** A vote is new: its epoch is beyond every epoch its voter has voted in. */
  lemma GrantStep(sys: System, m: Msg, ack: Msg, sys': System)
    requires ElectionInv(sys) && m in sys.net && m.kind.AuthRequest? && m.dst in sys.nodes
    requires OnlyAt(sys, m.dst, sys') && SameElectionAt(sys, m.dst, sys')
    requires ack.kind.AuthAck? && ack.src == m.dst && ack.dst == m.src
    requires ack.currentEpoch == m.currentEpoch == sys'.nodes[m.dst].lastVoteEpoch
    requires sys.nodes[m.dst].lastVoteEpoch < m.currentEpoch
    requires sys'.votes == sys.votes + {Vote(m.dst, m.currentEpoch, m.src)} && sys'.wins == sys.wins
    requires sys'.net == sys.net - multiset{m} + multiset{ack}
    ensures ElectionInv(sys')
  {
    FreshAck(sys, ack);
    GrantAcks(sys, m, ack, sys');
    hide AcksKnown;
  }

  /** A counted acknowledgement is a vote cast for this replica in the epoch it asks for. */
  lemma CountedAckIsAVote(sys: System, m: Msg)
    requires ElectionInv(sys) && m in sys.net && m.kind.AuthAck? && m.dst in sys.nodes
    requires m.currentEpoch >= sys.nodes[m.dst].auth.epoch
    ensures m.currentEpoch == sys.nodes[m.dst].auth.epoch
    ensures Vote(m.src, sys.nodes[m.dst].auth.epoch, m.dst) in sys.votes
    ensures m.src !in sys.tally[m.dst].counted
  {
    assert AckKnown(sys, m);
  }

  lemma CountStep(sys: System, m: Msg, sys': System)
    requires ElectionInv(sys) && m in sys.net && m.kind.AuthAck? && m.dst in sys.nodes
    requires m.currentEpoch >= sys.nodes[m.dst].auth.epoch
    requires OnlyAt(sys, m.dst, sys') && sys'.votes == sys.votes && sys'.wins == sys.wins
    requires sys'.nodes[m.dst].auth == sys.nodes[m.dst].auth.(count := sys.nodes[m.dst].auth.count + 1)
    requires sys'.tally[m.dst] == sys.tally[m.dst].(counted := sys.tally[m.dst].counted + {m.src})
    requires sys'.net == sys.net - multiset{m}
    ensures ElectionInv(sys')
  {
    CountedAckIsAVote(sys, m);
    assert m !in sys'.net;
    forall o <- sys'.net | o.kind.AuthAck?
      ensures AckKnown(sys', o)
    {
      assert AckKnown(sys, o);
      assert !SameVote(m, o);
    }
  }

  /** The counter is cleared; the epoch is still the old one. */
  lemma ScheduleStep(sys: System, n: Name, sys': System)
    requires ElectionInv(sys) && n in sys.nodes && OnlyAt(sys, n, sys')
    requires sys'.votes == sys.votes && sys'.wins == sys.wins && sys'.net == sys.net
    requires sys'.nodes[n].auth.epoch == sys.nodes[n].auth.epoch && sys'.nodes[n].auth.count == 0
    requires sys'.tally[n] == Tally({}, 0)
    ensures ElectionInv(sys')
  {
  }

  /** A new epoch begins: whatever is on the counter was counted before. */
  lemma AskStep(sys: System, n: Name, sys': System)
    requires ElectionInv(sys) && n in sys.nodes && OnlyAt(sys, n, sys')
    requires sys'.votes == sys.votes && sys'.wins == sys.wins
    requires sys.nodes[n].auth.epoch <= sys'.nodes[n].auth.epoch <= sys'.nodes[n].currentEpoch
    requires sys'.nodes[n].auth.count == sys.nodes[n].auth.count
    requires sys'.tally[n] == Tally({}, sys.nodes[n].auth.count)
    requires forall m <- sys'.net :: sys'.net[m] == sys.net[m]
               || (m.kind.AuthRequest? && m.src == n && m.currentEpoch <= sys'.nodes[n].auth.epoch)
    ensures ElectionInv(sys')
  {
  }

  lemma WinStep(sys: System, n: Name, sys': System)
    requires ElectionInv(sys) && n in sys.nodes && OnlyAt(sys, n, sys') && SameElectionAt(sys, n, sys')
    requires sys.nodes[n].auth.count >= NeededQuorum(sys.nodes[n])
    requires sys'.votes == sys.votes && sys'.net == sys.net
    requires sys'.wins == sys.wins
               + {Victory(n, sys.nodes[n].auth.epoch, sys.nodes[n].size, sys.tally[n].counted, sys.tally[n].stale)}
    ensures ElectionInv(sys')
  {
  }

  // ---------------------------------------------------------------------------------------
  // Every step of the machine is one of these
  // ---------------------------------------------------------------------------------------

  lemma DeliverOnlyAt(sys: System, m: Msg, env: Env)
    requires EpochInv(sys) && m in sys.net && m.dst in sys.nodes
    ensures OnlyAt(sys, m.dst, DeliverTo(sys, m, env))
  {
    ReceiveEpochs(sys.nodes[m.dst], m, env);
  }

  lemma DeliverRequest(sys: System, m: Msg, env: Env)
    requires EpochInv(sys) && ElectionInv(sys) && m in sys.net && m.dst in sys.nodes
    requires m.kind.AuthRequest? && Receive(sys.nodes[m.dst], m, env).1 != []
    ensures ElectionInv(DeliverTo(sys, m, env))
  {
    var s := sys.nodes[m.dst];
    var out := Receive(s, m, env).1;
    ReceiveElection(s, m, env);
    ReceiveEpochs(s, m, env);
    DeliverOnlyAt(sys, m, env);
    assert out == [out[0]];
    GrantStep(sys, m, out[0], DeliverTo(sys, m, env));
  }

  ghost predicate Counts(s: Server, m: Msg) {
    Wf(s) && m.kind.AuthAck? && m.src in s.peers && CountsAck(ProcessHeader(s, m), m)
  }

  lemma DeliverAck(sys: System, m: Msg, env: Env)
    requires EpochInv(sys) && ElectionInv(sys) && m in sys.net && m.dst in sys.nodes
    requires Counts(sys.nodes[m.dst], m)
    ensures ElectionInv(DeliverTo(sys, m, env))
  {
    ReceiveElection(sys.nodes[m.dst], m, env);
    DeliverOnlyAt(sys, m, env);
    CountStep(sys, m, DeliverTo(sys, m, env));
  }

  lemma DeliverOther(sys: System, m: Msg, env: Env)
    requires EpochInv(sys) && ElectionInv(sys) && m in sys.net && m.dst in sys.nodes
    requires !(m.kind.AuthRequest? && Receive(sys.nodes[m.dst], m, env).1 != [])
    requires !Counts(sys.nodes[m.dst], m)
    ensures ElectionInv(DeliverTo(sys, m, env))
  {
    ReceiveElection(sys.nodes[m.dst], m, env);
    ReceiveEpochs(sys.nodes[m.dst], m, env);
    DeliverOnlyAt(sys, m, env);
    QuietStep(sys, m.dst, DeliverTo(sys, m, env));
  }

  lemma DeliverElection(sys: System, m: Msg, env: Env)
    requires EpochInv(sys) && ElectionInv(sys) && m in sys.net && m.dst in sys.nodes
    ensures ElectionInv(DeliverTo(sys, m, env))
  {
    if m.kind.AuthRequest? && Receive(sys.nodes[m.dst], m, env).1 != [] {
      DeliverRequest(sys, m, env);
    } else if Counts(sys.nodes[m.dst], m) {
      DeliverAck(sys, m, env);
    } else {
      DeliverOther(sys, m, env);
    }
  }

  lemma OneMoved(sys: System, n: Name, t: Server, r: Tally, sys': System)
    requires n in sys.nodes && sys.tally.Keys == sys.nodes.Keys && Advances(sys.nodes[n], t)
    requires sys'.nodes == sys.nodes[n := t] && sys'.tally == sys.tally[n := r]
    ensures OnlyAt(sys, n, sys')
  {
  }

  lemma TickOnlyAt(sys: System, n: Name, env: Env)
    requires EpochInv(sys) && n in sys.nodes
    ensures OnlyAt(sys, n, TickAt(sys, n, env))
  {
    var sys' := TickAt(sys, n, env);
    TickEpochs(sys.nodes[n], env);
    assert sys.tally == sys.tally[n := sys.tally[n]];
    OneMoved(sys, n, FailoverTick(sys.nodes[n], env), sys'.tally[n], sys');
  }

  lemma TickAsk(sys: System, n: Name, env: Env)
    requires EpochInv(sys) && ElectionInv(sys) && n in sys.nodes && Decide(sys.nodes[n], env).Ask?
    ensures ElectionInv(TickAt(sys, n, env))
  {
    TickOnlyAt(sys, n, env);
    AskStep(sys, n, TickAt(sys, n, env));
  }

  lemma TickElection(sys: System, n: Name, env: Env)
    requires EpochInv(sys) && ElectionInv(sys) && n in sys.nodes
    ensures ElectionInv(TickAt(sys, n, env))
  {
    var sys' := TickAt(sys, n, env);
    TickOnlyAt(sys, n, env);
    hide ElectionInv, EpochInv, OnlyAt, Wf, Requests;
    match Decide(sys.nodes[n], env)
    case Schedule => ScheduleStep(sys, n, sys');
    case Ask => TickAsk(sys, n, env);
    case Win => WinStep(sys, n, sys');
    case _ => QuietStep(sys, n, sys');
  }

  lemma LocalElection(sys: System, n: Name, c: Command)
    requires EpochInv(sys) && ElectionInv(sys) && n in sys.nodes && CommandEnabled(sys.nodes[n], c)
    ensures ElectionInv(sys.(nodes := sys.nodes[n := Apply(sys.nodes[n], c)]))
  {
    ApplyEpochs(sys.nodes[n], c);
    QuietStep(sys, n, sys.(nodes := sys.nodes[n := Apply(sys.nodes[n], c)]));
  }

  lemma NetElection(sys: System, net: multiset<Msg>)
    requires ElectionInv(sys)
    requires forall m <- net :: m.kind.AuthAck? || m.kind.AuthRequest? ==> net[m] <= sys.net[m]
    ensures ElectionInv(sys.(net := net))
  {
  }

  /** Neither the network nor the operator can forge or repeat a vote. */
  lemma StepElection(sys: System, step: Step)
    requires EpochInv(sys) && ElectionInv(sys) && Enabled(sys, step)
    requires !step.Duplicate? && !step.ResetHard?
    ensures ElectionInv(Next(sys, step))
  {
    match step
    case Deliver(m, env) => DeliverElection(sys, m, env);
    case Tick(n, env) => TickElection(sys, n, env);
    case Local(n, c) => LocalElection(sys, n, c);
    case SendPing(n, dst, reply) => NetElection(sys, Next(sys, step).net);
    case Drop(m) => NetElection(sys, Next(sys, step).net);
  }

  // ---------------------------------------------------------------------------------------
  // Whole runs
  // ---------------------------------------------------------------------------------------

  ghost predicate NoDuplicates(steps: seq<Step>) {
    forall i :: 0 <= i < |steps| ==> !steps[i].Duplicate?
  }

  lemma StartedElection(sys: System)
    requires Started(sys)
    ensures ElectionInv(sys)
  {
  }

  /** In every state of every run, a replica's counter is exactly the distinct masters that voted
      for it in its election epoch plus what it had counted before that epoch. */
  lemma {:induction false} RunElection(states: seq<System>, steps: seq<Step>, k: nat)
    requires Run(states, steps) && Started(states[0]) && NoHardReset(steps) && NoDuplicates(steps)
    requires k < |states|
    ensures EpochInv(states[k]) && ElectionInv(states[k])
  {
    if k == 0 {
      StartedElection(states[0]);
    } else {
      RunElection(states, steps, k - 1);
      assert QuietResets(states, steps);
      RunEpochs(states, steps, k);
      assert Takes(states[k - 1], steps[k - 1], states[k]);
      StepElection(states[k - 1], steps[k - 1]);
    }
  }

  /** No acknowledgement arrives between the reset of the counter and the start of the epoch. */
  ghost predicate Punctual(sys: System, step: Step) {
    step.Deliver? && step.m.kind.AuthAck? && step.m.dst in sys.nodes ==> sys.nodes[step.m.dst].auth.sent
  }

  ghost predicate AllPunctual(states: seq<System>, steps: seq<Step>) {
    forall i :: 0 <= i < |steps| && i < |states| ==> Punctual(states[i], steps[i])
  }

  ghost predicate NothingStale(sys: System) {
    && sys.tally.Keys == sys.nodes.Keys
    && (forall n <- sys.nodes :: !sys.nodes[n].auth.sent ==> sys.nodes[n].auth.count == 0)
    && (forall n <- sys.tally :: sys.tally[n].stale == 0)
    && forall w <- sys.wins :: w.stale == 0
  }

  lemma StaleMoved(sys: System, n: Name, t: Server, y: Tally, sys': System)
    requires NothingStale(sys) && n in sys.nodes
    requires !t.auth.sent ==> t.auth.count == 0
    requires y.stale == 0 && sys'.nodes == sys.nodes[n := t] && sys'.tally == sys.tally[n := y]
    requires forall w <- sys'.wins :: w in sys.wins || w.stale == 0
    ensures NothingStale(sys')
  {
  }

  lemma DeliverStale(sys: System, m: Msg, env: Env)
    requires EpochInv(sys) && NothingStale(sys) && m in sys.net && m.dst in sys.nodes
    requires m.kind.AuthAck? ==> sys.nodes[m.dst].auth.sent
    ensures NothingStale(DeliverTo(sys, m, env))
  {
    ReceiveElection(sys.nodes[m.dst], m, env);
    hide Receive, EpochInv, Wf;
    StaleMoved(sys, m.dst, Receive(sys.nodes[m.dst], m, env).0, CountVoter(sys.tally[m.dst], sys.nodes[m.dst], m),
               DeliverTo(sys, m, env));
  }

  /** What a tick does to the count of one server. */
  lemma TickCount(s: Server, env: Env)
    requires Wf(s) && (!s.auth.sent ==> s.auth.count == 0)
    ensures var t := FailoverTick(s, env); !t.auth.sent ==> t.auth.count == 0
    ensures Decide(s, env).Ask? ==> s.auth.count == 0
  {
    hide Wf;
  }

  lemma TickStale(sys: System, n: Name, env: Env)
    requires EpochInv(sys) && NothingStale(sys) && n in sys.nodes
    ensures NothingStale(TickAt(sys, n, env))
  {
    var sys' := TickAt(sys, n, env);
    TickCount(sys.nodes[n], env);
    assert sys.tally == sys.tally[n := sys.tally[n]];
    StaleMoved(sys, n, FailoverTick(sys.nodes[n], env), sys'.tally[n], sys') by {
      hide EpochInv, FailoverTick, Decide, Requests, Wf;
    }
  }

  lemma StepStale(sys: System, step: Step)
    requires EpochInv(sys) && NothingStale(sys) && Enabled(sys, step)
    requires Punctual(sys, step) && !step.ResetHard?
    ensures NothingStale(Next(sys, step))
  {
    match step
    case Deliver(m, env) => DeliverStale(sys, m, env);
    case Tick(n, env) => TickStale(sys, n, env);
    case Local(n, c) => ApplyEpochs(sys.nodes[n], c);
    case _ =>
  }

  lemma {:induction false} RunStale(states: seq<System>, steps: seq<Step>, k: nat)
    requires Run(states, steps) && Started(states[0]) && NoHardReset(steps)
    requires AllPunctual(states, steps) && k < |states|
    ensures NothingStale(states[k])
  {
    if k > 0 {
      RunStale(states, steps, k - 1);
      assert QuietResets(states, steps);
      RunEpochs(states, steps, k - 1);
      assert Takes(states[k - 1], steps[k - 1], states[k]);
      assert Punctual(states[k - 1], steps[k - 1]);
      StepStale(states[k - 1], steps[k - 1]);
    }
  }

  /** In each epoch the votes come from an agreed set of masters, and winners use its size. */
  ghost predicate Agreed(sys: System, electorate: nat -> set<Name>) {
    && (forall v <- sys.votes :: v.voter in electorate(v.epoch))
    && forall w <- sys.wins :: w.size == |electorate(w.epoch)|
  }

  /** Whoever grants a vote in an epoch sees the masters of that epoch, and whoever wins it counts
      them right. */
  ghost predicate ViewsAgree(sys: System, step: Step, electorate: nat -> set<Name>)
    requires AllWf(sys) && Enabled(sys, step)
  {
    match step
    case Deliver(m, env) =>
      var s := sys.nodes[m.dst];
      var (t, out) := Receive(s, m, env);
      m.kind.AuthRequest? && out != [] ==> Serving(s) == electorate(t.lastVoteEpoch)
    case Tick(n, env) =>
      var s := sys.nodes[n];
      Decide(s, env).Win? ==> s.size == |electorate(s.auth.epoch)|
    case _ => true
  }

  /** A server that grants a vote serves slots in its own view. */
  lemma VoterServes(s: Server, m: Msg, env: Env)
    requires Wf(s) && m.kind.AuthRequest? && Receive(s, m, env).1 != []
    ensures s.me in Serving(s)
  {
    var t := ProcessHeader(s, m);
    ProcessHeaderWf(s, m);
    assert t.me == s.me && t.tables == s.tables && t.peers[s.me].master == s.peers[s.me].master;
  }

  lemma StepAgreed(sys: System, step: Step, electorate: nat -> set<Name>)
    requires AllWf(sys) && Enabled(sys, step) && Agreed(sys, electorate) && ViewsAgree(sys, step, electorate)
    ensures Agreed(Next(sys, step), electorate)
  {
    hide Receive, FailoverTick, Apply, HardReset;
    match step
    case Deliver(m, env) =>
      if m.kind.AuthRequest? && Receive(sys.nodes[m.dst], m, env).1 != [] {
        VoterServes(sys.nodes[m.dst], m, env);
      }
    case _ =>
  }

  ghost predicate AllViewsAgree(states: seq<System>, steps: seq<Step>, electorate: nat -> set<Name>)
    requires Run(states, steps)
  {
    forall i :: 0 <= i < |steps| ==>
      Takes(states[i], steps[i], states[i + 1]) && ViewsAgree(states[i], steps[i], electorate)
  }

  /** The agreement on the electorate follows from the views of the servers at their votes and wins. */
  lemma {:induction false} RunAgreed(states: seq<System>, steps: seq<Step>, electorate: nat -> set<Name>, k: nat)
    requires Run(states, steps) && Started(states[0]) && AllViewsAgree(states, steps, electorate) && k < |states|
    ensures Agreed(states[k], electorate)
  {
    if k > 0 {
      RunAgreed(states, steps, electorate, k - 1);
      assert Takes(states[k - 1], steps[k - 1], states[k]) && ViewsAgree(states[k - 1], steps[k - 1], electorate);
      StepAgreed(states[k - 1], steps[k - 1], electorate);
    }
  }

  /** In particular when all servers see one fixed set of masters. */
  lemma FixedViewsAgree(states: seq<System>, steps: seq<Step>, masters: set<Name>, k: nat)
    requires Run(states, steps) && Started(states[0]) && k < |states|
    requires forall i :: 0 <= i < |steps| ==> SeesOnly(states[i], masters)
    ensures Agreed(states[k], e => masters)
  {
    forall i | 0 <= i < |steps|
      ensures Takes(states[i], steps[i], states[i + 1]) && ViewsAgree(states[i], steps[i], e => masters)
    {
      assert SeesOnly(states[i], masters);
    }
    RunAgreed(states, steps, e => masters, k);
  }

  ghost predicate SeesOnly(sys: System, masters: set<Name>) {
    forall n <- sys.nodes :: Serving(sys.nodes[n]) == masters && sys.nodes[n].size == |masters|
  }

  lemma MajoritiesMeet(all: set<Name>, a: set<Name>, b: set<Name>) returns (v: Name)
    requires a <= all && b <= all
    requires |a| >= |all| / 2 + 1 && |b| >= |all| / 2 + 1
    ensures v in a && v in b
  {
    if !exists x :: x in a && x in b {
      assert a * b == {};
      assert |a + b| == |a| + |b|;
      SubsetSize(a + b, all);
      assert false;
    }
    v :| v in a && v in b;
  }

  lemma SubsetSize(a: set<Name>, b: set<Name>)
    requires a <= b
    ensures |a| <= |b|
  {
    assert a + (b - a) == b;
  }

  /** Two victories of one epoch are of one replica. */
  lemma UniqueWinner(sys: System, electorate: nat -> set<Name>, w: Victory, w': Victory)
    requires ElectionInv(sys) && Agreed(sys, electorate) && w.stale == 0 && w'.stale == 0
    requires w in sys.wins && w' in sys.wins && w.epoch == w'.epoch
    ensures w.replica == w'.replica
  {
    assert WonFairly(sys.votes, w) && WonFairly(sys.votes, w');
    forall x, v | x in {w, w'} && v in x.counted
      ensures v in electorate(w.epoch)
    {
      assert Vote(v, x.epoch, x.replica) in sys.votes;
    }
    var v := MajoritiesMeet(electorate(w.epoch), w.counted, w'.counted);
    assert Vote(v, w.epoch, w.replica) in sys.votes && Vote(v, w.epoch, w'.replica) in sys.votes;
  }

  /** Without any assumption on timing: two replicas that both win an epoch did so on an acknowledgement
      counted before the epoch began. */
  lemma SplitNeedsStale(states: seq<System>, steps: seq<Step>, electorate: nat -> set<Name>,
                        k: nat, w: Victory, w': Victory)
    requires Run(states, steps) && Started(states[0]) && NoHardReset(steps) && NoDuplicates(steps)
    requires k < |states| && Agreed(states[k], electorate)
    requires w in states[k].wins && w' in states[k].wins && w.epoch == w'.epoch && w.replica != w'.replica
    ensures w.stale + w'.stale > 0
  {
    RunElection(states, steps, k);
    if w.stale == 0 && w'.stale == 0 {
      UniqueWinner(states[k], electorate, w, w');
    }
  }

  /** Election safety over whole runs. */
  lemma ElectionSafety(states: seq<System>, steps: seq<Step>, electorate: nat -> set<Name>,
                       k: nat, w: Victory, w': Victory)
    requires Run(states, steps) && Started(states[0]) && NoHardReset(steps) && NoDuplicates(steps)
    requires AllPunctual(states, steps) && k < |states| && Agreed(states[k], electorate)
    requires w in states[k].wins && w' in states[k].wins && w.epoch == w'.epoch
    ensures w.replica == w'.replica
  {
    RunElection(states, steps, k);
    RunStale(states, steps, k);
    UniqueWinner(states[k], electorate, w, w');
  }
}
