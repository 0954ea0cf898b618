/** Election safety needs the assumption on acknowledgements: a run in which one arrives late,
    after its replica cleared its counter and before it began the next epoch, and in which two
    replicas of the only voting master then win the same epoch. */
module ClusterSplitVote {
  import opened ClusterNode
  import opened ClusterEpochs
  import opened ClusterProtocol
  import opened ClusterElection

  const FORCED := Manual(9000, true)

  function Clock(now: int): Env {
    Env(now, 0, 0, false, false, 1000)
  }

  /** Node 1 is the master of slot 0; nodes 2 and 3 are its replicas. */
  function Table(): Tables {
    Tables(seq(SLOTS, j => if j == 0 then To(1) else Null), ClosedSlots(), ClosedSlots(), {})
  }

  function Nodes(voted: int): map<Name, Peer> {
    map[1 := Peer(true, Null, 0, false, 0, voted),
        2 := Peer(false, To(1), 0, false, 0, 0),
        3 := Peer(false, To(1), 0, false, 0, 0)]
  }

  function Voter(current: nat, last: nat, voted: int): Server {
    Server(1, Nodes(voted), Table(), current, last, Election(0, 0, false, 0, 0), 1, Manual(0, false),
            Config(true, false))
  }

  function Replica(me: Name, current: nat, auth: Election, mf: Manual): Server {
    Server(me, Nodes(0), Table(), current, 0, auth, 1, mf, Config(true, false))
  }

  function Request(src: Name, dst: Name, epoch: nat): Msg {
    Msg(AuthRequest(true), src, dst, epoch, 0, {0}, To(1))
  }

  function Ack(dst: Name, epoch: nat): Msg {
    Msg(AuthAck, 1, dst, epoch, 0, {0}, Null)
  }

  lemma OneSlot()
    ensures SlotsOf(Table().owner, 1) == {0}
    ensures TablesKnown(Table(), {1, 2, 3})
  {
  }

  lemma NodesWf(voted: int)
    ensures Nodes(voted).Keys == {1, 2, 3} && MastersKnown(Nodes(voted))
  {
  }

  lemma VoterWf(current: nat, last: nat, voted: int)
    ensures Wf(Voter(current, last, voted))
  {
    OneSlot();
    NodesWf(voted);
  }

  lemma ReplicaWf(me: Name, current: nat, auth: Election, mf: Manual)
    requires me in {2, 3}
    ensures Wf(Replica(me, current, auth, mf))
  {
    OneSlot();
    NodesWf(0);
  }

  lemma Grants(current: nat, last: nat, voted: int, src: Name, epoch: nat, now: int)
    requires src in {2, 3} && current <= epoch && last != epoch && now - voted >= 2000
    ensures Wf(Voter(current, last, voted))
    ensures Receive(Voter(current, last, voted), Request(src, 1, epoch), Clock(now))
            == (Voter(epoch, epoch, now), [Ack(src, epoch)])
  {
    VoterWf(current, last, voted);
    VoterWf(epoch, last, voted);
    OneSlot();
    var m := Request(src, 1, epoch);
    var h := ProcessHeader(Voter(current, last, voted), m);
    assert h == Voter(epoch, last, voted);
    assert GrantsVote(h, m, true, Clock(now));
    assert Nodes(voted)[1 := Nodes(voted)[1].(votedTime := now)] == Nodes(now);
  }

  lemma Hears(current: nat, auth: Election, epoch: nat)
    requires current <= epoch
    ensures Wf(Replica(3, current, auth, FORCED))
    ensures Receive(Replica(3, current, auth, FORCED), Request(2, 3, epoch), Clock(2000))
            == (Replica(3, epoch, auth, FORCED), [])
  {
    ReplicaWf(3, current, auth, FORCED);
    ReplicaWf(3, epoch, auth, FORCED);
  }

  lemma Counts1(me: Name, current: nat, auth: Election, epoch: nat)
    requires me in {2, 3} && auth.epoch <= epoch <= current
    ensures Wf(Replica(me, current, auth, FORCED))
    ensures Receive(Replica(me, current, auth, FORCED), Ack(me, epoch), Clock(4001))
            == (Replica(me, current, auth.(count := auth.count + 1), FORCED), [])
    ensures Counts(Replica(me, current, auth, FORCED), Ack(me, epoch))
  {
    ReplicaWf(me, current, auth, FORCED);
    OneSlot();
  }

  lemma Ticks(me: Name, current: nat, auth: Election, now: int)
    requires me in {2, 3} && 0 <= now - auth.time
    ensures Wf(Replica(me, current, auth, FORCED))
    ensures now - auth.time > 4000 ==>
              && Decide(Replica(me, current, auth, FORCED), Clock(now)) == Schedule
              && FailoverTick(Replica(me, current, auth, FORCED), Clock(now))
                 == Replica(me, current, Election(now, 0, false, 0, auth.epoch), FORCED)
    ensures now - auth.time <= 2000 && !auth.sent ==>
              && Decide(Replica(me, current, auth, FORCED), Clock(now)) == Ask
              && FailoverTick(Replica(me, current, auth, FORCED), Clock(now))
                 == Replica(me, current + 1, auth.(epoch := current + 1, sent := true), FORCED)
    ensures now - auth.time <= 2000 && auth.sent && auth.count == 1 ==>
              Decide(Replica(me, current, auth, FORCED), Clock(now)) == Win
  {
    ReplicaWf(me, current, auth, FORCED);
    OneSlot();
    assert MayFailover(Replica(me, current, auth, FORCED), Clock(now));
  }

  lemma Asks(me: Name, other: Name, current: nat, auth: Election)
    requires {me, other} == {2, 3}
    ensures Wf(Replica(me, current, auth, FORCED))
    ensures Requests(Replica(me, current, auth, FORCED))
            == multiset{Request(me, 1, current), Request(me, other, current)}
  {
    ReplicaWf(me, current, auth, FORCED);
    OneSlot();
    var s := Replica(me, current, auth, FORCED);
    assert s.peers.Keys == {1, me, other};
    assert Build(s, AuthRequest(true), 1) == Request(me, 1, current);
    assert Build(s, AuthRequest(true), other) == Request(me, other, current);
    assert (set p | p in s.peers && p != s.me :: Build(s, AuthRequest(s.mf.end != 0), p))
        == {Request(me, 1, current), Request(me, other, current)};
  }

  const FRESH := Election(0, 0, false, 0, 0)
  const ZERO := Tally({}, 0)

  function Beginning(): System {
    System(map[1 := Voter(0, 0, 0), 2 := Replica(2, 0, FRESH, Manual(0, false)),
               3 := Replica(3, 0, FRESH, Manual(0, false))],
           multiset{}, {}, map[1 := ZERO, 2 := ZERO, 3 := ZERO], {})
  }

  function With(sys: System, n: Name, s: Server, t: Tally): System {
    sys.(nodes := sys.nodes[n := s], tally := sys.tally[n := t])
  }

  lemma WithWf(sys: System, n: Name, s: Server, t: Tally)
    requires AllWf(sys) && n in sys.nodes && Wf(s) && s.me == n
    ensures AllWf(With(sys, n, s, t))
  {
  }

  lemma BeginningStarted()
    ensures Started(Beginning())
  {
    VoterWf(0, 0, 0);
    ReplicaWf(2, 0, FRESH, Manual(0, false));
    ReplicaWf(3, 0, FRESH, Manual(0, false));
  }

  /** A run so far, without duplicates and hard resets, in which every step was enabled. */
  datatype Story = Story(states: seq<System>, steps: seq<Step>)

  ghost predicate Told(story: Story) {
    && Run(story.states, story.steps)
    && Started(story.states[0])
    && NoHardReset(story.steps) && NoDuplicates(story.steps)
    && AllWf(Now(story))
  }

  function Now(story: Story): System {
    if story.states == [] then Beginning() else story.states[|story.states| - 1]
  }

  lemma Tell(story: Story, step: Step) returns (next: Story)
    requires Told(story) && Enabled(Now(story), step) && !step.ResetHard? && !step.Duplicate?
    requires AllWf(Next(Now(story), step))
    ensures Told(next) && Now(next) == Next(Now(story), step)
  {
    hide Next, AllWf, Enabled, Started, Beginning;
    next := Story(story.states + [Next(Now(story), step)], story.steps + [step]);
    var (n, states, steps) := (|story.steps|, next.states, next.steps);
    forall i | 0 <= i < |steps|
      ensures Takes(states[i], steps[i], states[i + 1])
    {
      if i < n {
        assert Takes(story.states[i], story.steps[i], story.states[i + 1]);
      }
    }
  }

  lemma ForceScene(story: Story, me: Name) returns (next: Story)
    requires Told(story) && me in {2, 3} && me in Now(story).nodes
    requires Now(story).nodes[me] == Replica(me, 0, FRESH, Manual(0, false))
    ensures Told(next) && Now(next) == With(Now(story), me, Replica(me, 0, FRESH, FORCED), Now(story).tally[me])
  {
    var sys := Now(story);
    ReplicaWf(me, 0, FRESH, FORCED);
    WithWf(sys, me, Replica(me, 0, FRESH, FORCED), sys.tally[me]);
    assert sys.tally == sys.tally[me := sys.tally[me]];
    hide Wf, AllWf, Receive, FailoverTick, HardReset, SoftReset, Takeover, AssignSlot, BumpEpoch, SetMaster, DelNode;
    next := Tell(story, Local(me, ManualFailover(9000, true)));
  }

  lemma VoteScene(story: Story, current: nat, last: nat, voted: int, src: Name, epoch: nat, now: int)
    returns (next: Story)
    requires Told(story) && 1 in Now(story).nodes && Now(story).nodes[1] == Voter(current, last, voted)
    requires src in {2, 3} && current <= epoch && last != epoch && now - voted >= 2000
    requires Request(src, 1, epoch) in Now(story).net
    ensures Told(next)
    ensures Now(next) == With(Now(story), 1, Voter(epoch, epoch, now), Now(story).tally[1]).(
              net := Now(story).net - multiset{Request(src, 1, epoch)} + multiset{Ack(src, epoch)},
              votes := Now(story).votes + {Vote(1, epoch, src)})
  {
    var sys := Now(story);
    Grants(current, last, voted, src, epoch, now);
    VoterWf(epoch, epoch, now);
    var m := Request(src, 1, epoch);
    WithWf(sys, 1, Voter(epoch, epoch, now), sys.tally[1]);
    assert CountVoter(sys.tally[1], sys.nodes[1], m) == sys.tally[1];
    assert multiset([Ack(src, epoch)]) == multiset{Ack(src, epoch)};
    next := Tell(story, Deliver(m, Clock(now)));
  }

  lemma HearScene(story: Story) returns (next: Story)
    requires Told(story) && 3 in Now(story).nodes && Now(story).nodes[3] == Replica(3, 0, FRESH, FORCED)
    requires Request(2, 3, 1) in Now(story).net
    ensures Told(next)
    ensures Now(next) == With(Now(story), 3, Replica(3, 1, FRESH, FORCED), Now(story).tally[3]).(
              net := Now(story).net - multiset{Request(2, 3, 1)})
  {
    var sys := Now(story);
    Hears(0, FRESH, 1);
    ReplicaWf(3, 1, FRESH, FORCED);
    WithWf(sys, 3, Replica(3, 1, FRESH, FORCED), sys.tally[3]);
    assert CountVoter(sys.tally[3], sys.nodes[3], Request(2, 3, 1)) == sys.tally[3];
    next := Tell(story, Deliver(Request(2, 3, 1), Clock(2000)));
  }

  lemma ResetScene(story: Story, me: Name, current: nat, auth: Election) returns (next: Story)
    requires Told(story) && me in {2, 3} && me in Now(story).nodes
    requires Now(story).nodes[me] == Replica(me, current, auth, FORCED) && auth.time == 0
    ensures Told(next)
    ensures Now(next) ==
            With(Now(story), me, Replica(me, current, Election(4001, 0, false, 0, auth.epoch), FORCED), ZERO)
  {
    Ticks(me, current, auth, 4001);
    var r := Replica(me, current, Election(4001, 0, false, 0, auth.epoch), FORCED);
    ReplicaWf(me, current, r.auth, FORCED);
    WithWf(Now(story), me, r, ZERO);
    next := Tell(story, Tick(me, Clock(4001)));
  }

  lemma AskScene(story: Story, me: Name, other: Name, current: nat, auth: Election, now: int) returns (next: Story)
    requires Told(story) && {me, other} == {2, 3} && me in Now(story).nodes
    requires Now(story).nodes[me] == Replica(me, current, auth, FORCED)
    requires 0 <= now - auth.time <= 2000 && !auth.sent
    ensures Told(next)
    ensures Now(next) == With(Now(story), me,
            Replica(me, current + 1, auth.(epoch := current + 1, sent := true), FORCED),
                              Tally({}, auth.count)).(
              net := Now(story).net + multiset{Request(me, 1, current + 1), Request(me, other, current + 1)})
  {
    Ticks(me, current, auth, now);
    var a := auth.(epoch := current + 1, sent := true);
    Asks(me, other, current + 1, a);
    ReplicaWf(me, current + 1, a, FORCED);
    WithWf(Now(story), me, Replica(me, current + 1, a, FORCED), Tally({}, auth.count));
    next := Tell(story, Tick(me, Clock(now)));
  }

  lemma AckScene(story: Story, me: Name, current: nat, auth: Election, epoch: nat) returns (next: Story)
    requires Told(story) && me in {2, 3} && me in Now(story).nodes
    requires Now(story).nodes[me] == Replica(me, current, auth, FORCED)
    requires auth.epoch <= epoch <= current && Ack(me, epoch) in Now(story).net
    ensures Told(next)
    ensures Now(next) == With(Now(story), me, Replica(me, current, auth.(count := auth.count + 1), FORCED),
                              Now(story).tally[me].(counted := Now(story).tally[me].counted + {1})).(
              net := Now(story).net - multiset{Ack(me, epoch)})
  {
    var sys := Now(story);
    Counts1(me, current, auth, epoch);
    var a := auth.(count := auth.count + 1);
    ReplicaWf(me, current, a, FORCED);
    WithWf(sys, me, Replica(me, current, a, FORCED), sys.tally[me].(counted := sys.tally[me].counted + {1}));
    next := Tell(story, Deliver(Ack(me, epoch), Clock(4001)));
  }

  lemma WinScene(story: Story, me: Name, other: Name, current: nat, auth: Election) returns (next: Story)
    requires Told(story) && {me, other} == {2, 3} && me in Now(story).nodes && other in Now(story).nodes
    requires Now(story).nodes[me] == Replica(me, current, auth, FORCED)
    requires auth.time == 4001 && auth.sent && auth.count == 1 && auth.epoch <= current
    ensures Told(next)
    ensures Now(next).wins ==
            Now(story).wins + {Victory(me, auth.epoch, 1, Now(story).tally[me].counted, Now(story).tally[me].stale)}
    ensures Now(next).votes == Now(story).votes && Now(next).tally == Now(story).tally
    ensures other in Now(next).nodes && Now(next).nodes[other] == Now(story).nodes[other]
  {
    var sys := Now(story);
    Ticks(me, current, auth, 4001);
    assert EpochsOrdered(sys.nodes[me]);
    TickEpochs(sys.nodes[me], Clock(4001));
    WithWf(sys, me, FailoverTick(sys.nodes[me], Clock(4001)), sys.tally[me]);
    next := Tell(story, Tick(me, Clock(4001)));
  }

  /** The operator forces a failover on both replicas. */
  lemma Opening() returns (story: Story)
    ensures Told(story)
    ensures Now(story) ==
            With(With(Beginning(), 2, Replica(2, 0, FRESH, FORCED), ZERO), 3, Replica(3, 0, FRESH, FORCED), ZERO)
  {
    BeginningStarted();
    story := Story([Beginning()], []);
    story := ForceScene(story, 2);
    story := ForceScene(story, 3);
  }

  /** Node 2 gets the vote of epoch 1, which is late to arrive. */
  lemma FirstAct() returns (story: Story)
    ensures Told(story) && {1, 2, 3} <= Now(story).nodes.Keys
    ensures var sys := Now(story);
            && sys.nodes[1] == Voter(1, 1, 2000)
            && sys.nodes[2] == Replica(2, 1, Election(0, 0, true, 0, 1), FORCED)
            && sys.nodes[3] == Replica(3, 1, FRESH, FORCED)
            && Ack(2, 1) in sys.net && sys.votes == {Vote(1, 1, 2)} && sys.wins == {}
  {
    hide Told, Voter, Replica, Ack;
    story := Opening();
    story := AskScene(story, 2, 3, 0, FRESH, 2000);
    story := VoteScene(story, 0, 0, 0, 2, 1, 2000);
    story := HearScene(story);
  }

  /** Node 3 gets the vote of epoch 2 and counts it. */
  lemma SecondAct() returns (story: Story)
    ensures Told(story) && {1, 2, 3} <= Now(story).nodes.Keys
    ensures var sys := Now(story);
            && sys.nodes[2] == Replica(2, 1, Election(0, 0, true, 0, 1), FORCED)
            && sys.nodes[3] == Replica(3, 2, Election(4001, 1, true, 0, 2), FORCED)
            && Ack(2, 1) in sys.net && sys.votes == {Vote(1, 1, 2), Vote(1, 2, 3)} && sys.wins == {}
  {
    hide Told, Voter, Replica, Ack;
    story := FirstAct();
    story := ResetScene(story, 3, 1, FRESH);
    story := AskScene(story, 3, 2, 1, Election(4001, 0, false, 0, 0), 4001);
    story := VoteScene(story, 1, 1, 2000, 3, 2, 4001);
    story := AckScene(story, 3, 2, Election(4001, 0, true, 0, 2), 2);
  }

  /** Node 2 clears its counter, counts the late vote, and begins epoch 2 with it. */
  lemma ThirdAct() returns (story: Story)
    ensures Told(story) && {1, 2, 3} <= Now(story).nodes.Keys
    ensures var sys := Now(story);
            && sys.nodes[2] == Replica(2, 2, Election(4001, 1, true, 0, 2), FORCED)
            && sys.nodes[3] == Replica(3, 2, Election(4001, 1, true, 0, 2), FORCED)
            && sys.votes == {Vote(1, 1, 2), Vote(1, 2, 3)} && sys.wins == {}
  {
    story := SecondAct();
    story := ResetScene(story, 2, 1, Election(0, 0, true, 0, 1));
    story := AckScene(story, 2, 1, Election(4001, 0, false, 0, 1), 1);
    story := AskScene(story, 2, 3, 1, Election(4001, 1, false, 0, 1), 4001);
  }

  /** A run without duplicates or resets, with one agreed voter, in which nodes 2 and 3 both win
      epoch 2: safety fails without punctual acknowledgements. */
  lemma SplitVote() returns (states: seq<System>, steps: seq<Step>, w: Victory, w': Victory)
    ensures Run(states, steps) && Started(states[0]) && NoHardReset(steps) && NoDuplicates(steps)
    ensures Agreed(states[|steps|], e => {1})
    ensures w in states[|steps|].wins && w' in states[|steps|].wins
    ensures w.epoch == w'.epoch && w.replica != w'.replica
  {
    var story := ThirdAct();
    var won := Election(4001, 1, true, 0, 2);
    var (t2, t3) := (Now(story).tally[2], Now(story).tally[3]);
    w, w' := Victory(2, 2, 1, t2.counted, t2.stale), Victory(3, 2, 1, t3.counted, t3.stale);
    story := WinScene(story, 2, 3, 2, won);
    story := WinScene(story, 3, 2, 2, won);
    states, steps := story.states, story.steps;
    assert Now(story).wins == {w, w'};
  }
}
