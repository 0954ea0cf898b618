/** Why a hard reset has to be quiet, and that nothing less will do: the reset zeroes the current
    epoch but leaves an open vote request and its count in place.  Any node that is reset with one
    answer counted can join a master, fail over to it on the old count, and record a configuration
    epoch beyond its current epoch. */
module ClusterLoudReset {
  import opened ClusterNode
  import opened ClusterEpochs
  import opened ClusterProtocol

  /** The master that the reset node `s` follows: it owns slot 0 and has no epoch yet. */
  function Partner(s: Server): Name {
    s.me - 1
  }

  /** What the operator does after the reset. */
  function Commands(s: Server): seq<Command> {
    var o := Partner(s);
    [Meet(o, 0, true), SetSlotNode(0, o, false, 0), Replicate(o), UpdateState, ManualFailover(1, true)]
  }

  /** A node just after CLUSTER RESET HARD. */
  ghost predicate Blank(s: Server) {
    && s.peers.Keys == {s.me} && s.peers[s.me].master && s.peers[s.me].slaveof.Null? && MyEpoch(s) == 0
    && s.tables == Tables(ClosedSlots(), ClosedSlots(), ClosedSlots(), {}) && s.currentEpoch == 0
  }

  /** With an answered vote request open. */
  ghost predicate Loud(s: Server) {
    s.auth.sent && s.auth.count > 0 && s.auth.epoch > 0
  }

  /** After CLUSTER MEET. */
  function Joined(s: Server): Server {
    SetPeer(s, Partner(s), Peer(true, Null, 0, false, 0, 0))
  }

  /** After CLUSTER SETSLOT 0 NODE. */
  function Informed(s: Server): Server {
    Joined(s).(tables := s.tables.(owner := ClosedSlots()[0 := To(Partner(s))]))
  }

  /** After CLUSTER REPLICATE. */
  function Follower(s: Server): Server
    requires s.me in s.peers
  {
    var my := s.peers[s.me].(master := false, slaveof := To(Partner(s)), shard := 0);
    SetPeer(Informed(s), s.me, my).(mf := Manual(0, false))
  }

  /** After the state update, which counts one master, and CLUSTER FAILOVER FORCE. */
  function Ready(s: Server): Server
    requires s.me in s.peers
  {
    Follower(s).(size := 1, mf := Manual(1, true))
  }

  lemma Joins(s: Server)
    requires Wf(s) && Blank(s)
    ensures CommandEnabled(s, Commands(s)[0]) && Apply(s, Commands(s)[0]) == Joined(s) && Wf(Joined(s))
    ensures Joined(s).peers.Keys == {s.me, Partner(s)} && Joined(s).peers[s.me] == s.peers[s.me]
  {
    hide ClosedSlots;
  }

  lemma Hears(s: Server)
    requires Wf(Joined(s)) && Blank(s)
    requires Joined(s).peers.Keys == {s.me, Partner(s)} && Joined(s).peers[s.me] == s.peers[s.me]
    ensures var c := Commands(s)[1];
            CommandEnabled(Joined(s), c) && Apply(Joined(s), c) == Informed(s) && Wf(Informed(s))
  {
    assert IsMaxEpoch(Joined(s), 0);
  }

  lemma OwnsZero(s: Server, n: Name)
    requires s.tables.owner == ClosedSlots()[0 := To(n)]
    ensures SlotsOf(s.tables.owner, n) == {0} && forall k :: k != n ==> NumSlots(s, k) == 0
  {
    forall k | k != n
      ensures NumSlots(s, k) == 0
    {
      assert SlotsOf(s.tables.owner, k) == {};
    }
  }

  lemma Follows(s: Server)
    requires Wf(Informed(s)) && Blank(s)
    ensures var c := Commands(s)[2];
            CommandEnabled(Informed(s), c) && Apply(Informed(s), c) == Follower(s) && Wf(Follower(s))
  {
    OwnsZero(Informed(s), Partner(s));
    SetMasterWf(Informed(s), Partner(s));
    assert SetMaster(Informed(s), Partner(s)).tables == Follower(s).tables;
    assert SetMaster(Informed(s), Partner(s)).peers == Follower(s).peers;
  }

  lemma CountsOne(s: Server)
    requires Blank(s) && Wf(Follower(s))
    ensures Apply(Apply(Follower(s), Commands(s)[3]), Commands(s)[4]) == Ready(s) && Wf(Ready(s))
  {
    var t := Follower(s);
    OwnsZero(t, Partner(s));
    assert Serving(t) == {Partner(s)};
  }

  /** The failover timer at any time after the start of the old attempt, with a node timeout, which can
      be configured, so long that the attempt has not expired. */
  function At(s: Server, now: int): Env
    requires now >= s.auth.time
  {
    Env(now, 0, 0, false, false, if now - s.auth.time > 1000 then now - s.auth.time else 1000)
  }

  lemma Breaks(s: Server, now: int)
    requires Wf(s) && Blank(s) && Loud(s) && Wf(Ready(s)) && now >= s.auth.time
    ensures !EpochsSound(FailoverTick(Ready(s), At(s, now)))
  {
    var t := Ready(s);
    OwnsZero(t, Partner(s));
    assert Decide(t, At(s, now)) == Win;
    var u := WinElection(t);
    assert u.peers[s.me].configEpoch == s.auth.epoch;
  }

  // ---------------------------------------------------------------------------------------
  // In the distributed machine
  // ---------------------------------------------------------------------------------------

  lemma ResetIsBlank(s: Server, name: Name)
    requires Wf(s)
    ensures var t := HardReset(s, name); Wf(t) && Blank(t) && t.me == name && t.auth == s.auth
  {
  }

  /** One more step at the end of a run. */
  lemma Extend(states: seq<System>, steps: seq<Step>, step: Step)
    requires Run(states, steps) && AllWf(states[|steps|]) && Enabled(states[|steps|], step)
    ensures Run(states + [Next(states[|steps|], step)], steps + [step])
  {
    var (states', steps') := (states + [Next(states[|steps|], step)], steps + [step]);
    forall i | 0 <= i < |steps'|
      ensures Takes(states'[i], steps'[i], states'[i + 1])
    {
      if i < |steps| {
        assert Takes(states[i], steps[i], states[i + 1]);
      }
    }
  }

  /** A run of commands at `n` alone: the other servers are as they were. */
  ghost predicate OnlyCommands(sys: System, n: Name, t: Server, states: seq<System>, steps: seq<Step>) {
    && Run(states, steps) && states[0] == sys && NoHardReset(steps)
    && AllWf(sys) && n in sys.nodes && Wf(t) && t.me == n
    && states[|steps|] == sys.(nodes := sys.nodes[n := t])
  }

  lemma Command(sys: System, n: Name, t: Server, states: seq<System>, steps: seq<Step>, c: Command)
    returns (states': seq<System>, steps': seq<Step>)
    requires OnlyCommands(sys, n, t, states, steps)
    requires CommandEnabled(t, c) && Wf(Apply(t, c)) && Apply(t, c).me == n
    ensures OnlyCommands(sys, n, Apply(t, c), states', steps')
  {
    var last := states[|steps|];
    Extend(states, steps, Local(n, c));
    assert sys.nodes[n := t][n := Apply(t, c)] == sys.nodes[n := Apply(t, c)];
    states', steps' := states + [Next(last, Local(n, c))], steps + [Local(n, c)];
  }

  /** The operator's part of the run. */
  lemma Prepare(sys: System, n: Name) returns (states: seq<System>, steps: seq<Step>)
    requires AllWf(sys) && n in sys.nodes && Blank(sys.nodes[n])
    ensures OnlyCommands(sys, n, Ready(sys.nodes[n]), states, steps)
  {
    var s := sys.nodes[n];
    Joins(s);
    Hears(s);
    Follows(s);
    CountsOne(s);
    states, steps := [sys], [];
    assert sys.nodes[n := s] == sys.nodes;
    hide Wf, Apply, CommandEnabled, Blank, Run, AllWf, NoHardReset;
    states, steps := Command(sys, n, s, states, steps, Commands(s)[0]);
    states, steps := Command(sys, n, Joined(s), states, steps, Commands(s)[1]);
    states, steps := Command(sys, n, Informed(s), states, steps, Commands(s)[2]);
    states, steps := Command(sys, n, Follower(s), states, steps, Commands(s)[3]);
    states, steps := Command(sys, n, Apply(Follower(s), Commands(s)[3]), states, steps, Commands(s)[4]);
  }

  /** A blank node with an answered request open, in any system, at any time: five commands and a
      tick. */
  lemma LoudBreaks(sys: System, n: Name, now: int) returns (states: seq<System>, steps: seq<Step>)
    requires AllWf(sys) && n in sys.nodes && Blank(sys.nodes[n]) && Loud(sys.nodes[n])
    requires now >= sys.nodes[n].auth.time
    ensures |steps| > 0 && steps[|steps| - 1] == Tick(n, At(sys.nodes[n], now))
    ensures Run(states, steps) && states[0] == sys && NoHardReset(steps) && !SystemSound(states[|steps|])
  {
    var s := sys.nodes[n];
    states, steps := Prepare(sys, n);
    Breaks(s, now);
    var (last, step) := (states[|steps|], Tick(n, At(s, now)));
    Extend(states, steps, step);
    assert n in Next(last, step).nodes && Next(last, step).nodes[n] == FailoverTick(Ready(s), At(s, now));
    states, steps := states + [Next(last, step)], steps + [step];
  }

  /** Whatever happens from here on, apart from loud resets, no epoch is beyond the current one. */
  ghost predicate StaysSound(sys: System) {
    forall states, steps, k: nat ::
      Run(states, steps) && states[0] == sys && QuietResets(states, steps) && k < |states| ==> SystemSound(states[k])
  }

  lemma OrderedStaysSound(sys: System)
    requires EpochInv(sys)
    ensures StaysSound(sys)
  {
    forall states, steps, k: nat | Run(states, steps) && states[0] == sys && QuietResets(states, steps) && k < |states|
      ensures SystemSound(states[k])
    {
      RunEpochs(states, steps, k);
    }
  }

  /** The exact condition: a hard reset is followed only by sound states if and only if it is quiet. */
  lemma ResetIsSafeIffQuiet(sys: System, n: Name, name: Name)
    requires EpochInv(sys) && Enabled(sys, ResetHard(n, name))
    ensures StaysSound(Next(sys, ResetHard(n, name))) <==> QuietReset(sys, ResetHard(n, name))
  {
    var sys' := Next(sys, ResetHard(n, name));
    if QuietReset(sys, ResetHard(n, name)) {
      HardResetEpochs(sys, n, name);
      OrderedStaysSound(sys');
    } else {
      ResetIsBlank(sys.nodes[n], name);
      assert AllWf(sys');
      var states, steps := LoudBreaks(sys', name, sys'.nodes[name].auth.time);
      NoHardIsQuiet(states, steps);
      assert !SystemSound(states[|steps|]);
    }
  }
}
