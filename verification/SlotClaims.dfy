/** Hash slots configuration propagation: whatever the order and however often the masters'
    claims arrive, an observer binds each slot to its claimant of greatest configuration epoch. */
module SlotClaims {
  import opened ClusterNode
  import opened ClusterEpochs

  /** The configuration a master keeps announcing. */
  datatype Claim = Claim(epoch: nat, slots: set<nat>)

  ghost predicate DistinctEpochs(cfg: map<Name, Claim>) {
    forall n, n' :: n in cfg && n' in cfg && n != n' ==> cfg[n].epoch != cfg[n'].epoch
  }

  ghost predicate Announces(cfg: map<Name, Claim>, m: Msg) {
    && m.kind.Ping? && m.slaveof.Null? && m.src in cfg
    && m.configEpoch == cfg[m.src].epoch && m.myslots == cfg[m.src].slots
  }

  /** Among the masters heard so far, `r` is the one to whom slot `j` belongs. */
  ghost predicate Winner(cfg: map<Name, Claim>, heard: set<Name>, j: nat, r: Ref) {
    match r
    case Null => forall n :: n in heard && n in cfg ==> j !in cfg[n].slots
    case To(w) =>
      && w in heard && w in cfg && j in cfg[w].slots
      && forall n :: n in heard && n in cfg && j in cfg[n].slots ==> cfg[n].epoch <= cfg[w].epoch
  }

  ghost predicate AllNull(table: seq<Ref>) {
    forall j :: 0 <= j < |table| ==> table[j].Null?
  }

  /** The observer is none of the masters, imports nothing, and records for each master no epoch
      beyond the announced one, and exactly that one once it has heard from it. */
  ghost predicate Observes(s: Server, cfg: map<Name, Claim>, heard: set<Name>) {
    && Wf(s) && s.me !in cfg && heard <= cfg.Keys <= s.peers.Keys
    && AllNull(s.tables.importing) && s.tables.notClaiming == {}
    && forall n <- cfg :: EpochOf(s, n) <= cfg[n].epoch && (n in heard ==> EpochOf(s, n) == cfg[n].epoch)
  }

  ghost function EpochOf(s: Server, n: Name): nat
    requires n in s.peers
  {
    s.peers[n].configEpoch
  }

  ghost predicate Bound(s: Server, cfg: map<Name, Claim>, heard: set<Name>) {
    forall j :: 0 <= j < |s.tables.owner| ==> Winner(cfg, heard, j, s.tables.owner[j])
  }

  /** A claim by a master whose announced epoch is recorded settles every slot it claims. */
  lemma ClaimSettles(s: Server, cfg: map<Name, Claim>, heard: set<Name>, n: Name)
    requires DistinctEpochs(cfg) && n in cfg
    requires Observes(s, cfg, heard) && Bound(s, cfg, heard) && EpochOf(s, n) == cfg[n].epoch
    ensures var t := ClaimSlots(s, n, cfg[n].epoch, cfg[n].slots);
            && t.notClaiming == {} && t.importing == s.tables.importing
            && forall j :: 0 <= j < |t.owner| ==> Winner(cfg, heard + {n}, j, t.owner[j])
  {
    var c := cfg[n];
    var t := ClaimSlots(s, n, c.epoch, c.slots);
    forall j | 0 <= j < SLOTS
      ensures j !in t.notClaiming && Winner(cfg, heard + {n}, j, t.owner[j])
    {
      assert Winner(cfg, heard, j, s.tables.owner[j]);
      assert j in Rebound(s, n, c.epoch, c.slots) <==> Rebinds(s, n, c.epoch, c.slots, j);
    }
  }

  lemma NothingDirty(s: Server, cfg: map<Name, Claim>, heard: set<Name>, n: Name)
    requires n in cfg && Observes(s, cfg, heard) && Bound(s, cfg, heard)
    requires SlotsOf(s.tables.owner, n) == cfg[n].slots
    ensures Bound(s, cfg, heard + {n})
  {
    forall j | 0 <= j < SLOTS
      ensures Winner(cfg, heard + {n}, j, s.tables.owner[j])
    {
      assert Winner(cfg, heard, j, s.tables.owner[j]);
      assert j in cfg[n].slots <==> s.tables.owner[j] == To(n);
    }
  }

  /** The role changes a claim can trigger leave the tables as the claim left them. */
  lemma UpdateSettles(s: Server, cfg: map<Name, Claim>, heard: set<Name>, n: Name)
    requires DistinctEpochs(cfg) && n in cfg
    requires Observes(s, cfg, heard) && Bound(s, cfg, heard) && EpochOf(s, n) == cfg[n].epoch
    ensures var t := UpdateSlotsConfigWith(s, n, cfg[n].epoch, cfg[n].slots);
            Observes(t, cfg, heard + {n}) && Bound(t, cfg, heard + {n})
  {
    var c := cfg[n];
    ClaimSettles(s, cfg, heard, n);
    UpdateSlotsConfigWf(s, n, c.epoch, c.slots);
    UpdateSlotsEpochs(s, n, c.epoch, c.slots);
    var t := UpdateSlotsConfigWith(s, n, c.epoch, c.slots);
    assert t.tables.owner == ClaimSlots(s, n, c.epoch, c.slots).owner;
    assert t.tables.notClaiming == {};
  }

  lemma HeaderRecords(s: Server, cfg: map<Name, Claim>, heard: set<Name>, m: Msg)
    requires Observes(s, cfg, heard) && Announces(cfg, m)
    ensures var h := SetAsMaster(ProcessHeader(s, m), m.src);
            Observes(h, cfg, heard) && EpochOf(h, m.src) == cfg[m.src].epoch && h.tables == s.tables
  {
    ProcessHeaderWf(s, m);
    SetAsMasterWf(ProcessHeader(s, m), m.src);
  }

  lemma CollisionKeeps(s: Server, cfg: map<Name, Claim>, heard: set<Name>, n: Name)
    requires Observes(s, cfg, heard) && Bound(s, cfg, heard) && n in cfg
    ensures Observes(HandleCollision(s, n), cfg, heard) && Bound(HandleCollision(s, n), cfg, heard)
  {
    AdvanceWf(s);
  }

  /** One announcement adds its sender to the masters among whom every slot is settled. */
  lemma HearOne(s: Server, cfg: map<Name, Claim>, heard: set<Name>, m: Msg, env: Env)
    requires DistinctEpochs(cfg) && Announces(cfg, m)
    requires Observes(s, cfg, heard) && Bound(s, cfg, heard)
    ensures var t := Receive(s, m, env).0;
            Observes(t, cfg, heard + {m.src}) && Bound(t, cfg, heard + {m.src})
  {
    ProcessHeaderWf(s, m);
    HeaderRecords(s, cfg, heard, m);
    var h := SwitchRole(ProcessHeader(s, m), m);
    assert h == SetAsMaster(ProcessHeader(s, m), m.src);
    if Dirty(h, m) {
      UpdateSettles(h, cfg, heard, m.src);
      CollisionKeeps(UpdateSlotsConfigWith(h, m.src, m.configEpoch, m.myslots), cfg, heard + {m.src}, m.src);
    } else {
      NothingDirty(h, cfg, heard, m.src);
      CollisionKeeps(h, cfg, heard + {m.src}, m.src);
    }
  }

  /** The observer after a list of messages. */
  function Hear(s: Server, msgs: seq<Msg>, env: Env): Server
    requires Wf(s)
    decreases |msgs|
  {
    if msgs == [] then s
    else
      ReceiveWf(s, msgs[0], env);
      Hear(Receive(s, msgs[0], env).0, msgs[1..], env)
  }

  ghost function Senders(msgs: seq<Msg>): set<Name> {
    set m <- msgs :: m.src
  }

  lemma SendersCons(msgs: seq<Msg>, heard: set<Name>)
    requires msgs != []
    ensures heard + {msgs[0].src} + Senders(msgs[1..]) == heard + Senders(msgs)
  {
    assert msgs == [msgs[0]] + msgs[1..];
  }

  lemma {:induction false} HearAll(s: Server, cfg: map<Name, Claim>, heard: set<Name>, msgs: seq<Msg>, env: Env)
    requires DistinctEpochs(cfg) && forall m <- msgs :: Announces(cfg, m)
    requires Observes(s, cfg, heard) && Bound(s, cfg, heard)
    ensures var t := Hear(s, msgs, env);
            Observes(t, cfg, heard + Senders(msgs)) && Bound(t, cfg, heard + Senders(msgs))
    decreases |msgs|
  {
    if msgs == [] {
      assert heard + Senders(msgs) == heard;
    } else {
      HearOne(s, cfg, heard, msgs[0], env);
      ReceiveWf(s, msgs[0], env);
      var t := Receive(s, msgs[0], env).0;
      HearAll(t, cfg, heard + {msgs[0].src}, msgs[1..], env);
      SendersCons(msgs, heard);
      assert Hear(s, msgs, env) == Hear(t, msgs[1..], env);
    }
  }

  /** Starting with no slot assigned, the observer ends with each slot bound to the claimant of
      greatest epoch among the masters it has heard from, and unbound if none claims it. */
  lemma Converges(s: Server, cfg: map<Name, Claim>, msgs: seq<Msg>, env: Env)
    requires DistinctEpochs(cfg) && (forall m <- msgs :: Announces(cfg, m))
    requires Observes(s, cfg, {}) && AllNull(s.tables.owner)
    ensures Bound(Hear(s, msgs, env), cfg, Senders(msgs))
  {
    HearAll(s, cfg, {}, msgs, env);
    assert {} + Senders(msgs) == Senders(msgs);
  }

  /** Observers that heard from the same masters agree on every slot, whatever they heard first
      and however often. */
  lemma OrderIndependent(s: Server, s': Server, cfg: map<Name, Claim>, msgs: seq<Msg>, msgs': seq<Msg>, env: Env)
    requires DistinctEpochs(cfg)
    requires (forall m <- msgs :: Announces(cfg, m)) && forall m <- msgs' :: Announces(cfg, m)
    requires Senders(msgs) == Senders(msgs')
    requires Observes(s, cfg, {}) && AllNull(s.tables.owner)
    requires Observes(s', cfg, {}) && AllNull(s'.tables.owner)
    ensures Hear(s, msgs, env).tables.owner == Hear(s', msgs', env).tables.owner
  {
    hide Hear, Announces;
    HearAll(s, cfg, {}, msgs, env);
    HearAll(s', cfg, {}, msgs', env);
    assert {} + Senders(msgs) == Senders(msgs) == {} + Senders(msgs');
    var (o, o') := (Hear(s, msgs, env).tables.owner, Hear(s', msgs', env).tables.owner);
    forall j | 0 <= j < SLOTS
      ensures o[j] == o'[j]
    {
      assert Winner(cfg, Senders(msgs), j, o[j]) && Winner(cfg, Senders(msgs), j, o'[j]);
    }
  }
}
