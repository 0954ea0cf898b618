/** Which node serves a request: the cluster's routing decision during resharding. */
module Routing {
  import opened Wrappers

  type Key = string
  type Node = int

  /** A command with the keys it names; `sharded` for sharded publish and subscribe commands. */
  datatype Command = Command(keys: seq<Key>, sharded: bool)

  /** `writes` is about the command itself, `queuedWrites` about what a transaction has queued. */
  datatype Query = Query(isExec: bool, inMulti: bool, commands: seq<Command>, isMigrate: bool, writes: bool,
          queuedWrites: bool, asking: bool, readOnly: bool)

  datatype Cluster = Cluster(myself: Node, noRedirection: bool, owner: map<int, Node>, migrating: map<int, Node>,
          importing: map<int, Node>,
                             present: set<Key>, healthy: bool, shardedWhenDown: bool, readsWhenDown: bool,
                             master: Option<Node>)

  datatype Code = NONE | CROSS_SLOT | UNSTABLE | ASK | MOVED | DOWN_STATE | DOWN_UNBOUND | DOWN_RO_STATE

  datatype Answer = Answer(node: Option<Node>, code: Code)

  // ---------------------------------------------------------------------------------------
  // The decision, from what is true of the keys of the request
  // ---------------------------------------------------------------------------------------

  function KeysOf(cs: seq<Command>): seq<Key> {
    if cs == [] then [] else KeysOf(cs[..|cs| - 1]) + cs[|cs| - 1].keys
  }

  predicate AnySharded(cs: seq<Command>) {
    exists i :: 0 <= i < |cs| && cs[i].sharded
  }

  /** The keys whose presence is looked up: those before the first sharded command. */
  function Checked(cs: seq<Command>): seq<Key> {
    if cs == [] then []
    else Checked(cs[..|cs| - 1]) + (if AnySharded(cs) then [] else cs[|cs| - 1].keys)
  }

  function Missing(c: Cluster, ks: seq<Key>): (n: nat)
    ensures n <= |ks|
  {
    if ks == [] then 0 else Missing(c, ks[..|ks| - 1]) + (if ks[|ks| - 1] in c.present then 0 else 1)
  }

  /** Not all the same key. */
  predicate Differs(ks: seq<Key>) {
    exists i :: 0 <= i < |ks| && ks[i] != ks[0]
  }

  /** What the loop over the keys finds out. */
  datatype Facts = Facts(slot: int, owner: Node, migrating: bool, importing: bool, several: bool, missing: nat,
          existing: nat, sharded: bool)

  function FactsOf(c: Cluster, hash: Key -> int, cs: seq<Command>): Facts
    requires KeysOf(cs) != [] && hash(KeysOf(cs)[0]) in c.owner
  {
    var (ks, checked) := (KeysOf(cs), Checked(cs));
    var slot := hash(ks[0]);
    var migrating := c.owner[slot] == c.myself && slot in c.migrating;
    var importing := !migrating && slot in c.importing;
    var open := migrating || importing;
    Facts(slot, c.owner[slot], migrating, importing, importing && Differs(ks),
          if open then Missing(c, checked) else 0, if open then |checked| - Missing(c, checked) else 0, AnySharded(cs))
  }

  function Decide(c: Cluster, q: Query, f: Facts): Answer {
    if !c.healthy && f.sharded && !c.shardedWhenDown then Answer(None, DOWN_STATE)
    else if !c.healthy && !f.sharded && !c.readsWhenDown then Answer(None, DOWN_STATE)
    else if !c.healthy && !f.sharded && q.writes then Answer(None, DOWN_RO_STATE)
    else if (f.migrating || f.importing) && q.isMigrate then Answer(Some(c.myself), NONE)
    else if f.migrating && f.missing > 0 then
      if f.existing > 0 then Answer(None, UNSTABLE)
      else Answer(if f.slot in c.migrating then Some(c.migrating[f.slot]) else None, ASK)
    else if f.importing && q.asking then
      if f.several && f.missing > 0 then Answer(None, UNSTABLE) else Answer(Some(c.myself), NONE)
    else if (q.readOnly || f.sharded) && !(q.writes || (q.isExec && q.queuedWrites)) &&
            c.master == Some(f.owner) then Answer(Some(c.myself), NONE)
    else Answer(Some(f.owner), if f.owner != c.myself then MOVED else NONE)
  }

  function Route(c: Cluster, hash: Key -> int, q: Query): Answer {
    var ks := KeysOf(q.commands);
    if c.noRedirection || (q.isExec && !q.inMulti) || ks == [] then Answer(Some(c.myself), NONE)
    else if hash(ks[0]) !in c.owner then Answer(None, DOWN_UNBOUND)
    else if exists i :: 0 <= i < |ks| && hash(ks[i]) != hash(ks[0]) then Answer(None, CROSS_SLOT)
    else Decide(c, q, FactsOf(c, hash, q.commands))
  }

  // ---------------------------------------------------------------------------------------
  // Safe serving
  // ---------------------------------------------------------------------------------------

  /** A request with keys that the routing looks at. */
  ghost predicate Keyed(c: Cluster, q: Query) {
    !c.noRedirection && !(q.isExec && !q.inMulti) && KeysOf(q.commands) != []
  }

  lemma {:induction false} CheckedAll(cs: seq<Command>)
    requires !AnySharded(cs)
    ensures Checked(cs) == KeysOf(cs)
  {
    if cs != [] {
      var init := cs[..|cs| - 1];
      assert forall i :: 0 <= i < |init| ==> init[i] == cs[i];
      CheckedAll(init);
    }
  }

  lemma {:induction false} MissingNone(c: Cluster, ks: seq<Key>)
    ensures Missing(c, ks) == 0 <==> forall i :: 0 <= i < |ks| ==> ks[i] in c.present
    ensures Missing(c, ks) == |ks| <==> forall i :: 0 <= i < |ks| ==> ks[i] !in c.present
  {
    if ks != [] {
      MissingNone(c, ks[..|ks| - 1]);
    }
  }

  /** Whatever node is returned, all keys of all queued commands share one slot. */
  lemma OneSlot(c: Cluster, hash: Key -> int, q: Query)
    requires Keyed(c, q) && Route(c, hash, q).node.Some?
    ensures forall i, j :: 0 <= i < |KeysOf(q.commands)| && 0 <= j < |KeysOf(q.commands)| ==>
              hash(KeysOf(q.commands)[i]) == hash(KeysOf(q.commands)[j])
  {
    hide Decide, FactsOf, KeysOf;
  }

  ghost predicate AllPresent(c: Cluster, ks: seq<Key>) {
    forall i :: 0 <= i < |ks| ==> ks[i] in c.present
  }

  ghost predicate NonePresent(c: Cluster, ks: seq<Key>) {
    forall i :: 0 <= i < |ks| ==> ks[i] !in c.present
  }

  ghost predicate AllSame(ks: seq<Key>) {
    forall i :: 0 <= i < |ks| ==> ks[i] == ks[0]
  }

  /** Ordinary requests: not MIGRATE and no sharded command. */
  ghost predicate Plain(q: Query) {
    !q.isMigrate && !AnySharded(q.commands)
  }

  ghost predicate MigratesAway(c: Cluster, slot: int) {
    slot in c.owner && c.owner[slot] == c.myself && slot in c.migrating
  }

  /** A slot that is being migrated away counts as that only. */
  ghost predicate ImportsHere(c: Cluster, slot: int) {
    slot in c.owner && slot in c.importing && !MigratesAway(c, slot)
  }

  /** On a slot this node is migrating away: served here exactly when every key is present, redirected
      exactly when none is, and told to try again exactly when some are. */
  lemma MigratingSlot(c: Cluster, hash: Key -> int, q: Query)
    requires Keyed(c, q) && Plain(q) && c.healthy
    requires forall i :: 0 <= i < |KeysOf(q.commands)| ==> hash(KeysOf(q.commands)[i]) == hash(KeysOf(q.commands)[0])
    requires MigratesAway(c, hash(KeysOf(q.commands)[0])) && c.master != Some(c.myself)
    ensures var (ks, a) := (KeysOf(q.commands), Route(c, hash, q));
            && (a == Answer(Some(c.myself), NONE) <==> AllPresent(c, ks))
            && (a == Answer(Some(c.migrating[hash(ks[0])]), ASK) <==> NonePresent(c, ks))
            && (a == Answer(None, UNSTABLE) <==> !AllPresent(c, ks) && !NonePresent(c, ks))
  {
    hide KeysOf, Checked, Missing, AnySharded;
    var ks := KeysOf(q.commands);
    CheckedAll(q.commands);
    MissingNone(c, ks);
  }

  /** Served here on a slot being migrated away, in any state of the cluster: every key is present. */
  lemma ServedWhileMigrating(c: Cluster, hash: Key -> int, q: Query)
    requires Keyed(c, q) && Plain(q) && Route(c, hash, q) == Answer(Some(c.myself), NONE)
    requires MigratesAway(c, hash(KeysOf(q.commands)[0]))
    ensures AllPresent(c, KeysOf(q.commands))
  {
    hide KeysOf, Checked, Missing, AnySharded;
    CheckedAll(q.commands);
    MissingNone(c, KeysOf(q.commands));
  }

  /** Served here through ASKING: every key is present, unless the request names one key only. */
  lemma ServedThroughAsking(c: Cluster, hash: Key -> int, q: Query)
    requires Keyed(c, q) && Plain(q) && q.asking && Route(c, hash, q) == Answer(Some(c.myself), NONE)
    requires ImportsHere(c, hash(KeysOf(q.commands)[0]))
    ensures AllPresent(c, KeysOf(q.commands)) || AllSame(KeysOf(q.commands))
  {
    hide KeysOf, Checked, Missing, AnySharded;
    CheckedAll(q.commands);
    MissingNone(c, KeysOf(q.commands));
  }

  // ---------------------------------------------------------------------------------------
  // Every answer, from the request and the records
  // ---------------------------------------------------------------------------------------

  /** Some key of a command before the first sharded one is not here, or is here. */
  ghost predicate Misses(c: Cluster, cs: seq<Command>) {
    exists i, j :: 0 <= i < |cs| && !AnySharded(cs[..i + 1]) && 0 <= j < |cs[i].keys| && cs[i].keys[j] !in c.present
  }

  ghost predicate Has(c: Cluster, cs: seq<Command>) {
    exists i, j :: 0 <= i < |cs| && !AnySharded(cs[..i + 1]) && 0 <= j < |cs[i].keys| && cs[i].keys[j] in c.present
  }

  lemma {:induction false} CheckedFrom(cs: seq<Command>, n: nat) returns (i: nat, j: nat)
    requires n < |Checked(cs)|
    ensures i < |cs| && !AnySharded(cs[..i + 1]) && j < |cs[i].keys| && Checked(cs)[n] == cs[i].keys[j]
    decreases |cs|
  {
    var init := cs[..|cs| - 1];
    if n < |Checked(init)| {
      i, j := CheckedFrom(init, n);
      assert init[..i + 1] == cs[..i + 1];
    } else {
      i, j := |cs| - 1, n - |Checked(init)|;
      assert cs[..i + 1] == cs;
    }
  }

  lemma {:induction false} CheckedHas(cs: seq<Command>, i: nat, j: nat) returns (n: nat)
    requires i < |cs| && !AnySharded(cs[..i + 1]) && j < |cs[i].keys|
    ensures n < |Checked(cs)| && Checked(cs)[n] == cs[i].keys[j]
    decreases |cs|
  {
    var init := cs[..|cs| - 1];
    if i < |init| {
      assert init[..i + 1] == cs[..i + 1];
      n := CheckedHas(init, i, j);
    } else {
      assert cs[..i + 1] == cs;
      n := |Checked(init)| + j;
    }
  }

  lemma CountsMean(c: Cluster, cs: seq<Command>)
    ensures Missing(c, Checked(cs)) > 0 <==> Misses(c, cs)
    ensures Missing(c, Checked(cs)) < |Checked(cs)| <==> Has(c, cs)
  {
    var ks := Checked(cs);
    MissingNone(c, ks);
    if Missing(c, ks) > 0 {
      var n :| 0 <= n < |ks| && ks[n] !in c.present;
      var i, j := CheckedFrom(cs, n);
    }
    if Missing(c, ks) < |ks| {
      var n :| 0 <= n < |ks| && ks[n] in c.present;
      var i, j := CheckedFrom(cs, n);
    }
    if i, j :| 0 <= i < |cs| && !AnySharded(cs[..i + 1]) && 0 <= j < |cs[i].keys| && cs[i].keys[j] !in c.present {
      var n := CheckedHas(cs, i, j);
    }
    if i, j :| 0 <= i < |cs| && !AnySharded(cs[..i + 1]) && 0 <= j < |cs[i].keys| && cs[i].keys[j] in c.present {
      var n := CheckedHas(cs, i, j);
    }
  }

  /** The cluster is down and configured not to serve such a request. */
  ghost predicate Down(c: Cluster, q: Query) {
    !c.healthy && if AnySharded(q.commands) then !c.shardedWhenDown else !c.readsWhenDown
  }

  ghost predicate DownForWrites(c: Cluster, q: Query) {
    !c.healthy && !AnySharded(q.commands) && c.readsWhenDown && q.writes
  }

  /** All keys are in one slot that somebody serves, and the cluster is up enough. */
  ghost predicate Answerable(c: Cluster, hash: Key -> int, q: Query) {
    && Keyed(c, q)
    && var ks := KeysOf(q.commands);
    && hash(ks[0]) in c.owner && OneSlotOnly(hash, ks) && !Down(c, q) && !DownForWrites(c, q)
  }

  /** A replica of the owner serves clients that asked for reading only, and sharded messages. */
  ghost predicate ReadsFromReplica(c: Cluster, q: Query, owner: Node) {
    && (q.readOnly || AnySharded(q.commands)) && !q.writes && !(q.isExec && q.queuedWrites)
    && c.master == Some(owner)
  }

  /** This node answers itself: nothing to route; MIGRATE of an open slot; all that is looked up is here
      and the slot is moving away; the client was sent here by ASK; or the slot is its own or its
      master's. */
  ghost predicate ServesHere(c: Cluster, hash: Key -> int, q: Query) {
    !Keyed(c, q) ||
    (Answerable(c, hash, q) &&
     var slot := hash(KeysOf(q.commands)[0]);
     var (away, here) := (MigratesAway(c, slot), ImportsHere(c, slot));
     || ((away || here) && q.isMigrate)
     || (away && !Misses(c, q.commands))
     || (here && q.asking && !(Differs(KeysOf(q.commands)) && Misses(c, q.commands)))
     || (!away && !(here && q.asking) && (c.owner[slot] == c.myself || ReadsFromReplica(c, q, c.owner[slot]))))
  }

  ghost predicate Asks(c: Cluster, hash: Key -> int, q: Query) {
    && Answerable(c, hash, q) && MigratesAway(c, hash(KeysOf(q.commands)[0])) && !q.isMigrate
    && Misses(c, q.commands) && !Has(c, q.commands)
  }

  ghost predicate TriesAgain(c: Cluster, hash: Key -> int, q: Query) {
    && Answerable(c, hash, q) && !q.isMigrate && Misses(c, q.commands)
    && var slot := hash(KeysOf(q.commands)[0]);
    || (MigratesAway(c, slot) && Has(c, q.commands))
    || (ImportsHere(c, slot) && q.asking && Differs(KeysOf(q.commands)))
  }

  ghost predicate Moved(c: Cluster, hash: Key -> int, q: Query) {
    && Answerable(c, hash, q)
    && var slot := hash(KeysOf(q.commands)[0]);
    && !MigratesAway(c, slot) && !(ImportsHere(c, slot) && (q.asking || q.isMigrate))
    && c.owner[slot] != c.myself && !ReadsFromReplica(c, q, c.owner[slot])
  }

  /** Each answer is given exactly when its reason holds. */
  ghost predicate Exact(c: Cluster, hash: Key -> int, q: Query, a: Answer) {
    var ks := KeysOf(q.commands);
    && (a == Answer(Some(c.myself), NONE) <==> ServesHere(c, hash, q))
    && (a.code == ASK <==> Asks(c, hash, q))
    && (a.code == ASK ==> Keyed(c, q) && hash(ks[0]) in c.migrating && a.node == Some(c.migrating[hash(ks[0])]))
    && (a.code == MOVED <==> Moved(c, hash, q))
    && (a.code == MOVED ==> Keyed(c, q) && hash(ks[0]) in c.owner && a.node == Some(c.owner[hash(ks[0])]))
    && (a == Answer(None, UNSTABLE) <==> TriesAgain(c, hash, q))
    && (a == Answer(None, CROSS_SLOT) <==> Keyed(c, q) && hash(ks[0]) in c.owner && !OneSlotOnly(hash, ks))
    && (a == Answer(None, DOWN_UNBOUND) <==> Keyed(c, q) && hash(ks[0]) !in c.owner)
    && (a == Answer(None, DOWN_STATE) <==>
          Keyed(c, q) && hash(ks[0]) in c.owner && OneSlotOnly(hash, ks) && Down(c, q))
    && (a == Answer(None, DOWN_RO_STATE) <==>
          Keyed(c, q) && hash(ks[0]) in c.owner && OneSlotOnly(hash, ks) && DownForWrites(c, q))
  }

  /** The branches for a request that can be answered. */
  lemma DecideIsExact(c: Cluster, hash: Key -> int, q: Query)
    requires Answerable(c, hash, q)
    ensures Exact(c, hash, q, Route(c, hash, q))
  {
    hide KeysOf, Checked, Missing, AnySharded, Misses, Has, Differs;
    CountsMean(c, q.commands);
    var f := FactsOf(c, hash, q.commands);
    var slot := hash(KeysOf(q.commands)[0]);
    assert f.migrating == MigratesAway(c, slot) && f.importing == ImportsHere(c, slot);
    assert f.migrating || f.importing ==>
        (f.missing > 0 <==> Misses(c, q.commands)) && (f.existing > 0 <==> Has(c, q.commands));
    assert f.several == (f.importing && Differs(KeysOf(q.commands)));
    assert Route(c, hash, q) == Decide(c, q, f);
    hide FactsOf, Route;
  }

  lemma RouteIsExact(c: Cluster, hash: Key -> int, q: Query)
    ensures Exact(c, hash, q, Route(c, hash, q))
  {
    if Answerable(c, hash, q) {
      DecideIsExact(c, hash, q);
    } else {
      hide KeysOf, Checked, Missing, AnySharded, Misses, Has, Differs, MigratesAway, ImportsHere, ReadsFromReplica;
    }
  }

  /** What a caller may rely on: one slot whenever a node is returned, and the keys at hand whenever
      this node serves an open slot. */
  ghost predicate Safe(c: Cluster, hash: Key -> int, q: Query, a: Answer) {
    Keyed(c, q) ==>
      var ks := KeysOf(q.commands);
      && (a.node.Some? ==> OneSlotOnly(hash, ks))
      && (Plain(q) && a == Answer(Some(c.myself), NONE) && MigratesAway(c, hash(ks[0])) ==> AllPresent(c, ks))
      && (Plain(q) && a == Answer(Some(c.myself), NONE) && ImportsHere(c, hash(ks[0])) && q.asking ==>
            AllPresent(c, ks) || AllSame(ks))
  }

  lemma RouteIsSafe(c: Cluster, hash: Key -> int, q: Query)
    ensures Safe(c, hash, q, Route(c, hash, q))
  {
    hide Route, KeysOf, Plain;
    if Keyed(c, q) {
      if Route(c, hash, q).node.Some? {
        OneSlot(c, hash, q);
      }
      if Plain(q) && Route(c, hash, q) == Answer(Some(c.myself), NONE) {
        if MigratesAway(c, hash(KeysOf(q.commands)[0])) {
          ServedWhileMigrating(c, hash, q);
        } else if ImportsHere(c, hash(KeysOf(q.commands)[0])) && q.asking {
          ServedThroughAsking(c, hash, q);
        }
      }
    }
  }

  // ---------------------------------------------------------------------------------------
  // The loop over the queued commands
  // ---------------------------------------------------------------------------------------

  /** The first `i` commands and the first `j` keys of the next one. */
  function Seen(cs: seq<Command>, i: int, j: int): seq<Command>
    requires 0 <= i < |cs| && 0 <= j <= |cs[i].keys|
  {
    cs[..i] + [Command(cs[i].keys[..j], cs[i].sharded)]
  }

  lemma SeenParts(cs: seq<Command>, i: int, j: int)
    requires 0 <= i < |cs| && 0 <= j <= |cs[i].keys|
    ensures KeysOf(Seen(cs, i, j)) == KeysOf(cs[..i]) + cs[i].keys[..j]
    ensures AnySharded(Seen(cs, i, j)) == (AnySharded(cs[..i]) || cs[i].sharded)
    ensures Checked(Seen(cs, i, j)) == Checked(cs[..i]) + (if AnySharded(cs[..i]) ||
            cs[i].sharded then [] else cs[i].keys[..j])
  {
    var seen := Seen(cs, i, j);
    assert seen[..i] == cs[..i];
    assert forall k :: 0 <= k < i ==> seen[k] == cs[..i][k];
    assert seen[i].sharded == cs[i].sharded;
  }

  lemma SeenNext(cs: seq<Command>, i: int, j: int)
    requires 0 <= i < |cs| && 0 <= j < |cs[i].keys|
    ensures KeysOf(Seen(cs, i, j + 1)) == KeysOf(Seen(cs, i, j)) + [cs[i].keys[j]]
    ensures AnySharded(Seen(cs, i, j + 1)) == AnySharded(Seen(cs, i, j))
    ensures Checked(Seen(cs, i, j + 1)) == Checked(Seen(cs, i, j))
            + (if AnySharded(Seen(cs, i, j)) then [] else [cs[i].keys[j]])
  {
    hide KeysOf, Checked, AnySharded;
    SeenParts(cs, i, j);
    SeenParts(cs, i, j + 1);
    assert cs[i].keys[..j + 1] == cs[i].keys[..j] + [cs[i].keys[j]];
  }

  lemma SeenAll(cs: seq<Command>, i: int)
    requires 0 <= i < |cs|
    ensures Seen(cs, i, |cs[i].keys|) == cs[..i + 1]
  {
    assert cs[i].keys[..|cs[i].keys|] == cs[i].keys;
  }

  lemma {:induction false} KeysPrefix(cs: seq<Command>, i: int)
    requires 0 <= i <= |cs|
    ensures KeysOf(cs[..i]) <= KeysOf(cs)
    decreases |cs|
  {
    if i == |cs| {
      assert cs[..i] == cs;
    } else {
      var init := cs[..|cs| - 1];
      KeysPrefix(init, i);
      assert init[..i] == cs[..i];
    }
  }

  lemma SeenPrefix(cs: seq<Command>, i: int, j: int)
    requires 0 <= i < |cs| && 0 <= j <= |cs[i].keys|
    ensures KeysOf(Seen(cs, i, j)) <= KeysOf(cs)
  {
    hide AnySharded, Checked;
    SeenParts(cs, i, j);
    SeenParts(cs, i, |cs[i].keys|);
    SeenAll(cs, i);
    KeysPrefix(cs, i + 1);
    assert cs[i].keys[..|cs[i].keys|] == cs[i].keys;
  }

  ghost predicate OneSlotOnly(hash: Key -> int, ks: seq<Key>) {
    forall i :: 0 <= i < |ks| ==> hash(ks[i]) == hash(ks[0])
  }

  /** The variables of the loop say what is true of the keys seen so far. */
  ghost predicate Tracks(c: Cluster, hash: Key -> int, seen: seq<Command>, first: Option<Key>, f: Facts) {
    var ks := KeysOf(seen);
    if ks == [] then first.None? && !f.migrating && !f.importing && !f.several && f.missing == 0 && f.existing == 0 &&
            f.sharded == AnySharded(seen)
    else first == Some(ks[0]) && hash(ks[0]) in c.owner && OneSlotOnly(hash, ks) && f == FactsOf(c, hash, seen)
  }

  lemma MissingNext(c: Cluster, ks: seq<Key>, k: Key)
    ensures Missing(c, ks + [k]) == Missing(c, ks) + (if k in c.present then 0 else 1)
  {
    assert (ks + [k])[..|ks|] == ks;
  }

  /** What one more key changes. */
  function WithKey(c: Cluster, hash: Key -> int, first: Option<Key>, f: Facts, k: Key): Facts
    requires hash(k) in c.owner
  {
    var slot := hash(k);
    var migrating := c.owner[slot] == c.myself && slot in c.migrating;
    var g := if first.None? then Facts(slot, c.owner[slot], migrating, !migrating &&
            slot in c.importing, false, f.missing, f.existing, f.sharded)
             else f.(several := f.several || (f.importing && first.value != k));
    if (g.migrating || g.importing) && !g.sharded then
      if k in c.present then g.(existing := g.existing + 1) else g.(missing := g.missing + 1)
    else g
  }

  lemma TracksKey(c: Cluster, hash: Key -> int, cs: seq<Command>, i: int, j: int, first: Option<Key>, f: Facts)
    requires 0 <= i < |cs| && 0 <= j < |cs[i].keys| && Tracks(c, hash, Seen(cs, i, j), first, f)
    requires hash(cs[i].keys[j]) in c.owner && (first.Some? ==> hash(cs[i].keys[j]) == f.slot)
    ensures Tracks(c, hash, Seen(cs, i, j + 1), if first.None? then Some(cs[i].keys[j])
            else first, WithKey(c, hash, first, f, cs[i].keys[j]))
  {
    hide KeysOf, Checked, AnySharded, Missing, Seen;
    var (seen, next, k) := (Seen(cs, i, j), Seen(cs, i, j + 1), cs[i].keys[j]);
    SeenNext(cs, i, j);
    MissingNext(c, Checked(seen), k);
    assert Checked(seen) + [] == Checked(seen);
    var ks := KeysOf(seen);
    if ks == [] {
      NoneChecked(seen);
      MissingEmpty(c);
      assert ks + [k] == [k] && !Differs([k]);
    } else {
      hide Differs;
      DiffersNext(ks, k);
      assert (ks + [k])[0] == ks[0];
      assert OneSlotOnly(hash, ks + [k]);
    }
  }

  lemma DiffersNext(ks: seq<Key>, k: Key)
    requires ks != []
    ensures Differs(ks + [k]) == (Differs(ks) || k != ks[0])
  {
    var next := ks + [k];
    assert next[|ks|] == k && next[0] == ks[0];
    assert forall i :: 0 <= i < |ks| ==> next[i] == ks[i];
  }

  lemma {:induction false} NoneChecked(cs: seq<Command>)
    requires KeysOf(cs) == []
    ensures Checked(cs) == []
  {
    if cs != [] {
      NoneChecked(cs[..|cs| - 1]);
    }
  }

  lemma MissingEmpty(c: Cluster)
    ensures Missing(c, []) == 0
  {
  }

  lemma Arrived(c: Cluster, hash: Key -> int, q: Query, f: Facts, first: Option<Key>)
    requires Tracks(c, hash, q.commands, first, f) && first.Some? && !c.noRedirection && !(q.isExec && !q.inMulti)
    ensures Route(c, hash, q) == Decide(c, q, f)
  {
    hide KeysOf, FactsOf, Decide;
  }

  lemma FailedAt(c: Cluster, hash: Key -> int, q: Query, i: int, j: int)
    requires 0 <= i < |q.commands| && 0 <= j < |q.commands[i].keys| && !c.noRedirection && !(q.isExec && !q.inMulti)
    ensures var (ks, k) := (KeysOf(Seen(q.commands, i, j)), q.commands[i].keys[j]);
            && (ks == [] && hash(k) !in c.owner ==> Route(c, hash, q) == Answer(None, DOWN_UNBOUND))
            && (ks != [] && hash(ks[0]) in c.owner && hash(k) != hash(ks[0]) ==>
                    Route(c, hash, q) == Answer(None, CROSS_SLOT))
  {
    hide KeysOf, Checked, AnySharded, Seen, Decide, FactsOf;
    SeenNext(q.commands, i, j);
    SeenPrefix(q.commands, i, j + 1);
    var (ks, all, k) := (KeysOf(Seen(q.commands, i, j)), KeysOf(q.commands), q.commands[i].keys[j]);
    assert all[|ks|] == k;
    assert ks != [] ==> all[0] == ks[0];
  }

  /** getNodeByQuery. */
  method GetNodeByQuery(c: Cluster, hash: Key -> int, q: Query) returns (a: Answer)
    ensures a == Route(c, hash, q) && Safe(c, hash, q, a) && Exact(c, hash, q, a)
  {
    RouteIsSafe(c, hash, q);
    RouteIsExact(c, hash, q);
    if c.noRedirection || (q.isExec && !q.inMulti) {
      return Answer(Some(c.myself), NONE);
    }
    hide KeysOf, Checked, AnySharded, Seen, Route, FactsOf, Tracks, Decide, Safe, Exact;
    var cs := q.commands;
    var first: Option<Key> := None;
    var f := Facts(0, c.myself, false, false, false, 0, 0, false);
    NothingSeen(c, hash, cs, f);
    for i := 0 to |cs|
      invariant Tracks(c, hash, cs[..i], first, f)
    {
      CommandSeen(c, hash, cs, i, first, f);
      if !f.sharded && cs[i].sharded {
        f := f.(sharded := true);
      }
      for j := 0 to |cs[i].keys|
        invariant Tracks(c, hash, Seen(cs, i, j), first, f)
      {
        var key := cs[i].keys[j];
        var slot := hash(key);
        FailedAt(c, hash, q, i, j);
        FirstSeen(c, hash, Seen(cs, i, j), first, f);
        if first.None? {
          if slot !in c.owner {
            return Answer(None, DOWN_UNBOUND);
          }
        } else if f.slot != slot {
          return Answer(None, CROSS_SLOT);
        }
        TracksKey(c, hash, cs, i, j, first, f);
        f := WithKey(c, hash, first, f, key);
        if first.None? {
          first := Some(key);
        }
      }
      SeenAll(cs, i);
    }
    assert cs[..|cs|] == cs;
    if first.None? {
      NoKeys(c, hash, q, f);
      return Answer(Some(c.myself), NONE);
    }
    Arrived(c, hash, q, f, first);
    a := Decide(c, q, f);
  }

  lemma NothingSeen(c: Cluster, hash: Key -> int, cs: seq<Command>, f: Facts)
    requires f == Facts(f.slot, f.owner, false, false, false, 0, 0, false)
    ensures Tracks(c, hash, cs[..0], None, f)
  {
  }

  lemma CommandSeen(c: Cluster, hash: Key -> int, cs: seq<Command>, i: int, first: Option<Key>, f: Facts)
    requires 0 <= i < |cs| && Tracks(c, hash, cs[..i], first, f)
    ensures Tracks(c, hash, Seen(cs, i, 0), first, if !f.sharded && cs[i].sharded then f.(sharded := true) else f)
  {
    hide KeysOf, Checked, AnySharded, Seen, Missing, Differs;
    SeenParts(cs, i, 0);
    assert KeysOf(Seen(cs, i, 0)) == KeysOf(cs[..i]);
    assert Checked(Seen(cs, i, 0)) == Checked(cs[..i]);
  }

  lemma FirstSeen(c: Cluster, hash: Key -> int, seen: seq<Command>, first: Option<Key>, f: Facts)
    requires Tracks(c, hash, seen, first, f)
    ensures first.None? <==> KeysOf(seen) == []
    ensures first.Some? ==> f.slot == hash(KeysOf(seen)[0]) && f.slot in c.owner
  {
  }

  lemma NoKeys(c: Cluster, hash: Key -> int, q: Query, f: Facts)
    requires Tracks(c, hash, q.commands, None, f)
    ensures Route(c, hash, q) == Answer(Some(c.myself), NONE)
  {
    hide FactsOf, Decide;
  }
}
