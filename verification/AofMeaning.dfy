/** What the events of the append-only file lifecycle achieve: the dataset is that of all writes, a rewrite
    replaces what it rewrote, a failed one changes nothing, and switching on and off does so. */
module AofMeaning {
  import opened Wrappers
  import opened AofLifecycle

  // ---------------------------------------------------------------------------------------
  // The dataset
  // ---------------------------------------------------------------------------------------

  /** The commands of the write events, in order. */
  function Writes<C>(events: seq<Event<C>>): seq<C> {
    if events == [] then [] else WriteOf(events[0]) + Writes(events[1..])
  }

  function WriteOf<C>(ev: Event<C>): seq<C> {
    if ev.Write? then [ev.c] else []
  }

  lemma RewriteDoneKeepsData<D(!new), C(!new)>(s: Aof<D, C>, e: Done)
    requires s.child.Rewriting?
    ensures RewriteDone(s, e).data == s.data
  {
    hide MarkIncrAsHistory, NewBase, NewIncr;
  }

  lemma EventData<D(!new), C(!new)>(sem: Semantics<D, C>, s: Aof<D, C>, ev: Event<C>)
    ensures Next(sem, s, ev).data == if ev.Write? then sem.apply(s.data, ev.c) else s.data
  {
    hide RewriteDone;
    match ev
    case ChildExit(e) =>
      if s.child.Rewriting? {
        RewriteDoneKeepsData(s, e);
      }
    case _ =>
  }

  lemma WritesNext<C>(cmds: seq<C>, events: seq<Event<C>>)
    requires events != []
    ensures cmds + WriteOf(events[0]) + Writes(events[1..]) == cmds + Writes(events)
  {
    assert Writes(events) == WriteOf(events[0]) + Writes(events[1..]);
    hide *;
    Associate(cmds, WriteOf(events[0]), Writes(events[1..]));
  }

  lemma Associate<C>(a: seq<C>, b: seq<C>, c: seq<C>)
    ensures a + b + c == a + (b + c)
  {
  }

  lemma EventLoads<D(!new), C(!new)>(sem: Semantics<D, C>, s: Aof<D, C>, cmds: seq<C>, ev: Event<C>)
    requires Faithful(sem) && s.data == sem.load(cmds)
    ensures Next(sem, s, ev).data == sem.load(cmds + WriteOf(ev))
  {
    EventData(sem, s, ev);
    hide Next;
    assert !ev.Write? ==> cmds + WriteOf(ev) == cmds;
  }

  lemma {:induction false} RunData<D(!new), C(!new)>(sem: Semantics<D, C>, s: Aof<D, C>, cmds: seq<C>,
                                                    events: seq<Event<C>>)
    requires Faithful(sem) && s.data == sem.load(cmds)
    ensures After(sem, s, events).data == sem.load(cmds + Writes(events))
    decreases |events|
  {
    hide Next, Faithful, WriteOf;
    if events == [] {
      assert cmds + Writes(events) == cmds;
    } else {
      EventLoads(sem, s, cmds, events[0]);
      WritesNext(cmds, events);
      hide Writes;
      RunData(sem, Next(sem, s, events[0]), cmds + WriteOf(events[0]), events[1..]);
    }
  }

  /** Whatever happens to the files, the dataset is that of all writes so far; after an orderly run with
      the AOF on it is also what the files give once the buffer is written out. */
  lemma FilesHoldAllWrites<D(!new), C(!new)>(sem: Semantics<D, C>, events: seq<Event<C>>)
    requires Faithful(sem)
    ensures After(sem, Boot(sem), events).data == sem.load(Writes(events))
    ensures OrderlyRun(sem, Boot(sem), events) && After(sem, Boot(sem), events).mode.On? ==>
              var t := Flush(After(sem, Boot(sem), events), true);
              && (forall n <- Order(t.disk) :: n in t.files)
              && sem.load(Contents(t.files, Order(t.disk))) == sem.load(Writes(events))
  {
    RunData(sem, Boot(sem), [], events);
    assert [] + Writes(events) == Writes(events);
    if OrderlyRun(sem, Boot(sem), events) {
      NeverLosesTheDataset(sem, events);
      hide Boot, Next;
    }
  }

  // ---------------------------------------------------------------------------------------
  // Rewrites
  // ---------------------------------------------------------------------------------------

  lemma InvIsCatalogued<D(!new), C(!new)>(sem: Semantics<D, C>, s: Aof<D, C>)
    requires AofInv(sem, s)
    ensures Catalogued(s)
  {
  }

  lemma InstalledManifest<D(!new), C(!new)>(sem: Semantics<D, C>, s: Aof<D, C>)
    requires AofInv(sem, s) && s.child.Rewriting? && !s.mode.Off? && (s.mode.WaitRewrite? ==> TempIncr in s.files)
    ensures var u := Installed(s);
            && Catalogued(u) && u.mode == s.mode && u.disk == u.mem && u.fd.Open?
            && u.mem.base == Some(Base(s.mem.baseSeq + 1)) && u.mem.incr == [u.fd.name]
  {
    if s.mode.On? {
      InstalledPair(s);
      RewrittenOk(s.mem, true);
    } else {
      InstalledFirst(s);
      assert NewIncr(NewBase(s.mem)) == NewBase(NewIncr(s.mem));
      NewIncrOk(s.mem);
      RewrittenOk(NewIncr(s.mem), true);
    }
    hide ManifestOk, Catalogued, Contents, Order, Pending;
  }

  lemma InstalledNames<D(!new), C(!new)>(sem: Semantics<D, C>, s: Aof<D, C>)
    requires AofInv(sem, s) && s.child.Rewriting? && !s.mode.Off? && (s.mode.WaitRewrite? ==> TempIncr in s.files)
    ensures var u := Installed(s);
            && Catalogued(u) && u.mode == s.mode && u.disk == u.mem && u.fd.Open?
            && Order(u.mem) == [Base(s.mem.baseSeq + 1), u.fd.name]
            && Base(s.mem.baseSeq + 1) in u.files && u.files[Base(s.mem.baseSeq + 1)] == s.child.output
  {
    InstalledManifest(sem, s);
    BaseInstalled(s);
    hide Installed, ManifestOk, Pending, Durable;
    var u := Installed(s);
    assert Order(u.mem) == [Base(s.mem.baseSeq + 1), u.fd.name];
  }

  lemma CommitKeeps<D(!new), C(!new)>(u: Aof<D, C>, e: Done)
    requires Catalogued(u) && u.disk == u.mem && !u.mode.Off?
    ensures var t := Commit(u, e);
            && t.mode.On? && t.child.NoChild? && t.fd == u.fd && Order(t.disk) == Order(u.mem)
            && (forall n <- Order(u.mem) :: n in t.files && t.files[n] == u.files[n])
            && (e.gc ==> t.mem.hist == [] && forall n <- u.mem.hist :: n !in t.files)
  {
    LiveOrder(u.mem);
  }

  /** A rewrite that ends well leaves the new base and the file being written to; with garbage collection
      nothing else that was named before remains. */
  lemma RewriteReplaces<D(!new), C(!new)>(sem: Semantics<D, C>, s: Aof<D, C>, e: Done)
    requires AofInv(sem, s) && s.child.Rewriting? && Succeeds(s, e) && !s.mode.Off?
    ensures var t := RewriteDone(s, e);
            && t.mode.On? && t.child.NoChild? && t.fd.Open?
            && Order(t.disk) == [Base(s.mem.baseSeq + 1), t.fd.name]
            && Base(s.mem.baseSeq + 1) in t.files && t.files[Base(s.mem.baseSeq + 1)] == s.child.output
            && (e.gc ==> t.mem.hist == [] && forall n <- Order(s.disk) :: n !in Order(t.disk) ==> n !in t.files)
  {
    hide RewriteDone, Installed, Commit, Catalogued, Pending, Durable, DelHistory;
    Settles(s, e);
    var u := Installed(s);
    InstalledNames(sem, s);
    CommitKeeps(u, e);
    forall n <- Order(s.disk) | n !in Order(u.mem)
      ensures n in u.mem.hist
    {
      InvIsCatalogued(sem, s);
      NamedBecomesHistory(s, n);
    }
  }

  lemma BaseInstalled<D(!new), C(!new)>(s: Aof<D, C>)
    requires Catalogued(s) && s.child.Rewriting? && (s.mode.WaitRewrite? ==> TempIncr in s.files)
    ensures var u := Installed(s);
            Base(s.mem.baseSeq + 1) in u.files && u.files[Base(s.mem.baseSeq + 1)] == s.child.output
  {
  }

  /** What the old manifest named and the new one does not is history. */
  lemma NamedBecomesHistory<D(!new), C(!new)>(s: Aof<D, C>, n: FileName)
    requires Catalogued(s) && s.child.Rewriting? && (s.mode.WaitRewrite? ==> TempIncr in s.files)
    requires n in Order(s.disk) && n !in Order(Installed(s).mem)
    ensures n in Installed(s).mem.hist
  {
    var t := Install(s);
    var (am, r) := (t.mem, Installed(s).mem);
    assert Order(s.disk) == Order(s.mem);
    if s.mem.base == Some(n) {
      assert n in am.hist;
    } else {
      assert n in am.incr;
      var k := if !t.fd.Closed? then |am.incr| - 1 else |am.incr|;
      assert am.incr == am.incr[..k] + am.incr[k..];
      assert r.incr == am.incr[k..];
    }
  }

  /** Nothing that a load would look at is different, and the rewrite is over. */
  ghost predicate Unchanged<D(!new), C(!new)>(s: Aof<D, C>, t: Aof<D, C>) {
    && t.mem == s.mem && t.disk == s.disk && t.data == s.data && t.mode == s.mode && t.child.NoChild?
    && (s.mode.On? ==> t.buf == s.buf && t.fd == s.fd)
    && forall n <- Order(s.mem) :: n in t.files && n in s.files && t.files[n] == s.files[n]
  }

  lemma CleanupKeeps<D(!new), C(!new)>(s: Aof<D, C>, t: Aof<D, C>)
    requires Catalogued(s) && t.mem == s.mem && t.disk == s.disk && t.mode == s.mode && t.data == s.data
    requires s.mode.On? ==> t.buf == s.buf && t.fd == s.fd
    requires forall n <- Order(s.mem) :: n in t.files && t.files[n] == s.files[n]
    ensures Unchanged(s, Cleanup(t))
  {
    LiveNames(s.mem);
  }

  lemma RollBackKeeps<D(!new), C(!new)>(sem: Semantics<D, C>, s: Aof<D, C>)
    requires AofInv(sem, s) && s.child.Rewriting? && (s.mode.WaitRewrite? ==> TempIncr in s.files)
    ensures Unchanged(s, RollBack(s, Install(s)))
  {
    var t := Install(s);
    var lost := {Base(t.mem.baseSeq)} + (if s.mode.WaitRewrite? then {Incr(t.mem.incrSeq)} else {});
    LiveNames(s.mem);
    CleanupKeeps(s, t.(mem := s.mem, fd := if t.fd.Open? && t.fd.name in lost then Detached else t.fd,
                       files := t.files - lost)) by {
      assert s.mode.On? && t.fd.Open? ==> t.fd.name !in lost;
      hide AofInv, Pending, Durable;
    }
  }

  /** A rewrite that fails, at any point, changes neither manifest nor any file they name, and ends. */
  lemma FailureChangesNothing<D(!new), C(!new)>(sem: Semantics<D, C>, s: Aof<D, C>, e: Done)
    requires AofInv(sem, s) && s.child.Rewriting? && !Succeeds(s, e)
    ensures Unchanged(s, RewriteDone(s, e))
  {
    hide Unchanged, Pending, Durable;
    LiveNames(s.mem);
    if !e.success || !e.renameBase {
      CleanupKeeps(s, s);
    } else if s.mode.WaitRewrite? && (!e.renameIncr || TempIncr !in s.files) {
      CleanupKeeps(s, s.(files := s.files - {Base(s.mem.baseSeq + 1)}));
    } else {
      RollBackKeeps(sem, s);
      assert MarkIncrAsHistory(Install(s).mem, !Install(s).fd.Closed?).dirty;
    }
  }

  /** A rewrite that starts forks a child for the present dataset and opens the next INCR file, or the
      temporary one while the AOF waits for its first rewrite. */
  lemma StartForks<D(!new), C(!new)>(sem: Semantics<D, C>, s: Aof<D, C>, e: Start)
    requires Starts(s, e)
    ensures var (ok, t) := StartRewrite(sem, s, e);
            && ok && t.child == Rewriting(sem.rewrite(s.data)) && t.mode == s.mode
            && (s.mode.On? ==>
                  t.fd == Open(Incr(s.mem.incrSeq + 1)) && t.mem.incr == s.mem.incr + [Incr(s.mem.incrSeq + 1)])
            && (s.mode.WaitRewrite? ==> t.fd == Open(TempIncr) && t.mem == s.mem)
            && (!s.mode.Off? ==> t.fd.name in t.files && t.files[t.fd.name] == [])
  {
    assert Flush(s, e.flushOk).mode == s.mode && Flush(s, e.flushOk).mem == s.mem && Flush(s, e.flushOk).data == s.data;
    hide Flush;
  }

  // ---------------------------------------------------------------------------------------
  // Switching off and on
  // ---------------------------------------------------------------------------------------

  /** Switching off closes the file, stops a rewrite and forgets what could not be written; with a complete
      flush the files hold the dataset. */
  lemma StopMeans<D(!new), C(!new)>(sem: Semantics<D, C>, s: Aof<D, C>, flushOk: bool)
    ensures var t := StopAppendOnly(s, flushOk);
            && t.mode.Off? && t.fd.Closed? && t.child.NoChild? && t.buf == [] && t.mem == s.mem && t.disk == s.disk
            && t.data == s.data
            && (AofInv(sem, s) && s.mode.On? && flushOk ==>
                  && (forall n <- Order(t.disk) :: n in t.files)
                  && sem.load(Contents(t.files, Order(t.disk))) == t.data)
  {
    if AofInv(sem, s) && s.mode.On? && flushOk {
      InvIsLossless(sem, s);
    }
    hide AofInv;
  }

  /** Enabling the AOF later only says so; if its rewrite cannot start, the AOF stays off. */
  lemma EnableLaterMeans<D(!new), C(!new)>(sem: Semantics<D, C>, s: Aof<D, C>, e: Start)
    ensures StartAppendOnly(sem, s, true, e) == s.(mode := WaitRewrite)
    ensures !e.openOk || !e.forkOk ==> StartAppendOnly(sem, s, false, e).mode.Off?
  {
    StartsIsExact(sem, s.(mode := WaitRewrite, child := NoChild), e);
    hide StartRewrite;
  }

  /** A failed rewrite leaves no file of its own behind, and what was logged for a first one is dropped. */
  lemma FailureTidiesUp<D(!new), C(!new)>(sem: Semantics<D, C>, s: Aof<D, C>, e: Done)
    requires AofInv(sem, s) && s.child.Rewriting? && !Succeeds(s, e)
    ensures var t := RewriteDone(s, e);
            && (e.success && e.renameBase ==> Base(s.mem.baseSeq + 1) !in t.files)
            && (s.mode.WaitRewrite? ==> t.buf == [] && TempIncr !in t.files && (t.fd.Open? ==> t.fd.name != TempIncr))
  {
    if e.success && e.renameBase && (s.mode.WaitRewrite? ==> e.renameIncr && TempIncr in s.files) {
      assert MarkIncrAsHistory(Install(s).mem, !Install(s).fd.Closed?).dirty;
    }
    hide MarkIncrAsHistory, Pending, Durable, Catalogued;
  }

  /** Enabling the AOF, and the rewrite it starts, switch it on with files that hold the dataset. */
  lemma EnableMeans<D(!new), C(!new)>(sem: Semantics<D, C>, s: Aof<D, C>, start: Start, done: Done)
    requires Faithful(sem) && AofInv(sem, s) && s.mode.Off? && start.openOk && start.forkOk
    requires done.success && done.renameBase && done.renameIncr && done.persistOk
    ensures var t := StartAppendOnly(sem, s, false, start);
            && t.mode.WaitRewrite? && t.child.Rewriting?
            && RewriteDone(t, done).mode.On? && Lossless(sem, RewriteDone(t, done))
  {
    var w := s.(mode := WaitRewrite, child := NoChild);
    StartForks(sem, w, start);
    EnableInv(sem, s, false, start);
    var t := StartAppendOnly(sem, s, false, start);
    RewriteReplaces(sem, t, done);
    ExitInv(sem, t, done);
    InvIsLossless(sem, RewriteDone(t, done));
  }
}
