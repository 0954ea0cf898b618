/** Why a run has to be orderly: two runs of a server that holds one counter and loses it, and then,
    for all servers, that whatever is not orderly loses the dataset in some run. */
module AofDisorder {
  import opened Wrappers
  import opened AofLifecycle

  function Sum(cmds: seq<int>): int {
    if cmds == [] then 0 else Sum(cmds[..|cmds| - 1]) + cmds[|cmds| - 1]
  }

  /** The dataset is a number and every command adds to it. */
  function Counter(): Semantics<int, int> {
    Semantics((cmds: seq<int>) => Sum(cmds), (d: int, c: int) => d + c, (d: int) => [d])
  }

  lemma CounterFaithful()
    ensures Faithful(Counter())
  {
    forall cmds: seq<int>, c: int
      ensures Counter().load(cmds + [c]) == Counter().apply(Counter().load(cmds), c)
    {
      assert (cmds + [c])[..|cmds|] == cmds;
    }
    forall d: int
      ensures Counter().load(Counter().rewrite(d)) == d
    {
      assert [d][..0] == [];
      assert Sum([d]) == Sum([]) + d;
    }
  }

  const OK := Done(true, true, true, true, true, true)

  function Am(base: nat, incr: seq<FileName>, hist: seq<FileName>, incrSeq: nat): Manifest {
    Manifest(Some(Base(base)), incr, hist, base, incrSeq, false)
  }

  function Booted(): Aof<int, int> {
    Aof(On, Am(1, [Incr(1)], [], 1), Am(1, [Incr(1)], [], 1), map[Base(1) := [0], Incr(1) := []],
        Open(Incr(1)), [], 0, NoChild)
  }

  /** After a write that was not flushed, and the fork. */
  function Forked(): Aof<int, int> {
    var am := Am(1, [Incr(1), Incr(2)], [], 2);
    Aof(On, am, am, map[Base(1) := [0], Incr(1) := [], Incr(2) := []], Open(Incr(2)), [1], 1, Rewriting([1]))
  }

  function Rewritten(): Aof<int, int> {
    var am := Am(2, [Incr(2)], [], 2);
    Aof(On, am, am, map[Base(2) := [1], Incr(2) := [1]], Open(Incr(2)), [], 1, NoChild)
  }

  lemma Forks()
    ensures Boot(Counter()) == Booted()
    ensures var s := Next(Counter(), Booted(), Write(1));
            Next(Counter(), s, Rewrite(Start(false, true, true, true))) == Forked()
  {
    var s := Next(Counter(), Booted(), Write(1));
    assert s == Booted().(buf := [1], data := 1);
    var t := OpenNewIncr(s, true, true).1;
    assert t.mem == Forked().mem;
    assert t.files == Forked().files;
  }

  lemma Finishes()
    ensures Next(Counter(), Next(Counter(), Forked(), FlushBuffer(true)), ChildExit(OK)) == Rewritten()
  {
    var s := Next(Counter(), Forked(), FlushBuffer(true));
    assert Forked().files[Incr(2)] + [1] == [1];
    assert s == Forked().(files := Forked().files[Incr(2) := [1]], buf := []);
    var am := MarkIncrAsHistory(NewBase(s.mem), true);
    assert am.incr == [Incr(2)] && am.hist == [Incr(1), Base(1)];
    var t := RewriteDone(s, OK);
    assert t.files == Rewritten().files;
    assert t.mem == Rewritten().mem;
  }

  lemma RewrittenLoads()
    ensures var s := Rewritten();
            && (forall n <- Order(s.disk) :: n in s.files)
            && Counter().load(Contents(s.files, Order(s.disk))) == 2
  {
    var s := Rewritten();
    assert Order(s.disk) == [Base(2), Incr(2)];
    TwoFiles(s.files, Base(2), Incr(2));
    assert [1, 1][..1] == [1] && [1][..0] == [];
    assert Sum([1, 1]) == Sum([1]) + 1 && Sum([1]) == Sum([]) + 1;
  }

  /** A write is still in the buffer when a rewrite starts and the flush fails: it ends up both in
      the new base and in the INCR file after it. */
  lemma DoubleCount()
    ensures Faithful(Counter())
    ensures var s1 := Next(Counter(), Boot(Counter()), Write(1));
            var s2 := Next(Counter(), s1, Rewrite(Start(false, true, true, true)));
            var s3 := Next(Counter(), s2, FlushBuffer(true));
            var s4 := Next(Counter(), s3, ChildExit(OK));
            && s4.mode.On? && s4.buf == [] && s4.data == 1
            && (forall n <- Order(s4.disk) :: n in s4.files)
            && Counter().load(Contents(s4.files, Order(s4.disk))) == 2
  {
    CounterFaithful();
    Forks();
    Finishes();
    RewrittenLoads();
    hide Next, Boot, Booted, Forked, Counter, Faithful;
  }

  /** The AOF was enabled and disabled again during its first rewrite, which leaves a temporary
      INCR file behind; then a rewrite is started with the AOF off. */
  function Leftover(): Aof<int, int> {
    var am := Am(1, [Incr(1)], [], 1);
    Aof(Off, am, am, map[Base(1) := [0], Incr(1) := [], TempIncr := []], Closed, [], 0, Rewriting([0]))
  }

  lemma LeavesTemporary()
    ensures var s1 := Next(Counter(), Booted(), Disable(true));
            var s2 := Next(Counter(), s1, Enable(false, Start(true, true, true, true)));
            var s3 := Next(Counter(), s2, Disable(true));
            Next(Counter(), s3, Rewrite(Start(true, true, true, true))) == Leftover()
  {
    var s1 := Next(Counter(), Booted(), Disable(true));
    var s2 := Next(Counter(), s1, Enable(false, Start(true, true, true, true)));
    assert s2.files == Leftover().files && s2.buf == [];
  }

  function EnabledLate(): Aof<int, int> {
    Leftover().(data := 5, mode := WaitRewrite)
  }

  lemma LateExit()
    ensures var t := RewriteDone(EnabledLate(), OK);
            && t.mode.On? && t.fd.Closed? && t.buf == [] && t.data == 5
            && Order(t.disk) == [Base(2)] && Base(2) in t.files && t.files[Base(2)] == [0]
  {
    var t := Install(EnabledLate());
    assert t.mem.incr == [Incr(1), Incr(2)];
    var am := MarkIncrAsHistory(t.mem, false);
    assert am.incr == [] && am.base == Some(Base(2));
  }

  /** Enabling the AOF in a transaction while that rewrite runs: its end switches the AOF on with no
      INCR file open and with the write made meanwhile neither in a file nor in the new base. */
  lemma LateEnable()
    ensures var s1 := Next(Counter(), Leftover(), Write(5));
            var s2 := Next(Counter(), s1, Enable(true, Start(true, true, true, true)));
            var s3 := Next(Counter(), s2, ChildExit(OK));
            && s3.mode.On? && s3.fd.Closed? && s3.buf == [] && s3.data == 5
            && (forall n <- Order(s3.disk) :: n in s3.files)
            && Counter().load(Contents(s3.files, Order(s3.disk))) == 0
  {
    hide RewriteDone, Order;
    LateExit();
    var s3 := RewriteDone(EnabledLate(), OK);
    assert [Base(2)][..0] == [];
    assert Contents(s3.files, [Base(2)]) == [] + [0];
    assert [0][..0] == [] && Sum([0]) == Sum([]) + 0;
  }

  // ---------------------------------------------------------------------------------------
  // For all servers: what is not orderly loses data in some history
  // ---------------------------------------------------------------------------------------

  /** Whatever orderly events follow, the dataset is safe. */
  ghost predicate StaysLossless<D(!new), C(!new)>(sem: Semantics<D, C>, s: Aof<D, C>) {
    forall events :: OrderlyRun(sem, s, events) ==> Lossless(sem, After(sem, s, events))
  }

  lemma InvStaysLossless<D(!new), C(!new)>(sem: Semantics<D, C>, s: Aof<D, C>)
    requires Faithful(sem) && AofInv(sem, s)
    ensures StaysLossless(sem, s)
  {
    forall events | OrderlyRun(sem, s, events)
      ensures Lossless(sem, After(sem, s, events))
    {
      RunInv(sem, s, events);
      InvIsLossless(sem, After(sem, s, events));
    }
  }

  /** Losing the dataset after one more event, or already, is losing it in some history. */
  lemma LosesNext<D(!new), C(!new)>(sem: Semantics<D, C>, s: Aof<D, C>, ev: Event<C>)
    requires Possible(s, ev) && Orderly(sem, s, ev) && StaysLossless(sem, s)
    ensures Lossless(sem, s) && StaysLossless(sem, Next(sem, s, ev))
  {
    assert OrderlyRun(sem, s, []) && After(sem, s, []) == s;
    var t := Next(sem, s, ev);
    forall events | OrderlyRun(sem, t, events)
      ensures Lossless(sem, After(sem, t, events))
    {
      var all := [ev] + events;
      assert all[0] == ev && all[1..] == events;
      assert OrderlyRun(sem, s, all);
      assert After(sem, s, all) == After(sem, t, events);
    }
  }

  lemma LosesNow<D(!new), C(!new)>(sem: Semantics<D, C>, s: Aof<D, C>)
    requires !Lossless(sem, s)
    ensures !StaysLossless(sem, s)
  {
    assert OrderlyRun(sem, s, []) && After(sem, s, []) == s;
  }

  /** The child succeeds, everything after it too, and history is kept. */
  const KEEP := Done(true, true, true, true, false, true)

  lemma LosesOnFlush<D(!new), C(!new)>(sem: Semantics<D, C>, u: Aof<D, C>)
    requires Catalogued(u) && u.mode.On? && u.mem.incr != [] && u.fd == Open(u.mem.incr[|u.mem.incr| - 1])
    requires sem.load(Contents(u.files, Order(u.mem)) + u.buf) != u.data
    ensures !Lossless(sem, u)
  {
    LastIsNew(u.mem);
    ContentsGrow(u.files, Order(u.mem), u.buf);
    var t := Flush(u, true);
    assert Order(t.disk) == Order(u.mem) && u.fd.name in Order(u.mem);
    if u.buf == [] {
      assert Contents(u.files, Order(u.mem)) + u.buf == Contents(u.files, Order(u.mem));
    }
  }

  /** After a rewrite the files load to its output followed by the file opened at the fork and what
      was still in the buffer; if that is not the dataset, it is lost. */
  lemma LosesAtExit<D(!new), C(!new)>(sem: Semantics<D, C>, s: Aof<D, C>)
    requires Catalogued(s) && s.child.Rewriting? && s.fd.Open? && s.fd.name in s.files
    requires s.mode.On? ==> s.mem.incr != [] && s.fd == Open(s.mem.incr[|s.mem.incr| - 1])
    requires s.mode.WaitRewrite? ==> s.fd.name == TempIncr
    requires !s.mode.Off? && sem.load(s.child.output + s.files[s.fd.name] + s.buf) != s.data
    ensures !StaysLossless(sem, s)
  {
    var u := Next(sem, s, ChildExit(KEEP));
    Settles(s, KEEP);
    if s.mode.On? {
      InstalledPair(s);
    } else {
      InstalledFirst(s);
    }
    KeepCatalogue(Installed(s), u);
    hide RewriteDone, MarkIncrAsHistory, Install, Catalogued, ManifestOk, Contents, Order;
    LosesOnFlush(sem, u);
    LosesNow(sem, u);
    if StaysLossless(sem, s) {
      LosesNext(sem, s, ChildExit(KEEP));
    }
  }

  /** A buffer that is not empty after the flush and matters when it is replayed. */
  lemma RewriteLoses<D(!new), C(!new)>(sem: Semantics<D, C>, s: Aof<D, C>, e: Start)
    requires Faithful(sem) && AofInv(sem, s) && !Replayable(sem, s, e)
    ensures !StaysLossless(sem, StartRewrite(sem, s, e).1)
  {
    var f := Flush(s, e.flushOk);
    StartsIsExact(sem, s, e);
    FlushInv(sem, s, e.flushOk);
    OpenInv(sem, f, e.openOk, e.persistOk);
    var t := StartRewrite(sem, s, e).1;
    assert sem.rewrite(s.data) + [] == sem.rewrite(s.data);
    assert sem.rewrite(s.data) + [] + t.buf == sem.rewrite(s.data) + f.buf;
    LosesAtExit(sem, t);
  }

  /** Late enabling with a temporary file left behind that nobody writes to: the end of the rewrite
      switches the AOF on without an open file, so the next command stays in the buffer for ever. */
  lemma ClosedLoses<D(!new), C(!new)>(sem: Semantics<D, C>, s: Aof<D, C>, c: C)
    requires s.mode.WaitRewrite? && s.child.Rewriting? && TempIncr in s.files && s.fd.Closed?
    ensures !StaysLossless(sem, s)
  {
    var u := Next(sem, s, ChildExit(KEEP));
    Settles(s, KEEP);
    var v := Next(sem, u, Write(c));
    assert v.mode.On? && v.fd.Closed? && v.buf == u.buf + [c];
    LosesNow(sem, v);
    if StaysLossless(sem, s) {
      LosesNext(sem, s, ChildExit(KEEP));
      LosesNext(sem, u, Write(c));
    }
  }

  lemma EnableLoses<D(!new), C(!new)>(sem: Semantics<D, C>, s: Aof<D, C>, e: Start, c: C)
    requires AofInv(sem, s) && s.mode.Off? && !Joinable(sem, s)
    ensures !StaysLossless(sem, StartAppendOnly(sem, s, true, e))
  {
    var t := s.(mode := WaitRewrite);
    if s.fd.Closed? {
      ClosedLoses(sem, t, c);
    } else {
      KeepCatalogue(s, t);
      assert t.child.output + t.files[TempIncr] + t.buf == t.child.output + t.files[TempIncr];
      LosesAtExit(sem, t);
    }
  }

  /** The exact condition.  From a good state an event leaves the dataset safe, whatever orderly events
      follow, if and only if it is orderly itself. */
  lemma OrderlyIsExact<D(!new), C(!new)>(sem: Semantics<D, C>, s: Aof<D, C>, ev: Event<C>, c: C)
    requires Faithful(sem) && AofInv(sem, s) && Possible(s, ev)
    ensures StaysLossless(sem, Next(sem, s, ev)) <==> Orderly(sem, s, ev)
  {
    if Orderly(sem, s, ev) {
      NextInv(sem, s, ev);
      InvStaysLossless(sem, Next(sem, s, ev));
    } else {
      match ev
      case Rewrite(e) => RewriteLoses(sem, s, e);
      case Enable(later, e) => EnableLoses(sem, s, e, c);
      case _ =>
    }
  }
}
