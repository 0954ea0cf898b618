/** The append-only file operations in place: the manifest object with its lists, and the server
    fields that a rewrite replaces.  Every method is proved against its function in
    AofLifecycle.dfy. */
module AofServer {
  import opened Wrappers
  import L = AofLifecycle
  import opened AofLifecycle

  class AofManifest {
    var base: Option<FileName>
    var incr: seq<FileName>
    var hist: seq<FileName>
    var baseSeq: nat
    var incrSeq: nat
    var dirty: bool

    ghost function View(): Manifest
      reads this
    {
      Manifest(base, incr, hist, baseSeq, incrSeq, dirty)
    }

    constructor Dup(orig: AofManifest)
      ensures View() == orig.View()
    {
      base, incr, hist := orig.base, orig.incr, orig.hist;
      baseSeq, incrSeq, dirty := orig.baseSeq, orig.incrSeq, orig.dirty;
    }

    constructor Empty()
      ensures View() == Manifest(None, [], [], 0, 0, false)
    {
      base, incr, hist, baseSeq, incrSeq, dirty := None, [], [], 0, 0, false;
    }

    method NewBaseFileNameAndMarkPreAsHistory() returns (name: FileName)
      modifies this
      ensures View() == NewBase(old(View())) && name == Base(baseSeq)
    {
      if base.Some? {
        hist := [base.value] + hist;
      } else {
        assert hist == [] + hist;
      }
      baseSeq := baseSeq + 1;
      name := Base(baseSeq);
      base, dirty := Some(name), true;
    }

    method NewIncrAofName() returns (name: FileName)
      modifies this
      ensures View() == NewIncr(old(View())) && name == Incr(incrSeq)
    {
      incrSeq := incrSeq + 1;
      name := Incr(incrSeq);
      incr, dirty := incr + [name], true;
    }

    /** Move the rewritten INCR entries, last first, to the head of the history list. */
    method MarkRewrittenIncrAofAsHistory(writing: bool)
      modifies this
      ensures View() == MarkIncrAsHistory(old(View()), writing)
    {
      if incr == [] {
        return;
      }
      var n := if writing then |incr| - 1 else |incr|;
      var j := n;
      while j > 0
        invariant 0 <= j <= n
        invariant incr == old(incr)[..j] + old(incr)[n..]
        invariant hist == old(incr)[j..n] + old(hist)
        invariant base == old(base) && baseSeq == old(baseSeq) && incrSeq == old(incrSeq)
      {
        j := j - 1;
        hist := [incr[j]] + hist;
        incr := incr[..j] + incr[j + 1..];
      }
      assert old(incr)[0..n] == old(incr)[..n];
      dirty := true;
    }
  }

  class AofServer<D(!new), C(!new)> {
    const sem: Semantics<D, C>
    var mode: Mode
    var manifest: AofManifest
    var disk: Manifest
    var files: map<FileName, seq<C>>
    var fd: Fd
    var buf: seq<C>
    var data: D
    var child: Child<C>

    ghost function View(): Aof<D, C>
      reads this, manifest
    {
      Aof(mode, manifest.View(), disk, files, fd, buf, data, child)
    }

    /** Start with an empty dataset and no manifest: create a base and a first INCR file. */
    constructor OpenOnServerStart(sem: Semantics<D, C>)
      ensures this.sem == sem && fresh(manifest) && View() == Boot(sem)
    {
      this.sem := sem;
      mode, buf, child := On, [], NoChild;
      data := sem.load([]);
      var am := new AofManifest.Empty();
      var b := am.NewBaseFileNameAndMarkPreAsHistory();
      var i := am.NewIncrAofName();
      am.dirty := false;
      manifest := am;
      files := map[b := sem.rewrite(sem.load([])), i := []];
      fd := Open(i);
      disk := Manifest(am.base, am.incr, am.hist, am.baseSeq, am.incrSeq, false);
      new;
      assert am.incr == [Incr(1)] && am.hist == [];
    }

    method FeedAppendOnlyFile(c: C)
      modifies this`data, this`buf
      ensures View() == Feed(sem, old(View()), c)
      ensures Faithful(sem) && old(AofInv(sem, View())) ==> AofInv(sem, View())
    {
      if Faithful(sem) && AofInv(sem, View()) {
        FeedInv(sem, View(), c);
      }
      hide AofInv, Faithful;
      data := sem.apply(data, c);
      if mode.On? || (mode.WaitRewrite? && child.Rewriting?) {
        buf := buf + [c];
      }
    }

    method FlushAppendOnlyFile(ok: bool)
      modifies this`files, this`buf
      ensures View() == Flush(old(View()), ok)
      ensures old(AofInv(sem, View())) ==> AofInv(sem, View())
    {
      if AofInv(sem, View()) {
        FlushInv(sem, View(), ok);
      }
      hide AofInv;
      if !ok || buf == [] {
        return;
      }
      match fd {
        case Closed =>
        case Open(name) =>
          if name in files {
            files := files[name := files[name] + buf];
            buf := [];
          }
        case Detached => buf := [];
      }
    }

    method PersistAofManifest(am: AofManifest, writeOk: bool) returns (ok: bool)
      modifies this`disk, am`dirty
      ensures (ok, am.View(), disk) == Persist(old(am.View()), old(disk), writeOk)
    {
      if !am.dirty {
        return true;
      }
      if writeOk {
        am.dirty := false;
        disk := Manifest(am.base, am.incr, am.hist, am.baseSeq, am.incrSeq, am.dirty);
      }
      return writeOk;
    }

    method OpenNewIncrAofForAppend(openOk: bool, persistOk: bool) returns (ok: bool)
      modifies this`manifest, this`disk, this`files, this`fd
      ensures manifest == old(manifest) || fresh(manifest)
      ensures (ok, View()) == OpenNewIncr(old(View()), openOk, persistOk)
      ensures old(AofInv(sem, View()) && child.NoChild?) ==> AofInv(sem, View())
    {
      if AofInv(sem, View()) && child.NoChild? {
        OpenInv(sem, View(), openOk, persistOk);
      }
      hide AofInv;
      if mode.Off? {
        return true;
      }
      if !openOk {
        return false;
      }
      if mode.WaitRewrite? {
        files, fd := files[TempIncr := []], Open(TempIncr);
        return true;
      }
      var am := new AofManifest.Dup(manifest);
      var name := am.NewIncrAofName();
      files := files[name := []];
      ok := PersistAofManifest(am, persistOk);
      if ok {
        fd, manifest := Open(name), am;
      }
    }

    method RewriteAppendOnlyFileBackground(e: Start) returns (ok: bool)
      modifies this`manifest, this`disk, this`files, this`fd, this`buf, this`child
      ensures manifest == old(manifest) || fresh(manifest)
      ensures (ok, View()) == StartRewrite(sem, old(View()), e)
      ensures Faithful(sem) && old(AofInv(sem, View()) && Replayable(sem, View(), e)) ==> AofInv(sem, View())
    {
      if Faithful(sem) && AofInv(sem, View()) && Replayable(sem, View(), e) {
        StartInv(sem, View(), e);
      }
      hide AofInv, Faithful, Replayable;
      if child.Rewriting? {
        return false;
      }
      FlushAppendOnlyFile(e.flushOk);
      ok := OpenNewIncrAofForAppend(e.openOk, e.persistOk);
      if ok && e.forkOk {
        child := Rewriting(sem.rewrite(data));
      }
      ok := ok && e.forkOk;
    }

    /** Unlink the history files one by one, then persist the shorter manifest. */
    method AofDelHistoryFiles(persistOk: bool)
      modifies this`files, this`disk, manifest
      ensures View() == DelHistory(old(View()), persistOk)
    {
      if manifest.hist == [] {
        return;
      }
      ghost var all := manifest.hist;
      ghost var gone := [];
      while manifest.hist != []
        invariant gone + manifest.hist == all && disk == old(disk)
        invariant files == old(files) - set n <- gone
        invariant manifest.View() == old(manifest.View()).(hist := manifest.hist)
        decreases |manifest.hist|
      {
        files := files - {manifest.hist[0]};
        gone := gone + [manifest.hist[0]];
        manifest.hist := manifest.hist[1..];
      }
      assert gone == all;
      manifest.dirty := true;
      var _ := PersistAofManifest(manifest, persistOk);
    }

    method Clean()
      modifies this`child, this`buf, this`files, this`fd
      ensures View() == Cleanup(old(View()))
    {
      child := NoChild;
      if mode.WaitRewrite? {
        buf, files := [], files - {TempIncr};
        fd := if fd == Open(TempIncr) then Detached else fd;
      }
    }

    method StopAppendOnly(flushOk: bool)
      modifies this`files, this`buf, this`fd, this`mode, this`child
      ensures View() == L.StopAppendOnly(old(View()), flushOk)
      ensures old(AofInv(sem, View())) ==> AofInv(sem, View())
    {
      if AofInv(sem, View()) {
        StopInv(sem, View(), flushOk);
      }
      hide AofInv;
      FlushAppendOnlyFile(flushOk);
      fd, mode, child, buf := Closed, Off, NoChild, [];
    }

    method StartAppendOnly(later: bool, e: Start)
      modifies this`mode, this`manifest, this`disk, this`files, this`fd, this`buf, this`child
      ensures manifest == old(manifest) || fresh(manifest)
      ensures View() == L.StartAppendOnly(sem, old(View()), later, e)
      ensures Faithful(sem) && old(AofInv(sem, View()) && mode.Off? && (later ==> Joinable(sem, View()))) ==>
                AofInv(sem, View())
    {
      if Faithful(sem) && AofInv(sem, View()) && mode.Off? && (later ==> Joinable(sem, View())) {
        EnableInv(sem, View(), later, e);
      }
      hide AofInv, Faithful, Joinable;
      mode := WaitRewrite;
      if !later {
        child := NoChild;
        var ok := RewriteAppendOnlyFileBackground(e);
        if !ok {
          mode := Off;
        }
      }
    }

    /** Move the child's output, and the temporary INCR file, to their final names. */
    method InstallFiles(am: AofManifest)
      requires child.Rewriting? && (mode.WaitRewrite? ==> TempIncr in files)
      requires am != manifest && am.View() == NewBase(manifest.View())
      modifies this`files, this`fd, am
      ensures View().(mem := am.View()) == Install(old(View()))
    {
      files := files[Base(am.baseSeq) := child.output];
      if mode.WaitRewrite? {
        var incr := am.NewIncrAofName();
        files := files[incr := files[TempIncr]] - {TempIncr};
        fd := if fd == Open(TempIncr) then Open(incr) else fd;
      }
    }

    method UndoRewrite(am: AofManifest, ghost s: Aof<D, C>, ghost t: Aof<D, C>)
      requires View() == t.(mem := s.mem) && s.mode == mode
      requires am.baseSeq == t.mem.baseSeq && am.incrSeq == t.mem.incrSeq
      modifies this`child, this`buf, this`files, this`fd
      ensures View() == RollBack(s, t)
    {
      var lost := {Base(am.baseSeq)} + if mode.WaitRewrite? then {Incr(am.incrSeq)} else {};
      fd := if fd.Open? && fd.name in lost then Detached else fd;
      files := files - lost;
      Clean();
    }

    method CommitRewrite(e: Done)
      modifies this`mode, this`disk, this`files, this`child, manifest
      ensures View() == Commit(old(View()), e)
    {
      if e.gc {
        AofDelHistoryFiles(e.persistHistOk);
      }
      child := NoChild;
      mode := if mode.WaitRewrite? then On else mode;
    }

    method SettleRewrite(am: AofManifest, e: Done)
      requires child.Rewriting? && (mode.WaitRewrite? ==> TempIncr in files)
      requires am != manifest && am.View() == NewBase(manifest.View())
      modifies this`mode, this`manifest, this`disk, this`files, this`fd, this`buf, this`child, am
      ensures manifest == old(manifest) || manifest == am
      ensures View() == Settle(old(View()), e)
    {
      ghost var s := View();
      InstallFiles(am);
      ghost var t := View().(mem := am.View());
      am.MarkRewrittenIncrAofAsHistory(!fd.Closed?);
      var ok := PersistAofManifest(am, e.persistOk);
      if ok {
        manifest := am;
        CommitRewrite(e);
      } else {
        UndoRewrite(am, s, t);
      }
    }

    /** The rewrite child exited. */
    method BackgroundRewriteDoneHandler(e: Done)
      requires child.Rewriting?
      modifies this`mode, this`manifest, this`disk, this`files, this`fd, this`buf, this`child
      ensures manifest == old(manifest) || fresh(manifest)
      ensures View() == RewriteDone(old(View()), e)
      ensures old(AofInv(sem, View())) ==> AofInv(sem, View())
    {
      if AofInv(sem, View()) {
        ExitInv(sem, View(), e);
      }
      hide AofInv;
      if !e.success || !e.renameBase {
        Clean();
        return;
      }
      var am := new AofManifest.Dup(manifest);
      var base := am.NewBaseFileNameAndMarkPreAsHistory();
      if mode.WaitRewrite? && (!e.renameIncr || TempIncr !in files) {
        files := files - {base};
        Clean();
      } else {
        SettleRewrite(am, e);
      }
    }
  }
}
