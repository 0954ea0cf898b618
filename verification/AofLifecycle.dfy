/** The append-only file lifecycle: BASE, INCR and HISTORY files, the manifest that names them, and
    the background rewrite that replaces them.  All outcomes of system calls (open, write, rename,
    manifest persistence, fork, the child's exit) are parameters of the steps. */
module AofLifecycle {
  import opened Wrappers

  /** What commands do: the dataset a load of a command list gives, the effect of one command,
      and the commands a rewrite of a dataset emits. */
  datatype Semantics<!D(!new), !C(!new)> = Semantics(load: seq<C> -> D, apply: (D, C) -> D, rewrite: D -> seq<C>)

  /** Loading executes the commands one after the other, and rebuilds a rewritten dataset. */
  ghost predicate Faithful<D(!new), C(!new)>(sem: Semantics<D, C>) {
    && (forall cmds, c :: sem.load(cmds + [c]) == sem.apply(sem.load(cmds), c))
    && forall d :: sem.load(sem.rewrite(d)) == d
  }

  datatype FileName = Base(seqno: nat) | Incr(seqno: nat) | TempIncr

  datatype Manifest = Manifest(
    base: Option<FileName>,
    incr: seq<FileName>,
    hist: seq<FileName>,
    baseSeq: nat,
    incrSeq: nat,
    dirty: bool)

  datatype Mode = Off | WaitRewrite | On

  /** Where the append-only file descriptor points: nowhere, to a named file, or to a file whose
      name is gone. */
  datatype Fd = Closed | Open(name: FileName) | Detached

  datatype Child<C> = NoChild | Rewriting(output: seq<C>)

  /** The server's AOF state: `mem` is the manifest in memory, `disk` the one on disk. */
  datatype Aof<!D(!new), !C(!new)> = Aof(
    mode: Mode,
    mem: Manifest,
    disk: Manifest,
    files: map<FileName, seq<C>>,
    fd: Fd,
    buf: seq<C>,
    data: D,
    child: Child<C>)

  // ---------------------------------------------------------------------------------------
  // Manifest operations
  // ---------------------------------------------------------------------------------------

  /** A new BASE name; the previous base becomes history. */
  function NewBase(am: Manifest): Manifest {
    am.(base := Some(Base(am.baseSeq + 1)),
        hist := (if am.base.Some? then [am.base.value] else []) + am.hist,
        baseSeq := am.baseSeq + 1,
        dirty := true)
  }

  function NewIncr(am: Manifest): Manifest {
    am.(incr := am.incr + [Incr(am.incrSeq + 1)], incrSeq := am.incrSeq + 1, dirty := true)
  }

  /** The rewritten INCR files become history; the file being written to is kept. */
  function MarkIncrAsHistory(am: Manifest, writing: bool): Manifest {
    if am.incr == [] then am
    else
      var n := if writing then |am.incr| - 1 else |am.incr|;
      am.(incr := am.incr[n..], hist := am.incr[..n] + am.hist, dirty := true)
  }

  /** Write a manifest to disk if it changed; on failure the old one stays. */
  function Persist(am: Manifest, disk: Manifest, ok: bool): (r: (bool, Manifest, Manifest))
  {
    if !am.dirty then (true, am, disk)
    else if ok then (true, am.(dirty := false), am.(dirty := false))
    else (false, am, disk)
  }

  ghost function Live(am: Manifest): set<FileName> {
    (if am.base.Some? then {am.base.value} else {}) + (set n <- am.incr)
  }

  // ---------------------------------------------------------------------------------------
  // Steps
  // ---------------------------------------------------------------------------------------

  /** A write command: executed, and logged when the AOF is on or a first rewrite is running. */
  function Feed<D(!new), C(!new)>(sem: Semantics<D, C>, s: Aof<D, C>, c: C): Aof<D, C> {
    var t := s.(data := sem.apply(s.data, c));
    if s.mode.On? || (s.mode.WaitRewrite? && s.child.Rewriting?) then t.(buf := s.buf + [c]) else t
  }

  /** Write the buffer out; a failed write keeps it for the next attempt. */
  function Flush<D(!new), C(!new)>(s: Aof<D, C>, ok: bool): Aof<D, C> {
    if !ok || s.buf == [] then s
    else match s.fd
      case Closed => s
      case Open(name) =>
        if name in s.files then s.(files := s.files[name := s.files[name] + s.buf], buf := []) else s
      case Detached => s.(buf := [])
  }

  /** Open the next INCR file, or the temporary one while waiting for the first rewrite. */
  function OpenNewIncr<D(!new), C(!new)>(s: Aof<D, C>, openOk: bool, persistOk: bool): (bool, Aof<D, C>) {
    match s.mode
    case Off => (true, s)
    case WaitRewrite =>
      if !openOk then (false, s)
      else (true, s.(files := s.files[TempIncr := []], fd := Open(TempIncr)))
    case On =>
      if !openOk then (false, s)
      else
        var am := NewIncr(s.mem);
        var name := Incr(am.incrSeq);
        var t := s.(files := s.files[name := []]);
        var (ok, mem, disk) := Persist(am, s.disk, persistOk);
        if ok then (true, t.(mem := mem, disk := disk, fd := Open(name))) else (false, t)
  }

  datatype Start = Start(flushOk: bool, openOk: bool, persistOk: bool, forkOk: bool)

  /** BGREWRITEAOF. */
  function StartRewrite<D(!new), C(!new)>(sem: Semantics<D, C>, s: Aof<D, C>, e: Start): (bool, Aof<D, C>) {
    if s.child.Rewriting? then (false, s)
    else
      var (ready, t) := OpenNewIncr(Flush(s, e.flushOk), e.openOk, e.persistOk);
      if !ready || !e.forkOk then (false, t)
      else (true, t.(child := Rewriting(sem.rewrite(t.data))))
  }

  datatype Done = Done(success: bool, renameBase: bool, renameIncr: bool, persistOk: bool, gc: bool,
          persistHistOk: bool)

  /** Delete the history files, then record that they are gone. */
  function DelHistory<D(!new), C(!new)>(s: Aof<D, C>, persistOk: bool): Aof<D, C> {
    if s.mem.hist == [] then s
    else
      var am := s.mem.(hist := [], dirty := true);
      var (_, mem, disk) := Persist(am, s.disk, persistOk);
      s.(files := s.files - (set n <- s.mem.hist), mem := mem, disk := disk)
  }

  /** After a failed rewrite: while waiting for the first one, drop what was accumulated. */
  function Cleanup<D(!new), C(!new)>(s: Aof<D, C>): Aof<D, C> {
    var t := s.(child := NoChild);
    if s.mode.WaitRewrite?
    then t.(buf := [], files := s.files - {TempIncr}, fd := if s.fd == Open(TempIncr) then Detached else s.fd)
    else t
  }

  /** The manifest and files after the child's output, and the temporary INCR, were renamed. */
  function Install<D(!new), C(!new)>(s: Aof<D, C>): Aof<D, C>
    requires s.child.Rewriting? && (s.mode.WaitRewrite? ==> TempIncr in s.files)
  {
    var am := NewBase(s.mem);
    var t := s.(mem := am, files := s.files[Base(am.baseSeq) := s.child.output]);
    if s.mode.WaitRewrite? then
      var incr := NewIncr(am);
      var name := Incr(incr.incrSeq);
      t.(mem := incr,
         files := t.files[name := t.files[TempIncr]] - {TempIncr},
         fd := if s.fd == Open(TempIncr) then Open(name) else s.fd)
    else t
  }

  function Abort<D(!new), C(!new)>(s: Aof<D, C>, gone: set<FileName>): Aof<D, C> {
    Cleanup(s.(files := s.files - gone))
  }

  /** The manifest could not be persisted: remove the new names and keep the old manifest. */
  function RollBack<D(!new), C(!new)>(s: Aof<D, C>, t: Aof<D, C>): Aof<D, C> {
    var lost := {Base(t.mem.baseSeq)} + (if s.mode.WaitRewrite? then {Incr(t.mem.incrSeq)} else {});
    Abort(t.(mem := s.mem, fd := if t.fd.Open? && t.fd.name in lost then Detached else t.fd), lost)
  }

  /** The new manifest is on disk: delete the history and, after a first rewrite, switch on. */
  function Commit<D(!new), C(!new)>(t: Aof<D, C>, e: Done): Aof<D, C> {
    var u := if e.gc then DelHistory(t, e.persistHistOk) else t;
    u.(child := NoChild, mode := if t.mode.WaitRewrite? then On else t.mode)
  }

  /** Both renames succeeded: persist the new manifest, or undo. */
  function Settle<D(!new), C(!new)>(s: Aof<D, C>, e: Done): Aof<D, C>
    requires s.child.Rewriting? && (s.mode.WaitRewrite? ==> TempIncr in s.files)
  {
    var t := Install(s);
    var am := MarkIncrAsHistory(t.mem, !t.fd.Closed?);
    var (ok, mem, disk) := Persist(am, s.disk, e.persistOk);
    if ok then Commit(t.(mem := mem, disk := disk), e) else RollBack(s, t)
  }

  /** The child exited. */
  function RewriteDone<D(!new), C(!new)>(s: Aof<D, C>, e: Done): Aof<D, C>
    requires s.child.Rewriting?
  {
    if !e.success || !e.renameBase then Cleanup(s)
    else if s.mode.WaitRewrite? && (!e.renameIncr || TempIncr !in s.files) then
      // the new base was renamed into place and is removed again
      Abort(s, {Base(s.mem.baseSeq + 1)})
    else Settle(s, e)
  }

  /** CONFIG SET appendonly no. */
  function StopAppendOnly<D(!new), C(!new)>(s: Aof<D, C>, flushOk: bool): Aof<D, C> {
    Flush(s, flushOk).(fd := Closed, mode := Off, child := NoChild, buf := [])
  }

  /** CONFIG SET appendonly yes.  `later` is when another child or a transaction is active and the
      rewrite is only scheduled. */
  function StartAppendOnly<D(!new), C(!new)>(sem: Semantics<D, C>, s: Aof<D, C>, later: bool, e: Start): Aof<D, C> {
    var t := s.(mode := WaitRewrite);
    if later then t
    else
      var (ok, u) := StartRewrite(sem, t.(child := NoChild), e);
      if ok then u else u.(mode := Off)
  }

  /** Server start with an empty dataset and no manifest, AOF enabled. */
  function Boot<D(!new), C(!new)>(sem: Semantics<D, C>): Aof<D, C> {
    var am := Manifest(Some(Base(1)), [Incr(1)], [], 1, 1, false);
    Aof(On, am, am, map[Base(1) := sem.rewrite(sem.load([])), Incr(1) := []], Open(Incr(1)), [], sem.load([]), NoChild)
  }

  // ---------------------------------------------------------------------------------------
  // Invariant
  // ---------------------------------------------------------------------------------------

  ghost predicate NameOk(am: Manifest, n: FileName) {
    match n
    case Base(k) => k <= am.baseSeq
    case Incr(k) => k <= am.incrSeq
    case TempIncr => false
  }

  /** INCR files are numbered in the order in which they were opened, up to `max`. */
  ghost predicate Numbered(incr: seq<FileName>, max: nat) {
    incr == [] ||
    var last := incr[|incr| - 1];
    last.Incr? && 0 < last.seqno <= max && Numbered(incr[..|incr| - 1], last.seqno - 1)
  }

  /** Names in use are not beyond the counters, and no history file is live. */
  ghost predicate ManifestOk(am: Manifest) {
    && (am.base.Some? ==> am.base.value.Base? && NameOk(am, am.base.value))
    && Numbered(am.incr, am.incrSeq)
    && forall n <- am.hist :: NameOk(am, n) && n !in Live(am)
  }

  lemma {:induction false} NumberedNames(incr: seq<FileName>, max: nat)
    requires Numbered(incr, max)
    ensures forall n <- incr :: n.Incr? && n.seqno <= max
    ensures incr != [] ==> incr[|incr| - 1] !in incr[..|incr| - 1]
    decreases |incr|
  {
    if incr != [] {
      NumberedNames(incr[..|incr| - 1], incr[|incr| - 1].seqno - 1);
    }
  }

  /** The files a load replays, in order. */
  function Order(am: Manifest): seq<FileName> {
    (if am.base.Some? then [am.base.value] else []) + am.incr
  }

  function Contents<C>(files: map<FileName, seq<C>>, names: seq<FileName>): seq<C>
    requires forall n <- names :: n in files
  {
    if names == [] then [] else Contents(files, names[..|names| - 1]) + files[names[|names| - 1]]
  }

  ghost predicate OnDisk<D(!new), C(!new)>(s: Aof<D, C>, am: Manifest) {
    forall n <- Order(am) :: n in s.files
  }

  /** Both manifests are sound, name the same live files, and every live file exists. */
  ghost predicate Catalogued<D(!new), C(!new)>(s: Aof<D, C>) {
    && ManifestOk(s.mem) && ManifestOk(s.disk)
    && s.disk.base == s.mem.base && s.disk.incr == s.mem.incr
    && s.disk.baseSeq <= s.mem.baseSeq && s.disk.incrSeq <= s.mem.incrSeq
    && OnDisk(s, s.mem)
  }

  /** With the AOF on, the files named by the manifest and the unwritten buffer hold the dataset,
      and the last INCR file is the one being written to. */
  ghost predicate Durable<D(!new), C(!new)>(sem: Semantics<D, C>, s: Aof<D, C>)
    requires Catalogued(s)
  {
    && s.mem.incr != [] && s.fd == Open(s.mem.incr[|s.mem.incr| - 1])
    && sem.load(Contents(s.files, Order(s.mem)) + s.buf) == s.data
  }

  /** The AOF was enabled during a rewrite that was forked with it off.  Nothing is being written and
      there is no temporary INCR file, so this rewrite can only fail. */
  ghost predicate Doomed<D(!new), C(!new)>(s: Aof<D, C>) {
    s.mode.WaitRewrite? && s.child.Rewriting? && s.fd.Closed? && TempIncr !in s.files
  }

  /** While a child rewrites, its output followed by what was logged since the fork holds the
      dataset. */
  ghost predicate Pending<D(!new), C(!new)>(sem: Semantics<D, C>, s: Aof<D, C>) {
    s.child.Rewriting? && !s.mode.Off? && !Doomed(s) ==>
      && s.fd.Open? && s.fd.name in s.files
      && (s.mode.WaitRewrite? ==> s.fd.name == TempIncr)
      && sem.load(s.child.output + s.files[s.fd.name] + s.buf) == s.data
  }

  ghost predicate AofInv<D(!new), C(!new)>(sem: Semantics<D, C>, s: Aof<D, C>) {
    && Catalogued(s)
    && (s.mode.On? ==> Durable(sem, s))
    && Pending(sem, s)
    && (!s.mode.On? && s.fd.Open? ==> s.fd.name == TempIncr && TempIncr in s.files)
    && (s.mode.Off? ==> !s.fd.Detached?)
    && (s.mode.Off? || (s.mode.WaitRewrite? && s.child.NoChild?) ==> s.buf == [])
  }

  // ---------------------------------------------------------------------------------------
  // File contents
  // ---------------------------------------------------------------------------------------

  lemma {:induction false} ContentsSame<C>(files: map<FileName, seq<C>>, files': map<FileName, seq<C>>,
                                           names: seq<FileName>)
    requires forall n <- names :: n in files && n in files' && files'[n] == files[n]
    ensures Contents(files, names) == Contents(files', names)
    decreases |names|
  {
    if names != [] {
      ContentsSame(files, files', names[..|names| - 1]);
    }
  }

  lemma ContentsSnoc<C>(files: map<FileName, seq<C>>, names: seq<FileName>, n: FileName)
    requires n in files && forall k <- names :: k in files
    ensures (forall k <- names + [n] :: k in files) && Contents(files, names + [n]) == Contents(files, names) + files[n]
  {
    assert (names + [n])[..|names|] == names;
  }

  /** Appending to the last file appends to the contents. */
  lemma ContentsGrow<C>(files: map<FileName, seq<C>>, names: seq<FileName>, more: seq<C>)
    requires names != [] && forall n <- names :: n in files
    requires names[|names| - 1] !in names[..|names| - 1]
    ensures var last := names[|names| - 1];
            Contents(files[last := files[last] + more], names) == Contents(files, names) + more
  {
    var last := names[|names| - 1];
    ContentsSame(files, files[last := files[last] + more], names[..|names| - 1]);
  }

  lemma LiveOrder(am: Manifest)
    ensures Live(am) == set n <- Order(am)
  {
  }

  lemma LastIsNew(am: Manifest)
    requires ManifestOk(am) && am.incr != []
    ensures var o := Order(am);
            o != [] && o[|o| - 1] == am.incr[|am.incr| - 1] && o[|o| - 1] !in o[..|o| - 1]
  {
    NumberedNames(am.incr, am.incrSeq);
  }

  // ---------------------------------------------------------------------------------------
  // Every step keeps the invariant
  // ---------------------------------------------------------------------------------------

  lemma BootInv<D(!new), C(!new)>(sem: Semantics<D, C>)
    requires Faithful(sem)
    ensures AofInv(sem, Boot(sem))
  {
    var s := Boot(sem);
    assert Order(s.mem) == [Base(1), Incr(1)];
    assert Order(s.mem)[..1] == [Base(1)];
    assert Contents(s.files, [Base(1)]) == [] + sem.rewrite(sem.load([]));
    assert Contents(s.files, Order(s.mem)) + s.buf == sem.rewrite(sem.load([]));
  }

  lemma FeedInv<D(!new), C(!new)>(sem: Semantics<D, C>, s: Aof<D, C>, c: C)
    requires Faithful(sem) && AofInv(sem, s)
    ensures AofInv(sem, Feed(sem, s, c))
  {
    if s.mode.On? {
      var log := Contents(s.files, Order(s.mem)) + s.buf;
      assert Contents(s.files, Order(s.mem)) + (s.buf + [c]) == log + [c];
    }
    if s.child.Rewriting? && !s.mode.Off? && !Doomed(s) {
      var log := s.child.output + s.files[s.fd.name] + s.buf;
      assert s.child.output + s.files[s.fd.name] + (s.buf + [c]) == log + [c];
    }
  }

  /** Whatever happens to files that are not live, the manifests stay sound. */
  lemma KeepCatalogue<D(!new), C(!new)>(s: Aof<D, C>, t: Aof<D, C>)
    requires Catalogued(s) && t.mem == s.mem && t.disk == s.disk
    requires forall n <- Order(s.mem) :: n in t.files
    ensures Catalogued(t)
  {
  }

  lemma FlushOn<D(!new), C(!new)>(sem: Semantics<D, C>, s: Aof<D, C>)
    requires AofInv(sem, s) && s.mode.On?
    ensures var t := Flush(s, true); Catalogued(t) && Durable(sem, t)
  {
    if s.buf != [] {
      var t := Flush(s, true);
      LastIsNew(s.mem);
      KeepCatalogue(s, t);
      ContentsGrow(s.files, Order(s.mem), s.buf);
      assert Contents(t.files, Order(t.mem)) + t.buf == Contents(s.files, Order(s.mem)) + s.buf;
    }
  }

  lemma FlushPending<D(!new), C(!new)>(sem: Semantics<D, C>, s: Aof<D, C>)
    requires AofInv(sem, s)
    ensures Pending(sem, Flush(s, true))
  {
    var t := Flush(s, true);
    if s.buf != [] && s.child.Rewriting? && !s.mode.Off? && !Doomed(s) {
      assert s.child.output + t.files[s.fd.name] + t.buf == s.child.output + s.files[s.fd.name] + s.buf;
    }
  }

  lemma FlushInv<D(!new), C(!new)>(sem: Semantics<D, C>, s: Aof<D, C>, ok: bool)
    requires AofInv(sem, s)
    ensures AofInv(sem, Flush(s, ok))
  {
    if ok {
      FlushPending(sem, s);
      if s.mode.On? {
        FlushOn(sem, s);
      } else {
        KeepCatalogue(s, Flush(s, ok));
      }
    }
  }

  lemma NewIncrOk(am: Manifest)
    requires ManifestOk(am)
    ensures ManifestOk(NewIncr(am)) && Incr(am.incrSeq + 1) !in Order(am)
    ensures Order(NewIncr(am)) == Order(am) + [Incr(am.incrSeq + 1)]
  {
    NumberedNames(am.incr, am.incrSeq);
    assert NewIncr(am).incr[..|am.incr|] == am.incr;
  }

  lemma OpenCatalogued<D(!new), C(!new)>(s: Aof<D, C>, persistOk: bool)
    requires Catalogued(s) && s.mode.On?
    ensures Catalogued(OpenNewIncr(s, true, persistOk).1)
  {
    NewIncrOk(s.mem);
  }

  /** What a load would replay before and after an empty INCR file is added to the manifest. */
  lemma EmptyIncr<C>(files: map<FileName, seq<C>>, am: Manifest)
    requires ManifestOk(am) && forall n <- Order(am) :: n in files
    ensures var files' := files[Incr(am.incrSeq + 1) := []];
            && (forall n <- Order(NewIncr(am)) :: n in files')
            && Contents(files', Order(NewIncr(am))) == Contents(files, Order(am))
            && Contents(files', Order(am)) == Contents(files, Order(am))
  {
    var n := Incr(am.incrSeq + 1);
    NewIncrOk(am);
    ContentsSame(files, files[n := []], Order(am));
    ContentsSnoc(files[n := []], Order(am), n);
  }

  /** Opening the next INCR file changes nothing that a load would replay. */
  lemma OpenOn<D(!new), C(!new)>(sem: Semantics<D, C>, s: Aof<D, C>, persistOk: bool)
    requires AofInv(sem, s) && s.mode.On?
    ensures var (ok, t) := OpenNewIncr(s, true, persistOk); Catalogued(t) && Durable(sem, t)
  {
    OpenCatalogued(s, persistOk);
    EmptyIncr(s.files, s.mem);
  }

  lemma OpenInv<D(!new), C(!new)>(sem: Semantics<D, C>, s: Aof<D, C>, openOk: bool, persistOk: bool)
    requires AofInv(sem, s) && s.child.NoChild?
    ensures var (ok, t) := OpenNewIncr(s, openOk, persistOk);
            && AofInv(sem, t) && t.mode == s.mode && t.buf == s.buf && t.data == s.data && t.child == s.child
            && (ok && !s.mode.Off? ==> t.fd.Open? && t.fd.name in t.files && t.files[t.fd.name] == []
                                       && (s.mode.WaitRewrite? ==> t.fd.name == TempIncr))
  {
    if openOk && s.mode.On? {
      OpenOn(sem, s, persistOk);
    } else if openOk && s.mode.WaitRewrite? {
      KeepCatalogue(s, OpenNewIncr(s, openOk, persistOk).1);
    }
  }

  /** A rewrite starts if there is none yet and everything it needs succeeds. */
  predicate Starts<D(!new), C(!new)>(s: Aof<D, C>, e: Start) {
    s.child.NoChild? && e.forkOk && (s.mode.Off? || e.openOk) && (s.mode.On? ==> e.persistOk)
  }

  lemma StartsIsExact<D(!new), C(!new)>(sem: Semantics<D, C>, s: Aof<D, C>, e: Start)
    ensures StartRewrite(sem, s, e).0 <==> Starts(s, e)
  {
    assert Flush(s, e.flushOk).mode == s.mode;
    hide Flush;
  }

  /** What the flush left in the buffer goes to the INCR file of the new base, although the new base
      has it already: replaying it again must change nothing. */
  ghost predicate Replayable<D(!new), C(!new)>(sem: Semantics<D, C>, s: Aof<D, C>, e: Start) {
    Starts(s, e) ==> sem.load(sem.rewrite(s.data) + Flush(s, e.flushOk).buf) == s.data
  }

  /** A complete flush is enough. */
  lemma FlushedIsReplayable<D(!new), C(!new)>(sem: Semantics<D, C>, s: Aof<D, C>, e: Start)
    requires Faithful(sem) && AofInv(sem, s) && e.flushOk
    ensures Replayable(sem, s, e)
  {
    var f := Flush(s, true);
    if Starts(s, e) {
      assert s.mode.On? ==> s.fd.name in Order(s.mem);
      assert f.buf == [];
      assert sem.rewrite(s.data) + f.buf == sem.rewrite(s.data);
    }
  }

  lemma ForkInv<D(!new), C(!new)>(sem: Semantics<D, C>, t: Aof<D, C>)
    requires AofInv(sem, t) && t.child.NoChild? && sem.load(sem.rewrite(t.data) + t.buf) == t.data
    requires !t.mode.Off? ==> t.fd.Open? && t.fd.name in t.files && t.files[t.fd.name] == []
                              && (t.mode.WaitRewrite? ==> t.fd.name == TempIncr)
    ensures AofInv(sem, t.(child := Rewriting(sem.rewrite(t.data))))
  {
    KeepCatalogue(t, t.(child := Rewriting(sem.rewrite(t.data))));
    assert sem.rewrite(t.data) + [] + t.buf == sem.rewrite(t.data) + t.buf;
  }

  /** Starting a rewrite, whatever fails on the way. */
  lemma StartInv<D(!new), C(!new)>(sem: Semantics<D, C>, s: Aof<D, C>, e: Start)
    requires Faithful(sem) && AofInv(sem, s) && Replayable(sem, s, e)
    ensures AofInv(sem, StartRewrite(sem, s, e).1)
  {
    StartsIsExact(sem, s, e);
    if s.child.NoChild? {
      var f := Flush(s, e.flushOk);
      assert f.child.NoChild? && f.data == s.data && f.mode == s.mode;
      FlushInv(sem, s, e.flushOk);
      hide Flush;
      OpenInv(sem, f, e.openOk, e.persistOk);
      hide OpenNewIncr;
      var (ready, t) := OpenNewIncr(f, e.openOk, e.persistOk);
      if ready && e.forkOk {
        ForkInv(sem, t);
      }
    }
  }

  /** The names the next rewrite will use, and the temporary name, are not live. */
  lemma LiveNames(am: Manifest)
    requires ManifestOk(am)
    ensures forall n <- Order(am) :: NameOk(am, n)
    ensures TempIncr !in Order(am) && Base(am.baseSeq + 1) !in Order(am) && Incr(am.incrSeq + 1) !in Order(am)
  {
    NumberedNames(am.incr, am.incrSeq);
  }

  lemma DropFiles<D(!new), C(!new)>(sem: Semantics<D, C>, s: Aof<D, C>, t: Aof<D, C>)
    requires Catalogued(s) && t.mem == s.mem && t.disk == s.disk
    requires forall n <- Order(s.mem) :: n in t.files && t.files[n] == s.files[n]
    ensures Catalogued(t) && Contents(t.files, Order(t.mem)) == Contents(s.files, Order(s.mem))
  {
    ContentsSame(s.files, t.files, Order(s.mem));
  }

  /** A rewrite that failed, at any point, leaves what a load would replay as it was. */
  lemma CleanupInv<D(!new), C(!new)>(sem: Semantics<D, C>, s: Aof<D, C>, t: Aof<D, C>)
    requires AofInv(sem, s)
    requires t.mem == s.mem && t.disk == s.disk && t.mode == s.mode && t.buf == s.buf && t.data == s.data
    requires forall n <- Order(s.mem) :: n in t.files && t.files[n] == s.files[n]
    requires s.mode.Off? && TempIncr in s.files ==> TempIncr in t.files
    requires t.fd == s.fd || (t.fd.Detached? && s.mode.WaitRewrite?)
    ensures AofInv(sem, Cleanup(t))
  {
    LiveNames(s.mem);
    DropFiles(sem, s, Cleanup(t));
  }

  /** The manifest after a successful rewrite of a running AOF: the new base, then the INCR file
      being written to. */
  lemma RewrittenOk(am: Manifest, writing: bool)
    requires ManifestOk(am)
    ensures var r := MarkIncrAsHistory(NewBase(am), writing);
            && ManifestOk(r) && r.dirty && r.base == Some(Base(am.baseSeq + 1))
            && r.incr == (if writing && am.incr != [] then am.incr[|am.incr| - 1..] else [])
            && r.baseSeq == am.baseSeq + 1 && r.incrSeq == am.incrSeq
  {
    RewrittenNames(am, writing);
    NumberedNames(am.incr, am.incrSeq);
    var r := MarkIncrAsHistory(NewBase(am), writing);
    if r.incr != [] {
      var last := am.incr[|am.incr| - 1];
      assert r.incr == [last] && r.incr[..0] == [];
    }
  }

  lemma RewrittenNames(am: Manifest, writing: bool)
    requires ManifestOk(am)
    ensures var r := MarkIncrAsHistory(NewBase(am), writing); forall n <- r.hist :: NameOk(r, n) && n !in Live(r)
  {
    NumberedNames(am.incr, am.incrSeq);
    var r := MarkIncrAsHistory(NewBase(am), writing);
    forall n <- r.hist
      ensures NameOk(r, n) && n !in Live(r)
    {
      hide Numbered;
      assert n in am.hist || n in am.incr || am.base == Some(n);
      if n in am.incr && r.incr != [] {
        assert n in am.incr[..|am.incr| - 1] || n in am.hist || am.base == Some(n);
      }
    }
  }

  /** Deleting history files touches no live file. */
  lemma DelHistoryKeeps<D(!new), C(!new)>(s: Aof<D, C>, persistOk: bool)
    requires Catalogued(s)
    ensures var t := DelHistory(s, persistOk);
            && Catalogued(t) && t.mem.base == s.mem.base && t.mem.incr == s.mem.incr
            && Contents(t.files, Order(t.mem)) == Contents(s.files, Order(s.mem))
            && t.fd == s.fd && t.buf == s.buf && t.data == s.data
            && (s.fd.Open? && s.fd.name in Order(s.mem) ==>
                    s.fd.name in t.files && t.files[s.fd.name] == s.files[s.fd.name])
  {
    LiveOrder(s.mem);
    ContentsSame(s.files, DelHistory(s, persistOk).files, Order(s.mem));
  }

  /** A load of the new base and the file opened at the fork. */
  lemma TwoFiles<C>(files: map<FileName, seq<C>>, base: FileName, incr: FileName)
    requires base in files && incr in files
    ensures Contents(files, [base, incr]) == files[base] + files[incr]
  {
    assert [base, incr][..1] == [base];
    assert [base][..0] == [];
    assert Contents(files, [base]) == [] + files[base];
  }

  /** The state between the manifest update and the deletion of history. */
  function Installed<D(!new), C(!new)>(s: Aof<D, C>): Aof<D, C>
    requires s.child.Rewriting? && (s.mode.WaitRewrite? ==> TempIncr in s.files)
  {
    var t := Install(s);
    var am := MarkIncrAsHistory(t.mem, !t.fd.Closed?).(dirty := false);
    t.(mem := am, disk := am)
  }

  /** Loading the new base and the INCR file opened at the fork, for a running AOF ... */
  lemma InstalledPair<D(!new), C(!new)>(s: Aof<D, C>)
    requires Catalogued(s) && s.mode.On? && s.child.Rewriting?
    requires s.mem.incr != [] && s.fd == Open(s.mem.incr[|s.mem.incr| - 1])
    ensures var t := Installed(s);
            && Catalogued(t) && t.mem.incr == [s.fd.name] && t.fd == s.fd && s.fd.name in s.files
            && Contents(t.files, Order(t.mem)) == s.child.output + s.files[s.fd.name]
  {
    var t := Installed(s);
    var (b, last) := (Base(s.mem.baseSeq + 1), s.mem.incr[|s.mem.incr| - 1]);
    RewrittenOk(s.mem, true);
    LiveNames(s.mem);
    assert last in Order(s.mem) && t.mem.incr == [last];
    assert Order(t.mem) == [b, last];
    hide MarkIncrAsHistory, NewBase, ManifestOk;
    TwoFiles(t.files, b, last);
  }

  /** ... and for one that waited for its first rewrite. */
  lemma InstalledFirst<D(!new), C(!new)>(s: Aof<D, C>)
    requires Catalogued(s) && s.mode.WaitRewrite? && s.child.Rewriting? && TempIncr in s.files && s.fd == Open(TempIncr)
    ensures var t := Installed(s);
            && Catalogued(t) && t.mem.incr == [Incr(s.mem.incrSeq + 1)] && t.fd == Open(Incr(s.mem.incrSeq + 1))
            && Contents(t.files, Order(t.mem)) == s.child.output + s.files[TempIncr]
  {
    var t := Installed(s);
    var (b, n) := (Base(s.mem.baseSeq + 1), Incr(s.mem.incrSeq + 1));
    assert NewIncr(NewBase(s.mem)) == NewBase(NewIncr(s.mem));
    NewIncrOk(s.mem);
    RewrittenOk(NewIncr(s.mem), true);
    assert Order(t.mem) == [b, n];
    TwoFiles(t.files, b, n);
  }

  lemma InstalledOn<D(!new), C(!new)>(sem: Semantics<D, C>, s: Aof<D, C>)
    requires AofInv(sem, s) && !s.mode.Off? && s.child.Rewriting? && (s.mode.WaitRewrite? ==> TempIncr in s.files)
    ensures Catalogued(Installed(s)) && Durable(sem, Installed(s))
  {
    if s.mode.On? {
      InstalledPair(s);
    } else {
      InstalledFirst(s);
    }
  }

  lemma InstalledOff<D(!new), C(!new)>(sem: Semantics<D, C>, s: Aof<D, C>)
    requires AofInv(sem, s) && s.mode.Off? && s.child.Rewriting?
    ensures Catalogued(Installed(s))
  {
    var t := Installed(s);
    RewrittenOk(s.mem, !s.fd.Closed?);
    forall n <- t.mem.incr
      ensures n in t.files
    {
      assert n in s.mem.incr && n in Order(s.mem);
    }
    assert OnDisk(t, t.mem);
  }

  ghost predicate Succeeds<D(!new), C(!new)>(s: Aof<D, C>, e: Done) {
    e.success && e.renameBase && e.persistOk && (s.mode.WaitRewrite? ==> e.renameIncr && TempIncr in s.files)
  }

  /** The manifest always changes, so it is written. */
  lemma Settles<D(!new), C(!new)>(s: Aof<D, C>, e: Done)
    requires s.child.Rewriting? && Succeeds(s, e)
    ensures RewriteDone(s, e) == Commit(Installed(s), e)
  {
    assert MarkIncrAsHistory(Install(s).mem, !Install(s).fd.Closed?).dirty;
  }

  lemma CommitInv<D(!new), C(!new)>(sem: Semantics<D, C>, u: Aof<D, C>, e: Done)
    requires Catalogued(u) && (u.mode.Off? || Durable(sem, u))
    requires u.mode.Off? ==>
              u.buf == [] && !u.fd.Detached? && (u.fd.Open? ==> u.fd.name == TempIncr && TempIncr in u.files)
    ensures AofInv(sem, Commit(u, e))
  {
    DelHistoryKeeps(u, e.persistHistOk);
    var t := Commit(u, e);
    assert u.mode.Off? && u.fd.Open? ==> TempIncr in t.files;
    KeepCatalogue(if e.gc then DelHistory(u, e.persistHistOk) else u, t);
  }

  /** The child exited with success and the manifest was persisted. */
  lemma SuccessInv<D(!new), C(!new)>(sem: Semantics<D, C>, s: Aof<D, C>, e: Done)
    requires AofInv(sem, s) && s.child.Rewriting? && Succeeds(s, e)
    ensures AofInv(sem, RewriteDone(s, e))
  {
    Settles(s, e);
    match s.mode {
      case On => InstalledOn(sem, s);
      case WaitRewrite => InstalledOn(sem, s);
      case Off => InstalledOff(sem, s);
    }
    CommitInv(sem, Installed(s), e) by {
      hide MarkIncrAsHistory, Catalogued, Durable, Pending;
    }
  }

  lemma RollBackInv<D(!new), C(!new)>(sem: Semantics<D, C>, s: Aof<D, C>)
    requires AofInv(sem, s) && s.child.Rewriting? && (s.mode.WaitRewrite? ==> TempIncr in s.files)
    ensures AofInv(sem, RollBack(s, Install(s)))
  {
    var t := Install(s);
    var lost := {Base(t.mem.baseSeq)} + (if s.mode.WaitRewrite? then {Incr(t.mem.incrSeq)} else {});
    LiveNames(s.mem);
    CleanupInv(sem, s, t.(mem := s.mem, fd := if t.fd.Open? && t.fd.name in lost then Detached else t.fd,
                          files := t.files - lost)) by {
      hide AofInv, Pending, Durable, Catalogued;
      assert s.mode.On? && t.fd.Open? ==> t.fd.name !in lost;
    }
  }

  /** The child failed, or a rename or the manifest write failed after it succeeded. */
  lemma FailureInv<D(!new), C(!new)>(sem: Semantics<D, C>, s: Aof<D, C>, e: Done)
    requires AofInv(sem, s) && s.child.Rewriting?
    requires !Succeeds(s, e)
    ensures AofInv(sem, RewriteDone(s, e))
  {
    LiveNames(s.mem);
    if !e.success || !e.renameBase {
      CleanupInv(sem, s, s);
    } else if s.mode.WaitRewrite? && (!e.renameIncr || TempIncr !in s.files) {
      CleanupInv(sem, s, s.(files := s.files - {Base(s.mem.baseSeq + 1)}));
    } else {
      RollBackInv(sem, s);
      assert MarkIncrAsHistory(Install(s).mem, !Install(s).fd.Closed?).dirty;
    }
  }

  lemma ExitInv<D(!new), C(!new)>(sem: Semantics<D, C>, s: Aof<D, C>, e: Done)
    requires AofInv(sem, s) && s.child.Rewriting?
    ensures AofInv(sem, RewriteDone(s, e))
  {
    if Succeeds(s, e) {
      SuccessInv(sem, s, e);
    } else {
      FailureInv(sem, s, e);
    }
  }

  lemma StopInv<D(!new), C(!new)>(sem: Semantics<D, C>, s: Aof<D, C>, flushOk: bool)
    requires AofInv(sem, s)
    ensures AofInv(sem, StopAppendOnly(s, flushOk))
  {
    FlushInv(sem, s, flushOk);
    KeepCatalogue(Flush(s, flushOk), StopAppendOnly(s, flushOk));
  }

  /** Enabling the AOF while a rewrite that was forked with it off goes on: either that rewrite cannot
      be installed, or the temporary file is open and nothing has changed since the fork. */
  ghost predicate Joinable<D(!new), C(!new)>(sem: Semantics<D, C>, s: Aof<D, C>) {
    s.child.Rewriting? && TempIncr in s.files ==>
      s.fd == Open(TempIncr) && sem.load(s.child.output + s.files[TempIncr]) == s.data
  }

  lemma EnableInv<D(!new), C(!new)>(sem: Semantics<D, C>, s: Aof<D, C>, later: bool, e: Start)
    requires Faithful(sem) && AofInv(sem, s) && s.mode.Off? && (later ==> Joinable(sem, s))
    ensures AofInv(sem, StartAppendOnly(sem, s, later, e))
  {
    var t := s.(mode := WaitRewrite, child := NoChild);
    KeepCatalogue(s, t);
    if later {
      KeepCatalogue(s, s.(mode := WaitRewrite));
      if s.fd.Open? && TempIncr in s.files && s.child.Rewriting? {
        assert s.child.output + s.files[TempIncr] + s.buf == s.child.output + s.files[TempIncr];
      }
    } else {
      assert sem.rewrite(t.data) + t.buf == sem.rewrite(t.data);
      StartInv(sem, t, e);
      var u := StartRewrite(sem, t, e).1;
      KeepCatalogue(u, u.(mode := Off));
    }
  }

  // ---------------------------------------------------------------------------------------
  // Whole runs
  // ---------------------------------------------------------------------------------------

  datatype Event<C> =
    | Write(c: C)
    | FlushBuffer(ok: bool)
    | Rewrite(start: Start)
    | ChildExit(done: Done)
    | Disable(flushOk: bool)
    | Enable(later: bool, start: Start)

  ghost predicate Possible<D(!new), C(!new)>(s: Aof<D, C>, ev: Event<C>) {
    match ev
    case ChildExit(_) => s.child.Rewriting?
    case Disable(_) => !s.mode.Off?
    case Enable(_, _) => s.mode.Off?
    case _ => true
  }

  function Next<D(!new), C(!new)>(sem: Semantics<D, C>, s: Aof<D, C>, ev: Event<C>): Aof<D, C> {
    match ev
    case Write(c) => Feed(sem, s, c)
    case FlushBuffer(ok) => Flush(s, ok)
    case Rewrite(e) => StartRewrite(sem, s, e).1
    case ChildExit(e) => if s.child.Rewriting? then RewriteDone(s, e) else s
    case Disable(ok) => StopAppendOnly(s, ok)
    case Enable(later, e) => StartAppendOnly(sem, s, later, e)
  }

  /** What keeps the dataset: see `OrderlyIsExact` in AofDisorder.dfy for why nothing less does. */
  ghost predicate Orderly<D(!new), C(!new)>(sem: Semantics<D, C>, s: Aof<D, C>, ev: Event<C>) {
    match ev
    case Rewrite(e) => Replayable(sem, s, e)
    case Enable(later, _) => later ==> Joinable(sem, s)
    case _ => true
  }

  lemma NextInv<D(!new), C(!new)>(sem: Semantics<D, C>, s: Aof<D, C>, ev: Event<C>)
    requires Faithful(sem) && AofInv(sem, s) && Possible(s, ev) && Orderly(sem, s, ev)
    ensures AofInv(sem, Next(sem, s, ev))
  {
    match ev
    case Write(c) => FeedInv(sem, s, c);
    case FlushBuffer(ok) => FlushInv(sem, s, ok);
    case Rewrite(e) => StartInv(sem, s, e);
    case ChildExit(e) => ExitInv(sem, s, e);
    case Disable(ok) => StopInv(sem, s, ok);
    case Enable(later, e) => EnableInv(sem, s, later, e);
  }

  ghost predicate OrderlyRun<D(!new), C(!new)>(sem: Semantics<D, C>, s: Aof<D, C>, events: seq<Event<C>>)
    decreases |events|
  {
    events == [] ||
    (Possible(s, events[0]) && Orderly(sem, s, events[0]) && OrderlyRun(sem, Next(sem, s, events[0]), events[1..]))
  }

  ghost function After<D(!new), C(!new)>(sem: Semantics<D, C>, s: Aof<D, C>, events: seq<Event<C>>): Aof<D, C>
    decreases |events|
  {
    if events == [] then s else After(sem, Next(sem, s, events[0]), events[1..])
  }

  lemma {:induction false} RunInv<D(!new), C(!new)>(sem: Semantics<D, C>, s: Aof<D, C>, events: seq<Event<C>>)
    requires Faithful(sem) && AofInv(sem, s) && OrderlyRun(sem, s, events)
    ensures AofInv(sem, After(sem, s, events))
    decreases |events|
  {
    if events != [] {
      NextInv(sem, s, events[0]);
      RunInv(sem, Next(sem, s, events[0]), events[1..]);
    }
  }

  /** With the AOF on, a complete flush empties the buffer, every file the manifest on disk names as
      BASE or INCR exists, and loading them in order gives the dataset. */
  ghost predicate Lossless<D(!new), C(!new)>(sem: Semantics<D, C>, s: Aof<D, C>) {
    s.mode.On? ==>
      var t := Flush(s, true);
      && t.buf == [] && (forall n <- Order(t.disk) :: n in t.files)
      && sem.load(Contents(t.files, Order(t.disk))) == t.data
  }

  lemma InvIsLossless<D(!new), C(!new)>(sem: Semantics<D, C>, s: Aof<D, C>)
    requires AofInv(sem, s)
    ensures Lossless(sem, s)
  {
    if s.mode.On? {
      FlushOn(sem, s);
      var t := Flush(s, true);
      assert Order(t.disk) == Order(t.mem);
      assert s.fd.name in Order(s.mem);
      assert Contents(t.files, Order(t.mem)) + [] == Contents(t.files, Order(t.mem));
    }
  }

  /** After any orderly run from an empty server. */
  lemma NeverLosesTheDataset<D(!new), C(!new)>(sem: Semantics<D, C>, events: seq<Event<C>>)
    requires Faithful(sem) && OrderlyRun(sem, Boot(sem), events)
    ensures var s := After(sem, Boot(sem), events);
            && (forall n <- Order(s.disk) :: n in s.files)
            && Lossless(sem, s)
  {
    BootInv(sem);
    RunInv(sem, Boot(sem), events);
    InvIsLossless(sem, After(sem, Boot(sem), events));
  }

  lemma StartKeepsFiles<D(!new), C(!new)>(sem: Semantics<D, C>, s: Aof<D, C>, e: Start)
    ensures s.files.Keys <= StartRewrite(sem, s, e).1.files.Keys
  {
    var t := Flush(s, e.flushOk);
    assert s.files.Keys <= t.files.Keys;
    hide Flush;
    assert t.files.Keys <= OpenNewIncr(t, e.openOk, e.persistOk).1.files.Keys;
    hide OpenNewIncr;
  }

  lemma OthersKeepFiles<D(!new), C(!new)>(sem: Semantics<D, C>, s: Aof<D, C>, ev: Event<C>)
    requires !ev.ChildExit?
    ensures s.files.Keys <= Next(sem, s, ev).files.Keys
  {
    match ev
    case Rewrite(e) => StartKeepsFiles(sem, s, e);
    case Enable(_, e) =>
      hide StartRewrite;
      StartKeepsFiles(sem, s.(mode := WaitRewrite, child := NoChild), e);
    case _ =>
  }

  lemma FailureKeepsLive<D(!new), C(!new)>(sem: Semantics<D, C>, s: Aof<D, C>, e: Done)
    requires AofInv(sem, s) && s.child.Rewriting? && !Succeeds(s, e)
    ensures forall n <- Order(s.mem) :: n in RewriteDone(s, e).files
  {
    LiveNames(s.mem);
    var t := RewriteDone(s, e);
    if e.success && e.renameBase && (s.mode.WaitRewrite? ==> e.renameIncr && TempIncr in s.files) {
      assert MarkIncrAsHistory(Install(s).mem, !Install(s).fd.Closed?).dirty;
    }
  }

  lemma SuccessUnlinks<D(!new), C(!new)>(sem: Semantics<D, C>, s: Aof<D, C>, e: Done, n: FileName)
    requires AofInv(sem, s) && s.child.Rewriting? && Succeeds(s, e)
    requires n in Order(s.mem) && n !in RewriteDone(s, e).files
    ensures e.gc && n in Installed(s).disk.hist
  {
    LiveNames(s.mem);
    var am := MarkIncrAsHistory(Install(s).mem, !Install(s).fd.Closed?);
    assert am.dirty;
    var u := Installed(s);
    assert n in u.files;
    var v := if e.gc then DelHistory(u, e.persistHistOk) else u;
    assert RewriteDone(s, e).files == v.files;
  }

  lemma InstalledOk<D(!new), C(!new)>(sem: Semantics<D, C>, s: Aof<D, C>)
    requires AofInv(sem, s) && s.child.Rewriting? && (s.mode.WaitRewrite? ==> TempIncr in s.files)
    ensures Catalogued(Installed(s))
  {
    match s.mode
    case On => InstalledOn(sem, s);
    case WaitRewrite => InstalledOn(sem, s);
    case Off => InstalledOff(sem, s);
  }

  /** A file that disappears while the manifest on disk names it BASE or INCR does so only after a
      manifest that calls it history was persisted. */
  lemma UnlinksOnlyDeadFiles<D(!new), C(!new)>(sem: Semantics<D, C>, s: Aof<D, C>, ev: Event<C>, n: FileName)
    requires AofInv(sem, s) && Possible(s, ev)
    requires n in Order(s.disk) && n !in Next(sem, s, ev).files
    ensures ev.ChildExit? && Succeeds(s, ev.done) && ev.done.gc
    ensures n in Installed(s).disk.hist && n !in Order(Installed(s).disk)
  {
    assert Order(s.disk) == Order(s.mem) && n in s.files;
    if !ev.ChildExit? {
      OthersKeepFiles(sem, s, ev);
    } else if !Succeeds(s, ev.done) {
      FailureKeepsLive(sem, s, ev.done);
    } else {
      SuccessUnlinks(sem, s, ev.done, n);
      InstalledOk(sem, s);
      LiveOrder(Installed(s).disk);
    }
  }
}
