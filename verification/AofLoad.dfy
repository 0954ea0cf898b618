/** Loading a log: the parsing loop with its recovery from a log that was cut short. */
module AofLoad {
  import opened AofLog

  datatype Status = AofOk | AofTruncated | AofFailed

  /** The loader between two entries: the fake client, the offset after the last well-formed
      command, and the offset before the last MULTI. */
  datatype Loader = Loader(client: Client, validUpTo: nat, beforeMulti: nat)

  /** The result of a load; a truncated file is cut at `validUpTo`. */
  datatype Outcome = Outcome(status: Status, client: Client, validUpTo: nat)

  function LoadCommand(l: Loader, argv: Argv, end: nat, tolerant: bool): Loader {
    Loader(Execute(l.client, argv),
           if tolerant then end else l.validUpTo,
           if Is(argv, "MULTI") then l.validUpTo else l.beforeMulti)
  }

  function LoadEntry(l: Loader, e: Entry, end: nat, tolerant: bool): Loader {
    match e
    case Command(argv) => LoadCommand(l, argv, end, tolerant)
    case Annotation(_) => l
  }

  /** The file ended inside an entry or a transaction. */
  function UnexpectedEnd(l: Loader, validUpTo: nat, tolerant: bool): Outcome {
    Outcome(if tolerant then AofTruncated else AofFailed, l.client, validUpTo)
  }

  /** The file ended between two entries; an open transaction is reverted. */
  function CleanEnd(l: Loader, tolerant: bool): Outcome {
    if l.client.multi then UnexpectedEnd(l, l.beforeMulti, tolerant) else Outcome(AofOk, l.client, l.validUpTo)
  }

  /** Load what is left of a file of `total` bytes. */
  function LoadRest(rest: Bytes, l: Loader, total: nat, tolerant: bool): Outcome
    requires |rest| <= total
    decreases |rest|
  {
    if rest == [] then CleanEnd(l, tolerant)
    else match ReadEntry(rest)
      case Short => UnexpectedEnd(l, l.validUpTo, tolerant)
      case Bad => Outcome(AofFailed, l.client, l.validUpTo)
      case Got(e, t) => LoadRest(t, LoadEntry(l, e, total - |t|, tolerant), total, tolerant)
  }

  const START := Loader(FRESH, 0, 0)

  function Load(s: Bytes, tolerant: bool): Outcome {
    LoadRest(s, START, |s|, tolerant)
  }

  // ---------------------------------------------------------------------------------------
  // Logs
  // ---------------------------------------------------------------------------------------

  function Encode(log: seq<Entry>): Bytes {
    if log == [] then [] else EncodeEntry(log[0]) + Encode(log[1..])
  }

  ghost predicate AllWritable(log: seq<Entry>) {
    forall i :: 0 <= i < |log| ==> Writable(log[i])
  }

  /** The commands of a log, without its annotations. */
  function Commands(log: seq<Entry>): seq<Argv> {
    if log == [] then []
    else
      var last := log[|log| - 1];
      Commands(log[..|log| - 1]) + (if last.Command? then [last.argv] else [])
  }

  lemma {:induction false} EncodeAppend(a: seq<Entry>, b: seq<Entry>)
    ensures Encode(a + b) == Encode(a) + Encode(b)
    decreases |a|
  {
    if a == [] {
      assert a + b == b;
    } else {
      assert (a + b)[1..] == a[1..] + b;
      EncodeAppend(a[1..], b);
    }
  }

  lemma EncodeLast(log: seq<Entry>)
    requires log != []
    ensures Encode(log) == Encode(log[..|log| - 1]) + EncodeEntry(log[|log| - 1])
  {
    var (init, last) := (log[..|log| - 1], log[|log| - 1..]);
    assert init + last == log && last[1..] == [];
    EncodeAppend(init, last);
    assert Encode(last) == EncodeEntry(last[0]) + [];
  }

  /** The loader after the entries of a log, read one by one. */
  function Walk(log: seq<Entry>, tolerant: bool): Loader {
    if log == [] then START
    else LoadEntry(Walk(log[..|log| - 1], tolerant), log[|log| - 1], |Encode(log)|, tolerant)
  }

  /** The offset after the last command. */
  function LastCommandEnd(log: seq<Entry>): nat {
    if log == [] then 0
    else if log[|log| - 1].Command? then |Encode(log)|
    else LastCommandEnd(log[..|log| - 1])
  }

  lemma LoadGot(s: Bytes, e: Entry, t: Bytes, l: Loader, l': Loader, total: nat, tolerant: bool)
    requires s != [] && |t| < |s| <= total && ReadEntry(s) == Got(e, t)
    requires l' == LoadEntry(l, e, total - |t|, tolerant)
    ensures LoadRest(s, l, total, tolerant) == LoadRest(t, l', total, tolerant)
  {
  }

  lemma LoadOne(log: seq<Entry>, i: nat, tail: Bytes, l: Loader, l': Loader, total: nat, tolerant: bool, o: Outcome)
    requires AllWritable(log) && i < |log| && |EncodeEntry(log[i]) + tail| <= total
    requires l' == LoadEntry(l, log[i], total - |tail|, tolerant)
    requires o == LoadRest(tail, l', total, tolerant)
    ensures o == LoadRest(EncodeEntry(log[i]) + tail, l, total, tolerant)
  {
    EntryRead(log[i], tail);
    LoadGot(EncodeEntry(log[i]) + tail, log[i], tail, l, l', total, tolerant);
  }

  lemma LoadLast(log: seq<Entry>, tail: Bytes, total: nat, tolerant: bool, o: Outcome)
    requires log != [] && AllWritable(log) && total == |Encode(log)| + |tail|
    requires o == LoadRest(tail, Walk(log, tolerant), total, tolerant)
    ensures Encode(log) + tail == Encode(log[..|log| - 1]) + (EncodeEntry(log[|log| - 1]) + tail)
    ensures o == LoadRest(EncodeEntry(log[|log| - 1]) + tail, Walk(log[..|log| - 1], tolerant), total, tolerant)
  {
    hide LoadRest, EncodeEntry, Writable, Encode;
    EncodeLast(log);
    LoadOne(log, |log| - 1, tail, Walk(log[..|log| - 1], tolerant), Walk(log, tolerant), total, tolerant, o);
  }

  /** Reading a log and then whatever follows it, which ends with outcome `o`. */
  lemma {:induction false} LoadPrefix(log: seq<Entry>, tail: Bytes, total: nat, tolerant: bool, o: Outcome)
    requires AllWritable(log) && total == |Encode(log)| + |tail|
    requires o == LoadRest(tail, Walk(log, tolerant), total, tolerant)
    ensures o == LoadRest(Encode(log) + tail, START, total, tolerant)
    decreases |log|
  {
    if log == [] {
      assert Encode(log) + tail == tail;
    } else {
      LoadLast(log, tail, total, tolerant, o);
      LoadPrefix(log[..|log| - 1], EncodeEntry(log[|log| - 1]) + tail, total, tolerant, o);
    }
  }

  /** How many entries are whole in the first `k` bytes. */
  function Whole(log: seq<Entry>, k: nat): (n: nat)
    ensures n <= |log|
    ensures |Encode(log[..n])| <= k || n == 0
  {
    if log == [] then 0
    else if |Encode(log)| <= k then assert log[..|log|] == log; |log|
    else
      var n := Whole(log[..|log| - 1], k);
      assert log[..|log| - 1][..n] == log[..n];
      n
  }

  lemma {:induction false} WholeNext(log: seq<Entry>, k: nat)
    requires Whole(log, k) < |log|
    ensures k < |Encode(log[..Whole(log, k) + 1])|
    decreases |log|
  {
    var init := log[..|log| - 1];
    if Whole(init, k) < |init| {
      WholeNext(init, k);
      assert init[..Whole(init, k) + 1] == log[..Whole(init, k) + 1];
    } else {
      assert log[..|log|] == log;
    }
  }

  /** A cut log is its whole entries and a proper prefix of the next one. */
  lemma CutShape(log: seq<Entry>, k: nat)
    requires k <= |Encode(log)|
    ensures var n := Whole(log, k);
            var m := |Encode(log[..n])|;
            && m <= k && (n == |log| ==> m == k)
            && (n < |log| ==> k - m < |EncodeEntry(log[n])|)
            && Encode(log)[..k] == Encode(log[..n]) + if n < |log| then EncodeEntry(log[n])[..k - m] else []
  {
    hide EncodeEntry;
    var n := Whole(log, k);
    assert Encode(log[..0]) == [];
    var m := |Encode(log[..n])|;
    EncodeAppend(log[..n], log[n..]);
    assert log[..n] + log[n..] == log;
    if n < |log| {
      WholeNext(log, k);
      EncodeLast(log[..n + 1]);
      assert log[..n + 1][..n] == log[..n];
      assert log[n..][0] == log[n];
    }
  }

  lemma EmptyTail(l: Loader, total: nat, tolerant: bool)
    ensures LoadRest([], l, total, tolerant) == CleanEnd(l, tolerant)
  {
  }

  /** What is left of a cut entry. */
  lemma CutTail(e: Entry, k: nat, l: Loader, total: nat, tolerant: bool)
    requires Writable(e) && k < |EncodeEntry(e)| && k <= total
    ensures LoadRest(EncodeEntry(e)[..k], l, total, tolerant)
            == if e.Command? && k > 0 then UnexpectedEnd(l, l.validUpTo, tolerant) else CleanEnd(l, tolerant)
  {
    hide ReadEntry, EncodeCommand, Writable;
    if k > 0 {
      EntryCut(e, k);
      if e.Annotation? {
        LoadGot(EncodeEntry(e)[..k], Annotation(e.line[..k]), [], l, l, total, tolerant);
      }
    }
  }

  /** Wherever the log is cut, the loader has processed exactly the entries that are whole, and it
      takes the rest for the end of the file, never for a format error.  It sees a clean end when
      the cut is between entries or inside an annotation. */
  lemma CutLog(log: seq<Entry>, k: nat, tolerant: bool)
    requires AllWritable(log) && k <= |Encode(log)|
    ensures var n := Whole(log, k);
            var l := Walk(log[..n], tolerant);
            Load(Encode(log)[..k], tolerant) ==
              if CutInside(log, k) then UnexpectedEnd(l, l.validUpTo, tolerant) else CleanEnd(l, tolerant)
  {
    hide EncodeEntry, Encode, Whole, Walk, Writable, LoadRest;
    CutShape(log, k);
    var n := Whole(log, k);
    var m := |Encode(log[..n])|;
    var l := Walk(log[..n], tolerant);
    var tail := if n < |log| then EncodeEntry(log[n])[..k - m] else [];
    if n < |log| {
      CutTail(log[n], k - m, l, k, tolerant);
    } else {
      EmptyTail(l, k, tolerant);
    }
    LoadPrefix(log[..n], tail, k, tolerant, LoadRest(tail, l, k, tolerant));
  }

  /** The cut falls inside a command. */
  ghost predicate CutInside(log: seq<Entry>, k: nat) {
    var n := Whole(log, k);
    n < |log| && log[n].Command? && |Encode(log[..n])| < k
  }

  // ---------------------------------------------------------------------------------------
  // What was executed, and where a truncated file is cut
  // ---------------------------------------------------------------------------------------

  lemma {:induction false} WalkExecutes(log: seq<Entry>, tolerant: bool)
    ensures Walk(log, tolerant).client == ExecuteAll(FRESH, Commands(log))
    decreases |log|
  {
    if log != [] {
      var init := log[..|log| - 1];
      WalkExecutes(init, tolerant);
      if log[|log| - 1].Command? {
        assert Commands(log)[..|Commands(log)| - 1] == Commands(init);
      } else {
        assert Commands(log) == Commands(init);
      }
    }
  }

  /** The recorded offset is always the end of a command, the last one. */
  lemma {:induction false} ValidIsBoundary(log: seq<Entry>)
    ensures Walk(log, true).validUpTo == LastCommandEnd(log)
    decreases |log|
  {
    if log != [] {
      ValidIsBoundary(log[..|log| - 1]);
    }
  }

  /** No MULTI inside a transaction. */
  ghost predicate Unnested(cmds: seq<Argv>) {
    cmds == [] ||
    var (init, last) := (cmds[..|cmds| - 1], cmds[|cmds| - 1]);
    Unnested(init) && (Is(last, "MULTI") ==> Settled(init) == |init|)
  }

  /** The entry that opened the transaction still open at the end. */
  ghost function OpenedAt(log: seq<Entry>): nat {
    if log == [] then 0
    else
      var (init, last) := (log[..|log| - 1], log[|log| - 1]);
      if last.Command? && Is(last.argv, "MULTI") then |init| else OpenedAt(init)
  }

  ghost predicate GoesBack(log: seq<Entry>) {
    && OpenedAt(log) < |log| && Walk(log, true).beforeMulti == LastCommandEnd(log[..OpenedAt(log)])
    && Commands(log[..OpenedAt(log)]) == Commands(log)[..Settled(Commands(log))]
  }

  /** A transaction is open exactly if the commands are not settled. */
  lemma OpenMeansUnsettled(log: seq<Entry>)
    ensures Walk(log, true).client.multi <==> Settled(Commands(log)) < |Commands(log)|
  {
    hide ExecuteAll, Commands, Settled, Walk;
    WalkExecutes(log, true);
    TransactionsAreAtomic(Commands(log));
  }

  lemma OpensNow(init: seq<Entry>, argv: Argv)
    requires Is(argv, "MULTI") && Settled(Commands(init)) == |Commands(init)|
    ensures GoesBack(init + [Command(argv)])
  {
    hide SameName, LastCommandEnd, Execute;
    var log := init + [Command(argv)];
    ValidIsBoundary(init);
    assert log[..|init|] == init;
    assert Commands(log)[..|Commands(init)|] == Commands(init);
  }

  lemma SettledStays(init: seq<Entry>, e: Entry)
    requires Settled(Commands(init)) < |Commands(init)| && Settled(Commands(init + [e])) < |Commands(init + [e])|
    ensures Settled(Commands(init + [e])) == Settled(Commands(init))
    ensures Commands(init + [e])[..Settled(Commands(init))] == Commands(init)[..Settled(Commands(init))]
  {
    hide SameName;
    var log := init + [e];
    assert log[..|init|] == init;
    if e.Command? {
      assert Commands(log) == Commands(init) + [e.argv];
      assert Commands(log)[..|Commands(init)|] == Commands(init);
    } else {
      assert Commands(log) == Commands(init);
    }
  }

  lemma OffsetStays(init: seq<Entry>, e: Entry)
    requires e.Command? ==> !Is(e.argv, "MULTI")
    ensures OpenedAt(init + [e]) == OpenedAt(init) && Walk(init + [e], true).beforeMulti == Walk(init, true).beforeMulti
  {
    hide SameName, Execute, Encode;
    var log := init + [e];
    assert log[..|init|] == init;
  }

  lemma StaysBack(init: seq<Entry>, e: Entry)
    requires GoesBack(init) && (e.Command? ==> !Is(e.argv, "MULTI"))
    requires Settled(Commands(init)) < |Commands(init)| && Settled(Commands(init + [e])) < |Commands(init + [e])|
    ensures GoesBack(init + [e])
  {
    hide Is, LastCommandEnd, Walk, OpenedAt, Commands, Settled;
    SettledStays(init, e);
    OffsetStays(init, e);
    assert (init + [e])[..OpenedAt(init)] == init[..OpenedAt(init)];
  }

  /** While a transaction is open, the offset to go back to is the end of the command before its
      MULTI, and the commands up to there are those that were executed. */
  lemma {:induction false} BeforeMultiIsBoundary(log: seq<Entry>)
    requires Unnested(Commands(log)) && Walk(log, true).client.multi
    ensures OpenedAt(log) < |log| && Walk(log, true).beforeMulti == LastCommandEnd(log[..OpenedAt(log)])
    ensures Commands(log[..OpenedAt(log)]) == Commands(log)[..Settled(Commands(log))]
    decreases |log|
  {
    if log == [] {
      return;
    }
    hide Walk, LastCommandEnd, OpenedAt, SameName;
    var (init, last) := (log[..|log| - 1], log[|log| - 1]);
    assert init + [last] == log;
    OpenMeansUnsettled(log);
    OpenMeansUnsettled(init);
    CommandsOfLast(init, last);
    if last.Command? && Is(last.argv, "MULTI") {
      OpensNow(init, last.argv);
    } else {
      BeforeMultiIsBoundary(init);
      StaysBack(init, last);
    }
  }

  /** The last entry seen from the commands: one more, or none. */
  lemma CommandsOfLast(init: seq<Entry>, last: Entry)
    requires Unnested(Commands(init + [last])) && Settled(Commands(init + [last])) < |Commands(init + [last])|
    ensures Unnested(Commands(init))
    ensures last.Command? && Is(last.argv, "MULTI") ==> Settled(Commands(init)) == |Commands(init)|
    ensures !(last.Command? && Is(last.argv, "MULTI")) ==> Settled(Commands(init)) < |Commands(init)|
  {
    hide SameName;
    var log := init + [last];
    assert log[..|init|] == init;
    if last.Command? {
      assert Commands(log)[..|Commands(log)| - 1] == Commands(init);
    } else {
      assert Commands(log) == Commands(init);
    }
  }

  // ---------------------------------------------------------------------------------------
  // Loading the truncated file again
  // ---------------------------------------------------------------------------------------

  /** The log without its trailing annotations. */
  function Trim(log: seq<Entry>): (n: nat)
    ensures n <= |log|
  {
    if log == [] || log[|log| - 1].Command? then |log| else Trim(log[..|log| - 1])
  }

  lemma {:induction false} TrimEnd(log: seq<Entry>)
    ensures |Encode(log[..Trim(log)])| == LastCommandEnd(log) && Commands(log[..Trim(log)]) == Commands(log)
    decreases |log|
  {
    if log == [] || log[|log| - 1].Command? {
      assert log[..|log|] == log;
    } else {
      var init := log[..|log| - 1];
      TrimEnd(init);
      assert init[..Trim(init)] == log[..Trim(log)];
      assert Commands(log) == Commands(init);
    }
  }

  lemma EncodePrefix(log: seq<Entry>, n: nat, k: nat)
    requires n <= |log| && |Encode(log[..n])| <= k <= |Encode(log)|
    ensures Encode(log)[..k][..|Encode(log[..n])|] == Encode(log[..n])
  {
    EncodeAppend(log[..n], log[n..]);
    assert log[..n] + log[n..] == log;
  }

  lemma LoadAll(log: seq<Entry>, tolerant: bool)
    requires AllWritable(log)
    ensures Load(Encode(log), tolerant) == CleanEnd(Walk(log, tolerant), tolerant)
  {
    assert Encode(log) + [] == Encode(log);
    LoadPrefix(log, [], |Encode(log)|, tolerant, CleanEnd(Walk(log, tolerant), tolerant));
  }

  /** Cutting at the end of the last command of `log[..n]` leaves a log with the same commands. */
  lemma CutAtCommand(log: seq<Entry>, n: nat, k: nat) returns (p: nat)
    requires n <= |log| && |Encode(log[..n])| <= k <= |Encode(log)|
    ensures p <= n && LastCommandEnd(log[..n]) <= k
    ensures Encode(log)[..k][..LastCommandEnd(log[..n])] == Encode(log[..p]) && Commands(log[..p]) == Commands(log[..n])
  {
    hide EncodeEntry, Trim, LastCommandEnd, Commands;
    p := Trim(log[..n]);
    TrimEnd(log[..n]);
    assert log[..n][..p] == log[..p];
    EncodeAppend(log[..p], log[p..n]);
    assert log[..p] + log[p..n] == log[..n];
    EncodePrefix(log, p, k);
  }

  /** Loading a log without its trailing annotations, or any log with the same commands. */
  lemma SameCommands(log: seq<Entry>, cmds: seq<Argv>)
    requires AllWritable(log) && Commands(log) == cmds
    ensures var t := Load(Encode(log), true);
            && t.client.effect == PerformAll(FRESH.effect, cmds[..Settled(cmds)])
            && (t.status.AofOk? <==> Settled(cmds) == |cmds|)
  {
    LoadAll(log, true);
    WalkExecutes(log, true);
    TransactionsAreAtomic(cmds);
  }

  /** Loading a log cut at the end of the last command of its first `n` entries. */
  lemma LoadCutAt(log: seq<Entry>, n: nat, k: nat)
    requires AllWritable(log) && n <= |log| && |Encode(log[..n])| <= k <= |Encode(log)|
    ensures LastCommandEnd(log[..n]) <= k
    ensures var t := Load(Encode(log)[..k][..LastCommandEnd(log[..n])], true);
            var cmds := Commands(log[..n]);
            && t.client.effect == PerformAll(FRESH.effect, cmds[..Settled(cmds)])
            && (t.status.AofOk? <==> Settled(cmds) == |cmds|)
  {
    var p := CutAtCommand(log, n, k);
    SameCommands(log[..p], Commands(log[..n]));
  }

  lemma RepairInside(log: seq<Entry>, k: nat)
    requires AllWritable(log) && k <= |Encode(log)| && CutInside(log, k)
    ensures var s := Encode(log)[..k];
            var t := Load(s, true);
            var cmds := Commands(log[..Whole(log, k)]);
            && t.validUpTo <= k && t.client == ExecuteAll(FRESH, cmds)
            && Load(s[..t.validUpTo], true).client.effect == PerformAll(FRESH.effect, cmds[..Settled(cmds)])
            && (Load(s[..t.validUpTo], true).status.AofOk? <==> Settled(cmds) == |cmds|)
  {
    CutLog(log, k, true);
    CutShape(log, k);
    var n := Whole(log, k);
    WalkExecutes(log[..n], true);
    ValidIsBoundary(log[..n]);
    LoadCutAt(log, n, k);
  }

  lemma Prefixes(log: seq<Entry>, o: nat, n: nat)
    requires o <= n <= |log|
    ensures log[..n][..o] == log[..o] && |Encode(log[..o])| <= |Encode(log[..n])|
  {
    assert log[..o] + log[o..n] == log[..n];
    EncodeAppend(log[..o], log[o..n]);
  }

  /** The offset before the open MULTI. */
  lemma RevertsTo(log: seq<Entry>, k: nat) returns (o: nat)
    requires AllWritable(log) && k <= |Encode(log)| && Unnested(Commands(log[..Whole(log, k)]))
    requires !CutInside(log, k) && Load(Encode(log)[..k], true).status.AofTruncated?
    ensures var cmds := Commands(log[..Whole(log, k)]);
            var t := Load(Encode(log)[..k], true);
            && t.client == ExecuteAll(FRESH, cmds)
            && o <= |log| && |Encode(log[..o])| <= k && t.validUpTo == LastCommandEnd(log[..o])
            && Commands(log[..o]) == cmds[..Settled(cmds)]
  {
    CutLog(log, k, true);
    CutShape(log, k);
    var n := Whole(log, k);
    WalkExecutes(log[..n], true);
    BeforeMultiIsBoundary(log[..n]);
    o := OpenedAt(log[..n]);
    Prefixes(log, o, n);
  }

  lemma RepairOpen(log: seq<Entry>, k: nat)
    requires AllWritable(log) && k <= |Encode(log)| && Unnested(Commands(log[..Whole(log, k)]))
    requires !CutInside(log, k) && Load(Encode(log)[..k], true).status.AofTruncated?
    ensures var s := Encode(log)[..k];
            var t := Load(s, true);
            var cmds := Commands(log[..Whole(log, k)]);
            && t.validUpTo <= k && t.client == ExecuteAll(FRESH, cmds)
            && Load(s[..t.validUpTo], true).client.effect == PerformAll(FRESH.effect, cmds[..Settled(cmds)])
            && Load(s[..t.validUpTo], true).status.AofOk?
  {
    var o := RevertsTo(log, k);
    LoadCutAt(log, o, k);
    var cmds := Commands(log[..Whole(log, k)]);
    SettledAgain(cmds);
    assert cmds[..Settled(cmds)][..Settled(cmds)] == cmds[..Settled(cmds)];
  }

  /** A truncated file loads again with the same effect.  It does so without complaint exactly
      when the cut was not inside a command of an open transaction: in that case the source
      leaves the opening MULTI in the file. */
  lemma Repair(log: seq<Entry>, k: nat)
    requires AllWritable(log) && k <= |Encode(log)| && Unnested(Commands(log[..Whole(log, k)]))
    requires Load(Encode(log)[..k], true).status.AofTruncated?
    ensures var s := Encode(log)[..k];
            var t := Load(s, true);
            && t.validUpTo <= k
            && Load(s[..t.validUpTo], true).client.effect == t.client.effect
            && (Load(s[..t.validUpTo], true).status.AofOk? <==> !(CutInside(log, k) && t.client.multi))
  {
    TransactionsAreAtomic(Commands(log[..Whole(log, k)]));
    if CutInside(log, k) {
      RepairInside(log, k);
    } else {
      RepairOpen(log, k);
    }
  }

  /** Before an open transaction nothing is open. */
  lemma {:induction false} SettledAgain(cmds: seq<Argv>)
    ensures Settled(cmds[..Settled(cmds)]) == Settled(cmds)
    decreases |cmds|
  {
    if cmds != [] {
      var init := cmds[..|cmds| - 1];
      SettledAgain(init);
      if Settled(cmds) < |cmds| - 1 {
        assert cmds[..Settled(cmds)] == init[..Settled(init)];
      } else if Settled(cmds) == |cmds| - 1 {
        assert cmds[..Settled(cmds)] == init == init[..|init|];
      } else {
        assert cmds[..|cmds|] == cmds;
      }
    }
  }

  // ---------------------------------------------------------------------------------------
  // The status of a load
  // ---------------------------------------------------------------------------------------

  /** A transaction is open from command `n` on: a MULTI with no EXEC after it. */
  ghost predicate OpenFrom(cmds: seq<Argv>, n: nat) {
    n < |cmds| && Is(cmds[n], "MULTI") && forall i :: n < i < |cmds| ==> !Is(cmds[i], "EXEC")
  }

  lemma {:induction false} SettledMeans(cmds: seq<Argv>)
    ensures Settled(cmds) < |cmds| <==> exists n :: OpenFrom(cmds, n)
    ensures Settled(cmds) < |cmds| ==> OpenFrom(cmds, Settled(cmds))
    decreases |cmds|
  {
    if cmds != [] {
      hide SameName;
      var (init, last) := (cmds[..|cmds| - 1], cmds[|cmds| - 1]);
      SettledMeans(init);
      assert !(Is(last, "MULTI") && Is(last, "EXEC")) by {
        NotBoth(last);
      }
      if n :| OpenFrom(init, n) {
        if Is(last, "EXEC") {
          forall m: nat ensures !OpenFrom(cmds, m) {
            assert cmds[|init|] == last;
          }
        } else {
          assert OpenFrom(init, Settled(init));
          assert OpenFrom(cmds, Settled(init));
        }
      } else if Is(last, "MULTI") {
        assert OpenFrom(cmds, |init|);
      } else {
        forall m: nat ensures !OpenFrom(cmds, m) {
          assert OpenFrom(cmds, m) ==> OpenFrom(init, m);
        }
      }
    }
  }

  lemma NotBoth(argv: Argv)
    ensures !(Is(argv, "MULTI") && Is(argv, "EXEC"))
  {
  }

  /** The first `k` bytes of a log that was written. */
  ghost predicate IsCut(log: seq<Entry>, k: nat, s: Bytes) {
    AllWritable(log) && k <= |Encode(log)| && s == Encode(log)[..k]
  }

  /** All is well exactly if the cut is not inside a command and no transaction is open before it; otherwise
      the file is truncated if that is allowed, and refused if it is not.  Executed are the whole commands
      before the cut, up to a transaction that is open. */
  ghost predicate Judged(log: seq<Entry>, k: nat, tolerant: bool, t: Outcome) {
    var cmds := Commands(log[..Whole(log, k)]);
    && t.status == (if !CutInside(log, k) && !(exists n :: OpenFrom(cmds, n)) then AofOk
                    else if tolerant then AofTruncated else AofFailed)
    && t.client.effect == PerformAll(FRESH.effect, cmds[..Settled(cmds)])
    && (t.client.multi <==> exists n :: OpenFrom(cmds, n))
  }

  lemma StatusIsExact(log: seq<Entry>, k: nat, tolerant: bool, s: Bytes)
    requires IsCut(log, k, s)
    ensures Judged(log, k, tolerant, Load(s, tolerant))
  {
    var cmds := Commands(log[..Whole(log, k)]);
    CutLog(log, k, tolerant);
    WalkExecutes(log[..Whole(log, k)], tolerant);
    TransactionsAreAtomic(cmds);
    SettledMeans(cmds);
    hide Load, Walk, ExecuteAll, Commands, Settled, Whole, OpenFrom, Encode;
  }

  lemma BadLine(s: Bytes)
    requires s != [] && s[0] != '#'
    requires var n := LineLength(s, LINE_MAX); n >= 1 && (s[0] != '*' || (n > 1 && Atoi(s[1..n]) < 1))
    ensures ReadEntry(s).Bad?
  {
    hide Atoi, LineLength;
    var n := LineLength(s, LINE_MAX);
    assert s[..n][0] == s[0] && (n > 1 ==> s[..n][1..] == s[1..n]);
  }

  lemma BadIsRefused(s: Bytes, l: Loader, total: nat, tolerant: bool)
    requires s != [] && ReadEntry(s).Bad? && |s| <= total
    ensures LoadRest(s, l, total, tolerant) == Outcome(AofFailed, l.client, l.validUpTo)
  {
    hide ReadEntry;
  }

  /** Where an entry should begin, a line that is neither an annotation nor a command with arguments is
      refused, whether truncation is allowed or not, after the entries before it were processed. */
  lemma MalformedIsRefused(log: seq<Entry>, s: Bytes, tolerant: bool)
    requires AllWritable(log) && s != [] && s[0] != '#'
    requires var n := LineLength(s, LINE_MAX); n >= 1 && (s[0] != '*' || (n > 1 && Atoi(s[1..n]) < 1))
    ensures var t := Load(Encode(log) + s, tolerant);
            t.status.AofFailed? && t.client == ExecuteAll(FRESH, Commands(log))
  {
    hide Encode, Walk, ExecuteAll, Commands, Writable, ReadEntry, LineLength, LoadRest;
    var (l, total) := (Walk(log, tolerant), |Encode(log) + s|);
    BadLine(s);
    BadIsRefused(s, l, total, tolerant);
    LoadPrefix(log, s, total, tolerant, LoadRest(s, l, total, tolerant));
    WalkExecutes(log, tolerant);
  }
}
