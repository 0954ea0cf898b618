/** Feeding the log and loading it back, in place; and what a repaired log does to later writes. */
module AofFeed {
  import opened Wrappers
  import opened AofLog
  import opened AofLoad

  /** A propagated command: its database (-1 for none), and the timestamp line due before it. */
  datatype Fed = Fed(db: int, argv: Argv, stamp: Option<Bytes>)

  function Select(db: nat): Argv {
    ["SELECT", Dec(db)]
  }

  /** What feedAppendOnlyFile appends when `selected` is the database of the last command. */
  function FeedEntries(selected: int, f: Fed): seq<Entry> {
    (if f.stamp.Some? then [Annotation(f.stamp.value)] else [])
    + (if f.db >= 0 && f.db != selected then [Command(Select(f.db))] else [])
    + [Command(f.argv)]
  }

  function NextSelected(selected: int, f: Fed): int {
    if f.db >= 0 then f.db else selected
  }

  /** The database of the last command with one, or -1. */
  function Selected(fs: seq<Fed>): int {
    if fs == [] then -1 else NextSelected(Selected(fs[..|fs| - 1]), fs[|fs| - 1])
  }

  /** The log of a fresh file. */
  function FeedLog(fs: seq<Fed>): seq<Entry> {
    if fs == [] then []
    else FeedLog(fs[..|fs| - 1]) + FeedEntries(Selected(fs[..|fs| - 1]), fs[|fs| - 1])
  }

  ghost predicate Feedable(f: Fed) {
    && -1 <= f.db && (f.db >= 0 ==> Fits(f.db))
    && Writable(Command(f.argv)) && !IsSelect(f.argv)
    && (f.stamp.Some? ==> Writable(Annotation(f.stamp.value)))
  }

  ghost predicate AllFeedable(fs: seq<Fed>) {
    forall i :: 0 <= i < |fs| ==> Feedable(fs[i])
  }

  /** The commands as they were fed, each under its own database. */
  function Expected(fs: seq<Fed>): Effect {
    if fs == [] then Effect(0, [])
    else
      var (e, f) := (Expected(fs[..|fs| - 1]), fs[|fs| - 1]);
      var db := if f.db >= 0 then f.db else e.db;
      Effect(db, if IsControl(f.argv) then e.done else e.done + [(db, f.argv)])
  }

  lemma SelectWritable(db: nat)
    requires Fits(db)
    ensures Writable(Command(Select(db))) && IsSelect(Select(db)) && Atoi(Select(db)[1]) == db
  {
    FitsDec(db);
    assert Select(db)[1] + [] == Dec(db);
    AtoiDec(db, []);
    assert SameName("SELECT", "SELECT");
  }

  lemma EntriesWritable(selected: int, f: Fed)
    requires Feedable(f)
    ensures AllWritable(FeedEntries(selected, f))
  {
    if f.db >= 0 {
      SelectWritable(f.db);
    }
  }

  lemma {:induction false} FeedWritable(fs: seq<Fed>)
    requires AllFeedable(fs)
    ensures AllWritable(FeedLog(fs))
    decreases |fs|
  {
    if fs != [] {
      FeedWritable(fs[..|fs| - 1]);
      EntriesWritable(Selected(fs[..|fs| - 1]), fs[|fs| - 1]);
    }
  }

  lemma {:induction false} CommandsAppend(a: seq<Entry>, b: seq<Entry>)
    ensures Commands(a + b) == Commands(a) + Commands(b)
    decreases |b|
  {
    if b == [] {
      assert a + b == a;
    } else {
      CommandsAppend(a, b[..|b| - 1]);
      assert (a + b)[..|a + b| - 1] == a + b[..|b| - 1];
    }
  }

  lemma EntryCommands(selected: int, f: Fed)
    ensures Commands(FeedEntries(selected, f))
            == (if f.db >= 0 && f.db != selected then [Select(f.db)] else []) + [f.argv]
  {
    var stamp := if f.stamp.Some? then [Annotation(f.stamp.value)] else [];
    var select := if f.db >= 0 && f.db != selected then [Command(Select(f.db))] else [];
    CommandsAppend(stamp + select, [Command(f.argv)]);
    CommandsAppend(stamp, select);
    assert stamp != [] ==> stamp[..0] == [];
    assert select != [] ==> select[..0] == [];
    assert [Command(f.argv)][..0] == [];
    assert Commands(stamp) == [];
  }

  /** Each command of the feed runs under its own database. */
  lemma {:induction false} FeedPerforms(fs: seq<Fed>)
    requires AllFeedable(fs)
    ensures PerformAll(FRESH.effect, Commands(FeedLog(fs))) == Expected(fs)
    ensures Selected(fs) == -1 || Selected(fs) == Expected(fs).db
    decreases |fs|
  {
    if fs != [] {
      hide Commands, PerformAll, FeedEntries, Feedable, IsControl, Select;
      var (init, f) := (fs[..|fs| - 1], fs[|fs| - 1]);
      FeedPerforms(init);
      var more := FeedEntries(Selected(init), f);
      CommandsAppend(FeedLog(init), more);
      PerformAppend(FRESH.effect, Commands(FeedLog(init)), Commands(more));
      EntryCommands(Selected(init), f);
      PerformOne(Expected(init), Selected(init), f);
    }
  }

  lemma PerformOne(e: Effect, selected: int, f: Fed)
    requires Feedable(f) && (selected == -1 || selected == e.db)
    ensures var cmds := (if f.db >= 0 && f.db != selected then [Select(f.db)] else []) + [f.argv];
            var db := if f.db >= 0 then f.db else e.db;
            PerformAll(e, cmds) == Effect(db, if IsControl(f.argv) then e.done else e.done + [(db, f.argv)])
  {
    assert [f.argv][..0] == [];
    if f.db >= 0 && f.db != selected {
      SelectWritable(f.db);
      assert ([Select(f.db)] + [f.argv])[..1] == [Select(f.db)] && [Select(f.db)][..0] == [];
      assert PerformAll(e, [Select(f.db)]) == e.(db := f.db);
    } else {
      assert [] + [f.argv] == [f.argv];
    }
  }

  /** Loading what was fed to a fresh file: every command of a closed feed, in order, each under its
      own database. */
  lemma RoundTrip(fs: seq<Fed>, tolerant: bool)
    requires AllFeedable(fs) && Settled(Commands(FeedLog(fs))) == |Commands(FeedLog(fs))|
    ensures var t := Load(Encode(FeedLog(fs)), tolerant);
            t.status.AofOk? && t.client.effect.done == Expected(fs).done
  {
    FeedWritable(fs);
    LoadAll(FeedLog(fs), tolerant);
    WalkExecutes(FeedLog(fs), tolerant);
    var cmds := Commands(FeedLog(fs));
    TransactionsAreAtomic(cmds);
    FeedPerforms(fs);
    assert cmds[..|cmds|] == cmds;
  }

  // ---------------------------------------------------------------------------------------
  // Writing on after a repair
  // ---------------------------------------------------------------------------------------

  ghost predicate NoExec(cmds: seq<Argv>) {
    forall i :: 0 <= i < |cmds| ==> !Is(cmds[i], "EXEC")
  }

  /** An open transaction stays open until an EXEC. */
  lemma {:induction false} StaysOpen(cmds: seq<Argv>, more: seq<Argv>)
    requires Settled(cmds) < |cmds| && NoExec(more)
    ensures Settled(cmds + more) == Settled(cmds)
    decreases |more|
  {
    if more == [] {
      assert cmds + more == cmds;
    } else {
      StaysOpen(cmds, more[..|more| - 1]);
      assert (cmds + more)[..|cmds + more| - 1] == cmds + more[..|more| - 1];
    }
  }

  /** If the log was cut inside a command of an open transaction, everything logged after the
      repair is swallowed by the MULTI left in the file: the next load executes none of it unless
      some transaction supplies an EXEC. */
  lemma WritesAfterRepairAreLost(log: seq<Entry>, k: nat, more: seq<Entry>)
    requires AllWritable(log) && k <= |Encode(log)| && CutInside(log, k)
    requires Load(Encode(log)[..k], true).client.multi
    requires AllWritable(more) && NoExec(Commands(more))
    ensures var s := Encode(log)[..k];
            var t := Load(s, true);
            && t.status.AofTruncated? && t.validUpTo <= k
            && Load(s[..t.validUpTo] + Encode(more), true).client.effect == t.client.effect
  {
    hide LoadRest, Encode, Writable, ExecuteAll, LastCommandEnd, Walk, Settled, Commands, Whole;
    CutLog(log, k, true);
    CutShape(log, k);
    var n := Whole(log, k);
    var cmds := Commands(log[..n]);
    WalkExecutes(log[..n], true);
    ValidIsBoundary(log[..n]);
    TransactionsAreAtomic(cmds);
    var p := CutAtCommand(log, n, k);
    EncodeAppend(log[..p], more);
    CommandsAppend(log[..p], more);
    StaysOpen(cmds, Commands(more));
    SameCommands(log[..p] + more, cmds + Commands(more));
    assert (cmds + Commands(more))[..Settled(cmds)] == cmds[..Settled(cmds)];
  }

  // ---------------------------------------------------------------------------------------
  // Writing on after a cut inside an annotation
  // ---------------------------------------------------------------------------------------

  /** The only annotation the server writes. */
  function TimestampLine(time: nat): Bytes {
    "#TS:" + Dec(time) + CRLF
  }

  ghost predicate IsTimestamp(line: Bytes) {
    exists time :: Fits(time) && line == TimestampLine(time)
  }

  lemma TimestampShort(line: Bytes)
    requires IsTimestamp(line)
    ensures Writable(Annotation(line)) && |line| <= 25
  {
    var time :| Fits(time) && line == TimestampLine(time);
    FitsDec(time);
    DecDigits(time);
    var text := "#TS:" + Dec(time) + "\r";
    assert line == text + "\n" && line[..|line| - 1] == text;
  }

  /** The cut falls inside a timestamp. */
  ghost predicate CutInTimestamp(log: seq<Entry>, k: nat) {
    var n := Whole(log, k);
    n < |log| && log[n].Annotation? && IsTimestamp(log[n].line) && |Encode(log[..n])| < k
  }

  /** A broken timestamp and a timestamp after it are one line, which is skipped. */
  lemma JoinedLines(line: Bytes, j: nat, stamp: Bytes)
    requires IsTimestamp(line) && IsTimestamp(stamp) && 1 <= j < |line|
    ensures Writable(Annotation(line[..j] + stamp))
  {
    TimestampShort(line);
    TimestampShort(stamp);
    var both := line[..j] + stamp;
    assert both[..|both| - 1] == line[..|line| - 1][..j] + stamp[..|stamp| - 1];
  }

  /** A broken timestamp and a command after it: the first line of the command is skipped too, and
      the first argument is taken for a command. */
  lemma JoinedCommand(line: Bytes, j: nat, argv: Argv, tail: Bytes, l: Loader, total: nat)
    requires IsTimestamp(line) && 1 <= j < |line| && Writable(Command(argv))
    requires total >= |line[..j] + EncodeCommand(argv) + tail|
    ensures LoadRest(line[..j] + EncodeCommand(argv) + tail, l, total, true).status.AofFailed?
  {
    TimestampShort(line);
    var s := line[..j] + EncodeCommand(argv) + tail;
    HeaderText('*', |argv|);
    var text := line[..j] + (['*'] + Dec(|argv|) + "\r");
    var rest := EncodeArgs(argv) + tail;
    assert rest[0] == '$' && s == text + "\n" + rest;
    assert line[..j] == line[..|line| - 1][..j];
    hide EncodeArgs, EncodeArg, LoadRest, Dec, IsTimestamp, Header;
    SkippedLine(text, rest);
    LoadGot(s, Annotation(text + "\n"), rest, l, l, total, true);
    ArgumentFails(rest, l, total);
  }

  lemma SkippedLine(text: Bytes, rest: Bytes)
    requires text != [] && text[0] == '#' && '\n' !in text && |text| < LINE_MAX
    ensures ReadEntry(text + "\n" + rest) == Got(Annotation(text + "\n"), rest)
  {
    var s := text + "\n" + rest;
    LineFull(text, rest, LINE_MAX);
    assert s[..|text| + 1] == text + "\n" && s[|text| + 1..] == rest;
  }

  lemma LineStarts(s: Bytes)
    requires s != []
    ensures LineLength(s, LINE_MAX) >= 1
  {
  }

  lemma ArgumentFails(rest: Bytes, l: Loader, total: nat)
    requires rest != [] && rest[0] == '$' && |rest| <= total
    ensures LoadRest(rest, l, total, true).status.AofFailed?
  {
    LineStarts(rest);
  }

  /** The log begins with what the first command appends. */
  lemma {:induction false} FeedBegins(fs: seq<Fed>) returns (rest: seq<Entry>)
    requires fs != []
    ensures FeedLog(fs) == FeedEntries(-1, fs[0]) + rest
    decreases |fs|
  {
    if |fs| == 1 {
      assert fs[..0] == [];
      rest := [];
    } else {
      var r := FeedBegins(fs[..|fs| - 1]);
      rest := r + FeedEntries(Selected(fs[..|fs| - 1]), fs[|fs| - 1]);
    }
  }

  lemma OneLine(line: Bytes)
    ensures Commands([Annotation(line)]) == [] && Encode([Annotation(line)]) == line
  {
    assert [Annotation(line)][..0] == [] && [Annotation(line)][1..] == [];
  }

  lemma LoadsPastTimestamp(log: seq<Entry>, line: Bytes, j: nat, stamp: Bytes, more: seq<Entry>)
    requires AllWritable(log) && IsTimestamp(line) && 1 <= j < |line| && IsTimestamp(stamp) && AllWritable(more)
    ensures var t := Load(Encode(log) + line[..j] + Encode([Annotation(stamp)] + more), true);
            !t.status.AofFailed? && t.client == ExecuteAll(FRESH, Commands(log) + Commands(more))
  {
    hide LoadRest, Walk, ExecuteAll, Encode, Commands, Writable, IsTimestamp;
    JoinedLines(line, j, stamp);
    var joined := [Annotation(line[..j] + stamp)];
    var all := log + joined + more;
    EncodeAppend(log + joined, more);
    EncodeAppend(log, joined);
    EncodeAppend([Annotation(stamp)], more);
    OneLine(line[..j] + stamp);
    OneLine(stamp);
    assert Encode(all) == Encode(log) + line[..j] + Encode([Annotation(stamp)] + more);
    CommandsAppend(log + joined, more);
    CommandsAppend(log, joined);
    assert Commands(log) + [] == Commands(log);
    LoadAll(all, true);
    WalkExecutes(all, true);
  }

  /** The offset to go back to is always the end of a command. */
  lemma {:induction false} GoesBackTo(log: seq<Entry>) returns (p: nat)
    ensures p <= |log| && Walk(log, true).beforeMulti == LastCommandEnd(log[..p])
    decreases |log|
  {
    if log == [] {
      p := 0;
    } else {
      var (init, last) := (log[..|log| - 1], log[|log| - 1]);
      if last.Command? && Is(last.argv, "MULTI") {
        ValidIsBoundary(init);
        p := |init|;
      } else {
        p := GoesBackTo(init);
        assert init[..p] == log[..p];
      }
    }
  }

  /** Outside a transaction: nothing is truncated, and what is logged next joins the broken line. */
  lemma CutOutside(log: seq<Entry>, k: nat, fs: seq<Fed>)
    requires AllWritable(log) && k <= |Encode(log)| && CutInTimestamp(log, k)
    requires AllFeedable(fs) && fs != [] && (fs[0].stamp.Some? ==> IsTimestamp(fs[0].stamp.value))
    ensures var t := Load(Encode(log)[..k] + Encode(FeedLog(fs)), true);
            && (t.status.AofFailed? <==> fs[0].stamp.None?)
            && (fs[0].stamp.Some? ==>
                  t.client == ExecuteAll(FRESH, Commands(log[..Whole(log, k)]) + Commands(FeedLog(fs))))
  {
    hide LoadRest, Walk, ExecuteAll, Encode, Commands, Whole, Writable, FeedLog, Feedable;
    var n := Whole(log, k);
    var (line, j) := (log[n].line, k - |Encode(log[..n])|);
    CutShape(log, k);
    FeedWritable(fs);
    var rest := FeedBegins(fs);
    var more := FeedLog(fs);
    if fs[0].stamp.Some? {
      var stamp := fs[0].stamp.value;
      assert more == [Annotation(stamp)] + more[1..];
      LoadsPastTimestamp(log[..n], line, j, stamp, more[1..]);
      CommandsAppend([Annotation(stamp)], more[1..]);
      OneLine(stamp);
      assert [] + Commands(more[1..]) == Commands(more[1..]);
    } else {
      assert more[0].Command?;
      FailsAtCommand(log[..n], line, j, more);
    }
  }

  /** Inside a transaction: the file is truncated at the end of a command, and the broken line is gone. */
  lemma CutInTransaction(log: seq<Entry>, k: nat, fs: seq<Fed>)
    requires AllWritable(log) && k <= |Encode(log)| && !CutInside(log, k) && AllFeedable(fs)
    requires Load(Encode(log)[..k], true).client.multi
    ensures var (s, cmds) := (Encode(log)[..k], Commands(log[..Whole(log, k)]));
            var t := Load(s, true);
            && t.status.AofTruncated? && t.validUpTo <= k
            && var u := Load(s[..t.validUpTo] + Encode(FeedLog(fs)), true);
            && !u.status.AofFailed?
            && (Unnested(cmds) ==> u.client == ExecuteAll(FRESH, cmds[..Settled(cmds)] + Commands(FeedLog(fs))))
  {
    hide LoadRest, Walk, ExecuteAll, Encode, Commands, Whole, Writable, FeedLog, Feedable, LastCommandEnd, Settled;
    var (n, cmds) := (Whole(log, k), Commands(log[..Whole(log, k)]));
    CutLog(log, k, true);
    CutShape(log, k);
    var o: nat;
    if Unnested(cmds) {
      o := RevertsTo(log, k);
    } else {
      o := GoesBackTo(log[..n]);
      Prefixes(log, o, n);
    }
    var q := CutAtCommand(log, o, k);
    FeedWritable(fs);
    EncodeAppend(log[..q], FeedLog(fs));
    CommandsAppend(log[..q], FeedLog(fs));
    LoadAll(log[..q] + FeedLog(fs), true);
    WalkExecutes(log[..q] + FeedLog(fs), true);
  }

  /** A log cut inside a timestamp loads without complaint and is not truncated, unless a transaction is
      open.  After more was logged, the next load rejects the file if and only if it was not truncated
      and the first command logged has no timestamp of its own; otherwise nothing more is lost. */
  lemma AnnotationHazard(log: seq<Entry>, k: nat, fs: seq<Fed>)
    requires AllWritable(log) && k <= |Encode(log)| && CutInTimestamp(log, k)
    requires AllFeedable(fs) && fs != [] && (fs[0].stamp.Some? ==> IsTimestamp(fs[0].stamp.value))
    ensures var (s, cmds, feed) := (Encode(log)[..k], Commands(log[..Whole(log, k)]), FeedLog(fs));
            var t := Load(s, true);
            && t.client == ExecuteAll(FRESH, cmds) && t.validUpTo <= k
            && (t.status == if t.client.multi then AofTruncated else AofOk)
            && var u := Load((if t.client.multi then s[..t.validUpTo] else s) + Encode(feed), true);
            && (u.status.AofFailed? <==> !t.client.multi && fs[0].stamp.None?)
            && (!t.client.multi && fs[0].stamp.Some? ==> u.client == ExecuteAll(FRESH, cmds + Commands(feed)))
            && (t.client.multi && Unnested(cmds) ==>
                  u.client == ExecuteAll(FRESH, cmds[..Settled(cmds)] + Commands(feed)))
  {
    hide LoadRest, Walk, ExecuteAll, Encode, Commands, Whole, Writable, FeedLog, AllFeedable, IsTimestamp, Settled,
            Unnested;
    var n := Whole(log, k);
    CutLog(log, k, true);
    WalkExecutes(log[..n], true);
    if Load(Encode(log)[..k], true).client.multi {
      CutInTransaction(log, k, fs);
    } else {
      ValidInCut(log, k);
      CutOutside(log, k, fs);
    }
  }

  lemma ValidInCut(log: seq<Entry>, k: nat)
    requires k <= |Encode(log)|
    ensures Walk(log[..Whole(log, k)], true).validUpTo <= k
  {
    hide Walk, Encode, Whole;
    CutShape(log, k);
    ValidIsBoundary(log[..Whole(log, k)]);
    var p := CutAtCommand(log, Whole(log, k), k);
  }

  lemma FailsAtCommand(log: seq<Entry>, line: Bytes, j: nat, more: seq<Entry>)
    requires AllWritable(log) && IsTimestamp(line) && 1 <= j < |line|
    requires AllWritable(more) && more != [] && more[0].Command?
    ensures Load(Encode(log) + line[..j] + Encode(more), true).status.AofFailed?
  {
    hide LoadRest, Walk, EncodeCommand, Writable, IsTimestamp;
    var argv := more[0].argv;
    assert Encode(more) == EncodeCommand(argv) + Encode(more[1..]);
    hide Encode;
    var s := Encode(log) + line[..j] + Encode(more);
    var tail := line[..j] + EncodeCommand(argv) + Encode(more[1..]);
    assert s == Encode(log) + tail;
    JoinedCommand(line, j, argv, Encode(more[1..]), Walk(log, true), |s|);
    LoadPrefix(log, tail, |s|, true, LoadRest(tail, Walk(log, true), |s|, true));
  }
}
