/** The command log: what feedAppendOnlyFile appends, and how the loader reads it back, including
    logs cut short at any byte. */
module AofLog {
  type Bytes = string
  type Argv = seq<Bytes>

  // ---------------------------------------------------------------------------------------
  // Decimal numbers
  // ---------------------------------------------------------------------------------------

  function Digit(d: nat): char
    requires d < 10
  {
    ('0' as int + d) as char
  }

  predicate IsDigit(c: char) {
    '0' <= c <= '9'
  }

  predicate AllDigits(s: Bytes) {
    forall i :: 0 <= i < |s| ==> IsDigit(s[i])
  }

  function Dec(n: nat): Bytes {
    if n < 10 then [Digit(n)] else Dec(n / 10) + [Digit(n % 10)]
  }

  /** The number of leading digits. */
  function Run(s: Bytes): (n: nat)
    ensures n <= |s|
  {
    if s != [] && IsDigit(s[0]) then 1 + Run(s[1..]) else 0
  }

  function Value(s: Bytes): nat
    requires AllDigits(s)
  {
    if s == [] then 0 else Value(s[..|s| - 1]) * 10 + (s[|s| - 1] as int - '0' as int)
  }

  lemma {:induction false} RunDigits(s: Bytes)
    ensures AllDigits(s[..Run(s)])
    ensures Run(s) < |s| ==> !IsDigit(s[Run(s)])
  {
    if s != [] && IsDigit(s[0]) {
      RunDigits(s[1..]);
      assert s[..Run(s)] == [s[0]] + s[1..][..Run(s[1..])];
    }
  }

  /** atoi and strtol on text that starts with a digit or with neither blank nor sign. */
  function Atoi(s: Bytes): nat {
    RunDigits(s);
    Value(s[..Run(s)])
  }

  lemma {:induction false} DecDigits(n: nat)
    ensures Dec(n) != [] && AllDigits(Dec(n)) && Value(Dec(n)) == n
    ensures n > 0 ==> Dec(n)[0] != '0'
    decreases n
  {
    if n >= 10 {
      DecDigits(n / 10);
      assert Dec(n)[..|Dec(n)| - 1] == Dec(n / 10);
    } else {
      assert [Digit(n)][..0] == [];
    }
  }

  lemma {:induction false} RunAll(a: Bytes, b: Bytes)
    requires AllDigits(a) && (b == [] || !IsDigit(b[0]))
    ensures Run(a + b) == |a| && (a + b)[..|a|] == a
    decreases |a|
  {
    if a == [] {
      assert a + b == b;
    } else {
      assert (a + b)[1..] == a[1..] + b;
      RunAll(a[1..], b);
    }
  }

  lemma AtoiDec(n: nat, tail: Bytes)
    requires tail == [] || !IsDigit(tail[0])
    ensures Atoi(Dec(n) + tail) == n
  {
    DecDigits(n);
    RunAll(Dec(n), tail);
  }

  /** A number cut short but not emptied is still positive. */
  lemma AtoiPositive(s: Bytes)
    requires s != [] && IsDigit(s[0]) && s[0] != '0'
    ensures Atoi(s) >= 1
  {
    RunDigits(s);
    ValuePositive(s[..Run(s)]);
  }

  lemma {:induction false} ValuePositive(s: Bytes)
    requires s != [] && AllDigits(s) && s[0] != '0'
    ensures Value(s) >= 1
    decreases |s|
  {
    if |s| == 1 {
      assert s[..0] == [];
    } else {
      ValuePositive(s[..|s| - 1]);
    }
  }

  function Pow10(k: nat): nat {
    if k == 0 then 1 else 10 * Pow10(k - 1)
  }

  lemma {:induction false} DecLength(n: nat, k: nat)
    requires 1 <= k && n < Pow10(k)
    ensures |Dec(n)| <= k
    decreases k
  {
    if n >= 10 {
      assert k >= 2 by {
        assert Pow10(1) == 10 * Pow10(0);
      }
      DecLength(n / 10, k - 1);
    }
  }

  // ---------------------------------------------------------------------------------------
  // Writing
  // ---------------------------------------------------------------------------------------

  const CRLF: Bytes := "\r\n"

  function Header(kind: char, n: nat): Bytes {
    [kind] + Dec(n) + CRLF
  }

  function EncodeArg(a: Bytes): Bytes {
    Header('$', |a|) + a + CRLF
  }

  function EncodeArgs(args: Argv): Bytes {
    if args == [] then [] else EncodeArg(args[0]) + EncodeArgs(args[1..])
  }

  function EncodeCommand(argv: Argv): Bytes {
    Header('*', |argv|) + EncodeArgs(argv)
  }

  // ---------------------------------------------------------------------------------------
  // Reading
  // ---------------------------------------------------------------------------------------

  // fgets fills a buffer of 1024 bytes including the terminator
  const LINE_MAX: nat := 1023

  /** The length of the line fgets returns: up to a newline, the buffer or the end. */
  function LineLength(s: Bytes, max: nat): (n: nat)
    ensures n <= |s| && n <= max
  {
    if s == [] || max == 0 then 0 else if s[0] == '\n' then 1 else 1 + LineLength(s[1..], max - 1)
  }

  datatype Read<T> =
    | Got(value: T, rest: Bytes)
    | Short      // the end of the file was reached
    | Bad        // format error

  function ReadArg(s: Bytes): (r: Read<Bytes>)
    ensures r.Got? ==> |r.rest| < |s|
  {
    var n := LineLength(s, LINE_MAX);
    if n == 0 then Short
    else if s[0] != '$' then Bad
    else
      var (len, t) := (Atoi(s[1..n]), s[n..]);
      if len > |t| || len + 2 > |t| then Short else Got(t[..len], t[len + 2..])
  }

  function ReadArgs(s: Bytes, count: nat): (r: Read<Argv>)
    ensures r.Got? ==> |r.rest| <= |s|
    decreases count
  {
    if count == 0 then Got([], s)
    else match ReadArg(s)
      case Short => Short
      case Bad => Bad
      case Got(a, t) =>
        match ReadArgs(t, count - 1)
        case Short => Short
        case Bad => Bad
        case Got(args, u) => Got([a] + args, u)
  }

  /** An entry of the log: a command, or an annotation line to be skipped. */
  datatype Entry = Command(argv: Argv) | Annotation(line: Bytes)

  function ReadEntry(s: Bytes): (r: Read<Entry>)
    requires s != []
    ensures r.Got? ==> |r.rest| < |s|
  {
    var n := LineLength(s, LINE_MAX);
    var (line, t) := (s[..n], s[n..]);
    if line[0] == '#' then Got(Annotation(line), t)
    else if line[0] != '*' then Bad
    else if n == 1 then Short
    else
      var argc := Atoi(line[1..]);
      if argc < 1 then Bad
      else match ReadArgs(t, argc)
        case Short => Short
        case Bad => Bad
        case Got(argv, u) => Got(Command(argv), u)
  }

  // ---------------------------------------------------------------------------------------
  // What was written is read back
  // ---------------------------------------------------------------------------------------

  /** A line of text followed by a newline is read whole. */
  lemma {:induction false} LineFull(text: Bytes, tail: Bytes, max: nat)
    requires '\n' !in text && |text| + 1 <= max
    ensures LineLength(text + "\n" + tail, max) == |text| + 1
    decreases |text|
  {
    var s := text + "\n" + tail;
    if text == [] {
      assert s[0] == '\n';
    } else {
      assert s[1..] == text[1..] + "\n" + tail;
      LineFull(text[1..], tail, max - 1);
    }
  }

  /** A line cut before its newline is read to the end of the file. */
  lemma {:induction false} LineCut(text: Bytes, max: nat)
    requires '\n' !in text && |text| <= max
    ensures LineLength(text, max) == |text|
    decreases |text|
  {
    if text != [] {
      LineCut(text[1..], max - 1);
    }
  }

  /** Lengths are read with strtol into a long ... */
  predicate Fits(n: nat) {
    n < 0x8000_0000_0000_0000
  }

  /** ... and numbers of arguments with atoi into an int. */
  predicate FitsInt(n: nat) {
    n < 0x8000_0000
  }

  lemma FitsDec(n: nat)
    requires Fits(n)
    ensures |Dec(n)| <= 19
  {
    assert Pow10(19) == 10_000_000_000_000_000_000 by {
      assert Pow10(5) == 100_000;
      assert Pow10(10) == 10_000_000_000;
      assert Pow10(15) == 1_000_000_000_000_000;
    }
    DecLength(n, 19);
  }

  /** A header line: its text and that nothing in it ends the line early. */
  lemma HeaderText(kind: char, n: nat)
    requires Fits(n) && kind != '\n'
    ensures Header(kind, n) == [kind] + Dec(n) + "\r" + "\n"
    ensures '\n' !in [kind] + Dec(n) + "\r" && |[kind] + Dec(n) + "\r"| <= 21
  {
    DecDigits(n);
    FitsDec(n);
  }

  lemma HeaderRead(kind: char, n: nat, tail: Bytes)
    requires Fits(n) && kind != '\n'
    ensures var s := Header(kind, n) + tail;
            var k := LineLength(s, LINE_MAX);
            && k == |Header(kind, n)| && s[0] == kind && s[..k] == Header(kind, n) && s[k..] == tail
            && Atoi(s[1..k]) == n
  {
    HeaderText(kind, n);
    var text := [kind] + Dec(n) + "\r";
    assert Header(kind, n) + tail == text + "\n" + tail;
    LineFull(text, tail, LINE_MAX);
    var s := Header(kind, n) + tail;
    var k := LineLength(s, LINE_MAX);
    assert s[1..k] == Dec(n) + CRLF;
    AtoiDec(n, CRLF);
  }

  lemma ArgRead(a: Bytes, tail: Bytes)
    requires Fits(|a|)
    ensures ReadArg(EncodeArg(a) + tail) == Got(a, tail)
  {
    var t := a + CRLF + tail;
    assert EncodeArg(a) + tail == Header('$', |a|) + t;
    HeaderRead('$', |a|, t);
    assert t[..|a|] == a && t[|a| + 2..] == tail;
  }

  lemma {:induction false} ArgsRead(args: Argv, tail: Bytes)
    requires forall a <- args :: Fits(|a|)
    ensures ReadArgs(EncodeArgs(args) + tail, |args|) == Got(args, tail)
    decreases |args|
  {
    if args == [] {
      assert EncodeArgs(args) + tail == tail;
    } else {
      var t := EncodeArgs(args[1..]) + tail;
      assert EncodeArgs(args) + tail == EncodeArg(args[0]) + t;
      ArgRead(args[0], t);
      ArgsRead(args[1..], tail);
      assert [args[0]] + args[1..] == args;
    }
  }

  predicate Writable(e: Entry) {
    match e
    case Command(argv) => 1 <= |argv| && FitsInt(|argv|) && forall a <- argv :: Fits(|a|)
    case Annotation(line) =>
      2 <= |line| <= LINE_MAX && line[0] == '#' && line[|line| - 1] == '\n' && '\n' !in line[..|line| - 1]
  }

  function EncodeEntry(e: Entry): Bytes {
    match e
    case Command(argv) => EncodeCommand(argv)
    case Annotation(line) => line
  }

  lemma EntryRead(e: Entry, tail: Bytes)
    requires Writable(e)
    ensures EncodeEntry(e) != [] && ReadEntry(EncodeEntry(e) + tail) == Got(e, tail)
  {
    match e
    case Command(argv) =>
      var t := EncodeArgs(argv) + tail;
      assert EncodeCommand(argv) + tail == Header('*', |argv|) + t;
      HeaderRead('*', |argv|, t);
      ArgsRead(argv, tail);
    case Annotation(line) =>
      var text := line[..|line| - 1];
      assert line + tail == text + "\n" + tail;
      LineFull(text, tail, LINE_MAX);
      assert (line + tail)[..|line|] == line && (line + tail)[|line|..] == tail;
  }

  // ---------------------------------------------------------------------------------------
  // A cut entry is recognised as the end of the file, never as a format error
  // ---------------------------------------------------------------------------------------

  lemma HeaderCut(kind: char, n: nat, k: nat)
    requires Fits(n) && kind != '\n' && 1 <= k < |Header(kind, n)|
    ensures var s := Header(kind, n)[..k];
            LineLength(s, LINE_MAX) == k && s[0] == kind && (k >= 2 && n >= 1 ==> Atoi(s[1..k]) >= 1)
  {
    HeaderText(kind, n);
    var text := [kind] + Dec(n) + "\r";
    var s := Header(kind, n)[..k];
    assert s == text[..k];
    LineCut(s, LINE_MAX);
    if k >= 2 && n >= 1 {
      DecDigits(n);
      assert s[1] == text[1] == Dec(n)[0];
      AtoiPositive(s[1..k]);
    }
  }

  lemma ArgCut(a: Bytes, k: nat)
    requires Fits(|a|) && k < |EncodeArg(a)|
    ensures ReadArg(EncodeArg(a)[..k]).Short?
  {
    var h := Header('$', |a|);
    var s := EncodeArg(a)[..k];
    if 1 <= k < |h| {
      assert s == h[..k];
      HeaderCut('$', |a|, k);
      assert s[k..] == [];
    } else if k >= |h| {
      var t := (a + CRLF)[..k - |h|];
      assert s == h + t;
      HeaderRead('$', |a|, t);
    }
  }

  lemma {:induction false} ArgsCut(args: Argv, k: nat)
    requires (forall a <- args :: Fits(|a|)) && k < |EncodeArgs(args)|
    ensures ReadArgs(EncodeArgs(args)[..k], |args|).Short?
    decreases |args|
  {
    hide EncodeArg, ReadArg, Fits;
    var first := EncodeArg(args[0]);
    var s := EncodeArgs(args)[..k];
    if k < |first| {
      assert s == first[..k];
      ArgCut(args[0], k);
    } else {
      var t := EncodeArgs(args[1..])[..k - |first|];
      assert s == first + t;
      ArgRead(args[0], t);
      ArgsCut(args[1..], k - |first|);
    }
  }

  lemma CommandCut(argv: Argv, k: nat)
    requires Writable(Command(argv)) && 1 <= k < |EncodeCommand(argv)|
    ensures ReadEntry(EncodeCommand(argv)[..k]).Short?
  {
    hide EncodeArgs;
    var (s, h) := (EncodeCommand(argv)[..k], Header('*', |argv|));
    if k < |h| {
      assert s == h[..k];
      HeaderCut('*', |argv|, k);
      assert s[..k] == s && s[k..] == [];
    } else {
      var t := EncodeArgs(argv)[..k - |h|];
      assert s == h + t;
      HeaderRead('*', |argv|, t);
      ArgsCut(argv, k - |h|);
    }
  }

  lemma AnnotationCut(line: Bytes, k: nat)
    requires Writable(Annotation(line)) && 1 <= k < |line|
    ensures ReadEntry(line[..k]) == Got(Annotation(line[..k]), [])
  {
    var s := line[..k];
    assert '\n' !in s by {
      assert s == line[..|line| - 1][..k];
    }
    LineCut(s, LINE_MAX);
    assert s[..k] == s && s[k..] == [];
  }

  /** A command cut anywhere inside ends too soon; a cut annotation still reads as a line. */
  lemma EntryCut(e: Entry, k: nat)
    requires Writable(e) && 1 <= k < |EncodeEntry(e)|
    ensures e.Command? ==> ReadEntry(EncodeEntry(e)[..k]).Short?
    ensures e.Annotation? ==> ReadEntry(EncodeEntry(e)[..k]) == Got(Annotation(e.line[..k]), [])
  {
    hide ReadEntry, EncodeCommand, Writable;
    match e
    case Command(argv) => CommandCut(argv, k);
    case Annotation(line) => AnnotationCut(line, k);
  }

  // ---------------------------------------------------------------------------------------
  // Executing the log
  // ---------------------------------------------------------------------------------------

  function Upper(c: char): char {
    if 'a' <= c <= 'z' then (c as int - 32) as char else c
  }

  predicate SameName(a: Bytes, name: Bytes) {
    |a| == |name| && forall i :: 0 <= i < |a| ==> Upper(a[i]) == name[i]
  }

  /** Names of commands are compared without regard to case. */
  lemma SameNameMeans(a: Bytes, name: Bytes)
    requires forall i :: 0 <= i < |name| ==> 'A' <= name[i] <= 'Z'
    ensures SameName(a, name) <==>
            |a| == |name| && forall i :: 0 <= i < |a| ==> a[i] == name[i] || a[i] as int == name[i] as int + 32
  {
  }

  predicate Is(argv: Argv, name: Bytes) {
    argv != [] && SameName(argv[0], name)
  }

  predicate IsSelect(argv: Argv) {
    |argv| == 2 && Is(argv, "SELECT")
  }

  predicate IsControl(argv: Argv) {
    Is(argv, "MULTI") || Is(argv, "EXEC")
  }

  /** What has been executed, and in which database the next command runs. */
  datatype Effect = Effect(db: int, done: seq<(int, Argv)>)

  function Perform(e: Effect, argv: Argv): Effect {
    if IsSelect(argv) then e.(db := Atoi(argv[1]))
    else if IsControl(argv) then e
    else e.(done := e.done + [(e.db, argv)])
  }

  /** The commands executed one after the other, without regard to transactions. */
  function PerformAll(e: Effect, cmds: seq<Argv>): Effect {
    if cmds == [] then e else Perform(PerformAll(e, cmds[..|cmds| - 1]), cmds[|cmds| - 1])
  }

  /** The fake client of the loader: in a transaction it queues everything but EXEC. */
  datatype Client = Client(effect: Effect, multi: bool, queue: seq<Argv>)

  function Execute(c: Client, argv: Argv): Client {
    if c.multi && !Is(argv, "EXEC") then c.(queue := c.queue + [argv])
    else if c.multi then Client(PerformAll(c.effect, c.queue), false, [])
    else if Is(argv, "MULTI") then c.(multi := true, queue := [])
    else c.(effect := Perform(c.effect, argv))
  }

  function ExecuteAll(c: Client, cmds: seq<Argv>): Client {
    if cmds == [] then c else Execute(ExecuteAll(c, cmds[..|cmds| - 1]), cmds[|cmds| - 1])
  }

  /** How many commands come before the transaction that is still open at the end. */
  function Settled(cmds: seq<Argv>): (n: nat)
    ensures n <= |cmds|
  {
    if cmds == [] then 0
    else
      var before := Settled(cmds[..|cmds| - 1]);
      var last := cmds[|cmds| - 1];
      if before < |cmds| - 1 then (if Is(last, "EXEC") then |cmds| else before)
      else if Is(last, "MULTI") then |cmds| - 1
      else |cmds|
  }

  const FRESH := Client(Effect(0, []), false, [])

  lemma {:induction false} PerformAppend(e: Effect, a: seq<Argv>, b: seq<Argv>)
    ensures PerformAll(e, a + b) == PerformAll(PerformAll(e, a), b)
    decreases |b|
  {
    if b == [] {
      assert a + b == a;
    } else {
      PerformAppend(e, a, b[..|b| - 1]);
      assert (a + b)[..|a + b| - 1] == a + b[..|b| - 1];
    }
  }

  lemma MultiDoesNothing(e: Effect, multi: Argv, queue: seq<Argv>)
    requires Is(multi, "MULTI")
    ensures PerformAll(e, [multi] + queue) == PerformAll(e, queue)
  {
    PerformAppend(e, [multi], queue);
    assert [multi][..0] == [];
    assert PerformAll(e, [multi]) == e;
  }

  /** Running the queue at EXEC is running the whole transaction in place. */
  lemma ExecCloses(e: Effect, cmds: seq<Argv>, n: nat, exec: Argv)
    requires n < |cmds| && Is(cmds[n], "MULTI") && Is(exec, "EXEC")
    ensures PerformAll(PerformAll(e, cmds[..n]), cmds[n + 1..]) == PerformAll(e, cmds + [exec])
  {
    var d := PerformAll(e, cmds[..n]);
    MultiDoesNothing(d, cmds[n], cmds[n + 1..]);
    assert [cmds[n]] + cmds[n + 1..] == cmds[n..];
    PerformAppend(e, cmds[..n], cmds[n..]);
    assert cmds[..n] + cmds[n..] == cmds;
    assert (cmds + [exec])[..|cmds|] == cmds;
  }

  /** Exactly the commands before an open transaction have been executed; the transaction's own
      commands are queued. */
  ghost predicate Atomic(c: Client, cmds: seq<Argv>) {
    var n := Settled(cmds);
    && c.effect == PerformAll(FRESH.effect, cmds[..n])
    && (c.multi <==> n < |cmds|)
    && (c.multi ==> Is(cmds[n], "MULTI") && c.queue == cmds[n + 1..])
  }

  lemma AtomicOpen(c: Client, init: seq<Argv>, last: Argv)
    requires Atomic(c, init) && c.multi
    ensures Atomic(Execute(c, last), init + [last])
  {
    var (cmds, n) := (init + [last], Settled(init));
    assert cmds[..|init|] == init;
    if Is(last, "EXEC") {
      ExecCloses(FRESH.effect, init, n, last);
      assert cmds[..|cmds|] == cmds;
    } else {
      assert cmds[..n] == init[..n] && cmds[n + 1..] == init[n + 1..] + [last];
    }
  }

  lemma AtomicIdle(c: Client, init: seq<Argv>, last: Argv)
    requires Atomic(c, init) && !c.multi
    ensures Atomic(Execute(c, last), init + [last])
  {
    var cmds := init + [last];
    assert cmds[..|init|] == init == init[..|init|];
    assert cmds[..|cmds|] == cmds && cmds[|cmds|..] == [];
  }

  /** No command of a transaction whose EXEC is missing is executed. */
  lemma {:induction false} TransactionsAreAtomic(cmds: seq<Argv>)
    ensures Atomic(ExecuteAll(FRESH, cmds), cmds)
    decreases |cmds|
  {
    if cmds != [] {
      var (init, last) := (cmds[..|cmds| - 1], cmds[|cmds| - 1]);
      TransactionsAreAtomic(init);
      assert init + [last] == cmds;
      if ExecuteAll(FRESH, init).multi {
        AtomicOpen(ExecuteAll(FRESH, init), init, last);
      } else {
        AtomicIdle(ExecuteAll(FRESH, init), init, last);
      }
    }
  }
}
