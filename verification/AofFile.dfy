/** The loops of the log: appending a command argument by argument, and the loader's pass over the
    file with its read position. */
module AofFile {
  import opened Wrappers
  import opened AofLog
  import opened AofLoad
  import opened AofFeed

  lemma {:induction false} EncodeArgsSnoc(args: Argv, a: Bytes)
    ensures EncodeArgs(args + [a]) == EncodeArgs(args) + EncodeArg(a)
    decreases |args|
  {
    if args == [] {
      assert [a][1..] == [] && EncodeArgs([a]) == EncodeArg(a) + [];
    } else {
      assert (args + [a])[1..] == args[1..] + [a];
      EncodeArgsSnoc(args[1..], a);
    }
  }

  method CatArgument(dst: Bytes, a: Bytes) returns (out: Bytes)
    ensures out == dst + EncodeArg(a)
  {
    var head := "$" + Dec(|a|) + CRLF;
    assert head == Header('$', |a|);
    out := dst + head + a + CRLF;
    assert out == dst + (head + a + CRLF);
  }

  lemma NoArgs()
    ensures EncodeArgs([]) == []
  {
  }

  method CatAppendOnlyGenericCommand(dst: Bytes, argv: Argv) returns (out: Bytes)
    ensures out == dst + EncodeCommand(argv)
  {
    hide EncodeArgs, EncodeArg, Dec;
    NoArgs();
    ghost var head := dst + Header('*', |argv|);
    out := dst + ("*" + Dec(|argv|) + CRLF);
    assert argv[..0] == [] && head + [] == head;
    for j := 0 to |argv|
      invariant out == head + EncodeArgs(argv[..j])
    {
      EncodeArgsSnoc(argv[..j], argv[j]);
      assert argv[..j] + [argv[j]] == argv[..j + 1];
      out := CatArgument(out, argv[j]);
      assert head + EncodeArgs(argv[..j]) + EncodeArg(argv[j]) == head + (EncodeArgs(argv[..j]) + EncodeArg(argv[j]));
    }
    assert argv[..|argv|] == argv;
    assert head + EncodeArgs(argv) == dst + (Header('*', |argv|) + EncodeArgs(argv));
  }

  function SelectPrefix(): Bytes {
    "*2\r\n$6\r\nSELECT\r\n"
  }

  lemma SelectParts()
    ensures Header('*', 2) + EncodeArg("SELECT") == SelectPrefix()
  {
    assert Dec(2) == "2" && Dec(6) == "6";
    assert Header('$', 6) == "$6\r\n" && Header('*', 2) == "*2\r\n";
    assert EncodeArg("SELECT") == "$6\r\nSELECT\r\n";
  }

  lemma TwoArgs(a: Bytes, b: Bytes)
    ensures EncodeCommand([a, b]) == Header('*', 2) + EncodeArg(a) + EncodeArg(b)
  {
    assert [a, b][1..] == [b] && [b][1..] == [];
    assert EncodeArgs([b]) == EncodeArg(b) + [];
    assert Header('*', 2) + (EncodeArg(a) + EncodeArg(b)) == Header('*', 2) + EncodeArg(a) + EncodeArg(b);
  }

  /** The SELECT text the source prints is the encoded command. */
  lemma SelectText(db: nat)
    ensures EncodeCommand(Select(db)) == SelectPrefix() + EncodeArg(Dec(db))
  {
    SelectParts();
    TwoArgs("SELECT", Dec(db));
  }

  class AofBuffer {
    var selectedDb: int
    var buf: Bytes

    constructor ()
      ensures selectedDb == -1 && buf == []
    {
      selectedDb, buf := -1, [];
    }

    method FeedAppendOnlyFile(f: Fed)
      requires -1 <= f.db
      modifies this
      ensures buf == old(buf) + Encode(FeedEntries(old(selectedDb), f))
      ensures selectedDb == NextSelected(old(selectedDb), f)
    {
      var out := if f.stamp.Some? then f.stamp.value else [];
      ghost var stamp := if f.stamp.Some? then [Annotation(f.stamp.value)] else [];
      ghost var select := if f.db >= 0 && f.db != selectedDb then [Command(Select(f.db))] else [];
      EncodeOne(stamp);
      EncodeOne(select);
      if f.db != -1 && f.db != selectedDb {
        SelectText(f.db);
        var seldb := CatArgument(SelectPrefix(), Dec(f.db));
        out := out + seldb;
        selectedDb := f.db;
      }
      assert out == Encode(stamp) + Encode(select);
      out := CatAppendOnlyGenericCommand(out, f.argv);
      EncodeOne([Command(f.argv)]);
      EncodeAppend(stamp, select);
      EncodeAppend(stamp + select, [Command(f.argv)]);
      buf := buf + out;
    }
  }

  lemma EncodeOne(log: seq<Entry>)
    requires |log| <= 1
    ensures Encode(log) == if log == [] then [] else EncodeEntry(log[0])
  {
    if log != [] {
      assert log[1..] == [];
      assert EncodeEntry(log[0]) + [] == EncodeEntry(log[0]);
    }
  }

  /** fgets from a position: the position after the line. */
  method Fgets(s: Bytes, pos: nat) returns (end: nat)
    requires pos <= |s|
    ensures pos <= end <= |s| && end - pos == LineLength(s[pos..], LINE_MAX)
  {
    end := pos;
    while end < |s| && end - pos < LINE_MAX
      invariant pos <= end <= |s| && end - pos <= LINE_MAX
      invariant LineLength(s[pos..], LINE_MAX) == end - pos + LineLength(s[end..], LINE_MAX - (end - pos))
    {
      assert s[end..][1..] == s[end + 1..];
      end := end + 1;
      if s[end - 1] == '\n' {
        return;
      }
    }
  }

  /** What reading `count` arguments gives once some of them have been read. */
  ghost function Prepend(done: Argv, r: Read<Argv>): Read<Argv> {
    if r.Got? then Got(done + r.value, r.rest) else r
  }

  lemma PrependNone(r: Read<Argv>)
    ensures Prepend([], r) == r
  {
    if r.Got? {
      assert [] + r.value == r.value;
    }
  }

  lemma ArgStep(s: Bytes, count: nat, done: Argv)
    requires count > 0
    ensures ReadArg(s).Got? ==>
              Prepend(done, ReadArgs(s, count)) ==
                      Prepend(done + [ReadArg(s).value], ReadArgs(ReadArg(s).rest, count - 1))
    ensures !ReadArg(s).Got? ==> !ReadArgs(s, count).Got? && ReadArgs(s, count).Short? == ReadArg(s).Short?
  {
    if ReadArg(s).Got? && ReadArgs(ReadArg(s).rest, count - 1).Got? {
      var (a, r) := (ReadArg(s).value, ReadArgs(ReadArg(s).rest, count - 1).value);
      assert done + ([a] + r) == done + [a] + r;
    }
  }

  datatype ReadStatus = ReadOk | ReadShort | ReadBad

  /** Read one argument at position `pos`. */
  method LoadArgument(s: Bytes, pos: nat) returns (status: ReadStatus, a: Bytes, next: nat)
    requires pos <= |s|
    ensures status.ReadOk? ==> pos <= next <= |s| && ReadArg(s[pos..]) == Got(a, s[next..])
    ensures status.ReadShort? ==> ReadArg(s[pos..]).Short?
    ensures status.ReadBad? ==> ReadArg(s[pos..]).Bad?
  {
    a, next := [], pos;
    var end := Fgets(s, pos);
    if end == pos {
      return ReadShort, a, next;
    }
    if s[pos] != '$' {
      return ReadBad, a, next;
    }
    assert s[pos..][1..end - pos] == s[pos + 1..end] && s[pos..][end - pos..] == s[end..];
    var len := Atoi(s[pos + 1..end]);
    if end + len > |s| || end + len + 2 > |s| {
      return ReadShort, a, next;
    }
    assert s[end..][..len] == s[end..end + len] && s[end..][len + 2..] == s[end + len + 2..];
    return ReadOk, s[end..end + len], end + len + 2;
  }

  /** The argument loop of the loader, from position `start`. */
  method LoadArguments(s: Bytes, start: nat, argc: nat) returns (status: ReadStatus, argv: Argv, pos: nat)
    requires start <= |s|
    ensures status.ReadOk? ==> start <= pos <= |s| && ReadArgs(s[start..], argc) == Got(argv, s[pos..])
    ensures status.ReadShort? ==> ReadArgs(s[start..], argc).Short?
    ensures status.ReadBad? ==> ReadArgs(s[start..], argc).Bad?
  {
    argv, pos := [], start;
    PrependNone(ReadArgs(s[start..], argc));
    for j := 0 to argc
      invariant start <= pos <= |s|
      invariant ReadArgs(s[start..], argc) == Prepend(argv, ReadArgs(s[pos..], argc - j))
    {
      ArgStep(s[pos..], argc - j, argv);
      var st, a, next := LoadArgument(s, pos);
      if !st.ReadOk? {
        return st, argv, pos;
      }
      argv, pos := argv + [a], next;
    }
    assert argv + [] == argv;
    status := ReadOk;
  }

  /** Read the entry at position `pos`. */
  method LoadOneEntry(s: Bytes, pos: nat) returns (status: ReadStatus, e: Entry, next: nat)
    requires pos < |s|
    ensures status.ReadOk? ==> pos < next <= |s| && ReadEntry(s[pos..]) == Got(e, s[next..])
    ensures status.ReadShort? ==> ReadEntry(s[pos..]).Short?
    ensures status.ReadBad? ==> ReadEntry(s[pos..]).Bad?
  {
    var end := Fgets(s, pos);
    LineStarts(s[pos..]);
    assert s[pos..][..end - pos] == s[pos..end] && s[pos..][end - pos..] == s[end..];
    e, next := Annotation(s[pos..end]), end;
    if s[pos] == '#' {
      return ReadOk, e, next;
    }
    if s[pos] != '*' {
      return ReadBad, e, next;
    }
    if end == pos + 1 {
      return ReadShort, e, next;
    }
    assert s[pos..end][1..] == s[pos + 1..end];
    var argc := Atoi(s[pos + 1..end]);
    if argc < 1 {
      return ReadBad, e, next;
    }
    var st, argv, after := LoadArguments(s, end, argc);
    if st.ReadOk? {
      e, next := Command(argv), after;
    }
    return st, e, next;
  }

  lemma JudgesCuts(s: Bytes, tolerant: bool)
    ensures forall log, k: nat :: IsCut(log, k, s) ==> Judged(log, k, tolerant, Load(s, tolerant))
  {
    forall log, k: nat | IsCut(log, k, s)
      ensures Judged(log, k, tolerant, Load(s, tolerant))
    {
      StatusIsExact(log, k, tolerant, s);
    }
  }

  /** The loading loop. */
  method LoadSingleAppendOnlyFile(s: Bytes, tolerant: bool) returns (o: Outcome)
    ensures o == Load(s, tolerant)
    ensures forall log, k: nat :: IsCut(log, k, s) ==> Judged(log, k, tolerant, o)
  {
    JudgesCuts(s, tolerant);
    hide IsCut, Judged;
    ghost var target := Load(s, tolerant);
    var client: Client, validUpTo: nat, beforeMulti: nat := FRESH, 0, 0;
    var pos := 0;
    assert s[0..] == s;
    while pos < |s|
      invariant pos <= |s|
      invariant target == LoadRest(s[pos..], Loader(client, validUpTo, beforeMulti), |s|, tolerant)
    {
      ghost var (was, l) := (pos, Loader(client, validUpTo, beforeMulti));
      var status, e, next := LoadOneEntry(s, pos);
      if status.ReadBad? {
        return Outcome(AofFailed, client, validUpTo);
      }
      if status.ReadShort? {
        return UnexpectedEnd(Loader(client, validUpTo, beforeMulti), validUpTo, tolerant);
      }
      pos := next;
      if e.Command? {
        if Is(e.argv, "MULTI") {
          beforeMulti := validUpTo;
        }
        client := Execute(client, e.argv);
        validUpTo := if tolerant then pos else validUpTo;
      }
      assert |s| - |s[next..]| == next;
      LoadGot(s[was..], e, s[next..], l, Loader(client, validUpTo, beforeMulti), |s|, tolerant);
    }
    if client.multi {
      return UnexpectedEnd(Loader(client, validUpTo, beforeMulti), beforeMulti, tolerant);
    }
    return Outcome(AofOk, client, validUpTo);
  }
}
