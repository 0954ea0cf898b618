/** The chunked rewriter: a list or set is emitted as variadic commands of at most `limit` items
    each, which load back and rebuild it. */
module AofRewrite {
  import opened AofLog
  import opened AofLoad
  import opened AofFeed
  import opened AofFile

  /** The items in consecutive chunks of `limit`, the last one possibly shorter. */
  function Chunks(items: seq<Bytes>, limit: nat): (r: seq<seq<Bytes>>)
    requires limit >= 1
    decreases |items|
  {
    if items == [] then []
    else if |items| <= limit then [items]
    else [items[..limit]] + Chunks(items[limit..], limit)
  }

  /** A chunk boundary. */
  ghost predicate Aligned(c: nat, limit: nat)
    requires limit >= 1
  {
    c == 0 || (c >= limit && Aligned(c - limit, limit))
  }

  /** The chunk that starts at a boundary is added to the chunks before it. */
  lemma {:induction false} ChunksSnoc(items: seq<Bytes>, c: nat, limit: nat)
    requires limit >= 1 && Aligned(c, limit) && c < |items| <= c + limit
    ensures Chunks(items, limit) == Chunks(items[..c], limit) + [items[c..]]
    decreases c
  {
    if c == 0 {
      assert items[..0] == [] && items[0..] == items;
    } else {
      var rest := items[limit..];
      ChunksSnoc(rest, c - limit, limit);
      assert rest[..c - limit] == items[limit..c] && rest[c - limit..] == items[c..];
      if c == limit {
        assert items[..c][..limit] == items[..limit];
        assert items[limit..c] == [];
      } else {
        assert items[..c][..limit] == items[..limit] && items[..c][limit..] == items[limit..c];
      }
    }
  }

  /** The command for one chunk. */
  function ChunkCommand(name: Bytes, key: Bytes, chunk: seq<Bytes>): Argv {
    [name, key] + chunk
  }

  function ChunkLog(name: Bytes, key: Bytes, chunks: seq<seq<Bytes>>): seq<Entry> {
    if chunks == [] then []
    else ChunkLog(name, key, chunks[..|chunks| - 1]) + [Command(ChunkCommand(name, key, chunks[|chunks| - 1]))]
  }

  function RewriteLog(name: Bytes, key: Bytes, items: seq<Bytes>, limit: nat): seq<Entry>
    requires limit >= 1
  {
    ChunkLog(name, key, Chunks(items, limit))
  }

  /** Adding the chunk at a boundary appends its encoded command. */
  lemma RewriteSnoc(name: Bytes, key: Bytes, items: seq<Bytes>, c: nat, limit: nat)
    requires limit >= 1 && Aligned(c, limit) && c < |items| <= c + limit
    ensures Encode(RewriteLog(name, key, items, limit))
            == Encode(RewriteLog(name, key, items[..c], limit)) + EncodeCommand(ChunkCommand(name, key, items[c..]))
  {
    ChunksSnoc(items, c, limit);
    var chunks := Chunks(items, limit);
    assert chunks[..|chunks| - 1] == Chunks(items[..c], limit);
    var e := [Command(ChunkCommand(name, key, items[c..]))];
    EncodeAppend(RewriteLog(name, key, items[..c], limit), e);
    EncodeOne(e);
  }

  lemma Regroup(a: Bytes, b: Bytes, c: Bytes, d: Bytes)
    ensures a + (b + (c + d)) == a + b + c + d
    ensures a + b + c + d == a + (b + c + d)
  {
  }

  /** The text of a command up to its key, announcing `n` items. */
  function Opening(name: Bytes, key: Bytes, n: nat): Bytes {
    Header('*', 2 + n) + EncodeArg(name) + EncodeArg(key)
  }

  lemma EncodeArgsCons(arg: Bytes, rest: seq<Bytes>)
    ensures EncodeArgs([arg] + rest) == EncodeArg(arg) + EncodeArgs(rest)
  {
    assert ([arg] + rest)[1..] == rest;
  }

  lemma OpenChunk(name: Bytes, key: Bytes, chunk: seq<Bytes>)
    ensures EncodeCommand(ChunkCommand(name, key, chunk)) == Opening(name, key, |chunk|) + EncodeArgs(chunk)
  {
    EncodeArgsCons(key, chunk);
    EncodeArgsCons(name, [key] + chunk);
    assert [name] + ([key] + chunk) == ChunkCommand(name, key, chunk);
    Regroup(Header('*', 2 + |chunk|), EncodeArg(name), EncodeArg(key), EncodeArgs(chunk));
  }

  method StartChunk(dst: Bytes, name: Bytes, key: Bytes, n: nat) returns (out: Bytes)
    ensures out == dst + Opening(name, key, n)
  {
    out := dst + ("*" + Dec(2 + n) + CRLF);
    out := CatArgument(out, name);
    out := CatArgument(out, key);
    Regroup(dst, Header('*', 2 + n), EncodeArg(name), EncodeArg(key));
  }

  /** How many items the command of the chunk at `c` announces. */
  function Announced(list: seq<Bytes>, c: nat, limit: nat): nat
    requires c <= |list|
  {
    if |list| - c > limit then limit else |list| - c
  }

  /** The text of a chunk command up to item `j`. */
  function Partial(name: Bytes, key: Bytes, list: seq<Bytes>, c: nat, j: nat, limit: nat): Bytes
    requires c <= j <= |list|
  {
    Opening(name, key, Announced(list, c, limit)) + EncodeArgs(list[c..j])
  }

  lemma PartialMore(name: Bytes, key: Bytes, list: seq<Bytes>, c: nat, j: nat, limit: nat, out: Bytes, done: Bytes)
    requires c <= j < |list| && out == done + Partial(name, key, list, c, j, limit)
    ensures out + EncodeArg(list[j]) == done + Partial(name, key, list, c, j + 1, limit)
  {
    EncodeArgsSnoc(list[c..j], list[j]);
    assert list[c..j] + [list[j]] == list[c..j + 1];
    Regroup(done, Opening(name, key, Announced(list, c, limit)), EncodeArgs(list[c..j]), EncodeArg(list[j]));
  }

  /** The output when the chunk at `c` holds the items up to `j`. */
  function Written(name: Bytes, key: Bytes, list: seq<Bytes>, c: nat, j: nat, limit: nat): Bytes
    requires limit >= 1 && c <= j <= |list|
  {
    Encode(RewriteLog(name, key, list[..c], limit)) + (if c == j then [] else Partial(name, key, list, c, j, limit))
  }

  lemma WriteFirst(name: Bytes, key: Bytes, list: seq<Bytes>, c: nat, limit: nat, out: Bytes)
    requires limit >= 1 && c < |list| && out == Written(name, key, list, c, c, limit)
    ensures out + Opening(name, key, Announced(list, c, limit)) + EncodeArg(list[c])
            == Written(name, key, list, c, c + 1, limit)
  {
    var opening := Opening(name, key, Announced(list, c, limit));
    assert list[c..c] == [] && EncodeArgs([]) == [] && opening + [] == opening;
    PartialMore(name, key, list, c, c, limit, out + opening, out);
  }

  lemma WriteNext(name: Bytes, key: Bytes, list: seq<Bytes>, c: nat, j: nat, limit: nat, out: Bytes)
    requires limit >= 1 && c < j < |list| && out == Written(name, key, list, c, j, limit)
    ensures out + EncodeArg(list[j]) == Written(name, key, list, c, j + 1, limit)
  {
    PartialMore(name, key, list, c, j, limit, out, Encode(RewriteLog(name, key, list[..c], limit)));
  }

  /** A full chunk, or the last one, is the encoding of its command. */
  lemma CloseChunk(name: Bytes, key: Bytes, list: seq<Bytes>, c: nat, j: nat, limit: nat)
    requires limit >= 1 && Aligned(c, limit) && c < j <= |list| && (j - c == limit || (j == |list| && j - c <= limit))
    ensures Written(name, key, list, c, j, limit) == Encode(RewriteLog(name, key, list[..j], limit))
  {
    RewriteSnoc(name, key, list[..j], c, limit);
    assert list[..j][..c] == list[..c] && list[..j][c..] == list[c..j];
    OpenChunk(name, key, list[c..j]);
  }

  lemma NextChunk(name: Bytes, key: Bytes, list: seq<Bytes>, c: nat, j: nat, limit: nat, out: Bytes)
    requires limit >= 1 && Aligned(c, limit) && c + limit == j <= |list| && out == Written(name, key, list, c, j, limit)
    ensures Aligned(j, limit) && out == Written(name, key, list, j, j, limit)
  {
    CloseChunk(name, key, list, c, j, limit);
    var e := Encode(RewriteLog(name, key, list[..j], limit));
    assert e + [] == e;
  }

  lemma NothingWritten(name: Bytes, key: Bytes, list: seq<Bytes>, limit: nat)
    requires limit >= 1
    ensures Written(name, key, list, 0, 0, limit) == []
  {
    assert list[..0] == [];
  }

  lemma AllWritten(name: Bytes, key: Bytes, list: seq<Bytes>, c: nat, limit: nat)
    requires limit >= 1 && Aligned(c, limit) && c <= |list| && |list| - c < limit
    ensures Written(name, key, list, c, |list|, limit) == Encode(RewriteLog(name, key, list, limit))
  {
    assert list[..|list|] == list;
    if c < |list| {
      CloseChunk(name, key, list, c, |list|, limit);
    } else {
      var e := Encode(RewriteLog(name, key, list, limit));
      assert e + [] == e;
    }
  }

  /** One item, preceded by the opening of its command when the chunk is new. */
  method WriteItem(dst: Bytes, name: Bytes, key: Bytes, list: seq<Bytes>, ghost c: nat, j: nat, count: nat,
                   items: nat, limit: nat)
    returns (out: Bytes)
    requires limit >= 1 && c + count == j && j + items == |list| && items >= 1
    requires dst == Written(name, key, list, c, j, limit)
    ensures out == Written(name, key, list, c, j + 1, limit)
  {
    if count == 0 {
      WriteFirst(name, key, list, j, limit, dst);
      out := StartChunk(dst, name, key, if items > limit then limit else items);
      out := CatArgument(out, list[j]);
    } else {
      WriteNext(name, key, list, c, j, limit, dst);
      out := CatArgument(dst, list[j]);
    }
  }

  /** The rewriting loop, for lists (RPUSH) and sets (SADD): the announced count of every command is
      the number of arguments that follow it. */
  method RewriteItems(name: Bytes, key: Bytes, list: seq<Bytes>, limit: nat) returns (out: Bytes)
    requires limit >= 1
    ensures out == Encode(RewriteLog(name, key, list, limit))
  {
    hide Written, Encode, RewriteLog;
    out := [];
    var count, items := 0, |list|;
    ghost var c: nat := 0;
    NothingWritten(name, key, list, limit);
    for j := 0 to |list|
      invariant 0 <= count < limit && c + count == j && items == |list| - j && Aligned(c, limit)
      invariant out == Written(name, key, list, c, j, limit)
    {
      out := WriteItem(out, name, key, list, c, j, count, items, limit);
      count := count + 1;
      items := items - 1;
      if count == limit {
        NextChunk(name, key, list, c, j + 1, limit, out);
        count := 0;
        c := j + 1;
      }
    }
    AllWritten(name, key, list, c, limit);
  }

  // ---------------------------------------------------------------------------------------
  // What loading the rewritten log rebuilds
  // ---------------------------------------------------------------------------------------

  // AOF_REWRITE_ITEMS_PER_CMD
  const ITEMS_PER_CMD: nat := 64

  const RPUSH: Bytes := "RPUSH"
  const SADD: Bytes := "SADD"

  function Flatten(chunks: seq<seq<Bytes>>): seq<Bytes> {
    if chunks == [] then [] else Flatten(chunks[..|chunks| - 1]) + chunks[|chunks| - 1]
  }

  lemma {:induction false} FlattenCons(head: seq<Bytes>, tail: seq<seq<Bytes>>)
    ensures Flatten([head] + tail) == head + Flatten(tail)
  {
    var all := [head] + tail;
    if tail == [] {
      assert all[..0] == [];
    } else {
      var init := tail[..|tail| - 1];
      FlattenCons(head, init);
      assert all[..|all| - 1] == [head] + init;
    }
  }

  /** Chunking loses nothing, and no chunk is longer than the limit. */
  lemma {:induction false} ChunksCover(items: seq<Bytes>, limit: nat)
    requires limit >= 1
    ensures Flatten(Chunks(items, limit)) == items
    ensures forall i :: 0 <= i < |Chunks(items, limit)| ==> 1 <= |Chunks(items, limit)[i]| <= limit
    decreases |items|
  {
    if 0 < |items| <= limit {
      assert [items][..0] == [];
    } else if |items| > limit {
      ChunksCover(items[limit..], limit);
      FlattenCons(items[..limit], Chunks(items[limit..], limit));
    }
  }

  /** The list at `key` after the executed commands. */
  function ListAt(done: seq<(int, Argv)>, key: Bytes): seq<Bytes> {
    if done == [] then []
    else
      var (before, argv) := (ListAt(done[..|done| - 1], key), done[|done| - 1].1);
      if Is(argv, RPUSH) && |argv| >= 2 && argv[1] == key then before + argv[2..] else before
  }

  /** The set at `key` after the executed commands. */
  function SetAt(done: seq<(int, Argv)>, key: Bytes): set<Bytes> {
    if done == [] then {}
    else
      var (before, argv) := (SetAt(done[..|done| - 1], key), done[|done| - 1].1);
      if Is(argv, SADD) && |argv| >= 2 && argv[1] == key then before + Members(argv[2..]) else before
  }

  function Members(items: seq<Bytes>): set<Bytes> {
    set x | x in items
  }

  /** A command name the loader hands to the command itself. */
  predicate Plain(name: Bytes) {
    !SameName(name, "SELECT") && !SameName(name, "MULTI") && !SameName(name, "EXEC")
  }

  function Executed(name: Bytes, key: Bytes, chunks: seq<seq<Bytes>>): seq<(int, Argv)> {
    seq(|chunks|, i requires 0 <= i < |chunks| => (0, ChunkCommand(name, key, chunks[i])))
  }

  lemma PlainRuns(argv: Argv, cmds: seq<Argv>, done: seq<(int, Argv)>)
    requires 1 <= |argv| && Plain(argv[0])
    requires Settled(cmds) == |cmds| && PerformAll(FRESH.effect, cmds) == Effect(0, done)
    ensures Settled(cmds + [argv]) == |cmds| + 1
    ensures PerformAll(FRESH.effect, cmds + [argv]) == Effect(0, done + [(0, argv)])
  {
    var all := cmds + [argv];
    assert all[..|all| - 1] == cmds;
  }

  lemma NothingRuns()
    ensures Settled([]) == 0 && PerformAll(FRESH.effect, []) == Effect(0, [])
  {
  }

  lemma {:induction false} ChunksRun(name: Bytes, key: Bytes, chunks: seq<seq<Bytes>>)
    requires Plain(name)
    ensures var cmds := Commands(ChunkLog(name, key, chunks));
            Settled(cmds) == |cmds| && PerformAll(FRESH.effect, cmds) == Effect(0, Executed(name, key, chunks))
  {
    hide PerformAll, Settled, Plain;
    NothingRuns();
    if chunks != [] {
      var (init, argv) := (chunks[..|chunks| - 1], ChunkCommand(name, key, chunks[|chunks| - 1]));
      ChunksRun(name, key, init);
      var log := ChunkLog(name, key, chunks);
      assert log[..|log| - 1] == ChunkLog(name, key, init);
      PlainRuns(argv, Commands(ChunkLog(name, key, init)), Executed(name, key, init));
      assert Executed(name, key, chunks) == Executed(name, key, init) + [(0, argv)];
    }
  }

  ghost predicate AllFit(items: seq<Bytes>) {
    forall i :: 0 <= i < |items| ==> Fits(|items[i]|)
  }

  ghost predicate Storable(key: Bytes, items: seq<Bytes>, limit: nat) {
    1 <= limit && FitsInt(limit + 2) && Fits(|key|) && AllFit(items)
  }

  lemma {:induction false} ChunksWritable(name: Bytes, key: Bytes, chunks: seq<seq<Bytes>>, limit: nat)
    requires |name| <= 5 && FitsInt(limit + 2) && Fits(|key|) && AllFit(Flatten(chunks))
    requires forall i :: 0 <= i < |chunks| ==> |chunks[i]| <= limit
    ensures AllWritable(ChunkLog(name, key, chunks))
  {
    if chunks != [] {
      var (init, chunk) := (chunks[..|chunks| - 1], chunks[|chunks| - 1]);
      var all := Flatten(chunks);
      forall i | 0 <= i < |Flatten(init)| ensures Fits(|Flatten(init)[i]|) {
        assert all[i] == Flatten(init)[i];
      }
      ChunksWritable(name, key, init, limit);
      forall i | 0 <= i < |chunk| ensures Fits(|chunk[i]|) {
        assert all[|Flatten(init)| + i] == chunk[i];
      }
      assert Writable(Command(ChunkCommand(name, key, chunk)));
    }
  }

  /** The rewritten log loads completely, and the loader executes exactly the chunk commands. */
  lemma RewriteLoads(name: Bytes, key: Bytes, items: seq<Bytes>, limit: nat, tolerant: bool)
    requires |name| <= 5 && Plain(name) && Storable(key, items, limit)
    ensures var t := Load(Encode(RewriteLog(name, key, items, limit)), tolerant);
            t.status.AofOk? && t.client.effect.done == Executed(name, key, Chunks(items, limit))
  {
    var log := RewriteLog(name, key, items, limit);
    ChunksCover(items, limit);
    ChunksWritable(name, key, Chunks(items, limit), limit);
    ChunksRun(name, key, Chunks(items, limit));
    LoadAll(log, tolerant);
    WalkExecutes(log, tolerant);
    TransactionsAreAtomic(Commands(log));
    assert Commands(log)[..|Commands(log)|] == Commands(log);
  }

  lemma {:induction false} ChunksList(key: Bytes, chunks: seq<seq<Bytes>>)
    ensures ListAt(Executed(RPUSH, key, chunks), key) == Flatten(chunks)
  {
    if chunks != [] {
      var (init, argv) := (chunks[..|chunks| - 1], ChunkCommand(RPUSH, key, chunks[|chunks| - 1]));
      ChunksList(key, init);
      var done := Executed(RPUSH, key, chunks);
      assert done[..|done| - 1] == Executed(RPUSH, key, init);
      assert argv[2..] == chunks[|chunks| - 1];
    }
  }

  lemma {:induction false} ChunksSet(key: Bytes, chunks: seq<seq<Bytes>>)
    ensures SetAt(Executed(SADD, key, chunks), key) == Members(Flatten(chunks))
  {
    if chunks != [] {
      var (init, argv) := (chunks[..|chunks| - 1], ChunkCommand(SADD, key, chunks[|chunks| - 1]));
      ChunksSet(key, init);
      var done := Executed(SADD, key, chunks);
      assert done[..|done| - 1] == Executed(SADD, key, init);
      assert argv[2..] == chunks[|chunks| - 1];
    }
  }

  lemma PlainNames()
    ensures Plain(RPUSH) && Plain(SADD)
  {
    assert Upper(RPUSH[0]) == 'R' && Upper(SADD[0]) == 'S';
  }

  /** Loading the rewritten list rebuilds it, elements and order, whatever its length. */
  lemma RewriteRebuildsList(key: Bytes, items: seq<Bytes>, limit: nat, tolerant: bool)
    requires Storable(key, items, limit)
    ensures var t := Load(Encode(RewriteLog(RPUSH, key, items, limit)), tolerant);
            t.status.AofOk? && ListAt(t.client.effect.done, key) == items
  {
    PlainNames();
    RewriteLoads(RPUSH, key, items, limit, tolerant);
    ChunksList(key, Chunks(items, limit));
    ChunksCover(items, limit);
  }

  /** Loading the rewritten set rebuilds it, whatever order its elements were visited in. */
  lemma RewriteRebuildsSet(key: Bytes, items: seq<Bytes>, limit: nat, tolerant: bool)
    requires Storable(key, items, limit)
    ensures var t := Load(Encode(RewriteLog(SADD, key, items, limit)), tolerant);
            t.status.AofOk? && SetAt(t.client.effect.done, key) == Members(items)
  {
    PlainNames();
    RewriteLoads(SADD, key, items, limit, tolerant);
    ChunksSet(key, Chunks(items, limit));
    ChunksCover(items, limit);
  }

  /** rewriteListObject. */
  method RewriteListObject(key: Bytes, list: seq<Bytes>) returns (out: Bytes)
    ensures out == Encode(RewriteLog(RPUSH, key, list, ITEMS_PER_CMD))
  {
    out := RewriteItems(RPUSH, key, list, ITEMS_PER_CMD);
  }

  /** rewriteSetObject, over the elements in iteration order. */
  method RewriteSetObject(key: Bytes, elements: seq<Bytes>) returns (out: Bytes)
    ensures out == Encode(RewriteLog(SADD, key, elements, ITEMS_PER_CMD))
  {
    out := RewriteItems(SADD, key, elements, ITEMS_PER_CMD);
  }
}
