/** The command rules of an ACL selector: a bitmap and first-argument sets on one side, the ordered
    rules that produced them on the other. */
module AclRules {
  import opened Wrappers

  // USER_COMMAND_BITS_COUNT; the last bit is reserved for "future commands"
  const BITS: int := 1024
  const RESERVED: int := 1023

  // ---------------------------------------------------------------------------------------
  // Commands, categories and names
  // ---------------------------------------------------------------------------------------

  datatype Sub = Sub(id: int, cats: set<string>)
  datatype Cmd = Cmd(id: int, cats: set<string>, subs: map<string, Sub>)

  /** The command table and the category names, all under their lower-case names, and whether a new
      selector allows all channels. */
  datatype Env = Env(table: map<string, Cmd>, cats: set<string>, openChannels: bool)

  predicate NoBar(s: string) {
    '|' !in s
  }

  /** Names as the command table has them, every command with an id of its own below the reserved one. */
  ghost predicate EnvOk(e: Env) {
    && (forall n :: n in e.table ==> NoBar(n) && n != [] && n[0] != '@' && 0 <= e.table[n].id < RESERVED)
    && (forall n, s :: n in e.table && s in e.table[n].subs ==> s != [] && 0 <= e.table[n].subs[s].id < RESERVED)
    && (forall c :: c in e.cats ==> NoBar(c) && c != "all")
    && (forall n, m, s :: n in e.table && m in e.table && s in e.table[m].subs ==>
            e.table[n].id != e.table[m].subs[s].id)
  }

  /** The commands that first-argument rules can be about. */
  ghost predicate TakesFirstArgs(e: Env, id: int) {
    exists n :: n in e.table && e.table[n].id == id
  }

  function LowerChar(c: char): char {
    if 'A' <= c <= 'Z' then (c as int + 32) as char else c
  }

  function Lower(s: string): (r: string)
    ensures |r| == |s|
  {
    seq(|s|, i requires 0 <= i < |s| => LowerChar(s[i]))
  }

  predicate SameIgnoringCase(a: string, b: string) {
    |a| == |b| && (a == [] || (LowerChar(a[0]) == LowerChar(b[0]) && SameIgnoringCase(a[1..], b[1..])))
  }

  /** Comparing without regard to case is comparing in lower case. */
  lemma {:induction false} SameIsLower(a: string, b: string)
    ensures SameIgnoringCase(a, b) <==> Lower(a) == Lower(b)
  {
    if |a| == |b| && a != [] {
      SameIsLower(a[1..], b[1..]);
      assert Lower(a) == [LowerChar(a[0])] + Lower(a[1..]);
      assert Lower(b) == [LowerChar(b[0])] + Lower(b[1..]);
      if Lower(a) == Lower(b) {
        assert Lower(a)[1..] == Lower(b)[1..];
      }
    }
  }

  lemma LowerTwice(s: string)
    ensures Lower(Lower(s)) == Lower(s)
  {
  }

  function LastBar(s: string): (r: int)
    ensures -1 <= r < |s|
    ensures r >= 0 ==> s[r] == '|' && NoBar(s[r + 1..])
    ensures r < 0 <==> NoBar(s)
  {
    if s == [] then -1
    else if s[|s| - 1] == '|' then |s| - 1
    else
      var r := LastBar(s[..|s| - 1]);
      assert s == s[..|s| - 1] + [s[|s| - 1]];
      assert r >= 0 ==> s[r + 1..] == s[..|s| - 1][r + 1..] + [s[|s| - 1]];
      r
  }

  // ---------------------------------------------------------------------------------------
  // What a rule does
  // ---------------------------------------------------------------------------------------

  datatype Rule = Rule(allow: bool, name: string)

  /** The bits a rule sets, the commands whose first arguments it forgets, and the one it adds. */
  datatype Effect = Effect(targets: set<int>, resets: set<int>, adds: set<(int, string)>)

  datatype Perms = Perms(bits: seq<bool>, args: set<(int, string)>)

  datatype Errno = ENOENT | ECHILD | EINVAL | EEXIST | EISDIR
  datatype Resolved = Rejected(errno: Errno) | Accepted(effect: Effect)

  function SubIds(c: Cmd): set<int> {
    set s | s in c.subs :: c.subs[s].id
  }

  function CategoryTargets(e: Env, cat: string): set<int> {
    (set n, i | n in e.table && cat in e.table[n].cats && i in SubIds(e.table[n]) :: i) + CategoryResets(e, cat)
  }

  function CategoryResets(e: Env, cat: string): set<int> {
    (set n | n in e.table && cat in e.table[n].cats :: e.table[n].id)
    + (set n, s | n in e.table && s in e.table[n].subs && cat in e.table[n].subs[s].cats :: e.table[n].subs[s].id)
  }

  function WholeEffect(c: Cmd): Effect {
    Effect({c.id} + SubIds(c), {c.id}, {})
  }

  function PartEffect(s: Sub): Effect {
    Effect({s.id}, {s.id}, {})
  }

  function FirstArgEffect(c: Cmd, arg: string): Effect {
    Effect({}, {}, {(c.id, arg)})
  }

  function CategoryEffect(e: Env, cat: string): Effect {
    Effect(CategoryTargets(e, cat), CategoryResets(e, cat), {})
  }

  /** How the name after the sign is understood. */
  function Resolve(e: Env, r: Rule): Resolved {
    var bar := LastBar(r.name);
    if r.name != [] && r.name[0] == '@' then
      if r.name[1..] in e.cats then Accepted(CategoryEffect(e, r.name[1..])) else Rejected(ENOENT)
    else if bar < 0 then
      if r.name in e.table then Accepted(WholeEffect(e.table[r.name])) else Rejected(ENOENT)
    else
      var (head, arg) := (r.name[..bar], r.name[bar + 1..]);
      if head !in e.table then Rejected(if r.allow && IsSubcommand(e, head) then ECHILD else ENOENT)
      else
        var c := e.table[head];
        if r.allow && arg == [] then Rejected(EINVAL)
        else if arg in c.subs then Accepted(PartEffect(c.subs[arg]))
        else if r.allow && c.subs == map[] then Accepted(FirstArgEffect(c, arg))
        else Rejected(ENOENT)
  }

  predicate IsSubcommand(e: Env, name: string) {
    var bar := LastBar(name);
    bar >= 0 && name[..bar] in e.table && name[bar + 1..] in e.table[name[..bar]].subs
  }

  function Apply(f: Effect, allow: bool, p: Perms): (q: Perms)
    ensures |q.bits| == |p.bits|
  {
    Perms(seq(|p.bits|, i requires 0 <= i < |p.bits| => if i in f.targets then allow else p.bits[i]),
          (set x | x in p.args && x.0 !in f.resets) + f.adds)
  }

  // ---------------------------------------------------------------------------------------
  // The list of rules
  // ---------------------------------------------------------------------------------------

  /** An older rule that a new one makes pointless: the same name, or a part of the named command. */
  predicate Matches(name: string, older: string) {
    older == name || (|older| > |name| && older[..|name|] == name && older[|name|] == '|')
  }

  function Without(rules: seq<Rule>, name: string): (r: seq<Rule>)
    ensures |r| <= |rules|
  {
    if rules == [] then []
    else
      var (init, last) := (rules[..|rules| - 1], rules[|rules| - 1]);
      Without(init, name) + (if Matches(name, last.name) then [] else [last])
  }

  function Update(rules: seq<Rule>, r: Rule): seq<Rule> {
    Without(rules, r.name) + [r]
  }

  /** The rules applied one after the other. */
  function Replay(e: Env, p: Perms, rules: seq<Rule>): (q: Perms)
    ensures |q.bits| == |p.bits|
  {
    if rules == [] then p
    else
      var (init, last) := (rules[..|rules| - 1], rules[|rules| - 1]);
      var before := Replay(e, p, init);
      match Resolve(e, last)
      case Rejected(_) => before
      case Accepted(f) => Apply(f, last.allow, before)
  }

  /** +@all and -@all. */
  function Base(allow: bool): Perms {
    Perms(seq(BITS, _ => allow), {})
  }

  ghost predicate AllAccepted(e: Env, rules: seq<Rule>) {
    forall i :: 0 <= i < |rules| ==> Resolve(e, rules[i]).Accepted?
  }

  /** No rule is made pointless by a later one. */
  ghost predicate Reduced(rules: seq<Rule>) {
    forall i, j :: 0 <= i < j < |rules| ==> !Matches(rules[j].name, rules[i].name)
  }

  // ---------------------------------------------------------------------------------------
  // Dropping a pointless rule changes nothing
  // ---------------------------------------------------------------------------------------

  /** Equal except where `f` decides. */
  ghost predicate Agree(f: Effect, p: Perms, q: Perms) {
    && |p.bits| == |q.bits|
    && (forall i :: 0 <= i < |p.bits| && i !in f.targets ==> p.bits[i] == q.bits[i])
    && (forall x :: x in p.args && x !in q.args ==> x.0 in f.resets || x in f.adds)
    && (forall x :: x in q.args && x !in p.args ==> x.0 in f.resets || x in f.adds)
  }

  lemma AgreeApplies(f: Effect, allow: bool, p: Perms, q: Perms)
    requires Agree(f, p, q)
    ensures Apply(f, allow, p) == Apply(f, allow, q)
  {
    assert Apply(f, allow, p).bits == Apply(f, allow, q).bits;
    assert Apply(f, allow, p).args == Apply(f, allow, q).args;
  }

  lemma AgreeCongruent(f: Effect, g: Effect, allow: bool, p: Perms, q: Perms)
    requires Agree(f, p, q)
    ensures Agree(f, Apply(g, allow, p), Apply(g, allow, q))
  {
  }

  ghost predicate ArgsOk(e: Env, p: Perms) {
    forall x :: x in p.args ==> TakesFirstArgs(e, x.0)
  }

  /** Everything `x` decides, `f` decides later. */
  ghost predicate Absorbs(e: Env, f: Effect, x: Effect) {
    && x.targets <= f.targets
    && (forall i :: i in x.resets && i !in f.resets ==> !TakesFirstArgs(e, i))
    && (forall a :: a in x.adds ==> a.0 in f.resets || a in f.adds)
  }

  lemma AbsorbedAgrees(e: Env, f: Effect, x: Effect, allow: bool, p: Perms, q: Perms)
    requires Absorbs(e, f, x) && ArgsOk(e, p) && Agree(f, p, q)
    ensures Agree(f, Apply(x, allow, p), q)
  {
  }

  lemma BarHead(n: string, x: string)
    requires |x| > |n| && x[..|n|] == n && x[|n|] == '|'
    requires NoBar(x[..LastBar(x)])
    ensures LastBar(x) == |n|
  {
    var bar := LastBar(x);
    forall k | bar < k < |x| ensures x[k] != '|' {
      NoBarAfter(x, k);
    }
  }

  lemma NoBarAfter(x: string, k: nat)
    requires LastBar(x) < k < |x|
    ensures x[k] != '|'
  {
    var bar := LastBar(x);
    if bar < 0 {
      assert x[k] in x;
    } else {
      assert x[bar + 1..][k - bar - 1] == x[k];
    }
  }

  /** Category names have no parts, so a category rule is matched by its own name only. */
  lemma MatchedCategory(e: Env, r: Rule, x: Rule)
    requires EnvOk(e) && Matches(r.name, x.name) && x.name != [] && x.name[0] == '@' && Resolve(e, x).Accepted?
    ensures r.name == x.name
  {
    assert NoBar(x.name[1..]);
    assert forall k :: 1 <= k < |x.name| ==> x.name[1..][k - 1] == x.name[k];
  }

  lemma SameName(e: Env, r: Rule, x: Rule)
    requires r.name == x.name && Resolve(e, r).Accepted? && Resolve(e, x).Accepted?
    ensures Resolve(e, r).effect == Resolve(e, x).effect
  {
  }

  /** A rule that matches an older one absorbs it. */
  lemma MatchAbsorbs(e: Env, r: Rule, x: Rule)
    requires EnvOk(e) && Matches(r.name, x.name) && Resolve(e, r).Accepted? && Resolve(e, x).Accepted?
    ensures Absorbs(e, Resolve(e, r).effect, Resolve(e, x).effect)
  {
    if x.name != [] && x.name[0] == '@' {
      MatchedCategory(e, r, x);
    }
    if r.name == x.name {
      SameName(e, r, x);
    } else {
      assert x.name[..LastBar(x.name)] in e.table;
      BarHead(r.name, x.name);
      PartOfCommand(e, r, x);
    }
  }

  lemma PartOfCommand(e: Env, r: Rule, x: Rule)
    requires EnvOk(e) && Resolve(e, r).Accepted? && Resolve(e, x).Accepted?
    requires x.name[0] != '@' && LastBar(x.name) == |r.name| && x.name[..|r.name|] == r.name && r.name in e.table
    ensures Absorbs(e, Resolve(e, r).effect, Resolve(e, x).effect)
  {
    var (c, arg) := (e.table[r.name], x.name[|r.name| + 1..]);
    assert Resolve(e, r).effect == WholeEffect(c);
    if arg in c.subs {
      assert Resolve(e, x).effect == PartEffect(c.subs[arg]);
      assert !TakesFirstArgs(e, c.subs[arg].id);
    }
  }

  lemma {:induction false} ReplayArgs(e: Env, p: Perms, rules: seq<Rule>)
    requires ArgsOk(e, p)
    ensures ArgsOk(e, Replay(e, p, rules))
  {
    if rules != [] {
      ReplayArgs(e, p, rules[..|rules| - 1]);
    }
  }

  /** One rule more, kept or dropped, leaves the two replays agreeing where `r` does not decide. */
  lemma KeptOrDropped(e: Env, r: Rule, x: Rule, p: Perms, q: Perms)
    requires EnvOk(e) && Resolve(e, r).Accepted? && Resolve(e, x).Accepted? && ArgsOk(e, p)
    requires Agree(Resolve(e, r).effect, p, q)
    ensures var p' := Apply(Resolve(e, x).effect, x.allow, p);
            Agree(Resolve(e, r).effect, p', if Matches(r.name, x.name) then q
                    else Apply(Resolve(e, x).effect, x.allow, q))
  {
    var (f, g) := (Resolve(e, r).effect, Resolve(e, x).effect);
    if Matches(r.name, x.name) {
      MatchAbsorbs(e, r, x);
      AbsorbedAgrees(e, f, g, x.allow, p, q);
    } else {
      AgreeCongruent(f, g, x.allow, p, q);
    }
  }

  lemma ReplayOne(e: Env, p: Perms, rules: seq<Rule>, x: Rule)
    requires Resolve(e, x).Accepted?
    ensures Replay(e, p, rules + [x]) == Apply(Resolve(e, x).effect, x.allow, Replay(e, p, rules))
  {
    assert (rules + [x])[..|rules|] == rules;
  }

  lemma {:induction false} WithoutAgrees(e: Env, p: Perms, rules: seq<Rule>, r: Rule)
    requires EnvOk(e) && ArgsOk(e, p) && AllAccepted(e, rules) && Resolve(e, r).Accepted?
    ensures Agree(Resolve(e, r).effect, Replay(e, p, rules), Replay(e, p, Without(rules, r.name)))
  {
    if rules != [] {
      var (init, last) := (rules[..|rules| - 1], rules[|rules| - 1]);
      WithoutAgrees(e, p, init, r);
      ReplayArgs(e, p, init);
      KeptOrDropped(e, r, last, Replay(e, p, init), Replay(e, p, Without(init, r.name)));
      if Matches(r.name, last.name) {
        assert Without(rules, r.name) == Without(init, r.name);
      } else {
        ReplayOne(e, p, Without(init, r.name), last);
      }
    }
  }

  /** Dropping the rules that a new rule matches, then adding it, replays to the same permissions. */
  lemma UpdateReplays(e: Env, p: Perms, rules: seq<Rule>, r: Rule)
    requires EnvOk(e) && ArgsOk(e, p) && AllAccepted(e, rules) && Resolve(e, r).Accepted?
    ensures Replay(e, p, Update(rules, r)) == Apply(Resolve(e, r).effect, r.allow, Replay(e, p, rules))
  {
    WithoutAgrees(e, p, rules, r);
    ReplayOne(e, p, Without(rules, r.name), r);
    AgreeApplies(Resolve(e, r).effect, r.allow, Replay(e, p, rules), Replay(e, p, Without(rules, r.name)));
  }

  /** What is kept comes from the list, in order, and is not matched. */
  lemma {:induction false} WithoutIndex(rules: seq<Rule>, name: string, i: nat, j: nat) returns (k: nat, l: nat)
    requires i < j < |Without(rules, name)|
    ensures k < l < |rules| && Without(rules, name)[i] == rules[k] && Without(rules, name)[j] == rules[l]
    ensures !Matches(name, rules[k].name) && !Matches(name, rules[l].name)
    decreases |rules|
  {
    var w := Without(rules[..|rules| - 1], name);
    if j < |w| {
      k, l := WithoutIndex(rules[..|rules| - 1], name, i, j);
    } else {
      k := WithoutAt(rules[..|rules| - 1], name, i);
      l := |rules| - 1;
    }
  }

  lemma {:induction false} WithoutAt(rules: seq<Rule>, name: string, i: nat) returns (k: nat)
    requires i < |Without(rules, name)|
    ensures k < |rules| && Without(rules, name)[i] == rules[k] && !Matches(name, rules[k].name)
    decreases |rules|
  {
    var w := Without(rules[..|rules| - 1], name);
    if i < |w| {
      k := WithoutAt(rules[..|rules| - 1], name, i);
    } else {
      k := |rules| - 1;
    }
  }

  ghost predicate Listed(e: Env, r: Rule) {
    Resolve(e, r).Accepted? && Lower(r.name) == r.name
  }

  ghost predicate AllListed(e: Env, rules: seq<Rule>) {
    forall i :: 0 <= i < |rules| ==> Listed(e, rules[i])
  }

  lemma UpdateKeeps(e: Env, rules: seq<Rule>, r: Rule)
    requires AllListed(e, rules) && Reduced(rules) && Listed(e, r)
    ensures AllListed(e, Update(rules, r)) && Reduced(Update(rules, r))
  {
    var w := Without(rules, r.name);
    forall i | 0 <= i < |w| ensures Listed(e, w[i]) && !Matches(r.name, w[i].name) {
      var k := WithoutAt(rules, r.name, i);
    }
    forall i, j | 0 <= i < j < |w| ensures !Matches(w[j].name, w[i].name) {
      var k, l := WithoutIndex(rules, r.name, i, j);
    }
  }

  // ---------------------------------------------------------------------------------------
  // The selector
  // ---------------------------------------------------------------------------------------

  /** The flags for all keys and all channels; the patterns themselves are not kept here. */
  datatype Scope = Scope(allKeys: bool, allChannels: bool)

  /** `all` is the flag that lets checks skip the bitmap. */
  datatype Selector = Selector(perms: Perms, all: bool, rules: seq<Rule>, scope: Scope)

  function NewSelector(e: Env): Selector {
    Selector(Base(false), false, [], Scope(false, e.openChannels))
  }

  datatype Outcome = Failed(errno: Errno) | Done(selector: Selector)

  predicate IsAll(op: string) {
    SameIgnoringCase(op, "allcommands") || SameIgnoringCase(op, "+@all")
  }

  predicate IsNone(op: string) {
    SameIgnoringCase(op, "nocommands") || SameIgnoringCase(op, "-@all")
  }

  predicate IsAllKeys(op: string) {
    SameIgnoringCase(op, "allkeys") || SameIgnoringCase(op, "~*")
  }

  predicate IsAllChannels(op: string) {
    SameIgnoringCase(op, "allchannels") || SameIgnoringCase(op, "&*")
  }

  /** Operations on keys and channels. */
  predicate IsScope(op: string) {
    || IsAllKeys(op) || SameIgnoringCase(op, "resetkeys")
    || IsAllChannels(op) || SameIgnoringCase(op, "resetchannels")
    || (op != [] && (op[0] == '~' || op[0] == '%' || op[0] == '&'))
  }

  predicate Blank(c: char) {
    c == ' ' || ('\t' <= c <= '\r')
  }

  predicate HasBlanks(s: string) {
    exists i :: 0 <= i < |s| && Blank(s[i])
  }

  /** Where the pattern of a key operation begins: after the permissions R and W, each at most once. */
  function PatternStart(op: string, i: nat, read: bool, write: bool): (r: Option<nat>)
    requires i <= |op|
    ensures r.Some? ==> i <= r.value <= |op|
    decreases |op| - i
  {
    if i == |op| then Some(i)
    else if (op[i] == 'R' || op[i] == 'r') && !read then PatternStart(op, i + 1, true, write)
    else if (op[i] == 'W' || op[i] == 'w') && !write then PatternStart(op, i + 1, read, true)
    else if op[i] == '~' then Some(i + 1)
    else None
  }

  datatype Scoped = OutOfScope(errno: Errno) | InScope(scope: Scope)

  /** Operations on keys and channels.  `sized` is when the caller passes the length of the string; with
      -1 the search for blanks in a pattern runs into the terminator, which counts as one. */
  function SetScope(s: Scope, op: string, sized: bool): Scoped
    requires IsScope(op)
  {
    if IsAllKeys(op) then InScope(s.(allKeys := true))
    else if SameIgnoringCase(op, "resetkeys") then InScope(s.(allKeys := false))
    else if IsAllChannels(op) then InScope(s.(allChannels := true))
    else if SameIgnoringCase(op, "resetchannels") then InScope(s.(allChannels := false))
    else if op[0] == '&' then
      if s.allChannels then OutOfScope(EISDIR)
      else if !sized || HasBlanks(op[1..]) then OutOfScope(EINVAL)
      else InScope(s)
    else if s.allKeys then OutOfScope(EEXIST)
    else
      var start := if op[0] == '~' then Some(1) else PatternStart(op, 1, false, false);
      if start.None? || !sized || HasBlanks(op[start.value..]) then OutOfScope(EINVAL) else InScope(s)
  }

  /** ACLSetSelector. */
  function SetSelector(e: Env, s: Selector, op: string, sized: bool): Outcome {
    if IsAll(op) then Done(s.(perms := Base(true), all := true, rules := []))
    else if IsNone(op) then Done(s.(perms := Base(false), all := false, rules := []))
    else if IsScope(op) then
      match SetScope(s.scope, op, sized)
      case OutOfScope(errno) => Failed(errno)
      case InScope(scope) => Done(s.(scope := scope))
    else if op == [] || (op[0] != '+' && op[0] != '-') then Failed(EINVAL)
    else
      var r := Rule(op[0] == '+', Lower(op[1..]));
      match Resolve(e, r)
      case Rejected(errno) => Failed(errno)
      case Accepted(f) =>
        Done(s.(perms := Apply(f, r.allow, s.perms), all := s.all && (r.allow || f.targets == {}),
                rules := Update(s.rules, r)))
  }

  function SetAll(e: Env, s: Selector, ops: seq<string>, sized: bool): Outcome {
    if ops == [] then Done(s)
    else
      match SetAll(e, s, ops[..|ops| - 1], sized)
      case Failed(errno) => Failed(errno)
      case Done(t) => SetSelector(e, t, ops[|ops| - 1], sized)
  }

  /** Replaying the rules from the base that the reserved bit names gives the permissions. */
  ghost predicate SelectorInv(e: Env, s: Selector) {
    && |s.perms.bits| == BITS
    && AllListed(e, s.rules) && Reduced(s.rules)
    && s.perms == Replay(e, Base(s.perms.bits[RESERVED]), s.rules)
    && (s.all ==> forall i :: 0 <= i < BITS ==> s.perms.bits[i])
  }

  ghost predicate BelowReserved(f: Effect) {
    forall i :: i in f.targets ==> 0 <= i < RESERVED
  }

  lemma CategoryBelowReserved(e: Env, cat: string)
    requires EnvOk(e)
    ensures BelowReserved(CategoryEffect(e, cat))
  {
  }

  lemma CommandBelowReserved(e: Env, n: string)
    requires EnvOk(e) && n in e.table
    ensures BelowReserved(WholeEffect(e.table[n]))
    ensures forall s :: s in e.table[n].subs ==> BelowReserved(PartEffect(e.table[n].subs[s]))
  {
  }

  lemma EffectBelowReserved(e: Env, r: Rule)
    requires EnvOk(e) && Resolve(e, r).Accepted?
    ensures BelowReserved(Resolve(e, r).effect)
  {
    var bar := LastBar(r.name);
    if r.name != [] && r.name[0] == '@' {
      CategoryBelowReserved(e, r.name[1..]);
    } else {
      CommandBelowReserved(e, if bar < 0 then r.name else r.name[..bar]);
    }
  }

  /** A successful operation keeps rules and permissions in agreement; a failed one changes nothing. */
  lemma SetSelectorKeeps(e: Env, s: Selector, op: string, sized: bool)
    requires EnvOk(e) && SelectorInv(e, s) && SetSelector(e, s, op, sized).Done?
    ensures SelectorInv(e, SetSelector(e, s, op, sized).selector)
  {
    if !IsAll(op) && !IsNone(op) && !IsScope(op) {
      var r := Rule(op[0] == '+', Lower(op[1..]));
      EffectBelowReserved(e, r);
      LowerTwice(op[1..]);
      UpdateReplays(e, Base(s.perms.bits[RESERVED]), s.rules, r);
      UpdateKeeps(e, s.rules, r);
    }
  }

  /** After any sequence of successful operations on a new selector the rules replay to exactly its
      permissions. */
  lemma {:induction false} RulesAndBitsAgree(e: Env, ops: seq<string>, sized: bool)
    requires EnvOk(e) && SetAll(e, NewSelector(e), ops, sized).Done?
    ensures SelectorInv(e, SetAll(e, NewSelector(e), ops, sized).selector)
  {
    if ops != [] {
      RulesAndBitsAgree(e, ops[..|ops| - 1], sized);
      SetSelectorKeeps(e, SetAll(e, NewSelector(e), ops[..|ops| - 1], sized).selector, ops[|ops| - 1], sized);
    }
  }

  // ---------------------------------------------------------------------------------------
  // What the rules mean
  // ---------------------------------------------------------------------------------------

  ghost predicate Decides(e: Env, r: Rule, id: int) {
    Resolve(e, r).Accepted? && id in Resolve(e, r).effect.targets
  }

  /** A command bit is what the last rule about the command says, and the base if there is none. */
  lemma {:induction false} LastRuleWins(e: Env, base: bool, rules: seq<Rule>, id: int, k: int)
    requires 0 <= id < BITS && -1 <= k < |rules| && (k >= 0 ==> Decides(e, rules[k], id))
    requires forall j :: k < j < |rules| ==> !Decides(e, rules[j], id)
    ensures Replay(e, Base(base), rules).bits[id] == if k < 0 then base else rules[k].allow
    decreases |rules|
  {
    if 0 <= k + 1 < |rules| {
      var (init, last) := (rules[..|rules| - 1], rules[|rules| - 1]);
      LastRuleWins(e, base, init, id, k);
      assert !Decides(e, last, id);
    }
  }

  /** The command part of a permission check. */
  predicate MayRun(s: Selector, id: int, firstArg: Option<string>)
    requires |s.perms.bits| == BITS && 0 <= id < BITS
  {
    s.all || s.perms.bits[id] || (firstArg.Some? && (id, Lower(firstArg.value)) in s.perms.args)
  }

  /** The flag never decides differently from the bitmap. */
  lemma FlagIsOnlyFaster(e: Env, s: Selector, id: int, firstArg: Option<string>)
    requires SelectorInv(e, s) && 0 <= id < BITS
    ensures MayRun(s, id, firstArg) == MayRun(s.(all := false), id, firstArg)
  {
  }
}
