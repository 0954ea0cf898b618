/** The textual form of the rules, and what reading it back gives. */
module AclText {
  import opened AclRules

  /** No blanks, no quotes and no terminator: what the argument splitter leaves alone. */
  predicate Clean(s: string) {
    forall i :: 0 <= i < |s| ==> !Blank(s[i]) && s[i] != '\"' && s[i] != '\'' && s[i] != '\0'
  }

  function Text(r: Rule): string {
    [if r.allow then '+' else '-'] + r.name
  }

  /** Every rule followed by a blank. */
  function Prefix(rules: seq<Rule>): string {
    if rules == [] then [] else Prefix(rules[..|rules| - 1]) + Text(rules[|rules| - 1]) + " "
  }

  /** The rules separated by blanks: command_rules. */
  function Render(rules: seq<Rule>): string {
    if rules == [] then [] else Prefix(rules[..|rules| - 1]) + Text(rules[|rules| - 1])
  }

  ghost predicate AllClean(rules: seq<Rule>) {
    forall i :: 0 <= i < |rules| ==> Clean(rules[i].name)
  }

  /** No blank between rules and no terminator: all that editing the text needs. */
  predicate Word(s: string) {
    forall i :: 0 <= i < |s| ==> s[i] != ' ' && s[i] != '\0'
  }

  ghost predicate AllWords(rules: seq<Rule>) {
    forall i :: 0 <= i < |rules| ==> Word(rules[i].name)
  }

  lemma {:induction false} PrefixAppend(a: seq<Rule>, b: seq<Rule>)
    ensures Prefix(a + b) == Prefix(a) + Prefix(b)
    decreases |b|
  {
    if b == [] {
      assert a + b == a;
    } else {
      var (init, last) := (b[..|b| - 1], b[|b| - 1]);
      PrefixAppend(a, init);
      assert (a + b)[..|a + b| - 1] == a + init;
      Regroup(Prefix(a), Prefix(init), Text(last), " ");
    }
  }

  lemma Regroup(a: string, b: string, c: string, d: string)
    ensures a + b + c + d == a + (b + c + d)
    ensures a + b + c == a + (b + c)
  {
  }

  /** Reading from the front. */
  lemma RenderAppend(a: seq<Rule>, b: seq<Rule>)
    requires b != []
    ensures Render(a + b) == Prefix(a) + Render(b)
  {
    var (init, last) := (b[..|b| - 1], b[|b| - 1]);
    assert (a + b)[..|a + b| - 1] == a + init;
    PrefixAppend(a, init);
    Regroup(Prefix(a), Prefix(init), Text(last), "");
  }

  // ---------------------------------------------------------------------------------------
  // The argument splitter, on text without quotes
  // ---------------------------------------------------------------------------------------

  function TokenLength(s: string): (n: nat)
    ensures n <= |s| && forall i :: 0 <= i < n ==> !Blank(s[i])
    ensures n < |s| ==> Blank(s[n])
  {
    if s == [] || Blank(s[0]) then 0
    else 1 + TokenLength(s[1..])
  }

  function SplitArgs(s: string): seq<string> {
    if s == [] then []
    else if Blank(s[0]) then SplitArgs(s[1..])
    else
      var n := TokenLength(s);
      [s[..n]] + SplitArgs(s[n..])
  }

  function Texts(rules: seq<Rule>): seq<string> {
    seq(|rules|, i requires 0 <= i < |rules| => Text(rules[i]))
  }

  lemma TextClean(r: Rule)
    requires Clean(r.name)
    ensures Clean(Text(r)) && |Text(r)| >= 1
  {
  }

  lemma SplitOne(t: string, rest: string)
    requires Clean(t) && t != [] && (rest != [] ==> Blank(rest[0]))
    ensures SplitArgs(t + rest) == [t] + SplitArgs(rest)
  {
    var s := t + rest;
    assert TokenLength(s) == |t|;
    assert s[..|t|] == t && s[|t|..] == rest;
  }

  lemma RenderCons(head: Rule, tail: seq<Rule>)
    ensures Render([head] + tail) == Text(head) + (if tail == [] then "" else " " + Render(tail))
  {
    if tail == [] {
      assert ([head] + tail)[..0] == tail;
    } else {
      var none: seq<Rule> := [];
      assert [head][..0] == none;
      RenderAppend([head], tail);
      Regroup(Text(head), " ", Render(tail), "");
    }
  }

  /** Splitting the rendered rules gives the rules back. */
  lemma {:induction false} SplitRender(rules: seq<Rule>)
    requires AllClean(rules)
    ensures SplitArgs(Render(rules)) == Texts(rules)
  {
    if rules != [] {
      var (head, tail) := (rules[0], rules[1..]);
      TextClean(head);
      SplitRender(tail);
      RenderCons(head, tail);
      var rest := if tail == [] then "" else " " + Render(tail);
      SplitOne(Text(head), rest);
      assert tail != [] ==> rest[1..] == Render(tail);
      assert rules == [head] + tail;
      assert Texts(rules) == [Text(head)] + Texts(tail);
    }
  }

  // ---------------------------------------------------------------------------------------
  // Describing a selector
  // ---------------------------------------------------------------------------------------

  function BaseOp(allow: bool): string {
    if allow then "+@all" else "-@all"
  }

  /** The operations that the description of a selector is made of. */
  function Description(s: Selector): seq<string>
    requires |s.perms.bits| == BITS
  {
    [BaseOp(s.perms.bits[RESERVED])] + SplitArgs(Render(s.rules))
  }

  lemma BaseSets(e: Env, allow: bool)
    ensures SetAll(e, NewSelector(e), [BaseOp(allow)], false) ==
            Done(NewSelector(e).(perms := Base(allow), all := allow))
  {
    var op := BaseOp(allow);
    var none: seq<string> := [];
    SameIsLower(op, op);
    assert op[0] != 'a';
    assert [op][..0] == none;
  }

  lemma {:induction false} WithoutNothing(rules: seq<Rule>, name: string)
    requires forall i :: 0 <= i < |rules| ==> !Matches(name, rules[i].name)
    ensures Without(rules, name) == rules
  {
    if rules != [] {
      WithoutNothing(rules[..|rules| - 1], name);
    }
  }

  lemma NotCategoryAll(e: Env, r: Rule)
    requires EnvOk(e) && Listed(e, r)
    ensures !SameIgnoringCase(r.name, "@all")
  {
    var all := "@all";
    SameIsLower(r.name, all);
    assert Lower(all) == all && all[1..] == "all";
  }

  lemma NotBase(e: Env, r: Rule)
    requires EnvOk(e) && Listed(e, r)
    ensures !IsAll(Text(r)) && !IsNone(Text(r))
  {
    NotCategoryAll(e, r);
    assert Text(r)[1..] == r.name && "+@all"[1..] == "@all" && "-@all"[1..] == "@all";
  }

  /** A stored rule given as an operation is that rule again. */
  lemma RuleAsOp(e: Env, s: Selector, r: Rule, sized: bool)
    requires EnvOk(e) && Listed(e, r)
    ensures var o := SetSelector(e, s, Text(r), sized);
            o.Done? && o.selector.perms == Apply(Resolve(e, r).effect, r.allow, s.perms) &&
                    o.selector.rules == Update(s.rules, r)
  {
    NotBase(e, r);
    NotScope(Text(r));
    assert Text(r)[1..] == r.name;
    hide IsAll, IsNone, IsScope, EnvOk, Resolve, Update, Apply, Lower;
  }

  lemma NotScope(op: string)
    requires op != [] && (op[0] == '+' || op[0] == '-')
    ensures !IsScope(op)
  {
  }

  lemma SetAllSnoc(e: Env, s: Selector, ops: seq<string>, op: string, t: Selector, sized: bool)
    requires SetAll(e, s, ops, sized) == Done(t)
    ensures SetAll(e, s, ops + [op], sized) == SetSelector(e, t, op, sized)
  {
    assert (ops + [op])[..|ops|] == ops;
  }

  /** The base operation and the first `k` rules as operations. */
  function Ops(base: bool, rules: seq<Rule>, k: nat): seq<string>
    requires k <= |rules|
  {
    [BaseOp(base)] + Texts(rules)[..k]
  }

  lemma OpsNext(base: bool, rules: seq<Rule>, k: nat)
    requires k < |rules|
    ensures Ops(base, rules, k) + [Text(rules[k])] == Ops(base, rules, k + 1)
  {
  }

  lemma FreshRule(e: Env, t: Selector, r: Rule, sized: bool)
    requires EnvOk(e) && Listed(e, r) && forall i :: 0 <= i < |t.rules| ==> !Matches(r.name, t.rules[i].name)
    ensures var o := SetSelector(e, t, Text(r), sized);
            o.Done? && o.selector.rules == t.rules + [r] &&
                    o.selector.perms == Apply(Resolve(e, r).effect, r.allow, t.perms)
  {
    RuleAsOp(e, t, r, sized);
    WithoutNothing(t.rules, r.name);
  }

  lemma ReplayStep(e: Env, base: bool, rules: seq<Rule>, k: nat, t: Selector) returns (u: Selector)
    requires EnvOk(e) && AllListed(e, rules) && Reduced(rules) && k < |rules|
    requires t.rules == rules[..k] && t.perms == Replay(e, Base(base), rules[..k])
    ensures SetSelector(e, t, Text(rules[k]), false) == Done(u)
    ensures u.rules == rules[..k + 1] && u.perms == Replay(e, Base(base), rules[..k + 1])
  {
    hide SetSelector, Resolve, Apply, Replay, Text, EnvOk, Matches;
    FreshRule(e, t, rules[k], false);
    u := SetSelector(e, t, Text(rules[k]), false).selector;
    ReplayOne(e, Base(base), rules[..k], rules[k]);
    assert rules[..k] + [rules[k]] == rules[..k + 1];
  }

  lemma {:induction false} ReplayOps(e: Env, base: bool, rules: seq<Rule>, k: nat) returns (t: Selector)
    requires EnvOk(e) && AllListed(e, rules) && Reduced(rules) && k <= |rules|
    ensures SetAll(e, NewSelector(e), Ops(base, rules, k), false) == Done(t)
    ensures t.rules == rules[..k] && t.perms == Replay(e, Base(base), rules[..k])
  {
    if k == 0 {
      t := NewSelector(e).(perms := Base(base), all := base);
      assert Ops(base, rules, 0) == [BaseOp(base)];
      BaseSets(e, base);
    } else {
      var before := ReplayOps(e, base, rules, k - 1);
      t := ReplayStep(e, base, rules, k - 1, before);
      SetAllSnoc(e, NewSelector(e), Ops(base, rules, k - 1), Text(rules[k - 1]), before, false);
      OpsNext(base, rules, k - 1);
    }
  }

  /** The description of a selector sets up the same bitmap, first arguments and rules again: every
      operation of it succeeds and the comparison of the bitmaps cannot fail. */
  lemma DescriptionReproduces(e: Env, s: Selector)
    requires EnvOk(e) && SelectorInv(e, s) && AllClean(s.rules)
    ensures var o := SetAll(e, NewSelector(e), Description(s), false);
            o.Done? && o.selector.perms == s.perms && o.selector.rules == s.rules
  {
    SplitRender(s.rules);
    var t := ReplayOps(e, s.perms.bits[RESERVED], s.rules, |s.rules|);
    assert Texts(s.rules)[..|s.rules|] == Texts(s.rules) && s.rules[..|s.rules|] == s.rules;
  }

  lemma CleanOps(e: Env, s: Selector, op: string, sized: bool)
    requires AllClean(s.rules) && Clean(op) && SetSelector(e, s, op, sized).Done?
    ensures AllClean(SetSelector(e, s, op, sized).selector.rules)
  {
    if !IsAll(op) && !IsNone(op) && !IsScope(op) {
      var r := Rule(op[0] == '+', Lower(op[1..]));
      var w := Without(s.rules, r.name);
      forall i | 0 <= i < |w| ensures Clean(w[i].name) {
        var k := WithoutAt(s.rules, r.name, i);
      }
    }
  }

  lemma {:induction false} CleanRun(e: Env, ops: seq<string>, sized: bool)
    requires (forall i :: 0 <= i < |ops| ==> Clean(ops[i])) && SetAll(e, NewSelector(e), ops, sized).Done?
    ensures AllClean(SetAll(e, NewSelector(e), ops, sized).selector.rules)
  {
    if ops != [] {
      CleanRun(e, ops[..|ops| - 1], sized);
      CleanOps(e, SetAll(e, NewSelector(e), ops[..|ops| - 1], sized).selector, ops[|ops| - 1], sized);
    }
  }

  /** Whatever operations without blanks and quotes were accepted, describing the selector never
      panics, and its description decides every check as the selector does. */
  lemma DescribeNeverPanics(e: Env, ops: seq<string>, sized: bool)
    requires EnvOk(e) && (forall i :: 0 <= i < |ops| ==> Clean(ops[i])) && SetAll(e, NewSelector(e), ops, sized).Done?
    ensures var s := SetAll(e, NewSelector(e), ops, sized).selector;
            |s.perms.bits| == BITS &&
            var o := SetAll(e, NewSelector(e), Description(s), false);
            o.Done? && o.selector.perms == s.perms && o.selector.rules == s.rules
            && forall id, arg :: 0 <= id < BITS ==> MayRun(s, id, arg) == MayRun(o.selector, id, arg)
  {
    RulesAndBitsAgree(e, ops, sized);
    CleanRun(e, ops, sized);
    var s := SetAll(e, NewSelector(e), ops, sized).selector;
    DescriptionReproduces(e, s);
    DescriptionFlag(e, s);
  }

  lemma DescriptionFlag(e: Env, s: Selector)
    requires EnvOk(e) && SelectorInv(e, s) && AllClean(s.rules)
    requires SetAll(e, NewSelector(e), Description(s), false).Done?
    ensures SelectorInv(e, SetAll(e, NewSelector(e), Description(s), false).selector)
  {
    RulesAndBitsAgree(e, Description(s), false);
  }

  // ---------------------------------------------------------------------------------------
  // First arguments with blanks
  // ---------------------------------------------------------------------------------------

  /** Describing the selector does not panic: every operation succeeds and the bitmaps are equal. */
  ghost predicate Reproduces(e: Env, s: Selector)
    requires |s.perms.bits| == BITS
  {
    Replays(e, s.perms.bits, Render(s.rules))
  }

  ghost predicate Replays(e: Env, bits: seq<bool>, text: string)
    requires |bits| == BITS
  {
    var o := SetAll(e, NewSelector(e), [BaseOp(bits[RESERVED])] + SplitArgs(text), false);
    o.Done? && o.selector.perms.bits == bits
  }

  /** The operations that a description may consist of: its words are passed without their length, so
      that no pattern of keys or channels is accepted, whatever the selector. */
  ghost predicate AcceptedOp(e: Env, op: string) {
    || IsAll(op) || IsNone(op)
    || IsAllKeys(op) || SameIgnoringCase(op, "resetkeys")
    || IsAllChannels(op) || SameIgnoringCase(op, "resetchannels")
    || (op != [] && (op[0] == '+' || op[0] == '-') && Resolve(e, Rule(op[0] == '+', Lower(op[1..]))).Accepted?)
  }

  lemma PatternsAreRefused(e: Env, s: Selector, op: string)
    requires op != [] && (op[0] == '~' || op[0] == '%' || op[0] == '&') && !IsAllKeys(op) && !IsAllChannels(op)
    ensures SetSelector(e, s, op, false).Failed? && !AcceptedOp(e, op)
  {
  }

  ghost predicate Sets(e: Env, op: string, allow: bool, id: int) {
    if IsAll(op) then allow
    else if IsNone(op) then !allow
    else if IsScope(op) then false
    else
      op != [] && op[0] == (if allow then '+' else '-')
      && var r := Rule(allow, Lower(op[1..])); Resolve(e, r).Accepted? && id in Resolve(e, r).effect.targets
  }

  /** Every permission that some operation grants, a later one takes away. */
  ghost predicate GrantsNothing(e: Env, ops: seq<string>) {
    forall i, id :: 0 <= i < |ops| && 0 <= id < BITS && Sets(e, ops[i], true, id) ==>
      exists j :: i < j < |ops| && Sets(e, ops[j], false, id)
  }

  lemma SetSelectorBits(e: Env, s: Selector, op: string, id: int)
    requires |s.perms.bits| == BITS && 0 <= id < BITS
    ensures SetSelector(e, s, op, false).Done? <==> AcceptedOp(e, op)
    ensures SetSelector(e, s, op, false).Done? ==>
              var t := SetSelector(e, s, op, false).selector;
              |t.perms.bits| == BITS
              && (t.perms.bits[id] <==> Sets(e, op, true, id) || (s.perms.bits[id] && !Sets(e, op, false, id)))
  {
    hide Resolve, SameIgnoringCase, Update;
  }

  lemma {:induction false} SetAllAppend(e: Env, s: Selector, a: seq<string>, b: seq<string>, sized: bool)
    ensures SetAll(e, s, a + b, sized) == if SetAll(e, s, a, sized).Failed? then SetAll(e, s, a, sized)
            else SetAll(e, SetAll(e, s, a, sized).selector, b, sized)
    decreases |b|
  {
    if b == [] {
      assert a + b == a;
    } else {
      SetAllAppend(e, s, a, b[..|b| - 1], sized);
      assert (a + b)[..|a + b| - 1] == a + b[..|b| - 1];
    }
  }

  /** The bit after a list of operations on a selector without it. */
  ghost predicate Granted(e: Env, ops: seq<string>, id: int) {
    exists i :: 0 <= i < |ops| && Sets(e, ops[i], true, id) && forall j :: i < j < |ops| ==> !Sets(e, ops[j], false, id)
  }

  lemma GrantedNext(e: Env, ops: seq<string>, op: string, id: int)
    ensures Granted(e, ops + [op], id) <==> Sets(e, op, true, id) || (Granted(e, ops, id) && !Sets(e, op, false, id))
  {
    hide Sets;
    var all := ops + [op];
    if Sets(e, op, true, id) {
      assert Sets(e, all[|ops|], true, id);
    } else if Granted(e, ops, id) && !Sets(e, op, false, id) {
      var i :| 0 <= i < |ops| && Sets(e, ops[i], true, id) && forall j :: i < j < |ops| ==> !Sets(e, ops[j], false, id);
      assert Sets(e, all[i], true, id);
      forall j | i < j < |all| ensures !Sets(e, all[j], false, id) {
        assert j < |ops| ==> all[j] == ops[j];
      }
    } else if Granted(e, all, id) {
      var i :| 0 <= i < |all| && Sets(e, all[i], true, id) && forall j :: i < j < |all| ==> !Sets(e, all[j], false, id);
      assert !Sets(e, all[|ops|], false, id) && all[i] == ops[i];
      forall j | i < j < |ops| ensures !Sets(e, ops[j], false, id) {
        assert all[j] == ops[j];
      }
    }
  }

  lemma {:induction false} SetAllBits(e: Env, s: Selector, ops: seq<string>, id: int)
    requires |s.perms.bits| == BITS && 0 <= id < BITS && !s.perms.bits[id]
    ensures SetAll(e, s, ops, false).Done? <==> forall i :: 0 <= i < |ops| ==> AcceptedOp(e, ops[i])
    ensures SetAll(e, s, ops, false).Done? ==>
              var t := SetAll(e, s, ops, false).selector;
              |t.perms.bits| == BITS && (t.perms.bits[id] <==> Granted(e, ops, id))
  {
    if ops != [] {
      hide SetSelector, AcceptedOp, Sets, Granted;
      var (init, last) := (ops[..|ops| - 1], ops[|ops| - 1]);
      SetAllBits(e, s, init, id);
      assert init + [last] == ops;
      GrantedNext(e, init, last, id);
      if SetAll(e, s, init, false).Done? {
        SetSelectorBits(e, SetAll(e, s, init, false).selector, last, id);
      } else {
        var i :| 0 <= i < |init| && !AcceptedOp(e, init[i]);
        assert !AcceptedOp(e, ops[i]);
      }
    }
  }

  /** From a selector without permissions. */
  lemma GrantsNothingIsExact(e: Env, s: Selector, ops: seq<string>)
    requires |s.perms.bits| == BITS && forall id :: 0 <= id < BITS ==> !s.perms.bits[id]
    ensures var o := SetAll(e, s, ops, false);
            (o.Done? && o.selector.perms.bits == s.perms.bits)
            <==> (forall i :: 0 <= i < |ops| ==> AcceptedOp(e, ops[i])) && GrantsNothing(e, ops)
  {
    var o := SetAll(e, s, ops, false);
    SetAllBits(e, s, ops, 0);
    if o.Done? {
      forall id | 0 <= id < BITS
        ensures |o.selector.perms.bits| == BITS && (o.selector.perms.bits[id] <==> Granted(e, ops, id))
      {
        SetAllBits(e, s, ops, id);
      }
      hide Sets, SetAll;
      if !GrantsNothing(e, ops) {
        var i, id :| 0 <= i < |ops| && 0 <= id < BITS && Sets(e, ops[i], true, id) &&
                     forall j :: i < j < |ops| ==> !Sets(e, ops[j], false, id);
        assert Granted(e, ops, id);
        assert o.selector.perms.bits[id] != s.perms.bits[id];
      } else {
        forall id | 0 <= id < BITS ensures !Granted(e, ops, id) {
        }
      }
    }
  }

  /** No quotes and no terminator, as in the argument splitter above; blanks are allowed. */
  predicate Unquoted(s: string) {
    forall i :: 0 <= i < |s| ==> s[i] != '\"' && s[i] != '\'' && s[i] != '\0'
  }

  /** The pieces after the first into which a first argument falls. */
  function LaterPieces(x: string): seq<string> {
    SplitArgs(x[TokenLength(x)..])
  }

  lemma RuleSplits(n: string, x: string)
    requires Clean(n) && Unquoted(x)
    ensures SplitArgs(Text(Rule(true, n + "|" + x))) == ["+" + n + "|" + x[..TokenLength(x)]] + LaterPieces(x)
  {
    var k := TokenLength(x);
    var (first, rest) := ("+" + n + "|" + x[..k], x[k..]);
    assert Clean(first);
    assert Text(Rule(true, n + "|" + x)) == first + rest;
    SplitOne(first, rest);
  }

  /** An operation that at most adds a first argument leaves the bitmap alone. */
  lemma AddsAtMost(e: Env, s: Selector, op: string, c: Cmd, arg: string, ok: bool)
    requires op != [] && op[0] == '+' && !IsAll(op) && !IsNone(op)
    requires var f := Resolve(e, Rule(true, Lower(op[1..])));
             if ok then f == Accepted(FirstArgEffect(c, arg)) else f.Rejected?
    ensures var o := SetSelector(e, s, op, false);
            (o.Done? <==> ok) && (o.Done? ==> o.selector.perms.bits == s.perms.bits)
  {
    hide Resolve, IsAll, IsNone, Update, Lower;
    OnlyAddsArgument(c, arg, s.perms);
  }

  /** What the first piece does to the bitmap: nothing, unless it is refused. */
  lemma FirstPiece(e: Env, n: string, y: string, s: Selector)
    requires EnvOk(e) && n in e.table && e.table[n].subs == map[] && NoBar(y)
    requires Lower(n + "|" + y) == n + "|" + y && |s.perms.bits| == BITS
    ensures var o := SetSelector(e, s, "+" + n + "|" + y, false);
            (o.Done? <==> y != []) && (o.Done? ==> o.selector.perms.bits == s.perms.bits)
  {
    var op := "+" + n + "|" + y;
    assert op[1..] == n + "|" + y && op[0] == '+' && op[1] == n[0];
    assert n[0] != '@';
    hide IsAll, IsNone, Lower, EnvOk, Resolve, SetSelector;
    NotAll(op);
    if y == [] {
      assert n + "|" + y == n + "|";
      EmptyArgRefused(e, n);
    } else {
      FirstArgResolves(e, n, y);
    }
    AddsAtMost(e, s, op, e.table[n], y, y != []);
  }

  lemma OnlyAddsArgument(c: Cmd, arg: string, p: Perms)
    ensures Apply(FirstArgEffect(c, arg), true, p).bits == p.bits
  {
  }

  lemma EmptyArgRefused(e: Env, n: string)
    requires EnvOk(e) && n in e.table
    ensures Resolve(e, Rule(true, n + "|")).Rejected?
  {
    var name := n + "|";
    assert name[..|n|] == n && name[|n|] == '|' && name[|n| + 1..] == [] && name[0] == n[0];
    BarAt(name, |n|);
  }

  lemma NotAll(op: string)
    requires |op| >= 2 && op[0] == '+' && op[1] != '@'
    ensures !IsAll(op) && !IsNone(op)
  {
    SameIsLower(op, "+@all");
    assert Lower(op)[1] == LowerChar(op[1]) && Lower("+@all")[1] == '@';
  }

  /** A first argument is accepted with blanks in it, but comes back in pieces.  Its description works
      if and only if the argument does not begin with a blank, every later piece is an operation that
      is accepted, and these together grant nothing. */
  lemma BlankIsExact(e: Env, n: string, x: string) returns (s: Selector)
    requires EnvOk(e) && n in e.table && e.table[n].subs == map[] && Clean(n)
    requires x != [] && NoBar(x) && Unquoted(x) && Lower(n + "|" + x) == n + "|" + x
    ensures SetAll(e, NewSelector(e), [Text(Rule(true, n + "|" + x))], true) == Done(s) && |s.perms.bits| == BITS
    ensures Reproduces(e, s) <==>
            && !Blank(x[0])
            && (forall i :: 0 <= i < |LaterPieces(x)| ==> AcceptedOp(e, LaterPieces(x)[i]))
            && GrantsNothing(e, LaterPieces(x))
  {
    hide *;
    s := StoredArgument(e, n, x);
    var k := TokenLength(x);
    FirstLength(x);
    LowerPart(n, x, k);
    FirstPiece(e, n, x[..k], NewSelector(e));
    PiecesExact(e, s, "+" + n + "|" + x[..k], LaterPieces(x));
  }

  lemma FirstLength(x: string)
    requires x != []
    ensures TokenLength(x) == 0 <==> Blank(x[0])
    ensures x[..TokenLength(x)] == [] <==> TokenLength(x) == 0
  {
  }

  lemma StoredArgument(e: Env, n: string, x: string) returns (s: Selector)
    requires EnvOk(e) && n in e.table && e.table[n].subs == map[] && Clean(n)
    requires x != [] && NoBar(x) && Unquoted(x) && Lower(n + "|" + x) == n + "|" + x
    ensures SetAll(e, NewSelector(e), [Text(Rule(true, n + "|" + x))], true) == Done(s)
    ensures |s.perms.bits| == BITS && s.perms.bits == Base(false).bits && NewSelector(e).perms == Base(false)
    ensures SplitArgs(Render(s.rules)) == ["+" + n + "|" + x[..TokenLength(x)]] + LaterPieces(x)
  {
    hide EnvOk, SplitArgs, Render, SetAll, Text, LaterPieces, NoBar, Clean, Unquoted;
    FirstArgResolves(e, n, x);
    s := OneRule(e, Rule(true, n + "|" + x));
    OnlyAddsArgument(e.table[n], x, Base(false));
    RuleSplits(n, x);
  }

  lemma OneRule(e: Env, r: Rule) returns (s: Selector)
    requires EnvOk(e) && Listed(e, r)
    ensures SetAll(e, NewSelector(e), [Text(r)], true) == Done(s) && |s.perms.bits| == BITS
    ensures Render(s.rules) == Text(r)
    ensures s.perms == Apply(Resolve(e, r).effect, r.allow, Base(false))
  {
    FreshRule(e, NewSelector(e), r, true);
    s := SetSelector(e, NewSelector(e), Text(r), true).selector;
    var none: seq<string> := [];
    SetAllSnoc(e, NewSelector(e), none, Text(r), NewSelector(e), true);
    assert none + [Text(r)] == [Text(r)];
    RenderOne(r);
  }

  /** The base, the first piece and the later pieces. */
  lemma PiecesExact(e: Env, s: Selector, first: string, later: seq<string>)
    requires s.perms.bits == Base(false).bits && SplitArgs(Render(s.rules)) == [first] + later
    requires var o := SetSelector(e, NewSelector(e), first, false); o.Done? ==> o.selector.perms.bits == s.perms.bits
    ensures Reproduces(e, s) <==>
            && SetSelector(e, NewSelector(e), first, false).Done?
            && (forall i :: 0 <= i < |later| ==> AcceptedOp(e, later[i])) && GrantsNothing(e, later)
  {
    hide SetSelector, GrantsNothing, AcceptedOp, SetAll, SplitArgs, Render;
    var b := NewSelector(e);
    BaseSets(e, false);
    SetAllSnoc(e, NewSelector(e), [BaseOp(false)], first, b, false);
    var start := [BaseOp(false)] + [first];
    assert Description(s) == start + later;
    SetAllAppend(e, NewSelector(e), start, later, false);
    if SetSelector(e, b, first, false).Done? {
      GrantsNothingIsExact(e, SetSelector(e, b, first, false).selector, later);
    }
  }

  lemma LowerPart(n: string, x: string, k: nat)
    requires Lower(n + "|" + x) == n + "|" + x && k <= |x| && NoBar(x)
    ensures Lower(n + "|" + x[..k]) == n + "|" + x[..k] && NoBar(x[..k])
  {
    var (whole, part) := (n + "|" + x, n + "|" + x[..k]);
    forall i | 0 <= i < |part| ensures LowerChar(part[i]) == part[i] {
      assert part[i] == whole[i] && Lower(whole)[i] == LowerChar(whole[i]);
    }
  }

  lemma RenderOne(r: Rule)
    ensures Render([] + [r]) == Text(r)
  {
    var none: seq<Rule> := [];
    assert ([] + [r])[..0] == none;
  }

  lemma FirstArgResolves(e: Env, n: string, arg: string)
    requires EnvOk(e) && n in e.table && e.table[n].subs == map[] && NoBar(arg) && arg != []
    ensures Resolve(e, Rule(true, n + "|" + arg)) == Accepted(FirstArgEffect(e.table[n], arg))
  {
    var name := n + "|" + arg;
    assert name[..|n|] == n && name[|n|] == '|' && name[|n| + 1..] == arg;
    assert name[0] == n[0];
    BarAt(name, |n|);
  }

  lemma BarAt(s: string, k: nat)
    requires k < |s| && s[k] == '|' && NoBar(s[k + 1..])
    ensures LastBar(s) == k
  {
    var bar := LastBar(s);
    assert forall i :: k < i < |s| ==> s[k + 1..][i - k - 1] == s[i];
    assert forall i :: bar < i < |s| ==> s[bar + 1..][i - bar - 1] == s[i];
  }
}
