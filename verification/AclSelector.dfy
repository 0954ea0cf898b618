/** The selector as it is edited in place: bitmap, first-argument arrays and rule text. */
module AclSelector {
  import opened Wrappers
  import opened AclRules
  import opened AclText
  import opened AclEdit
  import opened AclMeaning

  function SetBits(bits: seq<bool>, ids: set<int>, value: bool): (r: seq<bool>)
    ensures |r| == |bits|
  {
    seq(|bits|, i requires 0 <= i < |bits| => if i in ids then value else bits[i])
  }

  lemma SetBitsUnion(bits: seq<bool>, a: set<int>, b: set<int>, value: bool)
    ensures SetBits(SetBits(bits, a, value), b, value) == SetBits(bits, a + b, value)
  {
  }

  /** The first arguments without regard to order and case. */
  function Pairs(m: map<int, seq<string>>): set<(int, string)> {
    set id, a | id in m && a in m[id] :: (id, Lower(a))
  }

  function Forget(args: set<(int, string)>, ids: set<int>): set<(int, string)> {
    set x | x in args && x.0 !in ids
  }

  lemma ForgetUnion(args: set<(int, string)>, a: set<int>, b: set<int>)
    ensures Forget(Forget(args, a), b) == Forget(args, a + b)
  {
  }

  lemma PairsRemove(m: map<int, seq<string>>, id: int)
    ensures Pairs(m - {id}) == Forget(Pairs(m), {id})
  {
    forall x | x in Forget(Pairs(m), {id}) ensures x in Pairs(m - {id}) {
      var i, a :| i in m && a in m[i] && x == (i, Lower(a));
      assert i in m - {id} && a in (m - {id})[i];
    }
  }

  lemma PairsAdd(m: map<int, seq<string>>, id: int, args: seq<string>, sub: string)
    requires args == if id in m then m[id] else []
    ensures Pairs(m[id := args + [sub]]) == Pairs(m) + {(id, Lower(sub))}
  {
    var m' := m[id := args + [sub]];
    forall x | x in Pairs(m) ensures x in Pairs(m') {
      var i, a :| i in m && a in m[i] && x == (i, Lower(a));
      assert a in m'[i];
    }
    assert sub in m'[id];
  }

  lemma PairsMean(m: map<int, seq<string>>, id: int, given: Option<string>)
    ensures given.Some? && (id, Lower(given.value)) in Pairs(m) <==>
            given.Some? && id in m && exists i :: 0 <= i < |m[id]| && SameIgnoringCase(given.value, m[id][i])
  {
    if given.Some? && id in m {
      forall i | 0 <= i < |m[id]|
        ensures SameIgnoringCase(given.value, m[id][i]) <==> Lower(given.value) == Lower(m[id][i])
      {
        SameIsLower(given.value, m[id][i]);
      }
      hide SameIgnoringCase;
      if i :| 0 <= i < |m[id]| && SameIgnoringCase(given.value, m[id][i]) {
        assert m[id][i] in m[id];
      }
    }
  }

  lemma NoName(s: set<string>)
    requires forall n :: n !in s
    ensures s == {}
  {
    assert forall n :: n in s <==> n in {};
  }

  lemma SomeName(s: set<string>)
    requires s != {}
    ensures exists n :: n in s
  {
    if !exists n :: n in s {
      NoName(s);
    }
  }

  lemma LowerSlice(s: string, k: nat)
    requires k <= |s|
    ensures Lower(s[k..]) == Lower(s)[k..]
  {
  }

  lemma WordsUpdate(rules: seq<Rule>, r: Rule)
    requires AllWords(rules) && Word(r.name)
    ensures AllWords(Update(rules, r))
  {
    var w := Without(rules, r.name);
    forall i | 0 <= i < |w| ensures Word(w[i].name) {
      var k := WithoutAt(rules, r.name, i);
    }
  }

  // ---------------------------------------------------------------------------------------
  // A category, command by command
  // ---------------------------------------------------------------------------------------

  function CommandTargets(c: Cmd, cat: string): set<int> {
    (if cat in c.cats then SubIds(c) else {}) + CommandResets(c, cat)
  }

  function CommandResets(c: Cmd, cat: string): set<int> {
    (if cat in c.cats then {c.id} else {}) + PartResets(c.subs, cat)
  }

  function PartResets(subs: map<string, Sub>, cat: string): set<int> {
    set s | s in subs && cat in subs[s].cats :: subs[s].id
  }

  /** The table without the commands still to visit. */
  function Visited(table: map<string, Cmd>, todo: set<string>): Env {
    Env(table - todo, {}, false)
  }

  lemma VisitOne(table: map<string, Cmd>, todo: set<string>, n: string, cat: string)
    requires n in table && n in todo
    ensures CategoryResets(Visited(table, todo - {n}), cat) == CategoryResets(Visited(table, todo), cat)
            + CommandResets(table[n], cat)
    ensures CategoryTargets(Visited(table, todo - {n}), cat) == CategoryTargets(Visited(table, todo), cat)
            + CommandTargets(table[n], cat)
  {
    var (before, after) := (Visited(table, todo), Visited(table, todo - {n}));
    assert forall m :: m in after.table <==> m in before.table || m == n;
    assert forall m :: m in before.table ==> after.table[m] == before.table[m];
    assert after.table[n] == table[n];
  }

  lemma NothingVisited(table: map<string, Cmd>, cat: string, bits: seq<bool>, args: set<(int, string)>, allow: bool)
    ensures CategoryTargets(Visited(table, table.Keys), cat) == {}
    ensures CategoryResets(Visited(table, table.Keys), cat) == {}
    ensures SetBits(bits, {}, allow) == bits && Forget(args, {}) == args
  {
  }

  lemma CommandIds(table: map<string, Cmd>, n: string)
    requires EnvOk(Env(table, {}, false)) && n in table
    ensures 0 <= table[n].id < BITS && forall s :: s in table[n].subs ==> 0 <= table[n].subs[s].id < BITS
  {
  }

  /** Exactly the commands of the category and the subcommands of such commands get the sign, and the first
      arguments of those that carry it are forgotten. */
  ghost predicate CategoryIsSet(e: Env, cat: string, allow: bool, was: seq<bool>, now: seq<bool>,
                                wasArgs: set<(int, string)>, nowArgs: set<(int, string)>) {
    && |now| == |was|
    && (forall id :: 0 <= id < |was| ==> now[id] == if InCategory(e, cat, id) then allow else was[id])
    && (forall x :: x in nowArgs <==> x in wasArgs && !Carries(e, cat, x.0))
  }

  lemma CategorySets(e: Env, cat: string, allow: bool, bits: seq<bool>, args: set<(int, string)>)
    ensures CategoryIsSet(e, cat, allow, bits, SetBits(bits, CategoryTargets(e, cat), allow),
                          args, Forget(args, CategoryResets(e, cat)))
  {
    forall id
      ensures (id in CategoryTargets(e, cat) <==> InCategory(e, cat, id))
              && (id in CategoryResets(e, cat) <==> Carries(e, cat, id))
    {
      InCategoryIsTarget(e, cat, id);
    }
    hide CategoryTargets, CategoryResets, InCategory, Carries;
  }

  class AclSelector {
    var allowed: seq<bool>
    var allCommands: bool
    var firstArgs: map<int, seq<string>>
    var commandRules: string
    var allKeys: bool
    var allChannels: bool
    ghost var rules: seq<Rule>

    ghost predicate Valid()
      reads this
    {
      |allowed| == BITS
    }

    /** The text is that of the rules, which it is as long as no rule has a blank in it. */
    ghost predicate Rendered()
      reads this
    {
      commandRules == Render(rules) && AllWords(rules)
    }

    ghost function Value(): Selector
      reads this
    {
      Selector(Perms(allowed, Pairs(firstArgs)), allCommands, rules, Scope(allKeys, allChannels))
    }

    constructor (e: Env)
      ensures Valid() && Rendered() && Value() == NewSelector(e)
    {
      allowed := seq(BITS, _ => false);
      allCommands := false;
      firstArgs := map[];
      commandRules := "";
      allKeys, allChannels := false, e.openChannels;
      rules := [];
    }

    /** ACLSetSelectorCommandBit. */
    method SetCommandBit(id: int, value: bool)
      requires Valid()
      modifies this`allowed, this`allCommands
      ensures Valid() && allowed == SetBits(old(allowed), {id}, value)
      ensures allCommands == (old(allCommands) && (value || !(0 <= id < BITS)))
    {
      if 0 <= id < BITS {
        allowed := allowed[id := value];
        if !value {
          allCommands := false;
        }
      }
    }

    /** ACLAddAllowedFirstArg. */
    method AddAllowedFirstArg(id: int, sub: string)
      requires Valid()
      modifies this`firstArgs
      ensures Valid() && Pairs(firstArgs) == old(Pairs(firstArgs)) + {(id, Lower(sub))}
    {
      var args := if id in firstArgs then firstArgs[id] else [];
      for items := 0 to |args|
        invariant firstArgs == old(firstArgs)
        invariant forall i :: 0 <= i < items ==> Lower(args[i]) != Lower(sub)
      {
        SameIsLower(args[items], sub);
        if SameIgnoringCase(args[items], sub) {
          assert args[items] in firstArgs[id];
          assert (id, Lower(args[items])) in Pairs(firstArgs);
          return;
        }
      }
      PairsAdd(firstArgs, id, args, sub);
      firstArgs := firstArgs[id := args + [sub]];
    }

    /** The command part of ACLSelectorCheckCmd. */
    method CheckCommand(id: int, firstArg: Option<string>) returns (allows: bool)
      requires Valid() && 0 <= id < BITS
      ensures allows == MayRun(Value(), id, firstArg)
      ensures allows <==>
              || allCommands || allowed[id]
              || (firstArg.Some? && id in firstArgs
                  && exists i :: 0 <= i < |firstArgs[id]| && SameIgnoringCase(firstArg.value, firstArgs[id][i]))
    {
      PairsMean(firstArgs, id, firstArg);
      if allCommands || allowed[id] {
        return true;
      }
      if firstArg.None? || id !in firstArgs {
        return false;
      }
      for i := 0 to |firstArgs[id]|
        invariant forall k :: 0 <= k < i ==> !SameIgnoringCase(firstArg.value, firstArgs[id][k])
      {
        if SameIgnoringCase(firstArg.value, firstArgs[id][i]) {
          return true;
        }
      }
      return false;
    }

    /** ACLChangeSelectorPerm. */
    method ChangePerm(id: int, subs: map<string, Sub>, allow: bool)
      requires Valid() && 0 <= id < BITS && forall s :: s in subs ==> 0 <= subs[s].id < BITS
      modifies this`allowed, this`allCommands, this`firstArgs
      ensures Valid() && allowed == SetBits(old(allowed), {id} + SubIds(Cmd(id, {}, subs)), allow)
      ensures Pairs(firstArgs) == Forget(old(Pairs(firstArgs)), {id})
      ensures allCommands == (old(allCommands) && allow)
    {
      SetCommandBit(id, allow);
      PairsRemove(firstArgs, id);
      firstArgs := firstArgs - {id};
      var todo := subs.Keys;
      ghost var done: set<int> := {id};
      while todo != {}
        invariant todo <= subs.Keys && Valid() && Pairs(firstArgs) == Forget(old(Pairs(firstArgs)), {id})
        invariant commandRules == old(commandRules) && rules == old(rules)
        invariant allowed == SetBits(old(allowed), done, allow)
        invariant allCommands == (old(allCommands) && allow)
        invariant done == {id} + (set s | s in subs && s !in todo :: subs[s].id)
        decreases todo
      {
        SomeName(todo);
        var s :| s in todo;
        SetCommandBit(subs[s].id, allow);
        SetBitsUnion(old(allowed), done, {subs[s].id}, allow);
        done := done + {subs[s].id};
        todo := todo - {s};
      }
    }
  
    /** The subcommands of one command that are in a category. */
    method ChangeParts(subs: map<string, Sub>, cat: string, allow: bool)
      requires Valid() && forall s :: s in subs ==> 0 <= subs[s].id < BITS
      modifies this`allowed, this`allCommands, this`firstArgs
      ensures Valid() && allowed == SetBits(old(allowed), PartResets(subs, cat), allow)
      ensures Pairs(firstArgs) == Forget(old(Pairs(firstArgs)), PartResets(subs, cat))
      ensures allCommands == (old(allCommands) && (allow || PartResets(subs, cat) == {}))
    {
      var todo := subs.Keys;
      ghost var done: set<int> := {};
      while todo != {}
        invariant todo <= subs.Keys && Valid() && commandRules == old(commandRules) && rules == old(rules)
        invariant allowed == SetBits(old(allowed), done, allow)
        invariant Pairs(firstArgs) == Forget(old(Pairs(firstArgs)), done)
        invariant allCommands == (old(allCommands) && (allow || done == {}))
        invariant done == set s | s in subs && s !in todo && cat in subs[s].cats :: subs[s].id
        decreases todo
      {
        SomeName(todo);
        var s :| s in todo;
        if cat in subs[s].cats {
          ChangePerm(subs[s].id, map[], allow);
          assert SubIds(Cmd(subs[s].id, {}, map[])) == {};
          SetBitsUnion(old(allowed), done, {subs[s].id}, allow);
          ForgetUnion(old(Pairs(firstArgs)), done, {subs[s].id});
          done := done + {subs[s].id};
        }
        todo := todo - {s};
      }
    }

    /** One command of ACLSetSelectorCommandBitsForCategory. */
    method ChangeCommand(c: Cmd, cat: string, allow: bool)
      requires Valid() && 0 <= c.id < BITS && forall s :: s in c.subs ==> 0 <= c.subs[s].id < BITS
      modifies this`allowed, this`allCommands, this`firstArgs
      ensures Valid() && allowed == SetBits(old(allowed), CommandTargets(c, cat), allow)
      ensures Pairs(firstArgs) == Forget(old(Pairs(firstArgs)), CommandResets(c, cat))
      ensures allCommands == (old(allCommands) && (allow || CommandTargets(c, cat) == {}))
    {
      if cat in c.cats {
        ChangePerm(c.id, c.subs, allow);
        assert SubIds(Cmd(c.id, {}, c.subs)) == SubIds(c);
        SetBitsUnion(old(allowed), {c.id} + SubIds(c), PartResets(c.subs, cat), allow);
        ForgetUnion(old(Pairs(firstArgs)), {c.id}, PartResets(c.subs, cat));
      }
      ChangeParts(c.subs, cat, allow);
      assert cat in c.cats ==> CommandTargets(c, cat) == {c.id} + SubIds(c) + PartResets(c.subs, cat);
    }

    /** ACLSetSelectorCommandBitsForCategory. */
    method SetBitsForCategory(table: map<string, Cmd>, cat: string, allow: bool)
      requires Valid() && EnvOk(Env(table, {}, false))
      modifies this`allowed, this`allCommands, this`firstArgs
      ensures Valid() && allowed == SetBits(old(allowed), CategoryTargets(Env(table, {}, false), cat), allow)
      ensures Pairs(firstArgs) == Forget(old(Pairs(firstArgs)), CategoryResets(Env(table, {}, false), cat))
      ensures allCommands == (old(allCommands) && (allow || CategoryTargets(Env(table, {}, false), cat) == {}))
      ensures CategoryIsSet(Env(table, {}, false), cat, allow, old(allowed), allowed,
                            old(Pairs(firstArgs)), Pairs(firstArgs))
    {
      CategorySets(Env(table, {}, false), cat, allow, allowed, Pairs(firstArgs));
      hide CategoryIsSet, CategoryTargets, CategoryResets, SetBits, Forget, Pairs, CommandTargets, CommandResets, EnvOk;
      NothingVisited(table, cat, allowed, Pairs(firstArgs), allow);
      var todo := table.Keys;
      ghost var targets: set<int>, resets: set<int> := {}, {};
      while todo != {}
        invariant todo <= table.Keys && Valid() && commandRules == old(commandRules) && rules == old(rules)
        invariant targets == CategoryTargets(Visited(table, todo), cat)
        invariant resets == CategoryResets(Visited(table, todo), cat)
        invariant allowed == SetBits(old(allowed), targets, allow)
        invariant Pairs(firstArgs) == Forget(old(Pairs(firstArgs)), resets)
        invariant allCommands == (old(allCommands) && (allow || targets == {}))
        decreases todo
      {
        SomeName(todo);
        var n :| n in todo;
        CommandIds(table, n);
        ChangeCommand(table[n], cat, allow);
        SetBitsUnion(old(allowed), targets, CommandTargets(table[n], cat), allow);
        ForgetUnion(old(Pairs(firstArgs)), resets, CommandResets(table[n], cat));
        VisitOne(table, todo, n, cat);
        targets, resets := targets + CommandTargets(table[n], cat), resets + CommandResets(table[n], cat);
        todo := todo - {n};
      }
      assert Visited(table, {}) == Env(table, {}, false);
    }
  
    /** ACLUpdateCommandRules. */
    method UpdateCommandRules(name: string, allow: bool)
      requires Valid()
      modifies this`commandRules, this`rules
      ensures Valid() && rules == Update(old(rules), Rule(allow, name))
      ensures commandRules == Updated(old(commandRules), Rule(allow, name))
      ensures old(Rendered()) && Word(name) ==> Rendered()
    {
      var text := RemoveCommandRule(commandRules, name, rules);
      if Rendered() && Word(name) {
        RuleAppended(Without(rules, name), Rule(allow, name), text);
        WordsUpdate(rules, Rule(allow, name));
      }
      if text != "" {
        text := text + " ";
      }
      commandRules := text + ([if allow then '+' else '-'] + name);
      rules := Update(rules, Rule(allow, name));
    }

    /** The effect of a rule is in the fields. */
    ghost predicate Performed(f: Effect, allow: bool, bits: seq<bool>, all: bool, args: set<(int, string)>)
      reads this
    {
      && allowed == SetBits(bits, f.targets, allow)
      && allCommands == (all && (allow || f.targets == {}))
      && Pairs(firstArgs) == Forget(args, f.resets) + f.adds
    }

    /** +@category and -@category. */
    method ChangeCategory(e: Env, cat: string, allow: bool)
      requires Valid() && EnvOk(e)
      modifies this`allowed, this`allCommands, this`firstArgs
      ensures Valid() && Performed(CategoryEffect(e, cat), allow, old(allowed), old(allCommands), old(Pairs(firstArgs)))
    {
      SetBitsForCategory(e.table, cat, allow);
      assert CategoryEffect(Env(e.table, {}, false), cat) == CategoryEffect(e, cat);
    }

    /** A whole command. */
    method ChangeWhole(c: Cmd, allow: bool)
      requires Valid() && 0 <= c.id < BITS && forall s :: s in c.subs ==> 0 <= c.subs[s].id < BITS
      modifies this`allowed, this`allCommands, this`firstArgs
      ensures Valid() && Performed(WholeEffect(c), allow, old(allowed), old(allCommands), old(Pairs(firstArgs)))
    {
      ChangePerm(c.id, c.subs, allow);
      assert SubIds(Cmd(c.id, {}, c.subs)) == SubIds(c);
    }

    /** A subcommand. */
    method ChangePart(sub: Sub, allow: bool)
      requires Valid() && 0 <= sub.id < BITS
      modifies this`allowed, this`allCommands, this`firstArgs
      ensures Valid() && Performed(PartEffect(sub), allow, old(allowed), old(allCommands), old(Pairs(firstArgs)))
    {
      ChangePerm(sub.id, map[], allow);
      assert SubIds(Cmd(sub.id, {}, map[])) == {};
      assert {sub.id} + {} == {sub.id};
    }

    /** A first argument. */
    method AllowFirstArg(c: Cmd, sub: string)
      requires Valid()
      modifies this`firstArgs
      ensures Valid()
      ensures Performed(FirstArgEffect(c, Lower(sub)), true, old(allowed), old(allCommands), old(Pairs(firstArgs)))
    {
      AddAllowedFirstArg(c.id, sub);
      assert SetBits(allowed, {}, true) == allowed;
      assert Forget(old(Pairs(firstArgs)), {}) == old(Pairs(firstArgs));
    }

    /** The rule branches of ACLSetSelector, up to the recording of the rule. */
    method PerformRule(e: Env, allow: bool, typed: string) returns (r: Option<Errno>)
      requires Valid() && EnvOk(e)
      modifies this`allowed, this`allCommands, this`firstArgs
      ensures Valid()
      ensures match Resolve(e, Rule(allow, Lower(typed)))
              case Rejected(errno) =>
                && r == Some(errno) && allowed == old(allowed)
                && allCommands == old(allCommands) && firstArgs == old(firstArgs)
              case Accepted(f) =>
                r == None && Performed(f, allow, old(allowed), old(allCommands), old(Pairs(firstArgs)))
    {
      var name := Lower(typed);
      var bar := LastBar(name);
      if name != [] && name[0] == '@' {
        if name[1..] !in e.cats {
          return Some(ENOENT);
        }
        ChangeCategory(e, name[1..], allow);
      } else if bar < 0 {
        if name !in e.table {
          return Some(ENOENT);
        }
        ChangeWhole(e.table[name], allow);
      } else {
        var head, arg := name[..bar], name[bar + 1..];
        if head !in e.table {
          return Some(if allow && IsSubcommand(e, head) then ECHILD else ENOENT);
        }
        if allow && arg == [] {
          return Some(EINVAL);
        }
        if arg in e.table[head].subs {
          ChangePart(e.table[head].subs[arg], allow);
        } else if allow && e.table[head].subs == map[] {
          LowerSlice(typed, bar + 1);
          AllowFirstArg(e.table[head], typed[bar + 1..]);
        } else {
          return Some(ENOENT);
        }
      }
      r := None;
    }

    /** +@all and -@all. */
    method ResetTo(allow: bool)
      requires Valid()
      modifies this
      ensures Valid() && Rendered() && commandRules == ""
      ensures Value() == old(Value()).(perms := Base(allow), all := allow, rules := [])
    {
      allowed := seq(BITS, _ => allow);
      allCommands := allow;
      commandRules := "";
      firstArgs := map[];
      rules := [];
    }

    /** A rule is performed and recorded. */
    method ApplyRule(e: Env, op: string, ghost sized: bool) returns (r: Option<Errno>)
      requires Valid() && EnvOk(e) && op != [] && (op[0] == '+' || op[0] == '-') && !IsAll(op) && !IsNone(op)
      modifies this`allowed, this`allCommands, this`firstArgs, this`commandRules, this`rules
      ensures Valid() && (old(Rendered()) && Word(op) ==> Rendered())
      ensures AclRules.SetSelector(e, old(Value()), op, sized) == if r.None? then Done(Value()) else Failed(r.value)
      ensures r.Some? ==> Value() == old(Value()) && commandRules == old(commandRules)
      ensures r.None? ==> commandRules == Updated(old(commandRules), Rule(op[0] == '+', Lower(op[1..])))
    {
      hide AclRules.SetSelector, Resolve, SetBits, Forget, Render, IsAll, IsNone, Updated;
      RuleApplied(e, Value(), op, sized);
      LowerWord(op);
      r := PerformRule(e, op[0] == '+', op[1..]);
      if r.None? {
        UpdateCommandRules(Lower(op[1..]), op[0] == '+');
      }
    }

    /** The operations on keys and channels, without the patterns themselves. */
    method ChangeScope(op: string, sized: bool) returns (r: Option<Errno>)
      requires IsScope(op)
      modifies this`allKeys, this`allChannels
      ensures SetScope(old(Scope(allKeys, allChannels)), op, sized)
              == if r.None? then InScope(Scope(allKeys, allChannels)) else OutOfScope(r.value)
      ensures r.Some? ==> allKeys == old(allKeys) && allChannels == old(allChannels)
    {
      hide SameIgnoringCase;
      if SameIgnoringCase(op, "allkeys") || SameIgnoringCase(op, "~*") {
        allKeys := true;
      } else if SameIgnoringCase(op, "resetkeys") {
        allKeys := false;
      } else if SameIgnoringCase(op, "allchannels") || SameIgnoringCase(op, "&*") {
        allChannels := true;
      } else if SameIgnoringCase(op, "resetchannels") {
        allChannels := false;
      } else if op[0] == '~' || op[0] == '%' {
        if allKeys {
          return Some(EEXIST);
        }
        var offset := 1;
        if op[0] == '%' {
          var start := FindPattern(op);
          if start.None? {
            return Some(EINVAL);
          }
          offset := start.value;
        }
        if !sized || HasBlanks(op[offset..]) {
          return Some(EINVAL);
        }
      } else {
        if allChannels {
          return Some(EISDIR);
        }
        if !sized || HasBlanks(op[1..]) {
          return Some(EINVAL);
        }
      }
      r := None;
    }

    /** ACLSetSelector. */
    method SetSelector(e: Env, op: string, sized: bool) returns (r: Option<Errno>)
      requires Valid() && EnvOk(e)
      modifies this
      ensures Valid() && (old(Rendered()) && Word(op) ==> Rendered())
      ensures AclRules.SetSelector(e, old(Value()), op, sized) == if r.None? then Done(Value()) else Failed(r.value)
      ensures r.Some? ==> Value() == old(Value()) && commandRules == old(commandRules)
      ensures r.None? ==> commandRules == TextAfter(old(commandRules), op)
    {
      hide SameIgnoringCase, Render, Updated, Resolve, Apply, SetScope, EnvOk;
      if SameIgnoringCase(op, "allcommands") || SameIgnoringCase(op, "+@all") {
        ResetTo(true);
        return None;
      }
      if SameIgnoringCase(op, "nocommands") || SameIgnoringCase(op, "-@all") {
        ResetTo(false);
        return None;
      }
      if IsScope(op) {
        r := ChangeScope(op, sized);
        return;
      }
      if op == [] || (op[0] != '+' && op[0] != '-') {
        return Some(EINVAL);
      }
      r := ApplyRule(e, op, sized);
    }

    /** ACLDescribeSelectorCommandRules: the description is replayed on a fake selector, and a failed
        operation or a different bitmap would be a panic. */
    method Describe(e: Env) returns (text: string, panic: bool)
      requires Valid() && EnvOk(e) && Unquoted(commandRules)
      ensures panic <==> !Replays(e, allowed, commandRules)
      ensures Rendered() && SelectorInv(e, Value()) && AllClean(rules) ==> !panic
      ensures text == BaseOp(allowed[RESERVED]) + (if commandRules == "" then "" else " " + commandRules)
    {
      hide SetAll, AclRules.SetSelector, Render, SplitArgs, EnvOk, TextAfter, NewSelector, Word, AllWords, AllClean,
              SelectorInv, Unquoted, Pairs;
      DescriptionWorks(e, Value(), commandRules);
      var base := allowed[RESERVED];
      text := BaseOp(base) + (if commandRules == "" then "" else " " + commandRules);
      var fake := new AclSelector(e);
      NothingSet(e);
      var argv := [BaseOp(base)] + SplitArgs(commandRules);
      for i := 0 to |argv|
        invariant fake.Valid() && fresh(fake)
        invariant SetAll(e, NewSelector(e), argv[..i], false) == Done(fake.Value())
      {
        SetAllSnoc(e, NewSelector(e), argv[..i], argv[i], fake.Value(), false);
        assert argv[..i] + [argv[i]] == argv[..i + 1];
        var r := fake.SetSelector(e, argv[i], false);
        if r.Some? {
          FailsForGood(e, argv, i + 1);
          return text, true;
        }
      }
      assert argv[..|argv|] == argv;
      panic := fake.allowed != allowed;
    }
  }

  lemma DescriptionWorks(e: Env, s: Selector, text: string)
    requires EnvOk(e) && |s.perms.bits| == BITS
    ensures text == Render(s.rules) && SelectorInv(e, s) && AllClean(s.rules) ==> Replays(e, s.perms.bits, text)
  {
    if text == Render(s.rules) && SelectorInv(e, s) && AllClean(s.rules) {
      DescriptionReproduces(e, s);
    }
  }

  /** One refused operation refuses the list. */
  lemma FailsForGood(e: Env, ops: seq<string>, k: nat)
    requires k <= |ops| && SetAll(e, NewSelector(e), ops[..k], false).Failed?
    ensures SetAll(e, NewSelector(e), ops, false).Failed?
  {
    SetAllAppend(e, NewSelector(e), ops[..k], ops[k..], false);
    assert ops[..k] + ops[k..] == ops;
  }

  /** The text after a rule was recorded. */
  ghost function Updated(text: string, r: Rule): string {
    var kept := Removed(text, r.name);
    (if kept != "" then kept + " " else "") + Text(r)
  }

  /** The text after an accepted operation. */
  ghost function TextAfter(text: string, op: string): string {
    if IsAll(op) || IsNone(op) then ""
    else if IsScope(op) || op == [] then text
    else Updated(text, Rule(op[0] == '+', Lower(op[1..])))
  }

  lemma LowerWord(op: string)
    requires op != []
    ensures Word(op) ==> Word(Lower(op[1..]))
  {
  }

  /** The loop over the permissions of a key operation. */
  method FindPattern(op: string) returns (start: Option<nat>)
    requires op != []
    ensures start == PatternStart(op, 1, false, false)
  {
    var i, read, write := 1, false, false;
    while i < |op|
      invariant 1 <= i <= |op| && PatternStart(op, 1, false, false) == PatternStart(op, i, read, write)
    {
      if (op[i] == 'R' || op[i] == 'r') && !read {
        read := true;
      } else if (op[i] == 'W' || op[i] == 'w') && !write {
        write := true;
      } else if op[i] == '~' {
        return Some(i + 1);
      } else {
        return None;
      }
      i := i + 1;
    }
    return Some(i);
  }

  lemma NothingSet(e: Env)
    ensures SetAll(e, NewSelector(e), [], false) == Done(NewSelector(e))
  {
  }

  /** What the fields hold after a rule is what the value-level operation gives. */
  lemma RuleApplied(e: Env, s: Selector, op: string, sized: bool)
    requires op != [] && (op[0] == '+' || op[0] == '-') && !IsAll(op) && !IsNone(op)
    ensures var r := Rule(op[0] == '+', Lower(op[1..]));
            AclRules.SetSelector(e, s, op, sized) ==
            match Resolve(e, r)
            case Rejected(errno) => Failed(errno)
            case Accepted(f) =>
              Done(s.(perms := Perms(SetBits(s.perms.bits, f.targets, r.allow),
                                     Forget(s.perms.args, f.resets) + f.adds),
                      all := s.all && (r.allow || f.targets == {}), rules := Update(s.rules, r)))
  {
    NotScope(op);
    hide Resolve, Update, IsScope, IsAll, IsNone;
  }

  lemma PrefixSnoc(kept: seq<Rule>, r: Rule)
    ensures Prefix(kept + [r]) == Prefix(kept) + Text(r) + " " && Render(kept + [r]) == Prefix(kept) + Text(r)
  {
    assert (kept + [r])[..|kept|] == kept;
  }

  lemma RuleAppended(rules: seq<Rule>, r: Rule, text: string)
    requires text == Render(rules)
    ensures (if text != "" then text + " " else text) + Text(r) == Render(rules + [r])
  {
    PrefixSnoc(rules, r);
    if rules != [] {
      PrefixSnoc(rules[..|rules| - 1], rules[|rules| - 1]);
      assert rules[..|rules| - 1] + [rules[|rules| - 1]] == rules;
    }
  }
}
