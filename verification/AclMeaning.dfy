/** What an ACL operation does to each command: its bit, its first arguments and the recorded rules. */
module AclMeaning {
  import opened Wrappers
  import opened AclRules
  import opened AclText

  // ---------------------------------------------------------------------------------------
  // Which commands an operation is about
  // ---------------------------------------------------------------------------------------

  /** The command `id` is a subcommand of `c`. */
  ghost predicate SubOf(c: Cmd, id: int) {
    exists x :: x in c.subs && c.subs[x].id == id
  }

  /** It carries the category, or is a subcommand of one that does. */
  ghost predicate InCategory(e: Env, cat: string, id: int) {
    exists n :: n in e.table &&
      var c := e.table[n];
      || (cat in c.cats && (c.id == id || SubOf(c, id)))
      || exists x :: x in c.subs && cat in c.subs[x].cats && c.subs[x].id == id
  }

  /** It carries the category itself. */
  ghost predicate Carries(e: Env, cat: string, id: int) {
    exists n :: n in e.table &&
      var c := e.table[n];
      (cat in c.cats && c.id == id) || exists x :: x in c.subs && cat in c.subs[x].cats && c.subs[x].id == id
  }

  lemma InCategoryIsTarget(e: Env, cat: string, id: int)
    ensures id in CategoryTargets(e, cat) <==> InCategory(e, cat, id)
    ensures id in CategoryResets(e, cat) <==> Carries(e, cat, id)
  {
    if n :| n in e.table && cat in e.table[n].cats && SubOf(e.table[n], id) {
      assert id in SubIds(e.table[n]);
    }
  }

  lemma SubOfIsSubId(c: Cmd, id: int)
    ensures id in SubIds(c) <==> SubOf(c, id)
  {
  }

  // ---------------------------------------------------------------------------------------
  // What an accepted operation does
  // ---------------------------------------------------------------------------------------

  ghost predicate BitsAre(s: Selector, t: Selector, changes: int -> bool, allow: bool) {
    && |t.perms.bits| == |s.perms.bits|
    && forall id :: 0 <= id < |s.perms.bits| ==> t.perms.bits[id] == if changes(id) then allow else s.perms.bits[id]
  }

  ghost predicate ArgsAre(s: Selector, t: Selector, forgets: int -> bool, adds: set<(int, string)>) {
    forall x :: x in t.perms.args <==> (x in s.perms.args && !forgets(x.0)) || x in adds
  }

  /** What is recorded: the rule, after the rules that it does not make pointless. */
  ghost predicate Pointless(name: string, older: string) {
    older == name || (|older| > |name| && older[..|name| + 1] == name + "|")
  }

  ghost predicate Recorded(s: Selector, t: Selector, r: Rule) {
    && t.rules != [] && t.rules[|t.rules| - 1] == r
    && (forall i :: 0 <= i < |t.rules| - 1 ==> t.rules[i] in s.rules && !Pointless(r.name, t.rules[i].name))
    && (forall i :: 0 <= i < |s.rules| && !Pointless(r.name, s.rules[i].name) ==> s.rules[i] in t.rules)
  }

  lemma MatchesIsPointless(name: string, older: string)
    ensures Matches(name, older) <==> Pointless(name, older)
  {
    if |older| > |name| {
      assert older[..|name| + 1] == older[..|name|] + [older[|name|]];
      if older[..|name| + 1] == name + "|" {
        assert older[..|name|] == (older[..|name| + 1])[..|name|] == name;
      }
    }
  }

  lemma {:induction false} WithoutHas(rules: seq<Rule>, name: string, i: nat)
    requires i < |rules| && !Matches(name, rules[i].name)
    ensures rules[i] in Without(rules, name)
    decreases |rules|
  {
    if i < |rules| - 1 {
      WithoutHas(rules[..|rules| - 1], name, i);
    }
  }

  lemma UpdateRecords(s: Selector, t: Selector, r: Rule)
    requires t.rules == Update(s.rules, r)
    ensures Recorded(s, t, r)
  {
    var w := Without(s.rules, r.name);
    forall i | 0 <= i < |t.rules| - 1
      ensures t.rules[i] in s.rules && !Pointless(r.name, t.rules[i].name)
    {
      var k := WithoutAt(s.rules, r.name, i);
      MatchesIsPointless(r.name, s.rules[k].name);
    }
    forall i | 0 <= i < |s.rules| && !Pointless(r.name, s.rules[i].name)
      ensures s.rules[i] in t.rules
    {
      MatchesIsPointless(r.name, s.rules[i].name);
      WithoutHas(s.rules, r.name, i);
    }
  }

  /** The operation that gives a rule. */
  ghost predicate Accepts(e: Env, s: Selector, r: Rule, sized: bool, t: Selector) {
    SetSelector(e, s, Text(r), sized) == Done(t)
  }

  lemma AcceptedRule(e: Env, s: Selector, r: Rule, sized: bool, t: Selector)
    requires EnvOk(e) && Lower(r.name) == r.name && r.name != "@all" && Accepts(e, s, r, sized, t)
    ensures Resolve(e, r).Accepted? && t.perms == Apply(Resolve(e, r).effect, r.allow, s.perms)
    ensures Recorded(s, t, r)
  {
    var op := Text(r);
    NotScope(op);
    NotAllName(r);
    assert op[1..] == r.name && Rule(op[0] == '+', Lower(op[1..])) == r;
    hide IsAll, IsNone, IsScope, Resolve, Apply, Update, EnvOk;
    UpdateRecords(s, t, r);
  }

  lemma NotAllName(r: Rule)
    requires Lower(r.name) == r.name && r.name != "@all"
    ensures !IsAll(Text(r)) && !IsNone(Text(r))
  {
    var (op, all) := (Text(r), "@all");
    assert op[1..] == r.name && "+@all"[1..] == all && "-@all"[1..] == all;
    SameIsLower(r.name, all);
    assert Lower(all) == all;
  }

  /** +@category and -@category: exactly the commands of the category and the subcommands of such commands
      get the sign, and the first arguments of those that carry it are forgotten. */
  lemma CategoryMeans(e: Env, s: Selector, r: Rule, sized: bool, t: Selector)
    requires EnvOk(e) && Lower(r.name) == r.name && r.name != "@all" && Accepts(e, s, r, sized, t)
    requires r.name != [] && r.name[0] == '@'
    ensures r.name[1..] in e.cats && Recorded(s, t, r)
    ensures BitsAre(s, t, id => InCategory(e, r.name[1..], id), r.allow)
    ensures ArgsAre(s, t, id => Carries(e, r.name[1..], id), {})
  {
    AcceptedRule(e, s, r, sized, t);
    var cat := r.name[1..];
    assert Resolve(e, r) == Accepted(CategoryEffect(e, cat));
    hide Resolve, EnvOk, Recorded, CategoryTargets, CategoryResets, InCategory, Carries, Accepts;
    forall id
      ensures (id in CategoryTargets(e, cat) <==> InCategory(e, cat, id))
              && (id in CategoryResets(e, cat) <==> Carries(e, cat, id))
    {
      InCategoryIsTarget(e, cat, id);
    }
  }

  /** A whole command: its bit and those of its subcommands get the sign, and its first arguments are
      forgotten. */
  lemma CommandMeans(e: Env, s: Selector, r: Rule, sized: bool, t: Selector)
    requires EnvOk(e) && Lower(r.name) == r.name && Accepts(e, s, r, sized, t) && NoBar(r.name)
    requires r.name == [] || r.name[0] != '@'
    ensures r.name in e.table && Recorded(s, t, r)
    ensures var c := e.table[r.name];
            && BitsAre(s, t, id => id == c.id || SubOf(c, id), r.allow)
            && ArgsAre(s, t, id => id == c.id, {})
  {
    AcceptedRule(e, s, r, sized, t);
    assert Resolve(e, r) == Accepted(WholeEffect(e.table[r.name]));
    hide Resolve, EnvOk, Recorded, Accepts;
    var c := e.table[r.name];
    forall id ensures id in SubIds(c) <==> SubOf(c, id) {
      SubOfIsSubId(c, id);
    }
  }

  lemma NameOfPart(name: string, head: string, arg: string)
    requires name == head + "|" + arg && (head == [] || head[0] != '@')
    ensures name != "@all" && name[0] != '@'
    ensures name[|head|] == '|' && name[|head| + 1..] == arg && name[..|head|] == head
  {
    assert name[0] == (head + "|")[0];
  }

  lemma PartResolves(e: Env, r: Rule, head: string, arg: string)
    requires r.name == head + "|" + arg && NoBar(arg) && (head == [] || head[0] != '@')
    ensures Resolve(e, r).Accepted? <==>
            head in e.table && (arg in e.table[head].subs || (r.allow && e.table[head].subs == map[]))
            && !(r.allow && arg == [])
    ensures Resolve(e, r).Accepted? ==>
              var c := e.table[head];
              Resolve(e, r).effect == if arg in c.subs then PartEffect(c.subs[arg]) else FirstArgEffect(c, arg)
  {
    NameOfPart(r.name, head, arg);
    BarAt(r.name, |head|);
    hide LastBar, NoBar;
  }

  /** A command and the part after the bar: a subcommand's bit gets the sign; the first argument of a
      command without subcommands is allowed and no bit changes. */
  lemma PartMeans(e: Env, s: Selector, r: Rule, sized: bool, t: Selector, head: string, arg: string)
    requires EnvOk(e) && Lower(r.name) == r.name && Accepts(e, s, r, sized, t)
    requires r.name == head + "|" + arg && NoBar(arg) && (head == [] || head[0] != '@')
    ensures head in e.table && Recorded(s, t, r)
    ensures var c := e.table[head];
            if arg in c.subs then
              BitsAre(s, t, id => id == c.subs[arg].id, r.allow) && ArgsAre(s, t, id => id == c.subs[arg].id, {})
            else
              && r.allow && c.subs == map[] && arg != []
              && BitsAre(s, t, id => false, true) && ArgsAre(s, t, id => false, {(c.id, arg)})
  {
    hide EnvOk, Recorded, Accepts, NoBar, Resolve, Lower;
    PartResolves(e, r, head, arg);
    NameOfPart(r.name, head, arg);
    AcceptedRule(e, s, r, sized, t);
  }

  /** What is refused, and why. */
  lemma RefusalMeans(e: Env, r: Rule)
    requires Resolve(e, r).Rejected?
    ensures var err := Resolve(e, r).errno;
            var bar := LastBar(r.name);
            if r.name != [] && r.name[0] == '@' then err == ENOENT && r.name[1..] !in e.cats
            else if NoBar(r.name) then err == ENOENT && r.name !in e.table
            else
              var (head, arg) := (r.name[..bar], r.name[bar + 1..]);
              if head !in e.table then err == if r.allow && IsSubcommand(e, head) then ECHILD else ENOENT
              else if r.allow && arg == [] then err == EINVAL
              else err == ENOENT && arg !in e.table[head].subs && (r.allow ==> e.table[head].subs != map[])
  {
    hide IsSubcommand;
  }

  /** +@all and -@all: every bit, no first argument, and an empty list of rules. */
  lemma AllMeans(e: Env, s: Selector, op: string, sized: bool)
    requires |s.perms.bits| == BITS && (IsAll(op) || IsNone(op))
    ensures var o := SetSelector(e, s, op, sized);
            && o.Done? && o.selector.rules == [] && o.selector.perms.args == {} && o.selector.all == IsAll(op)
            && BitsAre(s, o.selector, id => true, IsAll(op)) && o.selector.scope == s.scope
  {
  }

  lemma SameWord(a: string, b: string)
    ensures a == b ==> SameIgnoringCase(a, b)
    ensures |a| != |b| ==> !SameIgnoringCase(a, b)
    ensures forall i :: 0 <= i < |a| && i < |b| && LowerChar(a[i]) != LowerChar(b[i]) ==> !SameIgnoringCase(a, b)
  {
    SameIsLower(a, b);
    if i :| 0 <= i < |a| && i < |b| && LowerChar(a[i]) != LowerChar(b[i]) {
      assert |a| == |b| ==> Lower(a)[i] != Lower(b)[i];
    }
  }

  /** Which of the words an operation is. */
  lemma OneWord(op: string)
    requires op in {"allkeys", "resetkeys", "allchannels", "resetchannels"}
    ensures !IsAll(op) && !IsNone(op) && IsScope(op)
    ensures IsAllKeys(op) <==> op == "allkeys"
    ensures IsAllChannels(op) <==> op == "allchannels"
    ensures SameIgnoringCase(op, "resetkeys") <==> op == "resetkeys"
    ensures SameIgnoringCase(op, "resetchannels") <==> op == "resetchannels"
  {
    SameWord(op, op);
    SameWord(op, "allcommands");
    SameWord(op, "+@all");
    SameWord(op, "nocommands");
    SameWord(op, "-@all");
    SameWord(op, "allkeys");
    SameWord(op, "~*");
    SameWord(op, "resetkeys");
    SameWord(op, "allchannels");
    SameWord(op, "&*");
    SameWord(op, "resetchannels");
    assert "allcommands"[4] == 'o' && "allchannels"[4] == 'h';
    hide SameIgnoringCase;
  }

  /** The flags for keys and channels are switched on and off by name; nothing else changes. */
  lemma ScopeMeans(e: Env, s: Selector, op: string, sized: bool)
    requires op in {"allkeys", "resetkeys", "allchannels", "resetchannels"}
    ensures SetSelector(e, s, op, sized) ==
            Done(s.(scope := if op == "allkeys" then Scope(true, s.scope.allChannels)
                             else if op == "resetkeys" then Scope(false, s.scope.allChannels)
                             else Scope(s.scope.allKeys, op == "allchannels")))
  {
    OneWord(op);
    hide IsAll, IsNone, IsScope, IsAllKeys, IsAllChannels, SameIgnoringCase;
  }

  lemma PatternWord(kind: char, pattern: string)
    requires (kind == '~' || kind == '&') && pattern != "*"
    ensures var op := [kind] + pattern;
            && !IsAll(op) && !IsNone(op) && IsScope(op) && !IsAllKeys(op) && !IsAllChannels(op)
            && !SameIgnoringCase(op, "resetkeys") && !SameIgnoringCase(op, "resetchannels")
  {
    var op := [kind] + pattern;
    assert |op| == 2 ==> LowerChar(op[1]) != '*' by {
      assert |op| == 2 ==> pattern == [op[1]];
    }
    SameWord(op, "~*");
    SameWord(op, "&*");
  }

  /** A pattern is refused while all are allowed, or if it has blanks. */
  lemma PatternMeans(e: Env, s: Selector, kind: char, pattern: string, sized: bool)
    requires (kind == '~' || kind == '&') && pattern != "*"
    ensures SetSelector(e, s, [kind] + pattern, sized) ==
            (if kind == '~' && s.scope.allKeys then Failed(EEXIST)
             else if kind == '&' && s.scope.allChannels then Failed(EISDIR)
             else if sized && !HasBlanks(pattern) then Done(s) else Failed(EINVAL))
  {
    PatternWord(kind, pattern);
    assert ([kind] + pattern)[1..] == pattern;
    hide IsAll, IsNone, IsScope, IsAllKeys, IsAllChannels, SameIgnoringCase, HasBlanks;
  }

  /** After a percent sign: the permissions to read and write, each at most once, and a tilde before the
      pattern. */
  lemma PermissionsMean(letters: string, pattern: string)
    ensures letters in {"", "R", "W", "RW", "WR"} ==>
              PatternStart("%" + letters + "~" + pattern, 1, false, false) == Some(2 + |letters|)
    ensures letters in {"RR", "WW", "RWR", "X", "&"} ==>
              PatternStart("%" + letters + "~" + pattern, 1, false, false) == None
  {
    var op := "%" + letters + "~" + pattern;
    assert forall i :: 0 <= i < |letters| ==> op[1 + i] == letters[i];
    assert op[1 + |letters|] == '~';
    assert |op| == 2 + |letters| + |pattern|;
    if |letters| >= 1 {
      var i := PatternStart(op, 2, letters[0] == 'R', letters[0] == 'W');
      if |letters| >= 2 {
        var j := PatternStart(op, 3, true, true);
      }
    }
  }

  /** Allowing more keeps the flag that lets checks skip the bitmap. */
  lemma FlagStays(e: Env, s: Selector, r: Rule, sized: bool, t: Selector)
    requires EnvOk(e) && Lower(r.name) == r.name && r.name != "@all" && Accepts(e, s, r, sized, t) && r.allow
    ensures t.all == s.all
  {
    NotScope(Text(r));
    NotAllName(r);
    assert Text(r)[1..] == r.name;
    hide IsAll, IsNone, IsScope, Resolve, Apply, Update, EnvOk;
  }

  // ---------------------------------------------------------------------------------------
  // Checks
  // ---------------------------------------------------------------------------------------

  /** The same character, or the two cases of one letter. */
  ghost predicate SameLetter(a: char, b: char) {
    || a == b
    || ('A' <= a <= 'Z' && b as int == a as int + 32)
    || ('A' <= b <= 'Z' && a as int == b as int + 32)
  }

  lemma CaseMeans(a: string, b: string)
    ensures SameIgnoringCase(a, b) <==> |a| == |b| && forall i :: 0 <= i < |a| ==> SameLetter(a[i], b[i])
  {
    SameIsLower(a, b);
    if |a| == |b| {
      forall i | 0 <= i < |a| ensures Lower(a)[i] == Lower(b)[i] <==> SameLetter(a[i], b[i]) {
      }
      if Lower(a) == Lower(b) {
        forall i | 0 <= i < |a| ensures SameLetter(a[i], b[i]) {
          assert Lower(a)[i] == Lower(b)[i];
        }
      }
    }
  }

  /** Allowing a first argument of a command allows the command with it, in any case, and changes no other
      check. */
  lemma FirstArgumentMeans(e: Env, s: Selector, r: Rule, sized: bool, t: Selector, head: string, arg: string,
                           id: int, given: Option<string>)
    requires EnvOk(e) && Lower(r.name) == r.name && r.allow && Accepts(e, s, r, sized, t)
    requires r.name == head + "|" + arg && NoBar(arg) && (head == [] || head[0] != '@')
    requires head in e.table && arg !in e.table[head].subs
    requires |s.perms.bits| == |t.perms.bits| == BITS && s.all == t.all && 0 <= id < BITS
    ensures MayRun(t, id, given) <==>
            MayRun(s, id, given) || (id == e.table[head].id && given.Some? && SameIgnoringCase(given.value, arg))
  {
    PartMeans(e, s, r, sized, t, head, arg);
    if given.Some? {
      SameIsLower(given.value, arg);
      LowerArg(r.name, head, arg);
    }
    hide EnvOk, Accepts, Recorded, SameIgnoringCase, NoBar;
  }

  lemma LowerArg(name: string, head: string, arg: string)
    requires name == head + "|" + arg && Lower(name) == name
    ensures Lower(arg) == arg
  {
    forall i | 0 <= i < |arg| ensures LowerChar(arg[i]) == arg[i] {
      assert name[|head| + 1 + i] == arg[i] && Lower(name)[|head| + 1 + i] == LowerChar(name[|head| + 1 + i]);
    }
  }
}
