/** The in-place removal of rules from the rule text, against removal from a list: of the pieces of any
    text, and of the rules of a text that was rendered from rules without blanks. */
module AclEdit {
  import opened AclRules
  import opened AclText

  // ---------------------------------------------------------------------------------------
  // How the edit reads a text
  // ---------------------------------------------------------------------------------------

  /** Every piece followed by a blank. */
  function Spaced(pieces: seq<string>): string {
    if pieces == [] then [] else Spaced(pieces[..|pieces| - 1]) + pieces[|pieces| - 1] + " "
  }

  /** The pieces separated by blanks, and one more blank after the last if the text ends in one. */
  function Joined(pieces: seq<string>, trailing: bool): string {
    if pieces == [] then []
    else Spaced(pieces[..|pieces| - 1]) + pieces[|pieces| - 1] + (if trailing then " " else "")
  }

  /** A character that is not looked at, usually the sign, and no blank after it. */
  predicate Piece(p: string) {
    p != [] && ' ' !in p[1..]
  }

  ghost predicate AllPieces(pieces: seq<string>) {
    forall i :: 0 <= i < |pieces| ==> Piece(pieces[i])
  }

  function PieceLength(t: string): (n: nat)
    ensures n <= |t| && forall i :: 0 <= i < n ==> t[i] != ' '
    ensures n < |t| ==> t[n] == ' '
  {
    if t == [] || t[0] == ' ' then 0 else 1 + PieceLength(t[1..])
  }

  /** Where the first piece ends, and the text after the blank that ends it. */
  function PieceEnd(t: string): (n: nat)
    requires t != []
    ensures 1 <= n <= |t|
  {
    1 + PieceLength(t[1..])
  }

  function AfterPiece(t: string): (u: string)
    requires t != []
    ensures |u| < |t|
  {
    if PieceEnd(t) < |t| then t[PieceEnd(t) + 1..] else []
  }

  function Pieces(t: string): seq<string>
    decreases |t|
  {
    if t == [] then [] else [t[..PieceEnd(t)]] + Pieces(AfterPiece(t))
  }

  /** The text ends in a blank after its last piece. */
  predicate Trailing(t: string)
    decreases |t|
  {
    t != [] && PieceEnd(t) < |t| && (AfterPiece(t) == [] || Trailing(AfterPiece(t)))
  }

  function Kept(pieces: seq<string>, name: string): seq<string>
    requires forall i :: 0 <= i < |pieces| ==> pieces[i] != []
  {
    if pieces == [] then []
    else
      var last := pieces[|pieces| - 1];
      Kept(pieces[..|pieces| - 1], name) + (if Matches(name, last[1..]) then [] else [last])
  }

  lemma {:induction false} SpacedAppend(a: seq<string>, b: seq<string>)
    ensures Spaced(a + b) == Spaced(a) + Spaced(b)
    decreases |b|
  {
    if b == [] {
      assert a + b == a;
    } else {
      var (init, last) := (b[..|b| - 1], b[|b| - 1]);
      SpacedAppend(a, init);
      assert (a + b)[..|a + b| - 1] == a + init;
      Regroup(Spaced(a), Spaced(init), last, " ");
    }
  }

  lemma SpacedOne(p: string)
    ensures Spaced([p]) == p + " "
  {
    assert [p][..0] == [];
  }

  /** Reading from the front. */
  lemma JoinedCons(p: string, rest: seq<string>, trailing: bool)
    ensures Joined([p] + rest, trailing)
            == p + (if rest != [] then " " + Joined(rest, trailing) else if trailing then " " else "")
  {
    if rest == [] {
      assert [p] + rest == [p] && [p][..0] == [];
    } else {
      var (init, last) := (rest[..|rest| - 1], rest[|rest| - 1]);
      assert ([p] + rest)[..|rest|] == [p] + init;
      SpacedAppend([p], init);
      SpacedOne(p);
      var end := if trailing then " " else "";
      assert p + " " + Spaced(init) + last + end == p + (" " + (Spaced(init) + last + end));
    }
  }

  lemma NothingJoined()
    ensures Joined([], true) == [] && Joined([], false) == []
  {
  }

  lemma PieceAndRest(t: string)
    requires t != []
    ensures Piece(t[..PieceEnd(t)])
    ensures t == t[..PieceEnd(t)] + (if PieceEnd(t) == |t| then "" else " " + AfterPiece(t))
  {
    hide PieceLength;
    var n := PieceEnd(t);
    assert t[..n][1..] == t[1..][..n - 1];
    if n < |t| {
      assert t[n] == t[1..][n - 1] == ' ';
      assert t == t[..n] + ([t[n]] + t[n + 1..]);
    }
  }

  /** A text is its pieces. */
  lemma {:induction false} PiecesJoin(t: string)
    ensures AllPieces(Pieces(t)) && Joined(Pieces(t), Trailing(t)) == t
    decreases |t|
  {
    if t != [] {
      hide Joined, Spaced, PieceEnd, AfterPiece, Piece;
      var u := AfterPiece(t);
      PieceAndRest(t);
      PiecesJoin(u);
      NothingJoined();
      NothingAfter(t);
      JoinedCons(t[..PieceEnd(t)], Pieces(u), Trailing(t));
      NoPieces(u);
    }
  }

  lemma NothingAfter(t: string)
    requires t != []
    ensures PieceEnd(t) == |t| ==> AfterPiece(t) == []
  {
  }

  lemma NoPieces(t: string)
    ensures Pieces(t) == [] <==> t == []
    ensures t == [] ==> !Trailing(t)
  {
  }

  // ---------------------------------------------------------------------------------------
  // One turn of the edit
  // ---------------------------------------------------------------------------------------

  /** The cursor stands between the pieces already kept and those still to look at. */
  ghost predicate At(text: string, pos: nat, kept: seq<string>, todo: seq<string>, trailing: bool) {
    if todo == [] then text == Joined(kept, trailing) && pos == |text|
    else text == Spaced(kept) + Joined(todo, trailing) && pos == |Spaced(kept)|
  }

  lemma Slices(a: string, b: string, c: string)
    ensures (a + (b + c))[..|a|] == a && (a + (b + c))[|a|..|a| + |b|] == b && (a + (b + c))[|a| + |b|..] == c
  {
  }

  /** What follows the piece under the cursor. */
  function Tail(rest: seq<string>, trailing: bool): string {
    if rest != [] then " " + Joined(rest, trailing) else if trailing then " " else ""
  }

  lemma CurrentPiece(text: string, pos: nat, kept: seq<string>, p: string, rest: seq<string>, trailing: bool)
    requires At(text, pos, kept, [p] + rest, trailing)
    ensures pos + |p| <= |text| && text[..pos] == Spaced(kept) && text[pos..pos + |p|] == p
    ensures text[pos + |p|..] == Tail(rest, trailing)
  {
    hide Joined, Spaced;
    JoinedCons(p, rest, trailing);
    Slices(Spaced(kept), p, Tail(rest, trailing));
  }

  predicate FirstBlank(text: string, from: nat, end: nat) {
    from <= end <= |text| && (forall i :: from <= i < end ==> text[i] != ' ') && (end < |text| ==> text[end] == ' ')
  }

  lemma OneFirstBlank(text: string, from: nat, a: nat, b: nat)
    requires FirstBlank(text, from, a) && FirstBlank(text, from, b)
    ensures a == b
  {
  }

  /** The first blank is the end of the piece under the cursor. */
  lemma PieceEnds(text: string, pos: nat, p: string, end: nat, tail: string)
    requires pos + |p| <= |text| && text[pos..pos + |p|] == p && text[pos + |p|..] == tail
    requires Piece(p) && (tail == [] || tail[0] == ' ') && FirstBlank(text, pos + 1, end)
    ensures end == pos + |p| && text[pos + 1..end] == p[1..] && (end == |text| <==> tail == [])
  {
    var stop := pos + |p|;
    forall i | pos + 1 <= i < stop ensures text[i] != ' ' {
      assert text[i] == p[1..][i - pos - 1];
    }
    if stop < |text| {
      assert text[stop] == tail[0];
    }
    OneFirstBlank(text, pos + 1, end, stop);
    assert text[pos + 1..end] == text[pos..stop][1..];
  }

  lemma KeptSnoc(pieces: seq<string>, n: nat, name: string)
    requires n < |pieces| && AllPieces(pieces)
    ensures Kept(pieces[..n + 1], name)
            == Kept(pieces[..n], name) + (if Matches(name, pieces[n][1..]) then [] else [pieces[n]])
  {
    assert pieces[..n + 1][..n] == pieces[..n];
  }

  lemma SpacedSnoc(kept: seq<string>, p: string)
    ensures Spaced(kept + [p]) == Spaced(kept) + p + " "
    ensures Joined(kept + [p], false) == Spaced(kept) + p && Joined(kept + [p], true) == Spaced(kept) + p + " "
  {
    assert (kept + [p])[..|kept|] == kept;
  }

  lemma KeepPiece(text: string, pos: nat, kept: seq<string>, p: string, rest: seq<string>, trailing: bool)
    requires At(text, pos, kept, [p] + rest, trailing)
    ensures At(text, pos + |p| + (if Tail(rest, trailing) == [] then 0 else 1), kept + [p], rest, trailing)
  {
    hide Joined, Spaced;
    JoinedCons(p, rest, trailing);
    SpacedSnoc(kept, p);
    Regroup(Spaced(kept), p, " ", Joined(rest, trailing));
  }

  lemma JoinedEnd(kept: seq<string>)
    ensures Joined(kept, true) == Spaced(kept)
    ensures kept != [] ==> |Spaced(kept)| >= 1 && Spaced(kept)[..|Spaced(kept)| - 1] == Joined(kept, false)
    ensures kept == [] ==> Spaced(kept) == Joined(kept, false) == []
  {
  }

  /** Cutting the piece out: with the blank after it, or with the blank before it if it ends the text. */
  lemma DropPiece(text: string, pos: nat, kept: seq<string>, p: string, rest: seq<string>, trailing: bool)
    requires At(text, pos, kept, [p] + rest, trailing)
    ensures Tail(rest, trailing) != [] ==>
              pos + |p| + 1 <= |text| && At(text[..pos] + text[pos + |p| + 1..], pos, kept, rest, trailing)
    ensures Tail(rest, trailing) == [] ==>
              At(text[..if pos == 0 then 0 else pos - 1], if pos == 0 then 0 else pos - 1, kept, rest, trailing)
  {
    hide Joined, Spaced;
    CurrentPiece(text, pos, kept, p, rest, trailing);
    JoinedEnd(kept);
    var tail := Tail(rest, trailing);
    if tail == [] {
      assert pos > 0 ==> text[..pos - 1] == text[..pos][..pos - 1];
    } else {
      assert text[pos + |p| + 1..] == text[pos + |p|..][1..] == tail[1..];
      assert rest != [] ==> tail[1..] == Joined(rest, trailing);
      assert rest == [] ==> text[..pos] + tail[1..] == Spaced(kept);
    }
  }

  /** What one turn of the loop does. */
  lemma EditStep(text: string, pos: nat, pieces: seq<string>, n: nat, name: string, trailing: bool, end: nat,
                 text': string, pos': nat)
    requires AllPieces(pieces) && n < |pieces| && At(text, pos, Kept(pieces[..n], name), pieces[n..], trailing)
    requires FirstBlank(text, pos + 1, end)
    requires var copyEnd := if end < |text| then end + 1 else end;
             var copyPosition := if end == |text| && pos != 0 then pos - 1 else pos;
             if Matches(name, text[pos + 1..end])
             then text' == text[..copyPosition] + text[copyEnd..] && pos' == copyPosition
             else text' == text && pos' == copyEnd
    ensures At(text', pos', Kept(pieces[..n + 1], name), pieces[n + 1..], trailing)
  {
    hide At, Kept, Matches, FirstBlank, Tail;
    var (kept, p, rest) := (Kept(pieces[..n], name), pieces[n], pieces[n + 1..]);
    assert pieces[n..] == [p] + rest;
    CurrentPiece(text, pos, kept, p, rest, trailing);
    TailStarts(rest, trailing);
    PieceEnds(text, pos, p, end, Tail(rest, trailing));
    KeptSnoc(pieces, n, name);
    if Matches(name, p[1..]) {
      DropPiece(text, pos, kept, p, rest, trailing);
      assert end == |text| ==> text' == text[..pos'];
      assert Kept(pieces[..n + 1], name) == kept;
    } else {
      KeepPiece(text, pos, kept, p, rest, trailing);
    }
  }

  lemma TailStarts(rest: seq<string>, trailing: bool)
    ensures Tail(rest, trailing) == [] || Tail(rest, trailing)[0] == ' '
  {
  }

  // ---------------------------------------------------------------------------------------
  // The edit
  // ---------------------------------------------------------------------------------------

  /** strchr(text + from, ' '), the end of the text when there is none. */
  method FindBlank(text: string, from: nat) returns (end: nat)
    requires from <= |text|
    ensures FirstBlank(text, from, end)
  {
    end := from;
    while end < |text| && text[end] != ' '
      invariant from <= end <= |text| && forall i :: from <= i < end ==> text[i] != ' '
    {
      end := end + 1;
    }
  }

  /** Comparing the common length and then the lengths is matching. */
  method Compare(text: string, start: nat, end: nat, name: string) returns (match_: bool)
    requires start <= end <= |text|
    ensures match_ == Matches(name, text[start..end])
  {
    var len := end - start;
    var common := if len < |name| then len else |name|;
    var older := text[start..end];
    assert text[start..start + common] == older[..common];
    match_ := text[start..start + common] == name[..common]
              && (len == |name| || (len > |name| && text[start + |name|] == '|'));
    if common == |name| {
      assert name[..common] == name;
    }
    if common == len {
      assert older[..common] == older;
    }
  }

  /** A text without the pieces that `name` matches. */
  ghost function Removed(t: string, name: string): string {
    PiecesJoin(t);
    Joined(Kept(Pieces(t), name), Trailing(t))
  }

  lemma MoreToDo(text: string, pos: nat, kept: seq<string>, todo: seq<string>, trailing: bool)
    requires At(text, pos, kept, todo, trailing) && pos < |text|
    ensures todo != []
  {
  }

  /** One turn of the loop: the rule under the cursor is skipped, or the rest is moved over it. */
  method EditTurn(text: string, pos: nat, newRule: string, ghost pieces: seq<string>, ghost n: nat,
                  ghost trailing: bool)
    returns (text': string, pos': nat)
    requires AllPieces(pieces) && n < |pieces| && pos < |text|
    requires At(text, pos, Kept(pieces[..n], newRule), pieces[n..], trailing)
    ensures At(text', pos', Kept(pieces[..n + 1], newRule), pieces[n + 1..], trailing)
  {
    hide At, Kept, Joined, Spaced, Matches, AllPieces;
    var copyPosition, existing := pos, pos + 1;
    var ruleEnd := FindBlank(text, existing);
    if ruleEnd == |text| && copyPosition != 0 {
      copyPosition := copyPosition - 1;
    }
    var copyEnd := if ruleEnd < |text| then ruleEnd + 1 else ruleEnd;
    var hit := Compare(text, existing, ruleEnd, newRule);
    if hit {
      text' := text[..copyPosition] + text[copyEnd..];
      pos' := copyPosition;
    } else {
      text', pos' := text, copyEnd;
    }
    EditStep(text, pos, pieces, n, newRule, trailing, ruleEnd, text', pos');
  }

  /** ACLSelectorRemoveCommandRule: editing any text removes exactly the matching pieces; if these are
      rules, exactly the matching rules. */
  method RemoveCommandRule(rulesText: string, newRule: string, ghost rules: seq<Rule>) returns (text: string)
    ensures text == Removed(rulesText, newRule)
    ensures rulesText == Render(rules) && AllWords(rules) ==> text == Render(Without(rules, newRule))
  {
    hide At, Kept, Pieces, Trailing, Joined, Spaced, Render, AllWords, Without;
    text := rulesText;
    var pos: nat := 0;
    ghost var n: nat := 0;
    ghost var pieces, trailing := Pieces(text), Trailing(text);
    PiecesJoin(text);
    EditStart(text, pieces, newRule, trailing);
    while pos < |text|
      invariant n <= |pieces| && At(text, pos, Kept(pieces[..n], newRule), pieces[n..], trailing)
      decreases |pieces| - n
    {
      MoreToDo(text, pos, Kept(pieces[..n], newRule), pieces[n..], trailing);
      text, pos := EditTurn(text, pos, newRule, pieces, n, trailing);
      n := n + 1;
    }
    EditEnd(text, pos, pieces, n, newRule, trailing);
    if rulesText == Render(rules) && AllWords(rules) {
      RemovesRules(rules, newRule);
    }
  }

  lemma EditStart(text: string, pieces: seq<string>, name: string, trailing: bool)
    requires AllPieces(pieces) && text == Joined(pieces, trailing)
    ensures At(text, 0, Kept(pieces[..0], name), pieces[0..], trailing)
  {
    assert pieces[..0] == [] && pieces[0..] == pieces;
  }

  lemma EditEnd(text: string, pos: nat, pieces: seq<string>, n: nat, name: string, trailing: bool)
    requires AllPieces(pieces) && n <= |pieces| && At(text, pos, Kept(pieces[..n], name), pieces[n..], trailing)
    requires pos >= |text|
    ensures text == Joined(Kept(pieces, name), trailing)
  {
    assert pieces[..|pieces|] == pieces;
  }

  // ---------------------------------------------------------------------------------------
  // Rules
  // ---------------------------------------------------------------------------------------

  lemma {:induction false} RenderIsJoined(rules: seq<Rule>)
    ensures Prefix(rules) == Spaced(Texts(rules)) && Render(rules) == Joined(Texts(rules), false)
    decreases |rules|
  {
    if rules != [] {
      var init := rules[..|rules| - 1];
      RenderIsJoined(init);
      assert Texts(rules)[..|rules| - 1] == Texts(init);
    }
  }

  lemma PieceAtFront(p: string, rest: string)
    requires Piece(p) && (rest == [] || rest[0] == ' ')
    ensures p + rest != [] && 1 + PieceLength((p + rest)[1..]) == |p|
  {
    var u := (p + rest)[1..];
    assert u == p[1..] + rest;
    assert forall i :: 0 <= i < |p| - 1 ==> u[i] == p[1..][i];
    assert rest != [] ==> u[|p| - 1] == rest[0];
  }

  lemma FrontPiece(p: string, rest: string)
    requires Piece(p) && (rest == [] || rest[0] == ' ')
    ensures var t := p + rest;
            && t != [] && PieceEnd(t) == |p| && t[..PieceEnd(t)] == p
            && AfterPiece(t) == (if rest == [] then [] else rest[1..])
  {
    hide PieceLength;
    PieceAtFront(p, rest);
    var t := p + rest;
    assert t[..|p|] == p;
    assert rest != [] ==> t[|p| + 1..] == rest[1..];
  }

  /** The pieces of a rendered list are its rules. */
  lemma {:induction false} PiecesOfJoined(pieces: seq<string>)
    requires AllPieces(pieces)
    ensures Pieces(Joined(pieces, false)) == pieces && !Trailing(Joined(pieces, false))
    decreases |pieces|
  {
    if pieces != [] {
      hide Joined, Spaced, PieceLength;
      var (p, rest) := (pieces[0], pieces[1..]);
      PiecesOfJoined(rest);
      JoinedCons(p, rest, false);
      assert pieces == [p] + rest;
      FrontPiece(p, Tail(rest, false));
      if rest != [] {
        JoinedNonempty(rest);
        assert Tail(rest, false)[1..] == Joined(rest, false);
      }
    }
  }

  lemma JoinedNonempty(pieces: seq<string>)
    requires AllPieces(pieces) && pieces != []
    ensures Joined(pieces, false) != []
  {
  }

  lemma {:induction false} KeptTexts(rules: seq<Rule>, name: string)
    ensures Kept(Texts(rules), name) == Texts(Without(rules, name))
    decreases |rules|
  {
    if rules != [] {
      var (init, last) := (rules[..|rules| - 1], rules[|rules| - 1]);
      KeptTexts(init, name);
      assert Texts(rules)[..|rules| - 1] == Texts(init);
      assert Text(last)[1..] == last.name;
      assert Texts(Without(init, name) + [last]) == Texts(Without(init, name)) + [Text(last)];
    }
  }

  lemma RemovesRules(rules: seq<Rule>, name: string)
    requires AllWords(rules)
    ensures Removed(Render(rules), name) == Render(Without(rules, name))
  {
    var pieces := Texts(rules);
    forall i | 0 <= i < |pieces| ensures Piece(pieces[i]) {
      assert pieces[i][1..] == rules[i].name;
    }
    RenderIsJoined(rules);
    PiecesOfJoined(pieces);
    KeptTexts(rules, name);
    RenderIsJoined(Without(rules, name));
  }
}
