/** What the parser takes and what it refuses: the phrases of the grammar, as
    trees of their own, and their parentheses. */
module LockPhrases {
  import opened LockTree
  import opened LockAsm
  import opened LockGrammar

  /** E -> T; E -> T | E */
  datatype Sum = Term(t: Product) | Alternative(t: Product, more: Sum)

  /** T -> F; T -> F & T */
  datatype Product = Factor(f: Part) | Both(f: Part, more: Product)

  /** F -> !F; F -> (E); F -> an atom */
  datatype Part = Negated(f: Part) | Grouped(e: Sum) | Atom(atom: Node)

  // ----- How a phrase is written, and the tree it stands for

  function Spell(e: Sum): (ts: Tokens)
    ensures |ts| > 0
    decreases e, 2
  {
    match e
    case Term(t) => SpellT(t)
    case Alternative(t, more) => SpellT(t) + [TkOr] + Spell(more)
  }

  function SpellT(t: Product): (ts: Tokens)
    ensures |ts| > 0
    decreases t, 1
  {
    match t
    case Factor(f) => SpellF(f)
    case Both(f, more) => SpellF(f) + [TkAnd] + SpellT(more)
  }

  function SpellF(f: Part): (ts: Tokens)
    ensures |ts| > 0
    decreases f, 0
  {
    match f
    case Negated(g) => [TkNot] + SpellF(g)
    case Grouped(e) => [TkOpen] + Spell(e) + [TkClose]
    case Atom(a) => [TkAtom(a)]
  }

  function TreeOf(e: Sum): Node
    decreases e, 2
  {
    match e
    case Term(t) => TreeOfT(t)
    case Alternative(t, more) => Or(TreeOfT(t), TreeOf(more))
  }

  function TreeOfT(t: Product): Node
    decreases t, 1
  {
    match t
    case Factor(f) => TreeOfF(f)
    case Both(f, more) => And(TreeOfF(f), TreeOfT(more))
  }

  function TreeOfF(f: Part): Node
    decreases f, 0
  {
    match f
    case Negated(g) => Not(TreeOfF(g))
    case Grouped(e) => TreeOf(e)
    case Atom(a) => a
  }

  // ----- What parses is a phrase

  /** What stands here does not go on with the phrase before it. */
  predicate Ended(rest: Tokens) {
    !Starts(rest, TkOr) && !Starts(rest, TkAnd)
  }

  lemma ParseEIs(ts: Tokens)
    ensures var p := ParseT(ts);
            ParseE(ts) ==
            if p.Fail? || !Starts(p.rest, TkOr) then p
            else if ParseE(p.rest[1..]).Fail? then Fail
            else Ok(Or(p.n, ParseE(p.rest[1..]).n), ParseE(p.rest[1..]).rest)
  {
    hide ParseT;
  }

  lemma ParseTIs(ts: Tokens)
    ensures var p := ParseF(ts);
            ParseT(ts) ==
            if p.Fail? || !Starts(p.rest, TkAnd) then p
            else if ParseT(p.rest[1..]).Fail? then Fail
            else Ok(And(p.n, ParseT(p.rest[1..]).n), ParseT(p.rest[1..]).rest)
  {
    hide ParseF;
  }

  lemma ParseFIs(ts: Tokens)
    ensures ts == [] ==> ParseF(ts) == Fail
    ensures Starts(ts, TkNot) ==>
              ParseF(ts) == if ParseF(ts[1..]).Fail? then Fail else Ok(Not(ParseF(ts[1..]).n), ParseF(ts[1..]).rest)
    ensures Starts(ts, TkOpen) ==>
              var p := ParseE(ts[1..]);
              ParseF(ts) == if p.Ok? && Starts(p.rest, TkClose) then Ok(p.n, p.rest[1..]) else Fail
    ensures ts != [] && ts[0].TkAtom? ==> ParseF(ts) == Ok(ts[0].atom, ts[1..])
    ensures ts != [] && (ts[0] == TkAnd || ts[0] == TkOr || ts[0] == TkClose) ==> ParseF(ts) == Fail
  {
    hide ParseE;
  }

  /** Two stretches with a token between them, and what follows. */
  lemma Between(x: Tokens, t: Token, y: Tokens, rest: Tokens)
    ensures x + [t] + y + rest == x + ([t] + (y + rest))
    ensures ([t] + (y + rest))[1..] == y + rest && Starts([t] + (y + rest), t)
  {
  }

  lemma Behind(t: Token, ts: Tokens)
    ensures ([t] + ts)[1..] == ts && Starts([t] + ts, t)
  {
  }

  lemma Split(ts: Tokens, t: Token)
    requires Starts(ts, t)
    ensures ts == [t] + ts[1..]
  {
  }

  lemma {:induction false} ParsedE(ts: Tokens) returns (e: Sum)
    requires ParseE(ts).Ok?
    ensures ts == Spell(e) + ParseE(ts).rest && TreeOf(e) == ParseE(ts).n && Ended(ParseE(ts).rest)
    decreases |ts|, 3
  {
    hide ParseE, ParseT;
    ParseEIs(ts);
    var t := ParsedT(ts);
    var rest := ParseT(ts).rest;
    e := Term(t);
    if Starts(rest, TkOr) {
      var more := ParsedE(rest[1..]);
      e := Alternative(t, more);
      Split(rest, TkOr);
      Between(SpellT(t), TkOr, Spell(more), ParseE(ts).rest);
    }
  }

  lemma {:induction false} ParsedT(ts: Tokens) returns (t: Product)
    requires ParseT(ts).Ok?
    ensures ts == SpellT(t) + ParseT(ts).rest && TreeOfT(t) == ParseT(ts).n && !Starts(ParseT(ts).rest, TkAnd)
    decreases |ts|, 2
  {
    hide ParseT, ParseF;
    ParseTIs(ts);
    var f := ParsedF(ts);
    var rest := ParseF(ts).rest;
    t := Factor(f);
    if Starts(rest, TkAnd) {
      var more := ParsedT(rest[1..]);
      t := Both(f, more);
      Split(rest, TkAnd);
      Between(SpellF(f), TkAnd, SpellT(more), ParseT(ts).rest);
    }
  }

  lemma {:induction false} ParsedF(ts: Tokens) returns (f: Part)
    requires ParseF(ts).Ok?
    ensures ts == SpellF(f) + ParseF(ts).rest && TreeOfF(f) == ParseF(ts).n
    decreases |ts|, 1
  {
    hide ParseF, ParseE;
    ParseFIs(ts);
    Split(ts, ts[0]);
    if ts[0] == TkNot {
      var g := ParsedF(ts[1..]);
      f := Negated(g);
      Between([], TkNot, SpellF(g), ParseF(ts).rest);
      assert [] + [TkNot] == [TkNot] && [] + ts == ts;
    } else if ts[0] == TkOpen {
      var e := ParsedE(ts[1..]);
      f := Grouped(e);
      Split(ParseE(ts[1..]).rest, TkClose);
      Closed(Spell(e), ParseF(ts).rest);
    } else {
      f := Atom(ts[0].atom);
    }
  }

  lemma Closed(x: Tokens, rest: Tokens)
    ensures [TkOpen] + x + [TkClose] + rest == [TkOpen] + (x + ([TkClose] + rest))
  {
  }

  // ----- A phrase parses

  lemma {:induction false} PhraseE(e: Sum, rest: Tokens)
    requires Ended(rest)
    ensures ParseE(Spell(e) + rest) == Ok(TreeOf(e), rest)
    decreases e, 2
  {
    hide ParseE, ParseT;
    ParseEIs(Spell(e) + rest);
    match e
    case Term(t) =>
      PhraseT(t, rest);
    case Alternative(t, more) =>
      Between(SpellT(t), TkOr, Spell(more), rest);
      PhraseT(t, [TkOr] + (Spell(more) + rest));
      PhraseE(more, rest);
  }

  lemma {:induction false} PhraseT(t: Product, rest: Tokens)
    requires !Starts(rest, TkAnd)
    ensures ParseT(SpellT(t) + rest) == Ok(TreeOfT(t), rest)
    decreases t, 1
  {
    hide ParseT, ParseF;
    ParseTIs(SpellT(t) + rest);
    match t
    case Factor(f) =>
      PhraseF(f, rest);
    case Both(f, more) =>
      Between(SpellF(f), TkAnd, SpellT(more), rest);
      PhraseF(f, [TkAnd] + (SpellT(more) + rest));
      PhraseT(more, rest);
  }

  lemma {:induction false} PhraseF(f: Part, rest: Tokens)
    ensures ParseF(SpellF(f) + rest) == Ok(TreeOfF(f), rest)
    decreases f, 0
  {
    hide ParseF, ParseE;
    ParseFIs(SpellF(f) + rest);
    match f
    case Negated(g) =>
      PhraseF(g, rest);
      Between([], TkNot, SpellF(g), rest);
      assert [] + [TkNot] == [TkNot] && [] + ([TkNot] + (SpellF(g) + rest)) == [TkNot] + (SpellF(g) + rest);
    case Grouped(e) =>
      PhraseE(e, [TkClose] + rest);
      Closed(Spell(e), rest);
      Behind(TkOpen, Spell(e) + ([TkClose] + rest));
      Behind(TkClose, rest);
    case Atom(a) =>
      Behind(TkAtom(a), rest);
  }

  /** The parser makes a tree of what a text begins with just if that is a phrase
      that stands for the tree, and what is left does not go on with it.  What is
      left it does not look at. */
  lemma ParsesExactly(ts: Tokens, n: Node, rest: Tokens)
    ensures ParseE(ts) == Ok(n, rest) <==> Ended(rest) && exists e :: Spell(e) + rest == ts && TreeOf(e) == n
  {
    if ParseE(ts) == Ok(n, rest) { var e := ParsedE(ts); }
    if Ended(rest) {
      forall e | Spell(e) + rest == ts ensures ParseE(ts) == Ok(TreeOf(e), rest) { PhraseE(e, rest); }
    }
  }

  // ----- Parentheses

  /** With `open` parentheses to close, every one is closed and no other. */
  predicate Matched(ts: Tokens, open: nat) {
    if ts == [] then open == 0
    else if ts[0] == TkOpen then Matched(ts[1..], open + 1)
    else if ts[0] == TkClose then open > 0 && Matched(ts[1..], open - 1)
    else Matched(ts[1..], open)
  }

  lemma MatchedNext(t: Token, ts: Tokens, open: nat)
    ensures Matched([t] + ts, open) <==>
            if t == TkOpen then Matched(ts, open + 1) else if t == TkClose then open > 0 && Matched(ts, open - 1) else Matched(ts, open)
  {
    assert ([t] + ts)[1..] == ts;
  }

  lemma {:induction false} MatchedE(e: Sum, rest: Tokens, open: nat)
    ensures Matched(Spell(e) + rest, open) <==> Matched(rest, open)
    decreases e, 2
  {
    match e
    case Term(t) =>
      MatchedT(t, rest, open);
    case Alternative(t, more) =>
      MatchedT(t, [TkOr] + (Spell(more) + rest), open);
      MatchedNext(TkOr, Spell(more) + rest, open);
      MatchedE(more, rest, open);
      assert Spell(e) + rest == SpellT(t) + ([TkOr] + (Spell(more) + rest));
  }

  lemma {:induction false} MatchedT(t: Product, rest: Tokens, open: nat)
    ensures Matched(SpellT(t) + rest, open) <==> Matched(rest, open)
    decreases t, 1
  {
    match t
    case Factor(f) =>
      MatchedF(f, rest, open);
    case Both(f, more) =>
      MatchedF(f, [TkAnd] + (SpellT(more) + rest), open);
      MatchedNext(TkAnd, SpellT(more) + rest, open);
      MatchedT(more, rest, open);
      assert SpellT(t) + rest == SpellF(f) + ([TkAnd] + (SpellT(more) + rest));
  }

  lemma {:induction false} MatchedF(f: Part, rest: Tokens, open: nat)
    ensures Matched(SpellF(f) + rest, open) <==> Matched(rest, open)
    decreases f, 0
  {
    match f
    case Negated(g) =>
      MatchedNext(TkNot, SpellF(g) + rest, open);
      MatchedF(g, rest, open);
      assert SpellF(f) + rest == [TkNot] + (SpellF(g) + rest);
    case Grouped(e) =>
      MatchedNext(TkOpen, Spell(e) + ([TkClose] + rest), open);
      MatchedE(e, [TkClose] + rest, open + 1);
      MatchedNext(TkClose, rest, open + 1);
      assert SpellF(f) + rest == [TkOpen] + (Spell(e) + ([TkClose] + rest));
    case Atom(a) =>
      MatchedNext(TkAtom(a), rest, open);
  }

  /** So a text whose parentheses do not match is refused. */
  lemma ParsedMatched(ts: Tokens)
    requires ParseE(ts).Ok? && ParseE(ts).rest == []
    ensures Matched(ts, 0)
  {
    var e := ParsedE(ts);
    MatchedE(e, [], 0);
  }

  /** As `(#1` is, which is not taken in part either. */
  lemma OpenRefused(a: Node)
    ensures ParseE([TkOpen, TkAtom(a)]) == Fail
  {
    var ts := [TkOpen, TkAtom(a)];
    assert ts[1..] == [TkAtom(a)] && [TkAtom(a)][1..] == [];
    assert ParseF([TkAtom(a)]) == Ok(a, []);
    assert ParseE([TkAtom(a)]) == Ok(a, []);
    assert ParseF(ts) == Fail;
  }

  // ----- Printed parentheses are needed

  function PairOf(or: bool, a: Node, b: Node): Node {
    if or then Or(a, b) else And(a, b)
  }

  /** Where an AND or OR is printed in parentheses, which depends on nothing else
      in it, it would be taken apart without them: behind a NOT, the NOT would be
      part of it, and in front of an AND, the AND would. */
  lemma ParensNeeded(or: bool, a: Node, b: Node, outer: Outer, x: Node, y: Node, z: Node)
    requires Parens(PairOf(or, a, b), outer)
    ensures Parens(PairOf(or, x, y), outer)
    ensures outer == UnderNot || outer == UnderAnd
    ensures var op := if or then TkOr else TkAnd;
            && (outer == UnderNot ==> ParseE([TkNot, TkAtom(x), op, TkAtom(y)]) == Ok(PairOf(or, Not(x), y), []))
            && (outer == UnderAnd ==> ParseE([TkAtom(x), op, TkAtom(y), TkAnd, TkAtom(z)]) == Ok(Or(x, And(y, z)), []))
  {
    var f, op := Negated(Atom(x)), if or then TkOr else TkAnd;
    OneTest(x);
    OneTest(y);
    assert SpellF(f) == [TkNot] + SpellF(Atom(x)) && TreeOfF(f) == Not(TreeOfF(Atom(x)));
    assert SpellT(Factor(f)) == SpellF(f) && TreeOfT(Factor(f)) == TreeOfF(f);
    if outer == UnderNot {
      if or { Alternatives(Factor(f), Factor(Atom(y))); } else { Factors(f, y); }
      assert [TkNot] + [TkAtom(x)] + [op] + [TkAtom(y)] == [TkNot, TkAtom(x), op, TkAtom(y)];
    } else {
      Factors(Atom(y), z);
      Alternatives(Factor(Atom(x)), Both(Atom(y), Factor(Atom(z))));
      assert [TkAtom(x)] + [TkOr] + ([TkAtom(y)] + [TkAnd] + [TkAtom(z)]) == [TkAtom(x), op, TkAtom(y), TkAnd, TkAtom(z)];
    }
  }

  lemma OneTest(a: Node)
    ensures SpellF(Atom(a)) == [TkAtom(a)] && TreeOfF(Atom(a)) == a
    ensures SpellT(Factor(Atom(a))) == [TkAtom(a)] && TreeOfT(Factor(Atom(a))) == a
  {
    assert SpellF(Atom(a)) == [TkAtom(a)] && TreeOfF(Atom(a)) == a;
  }

  lemma Factors(f: Part, a: Node)
    ensures SpellT(Both(f, Factor(Atom(a)))) == SpellF(f) + [TkAnd] + [TkAtom(a)]
    ensures TreeOfT(Both(f, Factor(Atom(a)))) == And(TreeOfF(f), a)
    ensures ParseE(SpellF(f) + [TkAnd] + [TkAtom(a)]) == Ok(And(TreeOfF(f), a), [])
  {
    var t := Both(f, Factor(Atom(a)));
    assert SpellT(Factor(Atom(a))) == SpellF(Atom(a)) == [TkAtom(a)];
    assert TreeOfT(Factor(Atom(a))) == TreeOfF(Atom(a)) == a;
    PhraseE(Term(t), []);
    assert SpellT(t) + [] == SpellT(t);
  }

  lemma Alternatives(t: Product, u: Product)
    ensures ParseE(SpellT(t) + [TkOr] + SpellT(u)) == Ok(Or(TreeOfT(t), TreeOfT(u)), [])
  {
    var e := Alternative(t, Term(u));
    assert Spell(Term(u)) == SpellT(u) && TreeOf(Term(u)) == TreeOfT(u);
    PhraseE(e, []);
    assert Spell(e) + [] == SpellT(t) + [TkOr] + SpellT(u);
  }
}
