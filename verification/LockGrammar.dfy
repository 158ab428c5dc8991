/** The lock grammar on tokens, the two ways locks are printed in it, and why
    reading back what was printed gives the same lock.  The text of one atom
    is a single token here. */
module LockGrammar {
  import opened Bytes
  import opened LockTree
  import opened LockAsm

  datatype Token = TkNot | TkAnd | TkOr | TkOpen | TkClose | TkAtom(atom: Node)

  type Tokens = seq<Token>

  // ----- The grammar

  datatype Parse = Fail | Ok(n: Node, rest: Tokens)

  predicate Starts(ts: Tokens, t: Token) {
    |ts| > 0 && ts[0] == t
  }

  /** E -> T; E -> T | E */
  function ParseE(ts: Tokens): (p: Parse)
    ensures p.Ok? ==> |p.rest| < |ts|
    decreases |ts|, 3
  {
    match ParseT(ts)
    case Fail => Fail
    case Ok(a, rest) =>
      if !Starts(rest, TkOr) then Ok(a, rest) else
        match ParseE(rest[1..])
        case Fail => Fail
        case Ok(b, rest') => Ok(Or(a, b), rest')
  }

  /** T -> F; T -> F & T */
  function ParseT(ts: Tokens): (p: Parse)
    ensures p.Ok? ==> |p.rest| < |ts|
    decreases |ts|, 2
  {
    match ParseF(ts)
    case Fail => Fail
    case Ok(a, rest) =>
      if !Starts(rest, TkAnd) then Ok(a, rest) else
        match ParseT(rest[1..])
        case Fail => Fail
        case Ok(b, rest') => Ok(And(a, b), rest')
  }

  /** F -> !F; F -> an atom or (E) */
  function ParseF(ts: Tokens): (p: Parse)
    ensures p.Ok? ==> |p.rest| < |ts|
    decreases |ts|, 1
  {
    if ts == [] then Fail
    else
      match ts[0]
      case TkNot =>
        (match ParseF(ts[1..])
         case Fail => Fail
         case Ok(m, rest) => Ok(Not(m), rest))
      case TkOpen =>
        (match ParseE(ts[1..])
         case Fail => Fail
         case Ok(m, rest) => if Starts(rest, TkClose) then Ok(m, rest[1..]) else Fail)
      case TkAtom(a) => Ok(a, ts[1..])
      case _ => Fail
  }

  /** The parser: one global position that the routines for E, T and F advance. */
  class Parser {
    const input: Tokens
    var pos: nat

    ghost predicate Valid()
      reads this
    {
      pos <= |input|
    }

    constructor (ts: Tokens)
      ensures Valid() && input == ts && pos == 0
    {
      input, pos := ts, 0;
    }

    /** Whether the next token is `t`. */
    predicate At(t: Token)
      requires Valid()
      reads this
    {
      pos < |input| && input[pos] == t
    }

    /** What one routine did: it returned the tree of the grammar function,
        having moved past just what that tree takes up, or it gave up. */
    ghost predicate Did(p: Parse, r: Option<Node>)
      requires Valid()
      reads this
    {
      match p
      case Fail => r == None
      case Ok(n, rest) => r == Some(n) && rest == input[pos..]
    }

    method E() returns (r: Option<Node>)
      requires Valid()
      modifies this
      ensures Valid() && pos >= old(pos) && Did(ParseE(input[old(pos)..]), r)
      decreases |input| - pos, 3
    {
      r := T();
      if r == None { return; }
      if At(TkOr) {
        assert input[pos..][1..] == input[pos + 1..];
        pos := pos + 1;
        var b := E();
        r := if b == None then None else Some(Or(r.value, b.value));
      }
    }

    method T() returns (r: Option<Node>)
      requires Valid()
      modifies this
      ensures Valid() && pos >= old(pos) && Did(ParseT(input[old(pos)..]), r)
      ensures r.Some? ==> pos > old(pos)
      decreases |input| - pos, 2
    {
      r := F();
      if r == None { return; }
      if At(TkAnd) {
        assert input[pos..][1..] == input[pos + 1..];
        pos := pos + 1;
        var b := T();
        r := if b == None then None else Some(And(r.value, b.value));
      }
    }

    method F() returns (r: Option<Node>)
      requires Valid()
      modifies this
      ensures Valid() && pos >= old(pos) && Did(ParseF(input[old(pos)..]), r)
      ensures r.Some? ==> pos > old(pos)
      decreases |input| - pos, 1
    {
      if pos == |input| { return None; }
      assert input[pos..][0] == input[pos] && input[pos..][1..] == input[pos + 1..];
      match input[pos] {
        case TkNot =>
          pos := pos + 1;
          var m := F();
          r := if m == None then None else Some(Not(m.value));
        case TkOpen =>
          pos := pos + 1;
          r := E();
          if r == None { return; }
          if At(TkClose) {
            assert input[pos..][1..] == input[pos + 1..];
            pos := pos + 1;
          } else {
            r := None;
          }
        case TkAtom(a) =>
          pos := pos + 1;
          r := Some(a);
        case _ => r := None;
      }
    }
  }

  // ----- Printing

  /** The server decompiles its bytecode; the database tools print the trees
      they read from old databases, with more parentheses. */
  datatype Style = Server | DbTools

  predicate Wrapped(y: Style, n: Node, outer: Outer) {
    if y == Server then Parens(n, outer) else outer == UnderNot || outer == UnderAnd
  }

  function Print(y: Style, n: Node, outer: Outer): Tokens {
    match n
    case And(a, b) => Wrap(y, n, outer, Print(y, a, UnderAnd) + [TkAnd] + Print(y, b, UnderAnd))
    case Or(a, b) => Wrap(y, n, outer, Print(y, a, UnderOr) + [TkOr] + Print(y, b, UnderOr))
    case Not(m) => [TkNot] + Print(y, m, UnderNot)
    case _ => [TkAtom(n)]
  }

  function Wrap(y: Style, n: Node, outer: Outer, ts: Tokens): Tokens {
    if Wrapped(y, n, outer) then [TkOpen] + ts + [TkClose] else ts
  }

  // ----- What is read back

  function JoinAnd(a: Node, b: Node): Node {
    if a.And? then And(a.a, JoinAnd(a.b, b)) else And(a, b)
  }

  function JoinOr(a: Node, b: Node): Node {
    if a.Or? then Or(a.a, JoinOr(a.b, b)) else Or(a, b)
  }

  /** The tree with its chains of `|` nested to the right, and its chains of `&`
      too if they were printed without parentheses. */
  function Nest(y: Style, n: Node): Node {
    match n
    case And(a, b) => if y == Server then JoinAnd(Nest(y, a), Nest(y, b)) else And(Nest(y, a), Nest(y, b))
    case Or(a, b) => JoinOr(Nest(y, a), Nest(y, b))
    case Not(m) => Not(Nest(y, m))
    case _ => n
  }

  lemma {:induction false} JoinAndMeaning<S>(w: World<S>, a: Node, b: Node, r: bool, s: S)
    ensures EvalNode(w, JoinAnd(a, b), r, s) == EvalNode(w, And(a, b), r, s)
  {
    if a.And? {
      var (r1, s1) := EvalNode(w, a.a, r, s);
      JoinAndMeaning(w, a.b, b, r1, s1);
    }
  }

  lemma {:induction false} JoinOrMeaning<S>(w: World<S>, a: Node, b: Node, r: bool, s: S)
    ensures EvalNode(w, JoinOr(a, b), r, s) == EvalNode(w, Or(a, b), r, s)
  {
    if a.Or? {
      var (r1, s1) := EvalNode(w, a.a, r, s);
      JoinOrMeaning(w, a.b, b, r1, s1);
    }
  }

  /** Nesting chains the other way changes neither the value nor the probes. */
  lemma {:induction false} NestMeaning<S>(y: Style, w: World<S>, n: Node, r: bool, s: S)
    ensures EvalNode(w, Nest(y, n), r, s) == EvalNode(w, n, r, s)
  {
    match n
    case And(a, b) =>
      NestMeaning(y, w, a, r, s);
      var (r1, s1) := EvalNode(w, a, r, s);
      NestMeaning(y, w, b, r1, s1);
      JoinAndMeaning(w, Nest(y, a), Nest(y, b), r, s);
    case Or(a, b) =>
      NestMeaning(y, w, a, r, s);
      var (r1, s1) := EvalNode(w, a, r, s);
      NestMeaning(y, w, b, r1, s1);
      JoinOrMeaning(w, Nest(y, a), Nest(y, b), r, s);
    case Not(m) => NestMeaning(y, w, m, r, s);
    case _ =>
  }

  // ----- Reading back

  /** The tokens of an F: an atom, a NOT, or anything in parentheses. */
  lemma {:induction false} ReadF(y: Style, n: Node, outer: Outer, rest: Tokens)
    requires n.And? || n.Or? ==> Wrapped(y, n, outer)
    ensures ParseF(Print(y, n, outer) + rest) == Ok(Nest(y, n), rest)
    decreases n, if n.And? || n.Or? then 3 else 0
  {
    var ts := Print(y, n, outer) + rest;
    if n.And? || n.Or? {
      var inner := Print(y, n, Alone);
      assert ts[1..] == inner + ([TkClose] + rest);
      ReadE(y, n, Alone, [TkClose] + rest);
    } else if n.Not? {
      assert ts[1..] == Print(y, n.n, UnderNot) + rest;
      ReadF(y, n.n, UnderNot, rest);
    } else {
      assert ts[1..] == rest;
    }
  }

  /** The tokens of one part of an AND.  `more` is what comes after. */
  lemma {:induction false} ReadT(y: Style, n: Node, outer: Outer, more: Tokens)
    requires n.Or? ==> Wrapped(y, n, outer)
    requires outer != UnderNot
    ensures !Starts(more, TkAnd) ==> ParseT(Print(y, n, outer) + more) == Ok(Nest(y, n), more)
    ensures Starts(more, TkAnd) && ParseT(more[1..]).Ok? && (n.And? && y == DbTools ==> Wrapped(y, n, outer)) ==>
              ParseT(Print(y, n, outer) + more) == Ok(JoinAnd'(y, Nest(y, n), ParseT(more[1..]).n), ParseT(more[1..]).rest)
    decreases n, if (n.And? || n.Or?) && Wrapped(y, n, outer) then 4 else 1
  {
    hide ParseF;
    if n.And? && !Wrapped(y, n, outer) {
      var pa, pb := Print(y, n.a, UnderAnd), Print(y, n.b, UnderAnd);
      var tail := pb + more;
      assert Print(y, n, outer) + more == pa + ([TkAnd] + tail);
      assert ([TkAnd] + tail)[1..] == tail;
      ReadT(y, n.b, UnderAnd, more);
      ReadT(y, n.a, UnderAnd, [TkAnd] + tail);
      if Starts(more, TkAnd) && ParseT(more[1..]).Ok? && y == Server {
        JoinAndAssoc(Nest(y, n.a), Nest(y, n.b), ParseT(more[1..]).n);
      }
    } else {
      hide Print;
      ReadF(y, n, outer, more);
      NestKind(y, n);
    }
  }

  /** How a T that came before `& b` takes `b` in. */
  function JoinAnd'(y: Style, a: Node, b: Node): Node {
    if y == Server then JoinAnd(a, b) else And(a, b)
  }

  lemma {:induction false} JoinAndAssoc(a: Node, b: Node, c: Node)
    ensures JoinAnd(JoinAnd(a, b), c) == JoinAnd(a, JoinAnd(b, c))
  {
    if a.And? { JoinAndAssoc(a.b, b, c); }
  }

  lemma {:induction false} JoinOrAssoc(a: Node, b: Node, c: Node)
    ensures JoinOr(JoinOr(a, b), c) == JoinOr(a, JoinOr(b, c))
  {
    if a.Or? { JoinOrAssoc(a.b, b, c); }
  }

  lemma NestKind(y: Style, n: Node)
    ensures Nest(y, n).And? <==> n.And?
    ensures Nest(y, n).Or? <==> n.Or?
  {
  }

  lemma {:induction false} ReadE(y: Style, n: Node, outer: Outer, more: Tokens)
    requires outer == Alone || outer == UnderOr
    requires !Starts(more, TkAnd)
    ensures !Starts(more, TkOr) ==> ParseE(Print(y, n, outer) + more) == Ok(Nest(y, n), more)
    ensures Starts(more, TkOr) && ParseE(more[1..]).Ok? ==>
              ParseE(Print(y, n, outer) + more) == Ok(JoinOr(Nest(y, n), ParseE(more[1..]).n), ParseE(more[1..]).rest)
    decreases n, 2
  {
    if n.Or? {
      var pa, pb := Print(y, n.a, UnderOr), Print(y, n.b, UnderOr);
      assert Print(y, n, outer) + more == pa + ([TkOr] + (pb + more));
      assert ([TkOr] + (pb + more))[1..] == pb + more;
      ReadE(y, n.b, UnderOr, more);
      ReadE(y, n.a, UnderOr, [TkOr] + (pb + more));
      if Starts(more, TkOr) && ParseE(more[1..]).Ok? {
        JoinOrAssoc(Nest(y, n.a), Nest(y, n.b), ParseE(more[1..]).n);
      }
    } else {
      ReadT(y, n, outer, more);
      NestKind(y, n);
    }
  }

  /** Reading back what was printed gives the tree with its chains nested. */
  lemma PrintParses(y: Style, n: Node)
    ensures ParseE(Print(y, n, Alone)) == Ok(Nest(y, n), [])
  {
    assert Print(y, n, Alone) + [] == Print(y, n, Alone);
    ReadE(y, n, Alone, []);
  }
}
