/** Attribute names: the order they are stored in, and how a backtick puts one
    below another. */
module AttrNames {
  import opened Bytes

  /** The backtick. */
  const TICK: Byte := 96

  /** `strcmp(a, b) < 0`. */
  predicate Less(a: Text, b: Text) {
    b != [] && (a == [] || a[0] < b[0] || (a[0] == b[0] && Less(a[1..], b[1..])))
  }

  lemma {:induction false} LessTotal(a: Text, b: Text)
    ensures Less(a, b) || a == b || Less(b, a)
    ensures !Less(a, a) && !(Less(a, b) && Less(b, a))
  {
    if a != [] && b != [] && a[0] == b[0] {
      LessTotal(a[1..], b[1..]);
      assert a == [a[0]] + a[1..] && b == [b[0]] + b[1..];
    }
    if a != [] { LessTotal(a[1..], a[1..]); }
  }

  lemma {:induction false} LessTransitive(a: Text, b: Text, c: Text)
    requires Less(a, b) && Less(b, c)
    ensures Less(a, c)
  {
    if a != [] && a[0] == b[0] == c[0] { LessTransitive(a[1..], b[1..], c[1..]); }
  }

  /** What lies between a name and one that begins with it begins with it. */
  lemma {:induction false} PrefixInterval(p: Text, x: Text, y: Text)
    requires !Less(x, p) && Less(x, y) && p <= y
    ensures p <= x
  {
    if p != [] {
      assert y[0] == p[0] && p[1..] <= y[1..];
      PrefixInterval(p[1..], x[1..], y[1..]);
      assert p == [p[0]] + p[1..] && x == [x[0]] + x[1..];
    }
  }

  lemma {:induction false} PrefixLess(p: Text, x: Text)
    requires p <= x
    ensures p == x || Less(p, x)
    ensures !Less(x, p)
  {
    LessTotal(p, x);
    if p != [] && p != x {
      assert p[1..] <= x[1..];
      PrefixLess(p[1..], x[1..]);
      assert p == [p[0]] + p[1..] && x == [x[0]] + x[1..];
    }
  }

  /** `is_atree_root`: `path` is somewhere below `root`. */
  predicate Below(root: Text, path: Text) {
    |root| < |path| && path[|root|] == TICK && path[..|root|] == root
  }

  lemma BelowIsPrefix(root: Text, path: Text)
    ensures Below(root, path) <==> root + [TICK] <= path
  {
    if root + [TICK] <= path {
      assert path[..|root|] == (root + [TICK])[..|root|] == root;
    }
    if Below(root, path) {
      assert path[..|root| + 1] == root + [TICK];
    }
  }

  lemma BelowTransitive(a: Text, b: Text, c: Text)
    requires Below(a, b) && Below(b, c)
    ensures Below(a, c)
  {
    assert c[..|a|] == c[..|b|][..|a|] && c[|a|] == c[..|b|][|a|];
  }

  /** Two names with something below both are the same, or one below the other. */
  lemma BelowLinear(a: Text, b: Text, c: Text)
    requires (Below(a, c) || a == c) && (Below(b, c) || b == c)
    ensures a == b || Below(a, b) || Below(b, a)
  {
    assert c[..|a|] == a && c[..|b|] == b;
    if |a| < |b| {
      assert b[..|a|] == c[..|a|] && b[|a|] == c[|a|];
    } else if |b| < |a| {
      assert a[..|b|] == c[..|b|] && a[|b|] == c[|b|];
    }
  }

  /** A name between another and one below that begins with it, and goes on with
      a character no later than the backtick. */
  lemma BetweenBelow(root: Text, x: Text, path: Text)
    requires Less(root, x) && Less(x, path) && Below(root, path)
    ensures |root| < |x| && x[..|root|] == root && x[|root|] <= TICK
  {
    LessTotal(root, x);
    assert root <= path by { assert path[..|root|] == root; }
    PrefixInterval(root, x, path);
    assert |x| == |root| ==> x == root;
    LessTotal(root, root);
    DropPrefix(root, x, path);
  }

  lemma {:induction false} DropPrefix(p: Text, x: Text, y: Text)
    requires p <= x && p <= y && Less(x, y)
    ensures Less(x[|p|..], y[|p|..])
  {
    if p != [] {
      assert p[1..] <= x[1..] && p[1..] <= y[1..];
      assert x[0] == p[0] && y[0] == p[0];
      DropPrefix(p[1..], x[1..], y[1..]);
      assert x[1..][|p[1..]|..] == x[|p|..] && y[1..][|p[1..]|..] == y[|p|..];
    } else {
      assert x[|p|..] == x && y[|p|..] == y;
    }
  }

  /** The names below `root` come together: once one has come, and then one that
      is not below, there are no more. */
  lemma BelowTogether(root: Text, first: Text, x: Text, y: Text)
    requires Below(root, first) && Less(first, x) && Less(x, y) && !Below(root, x)
    ensures !Below(root, y)
  {
    if Below(root, y) {
      BelowIsPrefix(root, first);
      BelowIsPrefix(root, y);
      BelowIsPrefix(root, x);
      PrefixLess(root + [TICK], first);
      if Less(x, root + [TICK]) {
        LessTotal(first, first);
        if root + [TICK] != first { LessTransitive(x, root + [TICK], first); LessTotal(x, first); } else { LessTotal(x, first); }
      }
      PrefixInterval(root + [TICK], x, y);
    }
  }

  /** What a name starts with, up to each backtick before `k`: the names it has
      to be below. */
  function Roots(name: Text, k: nat): set<Text>
    requires k <= |name|
  {
    set j | 0 <= j < k && name[j] == TICK :: name[..j]
  }

  lemma RootsBelow(name: Text, r: Text)
    ensures r in Roots(name, |name|) <==> Below(r, name)
  {
    if Below(r, name) { assert name[|r|] == TICK && name[..|r|] == r; }
  }

  lemma RootsNext(name: Text, k: nat)
    requires k < |name|
    ensures Roots(name, k + 1) == if name[k] == TICK then Roots(name, k) + {name[..k]} else Roots(name, k)
    ensures name[..k] !in Roots(name, k)
  {
    if name[k] == TICK { assert name[..k] in Roots(name, k + 1); }
    forall r | r in Roots(name, k) ensures r in Roots(name, k + 1) && |r| < k {
      var j :| 0 <= j < k && name[j] == TICK && r == name[..j];
      assert r == name[..j];
    }
  }

  /** The name just above, if there is one: everything before the last
      backtick. */
  function LastTick(name: Text, k: nat): (j: int)
    requires k <= |name|
    ensures -1 <= j < k && (j >= 0 ==> name[j] == TICK) && forall i :: j < i < k ==> name[i] != TICK
  {
    if k == 0 then -1 else if name[k - 1] == TICK then k - 1 else LastTick(name, k - 1)
  }

  /** `name` is just below `root`. */
  predicate ChildOf(root: Text, name: Text) {
    Below(root, name) && LastTick(name, |name|) == |root|
  }

  /** Everything above a name is the name just above it, or above that. */
  lemma RootsThroughParent(r: Text, name: Text)
    requires Below(r, name)
    ensures var j := LastTick(name, |name|); j >= |r| && Below(name[..j], name) && (r == name[..j] || Below(r, name[..j]))
  {
    var j := LastTick(name, |name|);
    assert name[|r|] == TICK;
    if j > |r| { assert name[..j][..|r|] == name[..|r|] && name[..j][|r|] == TICK; }
  }
}
