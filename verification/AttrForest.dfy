/** What an object's attributes are, without regard to how they are stored: a
    forest of names, and what adding, clearing and wiping do to it. */
module AttrForest {
  import opened Bytes
  import opened AttrNames

  datatype Flag = ROOT | SAFE | INTERNAL | WIZARD | LOCKED | NODUMP | COMMAND | LISTEN | OTHER(bit: nat)

  type Flags = set<Flag>

  datatype Attr = Attr(flags: Flags, creator: int, data: Text)

  type Forest = map<Text, Attr>

  const GOD := 1

  datatype Player = Player(self: int, owner: int, wizard: bool)

  datatype Outcome = OKAY | ERROR | IS_SAFE | BADNAME | TOOMANY | TREE | NOTFOUND

  /** What holds for the whole server: the flags of standard attributes, the
      characters names may have, whether attributes may be empty, and how many
      an object may have. */
  datatype Rules = Rules(std: map<Text, Flags>, nameChars: set<Byte>, emptyAttrs: bool, limit: nat)

  const NAME_LIMIT := 1024

  predicate GoodName(rules: Rules, name: Text) {
    && 0 < |name| <= NAME_LIMIT && name[0] != TICK && name[|name| - 1] != TICK
    && (forall i :: 0 <= i < |name| ==> name[i] in rules.nameChars)
    && (forall i :: 0 < i < |name| ==> name[i - 1] != TICK || name[i] != TICK)
  }

  /** A part of a name between backticks. */
  predicate GoodPart(rules: Rules, part: Text) {
    part != [] && forall i :: 0 <= i < |part| ==> part[i] in rules.nameChars && part[i] != TICK
  }

  /** A name that is below others is good just when the one above it is, and its
      last part is neither empty nor has other characters than names may have. */
  lemma GoodNameParts(rules: Rules, above: Text, last: Text)
    requires TICK !in last
    ensures GoodName(rules, last) <==> |last| <= NAME_LIMIT && GoodPart(rules, last)
    ensures GoodName(rules, above + [TICK] + last) <==>
            |above| + 1 + |last| <= NAME_LIMIT && GoodName(rules, above) && TICK in rules.nameChars && GoodPart(rules, last)
  {
    var name := above + [TICK] + last;
    PartsIn(rules, above, last);
    if GoodName(rules, name) { GoodIsParts(rules, above, last); }
    if |name| <= NAME_LIMIT && GoodName(rules, above) && TICK in rules.nameChars && GoodPart(rules, last) {
      PartsAreGood(rules, above, last);
    }
  }

  lemma PartsIn(rules: Rules, above: Text, last: Text)
    ensures var name := above + [TICK] + last;
            && |name| == |above| + 1 + |last| && name[|above|] == TICK
            && (forall i :: 0 <= i < |above| ==> name[i] == above[i])
            && (forall i :: 0 <= i < |last| ==> name[|above| + 1 + i] == last[i])
            && (forall i :: |above| < i < |name| ==> name[i] == last[i - |above| - 1])
            && name[0] == (if above == [] then TICK else above[0])
            && name[|name| - 1] == (if last == [] then TICK else last[|last| - 1])
  {
  }

  lemma GoodIsParts(rules: Rules, above: Text, last: Text)
    requires TICK !in last && GoodName(rules, above + [TICK] + last)
    ensures |above| + 1 + |last| <= NAME_LIMIT && GoodName(rules, above) && TICK in rules.nameChars && GoodPart(rules, last)
  {
    var name := above + [TICK] + last;
    PartsIn(rules, above, last);
    assert name[|above|] == TICK && name[|above| - 1] != TICK;
    forall i | 0 <= i < |last| ensures last[i] in rules.nameChars { assert name[|above| + 1 + i] in rules.nameChars; }
    forall i | 0 <= i < |above| ensures above[i] in rules.nameChars { assert name[i] in rules.nameChars; }
    forall i | 0 < i < |above| ensures above[i - 1] != TICK || above[i] != TICK { assert name[i - 1] != TICK || name[i] != TICK; }
  }

  lemma PartsAreGood(rules: Rules, above: Text, last: Text)
    requires |above| + 1 + |last| <= NAME_LIMIT && GoodName(rules, above) && TICK in rules.nameChars && GoodPart(rules, last)
    ensures GoodName(rules, above + [TICK] + last)
  {
    var name := above + [TICK] + last;
    PartsIn(rules, above, last);
    forall i | 0 < i < |name| ensures name[i - 1] != TICK || name[i] != TICK {
      if i < |above| { assert above[i - 1] != TICK || above[i] != TICK; }
    }
  }

  /** So every name that a good name is below is good. */
  lemma {:induction false} GoodAbove(rules: Rules, name: Text, r: Text)
    requires GoodName(rules, name) && Below(r, name)
    ensures GoodName(rules, r)
    decreases |name|
  {
    hide GoodName;
    var j := LastTick(name, |name|);
    var above, last := name[..j], name[j + 1..];
    RootsThroughParent(r, name);
    assert name == above + [TICK] + last;
    GoodNameParts(rules, above, last);
    if r != above { GoodAbove(rules, above, r); }
  }

  // ----- The forest

  /** Everything a name is below is there too. */
  ghost predicate Closed(m: Forest) {
    forall n, r :: n in m && Below(r, n) ==> r in m
  }

  ghost predicate HasBelow(m: Forest, n: Text) {
    exists d :: d in m && Below(n, d)
  }

  /** The root flag says which names have something below. */
  ghost predicate RootBits(m: Forest) {
    forall n :: n in m ==> (ROOT in m[n].flags <==> HasBelow(m, n))
  }

  ghost predicate WellFormed(m: Forest) {
    Closed(m) && RootBits(m)
  }

  ghost predicate HasChild(m: Forest, n: Text) {
    exists c :: c in m && ChildOf(n, c)
  }

  /** Every parent is there. */
  ghost predicate HasParents(m: Forest) {
    forall n :: n in m && LastTick(n, |n|) >= 0 ==> n[..LastTick(n, |n|)] in m
  }

  /** The same in terms of immediate parents and children. */
  lemma WellFormedByChildren(m: Forest)
    ensures Closed(m) <==> HasParents(m)
    ensures WellFormed(m) <==> HasParents(m) && forall n :: n in m ==> (ROOT in m[n].flags <==> HasChild(m, n))
  {
    hide Below, LastTick, ChildOf;
    ParentsSuffice(m);
    if Closed(m) {
      forall n ensures HasBelow(m, n) <==> HasChild(m, n) { ChildIsBelow(m, n); }
    }
  }

  lemma ChildIsBelow(m: Forest, n: Text)
    requires Closed(m)
    ensures HasBelow(m, n) <==> HasChild(m, n)
  {
    if HasBelow(m, n) {
      var d :| d in m && Below(n, d);
      var c := ChildAbove(m, n, d);
    }
    if HasChild(m, n) {
      var c :| c in m && ChildOf(n, c);
      assert Below(n, c);
    }
  }

  lemma ParentsSuffice(m: Forest)
    ensures Closed(m) <==> HasParents(m)
  {
    if HasParents(m) {
      forall n, r | n in m && Below(r, n) ensures r in m { ParentsReach(m, n, r); }
    }
    if Closed(m) {
      forall n | n in m && LastTick(n, |n|) >= 0 ensures n[..LastTick(n, |n|)] in m {
        assert Below(n[..LastTick(n, |n|)], n);
      }
    }
  }

  lemma {:induction false} ParentsReach(m: Forest, n: Text, r: Text)
    requires HasParents(m) && n in m && Below(r, n)
    ensures r in m
    decreases |n|
  {
    RootsThroughParent(r, n);
    var parent := n[..LastTick(n, |n|)];
    if r != parent { ParentsReach(m, parent, r); }
  }

  lemma {:induction false} ChildAbove(m: Forest, n: Text, d: Text) returns (c: Text)
    requires Closed(m) && d in m && Below(n, d)
    ensures c in m && ChildOf(n, c)
    decreases |d|
  {
    RootsThroughParent(n, d);
    var parent := d[..LastTick(d, |d|)];
    if parent == n { c := d; } else { c := ChildAbove(m, n, parent); }
  }

  // ----- Permissions

  predicate CannotWriteThis(p: Player, a: Attr, safe: bool) {
    p.self != GOD
    && (INTERNAL in a.flags || (safe && SAFE in a.flags)
        || !(p.wizard || (WIZARD !in a.flags && (LOCKED !in a.flags || a.creator == p.owner))))
  }

  /** Neither the attribute nor any that it is below keeps the player from
      writing to it. */
  predicate CanWrite(m: Forest, p: Player, n: Text, safe: bool)
    requires n in m
  {
    !CannotWriteThis(p, m[n], safe) && forall r :: r in Roots(n, |n|) ==> r in m && !CannotWriteThis(p, m[r], safe)
  }

  lemma RootsBelowAll(name: Text)
    ensures forall n :: n in Roots(name, |name|) <==> Below(n, name)
    ensures !Below(name, name)
  {
    forall n ensures n in Roots(name, |name|) <==> Below(n, name) { RootsBelow(name, n); }
  }

  predicate Open(p: Player, a: Attr, safe: bool) {
    && INTERNAL !in a.flags && (safe ==> SAFE !in a.flags)
    && (p.wizard || (WIZARD !in a.flags && (LOCKED in a.flags ==> a.creator == p.owner)))
  }

  /** God may write to everything; a wizard to what is neither internal nor, if
      that counts, safe, and is below nothing that is; anyone else besides only
      to what wizards have not kept and others have not locked, all the way up. */
  lemma WhoMayWrite(m: Forest, p: Player, n: Text, safe: bool)
    requires Closed(m) && n in m
    ensures CanWrite(m, p, n, safe) <==> p.self == GOD || forall a :: a in m && (a == n || Below(a, n)) ==> Open(p, m[a], safe)
  {
    RootsBelowAll(n);
    hide Roots, Below;
  }

  /** Who cannot write to an attribute cannot write to anything below it. */
  lemma CannotWriteBelow(m: Forest, p: Player, n: Text, d: Text, safe: bool)
    requires n in m && d in m && Below(n, d) && CanWrite(m, p, d, safe)
    ensures CanWrite(m, p, n, safe)
  {
    RootsBelow(d, n);
    forall r | r in Roots(n, |n|) ensures r in m && !CannotWriteThis(p, m[r], safe) {
      RootsBelow(n, r);
      BelowTransitive(r, n, d);
      RootsBelow(d, r);
    }
  }

  // ----- Creating

  function DefaultFlags(rules: Rules, name: Text, flags: Flags): Flags {
    if name in rules.std then rules.std[name] + flags else flags
  }

  /** The attribute at `r`, or as it would be made for one below it. */
  function AttrAt(m: Forest, rules: Rules, p: Player, flags: Flags, r: Text): Attr {
    if r in m then m[r] else Attr(DefaultFlags(rules, r, flags), p.owner, [])
  }

  predicate MayBranch(p: Player, a: Attr) {
    (NODUMP !in a.flags || p.self == GOD) && !CannotWriteThis(p, a, true)
  }

  /** The names that have to be created first. */
  function Missing(m: Forest, name: Text): set<Text> {
    Roots(name, |name|) - m.Keys
  }

  /** Whether a new attribute may be created. */
  function CanCreate(m: Forest, rules: Rules, p: Player, name: Text, flags: Flags): Outcome {
    if CannotWriteThis(p, Attr(DefaultFlags(rules, name, flags), p.self, []), true) then ERROR
    else if exists r :: r in Roots(name, |name|) && !MayBranch(p, AttrAt(m, rules, p, flags, r)) then ERROR
    else if |m| + |Missing(m, name)| + 1 > rules.limit then TOOMANY
    else OKAY
  }

  /** An unescaped colon from `i` on. */
  predicate HasColon(s: Text, i: nat)
    decreases |s| - i
  {
    i < |s| && if s[i] == '\\' as int && i + 1 < |s| then HasColon(s, i + 2) else s[i] == ':' as int || HasColon(s, i + 1)
  }

  /** How many backslashes are right before place `i`, from `k` on. */
  function Slashes(s: Text, k: nat, i: nat): nat
    requires k <= i <= |s|
  {
    if i == k || s[i - 1] != '\\' as int then 0 else 1 + Slashes(s, k, i - 1)
  }

  /** A colon that an even number of backslashes comes right before, be it none. */
  ghost predicate BareColon(s: Text, k: nat) {
    exists i: nat :: k <= i < |s| && s[i] == ':' as int && Slashes(s, k, i) % 2 == 0
  }

  lemma {:induction false} HasColonMeans(s: Text, k: nat)
    requires k <= |s|
    ensures HasColon(s, k) <==> BareColon(s, k)
    decreases |s| - k
  {
    if k < |s| {
      var next := if s[k] == '\\' as int && k + 1 < |s| then k + 2 else k + 1;
      HasColonMeans(s, next);
      if BareColon(s, k) {
        var i: nat :| k <= i < |s| && s[i] == ':' as int && Slashes(s, k, i) % 2 == 0;
        if k + 1 < |s| { SlashesOne(s, k); }
        if i >= next { SlashesFrom(s, k, next, i); }
      }
      if HasColon(s, k) && !(next == k + 1 && s[k] == ':' as int) {
        var i: nat :| next <= i < |s| && s[i] == ':' as int && Slashes(s, next, i) % 2 == 0;
        SlashesFrom(s, k, next, i);
      }
      assert Slashes(s, k, k) == 0;
    }
  }

  lemma SlashesOne(s: Text, k: nat)
    requires k + 1 < |s|
    ensures Slashes(s, k, k + 1) == if s[k] == '\\' as int then 1 else 0
  {
  }

  lemma {:induction false} SlashesFrom(s: Text, k: nat, next: nat, i: nat)
    requires k < next <= i < |s| && next == if s[k] == '\\' as int && k + 1 < |s| then k + 2 else k + 1
    ensures Slashes(s, k, i) % 2 == Slashes(s, next, i) % 2
    decreases i
  {
    if i > next {
      if s[i - 1] == '\\' as int { SlashesFrom(s, k, next, i - 1); }
    } else {
      SlashesOne(s, k);
      assert next == k + 2 ==> Slashes(s, k, k + 2) == if s[k + 1] != '\\' as int then 0 else 1 + Slashes(s, k, k + 1);
    }
  }

  /** The flags that a value gives its attribute. */
  function PatternFlags(s: Text): Flags {
    if s != [] && s[0] == '$' as int && HasColon(s, 0) then {COMMAND}
    else if s != [] && s[0] == '^' as int && HasColon(s, 0) then {LISTEN}
    else {}
  }

  /** An attribute that had `flags`, after `p` has set it to `s`. */
  function SetBy(p: Player, flags: Flags, s: Text): Attr {
    Attr(flags - {COMMAND, LISTEN} + PatternFlags(s), p.owner, s)
  }

  function NewRoot(rules: Rules, p: Player, flags: Flags, r: Text): Attr {
    Attr(DefaultFlags(rules, r, flags) - {COMMAND, LISTEN} + {ROOT}, p.owner, if rules.emptyAttrs then [] else [' ' as int])
  }

  /** The forest with all of `roots` in it, marked as roots. */
  function WithRoots(m: Forest, rules: Rules, p: Player, flags: Flags, roots: set<Text>): Forest {
    map n | n in m.Keys + roots ::
      if n !in roots then m[n] else if n in m then m[n].(flags := m[n].flags + {ROOT}) else NewRoot(rules, p, flags, n)
  }

  /** The forest after a new attribute has been created. */
  function Created(m: Forest, rules: Rules, p: Player, name: Text, s: Text, flags: Flags): Forest {
    WithRoots(m, rules, p, flags, Roots(name, |name|))[name := SetBy(p, DefaultFlags(rules, name, flags), s)]
  }

  lemma CreatedKeys(m: Forest, rules: Rules, p: Player, name: Text, s: Text, flags: Flags)
    requires name !in m
    ensures Created(m, rules, p, name, s, flags).Keys == m.Keys + Missing(m, name) + {name}
    ensures |Created(m, rules, p, name, s, flags)| == |m| + |Missing(m, name)| + 1
  {
    RootsBelow(name, name);
    hide Roots, DefaultFlags;
    CreatedDomain(m, rules, p, name, s, flags);
    hide Created, Missing;
    SizeApart(m.Keys, Missing(m, name), name);
    var m' := Created(m, rules, p, name, s, flags);
    assert |m'| == |m'.Keys| && |m| == |m.Keys|;
  }

  lemma CreatedDomain(m: Forest, rules: Rules, p: Player, name: Text, s: Text, flags: Flags)
    ensures Created(m, rules, p, name, s, flags).Keys == m.Keys + Missing(m, name) + {name}
    ensures m.Keys !! Missing(m, name) && Missing(m, name) <= Roots(name, |name|)
  {
    hide Roots, SetBy, NewRoot, DefaultFlags;
  }

  lemma SizeApart(a: set<Text>, b: set<Text>, x: Text)
    requires a !! b && x !in a && x !in b
    ensures |a + b + {x}| == |a| + |b| + 1
  {
  }

  lemma CreatedClosed(m: Forest, rules: Rules, p: Player, name: Text, s: Text, flags: Flags)
    requires Closed(m) && name !in m
    ensures Closed(Created(m, rules, p, name, s, flags))
  {
    var m' := Created(m, rules, p, name, s, flags);
    CreatedKeys(m, rules, p, name, s, flags);
    forall n, r | n in m' && Below(r, n) ensures r in m' {
      if n !in m {
        RootsBelow(name, n);
        if n != name { BelowTransitive(r, n, name); }
        RootsBelow(name, r);
      }
    }
  }

  /** What is below a name after the creation: what was, and, if the name is one
      the new one is below, the new one. */
  lemma CreatedBelow(m: Forest, rules: Rules, p: Player, name: Text, s: Text, flags: Flags, n: Text)
    requires Closed(m) && name !in m
    ensures HasBelow(Created(m, rules, p, name, s, flags), n) <==> HasBelow(m, n) || Below(n, name)
  {
    var m' := Created(m, rules, p, name, s, flags);
    CreatedKeys(m, rules, p, name, s, flags);
    if HasBelow(m', n) {
      var d :| d in m' && Below(n, d);
      RootsBelow(name, d);
      if d in Missing(m, name) { BelowTransitive(n, d, name); }
    }
    if HasBelow(m, n) {
      var d :| d in m && Below(n, d);
      assert d in m';
    }
    if Below(n, name) { assert name in m'; }
  }

  /** Creating an attribute keeps the forest in order, if and only if its own
      flags do not say that it is a root. */
  lemma CreatedWellFormed(m: Forest, rules: Rules, p: Player, name: Text, s: Text, flags: Flags)
    requires WellFormed(m) && name !in m
    ensures WellFormed(Created(m, rules, p, name, s, flags)) <==> ROOT !in DefaultFlags(rules, name, flags)
  {
    hide Created, Closed, HasBelow, Below, Missing, DefaultFlags;
    var m' := Created(m, rules, p, name, s, flags);
    CreatedKeys(m, rules, p, name, s, flags);
    CreatedClosed(m, rules, p, name, s, flags);
    NewNameBare(m, name);
    CreatedBelow(m, rules, p, name, s, flags, name);
    CreatedItself(m, rules, p, name, s, flags);
    forall n | n in m' && n != name ensures ROOT in m'[n].flags <==> HasBelow(m', n) {
      CreatedBelow(m, rules, p, name, s, flags, n);
      CreatedRoots(m, rules, p, name, s, flags, n);
    }
  }

  lemma CreatedItself(m: Forest, rules: Rules, p: Player, name: Text, s: Text, flags: Flags)
    ensures var m' := Created(m, rules, p, name, s, flags);
            name in m' && (ROOT in m'[name].flags <==> ROOT in DefaultFlags(rules, name, flags))
  {
  }

  lemma NewNameBare(m: Forest, name: Text)
    requires Closed(m) && name !in m
    ensures !HasBelow(m, name) && !Below(name, name)
  {
  }

  lemma CreatedRoots(m: Forest, rules: Rules, p: Player, name: Text, s: Text, flags: Flags, n: Text)
    requires WellFormed(m) && name !in m && n != name && n in Created(m, rules, p, name, s, flags)
    ensures ROOT in Created(m, rules, p, name, s, flags)[n].flags <==> (Below(n, name) || HasBelow(m, n))
  {
    hide HasBelow, Below;
    CreatedKeys(m, rules, p, name, s, flags);
    RootsBelow(name, n);
  }

  // ----- Removing

  /** Something at or below `n` cannot be written to. */
  ghost predicate Blocked(m: Forest, p: Player, n: Text) {
    exists b :: AtOrBelow(n, b) && b in m && !CanWrite(m, p, b, true)
  }

  predicate AtOrBelow(root: Text, n: Text) {
    n == root || Below(root, n)
  }

  /** The forest without what is below `name` and can be removed. */
  ghost function ClearedBelow(m: Forest, p: Player, name: Text): Forest {
    map n | n in m && (Below(name, n) ==> Blocked(m, p, n)) :: m[n]
  }

  /** The parent of `name` is marked as a root only if it still is one. */
  ghost function Unrooted(m: Forest, name: Text): Forest {
    var j := LastTick(name, |name|);
    if j >= 0 && name[..j] in m && !HasBelow(m, name[..j])
    then m[name[..j] := m[name[..j]].(flags := m[name[..j]].flags - {ROOT})] else m
  }

  datatype Change = Change(outcome: Outcome, forest: Forest)

  /** `real_atr_clr`. */
  ghost function Removed(m: Forest, p: Player, name: Text, wiping: bool): Change {
    if name !in m then Change(NOTFOUND, m)
    else if SAFE in m[name].flags then Change(IS_SAFE, m)
    else if !CanWrite(m, p, name, true) then Change(ERROR, m)
    else if ROOT in m[name].flags && !wiping then Change(TREE, m)
    else
      var left := ClearedBelow(m, p, name);
      if HasBelow(left, name) then Change(TREE, left) else Change(OKAY, Unrooted(left - {name}, name))
  }

  lemma BlockedBelow(m: Forest, p: Player, n: Text)
    requires Closed(m) && n in m && !CanWrite(m, p, n, true)
    ensures forall d :: d in m && AtOrBelow(n, d) ==> Blocked(m, p, d)
  {
    forall d | d in m && AtOrBelow(n, d) ensures Blocked(m, p, d) {
      if d != n && CanWrite(m, p, d, true) { CannotWriteBelow(m, p, n, d, true); }
      assert AtOrBelow(d, d);
    }
  }

  lemma BlockedAbove(m: Forest, p: Player, n: Text, r: Text)
    requires Blocked(m, p, n) && Below(r, n)
    ensures Blocked(m, p, r)
  {
    var b :| AtOrBelow(n, b) && b in m && !CanWrite(m, p, b, true);
    if b != n { BelowTransitive(r, n, b); }
    assert AtOrBelow(r, b);
  }

  lemma ClearedClosed(m: Forest, p: Player, name: Text)
    requires Closed(m)
    ensures Closed(ClearedBelow(m, p, name))
  {
    var left := ClearedBelow(m, p, name);
    forall n, r | n in left && Below(r, n) ensures r in left {
      if Below(name, r) {
        BelowTransitive(name, r, n);
        BlockedAbove(m, p, n, r);
      }
    }
  }

  /** A name that is left, other than `name` and those it is below, has
      something below it if and only if it had. */
  lemma ClearedBits(m: Forest, p: Player, name: Text, n: Text)
    requires Closed(m) && n in ClearedBelow(m, p, name) && name in m
    requires n != name && !Below(n, name)
    ensures HasBelow(ClearedBelow(m, p, name), n) <==> HasBelow(m, n)
  {
    var left := ClearedBelow(m, p, name);
    if HasBelow(m, n) {
      var d :| d in m && Below(n, d);
      if Below(name, n) {
        var b :| AtOrBelow(n, b) && b in m && !CanWrite(m, p, b, true);
        BlockedBelow(m, p, b);
        if b == n {
          assert Blocked(m, p, d);
          assert d in left;
        } else {
          BelowTransitive(name, n, b);
          assert AtOrBelow(b, b);
          assert b in left && Below(n, b);
        }
      } else {
        if Below(name, d) { BelowLinear(n, name, d); }
        assert d in left;
      }
    }
    if HasBelow(left, n) {
      var d :| d in left && Below(n, d);
      assert d in m;
    }
  }

  /** Something is left below `name` if and only if it is not all writable. */
  lemma ClearedAll(m: Forest, p: Player, name: Text)
    requires Closed(m) && name in m && CanWrite(m, p, name, true)
    ensures HasBelow(ClearedBelow(m, p, name), name) <==> Blocked(m, p, name)
  {
    var left := ClearedBelow(m, p, name);
    if Blocked(m, p, name) {
      var b :| AtOrBelow(name, b) && b in m && !CanWrite(m, p, b, true);
      assert AtOrBelow(b, b);
      assert Blocked(m, p, b);
      assert b in left && Below(name, b);
    }
    if HasBelow(left, name) {
      var d :| d in left && Below(name, d);
      BlockedAbove(m, p, d, name);
    }
  }

  /** Wiping `name`: of it and what is below it, exactly those names are left
      that have something at or below them that the player cannot write to; it
      succeeds if and only if none is left; and nothing else changes, but for
      the root flag of the parent. */
  lemma WipeCharacterised(m: Forest, p: Player, name: Text)
    requires WellFormed(m) && name in m && SAFE !in m[name].flags && CanWrite(m, p, name, true)
    ensures var r := Removed(m, p, name, true);
            && (forall n :: AtOrBelow(name, n) ==> (n in r.forest <==> n in m && Blocked(m, p, n)))
            && (r.outcome == OKAY <==> forall n :: AtOrBelow(name, n) ==> n !in r.forest)
            && (r.outcome != OKAY ==> r.outcome == TREE)
            && (forall n :: !AtOrBelow(name, n) ==> (n in r.forest <==> n in m))
            && (forall n :: n in r.forest && !ChildOf(n, name) ==> r.forest[n] == m[n])
            && (forall n :: n in r.forest ==> r.forest[n].(flags := r.forest[n].flags - {ROOT}) == m[n].(flags := m[n].flags - {ROOT}))
  {
    ClearedAll(m, p, name);
    ParentIs(name);
    var left := ClearedBelow(m, p, name);
    var r := Removed(m, p, name, true);
    assert AtOrBelow(name, name);
    if HasBelow(left, name) {
      assert r == Change(TREE, left) && name in left;
    } else {
      assert r.forest.Keys == left.Keys - {name};
      forall n | AtOrBelow(name, n) ensures n !in r.forest && !(n in m && Blocked(m, p, n)) {
        if n in m && Blocked(m, p, n) && n != name { BlockedAbove(m, p, n, name); }
      }
    }
  }

  /** Clearing `name` takes away it alone, and refuses if and only if there is
      something below it; nothing else changes, but for the root flag of the
      parent. */
  lemma ClearCharacterised(m: Forest, p: Player, name: Text)
    requires WellFormed(m) && name in m && SAFE !in m[name].flags && CanWrite(m, p, name, true)
    ensures var r := Removed(m, p, name, false);
            && (r.outcome == OKAY <==> !HasBelow(m, name))
            && (r.outcome != OKAY ==> r == Change(TREE, m))
            && (r.outcome == OKAY ==>
                  && r.forest.Keys == m.Keys - {name}
                  && (forall n :: n in r.forest && !ChildOf(n, name) ==> r.forest[n] == m[n])
                  && forall n :: n in r.forest && ChildOf(n, name) ==>
                       (r.forest[n] == m[n].(flags := m[n].flags - {ROOT}) || r.forest[n] == m[n]))
  {
    ParentIs(name);
    hide CanWrite, LastTick, ChildOf;
    if !HasBelow(m, name) { NothingToClear(m, p, name); }
  }

  lemma NothingToClear(m: Forest, p: Player, name: Text)
    requires !HasBelow(m, name)
    ensures ClearedBelow(m, p, name) == m
  {
    forall n | n in m ensures !Below(name, n) { }
    hide Blocked, Below;
  }

  /** A name that is not there, is safe, or is not to be written to stays as it
      is, and so does everything else, whether it is to be cleared or wiped. */
  lemma RemovalRefused(m: Forest, p: Player, name: Text, wiping: bool)
    requires name !in m || SAFE in m[name].flags || !CanWrite(m, p, name, true)
    ensures var r := Removed(m, p, name, wiping);
            && r.forest == m
            && (r.outcome == NOTFOUND <==> name !in m)
            && (r.outcome == IS_SAFE <==> name in m && SAFE in m[name].flags)
            && (r.outcome == ERROR <==> name in m && SAFE !in m[name].flags)
  {
  }

  /** The name that `Unrooted` looks at is the one `name` is a child of. */
  lemma ParentIs(name: Text)
    ensures LastTick(name, |name|) >= 0 ==> ChildOf(name[..LastTick(name, |name|)], name)
  {
  }

  lemma UnrootedKeeps(m: Forest, name: Text)
    requires Closed(m) && name !in m && !HasBelow(m, name)
    requires forall n :: n in m && !Below(n, name) ==> (ROOT in m[n].flags <==> HasBelow(m, n))
    requires forall n :: n in m && Below(n, name) ==> ROOT in m[n].flags
    requires forall r :: Below(r, name) ==> r in m
    ensures WellFormed(Unrooted(m, name))
  {
    var m', j := Unrooted(m, name), LastTick(name, |name|);
    assert m'.Keys == m.Keys;
    forall n ensures HasBelow(m', n) <==> HasBelow(m, n) {
      if HasBelow(m, n) { var d :| d in m && Below(n, d); assert d in m'; }
      if HasBelow(m', n) { var d :| d in m' && Below(n, d); assert d in m; }
    }
    forall n | n in m' && Below(n, name) ensures ROOT in m'[n].flags <==> HasBelow(m', n) {
      RootsThroughParent(n, name);
      assert name[..j] in m;
      if n != name[..j] { assert HasBelow(m, n); }
    }
  }

  /** Removing keeps the forest in order. */
  lemma RemovedWellFormed(m: Forest, p: Player, name: Text, wiping: bool)
    requires WellFormed(m)
    ensures WellFormed(Removed(m, p, name, wiping).forest)
    ensures Removed(m, p, name, wiping).forest.Keys <= m.Keys
  {
    if name in m && CanWrite(m, p, name, true) {
      var left := ClearedBelow(m, p, name);
      ClearedClosed(m, p, name);
      ClearedAll(m, p, name);
      forall n | n in left && n != name && !Below(n, name) ensures ROOT in left[n].flags <==> HasBelow(left, n) {
        ClearedBits(m, p, name, n);
      }
      if HasBelow(left, name) {
        forall n | n in left && AtOrBelow(n, name) ensures ROOT in left[n].flags <==> HasBelow(left, n) {
          assert HasBelow(left, n) by { if n != name { assert name in left; } }
          assert HasBelow(m, n) by { if n == name { var d :| d in left && Below(n, d); assert d in m; } }
        }
      } else {
        WithoutOne(m, left, name);
        UnrootedKeeps(left - {name}, name);
      }
    }
  }

  lemma WithoutOne(m: Forest, left: Forest, name: Text)
    requires WellFormed(m) && Closed(left) && name in left && !HasBelow(left, name)
    requires forall n :: n in left ==> n in m && left[n] == m[n]
    requires forall n :: n in left && n != name && !Below(n, name) ==> (ROOT in left[n].flags <==> HasBelow(left, n))
    ensures var rest := left - {name};
            && Closed(rest) && !HasBelow(rest, name)
            && (forall n :: n in rest && !Below(n, name) ==> (ROOT in rest[n].flags <==> HasBelow(rest, n)))
            && (forall n :: n in rest && Below(n, name) ==> ROOT in rest[n].flags)
            && (forall r :: Below(r, name) ==> r in rest)
  {
    var rest := left - {name};
    forall n, r | n in rest && Below(r, n) ensures r in rest { assert r in left; }
    forall n | n in rest && !Below(n, name) ensures ROOT in rest[n].flags <==> HasBelow(rest, n) {
      if HasBelow(left, n) { var d :| d in left && Below(n, d); assert d in rest; }
      if HasBelow(rest, n) { var d :| d in rest && Below(n, d); assert d in left; }
    }
    forall n | n in rest && Below(n, name) ensures ROOT in rest[n].flags { assert name in m; assert HasBelow(m, n); }
  }

  // ----- Adding

  /** `atr_add`: no value, or an empty one where that is not allowed, clears. */
  ghost function AtrAdd(m: Forest, rules: Rules, p: Player, name: Text, value: Option<Text>, flags: Flags): Change {
    if value.None? || (!rules.emptyAttrs && value.value == []) then Removed(m, p, name, false)
    else if !GoodName(rules, name) then Change(BADNAME, m)
    else if name in m then
      if SAFE in m[name].flags then Change(IS_SAFE, m)
      else if !CanWrite(m, p, name, true) then Change(ERROR, m)
      else Change(OKAY, m[name := SetBy(p, m[name].flags, value.value)])
    else
      var may := CanCreate(m, rules, p, name, flags);
      if may == OKAY then Change(OKAY, Created(m, rules, p, name, value.value, flags)) else Change(may, m)
  }

  /** Flags that callers give, and those of the standard attributes, are never
      those of a root. */
  ghost predicate PlainFlags(rules: Rules, flags: Flags) {
    ROOT !in flags && forall n :: n in rules.std ==> ROOT !in rules.std[n]
  }

  predicate Clears(rules: Rules, value: Option<Text>) {
    value.None? || (!rules.emptyAttrs && value.value == [])
  }

  /** What a name that had to be made for one below it starts with. */
  function Filler(rules: Rules): Text {
    if rules.emptyAttrs then [] else [' ' as int]
  }

  /** An attribute after its text has been set: the text as given, the setter for
      its creator, and the flags `had`, but for the two that the text decides. */
  ghost predicate Holds(a: Attr, p: Player, had: Flags, s: Text) {
    && a.data == s && a.creator == p.owner
    && a.flags - {COMMAND, LISTEN} == had - {COMMAND, LISTEN}
    && (COMMAND in a.flags <==> s != [] && s[0] == '$' as int && BareColon(s, 0))
    && (LISTEN in a.flags <==> s != [] && s[0] == '^' as int && BareColon(s, 0))
  }

  /** A forest in which the text of `name` has been set.  Any other attribute is
      as it was, but that the names above a new one are marked as roots, and
      nothing else is new but those of them that were missing. */
  ghost predicate StoredIn(m: Forest, rules: Rules, p: Player, name: Text, s: Text, flags: Flags, m': Forest) {
    && name in m'
    && Holds(m'[name], p, if name in m then m[name].flags else DefaultFlags(rules, name, flags), s)
    && (forall n :: n in m && n != name ==>
          n in m' && m'[n] == if name !in m && Below(n, name) then m[n].(flags := m[n].flags + {ROOT}) else m[n])
    && (forall n :: n in m' && n !in m && n != name ==>
          && name !in m && Below(n, name) && ROOT in m'[n].flags && m'[n].creator == p.owner && m'[n].data == Filler(rules))
    && (name !in m ==> forall n :: Below(n, name) ==> n in m')
  }

  /** Adding an attribute either changes nothing or stores the text. */
  lemma AtrAddStores(m: Forest, rules: Rules, p: Player, name: Text, value: Option<Text>, flags: Flags)
    requires !Clears(rules, value)
    ensures var r := AtrAdd(m, rules, p, name, value, flags);
            if r.outcome == OKAY then StoredIn(m, rules, p, name, value.value, flags, r.forest) else r.forest == m
  {
    hide CanWrite, CanCreate, GoodName, Removed, Created, SetBy, StoredIn;
    if name in m { SetStores(m, rules, p, name, value.value, flags); } else { CreatedStores(m, rules, p, name, value.value, flags); }
  }

  lemma SetStores(m: Forest, rules: Rules, p: Player, name: Text, s: Text, flags: Flags)
    requires name in m
    ensures StoredIn(m, rules, p, name, s, flags, m[name := SetBy(p, m[name].flags, s)])
  {
    SetHolds(p, m[name].flags, s);
    hide Holds, SetBy, Below;
  }

  lemma CreatedStores(m: Forest, rules: Rules, p: Player, name: Text, s: Text, flags: Flags)
    requires name !in m
    ensures StoredIn(m, rules, p, name, s, flags, Created(m, rules, p, name, s, flags))
  {
    RootsBelowAll(name);
    SetHolds(p, DefaultFlags(rules, name, flags), s);
    hide Holds, SetBy, Below, DefaultFlags, Roots;
  }

  lemma SetHolds(p: Player, had: Flags, s: Text)
    ensures Holds(SetBy(p, had, s), p, had, s)
  {
    HasColonMeans(s, 0);
    hide HasColon, BareColon;
  }

  /** When it does: for a good name, if it is there and may be written to, or if
      it may be created and the object stays within its limit. */
  lemma AtrAddOutcome(m: Forest, rules: Rules, p: Player, name: Text, value: Option<Text>, flags: Flags)
    requires !Clears(rules, value)
    ensures var r, a := AtrAdd(m, rules, p, name, value, flags), Attr(DefaultFlags(rules, name, flags), p.self, []);
            && (r.outcome == BADNAME <==> !GoodName(rules, name))
            && (name in m && GoodName(rules, name) ==>
                  && (r.outcome == OKAY <==> SAFE !in m[name].flags && CanWrite(m, p, name, true))
                  && (r.outcome == IS_SAFE <==> SAFE in m[name].flags) && r.outcome in {OKAY, IS_SAFE, ERROR})
            && (name !in m && GoodName(rules, name) ==>
                  && r.outcome in {OKAY, TOOMANY, ERROR}
                  && (r.outcome == OKAY ==> |r.forest| <= rules.limit)
                  && (r.outcome == TOOMANY ==> |Created(m, rules, p, name, value.value, flags)| > rules.limit)
                  && (r.outcome != ERROR <==>
                        p.self == GOD || (Open(p, a, true) && forall b :: Below(b, name) ==> Branches(p, AttrAt(m, rules, p, flags, b)))))
  {
    hide CanCreate, Open, Branches, AttrAt, DefaultFlags, Roots, Below, GoodName, CanWrite, Removed, Created, Missing;
    if name !in m { CreateOutcome(m, rules, p, name, value.value, flags); }
  }

  /** Everyone but God may only have something below what is saved with the
      database and may be written to. */
  predicate Branches(p: Player, a: Attr) {
    NODUMP !in a.flags && Open(p, a, true)
  }

  lemma OpenMeans(p: Player, a: Attr)
    ensures !CannotWriteThis(p, a, true) <==> p.self == GOD || Open(p, a, true)
    ensures MayBranch(p, a) <==> p.self == GOD || Branches(p, a)
  {
  }

  lemma CreateOutcome(m: Forest, rules: Rules, p: Player, name: Text, s: Text, flags: Flags)
    requires name !in m
    ensures var may, a := CanCreate(m, rules, p, name, flags), Attr(DefaultFlags(rules, name, flags), p.self, []);
            && may in {OKAY, TOOMANY, ERROR}
            && (may == OKAY ==> |Created(m, rules, p, name, s, flags)| <= rules.limit)
            && (may == TOOMANY ==> |Created(m, rules, p, name, s, flags)| > rules.limit)
            && (may != ERROR <==>
                  p.self == GOD || (Open(p, a, true) && forall b :: Below(b, name) ==> Branches(p, AttrAt(m, rules, p, flags, b))))
  {
    hide *;
    var a := Attr(DefaultFlags(rules, name, flags), p.self, []);
    CreateAllowed(m, rules, p, name, s, flags);
    OpenMeans(p, a);
    forall b ensures MayBranch(p, AttrAt(m, rules, p, flags, b)) <==> p.self == GOD || Branches(p, AttrAt(m, rules, p, flags, b)) {
      OpenMeans(p, AttrAt(m, rules, p, flags, b));
    }
  }

  lemma CreateAllowed(m: Forest, rules: Rules, p: Player, name: Text, s: Text, flags: Flags)
    requires name !in m
    ensures var may, a := CanCreate(m, rules, p, name, flags), Attr(DefaultFlags(rules, name, flags), p.self, []);
            && may in {OKAY, TOOMANY, ERROR}
            && (may == OKAY ==> |Created(m, rules, p, name, s, flags)| <= rules.limit)
            && (may == TOOMANY ==> |Created(m, rules, p, name, s, flags)| > rules.limit)
            && (may != ERROR <==>
                  !CannotWriteThis(p, a, true) && forall b :: Below(b, name) ==> MayBranch(p, AttrAt(m, rules, p, flags, b)))
  {
    hide CannotWriteThis, MayBranch, AttrAt, DefaultFlags, Roots, Below, Created, Missing;
    RootsBelowAll(name);
    CreatedKeys(m, rules, p, name, s, flags);
  }

  lemma AtrAddKeeps(m: Forest, rules: Rules, p: Player, name: Text, value: Option<Text>, flags: Flags)
    requires WellFormed(m) && PlainFlags(rules, flags)
    ensures var m' := AtrAdd(m, rules, p, name, value, flags).forest;
            WellFormed(m') && (|m'| <= |m| || |m'| <= rules.limit)
  {
    RemovedWellFormed(m, p, name, false);
    FewerKeys(Removed(m, p, name, false).forest, m);
    if value.Some? && name in m { Overwritten(m, p, name, value.value); }
    if value.Some? && name !in m { CreatedOkay(m, rules, p, name, value.value, flags); }
    hide WellFormed, Removed, Created, SetBy, CanWrite, GoodName, CanCreate;
  }

  lemma CreatedOkay(m: Forest, rules: Rules, p: Player, name: Text, s: Text, flags: Flags)
    requires WellFormed(m) && PlainFlags(rules, flags) && name !in m
    ensures WellFormed(Created(m, rules, p, name, s, flags))
    ensures CanCreate(m, rules, p, name, flags) == OKAY ==> |Created(m, rules, p, name, s, flags)| <= rules.limit
  {
    CreatedWellFormed(m, rules, p, name, s, flags);
    CreatedKeys(m, rules, p, name, s, flags);
    hide WellFormed, Created, Missing, CannotWriteThis, MayBranch;
    MayCreate(m, rules, p, name, flags);
    hide CanCreate;
  }

  lemma MayCreate(m: Forest, rules: Rules, p: Player, name: Text, flags: Flags)
    ensures CanCreate(m, rules, p, name, flags) == OKAY ==> |m| + |Missing(m, name)| + 1 <= rules.limit
  {
    hide Missing, CannotWriteThis, MayBranch, AttrAt, DefaultFlags, Roots;
  }

  lemma FewerKeys(a: Forest, b: Forest)
    requires a.Keys <= b.Keys
    ensures |a| <= |b|
  {
    assert |b.Keys| == |a.Keys| + |b.Keys - a.Keys| by { assert b.Keys == a.Keys + (b.Keys - a.Keys); }
    assert |a| == |a.Keys| && |b| == |b.Keys|;
  }

  lemma Overwritten(m: Forest, p: Player, name: Text, s: Text)
    requires WellFormed(m) && name in m
    ensures var m' := m[name := SetBy(p, m[name].flags, s)]; WellFormed(m') && |m'| == |m|
  {
    var m' := m[name := SetBy(p, m[name].flags, s)];
    assert m'.Keys == m.Keys && |m'| == |m'.Keys| && |m| == |m.Keys|;
    forall n ensures HasBelow(m', n) <==> HasBelow(m, n) {
      if HasBelow(m, n) { var d :| d in m && Below(n, d); assert d in m'; }
      if HasBelow(m', n) { var d :| d in m' && Below(n, d); assert d in m; }
    }
  }
}
