/** Good names, and who may write to an attribute or create one: the walk along
    everything that a name is below. */
module AttrAccess {
  import opened Bytes
  import opened AttrNames
  import opened AttrForest
  import opened AttrStore

  method GoodAtrName(rules: Rules, s: Text) returns (good: bool)
    ensures good == GoodName(rules, s)
  {
    if s == [] || s[0] == TICK {
      return false;
    }
    var a := 0;
    while a < |s|
      invariant 0 <= a <= |s| && forall i :: 0 <= i < a ==> s[i] in rules.nameChars
      invariant forall i :: 0 < i <= a && i < |s| ==> s[i - 1] != TICK || s[i] != TICK
    {
      if s[a] !in rules.nameChars {
        return false;
      }
      if s[a] == TICK && a + 1 < |s| && s[a + 1] == TICK {
        assert s[a + 1 - 1] == TICK;
        return false;
      }
      a := a + 1;
    }
    return s[|s| - 1] != TICK && |s| <= NAME_LIMIT;
  }

  /** The flags that a value gives its attribute. */
  method SetCmdFlags(s: Text) returns (flags: Flags)
    ensures flags == PatternFlags(s)
  {
    flags := {};
    if s == [] || (s[0] != '^' as int && s[0] != '$' as int) {
      return;
    }
    var p := 0;
    while p < |s|
      invariant HasColon(s, 0) == HasColon(s, p)
    {
      if s[p] == '\\' as int && p + 1 < |s| {
        p := p + 1;
      } else if s[p] == ':' as int {
        return if s[0] == '^' as int then {LISTEN} else {COMMAND};
      }
      p := p + 1;
    }
  }

  /** Whether the player may write to the attribute at `i`. */
  method CanWriteAttr(al: AttrList, p: Player, i: nat, safe: bool) returns (can: bool)
    requires al.Valid() && i < al.count
    ensures al.Entries()[i].name in al.Contents()
    ensures can == CanWrite(al.Contents(), p, al.Entries()[i].name, safe)
  {
    hide AttrList.Valid, AttrList.Contents, AttrList.Shaped, AttrList.Entries, CannotWriteThis, Less, AsForest, Roots;
    al.EntryAt(i);
    if CannotWriteThis(p, al.list[i].value.attr, safe) {
      return false;
    }
    NoRootsYet(al.list[i].value.name);
    var name := al.list[i].value.name;
    var k := 0;
    while k < |name|
      invariant 0 <= k <= |name|
      invariant forall r :: r in Roots(name, k) ==> r in al.Contents() && !CannotWriteThis(p, al.Contents()[r], safe)
    {
      RootsNext(name, k);
      if name[k] == TICK {
        RootAt(name, k);
        var a := al.FindAtrInList(name[..k]);
        if a == -1 {
          return false;
        }
        if CannotWriteThis(p, al.list[a].value.attr, safe) {
          return false;
        }
      }
      k := k + 1;
    }
    return true;
  }

  /** Whether a new attribute may be created, counting all that would have to be
      created with it.  After the first name that is missing from the branch it
      does not look the others up. */
  method CanCreateAttr(al: AttrList, rules: Rules, p: Player, name: Text, flags: Flags) returns (res: Outcome,
          numNew: nat)
    requires al.Valid() && Closed(al.Contents())
    ensures res == CanCreate(al.Contents(), rules, p, name, flags)
    ensures res == OKAY || res == TOOMANY ==> numNew == |Missing(al.Contents(), name)| + 1
  {
    hide AttrList.Valid, AttrList.Contents, AttrList.Shaped, AttrList.Entries, Missing, MayBranch, CanCreate,
         CannotWriteThis, Closed, DefaultFlags, Less, AsForest, Roots, Counted, AttrAt;
    numNew := 1;
    ghost var m := al.Contents();
    CanCreateMeans(m, rules, p, name, flags);
    if CannotWriteThis(p, Attr(DefaultFlags(rules, name, flags), p.self, []), true) {
      return ERROR, numNew;
    }
    var tmp, k := false, 0;
    NoneCounted(m, rules, p, flags, name);
    while k < |name|
      invariant 0 <= k <= |name|
      invariant Counted(m, rules, p, flags, Roots(name, k), tmp, numNew)
    {
      RootsNext(name, k);
      if name[k] == TICK {
        RootAt(name, k);
        if tmp { SomeMissing(m, rules, p, flags, name, k, numNew); }
        ghost var was, before := tmp, numNew;
        var atr;
        tmp, atr := LookUp(al, rules, p, name[..k], flags, tmp);
        if tmp { numNew := numNew + 1; }
        MayBranchMeans(p, atr);
        if NODUMP in atr.flags && p.self != GOD {
          return ERROR, numNew;
        }
        if CannotWriteThis(p, atr, true) {
          return ERROR, numNew;
        }
        OneCounted(m, rules, p, flags, Roots(name, k), name[..k], was, tmp, before);
      }
      k := k + 1;
    }
    ForestSize(al.Entries());
    AllCounted(m, rules, p, flags, name, tmp, numNew);
    return (if al.count + numNew > rules.limit then TOOMANY else OKAY), numNew;
  }

  /** The attribute at `r`, or as it would be created, which it would be if one
      above it would. */
  method LookUp(al: AttrList, rules: Rules, p: Player, r: Text, flags: Flags, tmp0: bool) returns (tmp: bool, atr: Attr)
    requires al.Valid() && (tmp0 ==> r !in al.Contents())
    ensures tmp == (r !in al.Contents()) && atr == AttrAt(al.Contents(), rules, p, flags, r)
  {
    tmp, atr := tmp0, Attr(DefaultFlags(rules, r, flags), p.owner, []);
    if !tmp {
      var a := al.FindAtrInList(r);
      if a == -1 { tmp := true; } else { atr := al.list[a].value.attr; }
    }
  }

  /** With the names `rs` looked at: all may be branched from, and those that
      are missing have been counted. */
  ghost predicate Counted(m: Forest, rules: Rules, p: Player, flags: Flags, rs: set<Text>, tmp: bool, numNew: nat) {
    && (forall r :: r in rs ==> MayBranch(p, AttrAt(m, rules, p, flags, r)))
    && (tmp ==> exists r :: r in rs && r !in m) && (!tmp ==> rs <= m.Keys)
    && numNew == |rs - m.Keys| + 1
  }

  lemma NoneCounted(m: Forest, rules: Rules, p: Player, flags: Flags, name: Text)
    ensures Counted(m, rules, p, flags, Roots(name, 0), false, 1)
  {
    assert Roots(name, 0) == {} && {} - m.Keys == {};
  }

  lemma OneCounted(m: Forest, rules: Rules, p: Player, flags: Flags, rs: set<Text>, r: Text, was: bool,
          tmp: bool, numNew: nat)
    requires Counted(m, rules, p, flags, rs, was, numNew) && (was ==> tmp)
    requires r !in rs && tmp == (r !in m) && MayBranch(p, AttrAt(m, rules, p, flags, r))
    ensures Counted(m, rules, p, flags, rs + {r}, tmp, if tmp then numNew + 1 else numNew)
  {
    hide MayBranch, AttrAt, CannotWriteThis, DefaultFlags;
    CountOne(m.Keys, rs, r);
    assert tmp ==> r in rs + {r};
  }

  lemma CountOne(ks: set<Text>, rs: set<Text>, r: Text)
    requires r !in rs
    ensures |rs + {r} - ks| == |rs - ks| + if r in ks then 0 else 1
  {
    assert rs + {r} - ks == if r in ks then rs - ks else (rs - ks) + {r};
  }

  lemma SomeMissing(m: Forest, rules: Rules, p: Player, flags: Flags, name: Text, k: nat, numNew: nat)
    requires Closed(m) && k < |name| && name[k] == TICK && Counted(m, rules, p, flags, Roots(name, k), true, numNew)
    ensures name[..k] !in m
  {
    hide MayBranch, AttrAt, Closed, Roots;
    MissingOn(m, name, k);
  }

  lemma AllCounted(m: Forest, rules: Rules, p: Player, flags: Flags, name: Text, tmp: bool, numNew: nat)
    requires Counted(m, rules, p, flags, Roots(name, |name|), tmp, numNew)
    ensures numNew == |Missing(m, name)| + 1
    ensures forall r :: r in Roots(name, |name|) ==> MayBranch(p, AttrAt(m, rules, p, flags, r))
  {
    hide MayBranch, AttrAt, Roots;
  }

  lemma NoRootsYet(name: Text)
    ensures Roots(name, 0) == {}
  {
  }

  lemma RootAt(name: Text, k: nat)
    requires k < |name| && name[k] == TICK
    ensures name[..k] in Roots(name, |name|)
  {
  }

  lemma MayBranchMeans(p: Player, a: Attr)
    ensures MayBranch(p, a) <==> (NODUMP !in a.flags || p.self == GOD) && !CannotWriteThis(p, a, true)
  {
  }

  lemma CanCreateMeans(m: Forest, rules: Rules, p: Player, name: Text, flags: Flags)
    ensures var allowed := !CannotWriteThis(p, Attr(DefaultFlags(rules, name, flags), p.self, []), true)
                           && forall r :: r in Roots(name, |name|) ==> MayBranch(p, AttrAt(m, rules, p, flags, r));
            CanCreate(m, rules, p, name, flags) ==
              if !allowed then ERROR else if |m| + |Missing(m, name)| + 1 > rules.limit then TOOMANY else OKAY
  {
    hide CannotWriteThis, MayBranch, AttrAt, Missing, DefaultFlags, Roots;
  }

  /** Below a name that is missing everything is missing. */
  lemma MissingOn(m: Forest, name: Text, k: nat)
    requires Closed(m) && k < |name| && name[k] == TICK && exists r :: r in Roots(name, k) && r !in m
    ensures name[..k] !in m
  {
    var r :| r in Roots(name, k) && r !in m;
    assert Below(r, name[..k]) by {
      var j :| 0 <= j < k && name[j] == TICK && r == name[..j];
      assert name[..k][..j] == name[..j];
    }
  }
}
