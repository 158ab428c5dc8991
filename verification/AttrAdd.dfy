/** Adding an attribute, with all that has to be above it. */
module AttrAdd {
  import opened Bytes
  import opened AttrNames
  import opened AttrForest
  import opened AttrStore
  import opened AttrAccess
  import opened AttrWipe

  lemma WithRootsNone(m: Forest, rules: Rules, p: Player, flags: Flags, name: Text)
    ensures WithRoots(m, rules, p, flags, Roots(name, 0)) == m
  {
  }

  lemma WithRootsNext(m: Forest, rules: Rules, p: Player, flags: Flags, roots: set<Text>, r: Text)
    requires r !in roots
    ensures var m' := WithRoots(m, rules, p, flags, roots);
            && (r in m' <==> r in m)
            && (r in m ==> m'[r] == m[r] && WithRoots(m, rules, p, flags, roots + {r}) == m'[r := m[r].(flags := m[r].flags + {ROOT})])
            && (r !in m ==> WithRoots(m, rules, p, flags, roots + {r}) == m'[r := NewRoot(rules, p, flags, r)])
  {
  }

  /** Create what is missing above `name`, and mark all of it as roots. */
  method CreateRoots(al: AttrList, rules: Rules, p: Player, name: Text, flags: Flags)
    requires al.Valid()
    modifies al, al.list
    ensures al.Valid() && (al.list == old(al.list) || fresh(al.list))
    ensures al.Contents() == WithRoots(old(al.Contents()), rules, p, flags, Roots(name, |name|))
  {
    hide AttrList.Valid, AttrList.Contents, AttrList.Shaped, AttrList.Entries, WithRoots, Roots;
    ghost var m := al.Contents();
    var k := 0;
    WithRootsNone(m, rules, p, flags, name);
    while k < |name|
      invariant 0 <= k <= |name| && al.Valid() && (al.list == old(al.list) || fresh(al.list))
      invariant al.Contents() == WithRoots(m, rules, p, flags, Roots(name, k))
    {
      RootsNext(name, k);
      if name[k] == TICK {
        WithRootsNext(m, rules, p, flags, Roots(name, k), name[..k]);
        CreateRoot(al, rules, p, name[..k], flags);
      }
      k := k + 1;
    }
  }

  method CreateRoot(al: AttrList, rules: Rules, p: Player, r: Text, flags: Flags)
    requires al.Valid()
    modifies al, al.list
    ensures al.Valid() && (al.list == old(al.list) || fresh(al.list))
    ensures var m := old(al.Contents());
            al.Contents() == m[r := if r in m then m[r].(flags := m[r].flags + {ROOT}) else NewRoot(rules, p, flags, r)]
  {
    hide AttrList.Valid, AttrList.Contents, AttrList.Shaped, AttrList.Entries, AsForest, DefaultFlags;
    var root := al.FindAtrInList(r);
    if root == -1 {
      root := al.CreateAtr(r);
      var std := DefaultFlags(rules, r, flags) - {COMMAND, LISTEN} + {ROOT};
      al.SetAttr(root, Attr(std, p.owner, if rules.emptyAttrs then [] else [' ' as int]));
    } else {
      var a := al.list[root].value.attr;
      al.SetAttr(root, a.(flags := a.flags + {ROOT}));
    }
  }

  /** Add an attribute, or change the one there is. */
  method AtrAddTo(al: AttrList, rules: Rules, p: Player, name: Text, s: Option<Text>,
          flags: Flags) returns (res: Outcome)
    requires al.Valid() && WellFormed(al.Contents())
    modifies al, al.list
    ensures al.Valid() && (al.list == old(al.list) || fresh(al.list))
    ensures Change(res, al.Contents()) == AtrAdd(old(al.Contents()), rules, p, name, s, flags)
  {
    hide AttrList.Valid, AttrList.Contents, AttrList.Shaped, AttrList.Entries;
    hide Removed, CanCreate, CanWrite, WithRoots, GoodName, Closed, RootBits, AsForest, DefaultFlags, Roots, SetBy;
    if s.None? || (!rules.emptyAttrs && s.value == []) {
      res := RealAtrClr(al, name, p, false);
      return;
    }
    var good := GoodAtrName(rules, name);
    if !good {
      return BADNAME;
    }
    var ptr := al.FindAtrInList(name);
    if ptr != -1 {
      if SAFE in al.list[ptr].value.attr.flags {
        return IS_SAFE;
      }
      var can := CanWriteAttr(al, p, ptr, true);
      if !can {
        return ERROR;
      }
    }
    ghost var m := al.Contents();
    if ptr == -1 {
      var may, numNew := CanCreateAttr(al, rules, p, name, flags);
      if may != OKAY {
        return may;
      }
      ptr := NewAttr(al, rules, p, name, flags);
    }
    SetValue(al, ptr, p, s.value);
    return OKAY;
  }

  /** Create an attribute and all that has to be above it. */
  method NewAttr(al: AttrList, rules: Rules, p: Player, name: Text, flags: Flags) returns (ptr: nat)
    requires al.Valid() && name !in al.Contents()
    modifies al, al.list
    ensures al.Valid() && (al.list == old(al.list) || fresh(al.list))
    ensures ptr < al.count && al.Entries()[ptr].name == name && al.Entries()[ptr].attr.flags == DefaultFlags(rules, name, flags)
    ensures al.Contents() == WithRoots(old(al.Contents()), rules, p, flags, Roots(name, |name|))[name := al.Entries()[ptr].attr]
  {
    hide AttrList.Valid, AttrList.Contents, AttrList.Shaped, AttrList.Entries, WithRoots, Roots, DefaultFlags, AsForest;
    NameNotRoot(al.Contents(), rules, p, flags, name);
    CreateRoots(al, rules, p, name, flags);
    ptr := al.CreateAtr(name);
    al.SetAttr(ptr, al.list[ptr].value.attr.(flags := DefaultFlags(rules, name, flags)));
  }

  lemma NameNotRoot(m: Forest, rules: Rules, p: Player, flags: Flags, name: Text)
    requires name !in m
    ensures name !in WithRoots(m, rules, p, flags, Roots(name, |name|))
  {
    RootsBelow(name, name);
  }

  /** Make the attribute the player's, with a new value. */
  method SetValue(al: AttrList, ptr: nat, p: Player, s: Text)
    requires al.Valid() && ptr < al.count
    modifies al.list
    ensures al.Valid()
    ensures var e := old(al.Entries())[ptr]; al.Contents() == old(al.Contents())[e.name := SetBy(p, e.attr.flags, s)]
  {
    hide AttrList.Valid, AttrList.Contents, AttrList.Shaped, AttrList.Entries;
    var a := al.list[ptr].value.attr.(creator := p.owner);
    a := a.(flags := a.flags - {COMMAND, LISTEN});
    a := a.(data := s);
    if s != [] {
      var more := SetCmdFlags(s);
      a := a.(flags := a.flags + more);
    }
    assert a == SetBy(p, al.Entries()[ptr].attr.flags, s);
    al.SetAttr(ptr, a);
  }
}
