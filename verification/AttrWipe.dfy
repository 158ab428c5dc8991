/** Clearing and wiping: a tree is taken out of the array while walking along
    it. */
module AttrWipe {
  import opened Bytes
  import opened AttrNames
  import opened AttrForest
  import opened AttrStore
  import opened AttrAccess

  /** What has something below it says so. */
  ghost predicate Flagged(m: Forest) {
    forall n :: n in m && HasBelow(m, n) ==> ROOT in m[n].flags
  }

  /** `m` is what is left of `m0` while it is being cleared below `name`. */
  ghost predicate Clearing(m0: Forest, m: Forest, p: Player, name: Text) {
    && (forall n :: n in m ==> n in m0 && m[n] == m0[n])
    && (forall n :: n in m0 && (Below(name, n) ==> Blocked(m0, p, n)) ==> n in m)
    && Closed(m) && Flagged(m)
  }

  /** While clearing, who may write to what does not change. */
  lemma ClearingSame(m0: Forest, m: Forest, p: Player, name: Text, n: Text)
    requires Closed(m0) && Clearing(m0, m, p, name) && n in m
    ensures CanWrite(m, p, n, true) == CanWrite(m0, p, n, true)
    ensures Below(name, n) ==> Blocked(m, p, n) == Blocked(m0, p, n)
  {
    SameCanWrite(m0, m, p, n);
    if Below(name, n) {
      if Blocked(m0, p, n) {
        var b :| AtOrBelow(n, b) && b in m0 && !CanWrite(m0, p, b, true);
        BlockedBelow(m0, p, b);
        assert AtOrBelow(b, b) && Blocked(m0, p, b);
        if b != n { BelowTransitive(name, n, b); }
        SameCanWrite(m0, m, p, b);
      }
      if Blocked(m, p, n) {
        var b :| AtOrBelow(n, b) && b in m && !CanWrite(m, p, b, true);
        SameCanWrite(m0, m, p, b);
      }
    }
  }

  lemma SameCanWrite(m0: Forest, m: Forest, p: Player, n: Text)
    requires Closed(m0) && Closed(m) && (forall k :: k in m ==> k in m0 && m[k] == m0[k]) && n in m
    ensures CanWrite(m, p, n, true) == CanWrite(m0, p, n, true)
  {
    forall r | r in Roots(n, |n|) ensures r in m && m[r] == m0[r] { RootsBelow(n, r); }
  }

  /** Clearing further, below something that is itself below. */
  lemma ClearingFurther(m0: Forest, m: Forest, p: Player, name: Text, sub: Text)
    requires Closed(m0) && Clearing(m0, m, p, name) && sub in m && Below(name, sub)
    ensures Clearing(m0, ClearedBelow(m, p, sub), p, name)
  {
    var m' := ClearedBelow(m, p, sub);
    ClearedClosed(m, p, sub);
    forall n | n in m0 && (Below(name, n) ==> Blocked(m0, p, n)) ensures n in m' {
      if Below(sub, n) {
        BelowTransitive(name, sub, n);
        ClearingSame(m0, m, p, name, n);
      }
    }
    forall n | n in m' && HasBelow(m', n) ensures ROOT in m'[n].flags {
      var d :| d in m' && Below(n, d);
      assert HasBelow(m, n);
    }
  }

  /** Taking away a name that can be written to and has nothing below it. */
  lemma ClearingOne(m0: Forest, m: Forest, p: Player, name: Text, sub: Text)
    requires Closed(m0) && Clearing(m0, m, p, name) && sub in m && Below(name, sub)
    requires CanWrite(m, p, sub, true) && !HasBelow(m, sub)
    ensures Clearing(m0, m - {sub}, p, name)
  {
    var m' := m - {sub};
    ClearingSame(m0, m, p, name, sub);
    forall n, r | n in m' && Below(r, n) ensures r in m' { assert r in m; }
    forall n | n in m' && HasBelow(m', n) ensures ROOT in m'[n].flags {
      var d :| d in m' && Below(n, d);
      assert HasBelow(m, n);
    }
  }

  /** When all that is left below is blocked, the clearing is done. */
  lemma ClearingDone(m0: Forest, m: Forest, p: Player, name: Text)
    requires Clearing(m0, m, p, name) && forall n :: n in m && Below(name, n) ==> Blocked(m0, p, n)
    ensures m == ClearedBelow(m0, p, name)
  {
  }

  /** What is below comes late enough. */
  ghost predicate ClearingAt(m0: Forest, now: seq<Entry>, p: Player, name: Text)
    requires Sorted(now)
  {
    Clearing(m0, AsForest(now), p, name)
  }

  /** Everything below `name` from `i` up to `sub` is there to stay. */
  ghost predicate Visited(now: seq<Entry>, m0: Forest, p: Player, name: Text, i: nat, sub: nat, skipped: nat) {
    && sub <= |now|
    && (forall k :: i < k < sub && Below(name, now[k].name) ==> skipped > 0 && Blocked(m0, p, now[k].name))
    && (skipped > 0 ==> exists b :: b in m0 && Below(name, b) && Blocked(m0, p, b))
  }

  predicate From(now: seq<Entry>, sub: nat, first: Text) {
    forall k :: sub <= k < |now| ==> now[k].name == first || Less(first, now[k].name)
  }

  /** Where the walk along the array is, when it holds `now`: at `sub`, having
      left of `m0` what it has to, and with only names from `first` on to come. */
  ghost predicate Walking(now: seq<Entry>, m0: Forest, es: seq<Entry>, p: Player, i: nat, sub: nat,
          skipped: nat, first: Text) {
    && Sorted(now) && i < sub <= |now| && i < |es|
    && (forall k :: 0 <= k <= i ==> now[k] == es[k])
    && ClearingAt(m0, now, p, es[i].name) && Visited(now, m0, p, es[i].name, i, sub, skipped)
    && Below(es[i].name, first) && From(now, sub, first)
  }

  lemma NothingBelow(m: Forest, p: Player, name: Text)
    requires !HasBelow(m, name)
    ensures ClearedBelow(m, p, name) == m
  {
    forall n | n in m ensures n in ClearedBelow(m, p, name) { assert !Below(name, n); }
  }

  lemma StartWalking(es: seq<Entry>, p: Player, i: nat, sub: nat)
    requires Sorted(es) && i < sub < |es| && Closed(AsForest(es)) && Flagged(AsForest(es))
    requires Below(es[i].name, es[sub].name)
    requires forall k :: 0 <= k < |es| && Below(es[i].name, es[k].name) ==> sub <= k
    ensures Walking(es, AsForest(es), es, p, i, sub, 0, es[sub].name)
  {
    hide AsForest;
  }

  /** Clearing below `sub` does not disturb the walk. */
  lemma StillWalking(was: seq<Entry>, now: seq<Entry>, m0: Forest, es: seq<Entry>, p: Player, i: nat, sub: nat,
          skipped: nat, first: Text)
    requires Closed(m0) && Walking(was, m0, es, p, i, sub, skipped, first) && sub < |was| && Below(es[i].name, was[sub].name)
    requires Sorted(now) && sub < |now| && forall k :: 0 <= k <= sub ==> now[k] == was[k]
    requires AsForest(now) == ClearedBelow(AsForest(was), p, was[sub].name)
    ensures Walking(now, m0, es, p, i, sub, skipped, first)
  {
    hide AsForest, Clearing, ClearedBelow, Closed, Below, Blocked, Less;
    ForestAt(was, sub);
    ClearingFurther(m0, AsForest(was), p, es[i].name, was[sub].name);
    forall k | sub <= k < |now| ensures now[k].name == first || Less(first, now[k].name) {
      if k > sub && first != now[sub].name { LessTransitive(first, now[sub].name, now[k].name); }
    }
  }

  /** What is passed by after that is blocked. */
  lemma Skipped(was: seq<Entry>, now: seq<Entry>, m0: Forest, es: seq<Entry>, p: Player, i: nat, sub: nat,
          skipped: nat, first: Text, next: nat)
    requires Closed(m0) && Walking(was, m0, es, p, i, sub, skipped, first) && sub < |was| && Below(es[i].name, was[sub].name)
    requires Walking(now, m0, es, p, i, sub, skipped, first) && sub < next <= |now| && now[sub] == was[sub]
    requires AsForest(now) == ClearedBelow(AsForest(was), p, was[sub].name) && HasBelow(AsForest(now), was[sub].name)
    requires forall k :: sub < k < next ==> Below(now[sub].name, now[k].name)
    ensures Walking(now, m0, es, p, i, next, skipped + 1, first)
  {
    hide AsForest, Clearing, ClearedBelow, Closed, Below, Blocked, Less, HasBelow;
    var m, r := AsForest(was), was[sub].name;
    ForestAt(was, sub);
    SomeBlocked(m, p, r);
    ClearingSame(m0, m, p, es[i].name, r);
    WasThere(m0, m, p, es[i].name, r);
    forall k | sub < k < next ensures Blocked(m0, p, now[k].name) {
      ForestAt(now, k);
      BelowTransitive(es[i].name, r, now[k].name);
      WasBlocked(m, p, r, now[k].name);
      ClearingSame(m0, m, p, es[i].name, now[k].name);
    }
    VisitedMore(now, m0, p, es[i].name, i, sub, skipped, next);
    hide Visited, Sorted;
  }

  lemma VisitedMore(now: seq<Entry>, m0: Forest, p: Player, name: Text, i: nat, sub: nat, skipped: nat, next: nat)
    requires Visited(now, m0, p, name, i, sub, skipped) && i < sub < next <= |now|
    requires forall k :: sub <= k < next ==> Blocked(m0, p, now[k].name)
    requires now[sub].name in m0 && Below(name, now[sub].name)
    ensures Visited(now, m0, p, name, i, next, skipped + 1)
  {
    hide Blocked, Below;
  }

  lemma WasBlocked(m: Forest, p: Player, r: Text, n: Text)
    requires n in ClearedBelow(m, p, r) && Below(r, n)
    ensures n in m && Blocked(m, p, n)
  {
  }

  lemma WasThere(m0: Forest, m: Forest, p: Player, name: Text, n: Text)
    requires Clearing(m0, m, p, name) && n in m
    ensures n in m0
  {
  }

  lemma SomeBlocked(m: Forest, p: Player, r: Text)
    requires HasBelow(ClearedBelow(m, p, r), r)
    ensures Blocked(m, p, r)
  {
    var d :| d in ClearedBelow(m, p, r) && Below(r, d);
    BlockedAbove(m, p, d, r);
  }

  /** An attribute that cannot be written to is passed by. */
  lemma Passed(now: seq<Entry>, m0: Forest, es: seq<Entry>, p: Player, i: nat, sub: nat, skipped: nat, first: Text)
    requires Closed(m0) && Walking(now, m0, es, p, i, sub, skipped, first) && sub < |now| && Below(es[i].name, now[sub].name)
    requires now[sub].name in AsForest(now) && !CanWrite(AsForest(now), p, now[sub].name, true)
    ensures Walking(now, m0, es, p, i, sub + 1, skipped + 1, first)
  {
    hide AsForest, Clearing, ClearedBelow, Closed, Below, Blocked, Less, HasBelow, CanWrite;
    var m, r := AsForest(now), now[sub].name;
    ClearingSame(m0, m, p, es[i].name, r);
    WasThere(m0, m, p, es[i].name, r);
    BlockedSelf(m0, p, r);
    VisitedMore(now, m0, p, es[i].name, i, sub, skipped, sub + 1);
    hide Visited, Sorted;
  }

  lemma BlockedSelf(m: Forest, p: Player, n: Text)
    requires n in m && !CanWrite(m, p, n, true)
    ensures Blocked(m, p, n)
  {
    assert AtOrBelow(n, n);
  }

  /** One that can is taken away. */
  lemma Taken(was: seq<Entry>, now: seq<Entry>, m0: Forest, es: seq<Entry>, p: Player, i: nat, sub: nat,
          skipped: nat, first: Text)
    requires Closed(m0) && Walking(was, m0, es, p, i, sub, skipped, first) && sub < |was| && Below(es[i].name, was[sub].name)
    requires was[sub].name in AsForest(was) && CanWrite(AsForest(was), p, was[sub].name, true) && !HasBelow(AsForest(was), was[sub].name)
    requires now == was[..sub] + was[sub + 1..] && Sorted(now) && AsForest(now) == AsForest(was) - {was[sub].name}
    ensures Walking(now, m0, es, p, i, sub, skipped, first)
  {
    hide AsForest, Clearing, ClearedBelow, Closed, Below, Blocked, Less, HasBelow, CanWrite;
    ClearingOne(m0, AsForest(was), p, es[i].name, was[sub].name);
    assert forall k :: 0 <= k < |now| ==> now[k] == if k < sub then was[k] else was[k + 1];
    hide Sorted;
  }

  lemma Finished(now: seq<Entry>, m0: Forest, es: seq<Entry>, p: Player, i: nat, sub: nat, skipped: nat, first: Text)
    requires Walking(now, m0, es, p, i, sub, skipped, first)
    requires sub < |now| ==> !Below(es[i].name, now[sub].name)
    requires forall k :: 0 <= k <= i ==> !Below(es[i].name, now[k].name)
    ensures forall k :: 0 <= k <= i ==> now[k] == es[k]
    ensures AsForest(now) == ClearedBelow(m0, p, es[i].name)
    ensures skipped == 0 <==> !HasBelow(AsForest(now), es[i].name)
  {
    NothingToCome(now, es[i].name, sub, first);
    hide Below, Less, Clearing, ClearedBelow, HasBelow, Blocked, AsForest, From;
    SkippedLeft(now, m0, p, es[i].name, i, sub, skipped);
    ClearingDone(m0, AsForest(now), p, es[i].name);
  }

  /** If the name at `sub` is not below `name`, none after it is. */
  lemma NothingToCome(now: seq<Entry>, name: Text, sub: nat, first: Text)
    requires Sorted(now) && Below(name, first) && From(now, sub, first)
    requires sub < |now| ==> !Below(name, now[sub].name)
    ensures forall k :: sub <= k < |now| ==> !Below(name, now[k].name)
  {
    hide Below, Less;
    forall k | sub <= k < |now| ensures !Below(name, now[k].name) {
      if k > sub { BelowTogether(name, first, now[sub].name, now[k].name); }
    }
  }

  /** What has been skipped is all that is left below. */
  lemma SkippedLeft(now: seq<Entry>, m0: Forest, p: Player, name: Text, i: nat, sub: nat, skipped: nat)
    requires Sorted(now) && Visited(now, m0, p, name, i, sub, skipped) && Clearing(m0, AsForest(now), p, name)
    requires forall k :: 0 <= k <= i && k < |now| ==> !Below(name, now[k].name)
    requires forall k :: sub <= k < |now| ==> !Below(name, now[k].name)
    ensures forall n :: n in AsForest(now) && Below(name, n) ==> Blocked(m0, p, n)
    ensures skipped == 0 <==> !HasBelow(AsForest(now), name)
  {
    var m := AsForest(now);
    hide Below, Less, ClearedBelow, Blocked, AsForest, Sorted;
    forall n | n in m && Below(name, n) ensures Blocked(m0, p, n) && skipped > 0 {
      var k := WhereIs(now, n);
      assert now[k].name == n;
    }
    if skipped > 0 {
      var b :| b in m0 && Below(name, b) && Blocked(m0, p, b);
      assert b in m;
    }
  }

  /** Clear everything below the attribute at `i` that can be cleared, and say
      whether that was everything. */
  method AtrClearChildren(al: AttrList, p: Player, i: nat) returns (all: bool)
    requires al.Valid() && i < al.count && Closed(al.Contents()) && Flagged(al.Contents())
    modifies al`count, al.list
    ensures al.Valid() && i < al.count <= old(al.count)
    ensures forall k :: 0 <= k <= i ==> al.Entries()[k] == old(al.Entries())[k]
    ensures al.Contents() == ClearedBelow(old(al.Contents()), p, old(al.Entries())[i].name)
    ensures all == !HasBelow(al.Contents(), al.Entries()[i].name)
    decreases al.count - i, 0
  {
    hide AttrList.Valid, AttrList.Contents, AttrList.Shaped, AttrList.Entries, Closed, Flagged, Walking, Below,
         HasBelow, ClearedBelow, Less, AsForest;
    ghost var m0, es := al.Contents(), al.Entries();
    var j := al.AtrSubBranchPrev(i);
    if j == -1 {
      NothingBelow(m0, p, es[i].name);
      return true;
    }
    var name := al.list[i].value.name;
    var sub: nat, skipped: nat := j + 1, 0;
    ghost var first := es[sub].name;
    StartWalking(es, p, i, sub);
    while al.list[sub].Some? && Below(name, al.list[sub].value.name)
      invariant al.Valid() && i < sub <= al.count <= old(al.count)
      invariant Walking(al.Entries(), m0, es, p, i, sub, skipped, first)
      decreases al.count - sub
    {
      sub, skipped := ClearOne(al, p, i, sub, skipped, m0, es, first);
    }
    StillThere(al.Entries(), m0, es, p, i, sub, skipped, first);
    al.NotBelowBefore(i);
    Finished(al.Entries(), m0, es, p, i, sub, skipped, first);
    return skipped == 0;
  }

  lemma StillThere(now: seq<Entry>, m0: Forest, es: seq<Entry>, p: Player, i: nat, sub: nat, skipped: nat, first: Text)
    requires Walking(now, m0, es, p, i, sub, skipped, first)
    ensures i < |now| && i < |es| && now[i] == es[i]
  {
  }

  /** One round of the loop: clear below the attribute at `sub`; if something is
      left there go past it, otherwise clear the attribute itself. */
  method ClearOne(al: AttrList, p: Player, i: nat, sub: nat, skipped: nat, ghost m0: Forest,
          ghost es: seq<Entry>, ghost first: Text)
      returns (sub': nat, skipped': nat)
    requires al.Valid() && Closed(m0) && Walking(al.Entries(), m0, es, p, i, sub, skipped, first)
    requires i < |es| && sub < al.count && Below(es[i].name, al.Entries()[sub].name)
    modifies al`count, al.list
    ensures al.Valid() && i < sub' <= al.count <= old(al.count) && Walking(al.Entries(), m0, es, p, i, sub', skipped', first)
    ensures al.count - sub' < old(al.count) - sub
    decreases al.count - sub, 1
  {
    hide AttrList.Valid, AttrList.Contents, AttrList.Shaped, AttrList.Entries, Closed, Flagged, Walking, Below,
         HasBelow, ClearedBelow, Less, AsForest;
    ghost var was := al.Entries();
    al.EntryAt(sub);
    MayRecurse(was, m0, es, p, i, sub, skipped, first);
    if ROOT in al.list[sub].value.attr.flags {
      var all := AtrClearChildren(al, p, sub);
      StillWalking(was, al.Entries(), m0, es, p, i, sub, skipped, first);
      if !all {
        skipped' := skipped + 1;
        sub' := SkipBelow(al, sub);
        Skipped(was, al.Entries(), m0, es, p, i, sub, skipped, first, sub');
        return;
      }
    }
    sub', skipped' := ClearLeaf(al, p, i, sub, skipped, m0, es, first);
  }

  lemma MayRecurse(now: seq<Entry>, m0: Forest, es: seq<Entry>, p: Player, i: nat, sub: nat, skipped: nat, first: Text)
    requires Walking(now, m0, es, p, i, sub, skipped, first) && sub < |now|
    ensures Closed(AsForest(now)) && Flagged(AsForest(now)) && i < sub
    ensures ROOT !in now[sub].attr.flags ==> !HasBelow(AsForest(now), now[sub].name)
  {
    ForestAt(now, sub);
  }

  /** Go past the attribute at `sub` and those right after it that are below. */
  method SkipBelow(al: AttrList, sub: nat) returns (next: nat)
    requires al.Valid() && sub < al.count
    ensures sub < next <= al.count
    ensures forall k :: sub < k < next ==> Below(al.Entries()[sub].name, al.Entries()[k].name)
  {
    next := sub + 1;
    while al.list[next].Some? && Below(al.list[sub].value.name, al.list[next].value.name)
      invariant sub < next <= al.count
      invariant forall k :: sub < k < next ==> Below(al.Entries()[sub].name, al.Entries()[k].name)
      decreases al.count - next
    {
      next := next + 1;
    }
  }

  /** Clear the attribute at `sub`, if the player may. */
  method ClearLeaf(al: AttrList, p: Player, i: nat, sub: nat, skipped: nat, ghost m0: Forest,
          ghost es: seq<Entry>, ghost first: Text)
      returns (sub': nat, skipped': nat)
    requires al.Valid() && Closed(m0) && Walking(al.Entries(), m0, es, p, i, sub, skipped, first)
    requires i < sub && i < |es| && sub < al.count && Below(es[i].name, al.Entries()[sub].name)
    requires !HasBelow(al.Contents(), al.Entries()[sub].name)
    modifies al`count, al.list
    ensures al.Valid() && i < sub' <= al.count <= old(al.count) && Walking(al.Entries(), m0, es, p, i, sub', skipped', first)
    ensures al.count - sub' < old(al.count) - sub
  {
    hide AttrList.Valid, AttrList.Contents, AttrList.Shaped, AttrList.Entries, Closed, Flagged, Walking, Below,
         HasBelow, ClearedBelow, Less, AsForest, CanWrite;
    var can := CanWriteAttr(al, p, sub, true);
    ghost var was := al.Entries();
    if !can {
      Passed(was, m0, es, p, i, sub, skipped, first);
      sub', skipped' := sub + 1, skipped + 1;
      return;
    }
    al.AtrFreeOne(sub);
    sub', skipped' := sub, skipped;
    Taken(was, al.Entries(), m0, es, p, i, sub, skipped, first);
  }

  /** Clear an attribute, or wipe it and all below it that can be. */
  method RealAtrClr(al: AttrList, name: Text, p: Player, wiping: bool) returns (res: Outcome)
    requires al.Valid() && WellFormed(al.Contents())
    modifies al`count, al.list
    ensures al.Valid()
    ensures Change(res, al.Contents()) == Removed(old(al.Contents()), p, name, wiping)
  {
    hide AttrList.Valid, AttrList.Contents, AttrList.Shaped, AttrList.Entries, CanWrite, Below, HasBelow,
         ClearedBelow, Unrooted, AsForest, WellFormed;
    var ptr := al.FindAtrInList(name);
    if ptr == -1 {
      return NOTFOUND;
    }
    if SAFE in al.list[ptr].value.attr.flags {
      return IS_SAFE;
    }
    var can := CanWriteAttr(al, p, ptr, true);
    if !can {
      return ERROR;
    }
    if ROOT in al.list[ptr].value.attr.flags && !wiping {
      return TREE;
    }
    var cleared := ClearAll(al, ptr, name, p);
    return if cleared then OKAY else TREE;
  }

  /** Clear all that can be cleared below the attribute at `ptr`, and if that
      was everything the attribute too. */
  method ClearAll(al: AttrList, ptr: nat, name: Text, p: Player) returns (canClear: bool)
    requires al.Valid() && WellFormed(al.Contents()) && ptr < al.count && al.Entries()[ptr].name == name
    modifies al`count, al.list
    ensures al.Valid()
    ensures var left := ClearedBelow(old(al.Contents()), p, name);
            canClear == !HasBelow(left, name) && al.Contents() == if canClear then Unrooted(left - {name}, name) else left
  {
    hide AttrList.Valid, AttrList.Contents, AttrList.Shaped, AttrList.Entries, Below, HasBelow, ClearedBelow,
         Unrooted, AsForest;
    al.EntryAt(ptr);
    canClear := true;
    if ROOT in al.list[ptr].value.attr.flags {
      FlaggedToo(al.Contents());
      canClear := AtrClearChildren(al, p, ptr);
    } else {
      NothingBelow(al.Contents(), p, name);
    }
    if canClear {
      al.AtrFreeOne(ptr);
      Unroot(al, name);
    }
  }

  lemma FlaggedToo(m: Forest)
    requires WellFormed(m)
    ensures Closed(m) && Flagged(m)
  {
  }

  /** If that was the last name below its parent, the parent is no longer a root. */
  method Unroot(al: AttrList, name: Text)
    requires al.Valid()
    modifies al.list
    ensures al.Valid() && al.Contents() == Unrooted(old(al.Contents()), name)
  {
    hide AttrList.Valid, AttrList.Contents, AttrList.Shaped, AttrList.Entries, LastTick, HasBelow, Below, AsForest;
    var p := LastTick(name, |name|);
    if p >= 0 {
      var root := al.FindAtrInList(name[..p]);
      if root != -1 {
        var sub := al.AtrSubBranch(root);
        if sub == -1 {
          var a := al.list[root].value.attr;
          al.SetAttr(root, a.(flags := a.flags - {ROOT}));
        }
      }
    }
  }
}
