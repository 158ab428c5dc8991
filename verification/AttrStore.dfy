/** How an object's attributes are stored: a sorted array with an empty slot at
    its end, which grows, shrinks, and is searched in three ways. */
module AttrStore {
  import opened Bytes
  import opened AttrNames
  import opened AttrForest

  datatype Entry = Entry(name: Text, attr: Attr)

  predicate Sorted(es: seq<Entry>) {
    forall i, j :: 0 <= i < j < |es| ==> Less(es[i].name, es[j].name)
  }

  /** The attributes by name. */
  function AsForest(es: seq<Entry>): Forest
    requires Sorted(es)
  {
    SortedDistinct(es);
    map e | e in es :: e.name := e.attr
  }

  lemma SortedDistinct(es: seq<Entry>)
    requires Sorted(es)
    ensures forall d, e :: d in es && e in es && d.name == e.name ==> d == e
  {
    forall i, j | 0 <= i < j < |es| ensures es[i].name != es[j].name { LessTotal(es[i].name, es[j].name); }
  }

  lemma ForestAt(es: seq<Entry>, i: nat)
    requires Sorted(es) && i < |es|
    ensures es[i].name in AsForest(es) && AsForest(es)[es[i].name] == es[i].attr
  {
    SortedDistinct(es);
    assert es[i] in es;
  }

  /** A last attribute adds its own name to the forest. */
  lemma AppendSorted(es: seq<Entry>, e: Entry)
    requires Sorted(es + [e])
    ensures Sorted(es) && e.name !in AsForest(es) && AsForest(es + [e]) == AsForest(es)[e.name := e.attr]
  {
    var all := es + [e];
    assert forall i :: 0 <= i < |es| ==> all[i] == es[i] && Less(all[i].name, all[|es|].name);
    assert Sorted(es);
    PlaceFound(es, |es|, e.name);
    InsertSorted(es, |es|, e.name, e.attr);
    hide AsForest, Less;
    assert es[..|es|] + [e] + es[|es|..] == all && e == Entry(e.name, e.attr);
  }

  lemma ForestSize(es: seq<Entry>)
    requires Sorted(es)
    ensures |AsForest(es)| == |es|
  {
    if es == [] {
      assert AsForest(es) == map[];
    } else {
      hide AsForest, Sorted;
      var last := |es| - 1;
      assert es[..last] + [es[last]] == es;
      AppendSorted(es[..last], es[last]);
      ForestSize(es[..last]);
    }
  }

  lemma WhereIs(es: seq<Entry>, n: Text) returns (i: nat)
    requires Sorted(es) && n in AsForest(es)
    ensures i < |es| && es[i].name == n
  {
    var e :| e in es && e.name == n;
    i :| 0 <= i < |es| && es[i] == e;
  }

  /** The place where `n` is or would be. */
  predicate PlaceOf(es: seq<Entry>, p: nat, n: Text) {
    && p <= |es|
    && (forall i :: 0 <= i < p ==> Less(es[i].name, n))
    && (forall i :: p <= i < |es| ==> !Less(es[i].name, n))
  }

  lemma PlaceFound(es: seq<Entry>, p: nat, n: Text)
    requires Sorted(es) && PlaceOf(es, p, n)
    ensures n in AsForest(es) <==> p < |es| && es[p].name == n
  {
    if n in AsForest(es) {
      var i := WhereIs(es, n);
      LessTotal(n, n);
      if i > p { LessTotal(es[p].name, n); }
    }
    if p < |es| { ForestAt(es, p); }
  }

  lemma InsertSorted(es: seq<Entry>, p: nat, n: Text, a: Attr)
    requires Sorted(es) && n !in AsForest(es) && PlaceOf(es, p, n)
    ensures var es' := es[..p] + [Entry(n, a)] + es[p..]; Sorted(es') && AsForest(es') == AsForest(es)[n := a]
  {
    var es' := es[..p] + [Entry(n, a)] + es[p..];
    forall i | p <= i < |es| ensures Less(n, es[i].name) {
      LessTotal(n, es[i].name);
      ForestAt(es, i);
    }
    hide AsForest, Less;
    forall i | 0 <= i < |es'| ensures es'[i] == (if i < p then es[i] else if i == p then Entry(n, a) else es[i - 1]) {
    }
    assert Sorted(es');
    InsertForest(es, p, n, a);
  }

  lemma InsertForest(es: seq<Entry>, p: nat, n: Text, a: Attr)
    requires Sorted(es) && n !in AsForest(es) && p <= |es|
    requires Sorted(es[..p] + [Entry(n, a)] + es[p..])
    ensures AsForest(es[..p] + [Entry(n, a)] + es[p..]) == AsForest(es)[n := a]
  {
    var es', m := es[..p] + [Entry(n, a)] + es[p..], AsForest(es)[n := a];
    forall e | e in es' ensures e.name in m && m[e.name] == e.attr {
      if e in es {
        var i :| 0 <= i < |es| && es[i] == e;
        ForestAt(es, i);
      }
    }
    forall k | k in m ensures exists e :: e in es' && e.name == k {
      if k == n {
        assert es'[p].name == k;
      } else {
        var i := WhereIs(es, k);
        assert es'[if i < p then i else i + 1] == es[i];
      }
    }
    SameForest(es', m);
  }

  /** A forest is that of a sorted sequence when they agree name by name. */
  lemma SameForest(es: seq<Entry>, m: Forest)
    requires Sorted(es) && (forall e :: e in es ==> e.name in m && m[e.name] == e.attr)
    requires forall n :: n in m ==> exists e :: e in es && e.name == n
    ensures AsForest(es) == m
  {
    var f := AsForest(es);
    forall n | n in m ensures n in f {
      var e :| e in es && e.name == n;
    }
    forall n | n in f ensures n in m && f[n] == m[n] {
      var i := WhereIs(es, n);
      ForestAt(es, i);
      assert es[i] in es;
    }
  }

  lemma DeleteSorted(es: seq<Entry>, p: nat)
    requires Sorted(es) && p < |es|
    ensures var es' := es[..p] + es[p + 1..]; Sorted(es') && AsForest(es') == AsForest(es) - {es[p].name}
  {
    hide Less, AsForest;
    var es' := es[..p] + es[p + 1..];
    forall i | 0 <= i < |es'| ensures es'[i] == es[if i < p then i else i + 1] {
    }
    assert Sorted(es');
    var m := AsForest(es) - {es[p].name};
    forall e | e in es' ensures e.name in m && m[e.name] == e.attr {
      var i :| 0 <= i < |es'| && es'[i] == e;
      DeletedAt(es, p, if i < p then i else i + 1);
    }
    forall n | n in m ensures exists e :: e in es' && e.name == n {
      var i := WhereIs(es, n);
      assert es'[if i < p then i else i - 1].name == n;
    }
    SameForest(es', m);
  }

  lemma DeletedAt(es: seq<Entry>, p: nat, j: nat)
    requires Sorted(es) && p < |es| && j < |es| && j != p
    ensures var m := AsForest(es) - {es[p].name}; es[j].name in m && m[es[j].name] == es[j].attr
  {
    ForestAt(es, j);
    LessTotal(es[j].name, es[p].name);
  }

  lemma UpdateSorted(es: seq<Entry>, p: nat, a: Attr)
    requires Sorted(es) && p < |es|
    ensures var es' := es[p := Entry(es[p].name, a)]; Sorted(es') && AsForest(es') == AsForest(es)[es[p].name := a]
  {
    var es', m := es[p := Entry(es[p].name, a)], AsForest(es)[es[p].name := a];
    forall e | e in es' ensures e.name in m && m[e.name] == e.attr {
      var i :| 0 <= i < |es'| && es'[i] == e;
      ForestAt(es, i);
      LessTotal(es[i].name, es[p].name);
      if i < p { assert Less(es[i].name, es[p].name); } else if p < i { assert Less(es[p].name, es[i].name); }
    }
    forall n | n in m ensures exists e :: e in es' && e.name == n {
      if n != es[p].name {
        var i := WhereIs(es, n);
        assert es'[i].name == n;
      } else {
        assert es'[p].name == n;
      }
    }
    SameForest(es', m);
  }

  // ----- The array

  const LINEAR_CUT_OFF := 32
  const LEAST_CAP := 5

  class AttrList {
    var list: array<Option<Entry>>
    var count: nat
    var cap: nat

    /** A list without room is null, which is an array of no slots here. */
    ghost predicate Shaped()
      reads this, list
    {
      && count <= cap && list.Length == (if cap == 0 then 0 else cap + 1)
      && (forall i :: 0 <= i < count ==> list[i].Some?)
      && (forall i :: count <= i < list.Length ==> list[i].None?)
    }

    ghost function Entries(): (es: seq<Entry>)
      requires Shaped()
      reads this, list
      ensures |es| == count && forall i :: 0 <= i < count ==> list[i] == Some(es[i])
    {
      seq(count, i requires 0 <= i < count && Shaped() reads this, list => list[i].value)
    }

    ghost predicate Valid()
      reads this, list
      ensures Valid() ==> Shaped() && Sorted(Entries()) && (count > 0 ==> count < list.Length && list[count].None?)
    {
      Shaped() && Sorted(Entries())
    }

    ghost function Contents(): (m: Forest)
      requires Valid()
      reads this, list
      ensures m == AsForest(Entries())
    {
      AsForest(Entries())
    }

    lemma EntryAt(i: nat)
      requires Valid() && i < count
      ensures Entries()[i].name in Contents() && Contents()[Entries()[i].name] == Entries()[i].attr
    {
      ForestAt(Entries(), i);
    }

    constructor ()
      ensures Valid() && fresh(list) && Contents() == map[] && count == 0 && cap == 0
    {
      list := new Option<Entry>[0];
      count, cap := 0, 0;
      new;
      assert Entries() == [];
    }

    // ----- Looking up

    /** The index of an attribute, or -1. */
    method FindAtrInList(name: Text) returns (i: int)
      requires Valid()
      ensures name in Contents() <==> i != -1
      ensures i != -1 ==> 0 <= i < count && Entries()[i].name == name && Contents()[name] == Entries()[i].attr
    {
      if count == 0 {
        i := -1;
      } else if count == 1 {
        i := if list[0].value.name == name then 0 else -1;
        assert PlaceOf(Entries(), 0, name) || PlaceOf(Entries(), 1, name);
        if i == -1 {
          LessTotal(name, Entries()[0].name);
          PlaceFound(Entries(), if Less(Entries()[0].name, name) then 1 else 0, name);
        }
      } else if count < LINEAR_CUT_OFF {
        i := FindLinear(name);
      } else {
        i := FindBinary(name);
      }
      if i != -1 { ForestAt(Entries(), i); }
    }

    /** In order, until the name or one after it has come. */
    method FindLinear(name: Text) returns (i: int)
      requires Valid() && count > 0
      ensures name in Contents() <==> i != -1
      ensures i != -1 ==> 0 <= i < count && Entries()[i].name == name
    {
      var a: nat := 0;
      while list[a].Some?
        invariant a <= count && forall k :: 0 <= k < a ==> Less(Entries()[k].name, name)
        decreases count - a
      {
        var here := list[a].value.name;
        LessTotal(name, here);
        if name == here {
          ForestAt(Entries(), a);
          return a;
        }
        if Less(name, here) {
          PlaceHere(a, name);
          PlaceFound(Entries(), a, name);
          return -1;
        }
        a := a + 1;
      }
      PlaceFound(Entries(), a, name);
      return -1;
    }

    lemma PlaceHere(a: nat, name: Text)
      requires Valid() && a < count && !Less(Entries()[a].name, name) && forall k :: 0 <= k < a ==> Less(Entries()[k].name, name)
      ensures PlaceOf(Entries(), a, name)
    {
      forall k | a < k < count ensures !Less(Entries()[k].name, name) {
        if Less(Entries()[k].name, name) { LessTransitive(Entries()[a].name, Entries()[k].name, name); }
      }
    }

    /** By halving. */
    method FindBinary(name: Text) returns (i: int)
      requires Valid()
      ensures name in Contents() <==> i != -1
      ensures i != -1 ==> 0 <= i < count && Entries()[i].name == name
    {
      var lo: nat, hi: nat := 0, count;
      while lo < hi
        invariant lo <= hi <= count
        invariant lo > 0 ==> Less(Entries()[lo - 1].name, name)
        invariant hi < count ==> Less(name, Entries()[hi].name)
      {
        var mid := (lo + hi) / 2;
        var here := list[mid].value.name;
        LessTotal(name, here);
        if name == here {
          ForestAt(Entries(), mid);
          return mid;
        } else if Less(here, name) {
          lo := mid + 1;
        } else {
          hi := mid;
        }
      }
      PlaceBetween(lo, name);
      PlaceFound(Entries(), lo, name);
      return -1;
    }

    lemma PlaceBetween(p: nat, name: Text)
      requires Valid() && p <= count && (p > 0 ==> Less(Entries()[p - 1].name, name)) && (p < count ==> Less(name, Entries()[p].name))
      ensures PlaceOf(Entries(), p, name) && (p < count ==> Entries()[p].name != name)
    {
      var es := Entries();
      forall k | 0 <= k < p ensures Less(es[k].name, name) {
        if k < p - 1 { LessTransitive(es[k].name, es[p - 1].name, name); }
      }
      forall k | p <= k < count ensures !Less(es[k].name, name) {
        if k > p { LessTransitive(name, es[p].name, es[k].name); }
        LessTotal(name, es[k].name);
      }
    }

    /** Where a name is, or where it would go. */
    method FindAtrPosInList(name: Text) returns (pos: nat)
      requires Valid()
      ensures PlaceOf(Entries(), pos, name)
    {
      pos := 0;
      if list.Length == 0 { return; }
      while list[pos].Some?
        invariant pos <= count && forall k :: 0 <= k < pos ==> Less(Entries()[k].name, name)
        decreases count - pos
      {
        LessTotal(name, list[pos].value.name);
        if !Less(list[pos].value.name, name) {
          PlaceHere(pos, name);
          return;
        }
        pos := pos + 1;
      }
    }

    // ----- Room

    /** Make sure that `cap` is at least `newcap`. */
    method AttrReserve(newcap: nat)
      requires Shaped()
      modifies this
      ensures Shaped() && Entries() == old(Entries()) && count == old(count)
      ensures cap == if old(cap) >= newcap then old(cap) else newcap
      ensures list == old(list) || fresh(list)
    {
      if cap >= newcap { return; }
      Realloc(newcap);
      cap := newcap;
    }

    /** Move the attributes to an array for `newcap` of them. */
    method Realloc(newcap: nat)
      requires Shaped() && count <= newcap && newcap > 0
      modifies this`list
      ensures fresh(list) && list.Length == newcap + 1
      ensures forall i :: 0 <= i < list.Length ==> list[i] == if i < count then Some(old(Entries())[i]) else None
    {
      var newattrs := new Option<Entry>[newcap + 1](_ => None);
      forall i | 0 <= i < count { newattrs[i] := list[i]; }
      list := newattrs;
    }

    /** Make sure that there is room for one more. */
    method AtrCheckCapacity()
      requires Valid()
      modifies this
      ensures Valid() && Entries() == old(Entries()) && count == old(count) && count < cap
      ensures list == old(list) || fresh(list)
    {
      var oldcap := cap;
      if oldcap == 0 {
        AttrReserve(LEAST_CAP);
      } else if count >= oldcap {
        var newcap := oldcap * 3 / 2;
        if newcap < LEAST_CAP {
          newcap := LEAST_CAP;
        }
        AttrReserve(newcap);
      }
    }

    /** Give back room when there is twice as much as needed. */
    method AttrShrink()
      requires Valid()
      modifies this
      ensures Valid() && Entries() == old(Entries()) && count == old(count)
      ensures list == old(list) || fresh(list)
      ensures cap <= old(cap) && (cap <= LEAST_CAP || cap < 2 * count)
    {
      if count == 0 {
        if cap > 0 {
          list, cap := new Option<Entry>[0], 0;
        }
        return;
      }
      if cap <= LEAST_CAP || cap < 2 * count {
        return;
      }
      var newcap := if count == 1 then LEAST_CAP else (3 * count + 1) / 2;
      Realloc(newcap);
      cap := newcap;
      assert Entries() == old(Entries());
    }

    // ----- Changing

    /** Make room at `pos`; the slot keeps what was in it. */
    method AtrMoveDown(pos: nat)
      requires Shaped() && pos <= count < cap
      modifies list
      ensures forall i :: 0 <= i < list.Length ==> list[i] == if pos < i <= count then old(list[i - 1]) else old(list[i])
    {
      forall i | pos < i <= count { list[i] := list[i - 1]; }
    }

    /** Close the gap at `pos`, and empty the last slot. */
    method AtrMoveUp(pos: nat)
      requires Shaped() && pos < count
      modifies list
      ensures forall i :: 0 <= i < list.Length ==>
                list[i] == if i == count - 1 then None else if pos <= i < count - 1 then old(list[i + 1]) else old(list[i])
    {
      forall i | pos <= i < count - 1 { list[i] := list[i + 1]; }
      list[count - 1] := None;
    }

    /** An attribute without flags or value in its place; whose it is has yet to
        be set. */
    method CreateAtr(name: Text) returns (pos: nat)
      requires Valid() && name !in Contents()
      modifies this, list
      ensures Valid() && (list == old(list) || fresh(list)) && count == old(count) + 1
      ensures pos < count && Entries()[pos].name == name && Entries()[pos].attr.flags == {} && Entries()[pos].attr.data == []
      ensures Contents() == old(Contents())[name := Entries()[pos].attr]
    {
      hide AsForest, Sorted, PlaceOf, Shaped;
      AtrCheckCapacity();
      pos := FindAtrPosInList(name);
      var creator: int := *;
      Place(pos, Entry(name, Attr({}, creator, [])));
    }

    method Place(pos: nat, e: Entry)
      requires Valid() && e.name !in Contents() && PlaceOf(Entries(), pos, e.name) && count < cap
      modifies this`count, list
      ensures Valid() && count == old(count) + 1
      ensures Entries() == old(Entries())[..pos] + [e] + old(Entries())[pos..]
      ensures Contents() == old(Contents())[e.name := e.attr]
    {
      ghost var es := Entries();
      InsertSorted(es, pos, e.name, e.attr);
      assert pos <= count;
      hide AsForest, PlaceOf, Sorted, Shaped, Entries;
      PlaceSlot(pos, e);
    }

    method PlaceSlot(pos: nat, e: Entry)
      requires Shaped() && pos <= count < cap
      modifies this`count, list
      ensures Shaped() && count == old(count) + 1
      ensures Entries() == old(Entries())[..pos] + [e] + old(Entries())[pos..]
    {
      hide Entries;
      ghost var es := Entries();
      ghost var fs := es[..pos] + [e] + es[pos..];
      AtrMoveDown(pos);
      list[pos] := Some(e);
      forall i | 0 <= i < |fs| ensures list[i] == Some(fs[i]) {
        assert fs[i] == if i < pos then es[i] else if i == pos then e else es[i - 1];
      }
      count := count + 1;
      assert Entries() == fs;
    }

    /** Take the attribute at `pos` away. */
    method AtrFreeOne(pos: nat)
      requires Valid() && pos < count
      modifies this`count, list
      ensures Valid() && count == old(count) - 1
      ensures Entries() == old(Entries())[..pos] + old(Entries())[pos + 1..]
      ensures Contents() == old(Contents()) - {old(Entries())[pos].name}
    {
      DeleteSorted(Entries(), pos);
      hide AsForest, Sorted, Shaped, Entries;
      FreeSlot(pos);
    }

    method FreeSlot(pos: nat)
      requires Shaped() && pos < count
      modifies this`count, list
      ensures Shaped() && count == old(count) - 1
      ensures Entries() == old(Entries())[..pos] + old(Entries())[pos + 1..]
    {
      ghost var es := Entries();
      AtrMoveUp(pos);
      count := count - 1;
      assert Entries() == es[..pos] + es[pos + 1..];
    }

    method SetAttr(i: nat, a: Attr)
      requires Valid() && i < count
      modifies list
      ensures Valid() && Entries() == old(Entries())[i := Entry(old(Entries())[i].name, a)]
      ensures Contents() == old(Contents())[old(Entries())[i].name := a]
    {
      ghost var es := Entries();
      UpdateSorted(es, i, a);
      list[i] := Some(list[i].value.(attr := a));
      assert Entries() == es[i := Entry(es[i].name, a)];
    }

    // ----- Trees

    /** The index of the first attribute below the one at `i`, or -1. */
    method AtrSubBranch(i: nat) returns (j: int)
      requires Valid() && i < count
      ensures j == -1 <==> !HasBelow(Contents(), Entries()[i].name)
      ensures j != -1 ==> i < j < count && Below(Entries()[i].name, Entries()[j].name)
      ensures forall k :: 0 <= k < count && Below(Entries()[i].name, Entries()[k].name) ==> i < j <= k
    {
      var name := list[i].value.name;
      var len := |name|;
      hide Below, HasBelow, AsForest;
      var b := i + 1;
      NotBelowBefore(i);
      while list[b].Some?
        invariant i < b <= count && BelowFrom(i, b)
        decreases count - b
      {
        var n2 := list[b].value.name;
        LookBelow(i, b);
        if |n2| <= len {
          return -1;
        }
        if n2[len] == TICK {
          if n2[..len] == name {
            return b;
          } else {
            return -1;
          }
        }
        b := b + 1;
      }
      LookBelow(i, b);
      return -1;
    }

    /** The index just before that of the first attribute below the one at `i`,
        or -1. */
    method AtrSubBranchPrev(i: nat) returns (j: int)
      requires Valid() && i < count
      ensures j == -1 <==> !HasBelow(Contents(), Entries()[i].name)
      ensures j != -1 ==> i <= j < count - 1 && Below(Entries()[i].name, Entries()[j + 1].name)
      ensures forall k :: 0 <= k < count && Below(Entries()[i].name, Entries()[k].name) ==> i <= j < k
    {
      var name := list[i].value.name;
      var len := |name|;
      hide Below, HasBelow, AsForest;
      var prev, b := i, i + 1;
      NotBelowBefore(i);
      while list[b].Some?
        invariant i < b <= count && prev == b - 1 && BelowFrom(i, b)
        decreases count - b
      {
        var n2 := list[b].value.name;
        LookBelow(i, b);
        if |n2| <= len {
          return -1;
        }
        if n2[len] == TICK {
          if n2[..len] == name {
            return prev;
          } else {
            return -1;
          }
        }
        prev := b;
        b := b + 1;
      }
      LookBelow(i, b);
      return -1;
    }

    lemma NotBelowBefore(i: nat)
      requires Valid() && i < count
      ensures BelowFrom(i, i + 1)
    {
      var es := Entries();
      forall k | 0 <= k <= i ensures !Below(es[i].name, es[k].name) {
        if Below(es[i].name, es[k].name) {
          assert es[i].name <= es[k].name;
          PrefixLess(es[i].name, es[k].name);
        }
      }
    }

    /** Nothing below the name at `i` comes before `b`. */
    ghost predicate BelowFrom(i: nat, b: nat)
      requires Valid() && i < count
      reads this, list
    {
      forall k :: 0 <= k < count && Below(Entries()[i].name, Entries()[k].name) ==> b <= k
    }

    /** So the name at `b` is below it, or tells whether anything will be. */
    lemma LookBelow(i: nat, b: nat)
      requires Valid() && i < b <= count && BelowFrom(i, b)
      ensures var name := Entries()[i].name;
              if b == count || |Entries()[b].name| <= |name| then BelowFrom(i, count) && !HasBelow(Contents(), name)
              else if Entries()[b].name[|name|] != TICK then BelowFrom(i, b + 1)
              else if Entries()[b].name[..|name|] == name then Below(name, Entries()[b].name) && HasBelow(Contents(), name)
              else BelowFrom(i, count) && !HasBelow(Contents(), name)
    {
      var es, name := Entries(), Entries()[i].name;
      if b == count || |es[b].name| <= |name| || (es[b].name[|name|] == TICK && es[b].name[..|name|] != name) {
        forall k | b <= k < count ensures !Below(name, es[k].name) {
          if Below(name, es[k].name) && k > b { BetweenBelow(name, es[b].name, es[k].name); }
        }
        forall d | d in Contents() ensures !Below(name, d) { var k := WhereIs(es, d); }
      } else if es[b].name[|name|] == TICK {
        ForestAt(es, b);
      }
    }
  }
}
