/** Whole runs of adding, clearing and wiping attributes: what stays true of the
    forest, and what text is found under a name at the end. */
module AttrRuns {
  import opened Bytes
  import opened AttrNames
  import opened AttrForest

  datatype Call =
    | Add(p: Player, name: Text, value: Option<Text>, flags: Flags)
    | Clear(p: Player, name: Text)
    | Wipe(p: Player, name: Text)

  ghost function Done(m: Forest, rules: Rules, call: Call): Forest {
    match call
    case Add(p, name, value, flags) => AtrAdd(m, rules, p, name, value, flags).forest
    case Clear(p, name) => Removed(m, p, name, false).forest
    case Wipe(p, name) => Removed(m, p, name, true).forest
  }

  ghost function RunOf(m: Forest, rules: Rules, calls: seq<Call>): Forest
    decreases |calls|
  {
    if calls == [] then m else RunOf(Done(m, rules, calls[0]), rules, calls[1..])
  }

  /** The text of an attribute, if it is there. */
  function TextAt(m: Forest, n: Text): Option<Text> {
    if n in m then Some(m[n].data) else None
  }

  /** The call sets the text of `n`. */
  ghost predicate Sets(m: Forest, rules: Rules, call: Call, n: Text) {
    call.Add? && call.name == n && !Clears(rules, call.value) && AtrAdd(m, rules, call.p, n, call.value, call.flags).outcome == OKAY
  }

  /** The call takes `n` away: it clears it, with nothing below it, or wipes it
      or what it is below, with nothing in the way at or below it. */
  ghost predicate Takes(m: Forest, rules: Rules, call: Call, n: Text) {
    && n in m && call.name in m && SAFE !in m[call.name].flags && CanWrite(m, call.p, call.name, true)
    && match call
       case Add(_, name, value, _) => Clears(rules, value) && n == name && !HasBelow(m, n)
       case Clear(_, name) => n == name && !HasBelow(m, n)
       case Wipe(p, name) => AtOrBelow(name, n) && !Blocked(m, p, n)
  }

  /** The call makes `n` for a name below it. */
  ghost predicate Makes(m: Forest, rules: Rules, call: Call, n: Text) {
    n !in m && call.Add? && call.name !in m && Below(n, call.name) && Sets(m, rules, call, call.name)
  }

  /** What one call does to the text of an attribute. */
  lemma StepText(m: Forest, rules: Rules, call: Call, n: Text)
    requires WellFormed(m)
    ensures TextAt(Done(m, rules, call), n) ==
            if Sets(m, rules, call, n) then call.value
            else if Makes(m, rules, call, n) then Some(Filler(rules))
            else if Takes(m, rules, call, n) then None
            else TextAt(m, n)
  {
    match call {
      case Add(p, name, value, flags) =>
        if Clears(rules, value) { ClearText(m, p, name, n); } else { AddText(m, rules, call, n); }
      case Clear(p, name) => ClearText(m, p, name, n);
      case Wipe(p, name) => WipeText(m, p, name, n);
    }
    hide WellFormed, Removed, AtrAdd, CanWrite, HasBelow, Blocked, Below;
  }

  lemma ClearText(m: Forest, p: Player, name: Text, n: Text)
    requires WellFormed(m)
    ensures TextAt(Removed(m, p, name, false).forest, n) ==
            if n == name && n in m && SAFE !in m[n].flags && CanWrite(m, p, n, true) && !HasBelow(m, n) then None else TextAt(m, n)
  {
    if name in m && SAFE !in m[name].flags && CanWrite(m, p, name, true) {
      ClearCharacterised(m, p, name);
    } else {
      RemovalRefused(m, p, name, false);
    }
    hide WellFormed, Removed, CanWrite, HasBelow, ChildOf;
  }

  lemma WipeText(m: Forest, p: Player, name: Text, n: Text)
    requires WellFormed(m)
    ensures TextAt(Removed(m, p, name, true).forest, n) ==
            if name in m && SAFE !in m[name].flags && CanWrite(m, p, name, true) && n in m && AtOrBelow(name, n) && !Blocked(m, p, n)
            then None else TextAt(m, n)
  {
    if name in m && SAFE !in m[name].flags && CanWrite(m, p, name, true) {
      WipeCharacterised(m, p, name);
    } else {
      RemovalRefused(m, p, name, true);
    }
    hide WellFormed, Removed, CanWrite, Blocked, ChildOf, AtOrBelow;
    var m' := Removed(m, p, name, true).forest;
    if n in m && n in m' && m' != m { assert m'[n].(flags := m'[n].flags - {ROOT}) == m[n].(flags := m[n].flags - {ROOT}); }
  }

  lemma AddText(m: Forest, rules: Rules, call: Call, n: Text)
    requires call.Add? && !Clears(rules, call.value)
    ensures TextAt(Done(m, rules, call), n) ==
            if Sets(m, rules, call, n) then call.value else if Makes(m, rules, call, n) then Some(Filler(rules)) else TextAt(m, n)
  {
    AtrAddStores(m, rules, call.p, call.name, call.value, call.flags);
    hide AtrAdd, Filler, Below, DefaultFlags, BareColon, Clears;
  }

  /** The text of `n` after a run, from what the calls did, when it was `t`. */
  ghost function TextAfter(m: Forest, rules: Rules, calls: seq<Call>, n: Text, t: Option<Text>): Option<Text>
    decreases |calls|
  {
    if calls == [] then t
    else
      var call := calls[0];
      TextAfter(Done(m, rules, call), rules, calls[1..], n,
                if Sets(m, rules, call, n) then call.value
                else if Makes(m, rules, call, n) then Some(Filler(rules))
                else if Takes(m, rules, call, n) then None
                else t)
  }

  ghost predicate Plain(rules: Rules, calls: seq<Call>) {
    forall i :: 0 <= i < |calls| && calls[i].Add? ==> PlainFlags(rules, calls[i].flags)
  }

  /** Over any run, the text under a name is the one that was set last, unless it
      has been taken away since. */
  lemma {:induction false} RunText(m: Forest, rules: Rules, calls: seq<Call>, n: Text)
    requires WellFormed(m) && Plain(rules, calls)
    ensures TextAt(RunOf(m, rules, calls), n) == TextAfter(m, rules, calls, n, TextAt(m, n))
    decreases |calls|
  {
    hide WellFormed, Sets, Makes, Takes, Done, TextAt, PlainFlags;
    if calls != [] {
      StepText(m, rules, calls[0], n);
      StepWellFormed(m, rules, calls[0]);
      RunText(Done(m, rules, calls[0]), rules, calls[1..], n);
    }
  }

  lemma StepWellFormed(m: Forest, rules: Rules, call: Call)
    requires WellFormed(m) && (call.Add? ==> PlainFlags(rules, call.flags))
    ensures WellFormed(Done(m, rules, call))
  {
    assert [call][0] == call;
    RunsKeepForest(m, rules, [call]);
    hide WellFormed, PlainFlags, Done;
    assert RunOf(m, rules, [call]) == RunOf(Done(m, rules, call), rules, [call][1..]);
    assert [call][1..] == [];
  }

  /** In particular, what a call has set is there at the end if no later one sets
      it again or takes it away. */
  lemma {:induction false} LastSetStays(m: Forest, rules: Rules, calls: seq<Call>, i: nat, n: Text)
    requires WellFormed(m) && Plain(rules, calls) && i < |calls|
    requires Sets(RunOf(m, rules, calls[..i]), rules, calls[i], n)
    requires forall j :: i < j < |calls| ==>
               !Sets(RunOf(m, rules, calls[..j]), rules, calls[j], n) && !Takes(RunOf(m, rules, calls[..j]), rules, calls[j], n)
    ensures TextAt(RunOf(m, rules, calls), n) == calls[i].value
    decreases |calls|
  {
    hide WellFormed, Sets, Takes, Makes, Done, PlainFlags;
    var last := |calls| - 1;
    var before := RunOf(m, rules, calls[..last]);
    assert Plain(rules, calls[..last]);
    RunStep(m, rules, calls, last);
    RunsKeepForest(m, rules, calls[..last]);
    assert calls[..|calls|] == calls;
    StepText(before, rules, calls[last], n);
    if i < last {
      assert calls[..last][..i] == calls[..i];
      forall j | i < j < last
        ensures !Sets(RunOf(m, rules, calls[..last][..j]), rules, calls[..last][j], n)
        ensures !Takes(RunOf(m, rules, calls[..last][..j]), rules, calls[..last][j], n)
      {
        assert calls[..last][..j] == calls[..j];
      }
      LastSetStays(m, rules, calls[..last], i, n);
      SetsSome(RunOf(m, rules, calls[..i]), rules, calls[i], n);
      NotMade(before, rules, calls[last], n);
    }
  }

  lemma SetsSome(m: Forest, rules: Rules, call: Call, n: Text)
    requires Sets(m, rules, call, n)
    ensures call.value.Some?
  {
  }

  lemma NotMade(m: Forest, rules: Rules, call: Call, n: Text)
    requires TextAt(m, n).Some?
    ensures !Makes(m, rules, call, n)
  {
  }

  lemma {:induction false} RunStep(m: Forest, rules: Rules, calls: seq<Call>, i: nat)
    requires i < |calls|
    ensures RunOf(m, rules, calls[..i + 1]) == Done(RunOf(m, rules, calls[..i]), rules, calls[i])
    decreases i
  {
    hide Done;
    if i == 0 {
      assert calls[..1][1..] == [] && calls[..1][0] == calls[0];
    } else {
      var next := Done(m, rules, calls[0]);
      assert calls[..i + 1][1..] == calls[1..][..i] && calls[..i][1..] == calls[1..][..i - 1];
      RunStep(next, rules, calls[1..], i - 1);
    }
  }

  /** Over any run, every name's parent is there, the root flag says which names
      have something below them, and an object never gets past its limit. */
  lemma {:induction false} RunsKeepForest(m: Forest, rules: Rules, calls: seq<Call>)
    requires WellFormed(m) && forall i :: 0 <= i < |calls| && calls[i].Add? ==> PlainFlags(rules, calls[i].flags)
    ensures WellFormed(RunOf(m, rules, calls))
    ensures |RunOf(m, rules, calls)| <= |m| || |RunOf(m, rules, calls)| <= rules.limit
    decreases |calls|
  {
    hide WellFormed, Removed, AtrAdd;
    if calls != [] {
      match calls[0] {
        case Add(p, name, value, flags) => AtrAddKeeps(m, rules, p, name, value, flags);
        case Clear(p, name) => RemovedWellFormed(m, p, name, false); FewerKeys(Removed(m, p, name, false).forest, m);
        case Wipe(p, name) => RemovedWellFormed(m, p, name, true); FewerKeys(Removed(m, p, name, true).forest, m);
      }
      RunsKeepForest(Done(m, rules, calls[0]), rules, calls[1..]);
    }
  }

  ghost predicate AllGood(m: Forest, rules: Rules) {
    forall n :: n in m ==> GoodName(rules, n)
  }

  /** Over any run, every name stays one that may be used. */
  lemma {:induction false} RunsKeepNames(m: Forest, rules: Rules, calls: seq<Call>)
    requires WellFormed(m) && AllGood(m, rules) && Plain(rules, calls)
    ensures AllGood(RunOf(m, rules, calls), rules)
    decreases |calls|
  {
    hide WellFormed, Done, GoodName, PlainFlags, AllGood;
    if calls != [] {
      StepNames(m, rules, calls[0]);
      StepWellFormed(m, rules, calls[0]);
      RunsKeepNames(Done(m, rules, calls[0]), rules, calls[1..]);
    }
  }

  lemma StepNames(m: Forest, rules: Rules, call: Call)
    requires WellFormed(m) && AllGood(m, rules)
    ensures AllGood(Done(m, rules, call), rules)
  {
    hide WellFormed, GoodName, Removed, Holds, Below;
    match call {
      case Add(p, name, value, flags) =>
        if Clears(rules, value) {
          RemovedWellFormed(m, p, name, false);
        } else {
          AtrAddStores(m, rules, p, name, value, flags);
          AtrAddOutcome(m, rules, p, name, value, flags);
          hide AtrAdd, CanWrite, MayBranch, CannotWriteThis, Created, DefaultFlags, AttrAt;
          var r := AtrAdd(m, rules, p, name, value, flags);
          forall n | n in r.forest ensures GoodName(rules, n) {
            if n !in m && n != name { GoodAbove(rules, name, n); }
          }
        }
      case Clear(p, name) => RemovedWellFormed(m, p, name, false);
      case Wipe(p, name) => RemovedWellFormed(m, p, name, true);
    }
  }
}
