/** Why joining the two lightest trees again and again gives the cheapest tree. */
module HuffmanOptimal {

  /** A tree of weights. */
  datatype WTree = WLeaf(w: nat) | WNode(l: WTree, r: WTree)

  function Weights(x: WTree): (ws: seq<nat>)
    ensures |ws| > 0
  {
    match x
    case WLeaf(w) => [w]
    case WNode(l, r) => Weights(l) + Weights(r)
  }

  function Sum(x: WTree): nat {
    match x
    case WLeaf(w) => w
    case WNode(l, r) => Sum(l) + Sum(r)
  }

  /** Each weight times its depth, added up. */
  function Cost(x: WTree): nat {
    match x
    case WLeaf(_) => 0
    case WNode(l, r) => Cost(l) + Cost(r) + Sum(l) + Sum(r)
  }

  function Depths(x: WTree, d: nat): (ds: seq<nat>)
    ensures |ds| == |Weights(x)|
  {
    match x
    case WLeaf(_) => [d]
    case WNode(l, r) => Depths(l, d + 1) + Depths(r, d + 1)
  }

  function Dot(ws: seq<nat>, ds: seq<nat>): nat
    requires |ws| == |ds|
  {
    if ws == [] then 0 else ws[0] * ds[0] + Dot(ws[1..], ds[1..])
  }

  lemma {:induction false} DotConcat(a: seq<nat>, b: seq<nat>, x: seq<nat>, y: seq<nat>)
    requires |a| == |x| && |b| == |y|
    ensures Dot(a + b, x + y) == Dot(a, x) + Dot(b, y)
  {
    if a == [] {
      assert a + b == b && x + y == y;
    } else {
      assert (a + b)[1..] == a[1..] + b && (x + y)[1..] == x[1..] + y;
      DotConcat(a[1..], b, x[1..], y);
    }
  }

  lemma {:induction false} DotUpdate(ws: seq<nat>, ds: seq<nat>, k: nat, v: nat)
    requires |ws| == |ds| && k < |ws|
    ensures Dot(ws[k := v], ds) + ws[k] * ds[k] == Dot(ws, ds) + v * ds[k]
  {
    if k > 0 {
      assert ws[k := v][1..] == ws[1..][k - 1 := v];
      DotUpdate(ws[1..], ds[1..], k - 1, v);
    }
  }

  lemma {:induction false} CostIsDot(x: WTree, d: nat)
    ensures Dot(Weights(x), Depths(x, d)) == Cost(x) + d * Sum(x)
  {
    match x
    case WLeaf(w) =>
      assert Dot([w], [d]) == w * d + Dot([], []);
    case WNode(l, r) =>
      CostIsDot(l, d + 1);
      CostIsDot(r, d + 1);
      DotConcat(Weights(l), Weights(r), Depths(l, d + 1), Depths(r, d + 1));
      hide Dot;
      Distribute(d, Sum(l), Sum(r));
  }

  lemma Distribute(d: nat, a: nat, b: nat)
    ensures (d + 1) * a + (d + 1) * b == a + b + d * (a + b)
  {
  }

  // ----- Other weights on the same tree

  function Relabel(x: WTree, ws: seq<nat>): (y: WTree)
    requires |ws| == |Weights(x)|
  {
    match x
    case WLeaf(_) => WLeaf(ws[0])
    case WNode(l, r) => WNode(Relabel(l, ws[..|Weights(l)|]), Relabel(r, ws[|Weights(l)|..]))
  }

  lemma {:induction false} RelabelIs(x: WTree, ws: seq<nat>, d: nat)
    requires |ws| == |Weights(x)|
    ensures Weights(Relabel(x, ws)) == ws && Depths(Relabel(x, ws), d) == Depths(x, d)
  {
    match x
    case WLeaf(_) =>
    case WNode(l, r) =>
      RelabelIs(l, ws[..|Weights(l)|], d + 1);
      RelabelIs(r, ws[|Weights(l)|..], d + 1);
  }

  // ----- A deepest pair of leaves

  function Height(x: WTree): nat {
    match x
    case WLeaf(_) => 0
    case WNode(l, r) => 1 + if Height(l) >= Height(r) then Height(l) else Height(r)
  }

  /** The place of the first of two sibling leaves of greatest depth. */
  function PairPlace(x: WTree): (i: nat)
    requires x.WNode?
    ensures i + 1 < |Weights(x)|
  {
    if x.l.WLeaf? && x.r.WLeaf? then 0
    else if Height(x.l) >= Height(x.r) then PairPlace(x.l)
    else |Weights(x.l)| + PairPlace(x.r)
  }

  /** The tree with that pair joined into one leaf. */
  function Contract(x: WTree): WTree
    requires x.WNode?
  {
    if x.l.WLeaf? && x.r.WLeaf? then WLeaf(x.l.w + x.r.w)
    else if Height(x.l) >= Height(x.r) then WNode(Contract(x.l), x.r)
    else WNode(x.l, Contract(x.r))
  }

  lemma {:induction false} DepthsBounded(x: WTree, d: nat)
    ensures forall k :: 0 <= k < |Depths(x, d)| ==> Depths(x, d)[k] <= d + Height(x)
  {
    if x.WNode? { DepthsBounded(x.l, d + 1); DepthsBounded(x.r, d + 1); }
  }

  lemma {:induction false} PairDeepest(x: WTree, d: nat)
    requires x.WNode?
    ensures var i := PairPlace(x); Depths(x, d)[i] == Depths(x, d)[i + 1] == d + Height(x)
  {
    if x.l.WLeaf? && x.r.WLeaf? {
    } else if Height(x.l) >= Height(x.r) {
      PairDeepest(x.l, d + 1);
    } else {
      PairDeepest(x.r, d + 1);
    }
  }

  /** The weights with the two at `i` and `i + 1` joined. */
  function Joined(ws: seq<nat>, i: nat): seq<nat>
    requires i + 1 < |ws|
  {
    ws[..i] + [ws[i] + ws[i + 1]] + ws[i + 2..]
  }

  /** `y` is `x` with the two leaves at `i` joined. */
  predicate JoinedAt(x: WTree, y: WTree, i: nat) {
    var ws := Weights(x);
    i + 1 < |ws| && Weights(y) == Joined(ws, i) && Sum(y) == Sum(x) && Cost(x) == Cost(y) + ws[i] + ws[i + 1]
  }

  lemma NodeSums(l: WTree, r: WTree)
    ensures Weights(WNode(l, r)) == Weights(l) + Weights(r)
    ensures Sum(WNode(l, r)) == Sum(l) + Sum(r) && Cost(WNode(l, r)) == Cost(l) + Cost(r) + Sum(l) + Sum(r)
  {
  }

  lemma JoinedLeft(l: WTree, r: WTree, y: WTree, i: nat)
    requires JoinedAt(l, y, i)
    ensures JoinedAt(WNode(l, r), WNode(y, r), i)
  {
    hide Joined, Weights, Sum, Cost;
    NodeSums(l, r);
    NodeSums(y, r);
    JoinedConcat(Weights(l), Weights(r), i);
  }

  lemma JoinedRight(l: WTree, r: WTree, y: WTree, i: nat)
    requires JoinedAt(r, y, i)
    ensures JoinedAt(WNode(l, r), WNode(l, y), |Weights(l)| + i)
  {
    hide Joined, Weights, Sum, Cost, JoinedAt;
    JoinedAtMeans(r, y, i);
    NodeSums(l, r);
    NodeSums(l, y);
    JoinedConcat'(Weights(l), Weights(r), i);
    JoinedAtMeans(WNode(l, r), WNode(l, y), |Weights(l)| + i);
  }

  lemma JoinedAtMeans(x: WTree, y: WTree, i: nat)
    ensures JoinedAt(x, y, i) <==>
            && i + 1 < |Weights(x)| && Weights(y) == Joined(Weights(x), i) && Sum(y) == Sum(x)
            && Cost(x) == Cost(y) + Weights(x)[i] + Weights(x)[i + 1]
  {
  }

  lemma JoinedLeaves(v: nat, w: nat)
    ensures JoinedAt(WNode(WLeaf(v), WLeaf(w)), WLeaf(v + w), 0)
  {
  }

  lemma {:induction false} ContractJoins(x: WTree)
    requires x.WNode?
    ensures JoinedAt(x, Contract(x), PairPlace(x))
  {
    hide JoinedAt, Weights;
    if x.l.WLeaf? && x.r.WLeaf? {
      JoinedLeaves(x.l.w, x.r.w);
    } else if Height(x.l) >= Height(x.r) {
      ContractJoins(x.l);
      JoinedLeft(x.l, x.r, Contract(x.l), PairPlace(x.l));
    } else {
      ContractJoins(x.r);
      JoinedRight(x.l, x.r, Contract(x.r), PairPlace(x.r));
    }
  }

  lemma ContractIs(x: WTree)
    requires x.WNode?
    ensures var i, ws := PairPlace(x), Weights(x);
            && Weights(Contract(x)) == Joined(ws, i)
            && Sum(Contract(x)) == Sum(x)
            && Cost(x) == Cost(Contract(x)) + ws[i] + ws[i + 1]
  {
    ContractJoins(x);
    hide Weights, Joined, Contract, PairPlace;
  }

  lemma JoinedConcat(a: seq<nat>, b: seq<nat>, i: nat)
    requires i + 1 < |a|
    ensures Joined(a + b, i) == Joined(a, i) + b && (a + b)[i] == a[i] && (a + b)[i + 1] == a[i + 1]
  {
  }

  lemma JoinedConcat'(a: seq<nat>, b: seq<nat>, i: nat)
    requires i + 1 < |b|
    ensures Joined(a + b, |a| + i) == a + Joined(b, i) && (a + b)[|a| + i] == b[i] && (a + b)[|a| + i + 1] == b[i + 1]
  {
  }

  // ----- The exchange

  function Swap(ws: seq<nat>, i: nat, j: nat): seq<nat>
    requires i < |ws| && j < |ws|
  {
    ws[i := ws[j]][j := ws[i]]
  }

  lemma SwapMultiset(ws: seq<nat>, i: nat, j: nat)
    requires i < |ws| && j < |ws|
    ensures multiset(Swap(ws, i, j)) == multiset(ws)
  {
  }

  /** Moving the lighter of two weights to the deeper place does not cost more. */
  lemma SwapCheaper(ws: seq<nat>, ds: seq<nat>, i: nat, j: nat)
    requires |ws| == |ds| && i < |ws| && j < |ws|
    requires ws[j] <= ws[i] && ds[j] <= ds[i]
    ensures Dot(Swap(ws, i, j), ds) <= Dot(ws, ds)
  {
    hide Dot;
    if i != j {
      DotUpdate(ws, ds, i, ws[j]);
      DotUpdate(ws[i := ws[j]], ds, j, ws[i]);
      Rearrange(ws[i], ws[j], ds[i], ds[j]);
    } else {
      assert Swap(ws, i, j) == ws;
    }
  }

  lemma Rearrange(x: nat, y: nat, p: nat, q: nat)
    requires y <= x && q <= p
    ensures y * p + x * q <= x * p + y * q
  {
    assert (x - y) * (p - q) >= 0;
  }

  function Bag(ws: seq<nat>): multiset<nat> {
    multiset(ws)
  }

  /** `a` and `b` are the two least of a multiset. */
  predicate TwoLeast(ms: multiset<nat>, a: nat, b: nat) {
    a <= b && multiset{a, b} <= ms && forall x :: x in ms - multiset{a} ==> b <= x
  }

  /** The least weight goes to the deep place `i`. */
  lemma BringFirst(ws: seq<nat>, ds: seq<nat>, i: nat, a: nat) returns (us: seq<nat>)
    requires |ws| == |ds| && i < |ws|
    requires forall k :: 0 <= k < |ds| ==> ds[k] <= ds[i]
    requires a in ws && forall k :: 0 <= k < |ws| ==> a <= ws[k]
    ensures |us| == |ws| && multiset(us) == multiset(ws) && us[i] == a && Dot(us, ds) <= Dot(ws, ds)
  {
    hide Dot;
    var p :| 0 <= p < |ws| && ws[p] == a;
    SwapCheaper(ws, ds, i, p);
    SwapMultiset(ws, i, p);
    us := Swap(ws, i, p);
    assert |us| == |ws|;
  }

  /** The least of the others goes to the deep place `i + 1`. */
  lemma BringSecond(us: seq<nat>, ds: seq<nat>, i: nat, b: nat) returns (vs: seq<nat>)
    requires |us| == |ds| && i + 1 < |us|
    requires forall k :: 0 <= k < |ds| ==> ds[k] <= ds[i + 1]
    requires exists q :: 0 <= q < |us| && q != i && us[q] == b
    requires b <= us[i + 1]
    ensures |vs| == |us| && multiset(vs) == multiset(us) && vs[i] == us[i] && vs[i + 1] == b && Dot(vs, ds) <= Dot(us, ds)
  {
    hide Dot;
    var q :| 0 <= q < |us| && q != i && us[q] == b;
    SwapCheaper(us, ds, i + 1, q);
    SwapMultiset(us, i + 1, q);
    vs := Swap(us, i + 1, q);
    assert |vs| == |us|;
  }

  /** What is left of a multiset of weights without the one at `i`. */
  lemma Without(us: seq<nat>, i: nat, b: nat)
    requires i + 1 < |us| && b in multiset(us) - multiset{us[i]}
    ensures exists q :: 0 <= q < |us| && q != i && us[q] == b
    ensures us[i + 1] in multiset(us) - multiset{us[i]}
  {
    var rest := us[..i] + us[i + 1..];
    assert us == us[..i] + [us[i]] + us[i + 1..];
    assert multiset(rest) == multiset(us) - multiset{us[i]};
    var q' :| 0 <= q' < |rest| && rest[q'] == b;
    assert us[if q' < i then q' else q' + 1] == b;
    assert rest[i] == us[i + 1];
  }

  /** The weights can be rearranged, at no cost, to have the two least side by
      side in the deepest places. */
  lemma BringDown(ws: seq<nat>, ds: seq<nat>, i: nat, a: nat, b: nat) returns (vs: seq<nat>)
    requires |ws| == |ds| && i + 1 < |ws|
    requires forall k :: 0 <= k < |ds| ==> ds[k] <= ds[i] && ds[k] <= ds[i + 1]
    requires TwoLeast(multiset(ws), a, b)
    ensures |vs| == |ws| && multiset(vs) == multiset(ws) && vs[i] == a && vs[i + 1] == b
    ensures Dot(vs, ds) <= Dot(ws, ds)
  {
    hide Dot;
    LeastIs(multiset(ws), a, b);
    forall k | 0 <= k < |ws| ensures a <= ws[k] { assert ws[k] in multiset(ws); }
    var us := BringFirst(ws, ds, i, a);
    Without(us, i, b);
    vs := BringSecond(us, ds, i, b);
  }

  lemma LeastIs(ms: multiset<nat>, a: nat, b: nat)
    requires TwoLeast(ms, a, b)
    ensures forall x :: x in ms ==> a <= x
    ensures a in ms && b in ms - multiset{a}
  {
    forall x | x in ms ensures a <= x {
      assert x == a || x in ms - multiset{a};
    }
    assert multiset{a, b} - multiset{a} == multiset{b};
    assert (ms - multiset{a})[b] >= 1;
  }

  /** For every tree over `ms` there is one over `ms` with the two least joined
      that is cheaper by at least what the join costs. */
  lemma ExchangeTwoLeast(x: WTree, a: nat, b: nat) returns (y: WTree)
    requires TwoLeast(multiset(Weights(x)), a, b)
    ensures multiset(Weights(y)) == multiset(Weights(x)) - Bag([a, b]) + Bag([a + b])
    ensures Cost(y) + a + b <= Cost(x)
  {
    hide *;
    var z := BringDownTree(x, a, b);
    ContractIs(z);
    y := Contract(z);
    JoinedBag(Weights(z), PairPlace(z));
  }

  /** The same shape with the two least weights on a deepest pair of leaves. */
  lemma BringDownTree(x: WTree, a: nat, b: nat) returns (z: WTree)
    requires TwoLeast(multiset(Weights(x)), a, b)
    ensures z.WNode? && multiset(Weights(z)) == multiset(Weights(x)) && Cost(z) <= Cost(x)
    ensures Weights(z)[PairPlace(z)] == a && Weights(z)[PairPlace(z) + 1] == b
  {
    hide Dot, Depths, Weights, Relabel, Cost, TwoLeast, PairPlace, Height;
    NotOne(x, a, b);
    var ws, ds, i := Weights(x), Depths(x, 0), PairPlace(x);
    PairDeepest(x, 0);
    DepthsBounded(x, 0);
    var vs := BringDown(ws, ds, i, a, b);
    z := Relabel(x, vs);
    RelabelIs(x, vs, 0);
    RelabelPlace(x, vs);
    CostIsDot(x, 0);
    CostIsDot(z, 0);
  }

  lemma NotOne(x: WTree, a: nat, b: nat)
    requires TwoLeast(multiset(Weights(x)), a, b)
    ensures x.WNode?
  {
    match x
    case WLeaf(w) => assert Weights(x) == [w]; OneIsNotTwo(w, a, b);
    case WNode(_, _) =>
  }

  lemma OneIsNotTwo(w: nat, a: nat, b: nat)
    ensures !TwoLeast(multiset([w]), a, b)
  {
    assert multiset([w]) == multiset{w};
  }

  lemma JoinedBag(vs: seq<nat>, i: nat)
    requires i + 1 < |vs|
    ensures multiset(Joined(vs, i)) == multiset(vs) - Bag([vs[i], vs[i + 1]]) + Bag([vs[i] + vs[i + 1]])
  {
    assert vs == vs[..i] + [vs[i], vs[i + 1]] + vs[i + 2..];
  }

  lemma {:induction false} RelabelPlace(x: WTree, ws: seq<nat>)
    requires |ws| == |Weights(x)|
    ensures Height(Relabel(x, ws)) == Height(x)
    ensures x.WNode? ==> Relabel(x, ws).WNode? && PairPlace(Relabel(x, ws)) == PairPlace(x)
  {
    match x
    case WLeaf(_) =>
    case WNode(l, r) =>
      RelabelPlace(l, ws[..|Weights(l)|]);
      RelabelPlace(r, ws[|Weights(l)|..]);
      RelabelIs(l, ws[..|Weights(l)|], 0);
  }
}
