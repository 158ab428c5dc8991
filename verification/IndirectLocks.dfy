/** Locks that evaluate other locks.  The graph of indirect locks may have
    cycles, and so may that of the locks which say who may look at a lock; a
    counter of nested evaluations cuts them off. */
module IndirectLocks {
  import opened Bytes
  import opened LockTree
  import opened LockAsm
  import opened LockBytecode
  import opened LockCompiler
  import opened LockCleanup
  import opened LockReload

  const EXAMINE_LOCK: Text := [69, 120, 97, 109, 105, 110, 101]
  const ZONE_LOCK: Text := [90, 111, 110, 101]
  const CONTROL_LOCK: Text := [67, 111, 110, 116, 114, 111, 108]

  /** A lock in the database: the tree that it was parsed as, and its bytecode
      as it is now, with what has been cleaned up since. */
  datatype Kept = Kept(n: Node, code: seq<Byte>)

  /** What flags, powers and ownership say about one object controlling another;
      where they leave it open, locks decide. */
  datatype Rank = Granted | Denied | ByLocks

  /** The server while locks are evaluated.  `player` below is who tries the lock
      under evaluation, and `target` the object that carries it, on whose behalf
      the tests are made.  `lockOn` is the lock of a given name on an object or
      its parents, `ownLock` that on the object itself; None is the lock that is
      always open.  `level` is the number of evaluations that are under way,
      which softcode run by a test can come to see: the locks that it evaluates
      in its turn start from there. */
  datatype Game<!S> = Game(
    maxDepth: nat,
    good: (S, int) -> bool,
    live: (S, int) -> bool,
    holds: (S, int, int) -> bool,                      // (state, player, thing)
    kind: (S, int) -> ObjType,
    probe: (S, nat, int, int, Probe) -> (bool, S),     // (state, level, player, target, test)
    seeAll: (S, int) -> bool,
    visual: (S, int, Text) -> bool,                    // (state, object, lock name)
    rank: (S, int, int) -> Rank,                       // (state, who, what)
    zone: (S, int) -> Option<int>,
    master: (S, int) -> Option<int>,                   // the owner, if a zone master
    lockOn: (S, int, Text) -> Option<Kept>,
    ownLock: (S, int, Text) -> Option<Kept>
  )

  /** How a lock is evaluated: by the meaning of its tree, or by running its
      bytecode. */
  datatype Way = ByTree | ByMachine

  /** The tests around which the level is raised. */
  predicate Raises(p: Probe) {
    match p
    case ProbeAtr(_, _) => true
    case ProbeEval(_, _) => true
    case ProbeInd(_, _) => true
    case ProbeOwner(_) => false
    case ProbeFlag(key, _) => key == NAME || key == CHANNEL || key == IP || key == HOSTNAME
  }

  /** The instructions that make them. */
  predicate RaisingOp(op: Op) {
    op == TATR || op == TEVAL || op == TIND || op == TNAME || op == TCHANNEL || op == TIP || op == THOSTNAME
  }

  function LevelOf(p: Probe, depth: nat): nat {
    if Raises(p) then depth + 1 else depth
  }

  /** How many more levels of nesting there can be. */
  function Left<S>(g: Game<S>, depth: nat): nat {
    if depth > g.maxDepth then 0 else g.maxDepth + 1 - depth
  }

  /** What a lock decides, each indirect lock in it that the target may read
      being decided in turn, one level deeper. */
  function Decide<S>(g: Game<S>, way: Way, depth: nat, player: int, lock: Option<Kept>, target: int, s: S): (bool, S)
    decreases Left(g, depth), 1
  {
    if !g.good(s, player) || depth > g.maxDepth then (false, s)
    else if lock.None? then (true, s)
    else if way == ByTree then EvalNode(WorldAt(g, way, depth, player, target), lock.value.n, false, s)
    else RunBytes(WorldAt(g, way, depth, player, target), lock.value.code, Vm(0, false, -1, s))
  }

  function WorldAt<S>(g: Game<S>, way: Way, depth: nat, player: int, target: int): World<S>
    requires depth <= g.maxDepth
    decreases Left(g, depth), 0
  {
    World(player, g.live, (s: S, x: int) => g.holds(s, player, x), (s: S) => g.kind(s, player),
          (s: S, p: Probe) =>
            if !p.ProbeInd? then g.probe(s, LevelOf(p, depth), player, target, p)
            else
              var (ok, s1) := CanRead(g, way, depth + 1, target, p.thing, p.lock, s);
              if ok then Decide(g, way, depth + 1, player, g.lockOn(s1, p.thing, p.lock), p.thing, s1) else (false, s1))
  }

  /** Whether `who` passes the zone lock of `z`, if there is such an object. */
  function PassesZone<S>(g: Game<S>, way: Way, depth: nat, who: int, z: Option<int>, s: S): (bool, S)
    decreases Left(g, depth), 2
  {
    if z.None? then (false, s) else Decide(g, way, depth, who, g.lockOn(s, z.value, ZONE_LOCK), z.value, s)
  }

  function Controls<S>(g: Game<S>, way: Way, depth: nat, who: int, what: int, s: S): (bool, S)
    decreases Left(g, depth), 3
  {
    match g.rank(s, who, what)
    case Granted => (true, s)
    case Denied => (false, s)
    case ByLocks =>
      var (r1, s1) := PassesZone(g, way, depth, who, g.zone(s, what), s);
      if r1 then (true, s1) else
        var (r2, s2) := PassesZone(g, way, depth, who, g.master(s1, what), s1);
        if r2 then (true, s2) else
          var own := g.ownLock(s2, what, CONTROL_LOCK);
          if own.None? then (false, s2) else Decide(g, way, depth, who, own, what, s2)
  }

  /** Whether `reader` may read the lock `name` on `x`, which can take the
      evaluation of the locks that say so. */
  function CanRead<S>(g: Game<S>, way: Way, depth: nat, reader: int, x: int, name: Text, s: S): (bool, S)
    decreases Left(g, depth), 4
  {
    if g.seeAll(s, reader) then (true, s) else
      var (r, s1) := Controls(g, way, depth, reader, x, s);
      if r then (true, s1)
      else if !g.visual(s1, x, name) then (false, s1)
      else Decide(g, way, depth, reader, g.lockOn(s1, x, EXAMINE_LOCK), x, s1)
  }

  /** What an indirect test amounts to. */
  lemma IndirectMeans<S>(g: Game<S>, way: Way, depth: nat, player: int, target: int, arg: int, name: Text, s: S)
    requires depth <= g.maxDepth
    ensures TestLive(WorldAt(g, way, depth, player, target), arg, ProbeInd(arg, name), s) ==
            if !g.live(s, arg) then (false, s)
            else
              var (ok, s1) := CanRead(g, way, depth + 1, target, arg, name, s);
              if ok then Decide(g, way, depth + 1, player, g.lockOn(s1, arg, name), arg, s1) else (false, s1)
  {
    hide Decide, CanRead;
  }

  /** The softcode that a test on an attribute runs finds the level raised by one,
      so that locks it evaluates come under the same limit. */
  lemma SoftcodeLevel<S>(g: Game<S>, way: Way, depth: nat, player: int, target: int, name: Text, text: Text, s: S)
    requires depth <= g.maxDepth
    ensures var w := WorldAt(g, way, depth, player, target);
            && w.probe(s, ProbeAtr(name, text)) == g.probe(s, depth + 1, player, target, ProbeAtr(name, text))
            && w.probe(s, ProbeEval(name, text)) == g.probe(s, depth + 1, player, target, ProbeEval(name, text))
  {
    ProbeMeans(g, way, depth, player, target, ProbeAtr(name, text), s);
    ProbeMeans(g, way, depth, player, target, ProbeEval(name, text), s);
    hide WorldAt;
  }

  lemma ProbeMeans<S>(g: Game<S>, way: Way, depth: nat, player: int, target: int, p: Probe, s: S)
    requires depth <= g.maxDepth && !p.ProbeInd?
    ensures WorldAt(g, way, depth, player, target).probe(s, p) == g.probe(s, LevelOf(p, depth), player, target, p)
  {
    hide Decide, CanRead;
  }

  // ----- The machine decides as the trees do

  /** The bytecode is the compiled tree after any number of cleanups, each of
      objects that are gone for good. */
  ghost predicate Sound<S(!new)>(g: Game<S>, k: Kept) {
    Compilable(k.n) && exists gs :: k.code == CleanedAll(Compile(k.n), gs) && AllDead(g.live, gs)
  }

  ghost predicate SoundLock<S(!new)>(g: Game<S>, lock: Option<Kept>) {
    lock.Some? ==> Sound(g, lock.value)
  }

  /** Every lock in the database is like that. */
  ghost predicate AllSound<S(!new)>(g: Game<S>) {
    forall s: S, x: int, name: Text :: SoundLock(g, g.lockOn(s, x, name)) && SoundLock(g, g.ownLock(s, x, name))
  }

  lemma SoundRuns<S(!new)>(g: Game<S>, k: Kept, w: World<S>, s: S)
    requires Sound(g, k) && w.live == g.live
    ensures RunBytes(w, k.code, Vm(0, false, -1, s)) == EvalNode(w, k.n, false, s)
    ensures SafeRun(w, k.code, CodeLength(k.n), Vm(0, false, -1, s))
  {
    hide RunBytes, EvalNode, SafeRun, Compile, CleanedAll, AllDead, CodeLength;
    var gs :| k.code == CleanedAll(Compile(k.n), gs) && AllDead(g.live, gs);
    CleanupsMeaning(w, k.n, gs, s);
  }

  /** Compilation and cleanup are correct across locks that evaluate each other:
      however the locks in the database refer to one another and guard one
      another, the machine decides what the trees say and makes the same probes
      in the same order. */
  lemma {:induction false} DecideCompiledCorrect<S(!new)>(g: Game<S>, depth: nat, player: int, lock: Option<Kept>,
          target: int, s: S)
    requires AllSound(g) && SoundLock(g, lock)
    ensures Decide(g, ByMachine, depth, player, lock, target, s) == Decide(g, ByTree, depth, player, lock, target, s)
    decreases Left(g, depth), 1
  {
    hide AllSound, Sound;
    if depth <= g.maxDepth && lock.Some? {
      var w, v := WorldAt(g, ByMachine, depth, player, target), WorldAt(g, ByTree, depth, player, target);
      SoundRuns(g, lock.value, w, s);
      hide RunBytes, EvalNode, SafeRun;
      forall t: S, p: Probe ensures w.probe(t, p) == v.probe(t, p) {
        WorldsAgree(g, depth, player, target, t, p);
      }
      EvalNodeCongruence(w, v, lock.value.n, false, s);
    }
  }

  lemma {:induction false} WorldsAgree<S(!new)>(g: Game<S>, depth: nat, player: int, target: int, s: S, p: Probe)
    requires AllSound(g) && depth <= g.maxDepth
    ensures WorldAt(g, ByMachine, depth, player, target).probe(s, p) == WorldAt(g, ByTree, depth, player, target).probe(s, p)
    decreases Left(g, depth), 0
  {
    if p.ProbeInd? {
      ReadersAgree(g, depth + 1, target, p.thing, p.lock, s);
      var (ok, s1) := CanRead(g, ByTree, depth + 1, target, p.thing, p.lock, s);
      SoundThere(g, s1, p.thing, p.lock);
      hide AllSound, CanRead, Decide, SoundLock;
      DecideCompiledCorrect(g, depth + 1, player, g.lockOn(s1, p.thing, p.lock), p.thing, s1);
    }
  }

  lemma SoundThere<S(!new)>(g: Game<S>, s: S, x: int, name: Text)
    requires AllSound(g)
    ensures SoundLock(g, g.lockOn(s, x, name)) && SoundLock(g, g.ownLock(s, x, name))
  {
  }

  lemma {:induction false} ZonesAgree<S(!new)>(g: Game<S>, depth: nat, who: int, z: Option<int>, s: S)
    requires AllSound(g)
    ensures PassesZone(g, ByMachine, depth, who, z, s) == PassesZone(g, ByTree, depth, who, z, s)
    decreases Left(g, depth), 2
  {
    if z.Some? {
      SoundThere(g, s, z.value, ZONE_LOCK);
      hide AllSound, SoundLock, Decide;
      DecideCompiledCorrect(g, depth, who, g.lockOn(s, z.value, ZONE_LOCK), z.value, s);
    }
  }

  lemma {:induction false} ControlsAgree<S(!new)>(g: Game<S>, depth: nat, who: int, what: int, s: S)
    requires AllSound(g)
    ensures Controls(g, ByMachine, depth, who, what, s) == Controls(g, ByTree, depth, who, what, s)
    decreases Left(g, depth), 3
  {
    hide Decide, PassesZone;
    var (r1, s1) := PassesZone(g, ByTree, depth, who, g.zone(s, what), s);
    var (r2, s2) := PassesZone(g, ByTree, depth, who, g.master(s1, what), s1);
    ZonesAgree(g, depth, who, g.zone(s, what), s);
    ZonesAgree(g, depth, who, g.master(s1, what), s1);
    SoundThere(g, s2, what, CONTROL_LOCK);
    hide AllSound, SoundLock;
    DecideCompiledCorrect(g, depth, who, g.ownLock(s2, what, CONTROL_LOCK), what, s2);
  }

  lemma {:induction false} ReadersAgree<S(!new)>(g: Game<S>, depth: nat, reader: int, x: int, name: Text, s: S)
    requires AllSound(g)
    ensures CanRead(g, ByMachine, depth, reader, x, name, s) == CanRead(g, ByTree, depth, reader, x, name, s)
    decreases Left(g, depth), 4
  {
    hide Decide, Controls;
    var (r, s1) := Controls(g, ByTree, depth, reader, x, s);
    ControlsAgree(g, depth, reader, x, s);
    SoundThere(g, s1, x, EXAMINE_LOCK);
    hide AllSound, SoundLock;
    DecideCompiledCorrect(g, depth, reader, g.lockOn(s1, x, EXAMINE_LOCK), x, s1);
  }

  // ----- Rings

  /** The lock refers to one of `ring` and asks nothing else. */
  predicate RefersInto<S>(g: Game<S>, ring: set<(int, Text)>, x: int, name: Text, s: S) {
    var lock := g.lockOn(s, x, name);
    lock.Some? && lock.value.n.Ind? && (lock.value.n.thing, lock.value.n.lock) in ring
  }

  /** Locks that are nothing but indirect locks on one another stay shut, whoever
      tries them, whatever object carries them, and however deep the evaluation is
      already: the limit is what ends it. */
  lemma {:induction false} RingShut<S(!new)>(g: Game<S>, ring: set<(int, Text)>, depth: nat, player: int, x: int,
          name: Text, target: int, s: S)
    requires forall st: S, p :: p in ring ==> RefersInto(g, ring, p.0, p.1, st)
    requires (x, name) in ring
    ensures !Decide(g, ByTree, depth, player, g.lockOn(s, x, name), target, s).0
    decreases Left(g, depth)
  {
    var here := (x, name);
    assert RefersInto(g, ring, here.0, here.1, s);
    var n := g.lockOn(s, x, name).value.n;
    if depth <= g.maxDepth {
      hide CanRead;
      var (ok, s1) := CanRead(g, ByTree, depth + 1, target, n.thing, n.lock, s);
      RingShut(g, ring, depth + 1, player, n.thing, n.lock, n.thing, s1);
    }
  }

  /** Whether a lock may be read is settled without evaluating any. */
  predicate Settled<S>(g: Game<S>, s: S, reader: int, x: int, name: Text) {
    g.seeAll(s, reader) || g.rank(s, reader, x).Granted? || (g.rank(s, reader, x).Denied? && !g.visual(s, x, name))
  }

  lemma ReadSettled<S>(g: Game<S>, depth: nat, reader: int, x: int, name: Text, s: S)
    requires Settled(g, s, reader, x, name)
    ensures CanRead(g, ByTree, depth, reader, x, name, s).1 == s
  {
    hide Decide;
  }

  /** When who may read them is settled, they ask nothing either. */
  lemma {:induction false} RingQuiet<S(!new)>(g: Game<S>, ring: set<(int, Text)>, depth: nat, player: int, x: int,
          name: Text, target: int, s: S)
    requires forall p :: p in ring ==> RefersInto(g, ring, p.0, p.1, s) && forall r :: Settled(g, s, r, p.0, p.1)
    requires (x, name) in ring
    ensures Decide(g, ByTree, depth, player, g.lockOn(s, x, name), target, s) == (false, s)
    decreases Left(g, depth)
  {
    var here := (x, name);
    assert RefersInto(g, ring, here.0, here.1, s);
    var n := g.lockOn(s, x, name).value.n;
    var next := (n.thing, n.lock);
    assert next in ring;
    if depth <= g.maxDepth {
      IndirectMeans(g, ByTree, depth, player, target, n.thing, n.lock, s);
      ReadSettled(g, depth + 1, target, next.0, next.1, s);
      hide CanRead, WorldAt, TestLive;
      RingQuiet(g, ring, depth + 1, player, n.thing, n.lock, n.thing, s);
    }
  }

  /** And so it is when they are compiled, and cleaned up. */
  lemma RingShutCompiled<S(!new)>(g: Game<S>, ring: set<(int, Text)>, depth: nat, player: int, x: int, name: Text,
          target: int, s: S)
    requires AllSound(g)
    requires forall st: S, p :: p in ring ==> RefersInto(g, ring, p.0, p.1, st)
    requires (x, name) in ring
    ensures !Decide(g, ByMachine, depth, player, g.lockOn(s, x, name), target, s).0
    ensures (forall p, r :: p in ring ==> Settled(g, s, r, p.0, p.1)) ==>
              Decide(g, ByMachine, depth, player, g.lockOn(s, x, name), target, s) == (false, s)
  {
    SoundThere(g, s, x, name);
    RingShut(g, ring, depth, player, x, name, target, s);
    if forall p, r :: p in ring ==> Settled(g, s, r, p.0, p.1) {
      RingQuiet(g, ring, depth, player, x, name, target, s);
    }
    hide Decide, AllSound, SoundLock, RefersInto;
    DecideCompiledCorrect(g, depth, player, g.lockOn(s, x, name), target, s);
  }

  // ----- Open locks

  lemma TrueCompilable(n: Node)
    requires n == Bool(true)
    ensures Compilable(n)
  {
    TrueIs(n);
    CompileIsTreeBytes(n);
    TreeBytesLength(n);
    hide Compile, TreeBytes;
  }

  lemma TrueIs(n: Node)
    requires n == Bool(true)
    ensures Storable(n) && Optimize(n) == n && StrsAfter([], n) == [] && StringSection([]) == [] && InsnCount(n, Alone) == 1
  {
  }

  /** No lock decides what the compiled lock `#true` does, by its tree and by its
      bytes: it lets in whoever is a good object, unless the evaluation is too
      deep. */
  lemma NoLockIsTrue<S(!new)>(g: Game<S>, way: Way, depth: nat, player: int, k: Kept, target: int, s: S)
    requires k.n == Bool(true) && k.code == Compile(k.n)
    ensures Decide(g, way, depth, player, None, target, s) == Decide(g, way, depth, player, Some(k), target, s)
    ensures Decide(g, way, depth, player, None, target, s) == (g.good(s, player) && depth <= g.maxDepth, s)
  {
    hide Decide, Compile, RunBytes, SafeRun, WorldAt;
    DecideIs(g, way, depth, player, None, target, s);
    DecideIs(g, way, depth, player, Some(k), target, s);
    if depth <= g.maxDepth { TrueRuns(WorldAt(g, way, depth, player, target), k.n, s); }
  }

  lemma TrueRuns<S(!new)>(w: World<S>, n: Node, s: S)
    requires n == Bool(true)
    ensures EvalNode(w, n, false, s) == (true, s)
    ensures RunBytes(w, Compile(n), Vm(0, false, -1, s)) == (true, s)
  {
    hide Compile, RunBytes, SafeRun, Compilable, CodeLength;
    TrueCompilable(n);
    CompileCorrect(w, n, s);
  }

  lemma DecideIs<S>(g: Game<S>, way: Way, depth: nat, player: int, lock: Option<Kept>, target: int, s: S)
    ensures Decide(g, way, depth, player, lock, target, s) ==
            if !g.good(s, player) || depth > g.maxDepth then (false, s)
            else if lock.None? then (true, s)
            else if way == ByTree then EvalNode(WorldAt(g, way, depth, player, target), lock.value.n, false, s)
            else RunBytes(WorldAt(g, way, depth, player, target), lock.value.code, Vm(0, false, -1, s))
  {
    hide WorldAt, EvalNode, RunBytes;
  }

  /** `reader` may read locks on `x` whatever the locks in the database say. */
  predicate LetsRead<S>(g: Game<S>, s: S, reader: int, x: int) {
    g.seeAll(s, reader) || g.rank(s, reader, x).Granted?
  }

  /** Each lock but the last is an indirect lock on the next one, which may be
      read, and the last one is not there.  `target` carries the first. */
  predicate LeadsOpen<S>(g: Game<S>, links: seq<(int, Text)>, target: int, s: S) {
    && links != []
    && var lock := g.lockOn(s, links[0].0, links[0].1);
       if |links| == 1 then lock.None?
       else
         && lock.Some? && lock.value.n == Ind(links[1].0, links[1].1) && g.live(s, links[1].0)
         && LetsRead(g, s, target, links[1].0) && LeadsOpen(g, links[1..], links[1].0, s)
  }

  /** Indirect locks that lead to no lock are open as far as the limit goes, and
      ask nothing. */
  lemma {:induction false} ChainOpen<S(!new)>(g: Game<S>, links: seq<(int, Text)>, depth: nat, player: int, target: int, s: S)
    requires LeadsOpen(g, links, target, s) && g.good(s, player)
    ensures Decide(g, ByTree, depth, player, g.lockOn(s, links[0].0, links[0].1), target, s) ==
            (depth + |links| - 1 <= g.maxDepth, s)
    decreases |links|
  {
    if |links| > 1 && depth <= g.maxDepth {
      var next := links[1];
      IndirectMeans(g, ByTree, depth, player, target, next.0, next.1, s);
      ReadLet(g, depth + 1, target, next.0, next.1, s);
      hide CanRead, WorldAt, TestLive, LetsRead;
      ChainOpen(g, links[1..], depth + 1, player, next.0, s);
    }
  }

  lemma ReadLet<S>(g: Game<S>, depth: nat, reader: int, x: int, name: Text, s: S)
    requires LetsRead(g, s, reader, x)
    ensures CanRead(g, ByTree, depth, reader, x, name, s) == (true, s)
  {
    hide Decide;
  }

  lemma ChainOpenCompiled<S(!new)>(g: Game<S>, links: seq<(int, Text)>, depth: nat, player: int, target: int, s: S)
    requires AllSound(g) && LeadsOpen(g, links, target, s) && g.good(s, player)
    ensures Decide(g, ByMachine, depth, player, g.lockOn(s, links[0].0, links[0].1), target, s) ==
            (depth + |links| - 1 <= g.maxDepth, s)
  {
    SoundThere(g, s, links[0].0, links[0].1);
    ChainOpen(g, links, depth, player, target, s);
    hide Decide, AllSound, SoundLock, LeadsOpen;
    DecideCompiledCorrect(g, depth, player, g.lockOn(s, links[0].0, links[0].1), target, s);
  }

  // ----- Who may read a lock

  /** Where evaluating locks leaves the server as it is, one granting fact or one
      lock that is passed is enough, in whatever order they come, and without any
      a lock may not be read. */
  lemma WhoMayRead<S(!new)>(g: Game<S>, way: Way, depth: nat, reader: int, x: int, name: Text, s: S)
    requires forall lock, target :: Decide(g, way, depth, reader, lock, target, s).1 == s
    ensures CanRead(g, way, depth, reader, x, name, s).1 == s
    ensures CanRead(g, way, depth, reader, x, name, s).0 <==>
            || (g.visual(s, x, name) && Decide(g, way, depth, reader, g.lockOn(s, x, EXAMINE_LOCK), x, s).0)
            || g.seeAll(s, reader) || g.rank(s, reader, x).Granted?
            || (g.rank(s, reader, x).ByLocks? && PassesOne(g, way, depth, reader, x, s))
  {
    CanReadIs(g, way, depth, reader, x, name, s);
    hide Decide, Controls, CanRead, PassesOne;
    WhoControls(g, way, depth, reader, x, s);
    var d := Decide(g, way, depth, reader, g.lockOn(s, x, EXAMINE_LOCK), x, s);
    assert d.1 == s;
  }

  lemma WhoControls<S(!new)>(g: Game<S>, way: Way, depth: nat, who: int, what: int, s: S)
    requires forall lock, target :: Decide(g, way, depth, who, lock, target, s).1 == s
    ensures Controls(g, way, depth, who, what, s) ==
            (g.rank(s, who, what).Granted? || (g.rank(s, who, what).ByLocks? && PassesOne(g, way, depth, who, what, s)), s)
  {
    ControlsIs(g, way, depth, who, what, s);
    ZoneIs(g, way, depth, who, g.zone(s, what), s);
    ZoneIs(g, way, depth, who, g.master(s, what), s);
    hide Decide, Controls, PassesZone;
    if g.zone(s, what).Some? {
      assert Decide(g, way, depth, who, g.lockOn(s, g.zone(s, what).value, ZONE_LOCK), g.zone(s, what).value, s).1 == s;
    }
    if g.master(s, what).Some? {
      assert Decide(g, way, depth, who, g.lockOn(s, g.master(s, what).value, ZONE_LOCK), g.master(s, what).value, s).1 == s;
    }
    assert Decide(g, way, depth, who, g.ownLock(s, what, CONTROL_LOCK), what, s).1 == s;
  }

  lemma ZoneIs<S>(g: Game<S>, way: Way, depth: nat, who: int, z: Option<int>, s: S)
    ensures PassesZone(g, way, depth, who, z, s) ==
            if z.None? then (false, s) else Decide(g, way, depth, who, g.lockOn(s, z.value, ZONE_LOCK), z.value, s)
  {
    hide Decide;
  }

  lemma ControlsIs<S>(g: Game<S>, way: Way, depth: nat, who: int, what: int, s: S)
    ensures var (r1, s1) := PassesZone(g, way, depth, who, g.zone(s, what), s);
            var (r2, s2) := PassesZone(g, way, depth, who, g.master(s1, what), s1);
            var own := g.ownLock(s2, what, CONTROL_LOCK);
            Controls(g, way, depth, who, what, s) ==
            if g.rank(s, who, what).Granted? then (true, s)
            else if g.rank(s, who, what).Denied? then (false, s)
            else if r1 then (true, s1)
            else if r2 then (true, s2)
            else if own.None? then (false, s2)
            else Decide(g, way, depth, who, own, what, s2)
  {
    hide Decide, PassesZone;
  }

  lemma CanReadIs<S>(g: Game<S>, way: Way, depth: nat, reader: int, x: int, name: Text, s: S)
    ensures var (r, s1) := Controls(g, way, depth, reader, x, s);
            CanRead(g, way, depth, reader, x, name, s) ==
            if g.seeAll(s, reader) then (true, s)
            else if r then (true, s1)
            else if !g.visual(s1, x, name) then (false, s1)
            else Decide(g, way, depth, reader, g.lockOn(s1, x, EXAMINE_LOCK), x, s1)
  {
    hide Decide, Controls;
  }

  /** The Control lock, if there is one, or the Zone lock of the zone master or of
      the zone. */
  predicate PassesOne<S>(g: Game<S>, way: Way, depth: nat, who: int, what: int, s: S) {
    || (g.ownLock(s, what, CONTROL_LOCK).Some? && Decide(g, way, depth, who, g.ownLock(s, what, CONTROL_LOCK), what, s).0)
    || (g.master(s, what).Some? && Decide(g, way, depth, who, g.lockOn(s, g.master(s, what).value, ZONE_LOCK), g.master(s, what).value, s).0)
    || (g.zone(s, what).Some? && Decide(g, way, depth, who, g.lockOn(s, g.zone(s, what).value, ZONE_LOCK), g.zone(s, what).value, s).0)
  }

  /** Wherever that leaves the server, who has no such fact and passes no lock,
      then or later, may not read one. */
  lemma LockedOut<S(!new)>(g: Game<S>, way: Way, depth: nat, reader: int, x: int, name: Text, s: S)
    requires !g.seeAll(s, reader) && !g.rank(s, reader, x).Granted?
    requires forall st: S :: !PassesZone(g, way, depth, reader, g.zone(st, x), st).0
    requires forall st: S :: !PassesZone(g, way, depth, reader, g.master(st, x), st).0
    requires forall st: S :: g.ownLock(st, x, CONTROL_LOCK).Some? ==>
               !Decide(g, way, depth, reader, g.ownLock(st, x, CONTROL_LOCK), x, st).0
    requires forall st: S :: g.visual(st, x, name) ==> !Decide(g, way, depth, reader, g.lockOn(st, x, EXAMINE_LOCK), x, st).0
    ensures !CanRead(g, way, depth, reader, x, name, s).0
  {
    CanReadIs(g, way, depth, reader, x, name, s);
    ControlsIs(g, way, depth, reader, x, s);
    hide Decide, Controls, PassesZone, CanRead;
  }

  // ----- The evaluator

  /** The evaluator with its global counter of nested evaluations. */
  class Evaluator<S(!new)> {
    const game: Game<S>
    var recursion: nat

    constructor (g: Game<S>)
      ensures game == g && recursion == 0
    {
      game, recursion := g, 0;
    }

    method PassZone(who: int, z: Option<int>, s: S) returns (r: bool, s': S)
      requires AllSound(game)
      modifies this
      ensures recursion == old(recursion)
      ensures (r, s') == PassesZone(game, ByMachine, recursion, who, z, s)
      decreases Left(game, recursion), 4
    {
      if z.None? { return false, s; }
      SoundThere(game, s, z.value, ZONE_LOCK);
      hide AllSound, SoundLock, Decide;
      r, s' := EvalBoolexp(who, game.lockOn(s, z.value, ZONE_LOCK), z.value, s);
    }

    /** `controls`, from where flags and ownership leave it open. */
    method Control(who: int, what: int, s: S) returns (r: bool, s': S)
      requires AllSound(game)
      modifies this
      ensures recursion == old(recursion)
      ensures (r, s') == Controls(game, ByMachine, recursion, who, what, s)
      decreases Left(game, recursion), 5
    {
      hide AllSound, SoundLock, Decide, PassesZone;
      match game.rank(s, who, what) {
        case Granted => return true, s;
        case Denied => return false, s;
        case ByLocks =>
          r, s' := PassZone(who, game.zone(s, what), s);
          if r { return; }
          r, s' := PassZone(who, game.master(s', what), s');
          if r { return; }
          var own := game.ownLock(s', what, CONTROL_LOCK);
          SoundThere(game, s', what, CONTROL_LOCK);
          if own.None? { return; }
          r, s' := EvalBoolexp(who, own, what, s');
      }
    }

    /** `Can_Read_Lock`. */
    method CanReadLock(reader: int, x: int, name: Text, s: S) returns (r: bool, s': S)
      requires AllSound(game)
      modifies this
      ensures recursion == old(recursion)
      ensures (r, s') == CanRead(game, ByMachine, recursion, reader, x, name, s)
      decreases Left(game, recursion), 6
    {
      hide AllSound, SoundLock, Decide, Controls;
      if game.seeAll(s, reader) { return true, s; }
      r, s' := Control(reader, x, s);
      if r || !game.visual(s', x, name) { return; }
      SoundThere(game, s', x, EXAMINE_LOCK);
      r, s' := EvalBoolexp(reader, game.lockOn(s', x, EXAMINE_LOCK), x, s');
    }

    /** `TIND`: count, decide the other lock, and count back. */
    method Indirect(player: int, target: int, arg: int, name: Text, s: S) returns (r: bool, s': S)
      requires recursion <= game.maxDepth
      requires AllSound(game)
      modifies this
      ensures recursion == old(recursion)
      ensures (r, s') == TestLive(WorldAt(game, ByMachine, old(recursion), player, target), arg, ProbeInd(arg, name), s)
      decreases Left(game, recursion), 0
    {
      IndirectMeans(game, ByMachine, recursion, player, target, arg, name, s);
      hide WorldAt, TestLive, Decide, CanRead, AllSound, SoundLock;
      recursion := recursion + 1;
      if !game.live(s, arg) {
        r, s' := false, s;
      } else {
        r, s' := CanReadLock(target, arg, name, s);
        if r {
          SoundThere(game, s', arg, name);
          r, s' := EvalBoolexp(player, game.lockOn(s', arg, name), arg, s');
        }
      }
      recursion := recursion - 1;
    }

    method EvalBoolexp(player: int, lock: Option<Kept>, target: int, s: S) returns (r: bool, s': S)
      requires AllSound(game) && SoundLock(game, lock)
      modifies this
      ensures recursion == old(recursion)
      ensures (r, s') == Decide(game, ByMachine, recursion, player, lock, target, s)
      decreases Left(game, recursion), 3
    {
      hide AllSound, Sound;
      if !game.good(s, player) || recursion > game.maxDepth { return false, s; }
      if lock.None? { return true, s; }
      r, s' := Interpret(lock.value, player, target, s);
    }

    method Interpret(k: Kept, player: int, target: int, s0: S) returns (r: bool, s': S)
      requires AllSound(game) && Sound(game, k) && recursion <= game.maxDepth
      modifies this
      ensures recursion == old(recursion)
      ensures (r, s') == RunBytes(WorldAt(game, ByMachine, recursion, player, target), k.code, Vm(0, false, -1, s0))
      decreases Left(game, recursion), 2
    {
      ghost var w, blen, depth := WorldAt(game, ByMachine, recursion, player, target), CodeLength(k.n), recursion;
      var bytes, pc, str := k.code, 0, -1;
      r, s' := false, s0;
      SoundRuns(game, k, w, s0);
      hide AllSound, Sound;
      while OpAt(bytes, pc) != RET
        invariant recursion == depth
        invariant SafeRun(w, bytes, blen, Vm(pc, r, str, s'))
        invariant RunBytes(w, bytes, Vm(pc, r, str, s')) == RunBytes(w, bytes, Vm(0, false, -1, s0))
        decreases |bytes| - pc
      {
        r, str, s', pc := Cycle(bytes, player, target, pc, r, str, s');
      }
    }

    /** One turn of the interpreter loop. */
    method Cycle(bytes: seq<Byte>, player: int, target: int, pc: int, r0: bool, str0: int, s0: S) returns (r: bool,
            str: int, s: S, pc': int)
      requires InsnAt(bytes, pc) && !BadOp(bytes[pc]) && OpAt(bytes, pc) != RET && recursion <= game.maxDepth
      requires AllSound(game)
      modifies this
      ensures recursion == old(recursion)
      ensures Vm(pc', r, str, s) == VmStep(WorldAt(game, ByMachine, recursion, player, target), bytes, Vm(pc, r0, str0, s0))
      decreases Left(game, recursion), 1
    {
      hide AllSound;
      var op, arg := OpAt(bytes, pc), ArgAt(bytes, pc);
      r, str, s, pc' := r0, str0, s0, pc + INSN_LEN;
      if op == JMPT {
        if r { pc' := arg; }
      } else if op == JMPF {
        if !r { pc' := arg; }
      } else if op == LOADS {
        str := arg;
      } else if op == TIND {
        r, s := Indirect(player, target, arg, CStringAt(bytes, str), s);
      } else {
        ghost var w, depth := WorldAt(game, ByMachine, recursion, player, target), recursion;
        if RaisingOp(op) { recursion := recursion + 1; }
        var level := recursion;
        var plain := World(player, game.live, (t: S, x: int) => game.holds(t, player, x), (t: S) => game.kind(t, player),
                           (t: S, p: Probe) => game.probe(t, level, player, target, p));
        r, s := DoTest(plain, bytes, op, arg, str, r, s);
        if RaisingOp(op) { recursion := recursion - 1; }
        forall p: Probe | !p.ProbeInd? && Raises(p) == RaisingOp(op) ensures plain.probe(s0, p) == w.probe(s0, p) {
          assert LevelOf(p, depth) == level;
        }
        OtherTest(plain, w, op, arg, CStringAt(bytes, str), CStringAt(bytes, arg), r0, s0);
      }
    }
  }

  lemma OtherTest<S(!new)>(v: World<S>, w: World<S>, op: Op, arg: int, name: Text, text: Text, r: bool, s: S)
    requires op != TIND
    requires v.player == w.player && v.live == w.live && v.kind(s) == w.kind(s)
    requires forall x: int :: v.holds(s, x) == w.holds(s, x)
    requires forall p: Probe :: !p.ProbeInd? && Raises(p) == RaisingOp(op) ==> v.probe(s, p) == w.probe(s, p)
    ensures Test(v, op, arg, name, text, r, s) == Test(w, op, arg, name, text, r, s)
  {
  }
}
