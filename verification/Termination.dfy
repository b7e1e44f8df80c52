/**
 When does the optimizer end? With a filter always; without one a checker may keep it searching for ever.
 This module says exactly for which inputs.
 */
module Termination {
  import opened Search
  import opened Ordering
  import InvalidPairs
  import opened LinearRelaxation
  import opened Chunking
  import opened DeltaDebugging
  import opened InvalidChunks
  import opened Speculation
  import opened Fallback
  import Words

  ghost predicate Ends(setup: Setup, a: Bits, tau: int) {
    Within(a, setup.n) && exists passes :: RunFor(setup, a, tau, State({}, []), passes).ending.Found?
  }

  /** Every run from a under tau, with a fair checker and whatever time rechecks take, comes to an end. */
  ghost predicate AlwaysEnds(
    strategy: Strategy, mode: Mode, alpha: real, kinds: seq<AtomicOp>, a: Bits, tau: int) {
    forall setup, good | RunOf(setup, strategy, mode) && setup.alpha == alpha && Suits(setup, kinds, a, tau, good) ::
      Ends(setup, a, tau)
  }

  /** All 1-bits belong to one operation. */
  ghost predicate OneOperation(a: Bits) {
    exists k: nat :: a <= {2 * k, 2 * k + 1}
  }

  /** The inputs from which a pass cannot find two solutions. */
  ghost predicate Short(strategy: Strategy, a: Bits) {
    match strategy
    case LR => OneOperation(a)
    case DDmin => |a| <= 2
  }

  /** Runs always end if and only if there is a filter, no deadline, or an input too short for two solutions. */
  lemma AlwaysEndsIff(strategy: Strategy, mode: Mode, alpha: real, kinds: seq<AtomicOp>, a: Bits, tau: int)
    requires ValidFor(kinds, a) && Within(a, 2 * |kinds|)
    ensures AlwaysEnds(strategy, mode, alpha, kinds, a, tau) <==> mode != Off || tau <= 0 || Short(strategy, a)
  {
    if mode != Off || tau <= 0 || Short(strategy, a) {
      forall setup, good | RunOf(setup, strategy, mode) && setup.alpha == alpha && Suits(setup, kinds, a, tau, good)
        ensures Ends(setup, a, tau)
      {
        RunEnds(setup, kinds, a, tau, good);
      }
    } else {
      var setup := Endless(strategy, alpha, kinds, a, tau);
      assert RunOf(setup, strategy, mode) && Suits(setup, kinds, a, tau, Needs(kinds, a));
      assert !Ends(setup, a, tau);
    }
  }

  // ----- runs that end -----

  lemma RunEnds(setup: Setup, kinds: seq<AtomicOp>, a: Bits, tau: int, good: Bits -> bool)
    requires Suits(setup, kinds, a, tau, good)
    requires setup.mode != Off || tau <= 0 || Short(setup.strategy, a)
    ensures Ends(setup, a, tau)
  {
    var st := State({}, []);
    if setup.mode != Off {
      var passes := Words.Pow2(|a|) + 1;
      RunTerminates(setup, a, tau, st, passes);
      assert RunFor(setup, a, tau, st, passes).ending.Found?;
    } else if tau <= 0 {
      FirstPassEnds(setup, kinds, a, tau, st, 1, good);
      assert RunFor(setup, a, tau, st, 1).ending.Found?;
    } else {
      ShortSearch(setup, a, tau, st);
      ShortPass(setup, a, tau, st);
      RunStep(setup, a, tau, st, 1);
      assert RunFor(setup, a, tau, st, 1).ending.Found?;
    }
  }

  /** A pass with at most one solution ends the run, whatever the checker says. */
  lemma ShortPass(setup: Setup, a: Bits, tau: int, st: State)
    requires Within(a, setup.n) && |SearchOnce(setup, a, tau, st).sol| <= 1
    ensures OnePass(setup, a, tau, st).ending.Found?
  {
    var o := SearchOnce(setup, a, tau, st);
    SearchSteps(setup, a, tau, st);
    var sol := Solutions(o, a);
    RecheckPicks(setup, sol, o.st);
    if o.sol != [] {
      assert sol == [o.sol[0], Entry(a, OK)];
      FallbackIsSecond(setup, sol, o.st);
    }
  }

  lemma ShortSearch(setup: Setup, a: Bits, tau: int, st: State)
    requires Within(a, setup.n) && Short(setup.strategy, a)
    ensures |SearchOnce(setup, a, tau, st).sol| <= 1
  {
    if setup.strategy.LR? {
      var k: nat :| a <= {2 * k, 2 * k + 1};
      FromShort(EnvAt(setup, tau), setup.n, 0, k, a, st);
    } else {
      DdminShort(EnvAt(setup, tau), setup.n, a, st);
    }
  }

  lemma {:induction false} FromShort(env: Env, n: nat, j: nat, k: nat, x: Bits, st: State)
    requires x <= {2 * k, 2 * k + 1}
    ensures |From(env, n, 2 * j, x, st).sol| <= if j <= k then 1 else 0
    decreases n - 2 * j
  {
    if 2 * j < n {
      var t := FromOp(env, n, j, x, st);
      NoneElsewhere(env, x, j, k, st);
      FromShort(env, n, j + 1, k, Final(t.hit, x), t.st);
    }
  }

  /** One step of the walk. */
  lemma FromOp(env: Env, n: nat, j: nat, x: Bits, st: State) returns (t: Tried)
    requires 2 * j < n
    ensures t == TryEach(env, Candidates(x, 2 * j), st) && |t.hit| <= 1 && Final(t.hit, x) <= x
    ensures From(env, n, 2 * j, x, st) == Chained(From(env, n, 2 * (j + 1), Final(t.hit, x), t.st), t.hit)
  {
    CandidatesWeaker(x, 2 * j);
    TryEachSteps(env, Candidates(x, 2 * j), st, x);
    t := TryEach(env, Candidates(x, 2 * j), st);
  }

  lemma NoneElsewhere(env: Env, x: Bits, j: nat, k: nat, st: State)
    requires x <= {2 * k, 2 * k + 1}
    ensures j != k ==> TryEach(env, Candidates(x, 2 * j), st).hit == []
  {
    assert j != k ==> Candidates(x, 2 * j) == [];
  }

  lemma DdminShort(env: Env, n: nat, a: Bits, st: State)
    requires Within(a, n) && |a| <= 2
    ensures |Ddmin(env, n, a, 2, st).sol| <= 1
  {
    if |a| == 2 {
      AfterRound(env, n, a, 2, st);
      RoundHit(env, n, a, 2, st);
      RoundSteps(env, n, a, 2, st);
    }
  }

  // ----- checkers that keep a run going -----

  /** Only assignments as strong as a are correct; under a deadline the checker times out when it stalls. */
  ghost function Stalling(
    strategy: Strategy, alpha: real, kinds: seq<AtomicOp>, a: Bits, stalls: (nat, Bits) -> bool): Setup {
    Setup(Off, strategy, alpha, 2 * |kinds|,
          (k: nat, y: Bits, tau: int) =>
                         if !ValidFor(kinds, y) then Status.Invalid
                         else if a <= y then OK
                         else if stalls(k, y) && tau > 0 then Timeout
                         else NotSafe,
          k => 0)
  }

  lemma StallingIsFair(setup: Setup, kinds: seq<AtomicOp>, a: Bits, stalls: (nat, Bits) -> bool, tau: int)
    requires setup == Stalling(setup.strategy, setup.alpha, kinds, a, stalls)
    ensures Fair(EnvAt(setup, tau), kinds, Needs(kinds, a))
  {
  }

  /** What it accepts below a are timeouts. */
  lemma StallsOrRejects(setup: Setup, kinds: seq<AtomicOp>, a: Bits, stalls: (nat, Bits) -> bool, tau: int)
    requires setup == Stalling(setup.strategy, setup.alpha, kinds, a, stalls) && tau > 0
    ensures forall k: nat, y: Bits :: y < a ==>
      (Accepted(setup.reply(k, y, tau)) <==> ValidFor(kinds, y) && stalls(k, y))
    ensures forall k: nat, y: Bits :: y < a ==> !setup.reply(k, y, tau).OK? && !setup.reply(k, y, 0).OK?
  {
  }

  /** A pass that finds two solutions leads to another pass, still under a deadline. */
  lemma StallsOnce(
    setup: Setup, kinds: seq<AtomicOp>, a: Bits, stalls: (nat, Bits) -> bool, tau: int, st: State)
    requires setup == Stalling(setup.strategy, setup.alpha, kinds, a, stalls) && tau > 0 && Within(a, setup.n)
    requires |SearchOnce(setup, a, tau, st).sol| >= 2
    ensures var p, o := OnePass(setup, a, tau, st), SearchOnce(setup, a, tau, st);
            p.ending.Again? && p.ending.tau > 0 && |p.st.log| == |o.st.log| + 1
  {
    var o := SearchOnce(setup, a, tau, st);
    SearchSteps(setup, a, tau, st);
    StallsOrRejects(setup, kinds, a, stalls, tau);
    AllTimedOut(EnvAt(setup, tau), o.sol, a, o.st.log, |st.log|);
    var sol := Solutions(o, a);
    assert sol[1] == o.sol[1] && sol[0] == o.sol[0];
    RecheckPicks(setup, sol, o.st);
    FallbackIsSecond(setup, sol, o.st);
    TauGrows(tau, setup.elapsed(|o.st.log|), setup.alpha);
  }

  lemma AllTimedOut(env: Env, sol: seq<Entry>, a: Bits, log: seq<Entry>, from: nat)
    requires Chain(sol, a) && Witnessed(env, sol, log, from)
    requires forall k: nat, y: Bits :: y < a ==> !env.reply(k, y, env.tau).OK?
    ensures forall s :: s in sol ==> s.status.Timeout?
  {
    forall s | s in sol
      ensures s.status.Timeout?
    {
      var k: nat :| from <= k && CheckedAt(env, s, log, k);
    }
  }

  /** The pass leads to another one, under a deadline and in a state of the same kind. */
  ghost predicate Continues(p: Pass, kind: State -> bool) {
    p.ending.Again? && p.ending.tau > 0 && kind(p.st)
  }

  /** When every pass from a state of this kind stalls and leads to another such state, no run ends. */
  lemma NeverEnds(setup: Setup, a: Bits, tau: int, kind: State -> bool)
    requires Within(a, setup.n) && tau > 0 && kind(State({}, []))
    requires forall tau: int, st: State | tau > 0 && kind(st) :: Continues(OnePass(setup, a, tau, st), kind)
    ensures !Ends(setup, a, tau)
  {
    var inv: (int, State) -> bool := (t: int, s: State) => t > 0 && kind(s);
    var post: (Ending, State) -> bool := (e, s) => false;
    forall tau', st' | inv(tau', st')
      ensures Keeps(OnePass(setup, a, tau', st'), inv, post)
    {
      assert Continues(OnePass(setup, a, tau', st'), kind);
    }
    forall passes: nat
      ensures !RunFor(setup, a, tau, State({}, []), passes).ending.Found?
    {
      RunInduct(setup, a, tau, State({}, []), passes, inv, post);
    }
  }

  /** For any input that is not short there is a checker with which no run ends. */
  lemma Endless(strategy: Strategy, alpha: real, kinds: seq<AtomicOp>, a: Bits, tau: int) returns (setup: Setup)
    requires ValidFor(kinds, a) && Within(a, 2 * |kinds|) && tau > 0 && !Short(strategy, a)
    ensures RunOf(setup, strategy, Off) && setup.alpha == alpha && Suits(setup, kinds, a, tau, Needs(kinds, a))
    ensures !Ends(setup, a, tau)
  {
    if strategy.LR? {
      setup := LrEndless(alpha, kinds, a, tau);
    } else if OneSplit(kinds, a) {
      setup := StoreEndless(alpha, kinds, a, tau);
    } else {
      setup := DdminEndless(alpha, kinds, a, tau);
    }
  }

  // ----- linear relaxation -----

  /** Timing out on everything, linear relaxation relaxes at least two operations and finds out that it must not. */
  lemma LrEndless(alpha: real, kinds: seq<AtomicOp>, a: Bits, tau: int) returns (setup: Setup)
    requires ValidFor(kinds, a) && Within(a, 2 * |kinds|) && tau > 0 && !OneOperation(a)
    ensures RunOf(setup, LR, Off) && setup.alpha == alpha && Suits(setup, kinds, a, tau, Needs(kinds, a))
    ensures !Ends(setup, a, tau)
  {
    var stalls: (nat, Bits) -> bool := (k, y) => true;
    setup := Stalling(LR, alpha, kinds, a, stalls);
    StallingIsFair(setup, kinds, a, stalls, tau);
    var u, v := TwoOperations(a);
    forall tau': int, st | tau' > 0
      ensures Continues(OnePass(setup, a, tau', st), _ => true)
    {
      StallsOrRejects(setup, kinds, a, stalls, tau');
      FromTwo(EnvAt(setup, tau'), kinds, a, 0, u, v / 2, v, a, st);
      StallsOnce(setup, kinds, a, stalls, tau', st);
    }
    NeverEnds(setup, a, tau, _ => true);
  }

  lemma TwoOperations(a: Bits) returns (u: nat, v: nat)
    requires !OneOperation(a)
    ensures u in a && v in a && u / 2 < v / 2
  {
    assert !(a <= {2 * 0, 2 * 0 + 1});
    var w :| w in a;
    var k := w / 2;
    assert !(a <= {2 * k, 2 * k + 1});
    var x :| x in a && x != 2 * k && x != 2 * k + 1;
    assert x / 2 != k;
    u, v := if x < w then x else w, if x < w then w else x;
  }

  /** In this mode, everything valid below a is accepted as timed out. */
  ghost predicate Lenient(env: Env, kinds: seq<AtomicOp>, a: Bits) {
    env.mode.Off? && forall k: nat, y: Bits :: y < a && ValidFor(kinds, y) ==> env.reply(k, y, env.tau).Timeout?
  }

  lemma RelaxedStalls(env: Env, kinds: seq<AtomicOp>, a: Bits, j: nat, x: Bits, st: State)
    requires Lenient(env, kinds, a) && x <= a && ValidFor(kinds, x) && j < |kinds| && (2 * j in x || 2 * j + 1 in x)
    ensures var hit := TryEach(env, Candidates(x, 2 * j), st).hit;
            |hit| == 1 && hit[0].bs < x && ValidFor(kinds, hit[0].bs)
            && forall v :: v in x && v > 2 * j + 1 ==> v in hit[0].bs
  {
    RelaxedValid(kinds, x, j);
    FirstTried(env, x, j, st);
  }

  lemma NoCandidates(env: Env, j: nat, x: Bits, st: State)
    requires 2 * j !in x && 2 * j + 1 !in x
    ensures TryEach(env, Candidates(x, 2 * j), st) == Tried([], st)
  {
    assert Candidates(x, 2 * j) == [];
  }

  lemma {:induction false} FromOne(
    env: Env, kinds: seq<AtomicOp>, a: Bits, j: nat, v: nat, x: Bits, st: State)
    requires Lenient(env, kinds, a) && x <= a && ValidFor(kinds, x) && v in x && 2 * j <= v < 2 * |kinds|
    ensures From(env, 2 * |kinds|, 2 * j, x, st).sol != []
    decreases v - 2 * j
  {
    var t := FromOp(env, 2 * |kinds|, j, x, st);
    if 2 * j in x || 2 * j + 1 in x {
      RelaxedStalls(env, kinds, a, j, x, st);
    } else {
      NoCandidates(env, j, x, st);
      FromOne(env, kinds, a, j + 1, v, x, st);
    }
  }

  lemma {:induction false} FromTwo(
    env: Env, kinds: seq<AtomicOp>, a: Bits, j: nat, u: nat, m: nat, v: nat, x: Bits, st: State)
    requires Lenient(env, kinds, a) && x <= a && ValidFor(kinds, x)
    requires u in x && v in x && 2 * j <= u < 2 * m <= v < 2 * |kinds|
    ensures |From(env, 2 * |kinds|, 2 * j, x, st).sol| >= 2
    decreases u - 2 * j
  {
    if 2 * j in x || 2 * j + 1 in x {
      HereAndLater(env, kinds, a, j, v, x, st);
    } else {
      NothingHere(env, 2 * |kinds|, j, x, st);
      FromTwo(env, kinds, a, j + 1, u, m, v, x, st);
    }
  }

  lemma HereAndLater(env: Env, kinds: seq<AtomicOp>, a: Bits, j: nat, v: nat, x: Bits, st: State)
    requires Lenient(env, kinds, a) && x <= a && ValidFor(kinds, x) && (2 * j in x || 2 * j + 1 in x)
    requires v in x && 2 * j + 1 < v < 2 * |kinds|
    ensures |From(env, 2 * |kinds|, 2 * j, x, st).sol| >= 2
  {
    var t := FromOp(env, 2 * |kinds|, j, x, st);
    RelaxedStalls(env, kinds, a, j, x, st);
    FromOne(env, kinds, a, j + 1, v, t.hit[0].bs, t.st);
  }

  lemma NothingHere(env: Env, n: nat, j: nat, x: Bits, st: State)
    requires 2 * j !in x && 2 * j + 1 !in x && 2 * j < n
    ensures From(env, n, 2 * j, x, st) == From(env, n, 2 * (j + 1), x, st)
  {
    var t := FromOp(env, n, j, x, st);
    NoCandidates(env, j, x, st);
    assert From(env, n, 2 * (j + 1), x, st).sol + [] == From(env, n, 2 * (j + 1), x, st).sol;
  }

  // ----- delta debugging -----

  /** Three 1-bits, the first two of which belong to a store. */
  ghost predicate OneSplit(kinds: seq<AtomicOp>, a: Bits) {
    exists k: nat, b: nat :: SplitStore(kinds, a, k, b)
  }

  ghost predicate SplitStore(kinds: seq<AtomicOp>, a: Bits, k: nat, b: nat) {
    k < |kinds| && kinds[k].Store? && 2 * k + 1 < b && a == {2 * k, 2 * k + 1, b}
  }

  /** Without a filter, a round that accepts nothing has had every candidate rejected. */
  lemma {:induction false} TurnAsked(env: Env, cands: seq<Bits>, st: State)
    requires env.mode.Off?
    ensures TryInTurn(env, cands, st).hit == [] ==>
            forall c :: c in cands ==> exists k: nat :: !Accepted(env.reply(k, c, env.tau))
  {
    if cands != [] {
      assert cands == [cands[0]] + cands[1..];
      if !Accepted(Ask(env, cands[0], st)) {
        TurnAsked(env, cands[1..], Refused(env, cands[0], st));
      }
    }
  }

  ghost predicate AlwaysAccepted(env: Env, x: Bits) {
    forall k: nat :: Accepted(env.reply(k, x, env.tau))
  }

  /** A round with a chunk that is always accepted goes on with a chunk. */
  lemma ChunkAccepted(env: Env, n: nat, x: Bits, g: nat, st: State, i: nat)
    requires env.mode.Off? && Within(x, n) && 2 <= g <= |x|
    requires i < |Chunks(x, n, g)| && AlwaysAccepted(env, Chunks(x, n, g)[i])
    ensures var r := OneRound(env, n, x, g, st); r.hit != [] && r.hit[0].bs in Chunks(x, n, g) && r.g == 2
  {
    var c := Chunks(x, n, g);
    ChunksPartition(x, n, g);
    BatchShape(c, x);
    BatchIsExact(env, c, x, st);
    TurnAsked(env, c, st);
    assert c[i] in c;
    KeepFrom(st.filter, c, env.mode);
  }

  lemma NablaAccepted(env: Env, n: nat, x: Bits, st: State, j: nat)
    requires env.mode.Off? && Within(x, n) && 2 <= |x| && j in x && AlwaysAccepted(env, x - {j})
    ensures OneRound(env, n, x, |x|, st).hit != []
  {
    var c := Chunks(x, n, |x|);
    ChunksPartition(x, n, |x|);
    BatchShape(c, x);
    BatchIsExact(env, c, x, st);
    var t := TryInTurn(env, c, st);
    BatchIsExact(env, Nablas(x, c), x, t.st);
    TurnAsked(env, Nablas(x, c), t.st);
    SingleBits(c, x, j);
  }

  /** When clearing some bit is always accepted, the search finds a solution. */
  lemma {:induction false} SomeSolution(env: Env, n: nat, x: Bits, g: nat, st: State, j: nat)
    requires env.mode.Off? && Within(x, n) && 2 <= g <= |x| && j in x && AlwaysAccepted(env, x - {j})
    ensures Ddmin(env, n, x, g, st).sol != []
    decreases |x| - g
  {
    AfterRound(env, n, x, g, st);
    if g == |x| {
      NablaAccepted(env, n, x, st, j);
    } else if OneRound(env, n, x, g, st).hit == [] {
      SomeSolution(env, n, x, Min(|x|, 2 * g), OneRound(env, n, x, g, st).st, j);
    }
  }

  /** Some bit of a valid assignment can be cleared. */
  lemma SomeClearing(kinds: seq<AtomicOp>, x: Bits) returns (j: nat)
    requires ValidFor(kinds, x) && Within(x, 2 * |kinds|) && x != {}
    ensures j in x && ValidFor(kinds, x - {j})
  {
    var v :| v in x;
    var k := v / 2;
    assert v == 2 * k || v == 2 * k + 1;
    if 2 * k in x && 2 * k + 1 in x {
      j := if kinds[k].Load? then 2 * k else 2 * k + 1;
      InvalidPairs.OtherPairs(kinds, x, x - {j}, k);
      assert !GetOrdering(kinds[k], Pair(x, k)).Invalid?;
    } else {
      j := v;
      RelaxedValid(kinds, x, k);
      assert WithoutOp(x, k) == x - {j};
    }
  }

  /** Otherwise one half is valid and has at least two 1-bits. */
  lemma ValidHalf(kinds: seq<AtomicOp>, a: Bits) returns (i: nat)
    requires ValidFor(kinds, a) && Within(a, 2 * |kinds|) && |a| > 2 && !OneSplit(kinds, a)
    ensures var c := Chunks(a, 2 * |kinds|, 2); |c| == 2 && i < 2 && ValidFor(kinds, c[i]) && |c[i]| >= 2
  {
    var c := Chunks(a, 2 * |kinds|, 2);
    ChunksCut(a, 2 * |kinds|, 2);
    BatchSizes(c, a, 0);
    BatchSizes(c, a, 1);
    TwoHalves(c, a, 0);
    i := if ValidFor(kinds, c[1]) then 1 else 0;
    if !ValidFor(kinds, c[1]) {
      var m := BrokenPair(kinds, a, c[1]);
      StoreIsSplit(kinds, a, c, m);
    }
  }

  /** The second half is invalid because it has the upper bit of a store only, and then the first half is valid. */
  lemma StoreIsSplit(kinds: seq<AtomicOp>, a: Bits, c: seq<Bits>, k: nat)
    requires ValidFor(kinds, a) && Cut(c, a) && |c| == 2 && k < |kinds| && 2 * k in a && 2 * k + 1 in a
    requires (kinds[k].Load? && 2 * k in c[1] && 2 * k + 1 !in c[1]) || (kinds[k].Store? && 2 * k !in c[1] && 2 * k + 1 in c[1])
    ensures kinds[k].Store? && 2 * k in c[0] && 2 * k + 1 in c[1] && ValidFor(kinds, c[0])
    ensures |a| == 3 ==> OneSplit(kinds, a)
  {
    var i := ChunkOf(c, a, 2 * k);
    var j := ChunkOf(c, a, 2 * k + 1);
    assert i <= j && c[0] !! c[1];
    TwoHalves(c, a, 0);
    forall m | 0 <= m < |kinds|
      ensures !GetOrdering(kinds[m], Pair(c[0], m)).Invalid?
    {
      assert !GetOrdering(kinds[m], Pair(a, m)).Invalid?;
      assert 2 * m in c[0] && 2 * m + 1 in c[1] ==> m == k;
      assert !(2 * m in c[1] && 2 * m + 1 in c[0]);
    }
    if |a| == 3 {
      SplitOfThree(kinds, a, c, k);
    }
  }

  lemma SplitOfThree(kinds: seq<AtomicOp>, a: Bits, c: seq<Bits>, k: nat)
    requires Cut(c, a) && |c| == 2 && |a| == 3 && k < |kinds| && kinds[k].Store?
    requires 2 * k in c[0] && 2 * k + 1 in c[1]
    ensures OneSplit(kinds, a)
  {
    BatchSizes(c, a, 0);
    BatchSizes(c, a, 1);
    TwoHalves(c, a, 0);
    SingleSet(c[0], 2 * k);
    var rest := c[1] - {2 * k + 1};
    assert |rest| == 1;
    var b :| b in rest;
    SingleSet(rest, b);
    assert c[1] == rest + {2 * k + 1} && a == c[0] + c[1];
    assert b in c[1] && 2 * k < b;
    assert SplitStore(kinds, a, k, b);
  }

  /** Timing out on everything below a valid half with two 1-bits, delta debugging finds that half and something below it. */
  lemma DdminEndless(alpha: real, kinds: seq<AtomicOp>, a: Bits, tau: int) returns (setup: Setup)
    requires ValidFor(kinds, a) && Within(a, 2 * |kinds|) && tau > 0 && |a| > 2 && !OneSplit(kinds, a)
    ensures RunOf(setup, DDmin, Off) && setup.alpha == alpha && Suits(setup, kinds, a, tau, Needs(kinds, a))
    ensures !Ends(setup, a, tau)
  {
    var i := ValidHalf(kinds, a);
    var half := Chunks(a, 2 * |kinds|, 2)[i];
    var stalls: (nat, Bits) -> bool := (k, y) => y <= half;
    setup := Stalling(DDmin, alpha, kinds, a, stalls);
    StallingIsFair(setup, kinds, a, stalls, tau);
    forall tau': int, st | tau' > 0
      ensures Continues(OnePass(setup, a, tau', st), _ => true)
    {
      HalfStall(setup, kinds, a, stalls, i, tau', st);
    }
    NeverEnds(setup, a, tau, _ => true);
  }

  lemma HalfStall(
    setup: Setup, kinds: seq<AtomicOp>, a: Bits, stalls: (nat, Bits) -> bool, i: nat, tau: int, st: State)
    requires setup == Stalling(DDmin, setup.alpha, kinds, a, stalls) && tau > 0 && Within(a, setup.n) && |a| > 2
    requires i < 2 == |Chunks(a, setup.n, 2)|
    requires var half := Chunks(a, setup.n, 2)[i];
             ValidFor(kinds, half) && |half| >= 2 && forall k, y :: stalls(k, y) <==> y <= half
    ensures var p := OnePass(setup, a, tau, st); p.ending.Again? && p.ending.tau > 0
  {
    StallsOrRejects(setup, kinds, a, stalls, tau);
    HalfFirst(EnvAt(setup, tau), kinds, a, i, st);
    StallsOnce(setup, kinds, a, stalls, tau, st);
  }

  lemma HalfFirst(env: Env, kinds: seq<AtomicOp>, a: Bits, i: nat, st: State)
    requires env.mode.Off? && Within(a, 2 * |kinds|) && |a| > 2 && i < 2 == |Chunks(a, 2 * |kinds|, 2)|
    requires var half := Chunks(a, 2 * |kinds|, 2)[i];
             && ValidFor(kinds, half) && |half| >= 2
             && forall k: nat, y: Bits :: y < a ==> (Accepted(env.reply(k, y, env.tau)) <==> ValidFor(kinds, y) && y <= half)
    ensures |Ddmin(env, 2 * |kinds|, a, 2, st).sol| >= 2
  {
    var n, c := 2 * |kinds|, Chunks(a, 2 * |kinds|, 2);
    var half := c[i];
    ChunksCut(a, n, 2);
    BatchShape(c, a);
    ChunkAccepted(env, n, a, 2, st, i);
    AfterRound(env, n, a, 2, st);
    var r := OneRound(env, n, a, 2, st);
    RoundSteps(env, n, a, 2, st);
    OnlyHalf(env, kinds, c, i, a, r.hit, r.st.log, |st.log|);
    var j := SomeClearing(kinds, half);
    SomeSolution(env, n, half, 2, r.st, j);
  }

  /** Only the half itself can have been accepted. */
  lemma OnlyHalf(
    env: Env, kinds: seq<AtomicOp>, c: seq<Bits>, i: nat, a: Bits, hit: seq<Entry>, log: seq<Entry>, from: nat)
    requires Cut(c, a) && |c| == 2 && i < 2 && hit != [] && hit[0].bs in c && hit[0].bs < a
    requires Witnessed(env, hit, log, from)
    requires forall k: nat, y: Bits :: y < a && Accepted(env.reply(k, y, env.tau)) ==> y <= c[i]
    ensures hit[0].bs == c[i]
  {
    var k := WhenChecked(env, hit, log, from);
    assert hit[0] in hit;
    assert c[0] !! c[1];
    var v :| v in hit[0].bs;
  }

  // ----- the one input whose halves do not do -----

  /**
   With a store and one more bit, the weaker of two solutions was rejected on the way to the stronger one.
   As a pass makes eleven checks, a checker can still stall on it at the end of every pass.
   */
  lemma StoreEndless(alpha: real, kinds: seq<AtomicOp>, a: Bits, tau: int) returns (setup: Setup)
    requires ValidFor(kinds, a) && Within(a, 2 * |kinds|) && tau > 0 && OneSplit(kinds, a)
    ensures RunOf(setup, DDmin, Off) && setup.alpha == alpha && Suits(setup, kinds, a, tau, Needs(kinds, a))
    ensures !Ends(setup, a, tau)
  {
    var k: nat, b: nat :| SplitStore(kinds, a, k, b);
    var stalls: (nat, Bits) -> bool := (m, y) => y == {2 * k, b} || (y == {2 * k} && m % 11 >= 8);
    setup := Stalling(DDmin, alpha, kinds, a, stalls);
    StallingIsFair(setup, kinds, a, stalls, tau);
    var inv: State -> bool := (st: State) => |st.log| % 11 == 0;
    forall tau': int, st | tau' > 0 && inv(st)
      ensures Continues(OnePass(setup, a, tau', st), inv)
    {
      FollowsScript(setup, kinds, a, stalls, k, b, tau');
      ScriptedStall(setup, kinds, a, stalls, k, b, tau', st);
    }
    NeverEnds(setup, a, tau, inv);
  }

  lemma ScriptedStall(
    setup: Setup, kinds: seq<AtomicOp>, a: Bits, stalls: (nat, Bits) -> bool, k: nat, b: nat, tau: int, st: State)
    requires setup == Stalling(DDmin, setup.alpha, kinds, a, stalls) && tau > 0 && Within(a, setup.n)
    requires SplitStore(kinds, a, k, b) && Scripted(EnvAt(setup, tau), k, b) && |st.log| % 11 == 0
    ensures var p := OnePass(setup, a, tau, st); p.ending.Again? && p.ending.tau > 0 && |p.st.log| % 11 == 0
  {
    ScriptedPass(EnvAt(setup, tau), setup.n, a, k, b, st);
    StallsOnce(setup, kinds, a, stalls, tau, st);
    Residue(|st.log|, 11, |OnePass(setup, a, tau, st).st.log|);
  }

  lemma Residue(m: nat, i: nat, sum: nat)
    requires m % 11 == 0 && sum == m + i
    ensures sum % 11 == i % 11
  {
    Eleven(m / 11, i);
  }

  lemma Eleven(q: nat, i: nat)
    ensures (11 * q + i) % 11 == i % 11
  {
    if q > 0 {
      Eleven(q - 1, i);
    }
  }

  ghost predicate NeverAccepted(env: Env, x: Bits) {
    forall m: nat :: !Accepted(env.reply(m, x, env.tau))
  }

  ghost predicate AcceptedLate(env: Env, x: Bits) {
    forall m: nat :: Accepted(env.reply(m, x, env.tau)) <==> m % 11 >= 8
  }

  /** Which checks of the pass are accepted. */
  ghost predicate Scripted(env: Env, k: nat, b: nat) {
    && env.mode.Off? && AlwaysAccepted(env, {2 * k, b}) && AcceptedLate(env, {2 * k})
    && NeverAccepted(env, {2 * k + 1}) && NeverAccepted(env, {b}) && NeverAccepted(env, {2 * k + 1, b})
  }

  lemma FollowsScript(
    setup: Setup, kinds: seq<AtomicOp>, a: Bits, stalls: (nat, Bits) -> bool, k: nat, b: nat, tau: int)
    requires setup == Stalling(DDmin, setup.alpha, kinds, a, stalls) && tau > 0
    requires ValidFor(kinds, a) && SplitStore(kinds, a, k, b)
    requires forall m: nat, y: Bits :: stalls(m, y) <==> y == {2 * k, b} || (y == {2 * k} && m % 11 >= 8)
    ensures Scripted(EnvAt(setup, tau), k, b)
  {
    StallsOrRejects(setup, kinds, a, stalls, tau);
    StoreParts(kinds, a, k, b);
    var x: Bits, y: Bits, u: Bits, v: Bits, w: Bits := {2 * k, b}, {2 * k}, {2 * k + 1}, {b}, {2 * k + 1, b};
    assert x < a && y < a && u < a && v < a && w < a;
    assert x != y && u != x && u != y && v != x && v != y && w != x && w != y;
  }

  lemma StoreParts(kinds: seq<AtomicOp>, a: Bits, k: nat, b: nat)
    requires ValidFor(kinds, a) && SplitStore(kinds, a, k, b)
    ensures ValidFor(kinds, {2 * k, b}) && ValidFor(kinds, {2 * k})
    ensures !ValidFor(kinds, {2 * k + 1}) && !ValidFor(kinds, {2 * k + 1, b})
  {
    ClearOne(kinds, a, k);
    assert a - {2 * k + 1} == {2 * k, b};
    assert Pair({2 * k}, k) == 1;
    BitAlone(kinds, a, 2 * k, k);
    assert Pair({2 * k + 1}, k) == 2 && Pair({2 * k + 1, b}, k) == 2;
    assert GetOrdering(kinds[k], 2).Invalid?;
  }

  lemma {:induction false} KeepAll(filter: set<Bits>, cands: seq<Bits>)
    ensures Keep(filter, cands, Off) == cands
  {
    if cands != [] {
      KeepAll(filter, cands[1..]);
    }
  }

  /** A batch whose first i candidates are rejected. */
  lemma {:induction false} BatchSkips(env: Env, cands: seq<Bits>, st: State, i: nat) returns (st': State)
    requires i <= |cands| && forall m :: 0 <= m < i ==> !Accepted(env.reply(|st.log| + m, cands[m], env.tau))
    ensures TryBatch(env, cands, st) == TryBatch(env, cands[i..], st') && |st'.log| == |st.log| + i
  {
    if i == 0 {
      st' := st;
    } else {
      st' := BatchSkips(env, cands[1..], Refused(env, cands[0], st), i - 1);
      assert cands[1..][i - 1..] == cands[i..];
    }
  }

  /** Two chunks that are each other's complement, with the first four checks rejected. */
  lemma FourRejected(env: Env, n: nat, a: Bits, x: Bits, y: Bits, st: State)
    requires env.mode.Off? && Chunks(a, n, 2) == [x, y] && a - x == y && a - y == x
    requires NeverAccepted(env, y) && AcceptedLate(env, x) && |st.log| % 11 == 0
    ensures var r := OneRound(env, n, a, 2, st); r.hit == [] && |r.st.log| == |st.log| + 4
  {
    var m := |st.log|;
    KeepAll(st.filter, [x, y]);
    assert !Accepted(env.reply(m, x, env.tau)) && !Accepted(env.reply(m + 1, y, env.tau));
    var st1 := BatchSkips(env, [x, y], st, 2);
    assert Nablas(a, [x, y]) == [y, x];
    KeepAll(st1.filter, [y, x]);
    assert !Accepted(env.reply(m + 2, y, env.tau)) && !Accepted(env.reply(m + 3, x, env.tau));
    var st2 := BatchSkips(env, [y, x], st1, 2);
  }

  /** Three chunks and the first complement are rejected, and the second complement is accepted. */
  lemma FifthAccepted(env: Env, n: nat, a: Bits, c: seq<Bits>, st: State)
    requires env.mode.Off? && Chunks(a, n, 3) == c && |c| == 3
    requires AcceptedLate(env, c[0]) && NeverAccepted(env, c[1]) && NeverAccepted(env, c[2]) && |st.log| % 11 == 4
    requires NeverAccepted(env, a - c[0]) && AlwaysAccepted(env, a - c[1])
    ensures var r := OneRound(env, n, a, 3, st);
            r.hit != [] && r.hit[0].bs == a - c[1] && r.g == 2 && |r.st.log| == |st.log| + 5
  {
    var m, d := |st.log|, Nablas(a, c);
    KeepAll(st.filter, c);
    assert !Accepted(env.reply(m, c[0], env.tau)) && !Accepted(env.reply(m + 1, c[1], env.tau));
    assert !Accepted(env.reply(m + 2, c[2], env.tau));
    var st1 := BatchSkips(env, c, st, 3);
    assert c[3..] == [];
    KeepAll(st1.filter, d);
    assert !Accepted(env.reply(m + 3, d[0], env.tau));
    var st2 := BatchSkips(env, d, st1, 1);
    assert d[1..][0] == d[1] && Accepted(env.reply(m + 4, d[1], env.tau));
  }

  /** How a search of three 1-bits goes on when its halves are rejected, and when then a third is not. */
  lemma HalvesMissed(env: Env, n: nat, a: Bits, x: Bits, y: Bits, st: State) returns (st': State)
    requires env.mode.Off? && Within(a, n) && |a| == 3 && Chunks(a, n, 2) == [x, y] && a - x == y && a - y == x
    requires NeverAccepted(env, y) && AcceptedLate(env, x) && |st.log| % 11 == 0
    ensures Ddmin(env, n, a, 2, st) == Ddmin(env, n, a, 3, st') && |st'.log| == |st.log| + 4
  {
    FourRejected(env, n, a, x, y, st);
    AfterRound(env, n, a, 2, st);
    st' := OneRound(env, n, a, 2, st).st;
  }

  lemma ThirdHit(env: Env, n: nat, a: Bits, x: Bits, st: State)
    requires Within(a, n) && |a| == 3 && Within(x, n)
    requires var r := OneRound(env, n, a, 3, st); r.hit != [] && r.hit[0].bs == x && r.g == 2
    ensures var r, o := OneRound(env, n, a, 3, st), Ddmin(env, n, a, 3, st);
            && |o.sol| == |Ddmin(env, n, x, 2, r.st).sol| + 1
            && o.st == Ddmin(env, n, x, 2, r.st).st
  {
    AfterRound(env, n, a, 3, st);
    RoundSteps(env, n, a, 3, st);
  }

  /** In two parts everything is rejected. */
  lemma ScriptedHalves(env: Env, n: nat, a: Bits, k: nat, b: nat, st: State) returns (st': State)
    requires Scripted(env, k, b) && |st.log| % 11 == 0 && 2 * k + 1 < b < n && a == {2 * k, 2 * k + 1, b} && |a| == 3
    ensures Ddmin(env, n, a, 2, st) == Ddmin(env, n, a, 3, st') && |st'.log| == |st.log| + 4
  {
    TripleChunks(2 * k, 2 * k + 1, b, n);
    var x: Bits, y: Bits := {2 * k}, {2 * k + 1, b};
    assert a - x == y && a - y == x;
    st' := HalvesMissed(env, n, a, x, y, st);
  }

  /** In three parts the assignment without the store's upper bit is accepted. */
  lemma ScriptedThirds(env: Env, n: nat, a: Bits, x: Bits, k: nat, b: nat, st: State) returns (st': State)
    requires Scripted(env, k, b) && |st.log| % 11 == 4 && 2 * k + 1 < b < n
    requires a == {2 * k, 2 * k + 1, b} && x == {2 * k, b}
    ensures var o, o' := Ddmin(env, n, a, 3, st), Ddmin(env, n, x, 2, st');
            |o.sol| == |o'.sol| + 1 && o.st == o'.st && |st'.log| == |st.log| + 5
  {
    ThirdsRound(env, n, a, x, k, b, st);
    ThirdHit(env, n, a, x, st);
    st' := OneRound(env, n, a, 3, st).st;
  }

  lemma ThirdsRound(env: Env, n: nat, a: Bits, x: Bits, k: nat, b: nat, st: State)
    requires Scripted(env, k, b) && |st.log| % 11 == 4 && 2 * k + 1 < b < n
    requires a == {2 * k, 2 * k + 1, b} && x == {2 * k, b}
    ensures |a| == 3 && Within(a, n) && Within(x, n)
    ensures var r := OneRound(env, n, a, 3, st);
            r.hit != [] && r.hit[0].bs == x && r.g == 2 && |r.st.log| == |st.log| + 5
  {
    TripleChunks(2 * k, 2 * k + 1, b, n);
    var c: seq<Bits> := [{2 * k}, {2 * k + 1}, {b}];
    assert a - c[0] == {2 * k + 1, b} && a - c[1] == x;
    FifthAccepted(env, n, a, c, st);
  }

  /** Then the store's lower bit alone is accepted, and that is all. */
  lemma ScriptedEnd(env: Env, n: nat, k: nat, b: nat, st: State)
    requires Scripted(env, k, b) && |st.log| % 11 == 9 && 2 * k + 1 < b < n
    ensures var o := Ddmin(env, n, {2 * k, b}, 2, st); |o.sol| == 1 && |o.st.log| == |st.log| + 1
  {
    var x: Bits, y: Bits := {2 * k, b}, {2 * k};
    assert |x| == 2 && |y| == 1;
    PairChunks(2 * k, b, n);
    FirstHalf(env, n, x, y, {b}, st);
  }

  lemma FirstHalf(env: Env, n: nat, x: Bits, y: Bits, z: Bits, st: State)
    requires env.mode.Off? && Within(x, n) && |x| == 2 && |y| == 1 && Chunks(x, n, 2) == [y, z]
    requires Accepted(env.reply(|st.log|, y, env.tau))
    ensures var o := Ddmin(env, n, x, 2, st); |o.sol| == 1 && |o.st.log| == |st.log| + 1
  {
    KeepAll(st.filter, [y, z]);
    BatchOfTwo(env, y, z, st);
    AfterRound(env, n, x, 2, st);
    var r := OneRound(env, n, x, 2, st);
    assert Ddmin(env, n, y, 2, r.st) == Outcome([], r.st);
  }

  lemma ScriptedPass(env: Env, n: nat, a: Bits, k: nat, b: nat, st: State)
    requires Scripted(env, k, b) && |st.log| % 11 == 0 && 2 * k + 1 < b < n && a == {2 * k, 2 * k + 1, b}
    ensures var o := Ddmin(env, n, a, 2, st); |o.sol| == 2 && |o.st.log| == |st.log| + 10
  {
    var x: Bits := {2 * k, b};
    assert |a| == 3;
    var st1 := ScriptedHalves(env, n, a, k, b, st);
    Residue(|st.log|, 4, |st1.log|);
    var st2 := ScriptedThirds(env, n, a, x, k, b, st1);
    Residue(|st.log|, 9, |st2.log|);
    ScriptedEnd(env, n, k, b, st2);
  }
}
