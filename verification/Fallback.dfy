/**
 When is what a run returns minimal? A run under a deadline may fall back to an earlier solution. This
 module says, in terms of the input and the initial deadline, when that can cost minimality.
 */
module Fallback {
  import opened Search
  import opened Ordering
  import opened LinearRelaxation
  import opened Chunking
  import opened DeltaDebugging
  import opened InvalidChunks
  import opened Speculation
  import Sets

  // ----- runs whose first pass is the last -----

  /** Nothing that times out is really incorrect. */
  ghost predicate TimeoutsCorrect(setup: Setup, good: Bits -> bool) {
    forall k, x, tau :: setup.reply(k, x, tau).Timeout? ==> good(x)
  }

  /**
   Without a deadline, or with a checker that times out only on correct assignments, the first pass ends
   the run with its first solution.
   */
  lemma FirstPassEnds(
    setup: Setup, kinds: seq<AtomicOp>, a: Bits, tau: int, st: State, passes: nat, good: Bits -> bool)
    requires Suits(setup, kinds, a, tau, good) && (tau <= 0 || TimeoutsCorrect(setup, good))
    ensures var e := OnePass(setup, a, tau, st).ending;
            e.Found? && e.idx == 0 && (passes > 0 ==> RunFor(setup, a, tau, st, passes).ending == e)
  {
    var o, env := SearchOnce(setup, a, tau, st), EnvAt(setup, tau);
    SearchSteps(setup, a, tau, st);
    var sol := Solutions(o, a);
    RecheckPicks(setup, sol, o.st);
    if sol[0].status.Timeout? {
      var k := WhenChecked(env, o.sol, o.st.log, |st.log|);
      RecheckAccepts(env, kinds, sol[0].bs, k, |o.st.log|, good);
    }
    if passes > 0 {
      RunStep(setup, a, tau, st, passes);
    }
  }

  lemma WhenChecked(env: Env, sol: seq<Entry>, log: seq<Entry>, from: nat) returns (k: nat)
    requires sol != [] && Witnessed(env, sol, log, from)
    ensures env.reply(k, sol[0].bs, env.tau) == sol[0].status
  {
    var s := sol[0];
    assert s in sol;
    k :| from <= k && CheckedAt(env, s, log, k);
  }

  lemma RecheckAccepts(env: Env, kinds: seq<AtomicOp>, x: Bits, k: nat, later: nat, good: Bits -> bool)
    requires Fair(env, kinds, good) && env.reply(k, x, env.tau).Timeout?
    requires env.tau > 0 ==> good(x)
    ensures env.reply(later, x, 0).OK?
  {
    assert env.tau > 0;
    var s := env.reply(later, x, 0);
    assert Accepted(s) || Failing(s);
  }

  // ----- linear relaxation -----

  /** A run of linear relaxation whose input has at most one 1-bit ends minimal. */
  lemma OneBitMinimal(
    setup: Setup, kinds: seq<AtomicOp>, a: Bits, tau: int, st: State, passes: nat, good: Bits -> bool)
    requires setup.strategy.LR? && Suits(setup, kinds, a, tau, good) && SoundFilter(st.filter, good) && |a| <= 1
    ensures var e := RunFor(setup, a, tau, st, passes).ending; e.Found? ==> Minimal(e.s.bs, good)
  {
    var inv: (int, State) -> bool := (t: int, s: State) => SoundFilter(s.filter, good);
    var post: (Ending, State) -> bool := (e: Ending, s: State) => e.Found? ==> Minimal(e.s.bs, good);
    forall tau', st' | inv(tau', st')
      ensures Keeps(OnePass(setup, a, tau', st'), inv, post)
    {
      SuitsLater(setup, kinds, a, tau, tau', good);
      PassMinimal(setup, kinds, a, tau', st', good);
      OneBitPass(setup, kinds, a, tau', st', good);
    }
    RunInduct(setup, a, tau, st, passes, inv, post);
  }

  lemma OneBitPass(setup: Setup, kinds: seq<AtomicOp>, a: Bits, tau: int, st: State, good: Bits -> bool)
    requires Suits(setup, kinds, a, tau, good) && |a| <= 1
    ensures var e := OnePass(setup, a, tau, st).ending; e.Found? && e.idx > 0 ==> Minimal(e.s.bs, good)
  {
    var o, e := SearchOnce(setup, a, tau, st), OnePass(setup, a, tau, st).ending;
    SearchSteps(setup, a, tau, st);
    var sol := Solutions(o, a);
    RecheckPicks(setup, sol, o.st);
    if e.Found? && e.idx > 0 {
      var x := o.sol[0];
      var k := WhenChecked(EnvAt(setup, tau), o.sol, o.st.log, |st.log|);
      RecheckFails(EnvAt(setup, tau), kinds, x.bs, k, |o.st.log|, good);
      forall y: Bits | y < a
        ensures y == {}
      {
        Sets.ProperSubsetSize(y, a);
      }
      assert x.bs == {};
      assert e.s.bs <= a;
    }
  }

  /** Every run of linear relaxation from a under tau, with a fair checker, that ends, ends minimal. */
  ghost predicate Reliable(kinds: seq<AtomicOp>, mode: Mode, a: Bits, tau: int) {
    forall setup, passes, good | RunOf(setup, LR, mode) && Suits(setup, kinds, a, tau, good) ::
      var e := RunFor(setup, a, tau, State({}, []), passes).ending; e.Found? ==> Minimal(e.s.bs, good)
  }

  ghost predicate RunOf(setup: Setup, strategy: Strategy, mode: Mode) {
    setup.strategy == strategy && setup.mode == mode
  }

  /**
   Linear relaxation is sure to return a minimal assignment if and only if it runs without a deadline, or
   its input has at most one 1-bit.
   */
  lemma ReliableIff(kinds: seq<AtomicOp>, mode: Mode, a: Bits, tau: int)
    requires ValidFor(kinds, a) && Within(a, 2 * |kinds|)
    ensures Reliable(kinds, mode, a, tau) <==> tau <= 0 || |a| <= 1
  {
    if tau <= 0 || |a| <= 1 {
      forall setup, passes, good | RunOf(setup, LR, mode) && Suits(setup, kinds, a, tau, good)
        ensures var e := RunFor(setup, a, tau, State({}, []), passes).ending; e.Found? ==> Minimal(e.s.bs, good)
      {
        var st := State({}, []);
        if tau <= 0 {
          FirstPassEnds(setup, kinds, a, tau, st, passes, good);
          RunMinimal(setup, kinds, a, tau, st, passes, good);
        } else {
          OneBitMinimal(setup, kinds, a, tau, st, passes, good);
        }
      }
    } else {
      var setup, good, b := LrFallsBack(kinds, mode, a, tau);
      assert RunOf(setup, LR, mode) && Suits(setup, kinds, a, tau, good);
      var e := RunFor(setup, a, tau, State({}, []), 1).ending;
      assert e.Found? && !Minimal(e.s.bs, good);
    }
  }

  // ----- a checker that makes a run fall back to its input -----

  /** What keeps all of `needed` is correct if it is valid. */
  ghost function Needs(kinds: seq<AtomicOp>, needed: Bits): Bits -> bool {
    x => ValidFor(kinds, x) && needed <= x
  }

  /** Tells the truth about such programs, except that under a deadline x times out. */
  ghost function Hesitant(strategy: Strategy, mode: Mode, kinds: seq<AtomicOp>, needed: Bits, x: Bits): Setup {
    Setup(mode, strategy, 0.0, 2 * |kinds|,
          (k, y, tau) => if !ValidFor(kinds, y) then Status.Invalid
                         else if needed <= y then OK
                         else if y == x && tau > 0 then Timeout
                         else NotSafe,
          k => 0)
  }

  lemma HesitantIsFair(strategy: Strategy, mode: Mode, kinds: seq<AtomicOp>, needed: Bits, x: Bits, tau: int)
    ensures Fair(EnvAt(Hesitant(strategy, mode, kinds, needed, x), tau), kinds, Needs(kinds, needed))
  {
  }

  /** After x, which lacks a needed bit, has been accepted, nothing weaker is. */
  lemma NothingBelow(setup: Setup, kinds: seq<AtomicOp>, needed: Bits, x: Bits, tau: int, o: Outcome, from: nat)
    requires setup == Hesitant(setup.strategy, setup.mode, kinds, needed, x) && !(needed <= x)
    requires Chain(o.sol, x) && Witnessed(EnvAt(setup, tau), o.sol, o.st.log, from)
    ensures o.sol == []
  {
    assert forall k: nat, y: Bits :: y < x ==> !Accepted(setup.reply(k, y, tau));
    assert forall s :: s in o.sol ==> s.bs < x;
    assert forall s :: s !in o.sol;
    SomeMember(o.sol);
  }

  lemma SomeMember<T>(s: seq<T>)
    ensures s != [] ==> exists x :: x in s
  {
    assert s != [] ==> s[0] in s;
  }

  lemma TimesOut(setup: Setup, kinds: seq<AtomicOp>, needed: Bits, x: Bits, tau: int)
    requires setup == Hesitant(setup.strategy, setup.mode, kinds, needed, x) && !(needed <= x)
    requires ValidFor(kinds, x) && tau > 0
    ensures forall k :: setup.reply(k, x, tau).Timeout?
  {
  }

  /** A pass that found nothing but x, which fails its recheck, returns the input. */
  lemma ReturnsInput(setup: Setup, kinds: seq<AtomicOp>, needed: Bits, a: Bits, x: Bits, tau: int)
    requires setup == Hesitant(setup.strategy, setup.mode, kinds, needed, x) && !(needed <= x)
    requires ValidFor(kinds, x) && x < a && tau > 0 && Within(a, setup.n)
    requires SearchOnce(setup, a, tau, State({}, [])).sol == [Entry(x, Timeout)]
    ensures RunFor(setup, a, tau, State({}, []), 1).ending == Found(Entry(a, OK), 1)
  {
    var o := SearchOnce(setup, a, tau, State({}, []));
    var sol := Solutions(o, a);
    assert sol == [Entry(x, Timeout), Entry(a, OK)];
    RecheckPicks(setup, sol, o.st);
    FallbackIsSecond(setup, sol, o.st);
    RunStep(setup, a, tau, State({}, []), 1);
  }

  // ----- linear relaxation falls back -----

  /** Among the bits that an operation has in a valid assignment, one can stay alone. */
  lemma AloneBit(kinds: seq<AtomicOp>, a: Bits, v: nat) returns (b: nat)
    requires ValidFor(kinds, a) && Within(a, 2 * |kinds|) && v in a
    ensures b in a && b / 2 == v / 2 && ValidFor(kinds, {b})
    ensures b != v ==> kinds[v / 2].Load? || kinds[v / 2].Store?
  {
    var k := v / 2;
    assert v == 2 * k || v == 2 * k + 1;
    assert !GetOrdering(kinds[k], Pair(a, k)).Invalid?;
    b := if v == 2 * k && kinds[k].Load? && 2 * k + 1 in a then 2 * k + 1
         else if v == 2 * k + 1 && kinds[k].Store? && 2 * k in a then 2 * k
         else v;
    BitAlone(kinds, a, b, k);
  }

  lemma BitAlone(kinds: seq<AtomicOp>, a: Bits, b: nat, k: nat)
    requires ValidFor(kinds, a) && k < |kinds| && (b == 2 * k || b == 2 * k + 1)
    requires !GetOrdering(kinds[k], Pair({b}, k)).Invalid?
    ensures ValidFor(kinds, {b})
  {
    forall j | 0 <= j < |kinds|
      ensures !GetOrdering(kinds[j], Pair({b}, j)).Invalid?
    {
      assert !GetOrdering(kinds[j], Pair(a, j)).Invalid?;
      assert j != k ==> Pair({b}, j) == 0;
    }
  }

  lemma FirstBit(a: Bits) returns (v: nat)
    requires a != {}
    ensures v in a && NoneBefore(a, v)
    decreases |a|
  {
    var u :| u in a;
    v := u;
    if !NoneBefore(a, u) {
      var below := set w | w in a && w < u;
      Sets.ProperSubsetSize(below, a);
      var w :| w in a && w < u;
      assert w in below;
      v := FirstBit(below);
      assert forall w :: w in a && w < v ==> w in below;
    }
  }

  /**
   Linear relaxation of an input with at least two 1-bits: let one bit of the first operation be needed,
   and time out on the assignment that relaxes that operation. The run then returns its input.
   */
  lemma LrFallsBack(kinds: seq<AtomicOp>, mode: Mode, a: Bits, tau: int)
    returns (setup: Setup, good: Bits -> bool, b: nat)
    requires ValidFor(kinds, a) && Within(a, 2 * |kinds|) && tau > 0 && |a| > 1
    ensures RunOf(setup, LR, mode) && Suits(setup, kinds, a, tau, good)
    ensures RunFor(setup, a, tau, State({}, []), 1).ending == Found(Entry(a, OK), 1) && !Minimal(a, good)
  {
    var v := FirstBit(a);
    b := AloneBit(kinds, a, v);
    var i := v / 2;
    var x := WithoutOp(a, i);
    setup, good := Hesitant(LR, mode, kinds, {b}, x), Needs(kinds, {b});
    HesitantIsFair(LR, mode, kinds, {b}, x, tau);
    RelaxedValid(kinds, a, i);
    FirstIsRelaxed(setup, kinds, a, b, x, i, tau);
    ReturnsInput(setup, kinds, {b}, a, x, tau);
    assert {b} <= a && {b} != a && good({b});
  }

  /** The search of such a run accepts the assignment that timed out, and nothing else. */
  lemma FirstIsRelaxed(setup: Setup, kinds: seq<AtomicOp>, a: Bits, b: nat, x: Bits, i: nat, tau: int)
    requires setup == Hesitant(LR, setup.mode, kinds, {b}, x) && tau > 0 && i < |kinds| && x == WithoutOp(a, i)
    requires b in a && b / 2 == i && NoneBefore(a, 2 * i) && ValidFor(kinds, x) && Within(a, setup.n)
    ensures SearchOnce(setup, a, tau, State({}, [])).sol == [Entry(x, Timeout)]
  {
    var st, env := State({}, []), EnvAt(setup, tau);
    TimesOut(setup, kinds, {b}, x, tau);
    assert !Below(st.filter, x);
    FromSkips(env, setup.n, 0, i, a, st);
    FirstTried(env, a, i, st);
    NothingAfter(setup, kinds, b, x, i, tau, TryEach(env, Candidates(a, 2 * i), st).st);
    FromHits(env, setup.n, i, a, x, st);
  }

  lemma NothingAfter(setup: Setup, kinds: seq<AtomicOp>, b: nat, x: Bits, i: nat, tau: int, st: State)
    requires setup == Hesitant(LR, setup.mode, kinds, {b}, x) && b !in x
    ensures From(EnvAt(setup, tau), setup.n, 2 * i + 2, x, st).sol == []
  {
    FromSteps(EnvAt(setup, tau), setup.n, 2 * i + 2, x, st);
    NothingBelow(setup, kinds, {b}, x, tau, From(EnvAt(setup, tau), setup.n, 2 * i + 2, x, st), |st.log|);
  }

  lemma FromHits(env: Env, n: nat, i: nat, a: Bits, x: Bits, st: State)
    requires 2 * i < n && TryEach(env, Candidates(a, 2 * i), st).hit == [Entry(x, Timeout)]
    requires From(env, n, 2 * i + 2, x, TryEach(env, Candidates(a, 2 * i), st).st).sol == []
    ensures From(env, n, 2 * i, a, st).sol == [Entry(x, Timeout)]
  {
  }

  /** The fully relaxed candidate of an operation is checked first, and kept if it times out. */
  lemma FirstTried(env: Env, a: Bits, i: nat, st: State)
    requires !Contains(st.filter, WithoutOp(a, i), env.mode) && (2 * i in a || 2 * i + 1 in a)
    requires Ask(env, WithoutOp(a, i), st).Timeout?
    ensures TryEach(env, Candidates(a, 2 * i), st).hit == [Entry(WithoutOp(a, i), Timeout)]
  {
    var cands, x := Candidates(a, 2 * i), WithoutOp(a, i);
    assert cands[0] == x;
  }

  /** The walk does nothing at operations without 1-bits. */
  lemma {:induction false} FromSkips(env: Env, n: nat, j: nat, i: nat, a: Bits, st: State)
    requires j <= i && 2 * i <= n && NoneBefore(a, 2 * i)
    ensures From(env, n, 2 * j, a, st) == From(env, n, 2 * i, a, st)
    decreases i - j
  {
    if j < i {
      assert Candidates(a, 2 * j) == [];
      var t := TryEach(env, Candidates(a, 2 * j), st);
      assert t == Tried([], st);
      FromSkips(env, n, j + 1, i, a, st);
      var o := From(env, n, 2 * j + 2, a, st);
      assert From(env, n, 2 * j, a, st) == Outcome(o.sol + [], o.st);
    }
  }

  // ----- delta debugging -----

  /** All 1-bits are the two of one load or store. */
  ghost predicate OnlyFull(kinds: seq<AtomicOp>, a: Bits) {
    exists k: nat :: IsFull(kinds, a, k)
  }

  ghost predicate IsFull(kinds: seq<AtomicOp>, a: Bits, k: nat) {
    k < |kinds| && (kinds[k].Load? || kinds[k].Store?) && a == {2 * k, 2 * k + 1}
  }

  /** Every run of delta debugging that ends, ends minimal unless only the fully relaxed assignment was missed. */
  ghost predicate ReliableDdmin(kinds: seq<AtomicOp>, mode: Mode, a: Bits, tau: int) {
    forall setup, passes, good | RunOf(setup, DDmin, mode) && Suits(setup, kinds, a, tau, good) ::
      var e := RunFor(setup, a, tau, State({}, []), passes).ending;
      e.Found? ==> (Minimal(e.s.bs, good) <==> a == {} || !good({}))
  }

  /**
   Delta debugging is sure to end this way if and only if it runs without a deadline, or has at most one
   assignment to try that is neither the fully relaxed one nor invalid.
   */
  lemma ReliableDdminIff(kinds: seq<AtomicOp>, mode: Mode, a: Bits, tau: int)
    requires ValidFor(kinds, a) && Within(a, 2 * |kinds|) && (mode.Rlx? ==> Sheltered(kinds, a))
    ensures ReliableDdmin(kinds, mode, a, tau) <==> tau <= 0 || |a| <= 1 || OnlyFull(kinds, a)
  {
    if tau <= 0 || |a| <= 1 || OnlyFull(kinds, a) {
      forall setup, passes, good | RunOf(setup, DDmin, mode) && Suits(setup, kinds, a, tau, good)
        ensures var e := RunFor(setup, a, tau, State({}, []), passes).ending;
                e.Found? ==> (Minimal(e.s.bs, good) <==> a == {} || !good({}))
      {
        RunMinimalDdmin(setup, kinds, a, tau, State({}, []), passes, good);
        if tau <= 0 {
          FirstPassEnds(setup, kinds, a, tau, State({}, []), passes, good);
        } else {
          FewChoices(setup, kinds, a, tau, State({}, []), passes, good);
        }
      }
    } else {
      var setup, good := DdminFallsBack(kinds, mode, a, tau);
      assert RunOf(setup, DDmin, mode) && Suits(setup, kinds, a, tau, good);
      var e := RunFor(setup, a, tau, State({}, []), 1).ending;
      assert e.Found? && !Minimal(e.s.bs, good) && !good({});
    }
  }

  /** With so few assignments to try, falling back to the input means that there was nothing else. */
  lemma FewChoices(setup: Setup, kinds: seq<AtomicOp>, a: Bits, tau: int, st: State, passes: nat, good: Bits -> bool)
    requires setup.strategy.DDmin? && Suits(setup, kinds, a, tau, good) && (|a| <= 1 || OnlyFull(kinds, a))
    ensures var e := RunFor(setup, a, tau, st, passes).ending;
            e.Found? && e.idx > 0 ==> Minimal(e.s.bs, good) && !good({})
  {
    var inv: (int, State) -> bool := (t, s) => true;
    var post: (Ending, State) -> bool := (e: Ending, s: State) =>
      e.Found? && e.idx > 0 ==> Minimal(e.s.bs, good) && !good({});
    forall tau', st' | inv(tau', st')
      ensures Keeps(OnePass(setup, a, tau', st'), inv, post)
    {
      SuitsLater(setup, kinds, a, tau, tau', good);
      FewChoicesPass(setup, kinds, a, tau', st', good);
    }
    RunInduct(setup, a, tau, st, passes, inv, post);
  }

  lemma FewChoicesPass(setup: Setup, kinds: seq<AtomicOp>, a: Bits, tau: int, st: State, good: Bits -> bool)
    requires setup.strategy.DDmin? && Suits(setup, kinds, a, tau, good) && (|a| <= 1 || OnlyFull(kinds, a))
    ensures var e := OnePass(setup, a, tau, st).ending;
            e.Found? && e.idx > 0 ==> Minimal(e.s.bs, good) && !good({})
  {
    var o, e := SearchOnce(setup, a, tau, st), OnePass(setup, a, tau, st).ending;
    SearchSteps(setup, a, tau, st);
    var sol := Solutions(o, a);
    RecheckPicks(setup, sol, o.st);
    if e.Found? && e.idx > 0 {
      var k := WhenChecked(EnvAt(setup, tau), o.sol, o.st.log, |st.log|);
      RecheckFails(EnvAt(setup, tau), kinds, o.sol[0].bs, k, |o.st.log|, good);
      DdminKeepsSome(EnvAt(setup, tau), setup.n, a, 2, st);
      FewSolutions(kinds, a, o.sol, good);
    }
  }

  /** Such an input has one solution at most, and when that fails, so does everything else that is weaker. */
  lemma FewSolutions(kinds: seq<AtomicOp>, a: Bits, sol: seq<Entry>, good: Bits -> bool)
    requires sol != [] && Chain(sol, a) && sol[0].bs != {} && ValidFor(kinds, sol[0].bs)
    requires |a| <= 1 || OnlyFull(kinds, a)
    requires forall y :: y <= sol[0].bs ==> !good(y)
    requires forall y :: good(y) ==> ValidFor(kinds, y)
    ensures |sol| == 1 && Minimal(a, good) && !good({})
  {
    var x := sol[0].bs;
    ChainLength(sol, a);
    assert |x| > 0;
    var k: nat :| IsFull(kinds, a, k);
    PairParts(k, x);
    assert |a| == 2;
    forall y: Bits | y < a
      ensures !good(y)
    {
      PairParts(k, y);
      BrokenHalf(kinds, k);
    }
  }

  lemma {:induction false} ChainLength(sol: seq<Entry>, a: Bits)
    requires Chain(sol, a) && sol != []
    ensures |sol[0].bs| + |sol| <= |a|
  {
    if |sol| == 1 {
      Sets.ProperSubsetSize(sol[0].bs, a);
    } else {
      ChainLength(sol[1..], a);
      Sets.ProperSubsetSize(sol[0].bs, sol[1].bs);
    }
  }

  lemma PairParts(k: nat, y: Bits)
    requires y < {2 * k, 2 * k + 1}
    ensures y == {} || y == {2 * k} || y == {2 * k + 1}
  {
  }

  lemma BrokenHalf(kinds: seq<AtomicOp>, k: nat)
    requires k < |kinds|
    ensures kinds[k].Load? ==> !ValidFor(kinds, {2 * k})
    ensures kinds[k].Store? ==> !ValidFor(kinds, {2 * k + 1})
  {
    assert Pair({2 * k}, k) == 1 && Pair({2 * k + 1}, k) == 2;
  }

  // ----- delta debugging falls back -----

  /**
   Delta debugging of any other input: let w be needed, and time out on the first of the two halves that
   is valid, which lacks a bit of w. The run then returns its input.
   */
  lemma DdminFallsBack(kinds: seq<AtomicOp>, mode: Mode, a: Bits, tau: int)
    returns (setup: Setup, good: Bits -> bool)
    requires ValidFor(kinds, a) && Within(a, 2 * |kinds|) && tau > 0 && |a| > 1 && !OnlyFull(kinds, a)
    ensures RunOf(setup, DDmin, mode) && Suits(setup, kinds, a, tau, good)
    ensures RunFor(setup, a, tau, State({}, []), 1).ending == Found(Entry(a, OK), 1)
    ensures !Minimal(a, good) && !good({})
  {
    var x, w := HalfAndNeeded(kinds, a);
    setup, good := Hesitant(DDmin, mode, kinds, w, x), Needs(kinds, w);
    HesitantIsFair(DDmin, mode, kinds, w, x, tau);
    HalfIsFound(setup, kinds, a, x, w, tau);
    ReturnsInput(setup, kinds, w, a, x, tau);
    assert good(w) && w < a;
  }

  /** x is the first valid half of a, and w a correct assignment that x does not include. */
  ghost predicate Chosen(kinds: seq<AtomicOp>, a: Bits, c: seq<Bits>, x: Bits, w: Bits) {
    && |c| == 2 && x < a && w < a && w != {} && !(w <= x) && ValidFor(kinds, x) && ValidFor(kinds, w)
    && (x == c[0] || (x == c[1] && !ValidFor(kinds, c[0])))
  }

  lemma HalfAndNeeded(kinds: seq<AtomicOp>, a: Bits) returns (x: Bits, w: Bits)
    requires ValidFor(kinds, a) && Within(a, 2 * |kinds|) && |a| > 1 && !OnlyFull(kinds, a)
    ensures Chosen(kinds, a, Chunks(a, 2 * |kinds|, 2), x, w)
  {
    var c := Chunks(a, 2 * |kinds|, 2);
    ChunksCut(a, 2 * |kinds|, 2);
    BatchShape(c, a);
    TwoHalves(c, a, 0);
    if ValidFor(kinds, c[0]) {
      x := c[0];
      var b := AloneInLast(kinds, a, c);
      w := {b};
    } else {
      var k := BrokenPair(kinds, a, c[0]);
      LoadIsSplit(kinds, a, c, k);
      x := c[1];
      w := NeededInFirst(kinds, a, c, k);
    }
  }

  /** Some bit of the second half can stay alone, unless there is nothing but one load or store. */
  lemma AloneInLast(kinds: seq<AtomicOp>, a: Bits, c: seq<Bits>) returns (b: nat)
    requires ValidFor(kinds, a) && Within(a, 2 * |kinds|) && Cut(c, a) && |c| == 2
    ensures ValidFor(kinds, {b}) && {b} < a && (b in c[1] || OnlyFull(kinds, a))
  {
    var v := LastBit(c[1]);
    b := AloneBit(kinds, a, v);
    var i := ChunkOf(c, a, b);
    LastOfAll(c, a, v);
    var u :| u in c[0];
    assert u in a && v in a && c[0] !! c[1];
    if i == 0 {
      var k := v / 2;
      assert b == 2 * k && v == 2 * k + 1;
      UpperAlone(c, a, 1, 0, k);
      SingleSet(c[0], 2 * k);
      TwoHalves(c, a, 0);
      assert a == c[0] + c[1];
      assert IsFull(kinds, a, k);
    }
  }

  lemma LastBit(a: Bits) returns (v: nat)
    requires a != {}
    ensures v in a && NoneFrom(a, v + 1)
    decreases |a|
  {
    var u :| u in a;
    v := u;
    if !NoneFrom(a, u + 1) {
      var above := set w | w in a && w > u;
      Sets.ProperSubsetSize(above, a);
      var w :| w in a && w > u;
      assert w in above;
      v := LastBit(above);
      assert forall w :: w in a && w > v ==> w in above;
    }
  }

  lemma LastOfAll(c: seq<Bits>, a: Bits, v: nat)
    requires Cut(c, a) && |c| == 2 && v in c[1] && NoneFrom(c[1], v + 1)
    ensures NoneFrom(a, v + 1)
  {
    forall u | u in a
      ensures u < v + 1
    {
      var i := ChunkOf(c, a, u);
      assert i == 0 || i == 1;
    }
  }

  /** The first half is invalid because it has the lower bit of a load only, and then the second half is valid. */
  lemma LoadIsSplit(kinds: seq<AtomicOp>, a: Bits, c: seq<Bits>, k: nat)
    requires ValidFor(kinds, a) && Cut(c, a) && |c| == 2 && k < |kinds| && 2 * k in a && 2 * k + 1 in a
    requires (kinds[k].Load? && 2 * k in c[0] && 2 * k + 1 !in c[0]) || (kinds[k].Store? && 2 * k !in c[0] && 2 * k + 1 in c[0])
    ensures kinds[k].Load? && 2 * k in c[0] && 2 * k + 1 in c[1] && ValidFor(kinds, c[1])
  {
    var i := ChunkOf(c, a, 2 * k);
    var j := ChunkOf(c, a, 2 * k + 1);
    assert i <= j && c[0] !! c[1];
    forall m | 0 <= m < |kinds|
      ensures !GetOrdering(kinds[m], Pair(c[1], m)).Invalid?
    {
      assert !GetOrdering(kinds[m], Pair(a, m)).Invalid?;
      TwoHalves(c, a, 0);
      assert 2 * m in c[0] && 2 * m + 1 in c[1] ==> m == k;
    }
  }

  lemma NeededInFirst(kinds: seq<AtomicOp>, a: Bits, c: seq<Bits>, k: nat) returns (w: Bits)
    requires ValidFor(kinds, a) && Within(a, 2 * |kinds|) && Cut(c, a) && |c| == 2 && !OnlyFull(kinds, a)
    requires k < |kinds| && kinds[k].Load? && 2 * k in c[0] && 2 * k + 1 in c[1]
    ensures w < a && w != {} && !(w <= c[1]) && ValidFor(kinds, w)
  {
    assert c[0] !! c[1] && 2 * k in a && 2 * k + 1 in a;
    if u :| u in c[0] && u != 2 * k {
      assert u in a;
      var b := AloneBit(kinds, a, u);
      var i := ChunkOf(c, a, b);
      assert b < 2 * k;
      assert i == 0;
      w := {b};
      assert 2 * k !in w;
    } else {
      w := {2 * k, 2 * k + 1};
      FullAlone(kinds, a, k);
      assert a == w ==> IsFull(kinds, a, k);
    }
  }

  lemma FullAlone(kinds: seq<AtomicOp>, a: Bits, k: nat)
    requires ValidFor(kinds, a) && k < |kinds|
    ensures ValidFor(kinds, {2 * k, 2 * k + 1})
  {
    forall j | 0 <= j < |kinds|
      ensures !GetOrdering(kinds[j], Pair({2 * k, 2 * k + 1}, j)).Invalid?
    {
      assert !GetOrdering(kinds[j], Pair(a, j)).Invalid?;
      assert Pair({2 * k, 2 * k + 1}, j) == if j == k then 3 else 0;
    }
  }

  // ----- what the search makes of it -----

  lemma BatchOfOne(env: Env, x: Bits, st: State)
    ensures TryBatch(env, [x], st) ==
            if Accepted(Ask(env, x, st)) then Tried([Entry(x, Ask(env, x, st))], Checked(env, x, st))
            else Tried([], Refused(env, x, st))
  {
  }

  lemma BatchOfTwo(env: Env, x: Bits, y: Bits, st: State)
    ensures TryBatch(env, [x, y], st) ==
            if Accepted(Ask(env, x, st)) then Tried([Entry(x, Ask(env, x, st))], Checked(env, x, st))
            else TryBatch(env, [y], Refused(env, x, st))
  {
    assert [x, y][1..] == [y];
  }

  lemma KeepTwo(x: Bits, y: Bits, mode: Mode)
    ensures Keep({}, [x, y], mode) == [x, y]
  {
    var none: set<Bits> := {};
    assert !Below(none, x) && !Below(none, y);
    assert [x, y][1..] == [y];
    assert Keep({}, [y], mode) == [y];
  }

  /** How a search goes on after a round that missed, and after one that hit. */
  lemma AfterRound(env: Env, n: nat, x: Bits, g: nat, st: State)
    requires Within(x, n) && 2 <= g <= |x|
    ensures var r, o := OneRound(env, n, x, g, st), Ddmin(env, n, x, g, st);
            && (r.hit == [] && g == |x| ==> o == Outcome([], r.st))
            && (r.hit == [] && g < |x| ==> o == Ddmin(env, n, x, Min(|x|, 2 * g), r.st))
            && (r.hit != [] ==>
                  Within(r.hit[0].bs, n) && r.g >= 2 && o == Chained(Ddmin(env, n, r.hit[0].bs, r.g, r.st), r.hit))
  {
    RoundHit(env, n, x, g, st);
  }

  ghost function Chained(o: Outcome, hit: seq<Entry>): Outcome {
    Outcome(o.sol + hit, o.st)
  }

  /** The search accepts the half that times out, and nothing weaker. */
  lemma HalfIsFound(setup: Setup, kinds: seq<AtomicOp>, a: Bits, x: Bits, w: Bits, tau: int)
    requires setup == Hesitant(DDmin, setup.mode, kinds, w, x) && tau > 0 && Within(a, setup.n) && |a| > 1
    requires Chosen(kinds, a, Chunks(a, setup.n, 2), x, w)
    ensures SearchOnce(setup, a, tau, State({}, [])).sol == [Entry(x, Timeout)]
  {
    var env, c := EnvAt(setup, tau), Chunks(a, setup.n, 2);
    HalfIsHit(setup, kinds, a, c, x, w, tau);
    AfterRound(env, setup.n, a, 2, State({}, []));
    var r := OneRound(env, setup.n, a, 2, State({}, []));
    var o := Ddmin(env, setup.n, x, 2, r.st);
    DdminSteps(env, setup.n, x, 2, r.st);
    NothingBelow(setup, kinds, w, x, tau, o, |r.st.log|);
  }

  lemma HalfIsHit(setup: Setup, kinds: seq<AtomicOp>, a: Bits, c: seq<Bits>, x: Bits, w: Bits, tau: int)
    requires setup == Hesitant(DDmin, setup.mode, kinds, w, x) && tau > 0 && Within(a, setup.n) && |a| > 1
    requires c == Chunks(a, setup.n, 2) && Chosen(kinds, a, c, x, w)
    ensures var r := OneRound(EnvAt(setup, tau), setup.n, a, 2, State({}, [])); r.hit == [Entry(x, Timeout)] && r.g == 2
  {
    var st, env := State({}, []), EnvAt(setup, tau);
    TimesOut(setup, kinds, w, x, tau);
    assert c == [c[0], c[1]];
    KeepTwo(c[0], c[1], env.mode);
    BatchOfTwo(env, c[0], c[1], st);
    BatchOfOne(env, c[1], Refused(env, c[0], st));
    assert x != c[0] ==> Ask(env, c[0], st).Invalid?;
  }
}
