/**
 What the two searches compute, said without a checker, a filter, a log or batches: only in terms of which
 assignments are correct. The searches agree with it in every filter mode.
 */
module Reference {
  import opened Search
  import opened Ordering
  import opened LinearRelaxation
  import opened InvalidPairs
  import opened Chunking
  import opened DeltaDebugging
  import opened InvalidChunks
  import opened Speculation
  import Fallback
  import Sets

  /** Under its deadline the checker accepts exactly the correct assignments. */
  ghost predicate Decisive(env: Env, good: Bits -> bool) {
    forall k, x :: Accepted(env.reply(k, x, env.tau)) <==> good(x)
  }

  lemma FairIsDecisive(env: Env, kinds: seq<AtomicOp>, good: Bits -> bool)
    requires Fair(env, kinds, good)
    requires env.tau <= 0 || forall k, x :: env.reply(k, x, env.tau).Timeout? ==> good(x)
    ensures Decisive(env, good)
  {
    forall k, x
      ensures Accepted(env.reply(k, x, env.tau)) <==> good(x)
    {
      var s := env.reply(k, x, env.tau);
      assert Accepted(s) || Failing(s);
    }
  }

  // ----- linear relaxation -----

  /**
   One operation: clear both bits if that is correct, else the lower one (and keep acquire strength), else the
   upper one (and keep release strength), else keep both.
   */
  ghost function Weakest(good: Bits -> bool, x: Bits, i: nat): Bits {
    if good(x - {i, i + 1}) then x - {i, i + 1}
    else if good(x - {i}) then x - {i}
    else if good(x - {i + 1}) then x - {i + 1}
    else x
  }

  /** The same for one operation after the other, from bit i on. */
  ghost function Greedy(good: Bits -> bool, n: nat, i: nat, x: Bits): Bits
    decreases n - i
  {
    if i >= n then x else Greedy(good, n, i + 2, Weakest(good, x, i))
  }

  /** The first correct candidate, or x when there is none. */
  ghost function FirstGood(good: Bits -> bool, cands: seq<Bits>, x: Bits): Bits {
    if cands == [] then x
    else if good(cands[0]) then cands[0]
    else FirstGood(good, cands[1..], x)
  }

  lemma {:induction false} TryEachFirst(env: Env, cands: seq<Bits>, st: State, x: Bits, good: Bits -> bool)
    requires Decisive(env, good) && SoundFilter(TryEach(env, cands, st).st.filter, good)
    ensures Final(TryEach(env, cands, st).hit, x) == FirstGood(good, cands, x)
  {
    if cands != [] {
      var c, rest := cands[0], cands[1..];
      var t := TryEach(env, cands, st);
      TryEachGrows(env, cands, st);
      if Contains(st.filter, c, env.mode) {
        assert Below(st.filter, c);
        BelowGrows(st.filter, t.st.filter, c, c);
        TryEachFirst(env, rest, st, x, good);
      } else {
        assert Accepted(env.reply(|st.log|, c, env.tau)) <==> good(c);
        if !good(c) {
          TryEachFirst(env, rest, Checked(env, c, st), x, good);
        }
      }
    }
  }

  lemma FirstOfThree(good: Bits -> bool, a: Bits, b: Bits, c: Bits, x: Bits)
    ensures FirstGood(good, [c], x) == if good(c) then c else x
    ensures FirstGood(good, [a, b, c], x) == if good(a) then a else if good(b) then b else if good(c) then c else x
  {
    assert [a, b, c][1..] == [b, c] && [b, c][1..] == [c] && [c][1..] == [];
  }

  /** Which of the candidates of one operation is the first correct one. */
  lemma FirstOfPair(good: Bits -> bool, x: Bits, i: nat)
    ensures FirstGood(good, Candidates(x, i), x) == Weakest(good, x, i)
  {
    var both, low, high := x - {i, i + 1}, x - {i}, x - {i + 1};
    FirstOfThree(good, both, low, high, x);
    FirstOfThree(good, low, low, low, x);
    if i in x && i + 1 in x {
      assert Candidates(x, i) == [both, low, high];
    } else if i in x {
      assert Candidates(x, i) == [low] && both == low && high == x;
    } else if i + 1 in x {
      assert Candidates(x, i) == [high] && both == high && low == x;
    } else {
      assert Candidates(x, i) == [] && both == x && low == x && high == x;
    }
  }

  /**
   With a checker that accepts exactly the correct assignments, linear relaxation computes this one, in every
   filter mode and whatever a sound filter already holds.
   */
  lemma RelaxIsGreedy(env: Env, kinds: seq<AtomicOp>, x: Bits, st: State, good: Bits -> bool)
    requires Fair(env, kinds, good) && Decisive(env, good) && ValidFor(kinds, x) && SoundFilter(st.filter, good)
    ensures Final(Relax(env, 2 * |kinds|, x, st).sol, x) == Greedy(good, 2 * |kinds|, 0, x)
  {
    FromIsGreedy(env, kinds, 0, x, st, good);
  }

  lemma {:induction false} FromIsGreedy(env: Env, kinds: seq<AtomicOp>, k: nat, x: Bits, st: State, good: Bits -> bool)
    requires Fair(env, kinds, good) && Decisive(env, good) && k <= |kinds|
    requires ValidFor(kinds, x) && SoundFilter(st.filter, good)
    ensures Final(From(env, 2 * |kinds|, 2 * k, x, st).sol, x) == Greedy(good, 2 * |kinds|, 2 * k, x)
    decreases |kinds| - k
  {
    if k < |kinds| {
      var t := TryEach(env, Candidates(x, 2 * k), st);
      OperationIsGreedy(env, kinds, k, x, st, good);
      var y := Weakest(good, x, 2 * k);
      FromIsGreedy(env, kinds, k + 1, y, t.st, good);
      assert 2 * (k + 1) == 2 * k + 2;
      calc {
        Final(From(env, 2 * |kinds|, 2 * k, x, st).sol, x);
        { FromStep(env, 2 * |kinds|, 2 * k, x, st); }
        Final(From(env, 2 * |kinds|, 2 * k + 2, y, t.st).sol, y);
        Greedy(good, 2 * |kinds|, 2 * k + 2, y);
        { GreedyStep(good, 2 * |kinds|, 2 * k, x); }
        Greedy(good, 2 * |kinds|, 2 * k, x);
      }
    }
  }

  lemma GreedyStep(good: Bits -> bool, n: nat, i: nat, x: Bits)
    requires i < n
    ensures Greedy(good, n, i, x) == Greedy(good, n, i + 2, Weakest(good, x, i))
  {
  }

  lemma OperationIsGreedy(env: Env, kinds: seq<AtomicOp>, k: nat, x: Bits, st: State, good: Bits -> bool)
    requires Fair(env, kinds, good) && Decisive(env, good) && k < |kinds|
    requires ValidFor(kinds, x) && SoundFilter(st.filter, good)
    ensures var t := TryEach(env, Candidates(x, 2 * k), st);
            && Final(t.hit, x) == Weakest(good, x, 2 * k)
            && SoundFilter(t.st.filter, good) && ValidFor(kinds, Weakest(good, x, 2 * k))
  {
    OperationSound(env, kinds, k, x, st, good);
    TryEachFirst(env, Candidates(x, 2 * k), st, x, good);
    FirstOfPair(good, x, 2 * k);
  }

  // ----- delta debugging -----

  lemma {:induction false} FirstIsCandidate(good: Bits -> bool, cands: seq<Bits>, x: Bits)
    ensures FirstGood(good, cands, x) == x || (FirstGood(good, cands, x) in cands && good(FirstGood(good, cands, x)))
  {
    if cands != [] {
      FirstIsCandidate(good, cands[1..], x);
    }
  }

  /** What one granularity makes of x: its first correct chunk, or else its first correct complement, or else x. */
  ghost function Reduced(good: Bits -> bool, n: nat, x: Bits, g: nat): (y: Bits)
    requires Within(x, n) && 2 <= g <= |x|
    ensures y <= x && (y != x ==> |y| < |x|)
  {
    var c := Chunks(x, n, g);
    CandidatesSmaller(x, n, g);
    FirstIsCandidate(good, c, x);
    FirstIsCandidate(good, Nablas(x, c), x);
    var y := FirstGood(good, c, x);
    if y != x then y else FirstGood(good, Nablas(x, c), x)
  }

  lemma CandidatesSmaller(x: Bits, n: nat, g: nat)
    requires Within(x, n) && 2 <= g <= |x|
    ensures var c := Chunks(x, n, g);
            forall y :: y in c || y in Nablas(x, c) ==> y < x && |y| < |x|
  {
    var c := Chunks(x, n, g);
    ChunksPartition(x, n, g);
    BatchShape(c, x);
    forall y | y in c || y in Nablas(x, c)
      ensures y < x && |y| < |x|
    {
      Sets.ProperSubsetSize(y, x);
    }
  }

  /**
   Textbook delta debugging. After a correct chunk it starts over with two parts, after a correct complement it
   goes on with one part less, and else it divides into twice as many parts for as long as there are 1-bits.
   */
  ghost function Textbook(good: Bits -> bool, n: nat, x: Bits, g: nat): Bits
    requires Within(x, n) && g >= 2
    decreases |x|, |x| - g
  {
    if |x| < g then x
    else
      var y := Reduced(good, n, x, g);
      if y != x then Textbook(good, n, y, if y in Chunks(x, n, g) then 2 else Max(g - 1, 2))
      else if g < |x| then Textbook(good, n, x, Min(|x|, 2 * g))
      else x
  }

  lemma InnocentBefore(filter: set<Bits>, later: set<Bits>, good: Bits -> bool, mode: Mode)
    requires filter <= later && Innocent(later, good, mode)
    ensures Innocent(filter, good, mode)
  {
    forall y | Contains(filter, y, mode)
      ensures !good(y)
    {
      if mode.Rlx? {
        BelowGrows(filter, later, y, y);
      }
      assert Contains(later, y, mode);
    }
  }

  lemma {:induction false} TurnFirst(env: Env, cands: seq<Bits>, st: State, x: Bits, good: Bits -> bool)
    requires Decisive(env, good) && forall k :: 0 <= k < |cands| ==> cands[k] < x
    requires Innocent(TryInTurn(env, cands, st).st.filter, good, env.mode)
    ensures var t := TryInTurn(env, cands, st);
            Final(t.hit, x) == FirstGood(good, cands, x) && (t.hit == [] <==> FirstGood(good, cands, x) == x)
  {
    if cands != [] {
      var c, rest := cands[0], cands[1..];
      TurnSteps(env, cands, st, x);
      InnocentBefore(st.filter, TryInTurn(env, cands, st).st.filter, good, env.mode);
      assert Accepted(env.reply(|st.log|, c, env.tau)) <==> good(c);
      if Contains(st.filter, c, env.mode) {
        TurnFirst(env, rest, st, x, good);
      } else if !good(c) {
        TurnFirst(env, rest, Refused(env, c, st), x, good);
      }
    }
  }

  /** A round tries its candidates in turn: the chunks, and then the complements. */
  lemma RoundInTurn(env: Env, n: nat, x: Bits, g: nat, st: State)
    requires Within(x, n) && 2 <= g <= |x|
    ensures var c := Chunks(x, n, g);
            var t := TryInTurn(env, c, st);
            var u := TryInTurn(env, Nablas(x, c), t.st);
            && t.st.filter <= u.st.filter
            && OneRound(env, n, x, g, st) ==
               if t.hit != [] then Round(t.hit, 2, t.st)
               else Round(u.hit, if u.hit == [] then g else Max(g - 1, 2), u.st)
  {
    var c := Chunks(x, n, g);
    ChunksPartition(x, n, g);
    BatchShape(c, x);
    BatchIsExact(env, c, x, st);
    var t := TryInTurn(env, c, st);
    BatchIsExact(env, Nablas(x, c), x, t.st);
    TurnSteps(env, Nablas(x, c), t.st, x);
  }

  /** One round goes on with what the textbook goes on with. */
  lemma RoundIsReduced(env: Env, n: nat, x: Bits, g: nat, st: State, good: Bits -> bool)
    requires Decisive(env, good) && Within(x, n) && 2 <= g <= |x|
    requires Innocent(OneRound(env, n, x, g, st).st.filter, good, env.mode)
    ensures var r := OneRound(env, n, x, g, st);
            && Final(r.hit, x) == Reduced(good, n, x, g) && (r.hit == [] <==> Reduced(good, n, x, g) == x)
            && (r.hit != [] ==> r.g == if r.hit[0].bs in Chunks(x, n, g) then 2 else Max(g - 1, 2))
  {
    var c := Chunks(x, n, g);
    CandidatesSmaller(x, n, g);
    RoundInTurn(env, n, x, g, st);
    var t := TryInTurn(env, c, st);
    var u := TryInTurn(env, Nablas(x, c), t.st);
    if t.hit == [] {
      InnocentBefore(t.st.filter, u.st.filter, good, env.mode);
      TurnFirst(env, Nablas(x, c), t.st, x, good);
      FirstIsCandidate(good, Nablas(x, c), x);
    }
    TurnFirst(env, c, st, x, good);
    FirstIsCandidate(good, c, x);
    if t.hit == [] {
      NoneGood(good, c, x);
    }
  }

  lemma {:induction false} NoneGood(good: Bits -> bool, cands: seq<Bits>, x: Bits)
    requires FirstGood(good, cands, x) == x && forall k :: 0 <= k < |cands| ==> cands[k] < x
    ensures forall c :: c in cands ==> !good(c)
  {
    if cands != [] {
      NoneGood(good, cands[1..], x);
    }
  }

  /**
   With such a checker delta debugging computes what the textbook says: in any filter mode but Rlx, and under
   Rlx from a sheltered assignment when the fully relaxed one is not correct.
   */
  lemma DdminIsTextbook(env: Env, kinds: seq<AtomicOp>, x: Bits, st: State, good: Bits -> bool)
    requires Fair(env, kinds, good) && Decisive(env, good) && ValidFor(kinds, x) && Within(x, 2 * |kinds|)
    requires Innocent(st.filter, good, env.mode) && (env.mode.Rlx? ==> Sheltered(kinds, x) && !good({}))
    ensures Final(Ddmin(env, 2 * |kinds|, x, 2, st).sol, x) == Textbook(good, 2 * |kinds|, x, 2)
  {
    if !good({}) {
      TwoSettled(kinds, x, good);
    }
    DdminFollows(env, kinds, x, 2, st, good);
  }

  lemma {:induction false} DdminFollows(
    env: Env, kinds: seq<AtomicOp>, x: Bits, g: nat, st: State, good: Bits -> bool)
    requires Fair(env, kinds, good) && Decisive(env, good) && Careful(env, kinds, x, g, st, good)
    requires g >= 2 && (g <= |x| || g == 2)
    ensures Final(Ddmin(env, 2 * |kinds|, x, g, st).sol, x) == Textbook(good, 2 * |kinds|, x, g)
    decreases |x|, |x| - g
  {
    var n := 2 * |kinds|;
    if |x| >= g {
      var r := OneRound(env, n, x, g, st);
      RoundHit(env, n, x, g, st);
      RoundSize(env, n, x, g, st);
      RoundInnocent(env, kinds, x, g, st, good);
      RoundIsReduced(env, n, x, g, st, good);
      if env.mode.Rlx? {
        RoundSettled(env, kinds, x, g, st, good);
      }
      if r.hit != [] {
        var y := r.hit[0].bs;
        if env.mode.Rlx? {
          ShelteredBelow(kinds, x, y);
        }
        DdminFollows(env, kinds, y, r.g, r.st, good);
        FinalOnto(Ddmin(env, n, y, r.g, r.st).sol, r.hit, x);
      } else if g < |x| {
        DdminFollows(env, kinds, x, Min(|x|, 2 * g), r.st, good);
      }
    }
  }

  // ----- whole runs -----

  ghost function Expected(strategy: Strategy, good: Bits -> bool, n: nat, a: Bits): Bits
    requires Within(a, n)
  {
    match strategy
    case LR => Greedy(good, n, 0, a)
    case DDmin => Textbook(good, n, a, 2)
  }

  /** The filter cannot get in the way of delta debugging. */
  ghost predicate Unhindered(setup: Setup, kinds: seq<AtomicOp>, a: Bits, good: Bits -> bool) {
    setup.strategy.DDmin? && setup.mode.Rlx? ==> Sheltered(kinds, a) && !good({})
  }

  /**
   Without a deadline, or when only correct assignments time out, a run that ends returns the expected
   assignment. So which filter is used, how the checker comes to its answers, and how long it takes make no
   difference to the result.
   */
  lemma RunIsExpected(
    setup: Setup, kinds: seq<AtomicOp>, a: Bits, tau: int, passes: nat, good: Bits -> bool)
    requires Suits(setup, kinds, a, tau, good) && Unhindered(setup, kinds, a, good)
    requires tau <= 0 || Fallback.TimeoutsCorrect(setup, good)
    ensures var e := RunFor(setup, a, tau, State({}, []), passes).ending;
            e.Found? ==> e.s.bs == Expected(setup.strategy, good, setup.n, a)
  {
    var env, st := EnvAt(setup, tau), State({}, []);
    if passes == 0 {
      RunNone(setup, a, tau, st);
    } else {
      Fallback.FirstPassEnds(setup, kinds, a, tau, st, passes, good);
      PassFirst(setup, a, tau, st);
      FairIsDecisive(env, kinds, good);
      if setup.strategy.LR? {
        RelaxIsGreedy(env, kinds, a, st, good);
      } else {
        DdminIsTextbook(env, kinds, a, st, good);
      }
    }
  }
}
