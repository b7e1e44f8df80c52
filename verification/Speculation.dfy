/**
 The optimizer's outer loop: search under a deadline, check the best solution again without one, and
 if it fails remember it and search again with a longer deadline.
 */
module Speculation {
  import opened Search
  import LinearRelaxation
  import InvalidPairs
  import opened Ordering
  import opened Chunking
  import DeltaDebugging
  import opened InvalidChunks
  import Words
  import Powerset

  datatype Strategy = DDmin | LR

  /**
   What a whole run depends on; `elapsed(k)` is how long a recheck took that is the k-th check, and n
   is the number of bits of the assignments.
   */
  datatype Setup = Setup(
    mode: Mode, strategy: Strategy, alpha: real, n: nat,
    reply: (nat, Bits, int) -> Status, elapsed: nat -> nat)

  ghost function EnvAt(setup: Setup, tau: int): Env {
    Env(setup.mode, setup.reply, tau)
  }

  /** Integer division as Go does it, toward zero. */
  function Quot(a: int, b: int): int
    requires b > 0
  {
    if a >= 0 then a / b else -(-a / b)
  }

  function Truncate(r: real): int {
    if r >= 0.0 then r.Floor else -(-r).Floor
  }

  function AdjustTau(tau: int, elapsed: int, alpha: real): int {
    if alpha == 0.0 then tau + elapsed
    else if tau == 0 then elapsed
    else
      var a := Truncate(alpha * 1000.0);
      var b := 1000 - a;
      var ntau := Quot(a * tau + b * elapsed, 1000);
      if ntau > tau then ntau else tau
  }

  /** Index of the first solution with this status, or -1. */
  ghost function PickNext(sol: seq<Entry>, status: Status): (i: int)
    ensures -1 <= i < |sol|
    ensures i >= 0 ==> sol[i].status == status && forall k :: 0 <= k < i ==> sol[k].status != status
    ensures i < 0 ==> forall s :: s in sol ==> s.status != status
  {
    if sol == [] then -1
    else if sol[0].status == status then 0
    else
      var i := PickNext(sol[1..], status);
      if i < 0 then -1 else i + 1
  }

  datatype Rechecked = Rechecked(idx: int, st: State)

  /** Double check the most relaxed solution; idx is the solution to return, or -1 to search again. */
  ghost function Recheck(setup: Setup, sol: seq<Entry>, st: State): Rechecked
    requires sol != [] && Accepted(sol[0].status) && sol[|sol| - 1].status.OK?
  {
    var s := sol[0];
    var status := if s.status.Timeout? then setup.reply(|st.log|, s.bs, 0) else s.status;
    var log := if s.status.Timeout? then st.log + [Entry(s.bs, status)] else st.log;
    if status.OK? then Rechecked(0, State(st.filter, log))
    else
      var st' := State(st.filter + {s.bs}, log);
      var firstOK := PickNext(sol, OK);
      if PickNext(sol[1..firstOK], Timeout) == -1 then Rechecked(firstOK, st')
      else Rechecked(-1, st')
  }

  /** A pass ends the run with the idx-th solution of its list, or starts another with a new deadline. */
  datatype Ending = Found(s: Entry, idx: nat) | Again(tau: int)

  datatype Pass = Pass(ending: Ending, st: State)

  ghost function SearchOnce(setup: Setup, a: Bits, tau: int, st: State): Outcome
    requires Within(a, setup.n)
  {
    match setup.strategy
    case DDmin => DeltaDebugging.Ddmin(EnvAt(setup, tau), setup.n, a, 2, st)
    case LR => LinearRelaxation.Relax(EnvAt(setup, tau), setup.n, a, st)
  }

  /** The solutions of a search, with the initial assignment assumed correct at the end. */
  ghost function Solutions(o: Outcome, a: Bits): seq<Entry> {
    o.sol + [Entry(a, OK)]
  }

  ghost function OnePass(setup: Setup, a: Bits, tau: int, st: State): Pass
    requires Within(a, setup.n)
  {
    var o := SearchOnce(setup, a, tau, st);
    var sol := Solutions(o, a);
    SearchSteps(setup, a, tau, st);
    if sol[0].bs == a || tau == 0 then Pass(Found(sol[0], 0), o.st)
    else
      var r := Recheck(setup, sol, o.st);
      if r.idx >= 0 then Pass(Found(sol[r.idx], r.idx), r.st)
      else Pass(Again(AdjustTau(tau, setup.elapsed(|o.st.log|), setup.alpha)), r.st)
  }

  /** Repeats a step until it ends the run, at most `passes` times; ending is Again when that did not suffice. */
  ghost function Repeat(step: (int, State) -> Pass, tau: int, st: State, passes: nat): Pass
    decreases passes
  {
    if passes == 0 then Pass(Again(tau), st)
    else
      var p := step(tau, st);
      if p.ending.Found? then p else Repeat(step, p.ending.tau, p.st, passes - 1)
  }

  ghost function PassFrom(setup: Setup, a: Bits): (int, State) -> Pass
    requires Within(a, setup.n)
  {
    (tau, st) => OnePass(setup, a, tau, st)
  }

  /** The loop of the optimizer, for at most `passes` passes. It always starts again from a. */
  ghost function RunFor(setup: Setup, a: Bits, tau: int, st: State, passes: nat): Pass
    requires Within(a, setup.n)
  {
    Repeat(PassFrom(setup, a), tau, st, passes)
  }

  /** What either strategy keeps: a chain of accepted solutions, and only weaker assignments rejected. */
  lemma SearchSteps(setup: Setup, a: Bits, tau: int, st: State)
    requires Within(a, setup.n)
    ensures var o := SearchOnce(setup, a, tau, st);
            && Extends(st, o.st, a)
            && Chain(o.sol, a)
            && Witnessed(EnvAt(setup, tau), o.sol, o.st.log, |st.log|)
            && (o.sol != [] && setup.mode != Off ==> o.sol[0].bs !in o.st.filter)
  {
    var env := EnvAt(setup, tau);
    if setup.strategy.DDmin? {
      DeltaDebugging.DdminSteps(env, setup.n, a, 2, st);
    } else {
      LinearRelaxation.FromSteps(env, setup.n, 0, a, st);
      LinearRelaxation.FromFresh(env, setup.n, 0, a, st);
    }
  }

  /** A pass that returns anything but its most relaxed solution has ruled that one out. */
  lemma RecheckPicks(setup: Setup, sol: seq<Entry>, st: State)
    requires sol != [] && Accepted(sol[0].status) && sol[|sol| - 1].status.OK?
    ensures var r := Recheck(setup, sol, st);
            && -1 <= r.idx < |sol|
            && (r.idx > 0 ==> sol[r.idx].status.OK?)
            && (r.idx == 0 ==> sol[0].status.OK? || setup.reply(|st.log|, sol[0].bs, 0).OK?)
            && (r.idx != 0 ==> sol[0].status.Timeout? && !setup.reply(|st.log|, sol[0].bs, 0).OK?)
            && r.st.filter == st.filter + (if r.idx == 0 then {} else {sol[0].bs})
            && st.log <= r.st.log
            && |r.st.log| == |st.log| + (if sol[0].status.Timeout? then 1 else 0)
            && (sol[0].status.Timeout? ==> r.st.log[|st.log|] == Entry(sol[0].bs, setup.reply(|st.log|, sol[0].bs, 0)))
  {
  }

  lemma RunStep(setup: Setup, a: Bits, tau: int, st: State, passes: nat)
    requires Within(a, setup.n) && passes > 0
    ensures var p := OnePass(setup, a, tau, st);
            RunFor(setup, a, tau, st, passes) ==
            if p.ending.Found? then p else RunFor(setup, a, p.ending.tau, p.st, passes - 1)
  {
  }

  /** With no deadline there is one pass and no recheck, and its most relaxed solution is the result. */
  lemma NoSpeculation(setup: Setup, a: Bits, st: State, passes: nat)
    requires Within(a, setup.n) && passes > 0
    ensures var o, p := SearchOnce(setup, a, 0, st), RunFor(setup, a, 0, st, passes);
            p.st == o.st && p.ending.Found? && p.ending.s.bs == Final(o.sol, a)
  {
    RunStep(setup, a, 0, st, passes);
  }

  lemma RunNone(setup: Setup, a: Bits, tau: int, st: State)
    requires Within(a, setup.n)
    ensures RunFor(setup, a, tau, st, 0) == Pass(Again(tau), st)
  {
  }

  lemma {:induction false} RepeatMore(
    step: (int, State) -> Pass, tau: int, st: State, passes: nat, tau': int, st': State)
    requires Repeat(step, tau, st, passes) == Pass(Again(tau'), st')
    ensures Repeat(step, tau, st, passes + 1) == step(tau', st')
    decreases passes
  {
    var p := step(tau, st);
    if passes > 0 {
      RepeatMore(step, p.ending.tau, p.st, passes - 1, tau', st');
    } else if p.ending.Again? {
      assert Repeat(step, p.ending.tau, p.st, 0) == p;
    }
  }

  lemma {:induction false} RepeatStays(step: (int, State) -> Pass, tau: int, st: State, passes: nat, more: nat)
    requires passes <= more && Repeat(step, tau, st, passes).ending.Found?
    ensures Repeat(step, tau, st, more) == Repeat(step, tau, st, passes)
    decreases passes
  {
    var p := step(tau, st);
    if p.ending.Again? {
      RepeatStays(step, p.ending.tau, p.st, passes - 1, more - 1);
    }
  }

  /** A run that has ended is not changed by allowing more passes. */
  lemma RunStays(setup: Setup, a: Bits, tau: int, st: State, passes: nat, more: nat)
    requires Within(a, setup.n) && passes <= more && RunFor(setup, a, tau, st, passes).ending.Found?
    ensures RunFor(setup, a, tau, st, more) == RunFor(setup, a, tau, st, passes)
  {
    RepeatStays(PassFrom(setup, a), tau, st, passes, more);
  }

  /** One more pass after a run that has not ended. */
  lemma RunMore(setup: Setup, a: Bits, tau: int, st: State, passes: nat, tau': int, st': State)
    requires Within(a, setup.n) && RunFor(setup, a, tau, st, passes) == Pass(Again(tau'), st')
    ensures RunFor(setup, a, tau, st, passes + 1) == OnePass(setup, a, tau', st')
  {
    RepeatMore(PassFrom(setup, a), tau, st, passes, tau', st');
  }

  /** A pass that leads to another one keeps inv, of its deadline and state, and one that ends the run ensures post. */
  ghost predicate Keeps(p: Pass, inv: (int, State) -> bool, post: (Ending, State) -> bool) {
    if p.ending.Found? then post(p.ending, p.st) else inv(p.ending.tau, p.st)
  }

  lemma {:induction false} RepeatInduct(
    step: (int, State) -> Pass, tau: int, st: State, passes: nat,
    inv: (int, State) -> bool, post: (Ending, State) -> bool)
    requires inv(tau, st) && forall tau, st | inv(tau, st) :: Keeps(step(tau, st), inv, post)
    ensures Keeps(Repeat(step, tau, st, passes), inv, post)
    decreases passes
  {
    if passes > 0 {
      var p := step(tau, st);
      assert Keeps(p, inv, post);
      if p.ending.Again? {
        RepeatInduct(step, p.ending.tau, p.st, passes - 1, inv, post);
      }
    }
  }

  /** What all passes keep and ensure in this way, runs do. */
  lemma RunInduct(
    setup: Setup, a: Bits, tau: int, st: State, passes: nat,
    inv: (int, State) -> bool, post: (Ending, State) -> bool)
    requires Within(a, setup.n) && inv(tau, st)
    requires forall tau, st | inv(tau, st) :: Keeps(OnePass(setup, a, tau, st), inv, post)
    ensures Keeps(RunFor(setup, a, tau, st, passes), inv, post)
  {
    RepeatInduct(PassFrom(setup, a), tau, st, passes, inv, post);
  }

  /**
   Soundness. A run that ends returns the input or a correct assignment that is weaker, and never one that
   merely timed out, in any filter mode and whatever the filter holds.
   */
  lemma RunSound(
    setup: Setup, a: Bits, tau: int, st: State, passes: nat, good: Bits -> bool, valid: Bits -> bool)
    requires Within(a, setup.n) && Truthful(EnvAt(setup, tau), good, valid)
    ensures var e := RunFor(setup, a, tau, st, passes).ending;
            e.Found? ==> e.s.bs <= a && (e.s.bs == a || good(e.s.bs))
  {
    var inv: (int, State) -> bool := (t, s) => true;
    var post: (Ending, State) -> bool := (e: Ending, s: State) => e.Found? ==> e.s.bs <= a && (e.s.bs == a || good(e.s.bs));
    forall tau', st' | inv(tau', st')
      ensures Keeps(OnePass(setup, a, tau', st'), inv, post)
    {
      assert EnvAt(setup, tau').reply == EnvAt(setup, tau).reply;
      PassSound(setup, a, tau', st', good, valid);
    }
    RunInduct(setup, a, tau, st, passes, inv, post);
  }

  lemma PassSound(setup: Setup, a: Bits, tau: int, st: State, good: Bits -> bool, valid: Bits -> bool)
    requires Within(a, setup.n) && Truthful(EnvAt(setup, tau), good, valid)
    ensures var e := OnePass(setup, a, tau, st).ending;
            e.Found? ==> e.s.bs <= a && (e.s.bs == a || good(e.s.bs))
  {
    SearchSteps(setup, a, tau, st);
    SolutionsSound(setup, a, tau, st, good, valid);
    var o := SearchOnce(setup, a, tau, st);
    var sol := Solutions(o, a);
    var e := OnePass(setup, a, tau, st).ending;
    if e.Found? && e.s == sol[e.idx] {
      RecheckPicks(setup, sol, o.st);
      assert EnvAt(setup, tau).reply == setup.reply;
    }
  }

  lemma SolutionsSound(setup: Setup, a: Bits, tau: int, st: State, good: Bits -> bool, valid: Bits -> bool)
    requires Within(a, setup.n) && Truthful(EnvAt(setup, tau), good, valid)
    ensures var sol := Solutions(SearchOnce(setup, a, tau, st), a);
            forall s :: s in sol ==> s.bs <= a && (s.bs == a || (s.status.OK? || tau == 0 ==> good(s.bs)))
  {
    var o := SearchOnce(setup, a, tau, st);
    SearchSteps(setup, a, tau, st);
    forall s | s in o.sol
      ensures s.bs <= a && (s.bs == a || (s.status.OK? || tau == 0 ==> good(s.bs)))
    {
      var k: nat :| CheckedAt(EnvAt(setup, tau), s, o.st.log, k);
    }
  }

  /** The deadline never gets shorter. */
  lemma TauGrows(tau: int, elapsed: nat, alpha: real)
    ensures tau <= AdjustTau(tau, elapsed, alpha)
  {
  }

  /** The mean of the old deadline and the time of the recheck, alpha being the weight of the old deadline. */
  function Mean(tau: int, elapsed: int, alpha: real): real {
    alpha * tau as real + (1.0 - alpha) * elapsed as real
  }

  /**
   Without a weight the time of the recheck is added to the old deadline. With one, a recheck that took no longer
   than the deadline changes nothing, and after any other the new one is the weighted mean, up to the rounding of
   the weight to thousandths and of the result to an integer.
   */
  ghost predicate NextDeadline(tau: nat, elapsed: nat, alpha: real, next: int) {
    && (alpha == 0.0 ==> next == tau + elapsed)
    && (alpha > 0.0 && tau == 0 ==> next == elapsed)
    && (alpha > 0.0 && tau > 0 && elapsed <= tau ==> next == tau)
    && (alpha > 0.0 && tau > 0 && elapsed > tau ==>
          && tau <= next <= elapsed
          && Mean(tau, elapsed, alpha) - 1.0 < next as real
          && next as real <= Mean(tau, elapsed, alpha) + (elapsed - tau) as real / 1000.0)
  }

  lemma DeadlineIsMean(tau: nat, elapsed: nat, alpha: real)
    requires 0.0 <= alpha <= 1.0
    ensures NextDeadline(tau, elapsed, alpha, AdjustTau(tau, elapsed, alpha))
  {
    var a := Truncate(alpha * 1000.0);
    assert 0 <= a <= 1000;
    if alpha > 0.0 && tau > 0 {
      WeightedSum(a, tau, elapsed);
      if elapsed > tau {
        Rounding(alpha, a, tau, elapsed, Quot(a * tau + (1000 - a) * elapsed, 1000));
      }
    }
  }

  /** a*x + (1000 - a)*y thousandths lie between x and y. */
  lemma WeightedSum(a: nat, x: nat, y: nat)
    requires a <= 1000
    ensures a * x + (1000 - a) * y == 1000 * y - a * (y - x) >= 0
    ensures y <= x ==> Quot(a * x + (1000 - a) * y, 1000) <= x
    ensures x <= y ==> x <= Quot(a * x + (1000 - a) * y, 1000) <= y
  {
    if x <= y {
      Scaled(a, y - x, y - x, 1000);
    } else {
      Scaled(a, x - y, x - y, 1000);
    }
  }

  lemma Scaled(c: nat, x: nat, y: nat, d: nat)
    requires x <= y && c <= d
    ensures 0 <= c * x <= d * y
  {
    assert c * x <= c * y <= d * y;
  }

  /** What rounding alpha to a thousandths, and the quotient to an integer, can change. */
  lemma Rounding(alpha: real, a: nat, x: nat, y: nat, q: int)
    requires a as real <= alpha * 1000.0 < a as real + 1.0 && x < y
    requires 1000 * q <= 1000 * y - a * (y - x) < 1000 * q + 1000
    ensures Mean(x, y, alpha) - 1.0 < q as real
    ensures q as real <= Mean(x, y, alpha) + (y - x) as real / 1000.0
  {
    MeanBelow(x, y, alpha);
    Bracket(alpha, a, y - x);
    Thousandths(q, y, a * (y - x), alpha * (y - x) as real, (y - x) as real);
  }

  lemma Bracket(alpha: real, a: nat, d: nat)
    requires a as real <= alpha * 1000.0 < a as real + 1.0 && d > 0
    ensures (a * d) as real <= 1000.0 * (alpha * d as real) <= (a * d) as real + d as real
  {
    RealProduct(a, d);
    Bracketed(alpha, a as real, d as real, (a * d) as real, alpha * d as real);
  }

  lemma RealProduct(a: nat, b: nat)
    ensures (a * b) as real == a as real * b as real
  {
  }

  lemma MeanBelow(x: nat, y: nat, alpha: real)
    ensures Mean(x, y, alpha) == y as real - alpha * (y - x) as real
  {
  }

  lemma Thousandths(q: int, y: int, total: int, m: real, d: real)
    requires total as real <= 1000.0 * m <= total as real + d && 1000 * q <= 1000 * y - total < 1000 * q + 1000
    ensures y as real - m - 1.0 < q as real <= y as real - m + d / 1000.0
  {
  }

  lemma Bracketed(alpha: real, a: real, d: real, p: real, m: real)
    requires a <= alpha * 1000.0 < a + 1.0 && d > 0.0 && p == a * d && m == alpha * d
    ensures p <= 1000.0 * m <= p + d
  {
    var w := alpha * 1000.0;
    Times(w - a, d);
    Times(a + 1.0 - w, d);
    assert w * d == 1000.0 * m;
    assert (w - a) * d == w * d - p;
    assert (a + 1.0 - w) * d == p + d - w * d;
  }

  lemma Times(u: real, d: real)
    requires u >= 0.0 && d > 0.0
    ensures u * d >= 0.0
  {
  }

  /** A larger weight of the old deadline never gives a later one. */
  lemma WeightShortens(tau: nat, elapsed: nat, alpha: real, alpha': real)
    requires 0.0 < alpha <= alpha' <= 1.0 && tau <= elapsed
    ensures AdjustTau(tau, elapsed, alpha') <= AdjustTau(tau, elapsed, alpha)
  {
    var a, a' := Truncate(alpha * 1000.0), Truncate(alpha' * 1000.0);
    assert 0 <= a <= a' <= 1000;
    WeightedSum(a, tau, elapsed);
    WeightedSum(a', tau, elapsed);
    Scaled(a, elapsed - tau, elapsed - tau, a');
  }

  /** A pass that leads to another one made a recheck last, and sets the deadline by the time that took. */
  lemma PassDeadline(setup: Setup, a: Bits, tau: int, st: State)
    requires Within(a, setup.n) && OnePass(setup, a, tau, st).ending.Again?
    ensures var p := OnePass(setup, a, tau, st);
            |p.st.log| > |st.log| && p.ending.tau == AdjustTau(tau, setup.elapsed(|p.st.log| - 1), setup.alpha)
  {
    var o := SearchOnce(setup, a, tau, st);
    SearchSteps(setup, a, tau, st);
    RecheckPicks(setup, Solutions(o, a), o.st);
  }

  /** How long the last check made so far took. */
  ghost function LastCheck(elapsed: nat -> nat, st: State): nat {
    if st.log == [] then 0 else elapsed(|st.log| - 1)
  }

  /** The time of the last checks of all steps that led to another one. */
  ghost function TimeSpent(step: (int, State) -> Pass, elapsed: nat -> nat, tau: int, st: State, passes: nat): nat
    decreases passes
  {
    if passes == 0 || step(tau, st).ending.Found? then 0
    else
      var p := step(tau, st);
      LastCheck(elapsed, p.st) + TimeSpent(step, elapsed, p.ending.tau, p.st, passes - 1)
  }

  lemma {:induction false} RepeatAddsUp(
    step: (int, State) -> Pass, elapsed: nat -> nat, tau: int, st: State, passes: nat)
    requires forall tau, st ::
               var p := step(tau, st); p.ending.Again? ==> p.ending.tau == tau + LastCheck(elapsed, p.st)
    ensures var e := Repeat(step, tau, st, passes).ending;
            e.Again? ==> e.tau == tau + TimeSpent(step, elapsed, tau, st, passes)
    decreases passes
  {
    if passes > 0 {
      var p := step(tau, st);
      if p.ending.Again? {
        RepeatAddsUp(step, elapsed, p.ending.tau, p.st, passes - 1);
      }
    }
  }

  /** The time that all failed rechecks of a run took. */
  ghost function Spent(setup: Setup, a: Bits, tau: int, st: State, passes: nat): nat
    requires Within(a, setup.n)
  {
    TimeSpent(PassFrom(setup, a), setup.elapsed, tau, st, passes)
  }

  /** Without a weight, the deadline after some passes is the first one plus the time of all failed rechecks. */
  lemma DeadlineAddsUp(setup: Setup, a: Bits, tau: int, st: State, passes: nat)
    requires Within(a, setup.n) && setup.alpha == 0.0
    ensures var e := RunFor(setup, a, tau, st, passes).ending;
            e.Again? ==> e.tau == tau + Spent(setup, a, tau, st, passes)
  {
    var step := PassFrom(setup, a);
    forall tau', st'
      ensures var p := step(tau', st'); p.ending.Again? ==> p.ending.tau == tau' + LastCheck(setup.elapsed, p.st)
    {
      if OnePass(setup, a, tau', st').ending.Again? {
        PassDeadline(setup, a, tau', st');
      }
    }
    RepeatAddsUp(step, setup.elapsed, tau, st, passes);
  }

  /**
   As solutions are OK or timed out, a failed recheck leads either to the second solution, if that is OK,
   or to another search, if it timed out. No later solution is ever returned.
   */
  lemma FallbackIsSecond(setup: Setup, sol: seq<Entry>, st: State)
    requires |sol| > 1 && sol[|sol| - 1].status.OK? && forall s :: s in sol ==> Accepted(s.status)
    ensures var r := Recheck(setup, sol, st);
            && -1 <= r.idx <= 1
            && (r.idx == 1 ==> sol[1].status.OK?)
            && (r.idx == -1 ==> sol[1].status.Timeout?)
  {
    var r := Recheck(setup, sol, st);
    RecheckPicks(setup, sol, st);
    if r.idx != 0 {
      var firstOK := PickNext(sol, OK);
      assert sol[|sol| - 1] in sol && sol[1] in sol;
      if sol[1].status.Timeout? {
        assert firstOK > 1 && sol[1..firstOK][0] == sol[1];
        assert PickNext(sol[1..firstOK], Timeout) == 0;
      } else {
        assert firstOK == 1 && sol[1..1] == [];
      }
    }
  }

  // ----- minimality -----

  /** The search makes assignments of the operations of these kinds, with a fair checker under deadline tau. */
  ghost predicate Suits(setup: Setup, kinds: seq<AtomicOp>, a: Bits, tau: int, good: Bits -> bool) {
    setup.n == 2 * |kinds| && Within(a, setup.n) && ValidFor(kinds, a) && Fair(EnvAt(setup, tau), kinds, good)
  }

  lemma SuitsLater(setup: Setup, kinds: seq<AtomicOp>, a: Bits, tau: int, tau': int, good: Bits -> bool)
    requires Suits(setup, kinds, a, tau, good)
    ensures Suits(setup, kinds, a, tau', good)
  {
    assert EnvAt(setup, tau).reply == EnvAt(setup, tau').reply;
  }

  /**
   Linear relaxation under speculation. With failure downward closed among valid assignments, every pass
   keeps the filter sound, and when a run ends with the first solution of its list, no strictly weaker
   assignment is correct, and acquire strength was given up only where release strength could not be.
   */
  lemma RunMinimal(
    setup: Setup, kinds: seq<AtomicOp>, a: Bits, tau: int, st: State, passes: nat, good: Bits -> bool)
    requires setup.strategy.LR? && Suits(setup, kinds, a, tau, good) && SoundFilter(st.filter, good)
    ensures var p := RunFor(setup, a, tau, st, passes);
            && SoundFilter(p.st.filter, good)
            && (p.ending.Found? && p.ending.idx == 0 ==>
                  Minimal(p.ending.s.bs, good) && InvalidPairs.AcquireFirst(a, p.ending.s.bs, good))
  {
    var inv: (int, State) -> bool := (t: int, s: State) => SoundFilter(s.filter, good);
    var post: (Ending, State) -> bool := (e: Ending, s: State) =>
      SoundFilter(s.filter, good)
      && (e.Found? && e.idx == 0 ==> Minimal(e.s.bs, good) && InvalidPairs.AcquireFirst(a, e.s.bs, good));
    forall tau', st' | inv(tau', st')
      ensures Keeps(OnePass(setup, a, tau', st'), inv, post)
    {
      SuitsLater(setup, kinds, a, tau, tau', good);
      PassMinimal(setup, kinds, a, tau', st', good);
    }
    RunInduct(setup, a, tau, st, passes, inv, post);
  }

  lemma PassMinimal(setup: Setup, kinds: seq<AtomicOp>, a: Bits, tau: int, st: State, good: Bits -> bool)
    requires setup.strategy.LR? && Suits(setup, kinds, a, tau, good) && SoundFilter(st.filter, good)
    ensures var p := OnePass(setup, a, tau, st);
            && SoundFilter(p.st.filter, good)
            && (p.ending.Found? && p.ending.idx == 0 ==>
                  Minimal(p.ending.s.bs, good) && InvalidPairs.AcquireFirst(a, p.ending.s.bs, good))
  {
    InvalidPairs.RelaxMinimal(EnvAt(setup, tau), kinds, a, st, good);
    InvalidPairs.RelaxAcquireFirst(EnvAt(setup, tau), kinds, a, st, good);
    PassKeepsInnocent(setup, kinds, a, tau, st, good, Rlx);
    PassFirst(setup, a, tau, st);
  }

  /**
   Delta debugging under speculation: a run that ends with its first solution is minimal if and only if
   there was nothing to relax, or the fully relaxed assignment is not correct.
   */
  lemma RunMinimalDdmin(
    setup: Setup, kinds: seq<AtomicOp>, a: Bits, tau: int, st: State, passes: nat, good: Bits -> bool)
    requires setup.strategy.DDmin? && Suits(setup, kinds, a, tau, good)
    requires Innocent(st.filter, good, setup.mode) && (setup.mode.Rlx? ==> Sheltered(kinds, a))
    ensures var e := RunFor(setup, a, tau, st, passes).ending;
            e.Found? && e.idx == 0 ==> (Minimal(e.s.bs, good) <==> a == {} || !good({}))
  {
    if setup.mode.Rlx? && good({}) {
      RunNotStronger(setup, a, tau, st, passes);
      if a != {} {
        RunKeepsSome(setup, a, tau, st, passes);
      }
    } else {
      RunInnocent(setup, kinds, a, tau, st, passes, good);
    }
  }

  lemma RunInnocent(
    setup: Setup, kinds: seq<AtomicOp>, a: Bits, tau: int, st: State, passes: nat, good: Bits -> bool)
    requires setup.strategy.DDmin? && Suits(setup, kinds, a, tau, good) && Innocent(st.filter, good, setup.mode)
    requires setup.mode.Rlx? ==> Sheltered(kinds, a) && !good({})
    ensures var e := RunFor(setup, a, tau, st, passes).ending;
            e.Found? && e.idx == 0 ==> (Minimal(e.s.bs, good) <==> a == {} || !good({}))
  {
    var inv: (int, State) -> bool := (t: int, s: State) => Innocent(s.filter, good, setup.mode);
    var post: (Ending, State) -> bool := (e: Ending, s: State) =>
      e.Found? && e.idx == 0 ==> (Minimal(e.s.bs, good) <==> a == {} || !good({}));
    forall tau', st' | inv(tau', st')
      ensures Keeps(OnePass(setup, a, tau', st'), inv, post)
    {
      SuitsLater(setup, kinds, a, tau, tau', good);
      PassInnocent(setup, kinds, a, tau', st', good);
    }
    RunInduct(setup, a, tau, st, passes, inv, post);
  }

  lemma PassInnocent(setup: Setup, kinds: seq<AtomicOp>, a: Bits, tau: int, st: State, good: Bits -> bool)
    requires setup.strategy.DDmin? && Suits(setup, kinds, a, tau, good) && Innocent(st.filter, good, setup.mode)
    requires setup.mode.Rlx? ==> Sheltered(kinds, a) && !good({})
    ensures var p := OnePass(setup, a, tau, st);
            && Innocent(p.st.filter, good, setup.mode)
            && (p.ending.Found? && p.ending.idx == 0 ==> (Minimal(p.ending.s.bs, good) <==> a == {} || !good({})))
  {
    DdminMinimal(EnvAt(setup, tau), kinds, a, st, good);
    PassKeepsInnocent(setup, kinds, a, tau, st, good, setup.mode);
    PassFirst(setup, a, tau, st);
  }

  /** Whatever the checker, the result is no stronger than the input. */
  lemma RunNotStronger(setup: Setup, a: Bits, tau: int, st: State, passes: nat)
    requires Within(a, setup.n)
    ensures var e := RunFor(setup, a, tau, st, passes).ending; e.Found? ==> e.s.bs <= a
  {
    var inv: (int, State) -> bool := (t, s) => true;
    var post: (Ending, State) -> bool := (e: Ending, s: State) => e.Found? ==> e.s.bs <= a;
    forall tau', st' | inv(tau', st')
      ensures Keeps(OnePass(setup, a, tau', st'), inv, post)
    {
      PassNotStronger(setup, a, tau', st');
    }
    RunInduct(setup, a, tau, st, passes, inv, post);
  }

  lemma PassNotStronger(setup: Setup, a: Bits, tau: int, st: State)
    requires Within(a, setup.n)
    ensures var e := OnePass(setup, a, tau, st).ending; e.Found? ==> e.s.bs <= a
  {
    var o := SearchOnce(setup, a, tau, st);
    SearchSteps(setup, a, tau, st);
    RecheckPicks(setup, Solutions(o, a), o.st);
  }

  /** The first solution of a pass is the search's, and with nothing to relax there is no other pass. */
  lemma PassFirst(setup: Setup, a: Bits, tau: int, st: State)
    requires Within(a, setup.n)
    ensures var o, p := SearchOnce(setup, a, tau, st), OnePass(setup, a, tau, st);
            && (p.ending.Found? && p.ending.idx == 0 ==> p.ending.s.bs == Final(o.sol, a) && p.st.filter == o.st.filter)
            && (a == {} ==> p.ending.Found?)
  {
    var o := SearchOnce(setup, a, tau, st);
    SearchSteps(setup, a, tau, st);
    RecheckPicks(setup, Solutions(o, a), o.st);
    assert o.sol != [] ==> o.sol[0].bs < a;
  }

  /** Delta debugging never returns the fully relaxed assignment, unless it started from it. */
  lemma RunKeepsSome(setup: Setup, a: Bits, tau: int, st: State, passes: nat)
    requires setup.strategy.DDmin? && Within(a, setup.n) && a != {}
    ensures var e := RunFor(setup, a, tau, st, passes).ending; e.Found? ==> e.s.bs != {}
  {
    var inv: (int, State) -> bool := (t, s) => true;
    var post: (Ending, State) -> bool := (e: Ending, s: State) => e.Found? ==> e.s.bs != {};
    forall tau', st' | inv(tau', st')
      ensures Keeps(OnePass(setup, a, tau', st'), inv, post)
    {
      PassKeepsSome(setup, a, tau', st');
    }
    RunInduct(setup, a, tau, st, passes, inv, post);
  }

  lemma PassKeepsSome(setup: Setup, a: Bits, tau: int, st: State)
    requires setup.strategy.DDmin? && Within(a, setup.n) && a != {}
    ensures var e := OnePass(setup, a, tau, st).ending; e.Found? ==> e.s.bs != {}
  {
    var o := SearchOnce(setup, a, tau, st);
    SearchSteps(setup, a, tau, st);
    RecheckPicks(setup, Solutions(o, a), o.st);
    DdminKeepsSome(EnvAt(setup, tau), setup.n, a, 2, st);
    assert forall k :: 0 < k < |o.sol| ==> o.sol[0].bs < o.sol[k].bs;
  }

  /** A pass keeps what its search made of the filter innocent, under any mode of consulting it. */
  lemma PassKeepsInnocent(
    setup: Setup, kinds: seq<AtomicOp>, a: Bits, tau: int, st: State, good: Bits -> bool, mode: Mode)
    requires Suits(setup, kinds, a, tau, good)
    requires Innocent(SearchOnce(setup, a, tau, st).st.filter, good, mode)
    ensures Innocent(OnePass(setup, a, tau, st).st.filter, good, mode)
  {
    var o, filter := SearchOnce(setup, a, tau, st), OnePass(setup, a, tau, st).st.filter;
    PassFilter(setup, a, tau, st);
    if filter != o.st.filter {
      var x := o.sol[0].bs;
      var k: nat :| CheckedAt(EnvAt(setup, tau), o.sol[0], o.st.log, k);
      RecheckFails(EnvAt(setup, tau), kinds, x, k, |o.st.log|, good);
      InsertInnocent(o.st.filter, x, good, mode);
    }
  }

  /** A pass inserts nothing after its search, except a first solution that timed out and failed its recheck. */
  lemma PassFilter(setup: Setup, a: Bits, tau: int, st: State)
    requires Within(a, setup.n)
    ensures var o, p := SearchOnce(setup, a, tau, st), OnePass(setup, a, tau, st);
            p.st.filter != o.st.filter ==>
              && o.sol != [] && p.st.filter == o.st.filter + {o.sol[0].bs}
              && o.sol[0].status.Timeout? && !setup.reply(|o.st.log|, o.sol[0].bs, 0).OK?
              && exists k: nat :: CheckedAt(EnvAt(setup, tau), o.sol[0], o.st.log, k)
  {
    var o := SearchOnce(setup, a, tau, st);
    SearchSteps(setup, a, tau, st);
    RecheckPicks(setup, Solutions(o, a), o.st);
    if o.sol != [] {
      assert o.sol[0] in o.sol;
    }
  }

  /** An assignment that timed out and then failed is a real failure of one the module can take. */
  lemma RecheckFails(env: Env, kinds: seq<AtomicOp>, x: Bits, k: nat, later: nat, good: Bits -> bool)
    requires Fair(env, kinds, good) && env.reply(k, x, env.tau).Timeout? && !env.reply(later, x, 0).OK?
    ensures ValidFor(kinds, x) && forall y :: y <= x ==> !good(y)
  {
    assert Accepted(env.reply(later, x, 0)) || Failing(env.reply(later, x, 0));
    assert InvalidPairs.ValidityOf(kinds)(x) && !good(x);
    forall y | y <= x && InvalidPairs.ValidityOf(kinds)(y)
      ensures !good(y)
    {
    }
  }

  // ----- termination -----

  /** The filter entries that concern a run started from a. */
  ghost function Entries(filter: set<Bits>, a: Bits): set<Bits> {
    set e | e in filter && e <= a
  }

  /**
   Termination with a duplicate or relaxed filter: every retry inserts a subset of the input that the
   filter did not hold, and there are only 2^|a| of them.
   */
  lemma {:induction false} RunTerminates(setup: Setup, a: Bits, tau: int, st: State, passes: nat)
    requires Within(a, setup.n) && setup.mode != Off
    requires passes + |Entries(st.filter, a)| > Words.Pow2(|a|)
    ensures RunFor(setup, a, tau, st, passes).ending.Found?
    decreases passes
  {
    Powerset.FamilySize(Entries(st.filter, a), a);
    RunStep(setup, a, tau, st, passes);
    var p := OnePass(setup, a, tau, st);
    if p.ending.Again? {
      RetryInserts(setup, a, tau, st);
      RunTerminates(setup, a, p.ending.tau, p.st, passes - 1);
    }
  }

  /** Each retry leaves fewer subsets of the input that are not yet in the filter. */
  lemma RetryShrinks(setup: Setup, a: Bits, tau: int, st: State)
    requires Within(a, setup.n) && setup.mode != Off && OnePass(setup, a, tau, st).ending.Again?
    ensures 0 <= Left(OnePass(setup, a, tau, st).st, a) < Left(st, a)
  {
    RetryInserts(setup, a, tau, st);
    Powerset.FamilySize(Entries(OnePass(setup, a, tau, st).st.filter, a), a);
  }

  ghost function Left(st: State, a: Bits): int {
    Words.Pow2(|a|) - |Entries(st.filter, a)|
  }

  lemma RetryInserts(setup: Setup, a: Bits, tau: int, st: State)
    requires Within(a, setup.n) && setup.mode != Off && OnePass(setup, a, tau, st).ending.Again?
    ensures |Entries(OnePass(setup, a, tau, st).st.filter, a)| > |Entries(st.filter, a)|
  {
    var o := SearchOnce(setup, a, tau, st);
    SearchSteps(setup, a, tau, st);
    var sol := Solutions(o, a);
    RecheckPicks(setup, sol, o.st);
    var x := sol[0].bs;
    var before, after := Entries(st.filter, a), Entries(OnePass(setup, a, tau, st).st.filter, a);
    assert before + {x} <= after && x !in before;
    assert |before + {x}| == |before| + 1;
    assert |after - (before + {x})| == |after| - |before + {x}|;
  }

  /** Every pass makes at most quadratically many checks. */
  lemma RunCost(setup: Setup, a: Bits, tau: int, st: State, passes: nat)
    requires Within(a, setup.n)
    ensures |RunFor(setup, a, tau, st, passes).st.log| - |st.log| <= passes * (|a| * |a| + 5 * |a| + 1)
  {
    var step, cost := PassFrom(setup, a), |a| * |a| + 5 * |a| + 1;
    forall tau', st'
      ensures |step(tau', st').st.log| - |st'.log| <= cost
    {
      PassCost(setup, a, tau', st');
    }
    CostAddsUp(step, tau, st, passes, cost);
  }

  lemma {:induction false} CostAddsUp(step: (int, State) -> Pass, tau: int, st: State, passes: nat, cost: nat)
    requires forall tau, st :: |step(tau, st).st.log| - |st.log| <= cost
    ensures |Repeat(step, tau, st, passes).st.log| - |st.log| <= passes * cost
    decreases passes
  {
    if passes > 0 {
      OneMore(passes, cost);
      var p := step(tau, st);
      if p.ending.Again? {
        CostAddsUp(step, p.ending.tau, p.st, passes - 1, cost);
      }
    }
  }

  lemma OneMore(n: nat, cost: nat)
    requires n > 0
    ensures n * cost == cost + (n - 1) * cost && cost <= n * cost
  {
    assert (n - 1) * cost >= 0;
  }

  lemma PassCost(setup: Setup, a: Bits, tau: int, st: State)
    requires Within(a, setup.n)
    ensures |OnePass(setup, a, tau, st).st.log| - |st.log| <= |a| * |a| + 5 * |a| + 1
  {
    SearchCost(setup, a, tau, st);
    var o := SearchOnce(setup, a, tau, st);
    SearchSteps(setup, a, tau, st);
    RecheckPicks(setup, Solutions(o, a), o.st);
  }

  lemma SearchCost(setup: Setup, a: Bits, tau: int, st: State)
    requires Within(a, setup.n)
    ensures |SearchOnce(setup, a, tau, st).st.log| - |st.log| <= |a| * |a| + 5 * |a|
  {
    if setup.strategy.DDmin? {
      DeltaDebugging.DdminCost(EnvAt(setup, tau), setup.n, a, st);
    } else {
      LinearRelaxation.RelaxCost(EnvAt(setup, tau), setup.n, a, st);
      Scaled(|a|, |a|, |a|, |a|);
    }
  }

  /** Over a whole run with such a filter, rechecks included, no rejected assignment is checked again. */
  lemma RunNeverTwice(setup: Setup, a: Bits, tau: int, st: State, passes: nat)
    requires Within(a, setup.n) && setup.mode != Off && Decided(EnvAt(setup, tau)) && NeverTwice(st)
    ensures NeverTwice(RunFor(setup, a, tau, st, passes).st)
  {
    var inv: (int, State) -> bool := (t: int, s: State) => NeverTwice(s);
    var post: (Ending, State) -> bool := (e: Ending, s: State) => NeverTwice(s);
    forall tau', st' | inv(tau', st')
      ensures Keeps(OnePass(setup, a, tau', st'), inv, post)
    {
      assert EnvAt(setup, tau').reply == EnvAt(setup, tau).reply;
      PassNeverTwice(setup, a, tau', st');
    }
    RunInduct(setup, a, tau, st, passes, inv, post);
  }

  lemma PassNeverTwice(setup: Setup, a: Bits, tau: int, st: State)
    requires Within(a, setup.n) && setup.mode != Off && Decided(EnvAt(setup, tau)) && NeverTwice(st)
    ensures NeverTwice(OnePass(setup, a, tau, st).st)
  {
    SearchNeverTwice(setup, a, tau, st);
    SearchSteps(setup, a, tau, st);
    var o := SearchOnce(setup, a, tau, st);
    RecheckPicks(setup, Solutions(o, a), o.st);
    if o.sol != [] {
      RecheckNeverTwice(o.st, o.sol[0].bs, setup.reply(|o.st.log|, o.sol[0].bs, 0));
    }
  }

  /** The assignment rechecked is new to the filter, and goes into it unless the recheck accepts it. */
  lemma RecheckNeverTwice(st: State, x: Bits, s: Status)
    requires NeverTwice(st) && x !in st.filter
    ensures NeverTwice(State(st.filter + {x}, st.log + [Entry(x, s)]))
    ensures s.OK? ==> NeverTwice(State(st.filter, st.log + [Entry(x, s)]))
  {
  }

  lemma SearchNeverTwice(setup: Setup, a: Bits, tau: int, st: State)
    requires Within(a, setup.n) && setup.mode != Off && Decided(EnvAt(setup, tau)) && NeverTwice(st)
    ensures NeverTwice(SearchOnce(setup, a, tau, st).st)
  {
    if setup.strategy.DDmin? {
      DeltaDebugging.DdminNeverTwice(EnvAt(setup, tau), setup.n, a, 2, st);
    } else {
      LinearRelaxation.FromNeverTwice(EnvAt(setup, tau), setup.n, 0, a, st);
    }
  }
}
