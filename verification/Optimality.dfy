/**
 What the optimizer promises about programs: the module it leaves behind is correct, and every module
 with the same operations and weaker orderings is not.
 */
module Optimality {
  import opened Ordering
  import Bitseqs
  import opened Encoding
  import opened Printing
  import WrapModule
  import opened Search
  import opened InvalidPairs
  import opened Chunking
  import InvalidChunks
  import opened Speculation
  import Fallback
  import Reference
  import Sets
  import opened Driver

  /** The tool times out only under a deadline, and otherwise tells whether the text it is given is correct. */
  ghost predicate Honest(tool: Tool, correct: seq<Line> -> bool) {
    && (forall k, text, tau ::
          var s := tool.verdict(k, text, tau); s.OK? || s.Timeout? || s.NotSafe? || s.NotLive? || s.Invalid?)
    && (forall k, text, tau :: tool.verdict(k, text, tau).OK? ==> correct(text))
    && (forall k, text, tau ::
          var s := tool.verdict(k, text, tau); s.NotSafe? || s.NotLive? || s.Invalid? ==> !correct(text))
    && (forall k, text, tau :: tool.verdict(k, text, tau).Timeout? ==> tau > 0)
  }

  /** The target's module with other orderings, all of them possible, for the selected operations. */
  ghost predicate Variant(t: Target, ops: seq<Operation>) {
    SameFrame(t.base, ops, t.at) && Legal(ops, t.at)
  }

  /** No ordering of a selected operation is stronger in ops than in ops'. */
  ghost predicate NoStronger(ops: seq<Operation>, ops': seq<Operation>, sel: Selection) {
    && |ops| == |ops'|
    && forall p :: 0 <= p < |ops| && ops[p].Matches(sel, true) ==>
         WeakerOrEqual(ops[p].after.ordering, ops'[p].after.ordering)
  }

  /** Making orderings stronger never breaks a correct variant. */
  ghost predicate StrengtheningSafe(t: Target, correct: seq<Line> -> bool) {
    forall ops, ops' | Variant(t, ops) && Variant(t, ops') && NoStronger(ops, ops', t.at) ::
      correct(Printed(ops)) ==> correct(Printed(ops'))
  }

  ghost function GoodOf(t: Target, correct: seq<Line> -> bool): Bits -> bool {
    x => t.Mutated(x).ok && correct(Printed(t.Mutated(x).ops))
  }

  ghost function Kinds(t: Target): seq<AtomicOp> {
    PositionsList(t.base, t.at, true);
    KindsOf(t.base, Positions(t.base, t.at, true))
  }

  // ----- assignments and variants -----

  lemma MutatedIffValid(t: Target, x: Bits)
    requires t.at.OfOrderings()
    ensures t.Mutated(x).ok <==> ValidFor(Kinds(t), x)
    ensures |Kinds(t)| == |Positions(t.base, t.at, true)| && t.Length() == 2 * |Kinds(t)|
    ensures t.Mutated(x).ok ==> HasValues(t.base, t.Mutated(x).ops, t.at, x)
  {
    assert t.at.Granularity() == 2;
    MutateOk(t.base, t.Length(), x, t.at);
  }

  lemma CodeOfPair(op: AtomicOp, v: nat)
    requires !GetOrdering(op, v).Invalid?
    ensures v < 4 && Code(GetOrdering(op, v)) == v
  {
  }

  /** Mutating to a valid assignment gives a variant whose selected orderings are the decoded pairs. */
  lemma MutatedVariant(t: Target, x: Bits)
    requires t.at.OfOrderings() && t.Mutated(x).ok
    ensures Variant(t, t.Mutated(x).ops)
    ensures var ps := Positions(t.base, t.at, true);
            Indexes(ps, t.Mutated(x).ops) && |ps| == |Kinds(t)| && forall k: nat :: k < |ps| ==>
              t.Mutated(x).ops[ps[k]].after.ordering == GetOrdering(Kinds(t)[k], Pair(x, k))
  {
    var ps, ops := Positions(t.base, t.at, true), t.Mutated(x).ops;
    assert t.at.Granularity() == 2;
    MutateKeepsFrame(t.base, t.Length(), x, t.at);
    MutatedIffValid(t, x);
    PositionsList(t.base, t.at, true);
    forall k: nat | k < |ps|
      ensures ops[ps[k]].after.ordering == GetOrdering(Kinds(t)[k], Pair(x, k))
    {
      assert ops[ps[k]] == Assigned(t.base[ps[k]], ItemFor(x, true, k), true);
    }
    forall p | 0 <= p < |ops| && ops[p].Matches(t.at, true)
      ensures !ops[p].after.ordering.Invalid?
           && GetOrdering(ops[p].kind, Code(ops[p].after.ordering)) == ops[p].after.ordering
    {
      assert SameOperation(t.base[p], ops[p], t.at);
      assert p in ps;
      var k: nat :| k < |ps| && ps[k] == p;
      CodeOfPair(Kinds(t)[k], Pair(x, k));
    }
  }

  /** Inclusion of valid assignments is NoStronger of the variants. */
  lemma InclusionNoStronger(t: Target, x: Bits, y: Bits)
    requires t.at.OfOrderings() && t.Mutated(x).ok && t.Mutated(y).ok && y <= x
    ensures NoStronger(t.Mutated(y).ops, t.Mutated(x).ops, t.at)
  {
    MutatedVariant(t, x);
    MutatedVariant(t, y);
    PositionsList(t.base, t.at, true);
    PairsNoStronger(t, t.Mutated(y).ops, t.Mutated(x).ops, Positions(t.base, t.at, true), y, x);
  }

  lemma PairsNoStronger(t: Target, a: seq<Operation>, b: seq<Operation>, ps: seq<nat>, y: Bits, x: Bits)
    requires SameFrame(t.base, a, t.at) && |b| == |a| && Indexes(ps, a) && |ps| == |Kinds(t)| && y <= x
    requires forall p: nat :: p < |t.base| && t.base[p].Matches(t.at, true) ==> p in ps
    requires forall k: nat :: k < |ps| ==>
      && a[ps[k]].after.ordering == GetOrdering(Kinds(t)[k], Pair(y, k))
      && b[ps[k]].after.ordering == GetOrdering(Kinds(t)[k], Pair(x, k))
      && !a[ps[k]].after.ordering.Invalid? && !b[ps[k]].after.ordering.Invalid?
    ensures NoStronger(a, b, t.at)
  {
    forall p: nat | p < |a| && a[p].Matches(t.at, true)
      ensures WeakerOrEqual(a[p].after.ordering, b[p].after.ordering)
    {
      assert SameOperation(t.base[p], a[p], t.at);
      var k: nat :| k < |ps| && ps[k] == p;
      WeakerByPair(Kinds(t)[k], y, x, k);
    }
  }

  lemma WeakerByPair(op: AtomicOp, y: Bits, x: Bits, k: nat)
    requires y <= x && !GetOrdering(op, Pair(y, k)).Invalid? && !GetOrdering(op, Pair(x, k)).Invalid?
    ensures WeakerOrEqual(GetOrdering(op, Pair(y, k)), GetOrdering(op, Pair(x, k)))
  {
  }

  /** Every variant is what mutating to its own encoding gives. */
  lemma VariantIsMutated(t: Target, ops: seq<Operation>)
    requires t.at.OfOrderings() && Variant(t, ops)
    ensures var x := Encode(ops, t.at, true);
            Within(x, t.Length()) && t.Mutated(x) == Mutation(ops, true)
  {
    var x := Encode(ops, t.at, true);
    assert t.at.Granularity() == 2;
    SameFramePositions(t.base, ops, t.at);
    EncodeMutate(ops, t.at);
    MutatedIffValid(t, x);
    MutateOk(ops, t.Length(), x, t.at);
    SameFrameForgets(t.base, ops, t.Length(), x, t.at);
  }

  // ----- from programs to assignments -----

  lemma HonestIsTruthful(cfg: DriverConfig, tool: Tool, t: Target, tau: int, correct: seq<Line> -> bool)
    requires t.at.OfOrderings() && Honest(tool, correct)
    ensures Truthful(EnvAt(SetupOf(cfg, tool, t), tau), GoodOf(t, correct), ValidityOf(Kinds(t)))
  {
    var env, good, valid := EnvAt(SetupOf(cfg, tool, t), tau), GoodOf(t, correct), ValidityOf(Kinds(t));
    forall x: Bits
      ensures t.Mutated(x).ok <==> valid(x)
    {
      MutatedIffValid(t, x);
    }
    forall k: nat, x: Bits, d: int
      ensures var s := env.reply(k, x, d);
              && (Accepted(s) || Failing(s))
              && (s.OK? ==> good(x))
              && (Failing(s) ==> !good(x))
              && (s.Timeout? ==> d > 0 && valid(x))
    {
      var s := ReplyOf(tool, t)(k, x, d);
      var text := Printed(t.Mutated(x).ops);
      assert env.reply(k, x, d) == s;
      assert t.Mutated(x).ok ==> s == tool.verdict(k, text, d);
    }
  }

  lemma SafeIsDownClosed(t: Target, correct: seq<Line> -> bool)
    requires t.at.OfOrderings() && StrengtheningSafe(t, correct)
    ensures FailureDownClosed(GoodOf(t, correct), ValidityOf(Kinds(t)))
  {
    forall x, y | y <= x && ValidityOf(Kinds(t))(x) && ValidityOf(Kinds(t))(y) && GoodOf(t, correct)(y)
      ensures GoodOf(t, correct)(x)
    {
      MutatedIffValid(t, x);
      MutatedIffValid(t, y);
      MutatedVariant(t, x);
      MutatedVariant(t, y);
      InclusionNoStronger(t, x, y);
    }
  }

  /** What a run is to leave behind: a correct variant that is nowhere stronger than the module it started from. */
  ghost predicate Delivers(t: Target, x: Bits, correct: seq<Line> -> bool) {
    var r := t.Mutated(x);
    r.ok && Variant(t, r.ops) && correct(Printed(r.ops)) && NoStronger(r.ops, t.base, t.at)
  }

  /** What the optimizer needs to know: an honest tool, a start that assignments express, monotone correctness. */
  ghost predicate Sane(tool: Tool, t: Target, correct: seq<Line> -> bool) {
    t.at.OfOrderings() && Honest(tool, correct) && StrengtheningSafe(t, correct) && Variant(t, t.base)
  }

  /** The assignment a run starts from. */
  ghost function Start(t: Target): Bits { Encode(t.base, t.at, true) }

  /** The starting assignment stands for the module as it is, and the empty one for the fully relaxed module. */
  lemma StartStands(t: Target, correct: seq<Line> -> bool)
    requires t.at.OfOrderings() && Variant(t, t.base)
    ensures Within(Start(t), t.Length()) && t.Mutated(Start(t)) == Mutation(t.base, true) && ValidFor(Kinds(t), Start(t))
    ensures GoodOf(t, correct)(Start(t)) <==> correct(Printed(t.base))
    ensures t.Mutated({}).ok && (GoodOf(t, correct)({}) <==> correct(Printed(t.Mutated({}).ops)))
  {
    VariantIsMutated(t, t.base);
    MutatedIffValid(t, Start(t));
    EmptyValid(Kinds(t), Start(t));
    MutatedIffValid(t, {});
  }

  /** Operations that can take any ordering can be fully relaxed. */
  lemma EmptyValid(kinds: seq<AtomicOp>, x: Bits)
    requires ValidFor(kinds, x)
    ensures ValidFor(kinds, {})
  {
    forall k | 0 <= k < |kinds|
      ensures !GetOrdering(kinds[k], Pair({}, k)).Invalid?
    {
      assert !GetOrdering(kinds[k], Pair(x, k)).Invalid?;
    }
  }

  /** Such a program and tool make a fair search of assignments of the selected operations. */
  lemma SaneIsFair(cfg: DriverConfig, tool: Tool, t: Target, correct: seq<Line> -> bool)
    requires Sane(tool, t, correct)
    ensures Suits(SetupOf(cfg, tool, t), Kinds(t), Start(t), cfg.tau, GoodOf(t, correct))
  {
    StartStands(t, correct);
    MutatedIffValid(t, Start(t));
    HonestIsTruthful(cfg, tool, t, cfg.tau, correct);
    SafeIsDownClosed(t, correct);
  }

  /** The result of a run of the model that starts with an empty filter. */
  ghost function EndOf(cfg: DriverConfig, tool: Tool, t: Target, passes: nat): Ending
    requires Within(Start(t), t.Length())
  {
    RunFor(SetupOf(cfg, tool, t), Start(t), cfg.tau, State({}, []), passes).ending
  }

  /** With either strategy, a run that ends delivers, or has found nothing, and nothing if the start is incorrect. */
  lemma RunDelivers(cfg: DriverConfig, tool: Tool, t: Target, passes: nat, correct: seq<Line> -> bool)
    requires Sane(tool, t, correct)
    ensures Within(Start(t), t.Length()) &&
            var e := EndOf(cfg, tool, t, passes);
            e.Found? ==>
              && e.s.bs <= Start(t) && t.Mutated(e.s.bs).ok
              && (correct(Printed(t.base)) ==> Delivers(t, e.s.bs, correct))
              && (!correct(Printed(t.base)) ==> e.s.bs == Start(t))
  {
    SaneIsFair(cfg, tool, t, correct);
    StartStands(t, correct);
    var a, good := Start(t), GoodOf(t, correct);
    RunSound(SetupOf(cfg, tool, t), a, cfg.tau, State({}, []), passes, good, ValidityOf(Kinds(t)));
    var e := EndOf(cfg, tool, t, passes);
    if e.Found? {
      assert e.s.bs == a || good(e.s.bs);
      MutatedIffValid(t, e.s.bs);
      MutatedVariant(t, e.s.bs);
      InclusionNoStronger(t, a, e.s.bs);
      assert ValidityOf(Kinds(t))(e.s.bs) && ValidityOf(Kinds(t))(a);
    }
  }

  /** The tool times out on correct texts only. */
  ghost predicate Patient(tool: Tool, correct: seq<Line> -> bool) {
    forall k, text, tau :: tool.verdict(k, text, tau).Timeout? ==> correct(text)
  }

  /** What makes sure that a run does not fall back to a solution that is not minimal. */
  ghost predicate Steady(cfg: DriverConfig, tool: Tool, t: Target, correct: seq<Line> -> bool) {
    cfg.tau <= 0 || Patient(tool, correct) || |Start(t)| <= 1 || (cfg.strategy.DDmin? && Fallback.OnlyFull(Kinds(t), Start(t)))
  }

  lemma PatientIsCorrect(cfg: DriverConfig, tool: Tool, t: Target, correct: seq<Line> -> bool)
    requires Patient(tool, correct)
    ensures Fallback.TimeoutsCorrect(SetupOf(cfg, tool, t), GoodOf(t, correct))
  {
    var setup, good := SetupOf(cfg, tool, t), GoodOf(t, correct);
    forall k: nat, x: Bits, tau: int | setup.reply(k, x, tau).Timeout?
      ensures good(x)
    {
      var text := Printed(t.Mutated(x).ops);
      assert t.Mutated(x).ok && tool.verdict(k, text, tau).Timeout?;
    }
  }

  /** Linear relaxation delivers an optimal module if it returns its first solution, as steady runs do. */
  lemma RunOptimal(cfg: DriverConfig, tool: Tool, t: Target, passes: nat, correct: seq<Line> -> bool)
    requires cfg.strategy.LR? && Sane(tool, t, correct)
    ensures Within(Start(t), t.Length()) &&
            var e := EndOf(cfg, tool, t, passes);
            e.Found? && (e.idx == 0 || Steady(cfg, tool, t, correct)) ==>
              Optimal(t, t.Mutated(e.s.bs).ops, correct) && AcquireKept(t.base, t.Mutated(e.s.bs).ops, correct)
  {
    var setup, st, good := SetupOf(cfg, tool, t), State({}, []), GoodOf(t, correct);
    SaneIsFair(cfg, tool, t, correct);
    RunDelivers(cfg, tool, t, passes, correct);
    RunMinimal(setup, Kinds(t), Start(t), cfg.tau, st, passes, good);
    var e := EndOf(cfg, tool, t, passes);
    if e.Found? && (e.idx == 0 || Steady(cfg, tool, t, correct)) {
      if e.idx != 0 {
        if |Start(t)| <= 1 {
          Fallback.OneBitMinimal(setup, Kinds(t), Start(t), cfg.tau, st, passes, good);
        } else {
          SteadyIsFirst(cfg, tool, t, passes, correct);
        }
      }
      MinimalIffOptimal(t, e.s.bs, correct);
      assert AcquireFirst(Start(t), e.s.bs, good) by {
        if |Start(t)| <= 1 {
          OneBitNoPair(Start(t));
        }
      }
      AcquireFirstIsKept(t, e.s.bs, correct);
    }
  }

  lemma OneBitNoPair(a: Bits)
    requires |a| <= 1
    ensures forall k: nat :: !(2 * k in a && 2 * k + 1 in a)
  {
    forall k: nat | 2 * k in a && 2 * k + 1 in a
      ensures false
    {
      Sets.SubsetSize({2 * k, 2 * k + 1}, a);
    }
  }

  /** Without a deadline, or with a patient tool, a run that makes a pass returns its first solution. */
  lemma SteadyIsFirst(cfg: DriverConfig, tool: Tool, t: Target, passes: nat, correct: seq<Line> -> bool)
    requires Sane(tool, t, correct) && (cfg.tau <= 0 || Patient(tool, correct))
    ensures Within(Start(t), t.Length()) && var e := EndOf(cfg, tool, t, passes); e.Found? ==> e.idx == 0
  {
    SaneIsFair(cfg, tool, t, correct);
    if Patient(tool, correct) {
      PatientIsCorrect(cfg, tool, t, correct);
    }
    Fallback.FirstPassEnds(
      SetupOf(cfg, tool, t), Kinds(t), Start(t), cfg.tau, State({}, []), passes, GoodOf(t, correct));
  }

  /**
   Delta debugging, under the same conditions: the module is optimal if and only if there was nothing to
   relax or the fully relaxed module is not correct. The relaxed filter asks for a sheltered start.
   */
  lemma RunOptimalDdmin(cfg: DriverConfig, tool: Tool, t: Target, passes: nat, correct: seq<Line> -> bool)
    requires cfg.strategy.DDmin? && Sane(tool, t, correct) && (cfg.mode.Rlx? ==> InvalidChunks.Sheltered(Kinds(t), Start(t)))
    ensures Within(Start(t), t.Length()) &&
            var e := EndOf(cfg, tool, t, passes);
            e.Found? && (e.idx == 0 || Steady(cfg, tool, t, correct)) ==>
              (Optimal(t, t.Mutated(e.s.bs).ops, correct) <==> Start(t) == {} || !correct(Printed(t.Mutated({}).ops)))
  {
    var setup, st, good := SetupOf(cfg, tool, t), State({}, []), GoodOf(t, correct);
    SaneIsFair(cfg, tool, t, correct);
    StartStands(t, correct);
    RunDelivers(cfg, tool, t, passes, correct);
    RunMinimalDdmin(setup, Kinds(t), Start(t), cfg.tau, st, passes, good);
    var e := EndOf(cfg, tool, t, passes);
    if e.Found? && (e.idx == 0 || Steady(cfg, tool, t, correct)) {
      if e.idx != 0 {
        if cfg.tau <= 0 || Patient(tool, correct) {
          SteadyIsFirst(cfg, tool, t, passes, correct);
        } else {
          Fallback.FewChoices(setup, Kinds(t), Start(t), cfg.tau, st, passes, good);
        }
      }
      MinimalIffOptimal(t, e.s.bs, correct);
    }
  }

  /** Among all variants none that is weaker, in whatever respect, is correct. */
  ghost predicate Optimal(t: Target, ops: seq<Operation>, correct: seq<Line> -> bool) {
    forall ops' :: Variant(t, ops') && NoStronger(ops', ops, t.at) && ops' != ops ==> !correct(Printed(ops'))
  }

  /** Minimal among assignments is optimal among modules. */
  lemma MinimalIffOptimal(t: Target, x: Bits, correct: seq<Line> -> bool)
    requires t.at.OfOrderings() && t.Mutated(x).ok && Within(x, t.Length())
    ensures InvalidChunks.Minimal(x, GoodOf(t, correct)) <==> Optimal(t, t.Mutated(x).ops, correct)
  {
    MutatedVariant(t, x);
    ResultFaithful(t, x);
    if InvalidChunks.Minimal(x, GoodOf(t, correct)) {
      MinimalIsOptimal(t, x, correct);
    }
    if Optimal(t, t.Mutated(x).ops, correct) {
      forall y: Bits | y < x
        ensures !GoodOf(t, correct)(y)
      {
        if t.Mutated(y).ok {
          MutatedVariant(t, y);
          ResultFaithful(t, y);
          InclusionNoStronger(t, x, y);
        }
      }
    }
  }

  lemma MinimalIsOptimal(t: Target, x: Bits, correct: seq<Line> -> bool)
    requires t.at.OfOrderings() && t.Mutated(x).ok && Within(x, t.Length()) && InvalidChunks.Minimal(x, GoodOf(t, correct))
    ensures Optimal(t, t.Mutated(x).ops, correct)
  {
    var ops := t.Mutated(x).ops;
    MutatedVariant(t, x);
    ResultFaithful(t, x);
    forall ops' | Variant(t, ops') && NoStronger(ops', ops, t.at) && ops' != ops
      ensures !correct(Printed(ops'))
    {
      var y := Encode(ops', t.at, true);
      VariantIsMutated(t, ops');
      NoStrongerIsInclusion(t, ops', ops);
      assert y != x;
      assert !GoodOf(t, correct)(y);
    }
  }

  // ----- the same for the atomic operations of a module, by their kinds -----

  /** The operation with another ordering, one that it can have and that is no stronger, if it is atomic. */
  predicate RelaxedTo(strong: Operation, weak: Operation) {
    && weak.kind == strong.kind && weak.before == strong.before && weak.after.atomic == strong.after.atomic
    && if strong.kind.Fence? || strong.kind.RMW? || strong.kind.Cmpxchg?
          || ((strong.kind.Load? || strong.kind.Store?) && strong.after.atomic)
       then
         var o := weak.after.ordering;
         && !o.Invalid? && !(strong.kind.Load? && o.Release?) && !(strong.kind.Store? && o.Acquire?)
         && (o == strong.after.ordering || o.Relaxed? || strong.after.ordering.SeqCst?)
       else weak == strong
  }

  ghost predicate Relaxation(weak: seq<Operation>, strong: seq<Operation>) {
    |weak| == |strong| && forall p :: 0 <= p < |weak| ==> RelaxedTo(strong[p], weak[p])
  }

  /** Every relaxation of the module is incorrect. */
  ghost predicate Unimprovable(ops: seq<Operation>, correct: seq<Line> -> bool) {
    forall ops' :: Relaxation(ops', ops) && ops' != ops ==> !correct(Printed(ops'))
  }

  lemma RelaxedToIff(base: Operation, strong: Operation, weak: Operation)
    requires SameOperation(base, strong, SelectionAtomic)
    ensures RelaxedTo(strong, weak) <==>
            && SameOperation(base, weak, SelectionAtomic)
            && (weak.Matches(SelectionAtomic, true) ==>
                  && !weak.after.ordering.Invalid?
                  && GetOrdering(weak.kind, Code(weak.after.ordering)) == weak.after.ordering
                  && WeakerOrEqual(weak.after.ordering, strong.after.ordering))
  {
    MatchesByKind(base, SelectionAtomic, true);
    MatchesByKind(strong, SelectionAtomic, true);
    MatchesByKind(weak, SelectionAtomic, true);
  }

  /** The relaxations of a variant are the variants that are nowhere stronger. */
  lemma RelaxationIff(t: Target, ops: seq<Operation>, ops': seq<Operation>)
    requires t.at.SelectionAtomic? && Variant(t, ops)
    ensures Relaxation(ops', ops) <==> Variant(t, ops') && NoStronger(ops', ops, t.at)
  {
    if |ops'| == |ops| {
      forall p | 0 <= p < |ops|
        ensures RelaxedTo(ops[p], ops'[p]) <==>
                && SameOperation(t.base[p], ops'[p], t.at)
                && (ops'[p].Matches(t.at, true) ==>
                      && !ops'[p].after.ordering.Invalid?
                      && GetOrdering(ops'[p].kind, Code(ops'[p].after.ordering)) == ops'[p].after.ordering
                      && WeakerOrEqual(ops'[p].after.ordering, ops[p].after.ordering))
      {
        RelaxedToIff(t.base[p], ops[p], ops'[p]);
      }
    }
  }

  lemma OptimalByKind(t: Target, ops: seq<Operation>, correct: seq<Line> -> bool)
    requires t.at.SelectionAtomic? && Variant(t, ops)
    ensures Optimal(t, ops, correct) <==> Unimprovable(ops, correct)
  {
    forall ops'
      ensures Relaxation(ops', ops) <==> Variant(t, ops') && NoStronger(ops', ops, t.at)
    {
      RelaxationIff(t, ops, ops');
    }
  }

  lemma NoStrongerIsInclusion(t: Target, ops: seq<Operation>, ops': seq<Operation>)
    requires t.at.OfOrderings() && Variant(t, ops) && Variant(t, ops') && NoStronger(ops, ops', t.at)
    ensures Encode(ops, t.at, true) <= Encode(ops', t.at, true)
  {
    SameFramePositions(t.base, ops, t.at);
    SameFramePositions(t.base, ops', t.at);
    PositionsList(ops, t.at, true);
    InclusionIsStrength(ops, ops', t.at);
    var ps := Positions(ops, t.at, true);
    forall k | 0 <= k < |ps|
      ensures WeakerOrEqual(ops[ps[k]].after.ordering, ops'[ps[k]].after.ordering)
    {
      assert ps[k] in ps;
    }
  }

  // ----- which of several optimal modules -----

  /**
   Where a sequentially consistent operation was given release ordering, to give it acquire ordering instead
   is not correct.
   */
  ghost predicate AcquireKept(base: seq<Operation>, ops: seq<Operation>, correct: seq<Line> -> bool) {
    forall p :: 0 <= p < |ops| && p < |base| && (ops[p].kind.Fence? || ops[p].kind.RMW? || ops[p].kind.Cmpxchg?)
                && base[p].after.ordering.SeqCst? && ops[p].after.ordering.Release? ==>
                !correct(Printed(ops[p := WithAcquire(ops[p])]))
  }

  function WithAcquire(op: Operation): Operation { op.(after := op.after.(ordering := Acquire)) }

  /** Moving the k-th pair from release to acquire gives the module in which just that operation acquires. */
  lemma ExchangedModule(t: Target, x: Bits, k: nat)
    requires t.at.OfOrderings() && t.Mutated(x).ok && k < |Kinds(t)|
    requires Kinds(t)[k].Fence? || Kinds(t)[k].RMW? || Kinds(t)[k].Cmpxchg?
    requires 2 * k in x && 2 * k + 1 !in x
    ensures var y, ps := x - {2 * k} + {2 * k + 1}, Positions(t.base, t.at, true);
            && |ps| == |Kinds(t)| && |t.Mutated(x).ops| == |t.base| && ps[k] < |t.base|
            && t.Mutated(y) == Mutation(t.Mutated(x).ops[ps[k] := WithAcquire(t.Mutated(x).ops[ps[k]])], true)
  {
    var y, ps := x - {2 * k} + {2 * k + 1}, Positions(t.base, t.at, true);
    assert t.at.Granularity() == 2;
    PositionsList(t.base, t.at, true);
    MutatedIffValid(t, x);
    MutatedIffValid(t, y);
    ExchangedPairs(Kinds(t), x, y, k);
    MutateKeepsFrame(t.base, t.Length(), x, t.at);
    MutateKeepsFrame(t.base, t.Length(), y, t.at);
    ExchangedValues(t, t.Mutated(x).ops, t.Mutated(y).ops, x, y, k);
  }

  lemma ExchangedPairs(kinds: seq<AtomicOp>, x: Bits, y: Bits, k: nat)
    requires k < |kinds| && (kinds[k].Fence? || kinds[k].RMW? || kinds[k].Cmpxchg?)
    requires 2 * k in x && 2 * k + 1 !in x && y == x - {2 * k} + {2 * k + 1} && ValidFor(kinds, x)
    ensures Pair(y, k) == 2 && forall j: nat :: j != k ==> Pair(y, j) == Pair(x, j)
    ensures ValidFor(kinds, y)
  {
    forall j | 0 <= j < |kinds|
      ensures !GetOrdering(kinds[j], Pair(y, j)).Invalid?
    {
      assert !GetOrdering(kinds[j], Pair(x, j)).Invalid?;
    }
  }

  lemma ExchangedValues(t: Target, a: seq<Operation>, b: seq<Operation>, x: Bits, y: Bits, k: nat)
    requires t.at.OfOrderings() && SameFrame(t.base, a, t.at) && SameFrame(t.base, b, t.at) && k < |Kinds(t)|
    requires HasValues(t.base, a, t.at, x) && HasValues(t.base, b, t.at, y)
    requires Kinds(t)[k].Fence? || Kinds(t)[k].RMW? || Kinds(t)[k].Cmpxchg?
    requires Pair(y, k) == 2 && forall j: nat :: j != k ==> Pair(y, j) == Pair(x, j)
    ensures var ps := Positions(t.base, t.at, true);
            k < |ps| && ps[k] < |a| && b == a[ps[k] := WithAcquire(a[ps[k]])]
  {
    var ps := Positions(t.base, t.at, true);
    PositionsList(t.base, t.at, true);
    assert |ps| == |Kinds(t)| && ps[k] < |a|;
    forall p: nat | p < |b|
      ensures b[p] == a[ps[k] := WithAcquire(a[ps[k]])][p]
    {
      assert SameOperation(t.base[p], a[p], t.at) && SameOperation(t.base[p], b[p], t.at);
      if p in ps {
        var j: nat :| j < |ps| && ps[j] == p;
        assert a[ps[j]] == Assigned(t.base[p], ItemFor(x, true, j), true);
        assert b[ps[j]] == Assigned(t.base[p], ItemFor(y, true, j), true);
      }
    }
  }

  /** The bits of a selected operation, in the assignment it started from and in the one it was given. */
  lemma BitsBehind(t: Target, x: Bits, p: nat) returns (k: nat)
    requires t.at.OfOrderings() && t.Mutated(x).ok && p < |t.base| == |t.Mutated(x).ops|
    requires t.base[p].after.ordering.SeqCst? && t.Mutated(x).ops[p].after.ordering.Release?
    ensures var ps := Positions(t.base, t.at, true);
            k < |ps| == |Kinds(t)| && ps[k] == p && Kinds(t)[k] == t.Mutated(x).ops[p].kind
    ensures 2 * k in Start(t) && 2 * k + 1 in Start(t) && 2 * k in x && 2 * k + 1 !in x
  {
    var ops, ps := t.Mutated(x).ops, Positions(t.base, t.at, true);
    assert p in ps by {
      MutatedVariant(t, x);
      PositionsList(t.base, t.at, true);
      assert SameOperation(t.base[p], ops[p], t.at);
    }
    k :| k < |ps| && ps[k] == p;
    assert Pair(Start(t), k) == 3 by {
      EncodedPair(t.base, t.at, k);
    }
    assert |ps| == |Kinds(t)| && GetOrdering(Kinds(t)[k], Pair(x, k)).Release? && Kinds(t)[k] == ops[p].kind by {
      MutatedVariant(t, x);
      assert SameOperation(t.base[p], ops[p], t.at);
    }
  }

  lemma AcquireFirstIsKept(t: Target, x: Bits, correct: seq<Line> -> bool)
    requires t.at.OfOrderings() && t.Mutated(x).ok && AcquireFirst(Start(t), x, GoodOf(t, correct))
    ensures AcquireKept(t.base, t.Mutated(x).ops, correct)
  {
    var ops := t.Mutated(x).ops;
    forall p: nat | p < |ops| && p < |t.base| && (ops[p].kind.Fence? || ops[p].kind.RMW? || ops[p].kind.Cmpxchg?)
                    && t.base[p].after.ordering.SeqCst? && ops[p].after.ordering.Release?
      ensures !correct(Printed(ops[p := WithAcquire(ops[p])]))
    {
      MutatedVariant(t, x);
      var k := BitsBehind(t, x, p);
      ExchangedModule(t, x, k);
      assert !GoodOf(t, correct)(x - {2 * k} + {2 * k + 1});
    }
  }

  /** What is true of the module the optimizer leaves behind after the run that ended with e. */
  ghost predicate Achieved(
    cfg: DriverConfig, tool: Tool, t: Target, e: RunEnding, ops: seq<Operation>, correct: seq<Line> -> bool)
    requires e.Finished?
  {
    && Variant(t, ops) && correct(Printed(ops)) && NoStronger(ops, t.base, t.at)
    && (e.idx == 0 || Steady(cfg, tool, t, correct) ==>
          && (cfg.strategy.LR? ==> Optimal(t, ops, correct) && AcquireKept(t.base, ops, correct))
          && (cfg.strategy.DDmin? && (cfg.mode.Rlx? ==> InvalidChunks.Sheltered(Kinds(t), Start(t))) ==>
                (Optimal(t, ops, correct) <==> Start(t) == {} || !correct(Printed(t.Mutated({}).ops)))))
  }

  /** The same of all atomic operations of the module, which the optimize command selects. */
  ghost predicate AchievedForAtomics(
    cfg: DriverConfig, tool: Tool, t: Target, e: RunEnding, ops: seq<Operation>, correct: seq<Line> -> bool)
    requires e.Finished?
  {
    && Relaxation(ops, t.base) && correct(Printed(ops))
    && (cfg.strategy.LR? && (e.idx == 0 || Steady(cfg, tool, t, correct)) ==> Unimprovable(ops, correct))
  }

  lemma AchievedByKind(
    cfg: DriverConfig, tool: Tool, t: Target, e: RunEnding, ops: seq<Operation>, correct: seq<Line> -> bool)
    requires e.Finished? && t.at.SelectionAtomic? && Variant(t, t.base) && Achieved(cfg, tool, t, e, ops, correct)
    ensures AchievedForAtomics(cfg, tool, t, e, ops, correct)
  {
    RelaxationIff(t, t.base, ops);
    OptimalByKind(t, ops, correct);
  }

  /** Whether the result is determined by the module alone, and which texts are correct. */
  ghost predicate Predictable(cfg: DriverConfig, tool: Tool, t: Target, correct: seq<Line> -> bool) {
    && (cfg.tau <= 0 || Patient(tool, correct))
    && (cfg.strategy.DDmin? && cfg.mode.Rlx? ==>
          InvalidChunks.Sheltered(Kinds(t), Start(t)) && !correct(Printed(t.Mutated({}).ops)))
  }

  /** The result is then what the search computes without a filter, a deadline or a log. */
  lemma RunAsExpected(cfg: DriverConfig, tool: Tool, t: Target, passes: nat, correct: seq<Line> -> bool)
    requires Sane(tool, t, correct) && Predictable(cfg, tool, t, correct)
    ensures Within(Start(t), t.Length()) &&
            var e := EndOf(cfg, tool, t, passes);
            e.Found? ==> e.s.bs == Reference.Expected(cfg.strategy, GoodOf(t, correct), t.Length(), Start(t))
  {
    SaneIsFair(cfg, tool, t, correct);
    StartStands(t, correct);
    if Patient(tool, correct) {
      PatientIsCorrect(cfg, tool, t, correct);
    }
    Reference.RunIsExpected(SetupOf(cfg, tool, t), Kinds(t), Start(t), cfg.tau, passes, GoodOf(t, correct));
  }

  /**
   The optimize command: run the driver, check once more if it found nothing, and mutate the module to the
   solution. It reports success exactly for correct modules. With a filter it always ends; without one it makes
   at most `passes` passes. No filter, tool or timing makes a difference to a predictable result.
   */
  method Optimize(cfg: DriverConfig, tool: Tool, m: WrapModule.WrapModule, at: Selection, passes: nat,
                  ghost correct: seq<Line> -> bool) returns (e: RunEnding, ok: bool)
    requires m.Valid() && at.OfOrderings()
    modifies m.order
    ensures var t := Target(old(m.Ops()), at);
            Sane(tool, t, correct) && e.Finished? ==>
              && Encode(m.Ops(), at, true) == e.s.bs.Ix()
              && (ok <==> correct(Printed(t.base)))
              && (ok ==> Achieved(cfg, tool, t, e, m.Ops(), correct))
              && (ok && at.SelectionAtomic? ==> AchievedForAtomics(cfg, tool, t, e, m.Ops(), correct))
              && (Predictable(cfg, tool, t, correct) ==>
                    Within(Start(t), t.Length())
                    && e.s.bs.Ix() == Reference.Expected(cfg.strategy, GoodOf(t, correct), t.Length(), Start(t)))
    ensures cfg.mode != Off ==> e.Finished?
  {
    ghost var t := Target(m.Ops(), at);
    var a := m.Bitseq(at, true);
    var d := new Driver(cfg, tool);
    ok := false;
    ghost var made;
    e, made := d.RunWithin(m, at, passes);
    if e.Finished? {
      ok := Conclude(d, m, at, e.s.bs, a, t);
      if Sane(tool, t, correct) {
        ResultAchieved(cfg, tool, t, made, e, correct);
        if Predictable(cfg, tool, t, correct) {
          RunAsExpected(cfg, tool, t, made, correct);
        }
        if ok && at.SelectionAtomic? {
          AchievedByKind(cfg, tool, t, e, m.Ops(), correct);
        }
      }
    }
  }

  /** Mutates the module to the result. A result that is just the input is checked, without a deadline. */
  method Conclude(d: Driver, m: WrapModule.WrapModule, at: Selection, bs: Bitseqs.Bitseq, a: Bitseqs.Bitseq,
                  ghost t: Target) returns (ok: bool)
    requires d.InTarget(m, at, t) && bs.Valid() && bs.bits == t.Length() && a.Valid() && a.bits == bs.bits
    modifies m.order
    ensures var r := t.Mutated(bs.Ix());
            r.ok ==> m.Ops() == r.ops && (ok <==> bs.Ix() != a.Ix() || d.tool.verdict(d.checks, Printed(r.ops), 0).OK?)
  {
    var mutated := d.MutateTo(m, at, bs, t);
    var same := bs.Equals(a);
    ok := true;
    if same {
      var text := m.Print();
      ok := d.tool.verdict(d.checks, text, 0).OK?;
    }
  }

  lemma ResultAchieved(
    cfg: DriverConfig, tool: Tool, t: Target, passes: nat, e: RunEnding, correct: seq<Line> -> bool)
    requires Sane(tool, t, correct) && e.Finished? && Within(Start(t), t.Length())
    requires EndingOf(e) == EndOf(cfg, tool, t, passes)
    ensures var r := t.Mutated(e.s.bs.Ix());
            && r.ok && Encode(r.ops, t.at, true) == e.s.bs.Ix()
            && (e.s.bs.Ix() == Start(t) ==> r.ops == t.base)
            && (e.s.bs.Ix() != Start(t) ==> correct(Printed(t.base)))
            && (correct(Printed(t.base)) ==> Achieved(cfg, tool, t, e, r.ops, correct))
  {
    StartStands(t, correct);
    RunDelivers(cfg, tool, t, passes, correct);
    ResultFaithful(t, e.s.bs.Ix());
    if cfg.strategy.LR? {
      RunOptimal(cfg, tool, t, passes, correct);
    } else if cfg.mode.Rlx? ==> InvalidChunks.Sheltered(Kinds(t), Start(t)) {
      RunOptimalDdmin(cfg, tool, t, passes, correct);
    }
  }

  lemma ResultFaithful(t: Target, x: Bits)
    requires t.at.OfOrderings() && t.Mutated(x).ok && Within(x, t.Length())
    ensures Encode(t.Mutated(x).ops, t.at, true) == x
  {
    assert t.at.Granularity() == 2;
    MutateFaithful(t.base, t.Length(), x, t.at);
  }
}
