/**
 The optimization driver on packed bitsequences, a string-keyed filter and a module that is mutated in
 place. Each method does exactly what the search functions describe on sets of indices, so all their
 theorems are theorems about it.
 */
module Driver {
  import opened Delta
  import opened Bitseqs
  import opened Encoding
  import Printing
  import opened WrapModule
  import FilterSet
  import opened Search
  import opened LinearRelaxation
  import opened Chunking
  import opened DeltaDebugging
  import opened Speculation

  datatype Solution = Solution(bs: Bitseq, status: Status)

  /**
   What a checker answers to the k-th check when given this module text and this deadline, and how long
   the k-th check takes. Both are arbitrary.
   */
  datatype Tool = Tool(verdict: (nat, seq<Printing.Line>, int) -> Status, elapsed: nat -> nat)

  /** How a run ended: with the idx-th solution of its last pass, or out of passes, to go on with tau. */
  datatype RunEnding = Finished(s: Solution, idx: nat) | Unfinished(tau: int)

  ghost function EndingOf(e: RunEnding): Ending {
    match e
    case Finished(s, idx) => Found(Entry(s.bs.Ix(), s.status), idx)
    case Unfinished(tau) => Again(tau)
  }

  datatype DriverConfig = DriverConfig(mode: Mode, strategy: Strategy, alpha: real, tau: int)

  // ----- from concrete values to those of the search functions -----

  ghost function SolutionsOf(sol: seq<Solution>): (r: seq<Entry>)
    ensures |r| == |sol| && forall k :: 0 <= k < |sol| ==> r[k] == Entry(sol[k].bs.Ix(), sol[k].status)
  {
    seq(|sol|, k requires 0 <= k < |sol| => Entry(sol[k].bs.Ix(), sol[k].status))
  }

  ghost function SetsOf(seqs: seq<Bitseq>): (r: seq<Bits>)
    ensures |r| == |seqs| && forall k :: 0 <= k < |seqs| ==> r[k] == seqs[k].Ix()
  {
    seq(|seqs|, k requires 0 <= k < |seqs| => seqs[k].Ix())
  }

  ghost predicate AllOfLength(seqs: seq<Bitseq>, n: nat) {
    forall k :: 0 <= k < |seqs| ==> seqs[k].Valid() && seqs[k].bits == n
  }

  ghost predicate SolutionsOfLength(sol: seq<Solution>, n: nat) {
    forall k :: 0 <= k < |sol| ==> sol[k].bs.Valid() && sol[k].bs.bits == n
  }

  /** What the run is about: a module with the values `base`, and a selection of its operations. */
  datatype Target = Target(base: seq<Operation>, at: Selection) {
    ghost function Length(): nat { 2 * |Positions(base, at, true)| }

    /** The module mutated to x; only orderings are optimized. */
    ghost function Mutated(x: Bits): Mutation {
      if at.OfOrderings() then
        assert at.Granularity() == 2;
        Mutate(base, Length(), x, at)
      else Mutation(base, false)
    }
  }

  /** A check of x is Invalid when the module cannot be mutated to x, and else the tool's answer to its text. */
  ghost function ReplyOf(tool: Tool, t: Target): (nat, Bits, int) -> Status {
    (k: nat, x: Bits, tau: int) =>
      if t.Mutated(x).ok then tool.verdict(k, Printing.Printed(t.Mutated(x).ops), tau) else Status.Invalid
  }

  /** Mutating any module of the target to x does what mutating the original one would. */
  lemma TargetMutation(t: Target, ops: seq<Operation>, x: Bits)
    requires t.at.OfOrderings() && SameFrame(t.base, ops, t.at) && Within(x, t.Length())
    ensures t.Length() / t.at.Granularity() <= |Positions(ops, t.at, true)|
    ensures var r := Mutate(ops, t.Length(), x, t.at);
            && r.ok == t.Mutated(x).ok
            && (r.ok ==> r.ops == t.Mutated(x).ops)
            && SameFrame(t.base, r.ops, t.at)
  {
    assert t.at.Granularity() == 2;
    SameFramePositions(t.base, ops, t.at);
    SameFrameForgets(t.base, ops, t.Length(), x, t.at);
    MutateKeepsFrame(ops, t.Length(), x, t.at);
    SameFrameTrans(t.base, ops, Mutate(ops, t.Length(), x, t.at).ops, t.at);
  }

  ghost function SetupOf(cfg: DriverConfig, tool: Tool, t: Target): Setup {
    Setup(cfg.mode, cfg.strategy, cfg.alpha, t.Length(), ReplyOf(tool, t), tool.elapsed)
  }

  class Driver {
    const cfg: DriverConfig
    const tool: Tool
    const filter: FilterSet.FilterSet

    /** Checks made so far. */
    var checks: nat

    /** What they asked and what they were answered. */
    ghost var log: seq<Entry>

    constructor (cfg: DriverConfig, tool: Tool)
      ensures this.cfg == cfg && this.tool == tool && fresh(filter) && Valid()
      ensures forall n: nat :: StateOf(n) == State({}, [])
    {
      this.cfg := cfg;
      this.tool := tool;
      filter := new FilterSet.FilterSet();
      checks := 0;
      log := [];
    }

    ghost predicate Valid()
      reads this, filter
    {
      filter.Valid() && checks == |log|
    }

    /** The search state, for assignments of n bits. */
    ghost function StateOf(n: nat): State
      reads this, filter
    {
      State(filter.At(n), log)
    }

    /** The module may have been mutated with the selection, but is still the target's module. */
    ghost predicate Ready(m: WrapModule, at: Selection, t: Target)
      reads this, filter, m, m.order
    {
      Valid() && InTarget(m, at, t)
    }

    ghost predicate InTarget(m: WrapModule, at: Selection, t: Target)
      reads m, m.order
    {
      m.Valid() && at == t.at && at.OfOrderings() && SameFrame(t.base, m.Ops(), at)
    }

    ghost function EnvOf(t: Target, tau: int): Env {
      EnvAt(SetupOf(cfg, tool, t), tau)
    }

    /** The check closure: mutate, ask the tool, and remember failures in the filter. */
    method Check(m: WrapModule, at: Selection, bs: Bitseq, tau: int, ghost t: Target) returns (status: Status)
      requires Ready(m, at, t) && bs.Valid() && bs.bits == t.Length()
      modifies this, filter, m.order
      ensures Ready(m, at, t)
      ensures status == Ask(EnvOf(t, tau), bs.Ix(), old(StateOf(t.Length())))
      ensures StateOf(t.Length()) == Checked(EnvOf(t, tau), bs.Ix(), old(StateOf(t.Length())))
      ensures var r := t.Mutated(bs.Ix());
              status == if r.ok then tool.verdict(old(checks), Printing.Printed(r.ops), tau) else Status.Invalid
    {
      status := Verdict(m, at, bs, tau, t);
      FilterUpdate(bs, status);
      checks := checks + 1;
      log := log + [Entry(bs.Ix(), status)];
    }

    /** The next reply about bs; a failed mutation counts as a check answered Invalid. */
    method Verdict(m: WrapModule, at: Selection, bs: Bitseq, tau: int, ghost t: Target) returns (status: Status)
      requires InTarget(m, at, t) && bs.Valid() && bs.bits == t.Length()
      modifies m.order
      ensures InTarget(m, at, t)
      ensures status == ReplyOf(tool, t)(checks, bs.Ix(), tau)
    {
      var ok := MutateTo(m, at, bs, t);
      if !ok {
        return Status.Invalid;
      }
      var text := m.Print();
      status := tool.verdict(checks, text, tau);
    }

    /** Mutating succeeds exactly when the original module can be mutated, and has the same outcome. */
    method MutateTo(m: WrapModule, at: Selection, bs: Bitseq, ghost t: Target) returns (ok: bool)
      requires InTarget(m, at, t) && bs.Valid() && bs.bits == t.Length()
      modifies m.order
      ensures InTarget(m, at, t)
      ensures ok == t.Mutated(bs.Ix()).ok && (ok ==> m.Ops() == t.Mutated(bs.Ix()).ops)
    {
      TargetMutation(t, m.Ops(), bs.Ix());
      ok := m.Mutate(bs, at);
    }

    method FilterUpdate(bs: Bitseq, status: Status)
      requires filter.Valid() && bs.Valid()
      modifies filter
      ensures filter.Valid()
      ensures status.NotSafe? || status.NotLive? || status.Invalid? ==>
                forall n: nat :: filter.At(n) == old(filter.At(n)) + if n == bs.bits then {bs.Ix()} else {}
      ensures status.OK? || status.Timeout? || status.Undefined? || status.Rejected? ==>
                filter.keys == old(filter.keys)
    {
      match status {
        case OK =>
        case Timeout =>
        case NotSafe => filter.Set(bs);
        case NotLive => filter.Set(bs);
        case Invalid => filter.Set(bs);
        case _ =>
      }
    }

    // ----- linear relaxation -----

    /** The first candidate the filter lets through and the check accepts. */
    method TryCandidates(m: WrapModule, at: Selection, seqs: seq<Bitseq>, tau: int, ghost t: Target)
      returns (hit: seq<Solution>)
      requires Ready(m, at, t) && AllOfLength(seqs, t.Length())
      modifies this, filter, m.order
      ensures Ready(m, at, t) && SolutionsOfLength(hit, t.Length())
      ensures Tried(SolutionsOf(hit), StateOf(t.Length()))
           == TryEach(EnvOf(t, tau), SetsOf(seqs), old(StateOf(t.Length())))
    {
      ghost var all := TryEach(EnvOf(t, tau), SetsOf(seqs), StateOf(t.Length()));
      for k := 0 to |seqs|
        invariant Ready(m, at, t)
        invariant TryEach(EnvOf(t, tau), SetsOf(seqs)[k..], StateOf(t.Length())) == all
      {
        var s := seqs[k];
        assert SetsOf(seqs)[k..][0] == s.Ix() && SetsOf(seqs)[k..][1..] == SetsOf(seqs)[k + 1..];
        var skip := filter.Contains(s, cfg.mode);
        if skip {
          continue;
        }
        var status := Check(m, at, s, tau, t);
        if status == OK || status == Timeout {
          return [Solution(s, status)];
        }
      }
      return [];
    }

    /** The weaker bitsequences for the operation at bits i and i + 1. */
    method WeakerSeqs(bs: Bitseq, i: nat) returns (seqs: seq<Bitseq>)
      requires bs.Valid() && i < bs.bits
      ensures AllOfLength(seqs, bs.bits) && SetsOf(seqs) == Candidates(bs.Ix(), i)
      ensures var x := bs.Ix();
              SetsOf(seqs) ==
                if i in x && i + 1 in x then [x - {i, i + 1}, x - {i}, x - {i + 1}]
                else if i in x then [x - {i}] else if i + 1 in x then [x - {i + 1}] else []
    {
      seqs := [];
      var inLow := HasBit(bs, i);
      if inLow {
        var s := bs.Unset([i]);
        seqs := seqs + [s];
      }
      var inHigh := HasBit(bs, i + 1);
      if inHigh {
        var s := bs.Unset([i + 1]);
        seqs := seqs + [s];
      }
      if |seqs| == 2 {
        var s := bs.Unset([i, i + 1]);
        assert Elements([i, i + 1]) == {i, i + 1};
        seqs := [s] + seqs;
      }
      assert Elements([i]) == {i} && Elements([i + 1]) == {i + 1};
    }

    /** Whether bit i is set, by intersecting with the bitsequence of that bit alone. */
    method HasBit(bs: Bitseq, i: nat) returns (r: bool)
      requires bs.Valid()
      ensures r <==> i in bs.Ix()
    {
      var x := NewBitseq(bs.bits);
      var one := x.Set([i]);
      r := bs.Intersect(one);
      assert one.Ix() == {i};
      assert r ==> exists j :: j in bs.Ix() * one.Ix();
      assert i in bs.Ix() ==> i in bs.Ix() * one.Ix();
    }

    /** Greedy relaxation of one operation after the other; solutions come most relaxed first. */
    method Lr(m: WrapModule, at: Selection, bs: Bitseq, tau: int, ghost t: Target) returns (sol: seq<Solution>)
      requires Ready(m, at, t) && bs.Valid() && bs.bits == t.Length()
      modifies this, filter, m.order
      ensures Ready(m, at, t) && SolutionsOfLength(sol, t.Length())
      ensures Outcome(SolutionsOf(sol), StateOf(t.Length()))
           == Relax(EnvOf(t, tau), t.Length(), bs.Ix(), old(StateOf(t.Length())))
      ensures Decided(EnvOf(t, tau)) ==>
                Prefers(Outcome(SolutionsOf(sol), StateOf(t.Length())), bs.Ix(), 0, |Positions(t.base, at, true)|)
    {
      if Decided(EnvOf(t, tau)) {
        RelaxPrefers(EnvOf(t, tau), |Positions(t.base, at, true)|, bs.Ix(), StateOf(t.Length()));
      }
      ghost var o := Relax(EnvOf(t, tau), t.Length(), bs.Ix(), StateOf(t.Length()));
      var found := Walk(m, at, bs, tau, t);
      OntoNothing(o);
      sol := ReverseSolutions(found);
      SolutionsReversed(found);
      assert [] + Reversed(SolutionsOf(found)) == Reversed(SolutionsOf(found));
    }

    // ----- delta debugging -----

    /** The chunks the filter lets through. */
    method FreshDeltas(bits: nat, idxs: seq<seq<nat>>) returns (deltas: seq<Bitseq>)
      requires Valid() && forall k :: 0 <= k < |idxs| ==> Within(Elements(idxs[k]), bits)
      ensures AllOfLength(deltas, bits) && SetsOf(deltas) == Keep(filter.At(bits), AsSets(idxs), cfg.mode)
    {
      deltas := [];
      ghost var cands := AsSets(idxs);
      for k := 0 to |idxs|
        invariant AllOfLength(deltas, bits)
        invariant SetsOf(deltas) == Keep(filter.At(bits), cands[..k], cfg.mode)
      {
        KeepNext(filter.At(bits), cands, k, cfg.mode);
        var delta := BitseqOf(bits, idxs[k]);
        deltas := AddFresh(deltas, delta);
      }
      assert cands[..|idxs|] == cands;
    }

    /** The complements of the chunks the filter lets through. */
    method FreshNablas(bs: Bitseq, idxs: seq<seq<nat>>) returns (nablas: seq<Bitseq>)
      requires Valid() && bs.Valid() && forall k :: 0 <= k < |idxs| ==> Elements(idxs[k]) <= bs.Ix()
      ensures AllOfLength(nablas, bs.bits)
      ensures SetsOf(nablas) == Keep(filter.At(bs.bits), Nablas(bs.Ix(), AsSets(idxs)), cfg.mode)
    {
      nablas := [];
      ghost var cands := Nablas(bs.Ix(), AsSets(idxs));
      for k := 0 to |idxs|
        invariant AllOfLength(nablas, bs.bits)
        invariant SetsOf(nablas) == Keep(filter.At(bs.bits), cands[..k], cfg.mode)
      {
        KeepNext(filter.At(bs.bits), cands, k, cfg.mode);
        var delta := BitseqOf(bs.bits, idxs[k]);
        var nabla := bs.Xor(delta);
        assert nabla.Ix() == bs.Ix() - delta.Ix();
        nablas := AddFresh(nablas, nabla);
      }
      assert cands[..|idxs|] == cands;
    }

    /** Appends a candidate unless the filter contains it. */
    method AddFresh(seqs: seq<Bitseq>, s: Bitseq) returns (r: seq<Bitseq>)
      requires Valid() && s.Valid() && AllOfLength(seqs, s.bits)
      ensures AllOfLength(r, s.bits)
      ensures SetsOf(r) == SetsOf(seqs) + if Search.Contains(filter.At(s.bits), s.Ix(), cfg.mode) then [] else [s.Ix()]
    {
      var skip := filter.Contains(s, cfg.mode);
      r := if skip then seqs else seqs + [s];
    }

    method BitseqOf(bits: nat, i: seq<nat>) returns (r: Bitseq)
      requires Within(Elements(i), bits)
      ensures r.Valid() && r.bits == bits && r.Ix() == Elements(i)
    {
      var zero := NewBitseq(bits);
      assert forall k :: 0 <= k < |i| ==> i[k] in Elements(i);
      GrownWithin(bits, i);
      r := zero.Set(i);
    }

    /** Checks a batch until one is accepted; what is not goes into the filter whatever its status. */
    method TryAll(m: WrapModule, at: Selection, batch: seq<Bitseq>, tau: int, ghost t: Target)
      returns (hit: seq<Solution>)
      requires Ready(m, at, t) && AllOfLength(batch, t.Length())
      modifies this, filter, m.order
      ensures Ready(m, at, t) && SolutionsOfLength(hit, t.Length()) && |hit| <= 1
      ensures Tried(SolutionsOf(hit), StateOf(t.Length()))
           == TryBatch(EnvOf(t, tau), SetsOf(batch), old(StateOf(t.Length())))
    {
      ghost var env, cands := EnvOf(t, tau), SetsOf(batch);
      ghost var all := TryBatch(env, cands, StateOf(t.Length()));
      assert cands[0..] == cands;
      for k := 0 to |batch|
        invariant Ready(m, at, t) && TryBatch(env, cands[k..], StateOf(t.Length())) == all
      {
        hit := TryOne(m, at, batch[k], cands, k, tau, t);
        if hit != [] {
          return;
        }
      }
      assert cands[|batch|..] == [];
      return [];
    }

    /** Checks the k-th candidate of a batch: the end of the batch, or what is left to be done. */
    method TryOne(
      m: WrapModule, at: Selection, sp: Bitseq, ghost cands: seq<Bits>, ghost k: nat, tau: int, ghost t: Target)
      returns (hit: seq<Solution>)
      requires Ready(m, at, t) && sp.Valid() && sp.bits == t.Length() && k < |cands| && cands[k] == sp.Ix()
      modifies this, filter, m.order
      ensures Ready(m, at, t) && |hit| <= 1 && (hit != [] ==> hit[0].bs == sp)
      ensures TryBatch(EnvOf(t, tau), cands[k..], old(StateOf(t.Length())))
           == if hit != [] then Tried(SolutionsOf(hit), StateOf(t.Length()))
              else TryBatch(EnvOf(t, tau), cands[k + 1..], StateOf(t.Length()))
    {
      BatchNext(EnvOf(t, tau), cands, k, StateOf(t.Length()));
      var status := Check(m, at, sp, tau, t);
      if status == OK || status == Timeout {
        return [Solution(sp, status)];
      }
      filter.Set(sp);
      return [];
    }

    /** One granularity: chunks, then complements. */
    method TryRound(m: WrapModule, at: Selection, bs: Bitseq, tau: int, g: nat, ghost t: Target)
      returns (hit: seq<Solution>, next: nat)
      requires Ready(m, at, t) && bs.Valid() && bs.bits == t.Length() && 2 <= g <= |bs.Ix()|
      modifies this, filter, m.order
      ensures Ready(m, at, t) && SolutionsOfLength(hit, t.Length()) && |hit| <= 1
      ensures Round(SolutionsOf(hit), next, StateOf(t.Length()))
           == OneRound(EnvOf(t, tau), t.Length(), bs.Ix(), g, old(StateOf(t.Length())))
    {
      var idxs := ChunksOf(bs, g);
      hit := TryDeltas(m, at, bs, idxs, tau, t);
      if hit != [] {
        return hit, 2;
      }
      hit := TryNablas(m, at, bs, idxs, tau, t);
      next := if hit == [] then g else Max(g - 1, 2);
    }

    /** The 1-bits divided into g parts. */
    method ChunksOf(bs: Bitseq, g: nat) returns (idxs: seq<seq<nat>>)
      requires bs.Valid() && 2 <= g <= |bs.Ix()|
      ensures AsSets(idxs) == Chunks(bs.Ix(), bs.bits, g)
      ensures forall k :: 0 <= k < |idxs| ==> Elements(idxs[k]) <= bs.Ix()
    {
      var sd := bs.Indices();
      idxs := Subslices(sd, g);
      ChunksPartition(bs.Ix(), bs.bits, g);
      assert forall k :: 0 <= k < |idxs| ==> Elements(idxs[k]) == AsSets(idxs)[k] <= bs.Ix();
    }

    method TryDeltas(m: WrapModule, at: Selection, bs: Bitseq, idxs: seq<seq<nat>>, tau: int, ghost t: Target)
      returns (hit: seq<Solution>)
      requires Ready(m, at, t) && bs.Valid() && bs.bits == t.Length()
      requires forall k :: 0 <= k < |idxs| ==> Elements(idxs[k]) <= bs.Ix()
      modifies this, filter, m.order
      ensures Ready(m, at, t) && SolutionsOfLength(hit, t.Length()) && |hit| <= 1
      ensures var st := old(StateOf(t.Length()));
              Tried(SolutionsOf(hit), StateOf(t.Length()))
              == TryBatch(EnvOf(t, tau), Keep(st.filter, AsSets(idxs), cfg.mode), st)
    {
      var deltas := FreshDeltas(bs.bits, idxs);
      hit := TryAll(m, at, deltas, tau, t);
    }

    method TryNablas(m: WrapModule, at: Selection, bs: Bitseq, idxs: seq<seq<nat>>, tau: int, ghost t: Target)
      returns (hit: seq<Solution>)
      requires Ready(m, at, t) && bs.Valid() && bs.bits == t.Length()
      requires forall k :: 0 <= k < |idxs| ==> Elements(idxs[k]) <= bs.Ix()
      modifies this, filter, m.order
      ensures Ready(m, at, t) && SolutionsOfLength(hit, t.Length()) && |hit| <= 1
      ensures var st := old(StateOf(t.Length()));
              Tried(SolutionsOf(hit), StateOf(t.Length()))
              == TryBatch(EnvOf(t, tau), Keep(st.filter, Nablas(bs.Ix(), AsSets(idxs)), cfg.mode), st)
    {
      var nablas := FreshNablas(bs, idxs);
      hit := TryAll(m, at, nablas, tau, t);
    }

    /** Delta debugging from granularity g; solutions come most relaxed first. */
    method Ddmin2(m: WrapModule, at: Selection, bs: Bitseq, tau: int, g: nat, ghost t: Target)
      returns (sol: seq<Solution>)
      requires Ready(m, at, t) && bs.Valid() && bs.bits == t.Length() && g >= 2
      modifies this, filter, m.order
      ensures Ready(m, at, t) && SolutionsOfLength(sol, t.Length())
      ensures Outcome(SolutionsOf(sol), StateOf(t.Length()))
           == Ddmin(EnvOf(t, tau), t.Length(), bs.Ix(), g, old(StateOf(t.Length())))
      decreases |bs.Ix()|, |bs.Ix()| - g
    {
      sol := [];
      var ones := bs.Ones();
      if ones >= g {
        var hit, next := RoundOf(m, at, bs, tau, g, t);
        if hit != [] {
          var rest := Ddmin2(m, at, hit[0].bs, tau, next, t);
          SolutionsConcat(rest, hit);
          sol := rest + hit;
        } else if g < ones {
          sol := Ddmin2(m, at, bs, tau, Min(ones, 2 * g), t);
        }
      }
    }

    /** A round, and how the search goes on after it. */
    method RoundOf(m: WrapModule, at: Selection, bs: Bitseq, tau: int, g: nat, ghost t: Target)
      returns (hit: seq<Solution>, next: nat)
      requires Ready(m, at, t) && bs.Valid() && bs.bits == t.Length() && 2 <= g <= |bs.Ix()|
      modifies this, filter, m.order
      ensures Ready(m, at, t) && SolutionsOfLength(hit, t.Length())
      ensures hit != [] ==> next >= 2 && |hit[0].bs.Ix()| < |bs.Ix()|
      ensures var o := old(Ddmin(EnvOf(t, tau), t.Length(), bs.Ix(), g, StateOf(t.Length())));
              if hit != [] then
                var rest := Ddmin(EnvOf(t, tau), t.Length(), hit[0].bs.Ix(), next, StateOf(t.Length()));
                o == Outcome(rest.sol + SolutionsOf(hit), rest.st)
              else if g < |bs.Ix()| then
                o == Ddmin(EnvOf(t, tau), t.Length(), bs.Ix(), Min(|bs.Ix()|, 2 * g), StateOf(t.Length()))
              else o == Outcome([], StateOf(t.Length()))
    {
      DdminNext(EnvOf(t, tau), t.Length(), bs.Ix(), g, StateOf(t.Length()));
      hit, next := TryRound(m, at, bs, tau, g, t);
    }

    // ----- the outer loop -----

    /** Double checks the most relaxed solution; idx is the solution to return, or -1 to search again. */
    method Recheck(m: WrapModule, at: Selection, sol: seq<Solution>, ghost t: Target)
      returns (idx: int, elapsed: nat)
      requires Ready(m, at, t) && SolutionsOfLength(sol, t.Length())
      requires sol != [] && Accepted(sol[0].status) && sol[|sol| - 1].status.OK?
      requires sol[0].status.Timeout? ==> t.Mutated(sol[0].bs.Ix()).ok
      modifies this, filter, m.order
      ensures Ready(m, at, t) && elapsed == tool.elapsed(old(checks))
      ensures Rechecked(idx, StateOf(t.Length()))
           == Speculation.Recheck(SetupOf(cfg, tool, t), SolutionsOf(sol), old(StateOf(t.Length())))
    {
      elapsed := tool.elapsed(checks);
      var status := Retest(m, at, sol[0], t);
      if status == OK {
        return 0, elapsed;
      }
      filter.Set(sol[0].bs);
      idx := NextStart(sol);
    }

    /** The status of a solution, asked for once more and without a deadline if the check timed out. */
    method Retest(m: WrapModule, at: Selection, s: Solution, ghost t: Target) returns (status: Status)
      requires Ready(m, at, t) && s.bs.Valid() && s.bs.bits == t.Length()
      requires s.status.Timeout? ==> t.Mutated(s.bs.Ix()).ok
      modifies this, m.order
      ensures Ready(m, at, t) && filter.keys == old(filter.keys)
      ensures status == if s.status.Timeout? then ReplyOf(tool, t)(old(checks), s.bs.Ix(), 0) else s.status
      ensures log == old(log) + if s.status.Timeout? then [Entry(s.bs.Ix(), status)] else []
    {
      status := s.status;
      if status == Timeout {
        var ok := MutateTo(m, at, s.bs, t);
        assert ok;
        var text := m.Print();
        status := tool.verdict(checks, text, 0);
        checks := checks + 1;
        log := log + [Entry(s.bs.Ix(), status)];
      }
    }

    /** One pass of the loop in Run. */
    method RunPass(m: WrapModule, at: Selection, a: Bitseq, tau: int, ghost t: Target) returns (e: RunEnding)
      requires Ready(m, at, t) && a.Valid() && a.bits == t.Length()
      modifies this, filter, m.order
      ensures Ready(m, at, t) && (e.Finished? ==> e.s.bs.Valid() && e.s.bs.bits == t.Length())
      ensures Pass(EndingOf(e), StateOf(t.Length()))
           == OnePass(SetupOf(cfg, tool, t), a.Ix(), tau, old(StateOf(t.Length())))
      ensures Prolongs(SetupOf(cfg, tool, t), tau, Pass(EndingOf(e), StateOf(t.Length())))
    {
      DeadlineAfter(SetupOf(cfg, tool, t), a.Ix(), tau, StateOf(t.Length()));
      e := SearchAndRecheck(m, at, a, tau, t);
    }

    /** The body of that loop. */
    method SearchAndRecheck(m: WrapModule, at: Selection, a: Bitseq, tau: int, ghost t: Target) returns (e: RunEnding)
      requires Ready(m, at, t) && a.Valid() && a.bits == t.Length()
      modifies this, filter, m.order
      ensures Ready(m, at, t) && (e.Finished? ==> e.s.bs.Valid() && e.s.bs.bits == t.Length())
      ensures Pass(EndingOf(e), StateOf(t.Length()))
           == OnePass(SetupOf(cfg, tool, t), a.Ix(), tau, old(StateOf(t.Length())))
    {
      var sol := SearchFor(m, at, a, tau, t);
      var same := sol[0].bs.Equals(a);
      if same || tau == 0 {
        return Finished(sol[0], 0);
      }
      RecheckPicks(SetupOf(cfg, tool, t), SolutionsOf(sol), StateOf(t.Length()));
      var idx, elapsed := Recheck(m, at, sol, t);
      if idx >= 0 {
        return Finished(sol[idx], idx);
      }
      return Unfinished(AdjustTau(tau, elapsed, cfg.alpha));
    }

    /** The solutions of the configured strategy, with the input, assumed correct, at the end. */
    method SearchFor(m: WrapModule, at: Selection, a: Bitseq, tau: int, ghost t: Target) returns (sol: seq<Solution>)
      requires Ready(m, at, t) && a.Valid() && a.bits == t.Length()
      modifies this, filter, m.order
      ensures Ready(m, at, t) && SolutionsOfLength(sol, t.Length())
      ensures var o := SearchOnce(SetupOf(cfg, tool, t), a.Ix(), tau, old(StateOf(t.Length())));
              StateOf(t.Length()) == o.st && SolutionsOf(sol) == Solutions(o, a.Ix())
      ensures sol != [] && sol[|sol| - 1].status.OK?
      ensures Accepted(sol[0].status) && (sol[0].status.Timeout? ==> t.Mutated(sol[0].bs.Ix()).ok)
    {
      var found := ByStrategy(m, at, a, tau, t);
      sol := found + [Solution(a, OK)];
      assert SolutionsOf(sol) == SolutionsOf(found) + [Entry(a.Ix(), OK)];
    }

    /** The solutions of the configured strategy. */
    method ByStrategy(m: WrapModule, at: Selection, a: Bitseq, tau: int, ghost t: Target) returns (sol: seq<Solution>)
      requires Ready(m, at, t) && a.Valid() && a.bits == t.Length()
      modifies this, filter, m.order
      ensures Ready(m, at, t) && SolutionsOfLength(sol, t.Length())
      ensures Outcome(SolutionsOf(sol), StateOf(t.Length()))
           == SearchOnce(SetupOf(cfg, tool, t), a.Ix(), tau, old(StateOf(t.Length())))
      ensures sol != [] ==> Accepted(sol[0].status) && t.Mutated(sol[0].bs.Ix()).ok
    {
      AcceptedMutable(cfg, tool, t, a.Ix(), tau, StateOf(t.Length()));
      match cfg.strategy {
        case DDmin => sol := Ddmin2(m, at, a, tau, 2, t);
        case LR => sol := Lr(m, at, a, tau, t);
      }
      assert sol != [] ==> SolutionsOf(sol)[0] in SolutionsOf(sol);
    }

    /** The optimizer, for at most `passes` passes of its loop. */
    method Run(m: WrapModule, at: Selection, passes: nat) returns (e: RunEnding)
      requires Valid() && m.Valid() && at.OfOrderings()
      modifies this, filter, m.order
      ensures Ready(m, at, Target(old(m.Ops()), at))
      ensures e.Finished? ==> e.s.bs.Valid() && e.s.bs.bits == Target(old(m.Ops()), at).Length()
      ensures var t := Target(old(m.Ops()), at);
              var n := t.Length();
              Within(Encode(t.base, at, true), n)
              && Pass(EndingOf(e), StateOf(n))
              == RunFor(SetupOf(cfg, tool, t), Encode(t.base, at, true), cfg.tau, old(StateOf(n)), passes)
      ensures var t := Target(old(m.Ops()), at);
              e.Unfinished? && cfg.alpha == 0.0 ==>
                var a := Encode(t.base, at, true);
                Within(a, t.Length())
                && e.tau == cfg.tau + Spent(SetupOf(cfg, tool, t), a, cfg.tau, old(StateOf(t.Length())), passes)
    {
      ghost var t := Target(m.Ops(), at);
      var a := m.Bitseq(at, true);
      SameFrameRefl(t.base, at);
      if cfg.alpha == 0.0 {
        DeadlineAddsUp(SetupOf(cfg, tool, t), a.Ix(), cfg.tau, StateOf(t.Length()), passes);
      }
      e := RunPasses(m, at, a, passes, t);
    }

    /** With a filter, the loop needs no bound: it ends, with what some number of passes give. */
    method RunToEnd(m: WrapModule, at: Selection) returns (e: RunEnding, ghost passes: nat)
      requires Valid() && m.Valid() && at.OfOrderings() && cfg.mode != Off
      modifies this, filter, m.order
      ensures Ready(m, at, Target(old(m.Ops()), at))
      ensures e.Finished? && e.s.bs.Valid() && e.s.bs.bits == Target(old(m.Ops()), at).Length()
      ensures var t := Target(old(m.Ops()), at);
              var n := t.Length();
              Within(Encode(t.base, at, true), n)
              && Pass(EndingOf(e), StateOf(n))
              == RunFor(SetupOf(cfg, tool, t), Encode(t.base, at, true), cfg.tau, old(StateOf(n)), passes)
    {
      ghost var t := Target(m.Ops(), at);
      ghost var setup, st := SetupOf(cfg, tool, t), StateOf(t.Length());
      var a := m.Bitseq(at, true);
      SameFrameRefl(t.base, at);
      var tau := cfg.tau;
      passes := 0;
      while true
        invariant Ready(m, at, t)
        invariant RunFor(setup, a.Ix(), cfg.tau, st, passes) == Pass(Again(tau), StateOf(t.Length()))
        decreases Left(StateOf(t.Length()), a.Ix())
      {
        RunMore(setup, a.Ix(), cfg.tau, st, passes, tau, StateOf(t.Length()));
        ghost var before := StateOf(t.Length());
        e := RunPass(m, at, a, tau, t);
        passes := passes + 1;
        if e.Finished? {
          return;
        }
        RetryShrinks(setup, a.Ix(), tau, before);
        tau := e.tau;
      }
    }

    /** With a filter to the end, without one for at most `passes` passes; `made` is the number of passes made. */
    method RunWithin(m: WrapModule, at: Selection, passes: nat) returns (e: RunEnding, ghost made: nat)
      requires Valid() && m.Valid() && at.OfOrderings()
      modifies this, filter, m.order
      ensures Ready(m, at, Target(old(m.Ops()), at)) && (cfg.mode != Off ==> e.Finished?)
      ensures e.Finished? ==> e.s.bs.Valid() && e.s.bs.bits == Target(old(m.Ops()), at).Length()
      ensures var t := Target(old(m.Ops()), at);
              var n := t.Length();
              Within(Encode(t.base, at, true), n)
              && Pass(EndingOf(e), StateOf(n))
              == RunFor(SetupOf(cfg, tool, t), Encode(t.base, at, true), cfg.tau, old(StateOf(n)), made)
    {
      made := passes;
      if cfg.mode != Off {
        e, made := RunToEnd(m, at);
      } else {
        e := Run(m, at, passes);
      }
    }

    /** The loop of Run. It always starts again from a, whatever the last pass found. */
    method RunPasses(m: WrapModule, at: Selection, a: Bitseq, passes: nat, ghost t: Target) returns (e: RunEnding)
      requires Ready(m, at, t) && a.Valid() && a.bits == t.Length()
      modifies this, filter, m.order
      ensures Ready(m, at, t) && (e.Finished? ==> e.s.bs.Valid() && e.s.bs.bits == t.Length())
      ensures Pass(EndingOf(e), StateOf(t.Length()))
           == RunFor(SetupOf(cfg, tool, t), a.Ix(), cfg.tau, old(StateOf(t.Length())), passes)
    {
      ghost var setup, st := SetupOf(cfg, tool, t), StateOf(t.Length());
      var tau := cfg.tau;
      RunNone(setup, a.Ix(), tau, st);
      for k := 0 to passes
        invariant Ready(m, at, t)
        invariant RunFor(setup, a.Ix(), cfg.tau, st, k) == Pass(Again(tau), StateOf(t.Length()))
      {
        RunMore(setup, a.Ix(), cfg.tau, st, k, tau, StateOf(t.Length()));
        e := RunPass(m, at, a, tau, t);
        if e.Finished? {
          RunStays(setup, a.Ix(), cfg.tau, st, k + 1, passes);
          return;
        }
        tau := e.tau;
      }
      e := Unfinished(tau);
    }

    // ----- the walk of linear relaxation -----

    /** The outcome of walking on from bit i of cur, given the solutions found so far. */
    ghost function WalkFrom(t: Target, tau: int, i: nat, cur: Bitseq, sol: seq<Solution>): Outcome
      reads this, filter
    {
      Onto(From(EnvOf(t, tau), t.Length(), i, cur.Ix(), StateOf(t.Length())), SolutionsOf(sol))
    }

    /** The loop over the operations; solutions come in the order they are found. */
    method Walk(m: WrapModule, at: Selection, bs: Bitseq, tau: int, ghost t: Target) returns (sol: seq<Solution>)
      requires Ready(m, at, t) && bs.Valid() && bs.bits == t.Length()
      modifies this, filter, m.order
      ensures Ready(m, at, t) && SolutionsOfLength(sol, t.Length())
      ensures WalkFrom(t, tau, t.Length(), bs, sol) == old(WalkFrom(t, tau, 0, bs, []))
    {
      sol := [];
      var cur := bs;
      var i := 0;
      while i < cur.bits
        invariant Ready(m, at, t) && cur.Valid() && cur.bits == t.Length() && SolutionsOfLength(sol, t.Length())
        invariant WalkFrom(t, tau, i, cur, sol) == old(WalkFrom(t, tau, 0, bs, []))
      {
        cur, sol := RelaxOperation(m, at, cur, sol, i, tau, t);
        i := i + 2;
      }
      FromEnd(EnvOf(t, tau), t.Length(), i, cur.Ix(), bs.Ix(), StateOf(t.Length()));
    }

    /** The body of the loop: relax the operation at bits i and i + 1. */
    method RelaxOperation(
      m: WrapModule, at: Selection, cur: Bitseq, sol: seq<Solution>, i: nat, tau: int, ghost t: Target)
      returns (next: Bitseq, more: seq<Solution>)
      requires Ready(m, at, t) && cur.Valid() && i < cur.bits == t.Length() && SolutionsOfLength(sol, t.Length())
      modifies this, filter, m.order
      ensures Ready(m, at, t) && next.Valid() && next.bits == t.Length() && SolutionsOfLength(more, t.Length())
      ensures WalkFrom(t, tau, i + 2, next, more) == old(WalkFrom(t, tau, i, cur, sol))
    {
      var seqs := WeakerSeqs(cur, i);
      FromNext(EnvOf(t, tau), t.Length(), i, cur.Ix(), StateOf(t.Length()), SolutionsOf(sol));
      var hit := TryCandidates(m, at, seqs, tau, t);
      SolutionsConcat(sol, hit);
      next, more := cur, sol;
      if hit != [] {
        next := hit[0].bs;
        more := sol + hit;
      } else {
        assert sol + hit == sol;
      }
    }
  }

  lemma KeepNext(filter: set<Bits>, cands: seq<Bits>, k: nat, mode: Mode)
    requires k < |cands|
    ensures Keep(filter, cands[..k + 1], mode)
         == Keep(filter, cands[..k], mode) + if Search.Contains(filter, cands[k], mode) then [] else [cands[k]]
  {
    assert cands[..k + 1] == cands[..k] + [cands[k]];
    KeepAppend(filter, cands[..k], cands[k], mode);
  }

  lemma {:induction false} KeepAppend(filter: set<Bits>, cands: seq<Bits>, c: Bits, mode: Mode)
    ensures Keep(filter, cands + [c], mode)
         == Keep(filter, cands, mode) + if Search.Contains(filter, c, mode) then [] else [c]
  {
    if cands != [] {
      assert (cands + [c])[1..] == cands[1..] + [c];
      KeepAppend(filter, cands[1..], c, mode);
    }
  }

  /** A solution a search accepted is one the module can be mutated to. */
  lemma AcceptedMutable(cfg: DriverConfig, tool: Tool, t: Target, a: Bits, tau: int, st: State)
    requires Within(a, t.Length())
    ensures var sol := SearchOnce(SetupOf(cfg, tool, t), a, tau, st).sol;
            forall s :: s in sol ==> Accepted(s.status) && t.Mutated(s.bs).ok
  {
    var setup := SetupOf(cfg, tool, t);
    SearchSteps(setup, a, tau, st);
    var o := SearchOnce(setup, a, tau, st);
    forall s | s in o.sol
      ensures Accepted(s.status) && t.Mutated(s.bs).ok
    {
      var k: nat :| CheckedAt(EnvAt(setup, tau), s, o.st.log, k);
    }
  }

  /** A pass that leads to another one has made a check, the recheck, and sets the deadline by how long that took. */
  ghost predicate Prolongs(setup: Setup, tau: int, p: Pass) {
    p.ending.Again? && tau >= 0 && 0.0 <= setup.alpha <= 1.0 ==>
      p.st.log != [] && NextDeadline(tau, setup.elapsed(|p.st.log| - 1), setup.alpha, p.ending.tau)
  }

  lemma DeadlineAfter(setup: Setup, a: Bits, tau: int, st: State)
    requires Within(a, setup.n)
    ensures Prolongs(setup, tau, OnePass(setup, a, tau, st))
  {
    var p := OnePass(setup, a, tau, st);
    if p.ending.Again? && tau >= 0 && 0.0 <= setup.alpha <= 1.0 {
      PassDeadline(setup, a, tau, st);
      DeadlineIsMean(tau, setup.elapsed(|p.st.log| - 1), setup.alpha);
    }
  }

  lemma SameFrameRefl(ops: seq<Operation>, sel: Selection)
    ensures SameFrame(ops, ops, sel)
  {
  }

  /** How delta debugging goes on after a round at x. */
  ghost function GoOn(env: Env, n: nat, x: Bits, g: nat, hit: seq<Entry>, next: nat, st: State): Outcome
    requires Within(x, n) && 2 <= g <= |x|
  {
    if hit != [] then
      if Within(hit[0].bs, n) && next >= 2 then
        var o := Ddmin(env, n, hit[0].bs, next, st);
        Outcome(o.sol + hit, o.st)
      else Outcome([], st)
    else if g < |x| then Ddmin(env, n, x, Min(|x|, 2 * g), st)
    else Outcome([], st)
  }

  lemma DdminNext(env: Env, n: nat, x: Bits, g: nat, st: State)
    requires Within(x, n) && 2 <= g <= |x|
    ensures var r := OneRound(env, n, x, g, st);
            && Ddmin(env, n, x, g, st) == GoOn(env, n, x, g, r.hit, r.g, r.st)
            && (r.hit != [] ==> r.g >= 2 && |r.hit[0].bs| < |x|)
  {
    RoundHit(env, n, x, g, st);
  }

  lemma BatchNext(env: Env, cands: seq<Bits>, k: nat, st: State)
    requires k < |cands|
    ensures var c := cands[k];
            TryBatch(env, cands[k..], st) ==
            if Accepted(Ask(env, c, st)) then Tried([Entry(c, Ask(env, c, st))], Checked(env, c, st))
            else TryBatch(env, cands[k + 1..], Refused(env, c, st))
  {
    assert cands[k..][0] == cands[k] && cands[k..][1..] == cands[k + 1..];
  }

  lemma SolutionsConcat(a: seq<Solution>, b: seq<Solution>)
    ensures SolutionsOf(a + b) == SolutionsOf(a) + SolutionsOf(b)
  {
  }

  /** The first correct solution, or -1 if one before it timed out, so that it is worth searching again. */
  method NextStart(sol: seq<Solution>) returns (idx: int)
    requires sol != [] && sol[0].status != OK && sol[|sol| - 1].status == OK
    ensures var firstOK := PickNext(SolutionsOf(sol), OK);
            1 <= firstOK && idx == if PickNext(SolutionsOf(sol)[1..firstOK], Timeout) == -1 then firstOK else -1
  {
    assert SolutionsOf(sol)[|sol| - 1].status == OK && SolutionsOf(sol)[0].status != OK;
    var firstOK := FirstWith(sol, OK);
    var timedOut := FirstWith(sol[1..firstOK], Timeout);
    assert SolutionsOf(sol[1..firstOK]) == SolutionsOf(sol)[1..firstOK];
    idx := if timedOut == -1 then firstOK else -1;
  }

  /** Index of the first solution with this status, or -1. */
  method FirstWith(sol: seq<Solution>, status: Status) returns (i: int)
    ensures i == PickNext(SolutionsOf(sol), status)
  {
    i := 0;
    var rest := sol;
    while |rest| > 0
      invariant i >= 0 && rest == sol[|sol| - |rest|..] && i == |sol| - |rest|
      invariant forall k :: 0 <= k < i ==> sol[k].status != status
    {
      var s := rest[0];
      rest := rest[1..];
      if s.status == status {
        return;
      }
      i := i + 1;
    }
    i := -1;
  }

  lemma FromEnd(env: Env, n: nat, i: nat, x: Bits, y: Bits, st: State)
    requires i >= n
    ensures From(env, n, i, x, st) == Outcome([], st) == From(env, n, n, y, st)
  {
  }

  lemma OntoNothing(o: Outcome)
    ensures Onto(o, []) == o
  {
    assert o.sol + Reversed([]) == o.sol;
  }

  /** A search continued, on top of the solutions found before it (in the order they were found). */
  ghost function Onto(rest: Outcome, found: seq<Entry>): Outcome {
    Outcome(rest.sol + Reversed(found), rest.st)
  }

  /** One step of the walk, with the solutions found so far kept in reverse. */
  lemma FromNext(env: Env, n: nat, i: nat, x: Bits, st: State, found: seq<Entry>)
    requires i < n
    ensures var tr, o := TryEach(env, Candidates(x, i), st), From(env, n, i, x, st);
            var rest := From(env, n, i + 2, Final(tr.hit, x), tr.st);
            |tr.hit| <= 1 && Onto(o, found) == Onto(rest, found + tr.hit)
  {
    AtMostOneHit(env, Candidates(x, i), st);
    var tr := TryEach(env, Candidates(x, i), st);
    var rest := From(env, n, i + 2, Final(tr.hit, x), tr.st);
    ReversedAppend(found, tr.hit);
    assert (rest.sol + tr.hit) + Reversed(found) == rest.sol + (tr.hit + Reversed(found));
  }

  lemma {:induction false} AtMostOneHit(env: Env, cands: seq<Bits>, st: State)
    ensures |TryEach(env, cands, st).hit| <= 1
  {
    if cands != [] {
      AtMostOneHit(env, cands[1..], st);
      AtMostOneHit(env, cands[1..], Checked(env, cands[0], st));
    }
  }

  lemma ReversedAppend<T>(a: seq<T>, b: seq<T>)
    requires |b| <= 1
    ensures Reversed(a + b) == b + Reversed(a)
  {
  }

  ghost function Reversed<T>(s: seq<T>): (r: seq<T>)
    ensures |r| == |s| && forall k {:trigger r[k]} :: 0 <= k < |s| ==> r[k] == s[|s| - 1 - k]
  {
    seq(|s|, k requires 0 <= k < |s| => s[|s| - 1 - k])
  }

  lemma SolutionsReversed(sol: seq<Solution>)
    ensures SolutionsOf(Reversed(sol)) == Reversed(SolutionsOf(sol))
  {
  }

  /** Swaps the ends and works inward. */
  method ReverseSolutions(sol: seq<Solution>) returns (s: seq<Solution>)
    ensures s == Reversed(sol)
  {
    s := sol;
    var i, j := 0, |s| - 1;
    while i < j
      invariant |s| == |sol| && i + j == |s| - 1 && 0 <= i <= |s|
      invariant forall k {:trigger s[k]} :: 0 <= k < |s| && !(i <= k <= j) ==> s[k] == sol[|s| - 1 - k]
      invariant forall k {:trigger s[k]} :: 0 <= k < |s| && i <= k <= j ==> s[k] == sol[k]
    {
      s := s[i := s[j]][j := s[i]];
      i, j := i + 1, j - 1;
    }
  }
}
