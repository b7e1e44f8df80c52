/**
 The mutation history as a state machine, and the replay of its assignments on the original module.
 */
module Replay {
  import Ordering
  import Delta
  import Bitseqs
  import opened Encoding
  import opened Printing

  datatype Assignment = Assignment(bs: Bitseqs.Bitseq, sel: Selection)

  /** The printed files so far, the current module, and the assignments recorded and not yet recorded. */
  datatype HistoryState = HistoryState(
    files: seq<seq<Line>>, ops: seq<Operation>, current: seq<Assignment>, recorded: seq<Assignment>)

  datatype Event = Mutated(a: Assignment) | Recorded | Forgotten

  /**
   A mutation as the module performs it. One with more values than the selection has operations is
   counted as failed; the source would index out of range.
   */
  ghost function Apply(ops: seq<Operation>, a: Assignment): Mutation {
    if a.bs.bits / a.sel.Granularity() <= |Positions(ops, a.sel, true)|
    then Mutate(ops, a.bs.bits, a.bs.Ix(), a.sel) else Mutation(ops, false)
  }

  /** A list of assignments one after the other, up to the first that fails. */
  ghost function ApplyAll(ops: seq<Operation>, todo: seq<Assignment>): Mutation {
    if todo == [] then Mutation(ops, true)
    else
      var r := ApplyAll(ops, todo[..|todo| - 1]);
      if r.ok then Apply(r.ops, todo[|todo| - 1]) else r
  }

  ghost function Initial(file: seq<Line>): HistoryState {
    HistoryState([file], Loaded(file), [], [])
  }

  /** Mutate logs the assignment even when it fails; Record and Forget reload what was printed. */
  ghost function Step(h: HistoryState, e: Event): HistoryState
    requires h.files != []
  {
    match e
    case Mutated(a) => h.(ops := Apply(h.ops, a).ops, current := h.current + [a])
    case Recorded =>
      var file := Printed(h.ops);
      HistoryState(h.files + [file], Loaded(file), [], h.recorded + h.current)
    case Forgotten => h.(ops := Loaded(h.files[|h.files| - 1]), current := [])
  }

  ghost function RunAll(h: HistoryState, events: seq<Event>): (r: HistoryState)
    requires h.files != []
    ensures r.files != []
  {
    if events == [] then h else Step(RunAll(h, events[..|events| - 1]), events[|events| - 1])
  }

  /** Orderings of atomic operations, or atomicity of all loads, of all stores, or of the plain accesses. */
  ghost predicate Usable(sel: Selection) { Supported(sel) || sel.SelectionPlain? }

  /** Every mutation of the run succeeds, with a selection the optimizer or the mutate command uses. */
  ghost predicate Successful(h: HistoryState, events: seq<Event>)
    requires h.files != []
  {
    forall k :: 0 <= k < |events| && events[k].Mutated? ==>
      Usable(events[k].a.sel) && Apply(RunAll(h, events[..k]).ops, events[k].a).ok
  }

  /** Some Record of the run printed a module with a relaxed fence, and so lost it. */
  ghost predicate LosesFence(h: HistoryState, events: seq<Event>)
    requires h.files != []
  {
    exists k :: 0 <= k < |events| && LosesFenceAt(h, events[..k], events[k])
  }

  ghost predicate LosesFenceAt(h: HistoryState, before: seq<Event>, e: Event)
    requires h.files != []
  {
    e.Recorded? && HasRelaxedFence(RunAll(h, before).ops)
  }

  ghost predicate HasRelaxedFence(ops: seq<Operation>) {
    exists p :: 0 <= p < |ops| && ops[p].kind.Fence? && ops[p].after.ordering.Relaxed?
  }

  /** Replaying recorded and current assignments on the original file, as PrintDiff does. */
  ghost function Replayed(h: HistoryState): Mutation
    requires h.files != []
  {
    ApplyAll(Loaded(h.files[0]), h.recorded + h.current)
  }

  /** Same kinds and same current values; the original values may differ. */
  ghost predicate Alike(a: seq<Operation>, b: seq<Operation>) {
    |a| == |b| && forall p :: 0 <= p < |a| ==> a[p].kind == b[p].kind && a[p].after == b[p].after
  }

  /** The replay succeeds and shows the current module. */
  ghost predicate Agrees(h: HistoryState)
    requires h.files != []
  {
    Replayed(h).ok && Alike(Replayed(h).ops, h.ops)
  }

  // ----- values that printing and parsing preserve -----

  /** The values a parsed operation has: only atomic ones have an ordering, and only accesses can be plain. */
  predicate NormalValues(kind: Ordering.AtomicOp, v: Values) {
    (v.atomic || v.ordering.Invalid?) && (kind.Load? || kind.Store? || v.atomic)
  }

  /** An operation that mutations can lead to: its values are normal, and changed ones have an ordering. */
  predicate Normal(op: Operation) {
    && NormalValues(op.kind, op.before)
    && NormalValues(op.kind, op.after)
    && (op.after.atomic && op.after.ordering.Invalid? ==> op.after == op.before)
  }

  ghost predicate AllNormal(ops: seq<Operation>) {
    forall p :: 0 <= p < |ops| ==> Normal(ops[p])
  }

  ghost predicate NormalFile(file: seq<Line>) {
    forall p :: 0 <= p < |file| ==> NormalValues(file[p].kind, file[p].values)
  }

  lemma {:induction false} PrintedKeeps(ops: seq<Operation>)
    requires AllNormal(ops)
    ensures NormalFile(Printed(ops)) && |Printed(ops)| <= |ops|
    ensures |Printed(ops)| == |ops| <==> !HasRelaxedFence(ops)
    ensures !HasRelaxedFence(ops) ==> Alike(Loaded(Printed(ops)), ops)
  {
    if ops != [] {
      PrintedKeeps(ops[..|ops| - 1]);
      SilentLast(ops);
    }
  }

  lemma SilentLast(ops: seq<Operation>)
    requires ops != []
    ensures HasRelaxedFence(ops) <==> HasRelaxedFence(ops[..|ops| - 1]) || Silent(ops[|ops| - 1])
  {
    var init := ops[..|ops| - 1];
    assert forall p :: 0 <= p < |init| ==> init[p] == ops[p];
    if HasRelaxedFence(init) {
      var p :| 0 <= p < |init| && init[p].kind.Fence? && init[p].after.ordering.Relaxed?;
      assert ops[p] == init[p];
    }
    if HasRelaxedFence(ops) {
      var p :| 0 <= p < |ops| && ops[p].kind.Fence? && ops[p].after.ordering.Relaxed?;
      assert p < |init| ==> init[p] == ops[p];
    }
  }

  // ----- mutations see only kinds and current values -----

  lemma {:induction false} PositionsAlike(a: seq<Operation>, b: seq<Operation>, sel: Selection)
    requires Alike(a, b)
    ensures Positions(a, sel, true) == Positions(b, sel, true)
  {
    if a != [] {
      PositionsAlike(a[..|a| - 1], b[..|b| - 1], sel);
    }
  }

  lemma {:induction false} MutateFromAlike(
    a: seq<Operation>, b: seq<Operation>, ps: seq<nat>, x: set<nat>, modes: bool, k: nat, m: nat)
    requires Alike(a, b) && k <= m <= |ps| && Indexes(ps, a)
    ensures var ra, rb := MutateFrom(a, ps, x, modes, k, m), MutateFrom(b, ps, x, modes, k, m);
            ra.ok == rb.ok && Alike(ra.ops, rb.ops)
    decreases m - k
  {
    if k < m {
      var val := ItemFor(x, modes, k);
      MutateFromAlike(a[ps[k] := Assigned(a[ps[k]], val, modes)], b[ps[k] := Assigned(b[ps[k]], val, modes)],
                      ps, x, modes, k + 1, m);
    }
  }

  lemma ApplyAlike(a: seq<Operation>, b: seq<Operation>, asg: Assignment)
    requires Alike(a, b)
    ensures Apply(a, asg).ok == Apply(b, asg).ok && Alike(Apply(a, asg).ops, Apply(b, asg).ops)
  {
    var sel, x := asg.sel, asg.bs.Ix();
    var ps := Positions(a, sel, true);
    PositionsAlike(a, b, sel);
    PositionsList(a, sel, true);
    var m := asg.bs.bits / sel.Granularity();
    if m <= |ps| {
      MutateFromAlike(a, b, ps, x, sel.Binary(), 0, m);
    }
  }

  lemma {:induction false} ApplyAllAlike(a: seq<Operation>, b: seq<Operation>, todo: seq<Assignment>)
    requires Alike(a, b)
    ensures ApplyAll(a, todo).ok == ApplyAll(b, todo).ok && Alike(ApplyAll(a, todo).ops, ApplyAll(b, todo).ops)
  {
    if todo != [] {
      var init := todo[..|todo| - 1];
      ApplyAllAlike(a, b, init);
      ApplyAlike(ApplyAll(a, init).ops, ApplyAll(b, init).ops, todo[|todo| - 1]);
    }
  }

  lemma {:induction false} ApplyAllConcat(ops: seq<Operation>, a: seq<Assignment>, b: seq<Assignment>)
    requires ApplyAll(ops, a).ok
    ensures ApplyAll(ops, a + b) == ApplyAll(ApplyAll(ops, a).ops, b)
  {
    if b == [] {
      assert a + b == a;
    } else {
      assert (a + b)[..|a + b| - 1] == a + b[..|b| - 1];
      ApplyAllConcat(ops, a, b[..|b| - 1]);
    }
  }

  lemma ApplyKeeps(ops: seq<Operation>, a: Assignment)
    requires Usable(a.sel)
    ensures |Apply(ops, a).ops| == |ops|
    ensures AllNormal(ops) ==> AllNormal(Apply(ops, a).ops)
  {
    var sel, x, m := a.sel, a.bs.Ix(), a.bs.bits / a.sel.Granularity();
    var ps := Positions(ops, sel, true);
    PositionsList(ops, sel, true);
    if m <= |ps| && a.bs.bits % sel.Granularity() == 0 {
      MutateAssigns(ops, ps, x, sel.Binary(), 0, m);
      if AllNormal(ops) {
        MutateNormal(ops, ps, x, sel, m);
      }
    }
  }

  lemma NormalAssigned(op: Operation, val: nat, sel: Selection)
    requires Usable(sel) && op.Matches(sel, true) && Normal(op) && CanTake(op, val, sel.Binary())
    ensures Normal(Assigned(op, val, sel.Binary()))
  {
  }

  lemma MutateNormal(ops: seq<Operation>, ps: seq<nat>, x: set<nat>, sel: Selection, m: nat)
    requires Usable(sel) && AllNormal(ops) && m <= |ps| && Delta.Increasing(ps) && Indexes(ps, ops)
    requires forall k :: 0 <= k < |ps| ==> ops[ps[k]].Matches(sel, true)
    ensures AllNormal(MutateFrom(ops, ps, x, sel.Binary(), 0, m).ops)
  {
    MutateAssigns(ops, ps, x, sel.Binary(), 0, m);
    var ops', q := MutateFrom(ops, ps, x, sel.Binary(), 0, m).ops, Stop(ops, ps, x, sel.Binary(), 0, m);
    forall p: nat | p < |ops|
      ensures Normal(ops'[p])
    {
      if p in ps[0..q] {
        var j: nat :| j < q && ps[j] == p;
        StopTakes(ops, ps, x, sel.Binary(), 0, m, j);
        NormalAssigned(ops[p], ItemFor(x, sel.Binary(), j), sel);
      }
    }
  }

  lemma {:induction false} StopTakes(
    ops: seq<Operation>, ps: seq<nat>, x: set<nat>, modes: bool, k: nat, m: nat, j: nat)
    requires k <= m <= |ps| && Indexes(ps, ops) && k <= j < Stop(ops, ps, x, modes, k, m)
    ensures CanTake(ops[ps[j]], ItemFor(x, modes, j), modes)
    decreases m - k
  {
    if k < j {
      StopTakes(ops, ps, x, modes, k + 1, m, j);
    }
  }

  lemma {:induction false} ApplyAllLength(ops: seq<Operation>, todo: seq<Assignment>)
    requires forall k :: 0 <= k < |todo| ==> Usable(todo[k].sel)
    ensures |ApplyAll(ops, todo).ops| == |ops|
  {
    if todo != [] {
      var init := todo[..|todo| - 1];
      ApplyAllLength(ops, init);
      ApplyKeeps(ApplyAll(ops, init).ops, todo[|todo| - 1]);
    }
  }

  // ----- the invariant of all runs -----

  /** What holds after any run of successful mutations, records and forgets. */
  ghost predicate Consistent(h: HistoryState) {
    && h.files != []
    && NormalFile(h.files[|h.files| - 1])
    && AllNormal(h.ops)
    && |h.ops| == |h.files[|h.files| - 1]| <= |h.files[0]|
    && (forall k :: 0 <= k < |h.current| ==> Usable(h.current[k].sel))
    && (forall k :: 0 <= k < |h.recorded| ==> Usable(h.recorded[k].sel))
    && ApplyAll(Loaded(h.files[|h.files| - 1]), h.current) == Mutation(h.ops, true)
  }

  /** The recorded assignments alone lead from the first file to the last. */
  ghost predicate Lossless(h: HistoryState)
    requires h.files != []
  {
    var r := ApplyAll(Loaded(h.files[0]), h.recorded);
    r.ok && Alike(r.ops, Loaded(h.files[|h.files| - 1]))
  }

  lemma LosslessAgrees(h: HistoryState)
    requires Consistent(h) && Lossless(h)
    ensures Agrees(h)
  {
    var r := ApplyAll(Loaded(h.files[0]), h.recorded);
    ApplyAllConcat(Loaded(h.files[0]), h.recorded, h.current);
    ApplyAllAlike(r.ops, Loaded(h.files[|h.files| - 1]), h.current);
  }

  lemma StepConsistent(h: HistoryState, e: Event)
    requires Consistent(h)
    requires e.Mutated? ==> Usable(e.a.sel) && Apply(h.ops, e.a).ok
    ensures Consistent(Step(h, e)) && Step(h, e).files[0] == h.files[0]
    ensures Lossless(h) && !(e.Recorded? && HasRelaxedFence(h.ops)) ==> Lossless(Step(h, e))
    ensures e.Recorded? && HasRelaxedFence(h.ops) ==> |Step(h, e).ops| < |h.files[0]|
    ensures |h.ops| < |h.files[0]| ==> |Step(h, e).ops| < |h.files[0]|
  {
    var h' := Step(h, e);
    var last := h.files[|h.files| - 1];
    match e {
      case Mutated(a) =>
        ApplyKeeps(h.ops, a);
        assert h'.current[..|h'.current| - 1] == h.current;
      case Recorded => RecordConsistent(h);
      case Forgotten =>
    }
  }

  lemma RecordConsistent(h: HistoryState)
    requires Consistent(h)
    ensures var h' := Step(h, Recorded);
            && Consistent(h') && h'.files[0] == h.files[0]
            && (Lossless(h) && !HasRelaxedFence(h.ops) ==> Lossless(h'))
            && (HasRelaxedFence(h.ops) ==> |h'.ops| < |h.files[0]|)
            && |h'.ops| <= |h.ops|
  {
    var h' := Step(h, Recorded);
    PrintedKeeps(h.ops);
    assert h'.files[|h'.files| - 1] == Printed(h.ops);
    if Lossless(h) && !HasRelaxedFence(h.ops) {
      LosslessAgrees(h);
      AlikeTrans(Replayed(h).ops, h.ops, h'.ops);
    }
  }

  lemma AlikeTrans(a: seq<Operation>, b: seq<Operation>, c: seq<Operation>)
    requires Alike(a, b) && Alike(c, b)
    ensures Alike(a, c)
  {
  }

  lemma {:induction false} RunConsistent(file: seq<Line>, events: seq<Event>)
    requires NormalFile(file) && Successful(Initial(file), events)
    ensures var h := RunAll(Initial(file), events);
            && Consistent(h) && h.files[0] == file
            && (!LosesFence(Initial(file), events) ==> Lossless(h))
            && (LosesFence(Initial(file), events) ==> |h.ops| < |file|)
  {
    var h0 := Initial(file);
    if events != [] {
      var init, e := events[..|events| - 1], events[|events| - 1];
      assert forall k :: 0 <= k <= |init| ==> init[..k] == events[..k];
      RunConsistent(file, init);
      var h := RunAll(h0, init);
      LosesFenceLast(h0, events);
      StepConsistent(h, e);
    }
  }

  lemma LosesFenceLast(h: HistoryState, events: seq<Event>)
    requires h.files != [] && events != []
    ensures var init, e := events[..|events| - 1], events[|events| - 1];
            LosesFence(h, events) <==> LosesFence(h, init) || LosesFenceAt(h, init, e)
  {
    var init := events[..|events| - 1];
    assert forall k :: 0 <= k < |init| ==> init[..k] == events[..k];
    if LosesFence(h, init) {
      var k :| 0 <= k < |init| && LosesFenceAt(h, init[..k], init[k]);
      assert LosesFenceAt(h, events[..k], events[k]);
    }
    if LosesFence(h, events) {
      var k :| 0 <= k < |events| && LosesFenceAt(h, events[..k], events[k]);
      assert k < |init| ==> LosesFenceAt(h, init[..k], init[k]);
    }
  }

  /**
   Over every run of successful mutations, records and forgets, replaying the recorded and current
   assignments on the original module gives the current one if and only if no record lost a fence.
   */
  lemma ReplayAgrees(file: seq<Line>, events: seq<Event>)
    requires NormalFile(file) && Successful(Initial(file), events)
    ensures Agrees(RunAll(Initial(file), events)) <==> !LosesFence(Initial(file), events)
  {
    var h := RunAll(Initial(file), events);
    RunConsistent(file, events);
    if LosesFence(Initial(file), events) {
      assert forall k :: 0 <= k < |h.recorded + h.current| ==> Usable((h.recorded + h.current)[k].sel);
      ApplyAllLength(Loaded(file), h.recorded + h.current);
    } else {
      LosslessAgrees(h);
    }
  }

  // ----- what losing a fence does to the bitsequence -----

  /** The current orderings of the selected operations, in order. */
  ghost function Orderings(ops: seq<Operation>, sel: Selection): seq<Ordering.Ordering> {
    if ops == [] then []
    else
      var l := |ops| - 1;
      Orderings(ops[..l], sel) + if ops[l].Matches(sel, true) then [ops[l].after.ordering] else []
  }

  lemma {:induction false} OrderingsAtPositions(ops: seq<Operation>, sel: Selection)
    ensures var os, ps := Orderings(ops, sel), Positions(ops, sel, true);
            |os| == |ps| && Indexes(ps, ops) && forall k :: 0 <= k < |ps| ==> os[k] == ops[ps[k]].after.ordering
  {
    if ops != [] {
      OrderingsAtPositions(ops[..|ops| - 1], sel);
    }
  }

  lemma EncodeOrderings(ops: seq<Operation>, sel: Selection, i: nat)
    requires sel.OfOrderings()
    ensures var os := Orderings(ops, sel);
            i in Encode(ops, sel, true) <==> i / 2 < |os| && OrderingBit(os[i / 2], i % 2 == 1)
  {
    OrderingsAtPositions(ops, sel);
    InEncoding(ops, sel, i);
  }

  /** Which of the atomic operations, by their number among them, are still there after a reload. */
  ghost function Survivors(ops: seq<Operation>): seq<nat> {
    if ops == [] then []
    else
      var l := |ops| - 1;
      Survivors(ops[..l])
      + if ops[l].Matches(SelectionAtomic, true) && !Silent(ops[l])
        then [|Positions(ops[..l], SelectionAtomic, true)|] else []
  }

  /** All but the relaxed fences are, in the same order. */
  lemma {:induction false} SurvivorsList(ops: seq<Operation>)
    ensures var ps, sv := Positions(ops, SelectionAtomic, true), Survivors(ops);
            && Delta.Increasing(sv) && Indexes(ps, ops)
            && forall k: nat :: k in sv <==> k < |ps| && !(ops[ps[k]].kind.Fence? && ops[ps[k]].after.ordering.Relaxed?)
  {
    PositionsList(ops, SelectionAtomic, true);
    if ops != [] {
      var init, l := ops[..|ops| - 1], |ops| - 1;
      SurvivorsList(init);
      PositionsLast(ops);
      OneMoreSurvivor(ops, init, Positions(ops, SelectionAtomic, true), Positions(init, SelectionAtomic, true),
                      Survivors(ops), Survivors(init));
    }
  }

  lemma PositionsLast(ops: seq<Operation>)
    requires ops != []
    ensures var l := |ops| - 1;
            Positions(ops, SelectionAtomic, true) ==
            Positions(ops[..l], SelectionAtomic, true) + if ops[l].Matches(SelectionAtomic, true) then [l] else []
  {
  }

  lemma OneMoreSurvivor(
    ops: seq<Operation>, init: seq<Operation>, ps: seq<nat>, qs: seq<nat>, sv: seq<nat>, tv: seq<nat>)
    requires ops != [] && init == ops[..|ops| - 1] && Indexes(ps, ops) && Indexes(qs, init)
    requires var l := |ops| - 1;
             && ps == qs + (if ops[l].Matches(SelectionAtomic, true) then [l] else [])
             && sv == tv + if ops[l].Matches(SelectionAtomic, true) && !Silent(ops[l]) then [|qs|] else []
    requires Delta.Increasing(tv) && forall k: nat :: k in tv <==> k < |qs| && !Silent(init[qs[k]])
    ensures Delta.Increasing(sv) && forall k: nat ::
              k in sv <==> k < |ps| && !(ops[ps[k]].kind.Fence? && ops[ps[k]].after.ordering.Relaxed?)
  {
    assert forall k :: 0 <= k < |tv| ==> tv[k] in tv;
    AppendIndex(tv, |qs|);
    assert forall k :: 0 <= k < |qs| ==> ps[k] == qs[k] && ops[ps[k]] == init[qs[k]];
  }

  /** The orderings after a reload are those of the survivors. */
  lemma {:induction false} ReloadOrderings(ops: seq<Operation>)
    requires AllNormal(ops)
    ensures var os, rs, sv := Orderings(ops, SelectionAtomic), Orderings(Loaded(Printed(ops)), SelectionAtomic), Survivors(ops);
            |rs| == |sv| && forall j :: 0 <= j < |sv| ==> sv[j] < |os| && rs[j] == os[sv[j]]
  {
    if ops != [] {
      var init, l := ops[..|ops| - 1], |ops| - 1;
      ReloadOrderings(init);
      OrderingsAtPositions(init, SelectionAtomic);
      OrderingsLast(ops);
      if Silent(ops[l]) {
        assert Printed(ops) == Printed(init);
      } else {
        ReloadLast(ops);
      }
    }
  }

  lemma OrderingsLast(ops: seq<Operation>)
    requires ops != []
    ensures var l := |ops| - 1;
            var os, qs := Orderings(ops, SelectionAtomic), Orderings(ops[..l], SelectionAtomic);
            && os == qs + (if ops[l].Matches(SelectionAtomic, true) then [ops[l].after.ordering] else [])
            && forall k :: 0 <= k < |qs| ==> os[k] == qs[k]
  {
  }

  /** A last operation that is not lost is reloaded with its ordering. */
  lemma ReloadLast(ops: seq<Operation>)
    requires ops != [] && Normal(ops[|ops| - 1]) && !Silent(ops[|ops| - 1])
    ensures var os, init := Orderings(ops, SelectionAtomic), Orderings(ops[..|ops| - 1], SelectionAtomic);
            && init <= os
            && Orderings(Loaded(Printed(ops)), SelectionAtomic)
            == Orderings(Loaded(Printed(ops[..|ops| - 1])), SelectionAtomic) + os[|init|..]
  {
    var l := |ops| - 1;
    var file, line := Printed(ops[..l]), Line(ops[l].kind, PrintedValues(ops[l]));
    PrintedNormal(ops[l]);
    assert Loaded(file + [line])[..|file|] == Loaded(file);
    assert Loaded(file + [line])[|file|].Matches(SelectionAtomic, true) <==> ops[l].Matches(SelectionAtomic, true);
  }

  lemma PrintedNormal(op: Operation)
    requires Normal(op)
    ensures PrintedValues(op) == op.after
  {
  }

  /** Bit i, of the i/2-th survivor, was set in x. */
  ghost predicate FromSurvivor(x: set<nat>, sv: seq<nat>, i: nat) {
    i / 2 < |sv| && 2 * sv[i / 2] + i % 2 in x
  }

  /**
   Recording a module deletes exactly the pairs of its relaxed fences from the bitsequence of all atomic
   operations: the j-th pair afterwards is that of the j-th atomic operation that is no relaxed fence.
   */
  lemma RecordDeletesPairs(ops: seq<Operation>) returns (sv: seq<nat>)
    requires AllNormal(ops)
    ensures var ps := Positions(ops, SelectionAtomic, true);
            && Delta.Increasing(sv) && Indexes(ps, ops)
            && forall k: nat :: k in sv <==> k < |ps| && !(ops[ps[k]].kind.Fence? && ops[ps[k]].after.ordering.Relaxed?)
    ensures var x, y := Encode(ops, SelectionAtomic, true), Encode(Loaded(Printed(ops)), SelectionAtomic, true);
            forall i: nat :: i in y <==> FromSurvivor(x, sv, i)
  {
    sv := Survivors(ops);
    SurvivorsList(ops);
    SurvivorsMove(ops);
  }

  lemma SurvivorsMove(ops: seq<Operation>)
    requires AllNormal(ops)
    ensures var x, y := Encode(ops, SelectionAtomic, true), Encode(Loaded(Printed(ops)), SelectionAtomic, true);
            forall i: nat :: i in y <==> FromSurvivor(x, Survivors(ops), i)
  {
    var sv := Survivors(ops);
    ReloadOrderings(ops);
    forall i: nat
      ensures i in Encode(Loaded(Printed(ops)), SelectionAtomic, true) <==>
              FromSurvivor(Encode(ops, SelectionAtomic, true), sv, i)
    {
      PairMoves(ops, sv, i);
    }
  }

  lemma PairMoves(ops: seq<Operation>, sv: seq<nat>, i: nat)
    requires var os, rs := Orderings(ops, SelectionAtomic), Orderings(Loaded(Printed(ops)), SelectionAtomic);
             |rs| == |sv| && forall j :: 0 <= j < |sv| ==> sv[j] < |os| && rs[j] == os[sv[j]]
    ensures i in Encode(Loaded(Printed(ops)), SelectionAtomic, true) <==>
            FromSurvivor(Encode(ops, SelectionAtomic, true), sv, i)
  {
    EncodeOrderings(Loaded(Printed(ops)), SelectionAtomic, i);
    if i / 2 < |sv| {
      SameBit(sv[i / 2], i);
      EncodeOrderings(ops, SelectionAtomic, 2 * sv[i / 2] + i % 2);
    }
  }

  lemma SameBit(k: nat, i: nat)
    ensures (2 * k + i % 2) / 2 == k && (2 * k + i % 2) % 2 == i % 2
  {
  }
}
