/**
 Operations of a module, selections of them, and how a bitsequence encodes the orderings (or the
 atomicity) of a selection. A module is the list of its operations in the order of their ids.
 */
module Encoding {
  import opened Ordering
  import opened Delta
  import Bitseqs

  datatype Selection =
    | SelectionInvalid | SelectionAtomic | SelectionPlain
    | SelectionAtomicLoads | SelectionAtomicStores | SelectionRMWs | SelectionFences
    | SelectionPlainLoads | SelectionPlainStores | SelectionLoads | SelectionStores
  {
    /** The fine selections a coarse one stands for. */
    function Group(): seq<Selection> {
      match this
      case SelectionAtomic => [SelectionAtomicLoads, SelectionAtomicStores, SelectionFences, SelectionRMWs]
      case SelectionLoads => [SelectionAtomicLoads, SelectionPlainLoads]
      case SelectionStores => [SelectionAtomicStores, SelectionPlainStores]
      case SelectionPlain => [SelectionPlainStores, SelectionPlainLoads]
      case _ => [this]
    }

    /** Whether bitsequences encode orderings, two bits each, rather than atomicity, one bit each. */
    predicate Binary() {
      !SelectionLoads? && !SelectionStores? && !SelectionPlain?
    }

    /** The selections of atomic operations, whose orderings are encoded. */
    predicate OfOrderings() {
      SelectionAtomic? || SelectionAtomicLoads? || SelectionAtomicStores? || SelectionRMWs? || SelectionFences?
    }

    /** The selections of all loads or all stores, whose atomicity is encoded. */
    predicate OfAccesses() {
      SelectionLoads? || SelectionStores?
    }

    /** Bits per operation. */
    function Granularity(): nat {
      if Binary() then 2 else 1
    }
  }

  datatype Values = Values(ordering: Ordering, atomic: bool)

  /** An operation: its kind, its values in the module as loaded, and its current ones. */
  datatype Operation = Operation(kind: AtomicOp, before: Values, after: Values) {
    function Get(after: bool): Values {
      if after then this.after else before
    }

    function SelectionOf(after: bool): Selection {
      match kind
      case RMW => SelectionRMWs
      case Cmpxchg => SelectionRMWs
      case Fence => SelectionFences
      case Load => if Get(after).atomic then SelectionAtomicLoads else SelectionPlainLoads
      case Store => if Get(after).atomic then SelectionAtomicStores else SelectionPlainStores
      case InvalidOp => SelectionInvalid
    }

    predicate Matches(sel: Selection, after: bool) {
      SelectionOf(after) in sel.Group()
    }
  }

  /** What each selection stands for: the kinds of operations, and whether they are to be atomic or plain. */
  predicate Selects(sel: Selection, kind: AtomicOp, atomic: bool) {
    match sel
    case SelectionInvalid => kind.InvalidOp?
    case SelectionAtomic => kind.Fence? || kind.RMW? || kind.Cmpxchg? || ((kind.Load? || kind.Store?) && atomic)
    case SelectionPlain => (kind.Load? || kind.Store?) && !atomic
    case SelectionAtomicLoads => kind.Load? && atomic
    case SelectionAtomicStores => kind.Store? && atomic
    case SelectionRMWs => kind.RMW? || kind.Cmpxchg?
    case SelectionFences => kind.Fence?
    case SelectionPlainLoads => kind.Load? && !atomic
    case SelectionPlainStores => kind.Store? && !atomic
    case SelectionLoads => kind.Load?
    case SelectionStores => kind.Store?
  }

  /** Grouping fine selections and matching operations against them selects just that. */
  lemma MatchesByKind(op: Operation, sel: Selection, after: bool)
    ensures op.Matches(sel, after) <==> Selects(sel, op.kind, if after then op.after.atomic else op.before.atomic)
  {
  }

  /** The positions of the selected operations, in ascending order. */
  ghost function Positions(ops: seq<Operation>, sel: Selection, after: bool): seq<nat> {
    if ops == [] then []
    else
      var l := |ops| - 1;
      Positions(ops[..l], sel, after) + if ops[l].Matches(sel, after) then [l] else []
  }

  lemma {:induction false} PositionsList(ops: seq<Operation>, sel: Selection, after: bool)
    ensures var ps := Positions(ops, sel, after);
            && Increasing(ps)
            && Indexes(ps, ops)
            && forall p: nat :: p in ps <==> p < |ops| && ops[p].Matches(sel, after)
  {
    if ops != [] {
      var init := ops[..|ops| - 1];
      PositionsList(init, sel, after);
      OneMorePosition(ops, Positions(init, sel, after), sel, after);
    }
  }

  lemma OneMorePosition(ops: seq<Operation>, ps: seq<nat>, sel: Selection, after: bool)
    requires ops != [] && Increasing(ps)
    requires var init := ops[..|ops| - 1]; forall p: nat :: p in ps <==> p < |init| && init[p].Matches(sel, after)
    ensures var l := |ops| - 1;
            var qs := ps + if ops[l].Matches(sel, after) then [l] else [];
            && Increasing(qs) && Indexes(qs, ops)
            && forall p: nat :: p in qs <==> p < |ops| && ops[p].Matches(sel, after)
  {
    var l := |ops| - 1;
    assert forall k :: 0 <= k < |ps| ==> ps[k] in ps;
    AppendIndex(ps, l);
    assert forall p: nat :: p < l ==> ops[..l][p] == ops[p];
  }

  lemma AppendIndex(ps: seq<nat>, l: nat)
    requires Increasing(ps) && forall k :: 0 <= k < |ps| ==> ps[k] < l
    ensures Increasing(ps + [l]) && forall p :: p in ps + [l] <==> p in ps || p == l
  {
  }

  ghost predicate Indexes(ps: seq<nat>, ops: seq<Operation>) {
    forall k :: 0 <= k < |ps| ==> ps[k] < |ops|
  }

  // ----- encoding -----

  /** Bit 0 of a pair is release strength, bit 1 acquire strength; Invalid encodes like Relaxed. */
  predicate OrderingBit(o: Ordering, high: bool) {
    o.SeqCst? || (if high then o.Acquire? else o.Release?)
  }

  ghost predicate EncodedBit(ops: seq<Operation>, ps: seq<nat>, modes: bool, after: bool, i: nat)
    requires Indexes(ps, ops)
  {
    if modes then
      i / 2 < |ps| && OrderingBit(ops[ps[i / 2]].Get(after).ordering, i % 2 == 1)
    else
      i < |ps| && ops[ps[i]].Get(after).atomic
  }

  /** The bitsequence of a selection, as a set of indices. */
  ghost function Encode(ops: seq<Operation>, sel: Selection, after: bool): set<nat> {
    PositionsList(ops, sel, after);
    var ps := Positions(ops, sel, after);
    set i: nat | i < sel.Granularity() * |ps| && EncodedBit(ops, ps, sel.Binary(), after, i)
  }

  /** What a selection has k-th, as it was or as it is. */
  ghost function ValuesAt(ops: seq<Operation>, sel: Selection, after: bool, k: nat): Values
    requires k < |Positions(ops, sel, after)|
  {
    PositionsList(ops, sel, after);
    var op := ops[Positions(ops, sel, after)[k]];
    if after then op.after else op.before
  }

  /**
   What the bits of an encoding say. Of a pair the lower bit is set for release and for sequentially consistent
   operations, the upper one for acquire and for sequentially consistent ones. The selections of all loads, of all
   stores and of plain accesses have one bit for each operation, set if it is atomic.
   */
  lemma EncodeStrengths(ops: seq<Operation>, sel: Selection, after: bool, k: nat)
    requires k < |Positions(ops, sel, after)|
    ensures var x, v := Encode(ops, sel, after), ValuesAt(ops, sel, after, k);
            if sel.SelectionLoads? || sel.SelectionStores? || sel.SelectionPlain? then k in x <==> v.atomic
            else
              && (2 * k in x <==> v.ordering.Release? || v.ordering.SeqCst?)
              && (2 * k + 1 in x <==> v.ordering.Acquire? || v.ordering.SeqCst?)
  {
    if sel.Binary() {
      EncodedOrdering(ops, sel, after, k);
    } else {
      EncodeMember(ops, sel, after, k);
    }
  }

  lemma EncodedOrdering(ops: seq<Operation>, sel: Selection, after: bool, k: nat)
    requires sel.Binary() && k < |Positions(ops, sel, after)|
    ensures var x, v := Encode(ops, sel, after), ValuesAt(ops, sel, after, k);
            && (2 * k in x <==> v.ordering.Release? || v.ordering.SeqCst?)
            && (2 * k + 1 in x <==> v.ordering.Acquire? || v.ordering.SeqCst?)
  {
    var ps := Positions(ops, sel, after);
    EncodeMember(ops, sel, after, 2 * k);
    EncodeMember(ops, sel, after, 2 * k + 1);
    PairStrengths(ops, ps, after, k);
    assert sel.Granularity() == 2 && 2 * k + 1 < 2 * |ps|;
  }

  lemma EncodeMember(ops: seq<Operation>, sel: Selection, after: bool, i: nat)
    ensures var ps := Positions(ops, sel, after);
            && Indexes(ps, ops)
            && (i in Encode(ops, sel, after) <==>
                i < sel.Granularity() * |ps| && EncodedBit(ops, ps, sel.Binary(), after, i))
  {
    PositionsList(ops, sel, after);
  }

  lemma PairStrengths(ops: seq<Operation>, ps: seq<nat>, after: bool, k: nat)
    requires Indexes(ps, ops) && k < |ps|
    ensures var v := if after then ops[ps[k]].after else ops[ps[k]].before;
            && (EncodedBit(ops, ps, true, after, 2 * k) <==> v.ordering.Release? || v.ordering.SeqCst?)
            && (EncodedBit(ops, ps, true, after, 2 * k + 1) <==> v.ordering.Acquire? || v.ordering.SeqCst?)
  {
    assert 2 * k / 2 == k && (2 * k + 1) / 2 == k && 2 * k % 2 == 0 && (2 * k + 1) % 2 == 1;
  }

  // ----- mutating -----

  /** The k-th value a bitsequence gives to a selection. */
  ghost function ItemFor(x: set<nat>, modes: bool, k: nat): nat {
    Bitseqs.Item(x, if modes then 2 else 1, k)
  }

  datatype Mutation = Mutation(ops: seq<Operation>, ok: bool)

  /** Whether an operation can be given the val-th ordering. */
  predicate CanTake(op: Operation, val: nat, modes: bool) {
    modes ==> !GetOrdering(op.kind, val).Invalid?
  }

  function Assigned(op: Operation, val: nat, modes: bool): Operation {
    if modes then op.(after := op.after.(ordering := GetOrdering(op.kind, val)))
    else op.(after := if val == 1 then Values(SeqCst, true) else Values(Ordering.Invalid, false))
  }

  /** Assign items k, k + 1, ... of x to the operations at ps, up to m, stopping at the first that fails. */
  ghost function MutateFrom(ops: seq<Operation>, ps: seq<nat>, x: set<nat>, modes: bool, k: nat, m: nat): Mutation
    requires k <= m <= |ps| && Indexes(ps, ops)
    decreases m - k
  {
    if k == m then Mutation(ops, true)
    else
      var val := ItemFor(x, modes, k);
      var op := ops[ps[k]];
      if CanTake(op, val, modes) then
        MutateFrom(ops[ps[k] := Assigned(op, val, modes)], ps, x, modes, k + 1, m)
      else Mutation(ops, false)
  }

  /** Mutating a module to a bitsequence: odd lengths are refused for orderings. */
  ghost function Mutate(ops: seq<Operation>, bits: nat, x: set<nat>, sel: Selection): Mutation
    requires bits / sel.Granularity() <= |Positions(ops, sel, true)|
  {
    PositionsList(ops, sel, true);
    if bits % sel.Granularity() != 0 then Mutation(ops, false)
    else MutateFrom(ops, Positions(ops, sel, true), x, sel.Binary(), 0, bits / sel.Granularity())
  }

  /** The kinds of the selected operations. */
  ghost function KindsOf(ops: seq<Operation>, ps: seq<nat>): seq<AtomicOp>
    requires Indexes(ps, ops)
  {
    seq(|ps|, k requires 0 <= k < |ps| => ops[ps[k]].kind)
  }

  // ----- what a mutation does -----

  /** The first item from k on that its operation cannot take, or m. */
  ghost function Stop(ops: seq<Operation>, ps: seq<nat>, x: set<nat>, modes: bool, k: nat, m: nat): (q: nat)
    requires k <= m <= |ps| && Indexes(ps, ops)
    ensures k <= q <= m
    decreases m - k
  {
    if k < m && CanTake(ops[ps[k]], ItemFor(x, modes, k), modes) then Stop(ops, ps, x, modes, k + 1, m) else k
  }

  /** ops' is ops with items k up to m assigned and nothing else changed. */
  ghost predicate ItemsAssigned(
    ops: seq<Operation>, ops': seq<Operation>, ps: seq<nat>, x: set<nat>, modes: bool, k: nat, m: nat)
    requires k <= m <= |ps| && Indexes(ps, ops)
  {
    && |ops'| == |ops|
    && (forall j: nat :: k <= j < m ==> ops'[ps[j]] == Assigned(ops[ps[j]], ItemFor(x, modes, j), modes))
    && (forall p: nat :: p < |ops| && p !in ps[k..m] ==> ops'[p] == ops[p])
  }

  /**
   A mutation assigns the items before the first unsuitable one, and succeeds iff there is none.
   */
  lemma {:induction false} MutateAssigns(
    ops: seq<Operation>, ps: seq<nat>, x: set<nat>, modes: bool, k: nat, m: nat)
    requires k <= m <= |ps| && Increasing(ps) && Indexes(ps, ops)
    ensures var r, q := MutateFrom(ops, ps, x, modes, k, m), Stop(ops, ps, x, modes, k, m);
            && (r.ok <==> q == m)
            && ItemsAssigned(ops, r.ops, ps, x, modes, k, q)
    decreases m - k
  {
    if k < m && CanTake(ops[ps[k]], ItemFor(x, modes, k), modes) {
      var ops' := ops[ps[k] := Assigned(ops[ps[k]], ItemFor(x, modes, k), modes)];
      MutateAssigns(ops', ps, x, modes, k + 1, m);
      StopByKind(ops, ops', ps, x, modes, k + 1, m);
      AssignedFirst(ops, MutateFrom(ops, ps, x, modes, k, m).ops, ps, x, modes, k, Stop(ops, ps, x, modes, k, m));
    } else {
      assert ps[k..k] == [];
    }
  }

  lemma AssignedFirst(
    ops: seq<Operation>, ops': seq<Operation>, ps: seq<nat>, x: set<nat>, modes: bool, k: nat, q: nat)
    requires k < q <= |ps| && Increasing(ps) && Indexes(ps, ops)
    requires ItemsAssigned(ops[ps[k] := Assigned(ops[ps[k]], ItemFor(x, modes, k), modes)], ops', ps, x, modes, k + 1, q)
    ensures ItemsAssigned(ops, ops', ps, x, modes, k, q)
  {
    assert ps[k..q] == [ps[k]] + ps[k + 1..q];
    assert forall j: nat :: k < j < q ==> ps[j] != ps[k];
    assert ps[k] !in ps[k + 1..q];
  }

  lemma {:induction false} StopByKind(
    ops: seq<Operation>, ops': seq<Operation>, ps: seq<nat>, x: set<nat>, modes: bool, k: nat, m: nat)
    requires k <= m <= |ps| && |ops'| == |ops| && Indexes(ps, ops)
    requires forall k :: 0 <= k < |ps| ==> ops'[ps[k]].kind == ops[ps[k]].kind
    ensures Stop(ops', ps, x, modes, k, m) == Stop(ops, ps, x, modes, k, m)
    decreases m - k
  {
    if k < m {
      StopByKind(ops, ops', ps, x, modes, k + 1, m);
    }
  }

  lemma {:induction false} StopMeans(ops: seq<Operation>, ps: seq<nat>, x: set<nat>, modes: bool, k: nat, m: nat)
    requires k <= m <= |ps| && Indexes(ps, ops)
    ensures Stop(ops, ps, x, modes, k, m) == m <==>
            forall j: nat :: k <= j < m ==> CanTake(ops[ps[j]], ItemFor(x, modes, j), modes)
    decreases m - k
  {
    if k < m {
      StopMeans(ops, ps, x, modes, k + 1, m);
    }
  }

  // ----- what a mutation leaves alone -----

  lemma {:induction false} PositionsSame(ops: seq<Operation>, ops': seq<Operation>, sel: Selection, after: bool)
    requires |ops'| == |ops|
    requires forall p :: 0 <= p < |ops| ==> (ops'[p].Matches(sel, after) <==> ops[p].Matches(sel, after))
    ensures Positions(ops', sel, after) == Positions(ops, sel, after)
  {
    if ops != [] {
      PositionsSame(ops[..|ops| - 1], ops'[..|ops| - 1], sel, after);
    }
  }

  /** Kinds and original values stay, and so do unselected operations and the set of selected ones. */
  ghost predicate SameFrame(ops: seq<Operation>, ops': seq<Operation>, sel: Selection) {
    |ops'| == |ops| && forall p :: 0 <= p < |ops| ==> SameOperation(ops[p], ops'[p], sel)
  }

  lemma SameFramePositions(ops: seq<Operation>, ops': seq<Operation>, sel: Selection)
    requires SameFrame(ops, ops', sel)
    ensures Positions(ops', sel, true) == Positions(ops, sel, true)
  {
    PositionsSame(ops, ops', sel, true);
  }

  lemma SameFrameTrans(a: seq<Operation>, b: seq<Operation>, c: seq<Operation>, sel: Selection)
    requires SameFrame(a, b, sel) && SameFrame(b, c, sel)
    ensures SameFrame(a, c, sel)
  {
    forall p | 0 <= p < |a|
      ensures SameOperation(a[p], c[p], sel)
    {
      assert SameOperation(a[p], b[p], sel) && SameOperation(b[p], c[p], sel);
    }
  }

  ghost predicate Supported(sel: Selection) { sel.OfOrderings() || sel.OfAccesses() }

  /** What assigning one item of a selection never changes. */
  ghost predicate SameOperation(op: Operation, op': Operation, sel: Selection) {
    && op'.kind == op.kind && op'.before == op.before
    && (sel.Binary() ==> op'.after.atomic == op.after.atomic)
    && (op'.Matches(sel, true) <==> op.Matches(sel, true))
    && (!op.Matches(sel, true) ==> op' == op)
  }

  lemma AssignedSame(op: Operation, val: nat, sel: Selection)
    requires Supported(sel) && op.Matches(sel, true)
    ensures SameOperation(op, Assigned(op, val, sel.Binary()), sel)
  {
  }

  /** However far a mutation gets, the next one with the same selection finds the same operations. */
  lemma MutateKeepsFrame(ops: seq<Operation>, bits: nat, x: set<nat>, sel: Selection)
    requires Supported(sel) && bits / sel.Granularity() <= |Positions(ops, sel, true)|
    ensures SameFrame(ops, Mutate(ops, bits, x, sel).ops, sel)
  {
    var ps, m := Positions(ops, sel, true), bits / sel.Granularity();
    var ops' := Mutate(ops, bits, x, sel).ops;
    PositionsList(ops, sel, true);
    assert forall k :: 0 <= k < |ps| ==> ps[k] in ps;
    if bits % sel.Granularity() == 0 {
      MutateAssigns(ops, ps, x, sel.Binary(), 0, m);
      AssignedFrame(ops, ops', ps, x, sel, Stop(ops, ps, x, sel.Binary(), 0, m));
    }
  }

  lemma AssignedFrame(
    ops: seq<Operation>, ops': seq<Operation>, ps: seq<nat>, x: set<nat>, sel: Selection, q: nat)
    requires Supported(sel) && q <= |ps| && Indexes(ps, ops) && ItemsAssigned(ops, ops', ps, x, sel.Binary(), 0, q)
    requires forall k :: 0 <= k < |ps| ==> ops[ps[k]].Matches(sel, true)
    ensures SameFrame(ops, ops', sel)
  {
    forall p: nat | p < |ops|
      ensures SameOperation(ops[p], ops'[p], sel)
    {
      if p in ps[0..q] {
        var j: nat :| j < q && ps[j] == p;
        AssignedSame(ops[p], ItemFor(x, sel.Binary(), j), sel);
      }
    }
  }

  // ----- faithfulness -----

  /** A bitsequence of the right length for a selection. */
  ghost predicate Fits(ops: seq<Operation>, sel: Selection, bits: nat, x: set<nat>) {
    bits == sel.Granularity() * |Positions(ops, sel, true)| && forall i :: i in x ==> i < bits
  }

  /** All selected operations have the values x gives them. */
  ghost predicate HasValues(ops: seq<Operation>, ops': seq<Operation>, sel: Selection, x: set<nat>) {
    var ps := Positions(ops, sel, true);
    && Indexes(ps, ops) && |ops'| == |ops|
    && forall k: nat :: k < |ps| ==>
         && CanTake(ops[ps[k]], ItemFor(x, sel.Binary(), k), sel.Binary())
         && ops'[ps[k]] == Assigned(ops[ps[k]], ItemFor(x, sel.Binary(), k), sel.Binary())
  }

  /** Mutating succeeds iff every pair suits the kind of its operation, and then gives all of them. */
  lemma MutateOk(ops: seq<Operation>, bits: nat, x: set<nat>, sel: Selection)
    requires Supported(sel) && bits == sel.Granularity() * |Positions(ops, sel, true)|
    ensures var r, ps := Mutate(ops, bits, x, sel), Positions(ops, sel, true);
            && Indexes(ps, ops)
            && (r.ok <==> sel.Binary() ==> ValidFor(KindsOf(ops, ps), x))
            && (r.ok ==> HasValues(ops, r.ops, sel, x))
  {
    var ps, modes := Positions(ops, sel, true), sel.Binary();
    PositionsList(ops, sel, true);
    assert bits / sel.Granularity() == |ps| && bits % sel.Granularity() == 0;
    assert Mutate(ops, bits, x, sel) == MutateFrom(ops, ps, x, modes, 0, |ps|);
    AllAssigned(ops, ps, x, modes);
  }

  /** Assigning all items succeeds iff all are suitable. */
  lemma AllAssigned(ops: seq<Operation>, ps: seq<nat>, x: set<nat>, modes: bool)
    requires Increasing(ps) && Indexes(ps, ops)
    ensures var r := MutateFrom(ops, ps, x, modes, 0, |ps|);
            && (r.ok <==> modes ==> ValidFor(KindsOf(ops, ps), x))
            && (r.ok ==> |r.ops| == |ops| && forall k: nat :: k < |ps| ==>
                  && CanTake(ops[ps[k]], ItemFor(x, modes, k), modes)
                  && r.ops[ps[k]] == Assigned(ops[ps[k]], ItemFor(x, modes, k), modes))
  {
    MutateAssigns(ops, ps, x, modes, 0, |ps|);
    StopMeans(ops, ps, x, modes, 0, |ps|);
    assert forall k: nat :: k < |ps| ==> KindsOf(ops, ps)[k] == ops[ps[k]].kind;
  }

  lemma PairBits(x: set<nat>, k: nat, op: AtomicOp, high: bool)
    requires !GetOrdering(op, Pair(x, k)).Invalid?
    ensures OrderingBit(GetOrdering(op, Pair(x, k)), high) <==> (if high then 2 * k + 1 in x else 2 * k in x)
  {
  }

  /** A verdict for x is about x: after a successful mutation, the selection's bitsequence is x. */
  lemma MutateFaithful(ops: seq<Operation>, bits: nat, x: set<nat>, sel: Selection)
    requires Supported(sel) && Fits(ops, sel, bits, x) && Mutate(ops, bits, x, sel).ok
    ensures var ops' := Mutate(ops, bits, x, sel).ops;
            Positions(ops', sel, true) == Positions(ops, sel, true) && Encode(ops', sel, true) == x
  {
    var ps, ops' := Positions(ops, sel, true), Mutate(ops, bits, x, sel).ops;
    MutateKeepsFrame(ops, bits, x, sel);
    SameFramePositions(ops, ops', sel);
    MutateOk(ops, bits, x, sel);
    PositionsList(ops', sel, true);
    forall i: nat | i < bits
      ensures EncodedBit(ops', ps, sel.Binary(), true, i) <==> i in x
    {
      AssignedBit(ops, ops', sel, x, i);
    }
    assert Encode(ops', sel, true) == x;
  }

  lemma AssignedBit(ops: seq<Operation>, ops': seq<Operation>, sel: Selection, x: set<nat>, i: nat)
    requires Supported(sel) && HasValues(ops, ops', sel, x) && i < sel.Granularity() * |Positions(ops, sel, true)|
    ensures Indexes(Positions(ops, sel, true), ops')
    ensures EncodedBit(ops', Positions(ops, sel, true), sel.Binary(), true, i) <==> i in x
  {
    var ps := Positions(ops, sel, true);
    var k := if sel.Binary() then i / 2 else i;
    assert ops'[ps[k]] == Assigned(ops[ps[k]], ItemFor(x, sel.Binary(), k), sel.Binary());
    if sel.Binary() {
      PairBits(x, k, ops[ps[k]].kind, i % 2 == 1);
    }
  }

  /** What earlier mutations did, even one that stopped half-way, makes no difference to a successful one. */
  lemma MutateForgets(ops: seq<Operation>, bits: nat, y: set<nat>, x: set<nat>, sel: Selection)
    requires Supported(sel) && Fits(ops, sel, bits, x)
    ensures var ops1 := Mutate(ops, bits, y, sel).ops;
            && Fits(ops1, sel, bits, x)
            && Mutate(ops1, bits, x, sel).ok == Mutate(ops, bits, x, sel).ok
            && (Mutate(ops, bits, x, sel).ok ==> Mutate(ops1, bits, x, sel) == Mutate(ops, bits, x, sel))
  {
    var ops1 := Mutate(ops, bits, y, sel).ops;
    MutateKeepsFrame(ops, bits, y, sel);
    SameFrameForgets(ops, ops1, bits, x, sel);
  }

  /** The result of a successful mutation depends only on what mutations with its selection never change. */
  lemma SameFrameForgets(ops: seq<Operation>, ops1: seq<Operation>, bits: nat, x: set<nat>, sel: Selection)
    requires Supported(sel) && Fits(ops, sel, bits, x) && SameFrame(ops, ops1, sel)
    ensures Fits(ops1, sel, bits, x)
    ensures Mutate(ops1, bits, x, sel).ok == Mutate(ops, bits, x, sel).ok
    ensures Mutate(ops, bits, x, sel).ok ==> Mutate(ops1, bits, x, sel) == Mutate(ops, bits, x, sel)
  {
    SameFrameOk(ops, ops1, bits, x, sel);
    if Mutate(ops, bits, x, sel).ok {
      SameResult(ops, ops1, bits, x, sel);
    }
  }

  lemma SameResult(ops: seq<Operation>, ops1: seq<Operation>, bits: nat, x: set<nat>, sel: Selection)
    requires Supported(sel) && Fits(ops, sel, bits, x) && Fits(ops1, sel, bits, x) && SameFrame(ops, ops1, sel)
    requires Mutate(ops, bits, x, sel).ok && Mutate(ops1, bits, x, sel).ok
    ensures Mutate(ops1, bits, x, sel).ops == Mutate(ops, bits, x, sel).ops
  {
    var ps, r, r1 := Positions(ops, sel, true), Mutate(ops, bits, x, sel).ops, Mutate(ops1, bits, x, sel).ops;
    assert SameFrame(ops, r, sel) && HasValues(ops, r, sel, x) by {
      MutateKeepsFrame(ops, bits, x, sel);
      MutateOk(ops, bits, x, sel);
    }
    assert SameFrame(ops1, r1, sel) && HasValues(ops1, r1, sel, x) by {
      MutateKeepsFrame(ops1, bits, x, sel);
      MutateOk(ops1, bits, x, sel);
    }
    SameFramePositions(ops, ops1, sel);
    PositionsList(ops, sel, true);
    SameValues(ops, ops1, r, r1, ps, x, sel);
  }

  lemma SameFrameOk(ops: seq<Operation>, ops1: seq<Operation>, bits: nat, x: set<nat>, sel: Selection)
    requires Supported(sel) && Fits(ops, sel, bits, x) && SameFrame(ops, ops1, sel)
    ensures Fits(ops1, sel, bits, x) && Mutate(ops1, bits, x, sel).ok == Mutate(ops, bits, x, sel).ok
  {
    var ps := Positions(ops, sel, true);
    PositionsList(ops, sel, true);
    SameFramePositions(ops, ops1, sel);
    MutateOk(ops, bits, x, sel);
    MutateOk(ops1, bits, x, sel);
    assert KindsOf(ops1, ps) == KindsOf(ops, ps);
  }

  /** Two modules of one frame that are given the same values become the same. */
  lemma SameValues(
    ops: seq<Operation>, ops1: seq<Operation>, r: seq<Operation>, r1: seq<Operation>,
    ps: seq<nat>, x: set<nat>, sel: Selection)
    requires SameFrame(ops, ops1, sel) && SameFrame(ops, r, sel) && SameFrame(ops1, r1, sel) && Indexes(ps, ops)
    requires HasValues(ops, r, sel, x) && HasValues(ops1, r1, sel, x)
    requires ps == Positions(ops, sel, true) == Positions(ops1, sel, true)
    requires forall p: nat :: p in ps <==> p < |ops| && ops[p].Matches(sel, true)
    ensures r == r1
  {
    forall p: nat | p < |ops|
      ensures r1[p] == r[p]
    {
      assert SameOperation(ops[p], ops1[p], sel);
      if p in ps {
        var k: nat :| k < |ps| && ps[k] == p;
        assert r[ps[k]] == Assigned(ops[p], ItemFor(x, sel.Binary(), k), sel.Binary());
        assert r1[ps[k]] == Assigned(ops1[p], ItemFor(x, sel.Binary(), k), sel.Binary());
      }
    }
  }

  // ----- encoding and decoding are inverse, and inclusion is strength -----

  function Code(o: Ordering): nat {
    (if OrderingBit(o, false) then 1 else 0) + (if OrderingBit(o, true) then 2 else 0)
  }

  /** Every selected operation has an ordering that its kind can take. */
  ghost predicate Legal(ops: seq<Operation>, sel: Selection) {
    forall p :: 0 <= p < |ops| && ops[p].Matches(sel, true) ==>
      !ops[p].after.ordering.Invalid? && GetOrdering(ops[p].kind, Code(ops[p].after.ordering)) == ops[p].after.ordering
  }

  lemma EncodedPair(ops: seq<Operation>, sel: Selection, k: nat)
    requires sel.OfOrderings() && k < |Positions(ops, sel, true)|
    ensures var p := Positions(ops, sel, true)[k];
            p < |ops| && Pair(Encode(ops, sel, true), k) == Code(ops[p].after.ordering)
  {
    PositionsList(ops, sel, true);
    InEncoding(ops, sel, 2 * k);
    InEncoding(ops, sel, 2 * k + 1);
    assert 2 * k / 2 == k && (2 * k + 1) / 2 == k && 2 * k % 2 == 0 && (2 * k + 1) % 2 == 1;
    PairIsCode(Encode(ops, sel, true), k, ops[Positions(ops, sel, true)[k]].after.ordering);
  }

  lemma PairIsCode(x: set<nat>, k: nat, o: Ordering)
    requires 2 * k in x <==> OrderingBit(o, false)
    requires 2 * k + 1 in x <==> OrderingBit(o, true)
    ensures Pair(x, k) == Code(o)
  {
  }

  lemma InEncoding(ops: seq<Operation>, sel: Selection, i: nat)
    requires sel.OfOrderings()
    ensures var ps := Positions(ops, sel, true);
            && Indexes(ps, ops)
            && (i in Encode(ops, sel, true) <==>
                i / 2 < |ps| && OrderingBit(ops[ps[i / 2]].after.ordering, i % 2 == 1))
  {
    PositionsList(ops, sel, true);
    var ps := Positions(ops, sel, true);
    assert sel.Granularity() == 2;
    assert EncodedBit(ops, ps, true, true, i) <==>
        i / 2 < |ps| && OrderingBit(ops[ps[i / 2]].after.ordering, i % 2 == 1);
  }

  /** Mutating a module to its own bitsequence changes nothing. */
  lemma EncodeMutate(ops: seq<Operation>, sel: Selection)
    requires sel.OfOrderings() && Legal(ops, sel)
    ensures var x, bits := Encode(ops, sel, true), 2 * |Positions(ops, sel, true)|;
            Fits(ops, sel, bits, x) && Mutate(ops, bits, x, sel) == Mutation(ops, true)
  {
    var ps, x := Positions(ops, sel, true), Encode(ops, sel, true);
    PositionsList(ops, sel, true);
    assert sel.Granularity() == 2;
    MutateOk(ops, 2 * |ps|, x, sel);
    forall k: nat | k < |ps|
      ensures GetOrdering(ops[ps[k]].kind, Pair(x, k)) == ops[ps[k]].after.ordering
      ensures !GetOrdering(ops[ps[k]].kind, Pair(x, k)).Invalid?
    {
      assert ps[k] in ps;
      EncodedPair(ops, sel, k);
    }
    assert ValidFor(KindsOf(ops, ps), x);
    MutateKeepsFrame(ops, 2 * |ps|, x, sel);
    OwnValues(ops, Mutate(ops, 2 * |ps|, x, sel).ops, sel, x);
  }

  /** Assigning every selected operation the ordering it has changes nothing. */
  lemma OwnValues(ops: seq<Operation>, ops': seq<Operation>, sel: Selection, x: set<nat>)
    requires sel.OfOrderings() && SameFrame(ops, ops', sel) && HasValues(ops, ops', sel, x)
    requires var ps := Positions(ops, sel, true);
             forall k: nat :: k < |ps| ==> GetOrdering(ops[ps[k]].kind, Pair(x, k)) == ops[ps[k]].after.ordering
    ensures ops' == ops
  {
    var ps := Positions(ops, sel, true);
    PositionsList(ops, sel, true);
    forall p: nat | p < |ops|
      ensures ops'[p] == ops[p]
    {
      assert SameOperation(ops[p], ops'[p], sel);
      if p in ps {
        var k: nat :| k < |ps| && ps[k] == p;
        assert ops'[ps[k]] == Assigned(ops[p], ItemFor(x, true, k), true);
      }
    }
  }

  /** One encoding includes another exactly when the orderings are, one by one, at least as strong. */
  lemma InclusionIsStrength(ops: seq<Operation>, ops': seq<Operation>, sel: Selection)
    requires sel.OfOrderings() && Legal(ops, sel) && Legal(ops', sel)
    requires |Positions(ops, sel, true)| == |Positions(ops', sel, true)|
    ensures var ps, ps' := Positions(ops, sel, true), Positions(ops', sel, true);
            && Indexes(ps, ops) && Indexes(ps', ops')
            && (Encode(ops, sel, true) <= Encode(ops', sel, true) <==>
                forall k :: 0 <= k < |ps| ==>
                  WeakerOrEqual(ops[ps[k]].after.ordering, ops'[ps'[k]].after.ordering))
  {
    var ps, ps' := Positions(ops, sel, true), Positions(ops', sel, true);
    var x, x' := Encode(ops, sel, true), Encode(ops', sel, true);
    PositionsList(ops, sel, true);
    PositionsList(ops', sel, true);
    forall k: nat | k < |ps|
      ensures WeakerOrEqual(ops[ps[k]].after.ordering, ops'[ps'[k]].after.ordering) <==> PairWithin(x, x', k)
    {
      WeakerPair(ops, ops', sel, k);
    }
    PairsWithin(x, x', |ps|);
  }

  lemma WeakerPair(ops: seq<Operation>, ops': seq<Operation>, sel: Selection, k: nat)
    requires sel.OfOrderings() && Legal(ops, sel) && Legal(ops', sel)
    requires k < |Positions(ops, sel, true)| == |Positions(ops', sel, true)|
    ensures var ps, ps' := Positions(ops, sel, true), Positions(ops', sel, true);
            && Indexes(ps, ops) && Indexes(ps', ops')
            && (WeakerOrEqual(ops[ps[k]].after.ordering, ops'[ps'[k]].after.ordering) <==>
                PairWithin(Encode(ops, sel, true), Encode(ops', sel, true), k))
  {
    PositionsList(ops, sel, true);
    PositionsList(ops', sel, true);
    assert Positions(ops, sel, true)[k] in Positions(ops, sel, true);
    assert Positions(ops', sel, true)[k] in Positions(ops', sel, true);
    EncodedPair(ops, sel, k);
    EncodedPair(ops', sel, k);
  }

  ghost predicate PairWithin(x: set<nat>, y: set<nat>, k: nat) {
    (2 * k in x ==> 2 * k in y) && (2 * k + 1 in x ==> 2 * k + 1 in y)
  }

  lemma PairsWithin(x: set<nat>, y: set<nat>, m: nat)
    requires forall i :: i in x ==> i < 2 * m
    ensures x <= y <==> forall k: nat :: k < m ==> PairWithin(x, y, k)
  {
    if forall k: nat :: k < m ==> PairWithin(x, y, k) {
      forall i | i in x
        ensures i in y
      {
        assert PairWithin(x, y, i / 2);
      }
    }
  }

  /** The same through decoding: of two assignments the module can take, inclusion is weaker orderings. */
  lemma DecodeIsMonotone(kinds: seq<AtomicOp>, x: set<nat>, y: set<nat>)
    requires ValidFor(kinds, x) && ValidFor(kinds, y) && forall i :: i in x ==> i < 2 * |kinds|
    ensures x <= y <==> forall k: nat :: k < |kinds| ==>
              WeakerOrEqual(GetOrdering(kinds[k], Pair(x, k)), GetOrdering(kinds[k], Pair(y, k)))
  {
    PairsWithin(x, y, |kinds|);
    forall k: nat | k < |kinds|
      ensures PairWithin(x, y, k) <==>
              WeakerOrEqual(GetOrdering(kinds[k], Pair(x, k)), GetOrdering(kinds[k], Pair(y, k)))
    {
    }
  }
}
