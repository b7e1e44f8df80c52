/** Memory orderings, kinds of atomic operations, and the bit pairs each kind can take. */
module Ordering {

  datatype Ordering = Invalid | SeqCst | Acquire | Release | Relaxed

  datatype AtomicOp = InvalidOp | Fence | RMW | Load | Store | Cmpxchg

  /** The ordering a bit pair stands for; a pair that is not in the table of the kind gives Invalid. */
  function GetOrdering(op: AtomicOp, val: nat): Ordering {
    match (op, val)
    case (InvalidOp, _) => Invalid
    case (Load, 1) => Invalid
    case (Store, 2) => Invalid
    case (_, 0) => Relaxed
    case (_, 1) => Release
    case (_, 2) => Acquire
    case (_, 3) => SeqCst
    case _ => Invalid
  }

  /** The value of the k-th bit pair of an assignment. */
  ghost function Pair(x: set<nat>, k: nat): nat {
    (if 2 * k in x then 1 else 0) + (if 2 * k + 1 in x then 2 else 0)
  }

  /**
   What the two bits of an operation say: the lower one gives it release strength, the upper one acquire strength.
   A load cannot have release strength alone, a store not acquire strength alone.
   */
  lemma PairMeans(op: AtomicOp, x: set<nat>, k: nat)
    requires !op.InvalidOp?
    ensures var o, release, acquire := GetOrdering(op, Pair(x, k)), 2 * k in x, 2 * k + 1 in x;
            && (o.Relaxed? <==> !release && !acquire)
            && (o.Release? <==> release && !acquire && !op.Load?)
            && (o.Acquire? <==> acquire && !release && !op.Store?)
            && (o.SeqCst? <==> release && acquire)
            && (o.Invalid? <==> (op.Load? && release && !acquire) || (op.Store? && acquire && !release))
  {
  }

  /** The assignments a selection of operations of these kinds can be mutated to. */
  ghost predicate ValidFor(kinds: seq<AtomicOp>, x: set<nat>) {
    forall k :: 0 <= k < |kinds| ==> !GetOrdering(kinds[k], Pair(x, k)).Invalid?
  }

  /** Relaxed is weaker than Release and Acquire, which are incomparable and weaker than SeqCst. */
  predicate WeakerOrEqual(a: Ordering, b: Ordering) {
    a == b || a.Relaxed? || b.SeqCst?
  }

  /** Valid assignments are closed under weakening exactly when there is neither a load nor a store. */
  lemma ValidDownClosed(kinds: seq<AtomicOp>)
    requires forall k :: 0 <= k < |kinds| ==> !kinds[k].InvalidOp?
    ensures (forall x, y :: y <= x && ValidFor(kinds, x) ==> ValidFor(kinds, y)) <==>
            forall k :: 0 <= k < |kinds| ==> !kinds[k].Load? && !kinds[k].Store?
  {
    forall k | 0 <= k < |kinds| && (kinds[k].Load? || kinds[k].Store?)
      ensures exists x, y :: y <= x && ValidFor(kinds, x) && !ValidFor(kinds, y)
    {
      var x: set<nat> := {2 * k, 2 * k + 1};
      var y: set<nat> := if kinds[k].Load? then {2 * k} else {2 * k + 1};
      assert Pair(x, k) == 3 && Pair(y, k) == if kinds[k].Load? then 1 else 2;
      assert GetOrdering(kinds[k], Pair(y, k)).Invalid?;
      assert forall j :: 0 <= j < |kinds| && j != k ==> Pair(x, j) == 0;
      assert y <= x && ValidFor(kinds, x) && !ValidFor(kinds, y);
    }
    if forall k :: 0 <= k < |kinds| ==> !kinds[k].Load? && !kinds[k].Store? {
      assert forall x :: ValidFor(kinds, x) by {
        assert forall x, k :: 0 <= k < |kinds| ==> !GetOrdering(kinds[k], Pair(x, k)).Invalid?;
      }
    }
  }
}
