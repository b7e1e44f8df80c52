/** What a module's operations look like when it is printed, and what is read back from that. */
module Printing {
  import Ordering
  import opened Encoding
  import opened Delta

  /** An operation as the text of a module shows it. */
  datatype Line = Line(kind: Ordering.AtomicOp, values: Values)

  /** The values printed for an operation: a changed one is rewritten, an unchanged one left as it was. */
  function PrintedValues(op: Operation): Values {
    if op.before == op.after then op.before
    else if !op.after.atomic then Values(Ordering.Ordering.Invalid, false)
    else if op.after.ordering.Invalid? then Values(Ordering.SeqCst, true)
    else op.after
  }

  /** A relaxed fence prints nothing at all. */
  predicate Silent(op: Operation) {
    op.kind.Fence? && op.after.ordering.Relaxed?
  }

  function Printed(ops: seq<Operation>): seq<Line> {
    if ops == [] then []
    else
      var l := |ops| - 1;
      Printed(ops[..l]) + if Silent(ops[l]) then [] else [Line(ops[l].kind, PrintedValues(ops[l]))]
  }

  /**
   The file has one line for each operation that is not a relaxed fence, in order: its kind, and the values as they
   were when nothing has changed. A changed operation that is no longer atomic has no ordering, and one that has
   become atomic without being given an ordering is sequentially consistent.
   */
  ghost predicate Shows(file: seq<Line>, ops: seq<Operation>, shown: seq<nat>) {
    && |file| == |shown| && Increasing(shown)
    && (forall p: nat :: p in shown <==> p < |ops| && !(ops[p].kind.Fence? && ops[p].after.ordering.Relaxed?))
    && (forall k :: 0 <= k < |shown| && shown[k] < |ops| ==>
          var op, line := ops[shown[k]], file[k];
          && line.kind == op.kind
          && (op.after == op.before ==> line.values == op.before)
          && (op.after != op.before ==>
                && (!op.after.atomic ==> line.values == Values(Ordering.Ordering.Invalid, false))
                && (op.after.atomic && op.after.ordering.Invalid? ==> line.values == Values(Ordering.SeqCst, true))
                && (op.after.atomic && !op.after.ordering.Invalid? ==> line.values == op.after)))
  }

  /** Printing shows just that. */
  lemma {:induction false} PrintedShows(ops: seq<Operation>) returns (shown: seq<nat>)
    ensures Shows(Printed(ops), ops, shown)
  {
    shown := [];
    if ops != [] {
      var l := |ops| - 1;
      shown := PrintedShows(ops[..l]);
      ShowsMore(Printed(ops[..l]), ops, shown);
      if !Silent(ops[l]) {
        shown := shown + [l];
      }
    }
  }

  lemma ShowsMore(file: seq<Line>, ops: seq<Operation>, shown: seq<nat>)
    requires ops != [] && Shows(file, ops[..|ops| - 1], shown)
    ensures var last := ops[|ops| - 1];
            if Silent(last) then Shows(file, ops, shown)
            else Shows(file + [Line(last.kind, PrintedValues(last))], ops, shown + [|ops| - 1])
  {
    var l := |ops| - 1;
    assert forall p: nat :: p < l ==> ops[..l][p] == ops[p];
    assert forall k :: 0 <= k < |shown| ==> shown[k] in shown;
    AppendIndex(shown, l);
  }

  /** The operations of a printed module, as analysed after parsing it. */
  function Loaded(file: seq<Line>): (ops: seq<Operation>)
    ensures |ops| == |file|
    ensures forall p :: 0 <= p < |file| ==> ops[p] == Operation(file[p].kind, file[p].values, file[p].values)
  {
    seq(|file|, p requires 0 <= p < |file| => Operation(file[p].kind, file[p].values, file[p].values))
  }
}
