/**
 What a compare-exchange prints. It has two orderings in the text of a module but only one in an
 assignment, and printing it while it is mutated overwrites the one that was parsed for failure.
 */
module CompareExchange {
  import O = Ordering

  /** The orderings of the module's text. */
  datatype AtomicOrdering =
    | NotAtomic | Unordered | Monotonic | Acquire | Release | AcquireRelease | SequentiallyConsistent

  function FromAtomicOrdering(a: AtomicOrdering): O.Ordering {
    match a
    case Monotonic => O.Relaxed
    case Release => O.Release
    case Acquire => O.Acquire
    case SequentiallyConsistent => O.SeqCst
    case _ => O.Invalid
  }

  function ToAtomicOrdering(o: O.Ordering): AtomicOrdering {
    match o
    case Relaxed => Monotonic
    case Release => Release
    case Acquire => Acquire
    case SeqCst => SequentiallyConsistent
    case Invalid => NotAtomic
  }

  /** The failure ordering that goes with a rewritten success ordering. */
  function FailureFor(success: AtomicOrdering): AtomicOrdering {
    if success.Release? then Monotonic else success
  }

  /** The orderings in the text, and the original and the current one of the assignment. */
  datatype Exchange = Exchange(success: AtomicOrdering, failure: AtomicOrdering, before: O.Ordering, after: O.Ordering)

  function Parsed(success: AtomicOrdering, failure: AtomicOrdering): Exchange {
    Exchange(success, failure, FromAtomicOrdering(success), FromAtomicOrdering(success))
  }

  /** Success and failure ordering printed for an exchange. */
  function Text(x: Exchange): (AtomicOrdering, AtomicOrdering) {
    if x.before == x.after then (x.success, x.failure)
    else
      var s := if x.after.Invalid? then SequentiallyConsistent else ToAtomicOrdering(x.after);
      (s, FailureFor(s))
  }

  /** What printing leaves behind. */
  function Restored(x: Exchange): Exchange {
    if x.before == x.after then x
    else
      var s := ToAtomicOrdering(x.before);
      x.(success := s, failure := FailureFor(s))
  }

  /** The success and failure ordering of a compare-exchange that has been given an ordering. */
  function Shown(o: O.Ordering): (AtomicOrdering, AtomicOrdering) {
    match o
    case Relaxed => (Monotonic, Monotonic)
    case Release => (Release, Monotonic)
    case Acquire => (Acquire, Acquire)
    case SeqCst => (SequentiallyConsistent, SequentiallyConsistent)
    case Invalid => (SequentiallyConsistent, SequentiallyConsistent)
  }

  /** Which orderings of the text can be read as one of an assignment, and that they are printed back. */
  lemma ShownPair(o: O.Ordering)
    ensures !o.Invalid? ==> Shown(o) == (ToAtomicOrdering(o), FailureFor(ToAtomicOrdering(o)))
    ensures !o.Invalid? ==> FromAtomicOrdering(Shown(o).0) == o
    ensures forall a: AtomicOrdering ::
              FromAtomicOrdering(a).Invalid? <==> a.NotAtomic? || a.Unordered? || a.AcquireRelease?
  {
  }

  class WrapInstCmpXchg {
    var success: AtomicOrdering
    var failure: AtomicOrdering
    const before: O.Ordering
    var after: O.Ordering

    function Value(): Exchange
      reads this
    {
      Exchange(success, failure, before, after)
    }

    constructor (success: AtomicOrdering, failure: AtomicOrdering)
      ensures Value() == Parsed(success, failure)
    {
      this.success, this.failure := success, failure;
      before, after := FromAtomicOrdering(success), FromAtomicOrdering(success);
    }

    method SetOrdering(o: O.Ordering)
      modifies this
      ensures Value() == old(Value()).(after := o)
    {
      after := o;
    }

    method Mutate() returns (o: AtomicOrdering)
      ensures o == if after.Invalid? then SequentiallyConsistent else ToAtomicOrdering(after)
    {
      o := if after.Invalid? then SequentiallyConsistent else ToAtomicOrdering(after);
    }

    method LLString() returns (text: (AtomicOrdering, AtomicOrdering))
      modifies this
      ensures text == Text(old(Value())) && Value() == Restored(old(Value()))
      ensures before == old(after) ==> text == (old(success), old(failure)) && Value() == old(Value())
      ensures before != old(after) ==> text == Shown(old(after)) && after == old(after)
      ensures before != old(after) ==>
                (success, failure) == if before.Invalid? then (NotAtomic, NotAtomic) else Shown(before)
    {
      ShownPair(before);
      ShownPair(after);
      if before == after {
        return (success, failure);
      }
      success := Mutate();
      failure := success;
      if failure.Release? {
        failure := Monotonic;
      }
      text := (success, failure);
      success := ToAtomicOrdering(before);
      failure := success;
      if failure.Release? {
        failure := Monotonic;
      }
    }
  }

  // ----- whether what is printed depends on what was printed before -----

  /** Orderings an assignment can give a compare-exchange. */
  ghost predicate Assignable(run: seq<O.Ordering>) {
    forall k :: 0 <= k < |run| ==> !run[k].Invalid?
  }

  /** The exchange after it was given these orderings one after the other and printed with each. */
  ghost function After(x: Exchange, run: seq<O.Ordering>): Exchange {
    if run == [] then x
    else
      var l := |run| - 1;
      Restored(After(x, run[..l]).(after := run[l]))
  }

  /** Whatever was printed before, an assigned ordering prints as it would have at first. */
  ghost predicate HistoryFree(x: Exchange) {
    forall run, o: O.Ordering | Assignable(run) && !o.Invalid? ::
      Text(After(x, run).(after := o)) == Text(x.(after := o))
  }

  /** Only the failure ordering is ever lost, and only by a print of a mutated exchange. */
  lemma {:induction false} AfterKeeps(success: AtomicOrdering, failure: AtomicOrdering, run: seq<O.Ordering>)
    requires Assignable(run) && !FromAtomicOrdering(success).Invalid?
    ensures var x := After(Parsed(success, failure), run);
            && x.success == success && x.before == FromAtomicOrdering(success)
            && x.failure == if (forall k :: 0 <= k < |run| ==> run[k] == x.before) then failure else FailureFor(success)
  {
    if run != [] {
      var l := |run| - 1;
      AfterKeeps(success, failure, run[..l]);
      assert ToAtomicOrdering(FromAtomicOrdering(success)) == success;
      assert forall k :: 0 <= k < l ==> run[..l][k] == run[k];
    }
  }

  lemma {:induction false} AfterBefore(x: Exchange, run: seq<O.Ordering>)
    ensures After(x, run).before == x.before
  {
    if run != [] {
      AfterBefore(x, run[..|run| - 1]);
    }
  }

  /**
   What a compare-exchange prints does not depend on the past if and only if its failure ordering is the
   one its success ordering would be given, or its success ordering is one that assignments cannot express.
   */
  lemma PrintsForget(success: AtomicOrdering, failure: AtomicOrdering)
    ensures HistoryFree(Parsed(success, failure)) <==>
            FromAtomicOrdering(success).Invalid? || failure == FailureFor(success)
  {
    var x := Parsed(success, failure);
    if x.before.Invalid? || failure == FailureFor(success) {
      forall run, o: O.Ordering | Assignable(run) && !o.Invalid?
        ensures Text(After(x, run).(after := o)) == Text(x.(after := o))
      {
        AfterBefore(x, run);
        if !x.before.Invalid? {
          AfterKeeps(success, failure, run);
        }
      }
    } else {
      var other := if x.before.Relaxed? then O.SeqCst else O.Relaxed;
      AfterKeeps(success, failure, [other]);
      assert After(x, [other]).failure == FailureFor(success) by {
        assert [other][0] != x.before;
      }
      assert Text(After(x, [other]).(after := x.before)) != Text(x.(after := x.before));
    }
  }
}
