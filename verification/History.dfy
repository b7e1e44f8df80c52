/** A module together with its printed versions and the log of its mutations. */
module History {
  import opened Encoding
  import opened Printing
  import opened WrapModule
  import opened Replay

  class History {
    var wrapModule: WrapModule
    var count: nat

    /** The contents of the files written so far, and the module loaded from each. */
    var hist: seq<seq<Line>>
    var mods: seq<WrapModule>

    var current: seq<Assignment>
    var recorded: seq<Assignment>

    ghost predicate Valid()
      reads this, wrapModule
    {
      && wrapModule.Valid()
      && |hist| == |mods| == count + 1
      && mods[count] == wrapModule
    }

    ghost function State(): HistoryState
      reads this, wrapModule, wrapModule.order
    {
      HistoryState(hist, wrapModule.Ops(), current, recorded)
    }

    constructor (file: seq<Line>)
      ensures Valid() && fresh(wrapModule) && fresh(wrapModule.order)
      ensures State() == Initial(file)
    {
      var wm := new WrapModule.Load(file);
      wrapModule := wm;
      count := 0;
      hist := [file];
      mods := [wm];
      current := [];
      recorded := [];
    }

    /** Logs the assignment and mutates the module, even if that fails half-way. */
    method Mutate(a: Assignment) returns (ok: bool)
      requires Valid() && a.bs.Valid()
      requires a.bs.bits / a.sel.Granularity() <= |Positions(wrapModule.Ops(), a.sel, true)|
      modifies this`current, wrapModule.order
      ensures Valid() && State() == Step(old(State()), Mutated(a))
      ensures current == old(current) + [a] && recorded == old(recorded) && hist == old(hist)
      ensures Mutation(wrapModule.Ops(), ok) == Encoding.Mutate(old(wrapModule.Ops()), a.bs.bits, a.bs.Ix(), a.sel)
    {
      AppendMutation(a);
      ok := wrapModule.Mutate(a.bs, a.sel);
    }

    /** Prints the module, goes on with the module read back from that, and records its mutations. */
    method Record()
      requires Valid()
      modifies this
      ensures Valid() && State() == Step(old(State()), Recorded)
      ensures recorded == old(recorded) + old(current) && current == []
      ensures hist == old(hist) + [Printed(old(wrapModule.Ops()))] && wrapModule.Ops() == Loaded(hist[|hist| - 1])
      ensures fresh(wrapModule) && fresh(wrapModule.order)
    {
      count := count + 1;
      var file := wrapModule.Print();
      var wm := new WrapModule.Load(file);
      hist := hist + [file];
      mods := mods + [wm];
      wrapModule := wm;
      RecordMut();
    }

    /** Goes back to the last printed version and drops the mutations since. */
    method Forget()
      requires Valid()
      modifies this
      ensures Valid() && State() == Step(old(State()), Forgotten)
      ensures recorded == old(recorded) && current == [] && hist == old(hist)
      ensures wrapModule.Ops() == Loaded(hist[|hist| - 1])
      ensures fresh(wrapModule) && fresh(wrapModule.order)
    {
      var wm := new WrapModule.Load(hist[|hist| - 1]);
      mods := mods[|mods| - 1 := wm];
      wrapModule := wm;
      ClearMut();
    }

    method RecordMut()
      modifies this`recorded, this`current
      ensures recorded == old(recorded + current) && current == []
    {
      var muts := current;
      if |muts| > 0 {
        recorded := recorded + muts;
      }
      ClearMut();
    }

    method ClearMut()
      modifies this`current
      ensures current == []
    {
      current := [];
    }

    method AppendMutation(mut: Assignment)
      modifies this`current
      ensures current == old(current) + [mut]
    {
      current := current + [mut];
    }

    /** The replay of PrintDiff: the original file with all assignments applied, up to one that fails. */
    method ReplayOriginal() returns (first: WrapModule, ok: bool)
      requires Valid() && InRange(Loaded(hist[0]), recorded + current)
      requires forall a :: a in recorded + current ==> a.bs.Valid()
      ensures first.Valid() && fresh(first) && fresh(first.order)
      ensures Mutation(first.Ops(), ok) == Replayed(State())
      ensures Consistent(State()) && Lossless(State()) ==> ok && Alike(first.Ops(), wrapModule.Ops())
    {
      if Consistent(State()) && Lossless(State()) {
        LosslessAgrees(State());
      }
      first := new WrapModule.Load(hist[0]);
      ok := ApplyList(first, recorded + current, Loaded(hist[0]));
    }
  }

  /** No assignment of the list has more values than its selection has operations when its turn comes. */
  ghost predicate InRange(ops: seq<Operation>, todo: seq<Assignment>) {
    forall k :: 0 <= k < |todo| && ApplyAll(ops, todo[..k]).ok ==>
      todo[k].bs.bits / todo[k].sel.Granularity()
        <= |Positions(ApplyAll(ops, todo[..k]).ops, todo[k].sel, true)|
  }

  method ApplyList(m: WrapModule, todo: seq<Assignment>, ghost ops: seq<Operation>) returns (ok: bool)
    requires m.Valid() && m.Ops() == ops && InRange(ops, todo)
    requires forall a :: a in todo ==> a.bs.Valid()
    modifies m.order
    ensures Mutation(m.Ops(), ok) == ApplyAll(ops, todo)
  {
    for k := 0 to |todo|
      invariant ApplyAll(ops, todo[..k]) == Mutation(m.Ops(), true)
    {
      assert todo[..k + 1][..k] == todo[..k];
      var done := m.Mutate(todo[k].bs, todo[k].sel);
      if !done {
        FailureStays(ops, todo, k + 1);
        return false;
      }
    }
    assert todo[..|todo|] == todo;
    ok := true;
  }

  /** Once an assignment has failed, the rest of the list is not applied. */
  lemma {:induction false} FailureStays(ops: seq<Operation>, todo: seq<Assignment>, k: nat)
    requires k <= |todo| && !ApplyAll(ops, todo[..k]).ok
    ensures ApplyAll(ops, todo) == ApplyAll(ops, todo[..k])
    decreases |todo|
  {
    if k == |todo| {
      assert todo[..k] == todo;
    } else {
      var init := todo[..|todo| - 1];
      assert init[..k] == todo[..k];
      FailureStays(ops, init, k);
    }
  }
}
