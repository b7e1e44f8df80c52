/** A loaded module: its operations as shared mutable objects, found by id. */
module WrapModule {
  import opened Ordering
  import opened Delta
  import opened Bitseqs
  import opened Encoding
  import opened Printing

  /** An operation with its original and its current values. */
  class Inst {
    const kind: AtomicOp
    const before: Values
    var after: Values

    constructor (kind: AtomicOp, before: Values)
      ensures State() == Operation(kind, before, before)
    {
      this.kind := kind;
      this.before := before;
      this.after := before;
    }

    function State(): Operation
      reads this
    {
      Operation(kind, before, after)
    }

    method SetOrdering(o: Ordering)
      modifies this
      ensures after == old(after).(ordering := o)
    {
      after := after.(ordering := o);
    }

    method SetAtomic(a: bool)
      modifies this
      ensures after == old(after).(atomic := a)
    {
      after := after.(atomic := a);
    }
  }

  /** The values of a list of operations. */
  ghost function States(list: seq<Inst>): (ops: seq<Operation>)
    reads list
    ensures |ops| == |list| && forall p :: 0 <= p < |list| ==> ops[p] == list[p].State()
  {
    seq(|list|, p requires 0 <= p < |list| reads list => list[p].State())
  }

  class WrapModule {
    /** The operations by id. */
    var insts: map<nat, Inst>

    /** The operations in the order of their ids. */
    ghost var order: seq<Inst>

    /** Ids are dense from 1 on, and each operation has its own object. */
    ghost predicate Valid()
      reads this
    {
      && (forall id: nat :: id in insts <==> 1 <= id <= |order|)
      && (forall id: nat :: id in insts ==> insts[id] == order[id - 1])
      && (forall p, q :: 0 <= p < q < |order| ==> order[p] != order[q])
    }

    ghost function Ops(): seq<Operation>
      reads this, order
    {
      States(order)
    }

    constructor ()
      ensures Valid() && order == []
    {
      insts := map[];
      order := [];
    }

    /** Reads a printed module: one operation for each line, with the next free id. */
    constructor Load(file: seq<Line>)
      ensures Valid() && fresh(order) && Ops() == Loaded(file)
    {
      insts := map[];
      order := [];
      new;
      for k := 0 to |file|
        invariant Valid() && fresh(order) && Ops() == Loaded(file)[..k]
      {
        var inst := new Inst(file[k].kind, file[k].values);
        AddInst(k + 1, inst);
      }
    }

    /** The text of the module. */
    method Print() returns (file: seq<Line>)
      requires Valid()
      ensures file == Printed(Ops())
      ensures exists shown :: Shows(file, Ops(), shown)
    {
      file := [];
      for p := 0 to |insts|
        invariant p <= |order| && file == Printed(Ops()[..p])
      {
        KeysDense();
        var op := insts[p + 1].State();
        assert Ops()[..p + 1][..p] == Ops()[..p] && Ops()[..p + 1][p] == op;
        if !Silent(op) {
          file := file + [Line(op.kind, PrintedValues(op))];
        }
      }
      KeysDense();
      assert Ops()[..|order|] == Ops();
      ghost var shown := PrintedShows(Ops());
    }

    lemma KeysDense()
      requires Valid()
      ensures |insts| == |order|
    {
      IdsCount(insts.Keys, |order|);
    }

    method AddInst(id: nat, inst: Inst)
      requires Valid() && id == |order| + 1 && inst !in order
      modifies this
      ensures Valid() && order == old(order) + [inst]
    {
      insts := insts[id := inst];
      order := order + [inst];
    }

    /** The operations of a selection, by id. */
    method Get(sel: Selection, after: bool) returns (found: map<nat, Inst>)
      requires Valid()
      ensures forall id :: id in found <==> id in insts && insts[id].State().Matches(sel, after)
      ensures forall id :: id in found ==> found[id] == insts[id]
      ensures forall id :: id in found <==>
                && id in insts
                && var i := insts[id]; Selects(sel, i.kind, if after then i.after.atomic else i.before.atomic)
    {
      found := map[];
      var rest := insts.Keys;
      while rest != {}
        invariant rest <= insts.Keys
        invariant forall id :: id in found <==> id in insts && id !in rest && insts[id].State().Matches(sel, after)
        invariant forall id :: id in found ==> found[id] == insts[id]
        decreases |rest|
      {
        var id :| id in rest;
        if insts[id].State().Matches(sel, after) {
          found := found[id := insts[id]];
        }
        rest := rest - {id};
      }
      forall id | id in insts
        ensures var i := insts[id];
                i.State().Matches(sel, after) <==>
                  Selects(sel, i.kind, if after then i.after.atomic else i.before.atomic)
      {
        MatchesByKind(insts[id].State(), sel, after);
      }
    }

    /** The ids of a selection, in ascending order, are the positions of its operations plus one. */
    method SelectedKeys(sel: Selection, after: bool) returns (keys: seq<nat>)
      requires Valid()
      ensures Denote(keys, Positions(Ops(), sel, after))
    {
      var wi := Get(sel, after);
      keys := SortedKeys(wi.Keys);
      ghost var ps := Positions(Ops(), sel, after);
      PositionsList(Ops(), sel, after);
      forall id: nat
        ensures id in wi.Keys <==> id > 0 && id - 1 in ps
      {
        assert id > 0 && id - 1 < |order| ==> Ops()[id - 1] == order[id - 1].State();
      }
      KeysDenote(keys, ps);
    }

    /** keys are the ids of the operations at positions ps. */
    ghost predicate Denote(keys: seq<nat>, ps: seq<nat>)
      reads this
    {
      |keys| == |ps| && forall k :: 0 <= k < |ps| ==> keys[k] == ps[k] + 1 && ps[k] < |order|
    }

    lemma KeysDenote(keys: seq<nat>, ps: seq<nat>)
      requires Increasing(keys) && Increasing(ps)
      requires forall id: nat :: id in Elements(keys) <==> id > 0 && id - 1 in ps
      requires forall p :: p in ps ==> p < |order|
      ensures Denote(keys, ps)
    {
      var ids: seq<nat> := seq(|ps|, k requires 0 <= k < |ps| => ps[k] + 1);
      forall id: nat
        ensures id in ids <==> id > 0 && id - 1 in ps
      {
        if id > 0 && id - 1 in ps {
          var k :| 0 <= k < |ps| && ps[k] == id - 1;
          assert ids[k] == id;
        }
      }
      assert Elements(keys) == Elements(ids);
      assert forall k :: 0 <= k < |ps| ==> ps[k] in ps;
      IncreasingUnique(keys, ids);
    }

    /** The bitsequence of a selection. */
    method Bitseq(sel: Selection, after: bool) returns (bs: Bitseq)
      requires Valid()
      ensures bs.Valid() && bs.bits == sel.Granularity() * |Positions(Ops(), sel, after)|
      ensures sel.Granularity() == if sel.SelectionLoads? || sel.SelectionStores? || sel.SelectionPlain? then 1 else 2
      ensures bs.Ix() == Encode(Ops(), sel, after)
    {
      var keys := SelectedKeys(sel, after);
      ghost var ps := Positions(Ops(), sel, after);
      PositionsList(Ops(), sel, after);
      if sel.Binary() {
        bs := BitseqModes(keys, after, ps);
      } else {
        bs := BitseqBinary(keys, after, ps);
      }
    }

    method BitseqModes(keys: seq<nat>, after: bool, ghost ps: seq<nat>) returns (bs: Bitseq)
      requires Valid() && Denote(keys, ps) && Indexes(ps, Ops())
      ensures bs.Valid() && bs.bits == 2 * |keys|
      ensures forall i: nat :: i in bs.Ix() <==> i < 2 * |ps| && EncodedBit(Ops(), ps, true, after, i)
    {
      bs := NewBitseq(0);
      bs := bs.Fit(2 * |keys|);
      ghost var ops := Ops();
      for j := 0 to |keys|
        invariant bs.Valid() && bs.bits == 2 * |keys| && EncodedBelow(bs.Ix(), ops, ps, after, j)
      {
        var o := insts[keys[j]].State().Get(after).ordering;
        assert o == ops[ps[j]].Get(after).ordering;
        ghost var x := bs.Ix();
        bs := SetPair(bs, 2 * j, o);
        EncodedNext(x, bs.Ix(), ops, ps, after, j, o);
      }
    }

    method BitseqBinary(keys: seq<nat>, after: bool, ghost ps: seq<nat>) returns (bs: Bitseq)
      requires Valid() && Denote(keys, ps) && Indexes(ps, Ops())
      ensures bs.Valid() && bs.bits == |keys|
      ensures forall i: nat :: i in bs.Ix() <==> i < |ps| && EncodedBit(Ops(), ps, false, after, i)
    {
      bs := NewBitseq(0);
      bs := bs.Fit(|keys|);
      for i := 0 to |keys|
        invariant bs.Valid() && bs.bits == |keys|
        invariant forall j: nat :: j in bs.Ix() <==> j < i && EncodedBit(Ops(), ps, false, after, j)
      {
        var inst := insts[keys[i]];
        assert inst.State() == Ops()[ps[i]];
        if inst.State().Get(after).atomic {
          bs := bs.Set([i]);
        }
      }
    }

    /** Gives the selected operations the values of bs, stopping at the first pair one cannot take. */
    method Mutate(bs: Bitseq, sel: Selection) returns (ok: bool)
      requires Valid() && bs.Valid()
      requires bs.bits / sel.Granularity() <= |Positions(Ops(), sel, true)|
      modifies order
      ensures Mutation(Ops(), ok) == Encoding.Mutate(old(Ops()), bs.bits, bs.Ix(), sel)
    {
      var keys := SelectedKeys(sel, true);
      ghost var ps := Positions(Ops(), sel, true);
      PositionsList(Ops(), sel, true);
      var vals := bs.Translate(sel.Granularity());
      if vals.Err? {
        return false;
      }
      ok := MutateItems(keys, vals.value, sel, ps, bs.Ix());
    }

    /** The callback of Translate, run for one value after the other. */
    method MutateItems(keys: seq<nat>, vals: seq<nat>, sel: Selection, ghost ps: seq<nat>, ghost x: set<nat>)
      returns (ok: bool)
      requires Valid() && Denote(keys, ps) && Indexes(ps, Ops()) && |vals| <= |ps|
      requires forall k: nat :: k < |vals| ==> vals[k] == ItemFor(x, sel.Binary(), k)
      modifies order
      ensures Mutation(Ops(), ok) == MutateFrom(old(Ops()), ps, x, sel.Binary(), 0, |vals|)
    {
      ghost var all := MutateFrom(Ops(), ps, x, sel.Binary(), 0, |vals|);
      for k := 0 to |vals|
        invariant Indexes(ps, Ops()) && MutateFrom(Ops(), ps, x, sel.Binary(), k, |vals|) == all
      {
        var taken := NextItem(keys[k], vals[k], sel, ps, x, k, |vals|);
        if !taken {
          return false;
        }
      }
      ok := true;
    }

    /** The k-th value: what remains to be done then, or that nothing does. */
    method NextItem(id: nat, val: nat, sel: Selection, ghost ps: seq<nat>, ghost x: set<nat>, ghost k: nat, ghost m: nat)
      returns (ok: bool)
      requires Valid() && k < m <= |ps| && Indexes(ps, Ops()) && id == ps[k] + 1 && val == ItemFor(x, sel.Binary(), k)
      modifies order
      ensures |Ops()| == old(|Ops()|)
      ensures old(MutateFrom(Ops(), ps, x, sel.Binary(), k, m))
           == if ok then MutateFrom(Ops(), ps, x, sel.Binary(), k + 1, m) else Mutation(Ops(), false)
    {
      ghost var ops := Ops();
      ok := AssignItem(id, val, sel);
      assert ok <==> CanTake(ops[ps[k]], val, sel.Binary());
    }

    /** Gives one operation its value, if it can take it. */
    method AssignItem(id: nat, val: nat, sel: Selection) returns (ok: bool)
      requires Valid() && id in insts
      modifies order[id - 1]
      ensures var ops, p, modes := old(Ops()), id - 1, sel.Binary();
              && (ok <==> CanTake(ops[p], val, modes))
              && Ops() == if ok then ops[p := Assigned(ops[p], val, modes)] else ops
      ensures var i := insts[id];
              ok ==>
                if sel.SelectionLoads? || sel.SelectionStores? || sel.SelectionPlain? then
                  i.after == if val == 1 then Values(SeqCst, true) else Values(Ordering.Invalid, false)
                else i.after == Values(GetOrdering(i.kind, val), old(i.after.atomic))
    {
      var inst := insts[id];
      if sel.Binary() {
        var o := GetOrdering(inst.kind, val);
        if o.Invalid? {
          return false;
        }
        inst.SetOrdering(o);
      } else if val == 1 {
        inst.SetAtomic(true);
        inst.SetOrdering(SeqCst);
      } else {
        inst.SetAtomic(false);
        inst.SetOrdering(Ordering.Invalid);
      }
      ok := true;
    }
  }

  /** The operations before the j-th selected one are encoded, and nothing else. */
  ghost predicate EncodedBelow(x: set<nat>, ops: seq<Operation>, ps: seq<nat>, after: bool, j: nat)
    requires Indexes(ps, ops)
  {
    forall i: nat :: i in x <==> i < 2 * j && EncodedBit(ops, ps, true, after, i)
  }

  /** The bits of one ordering at i and i + 1. */
  ghost function PairOf(i: nat, o: Ordering): set<nat> {
    (if OrderingBit(o, false) then {i} else {}) + (if OrderingBit(o, true) then {i + 1} else {})
  }

  method SetPair(bs: Bitseq, i: nat, o: Ordering) returns (r: Bitseq)
    requires bs.Valid() && i + 1 < bs.bits
    ensures r.Valid() && r.bits == bs.bits && r.Ix() == bs.Ix() + PairOf(i, o)
  {
    GrownWithin(bs.bits, [i]);
    GrownWithin(bs.bits, [i + 1]);
    GrownWithin(bs.bits, [i, i + 1]);
    r := bs;
    match o {
      case Relaxed =>
      case Release => r := bs.Set([i]);
      case Acquire => r := bs.Set([i + 1]);
      case SeqCst => r := bs.Set([i, i + 1]);
      case Invalid =>
    }
  }

  lemma EncodedNext(x: set<nat>, y: set<nat>, ops: seq<Operation>, ps: seq<nat>, after: bool, j: nat, o: Ordering)
    requires Indexes(ps, ops) && j < |ps| && EncodedBelow(x, ops, ps, after, j)
    requires o == ops[ps[j]].Get(after).ordering && y == x + PairOf(2 * j, o)
    ensures EncodedBelow(y, ops, ps, after, j + 1)
  {
    forall i: nat
      ensures i in y <==> i < 2 * (j + 1) && EncodedBit(ops, ps, true, after, i)
    {
      if i == 2 * j || i == 2 * j + 1 {
        assert i / 2 == j;
      }
    }
  }

  lemma {:induction false} IdsCount(ids: set<nat>, n: nat)
    requires forall id: nat :: id in ids <==> 1 <= id <= n
    ensures |ids| == n
  {
    if n > 0 {
      IdsCount(ids - {n}, n - 1);
    }
  }

  /** Collects keys and sorts them. */
  method SortedKeys(ids: set<nat>) returns (keys: seq<nat>)
    ensures Increasing(keys) && Elements(keys) == ids
  {
    keys := [];
    var rest := ids;
    while rest != {}
      invariant rest <= ids && Increasing(keys)
      invariant Elements(keys) == ids - rest
      invariant forall a, b :: a in Elements(keys) && b in rest ==> a < b
      decreases |rest|
    {
      var id := Least(rest);
      IncreasingMore(keys, id);
      keys := keys + [id];
      rest := rest - {id};
    }
  }

  lemma IncreasingMore(d: seq<nat>, v: nat)
    requires Increasing(d) && forall u :: u in Elements(d) ==> u < v
    ensures Increasing(d + [v]) && Elements(d + [v]) == Elements(d) + {v}
  {
    assert forall j :: 0 <= j < |d| ==> d[j] in Elements(d);
    ElementsConcat(d, [v]);
    assert Elements([v]) == {v};
  }

  method Least(s: set<nat>) returns (m: nat)
    requires s != {}
    ensures m in s && forall v :: v in s ==> m <= v
  {
    m :| m in s;
    var rest := s - {m};
    while rest != {}
      invariant rest <= s && m in s
      invariant forall v :: v in s ==> v in rest || m <= v
      decreases |rest|
    {
      var v :| v in rest;
      if v < m {
        m := v;
      }
      rest := rest - {v};
    }
  }
}
