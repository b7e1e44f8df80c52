/**
 The depth-first visit of a program's call graph that replaces every tracked operation by a wrapper,
 in the very instruction lists it is walking over.
 */
module Visitor {
  import Sets
  import opened Wrappers

  type Value = nat
  type Func = nat

  /** What a thread-creating call is told to run. */
  datatype Operand = AFunc(f: Func) | AnArg(arg: Option<Func>) | Neither

  /** What an ordinary call calls. */
  datatype Callee = InlineAsm | FunctionPointer | Function(f: Func) | BitCast(from: Option<Func>) | Strange

  datatype CallKind =
    | PthreadCreate(run: Operand)
    | VerifierCreate(run: Operand)
    | Named(ignored: bool, callee: Callee)

  /** An instruction, with what the analysis looks at: debug information and the values it accesses. */
  datatype Inst =
    | Alloca(v: Value)
    | AtomicRMW
    | Fence
    | CmpXchg
    | Load(dbg: bool, src: Value)
    | Store(dbg: bool, dst: Value, fromParam: bool)
    | Call(kind: CallKind, declares: Option<Value>)
    | Other

  /** An entry of an instruction list: the instruction parsed at a position, or the wrapper that replaced it. */
  datatype Ref = Orig(pos: nat) | Wrapped(pos: nat, id: nat)

  datatype Resolution = Into(f: Func) | Nowhere | Failed

  /** Which function a call is followed into. */
  function Resolve(c: CallKind): Resolution {
    match c
    case PthreadCreate(AFunc(f)) => Into(f)
    case PthreadCreate(AnArg(Some(f))) => Into(f)
    case PthreadCreate(AnArg(None)) => Nowhere
    case PthreadCreate(Neither) => Failed
    case VerifierCreate(AnArg(Some(f))) => Into(f)
    case VerifierCreate(AnArg(None)) => Nowhere
    case VerifierCreate(_) => Failed
    case Named(true, _) => Nowhere
    case Named(false, Function(f)) => Into(f)
    case Named(false, BitCast(Some(f))) => Into(f)
    case Named(false, BitCast(None)) => Nowhere
    case Named(false, InlineAsm) => Nowhere
    case Named(false, FunctionPointer) => Nowhere
    case Named(false, Strange) => Failed
  }

  /**
   A thread is followed into the function it is to run, an ordinary call into the function it calls, also through
   a bit cast, unless its name is to be ignored. Function pointers and inline assembly lead nowhere.
   */
  lemma ResolveCases(c: CallKind)
    ensures forall f: Func :: Resolve(c) == Into(f) <==>
              || c == PthreadCreate(AFunc(f)) || c == PthreadCreate(AnArg(Some(f)))
              || c == VerifierCreate(AnArg(Some(f)))
              || c == Named(false, Callee.Function(f)) || c == Named(false, BitCast(Some(f)))
    ensures Resolve(c).Failed? <==>
              || c == PthreadCreate(Neither) || c == Named(false, Strange)
              || (c.VerifierCreate? && (c.run.AFunc? || c.run.Neither?))
  {
  }

  /** The blocks of each function, as lists of positions, and the instruction parsed at each position. */
  datatype Program = Program(funcs: seq<seq<seq<nat>>>, code: map<nat, Inst>) {
    /** Every block entry holds an instruction, and every called function is there. */
    ghost predicate Valid() {
      && (forall f: nat :: f < |funcs| ==> PositionsOf(f) <= code.Keys)
      && (forall p :: p in code ==> forall f :: f in Callees(p) ==> f < |funcs|)
    }

    ghost function PositionsOf(f: Func): set<nat>
      requires f < |funcs|
    {
      set b, i | 0 <= b < |funcs[f]| && 0 <= i < |funcs[f][b]| :: funcs[f][b][i]
    }

    /** The function a call leads the visit to, if any. */
    ghost function Callees(p: nat): set<Func>
      requires p in code
    {
      if code[p].Call? && Resolve(code[p].kind).Into? then {Resolve(code[p].kind).f} else {}
    }

    /** A set of functions that no followed call leaves. */
    ghost predicate Closed(fs: set<Func>)
      requires Valid()
    {
      && (forall f :: f in fs ==> f < |funcs|)
      && (forall f, p :: f in fs && p in PositionsOf(f) ==> Callees(p) <= fs)
    }

    /** Whether the position belongs to one of the functions. */
    ghost predicate Within(p: nat, fs: set<Func>)
      requires forall f :: f in fs ==> f < |funcs|
    {
      exists f :: f in fs && p in PositionsOf(f)
    }

    ghost predicate At(f: Func, b: nat, i: nat, p: nat) {
      f < |funcs| && b < |funcs[f]| && i < |funcs[f][b]| && funcs[f][b][i] == p
    }

    /** Each instruction is in one place only. */
    ghost predicate Distinct() {
      forall p, f, b, i, g, c, j :: At(f, b, i, p) && At(g, c, j, p) ==> f == g && b == c && i == j
    }

    /** p comes before q in the text of their function. */
    ghost predicate Before(p: nat, q: nat) {
      exists f, b, i, c, j :: At(f, b, i, p) && At(f, c, j, q) && (b < c || (b == c && i < j))
    }

    /** A call that makes the visit give up. */
    ghost predicate Fails(p: nat) {
      p in code && code[p].Call? && Resolve(code[p].kind).Failed?
    }
  }

  /** What the analysis has learned about the values that instructions access. */
  datatype Known = Known(declared: set<Value>, allocas: set<Value>, params: set<Value>) {
    /**
     The operations to track: fences, read-modify-writes and compare-exchanges, and each access with debug
     information unless it is to a spilled parameter, or to a stack slot that has not been declared.
     */
    predicate Wants(inst: Inst) {
      match inst
      case AtomicRMW => true
      case Fence => true
      case CmpXchg => true
      case Load(dbg, src) => dbg && src !in params && (src in declared || src !in allocas)
      case Store(dbg, dst, _) => dbg && dst !in params && (dst in declared || dst !in allocas)
      case _ => false
    }
  }

  /** What the instructions at some positions teach: declared variables, stack slots, and spilled parameters. */
  ghost function Learned(prog: Program, ps: set<nat>): Known {
    Known(
      set p | p in ps && p in prog.code && prog.code[p].Call? && prog.code[p].declares.Some? ::
        prog.code[p].declares.value,
      set p | p in ps && p in prog.code && prog.code[p].Alloca? :: prog.code[p].v,
      set p | p in ps && p in prog.code && prog.code[p].Store? && !prog.code[p].dbg && prog.code[p].fromParam ::
        prog.code[p].dst)
  }

  lemma LearnedMore(prog: Program, ps: set<nat>, p: nat)
    requires p in prog.code
    ensures var inst, k, k' := prog.code[p], Learned(prog, ps), Learned(prog, ps + {p});
            && k'.declared == k.declared + (if inst.Call? && inst.declares.Some? then {inst.declares.value} else {})
            && k'.allocas == k.allocas + (if inst.Alloca? then {inst.v} else {})
            && k'.params == k.params + (if inst.Store? && !inst.dbg && inst.fromParam then {inst.dst} else {})
  {
  }

  /** The analysis: which operations to track, and the ids they get. */
  class Analyzer {
    var isDeclared: set<Value>
    var isAlloca: set<Value>
    var isParam: set<Value>
    var count: nat

    /** The position of the operation with each id. */
    var added: map<nat, nat>

    constructor ()
      ensures Valid() && count == 0 && added == map[] && Knows() == Known({}, {}, {})
    {
      isDeclared, isAlloca, isParam := {}, {}, {};
      count := 0;
      added := map[];
    }

    /** Ids are dense from 1 on. */
    ghost predicate Valid()
      reads this
    {
      forall k: nat :: k in added <==> 1 <= k <= count
    }

    /** A local or global variable, rather than a nameless temporary or a spilled parameter. */
    predicate Shared(v: Value)
      reads this
    {
      !(v !in isDeclared && v in isAlloca) && v !in isParam
    }

    function Knows(): Known
      reads this
    {
      Known(isDeclared, isAlloca, isParam)
    }

    /** Collects what it learns from an instruction, and returns a wrapper for a tracked operation. */
    method Callback(p: nat, inst: Inst) returns (ni: Option<Ref>)
      requires Valid()
      modifies this
      ensures Valid()
      ensures ni == if old(Knows()).Wants(inst) then Some(Wrapped(p, old(count) + 1)) else None
      ensures ni.Some? <==>
                || inst.Fence? || inst.AtomicRMW? || inst.CmpXchg?
                || (inst.Load? && inst.dbg && inst.src !in old(isParam)
                    && (inst.src in old(isDeclared) || inst.src !in old(isAlloca)))
                || (inst.Store? && inst.dbg && inst.dst !in old(isParam)
                    && (inst.dst in old(isDeclared) || inst.dst !in old(isAlloca)))
      ensures if ni.Some? then count == old(count) + 1 && added == old(added)[count := p]
              else count == old(count) && added == old(added)
      ensures isDeclared == old(isDeclared) + (if inst.Call? && inst.declares.Some? then {inst.declares.value} else {})
      ensures isAlloca == old(isAlloca) + (if inst.Alloca? then {inst.v} else {})
      ensures isParam == old(isParam) + (if inst.Store? && !inst.dbg && inst.fromParam then {inst.dst} else {})
    {
      match inst {
        case Alloca(v) =>
          isAlloca := isAlloca + {v};
          ni := None;
        case Call(_, declares) =>
          if declares.Some? {
            isDeclared := isDeclared + {declares.value};
          }
          ni := None;
        case Load(dbg, src) =>
          if dbg && Shared(src) {
            ni := AddInst(p);
          } else {
            ni := None;
          }
        case Store(dbg, dst, fromParam) =>
          if !dbg {
            if fromParam {
              isParam := isParam + {dst};
            }
            ni := None;
          } else if Shared(dst) {
            ni := AddInst(p);
          } else {
            ni := None;
          }
        case Other => ni := None;
        case _ => ni := AddInst(p);
      }
    }

    /** The next id is always free. */
    method AddInst(p: nat) returns (ni: Option<Ref>)
      requires Valid()
      modifies this`count, this`added
      ensures Valid() && count == old(count) + 1 && count !in old(added)
      ensures added == old(added)[count := p] && ni == Some(Wrapped(p, count))
    {
      count := count + 1;
      added := added[count := p];
      ni := Some(Wrapped(p, count));
    }
  }

  // ----- the state of a visit -----

  /**
   What has been visited, what each position of the instruction lists holds, and for each position whose
   instruction was handed to the analysis, which ones had been before.
   */
  datatype State = State(visited: set<Ref>, content: map<nat, Ref>, met: map<nat, set<nat>>) {
    /** The position was visited by this visit, or its operation is tracked since an earlier one. */
    ghost predicate Seen(p: nat) {
      Orig(p) in visited || (p in content && content[p].Wrapped?)
    }

    ghost predicate AllSeen(prog: Program, f: Func)
      requires f < |prog.funcs|
    {
      forall p :: p in prog.PositionsOf(f) ==> Seen(p)
    }

    /** The first n entries of a list have been seen. */
    ghost predicate SeenUpTo(block: seq<nat>, n: nat)
      requires n <= |block|
    {
      forall j :: 0 <= j < n ==> Seen(block[j])
    }

    ghost predicate BlocksSeen(blocks: seq<seq<nat>>, n: nat)
      requires n <= |blocks|
    {
      forall c :: 0 <= c < n ==> SeenUpTo(blocks[c], |blocks[c]|)
    }

    ghost function Unvisited(prog: Program): set<nat> {
      set p | p in prog.code && Orig(p) !in visited
    }
  }

  /**
   Each position holds its own instruction or the one wrapper made for it, and the ids given out are
   exactly those of the wrappers in the lists.
   */
  ghost predicate WrappedOnce(prog: Program, c: map<nat, Ref>, added: map<nat, nat>) {
    && c.Keys == prog.code.Keys
    && (forall p :: p in c ==> c[p].pos == p)
    && (forall p :: p in c && c[p].Wrapped? ==> c[p].id in added && added[c[p].id] == p)
    && (forall k :: k in added ==> added[k] in c && c[added[k]] == Wrapped(added[k], k))
  }

  /** An instruction that was met is replaced by a wrapper if and only if it was to be tracked, as known then. */
  ghost predicate Informed(prog: Program, c: map<nat, Ref>, met: map<nat, set<nat>>)
    requires c.Keys == prog.code.Keys
  {
    && (forall p :: p in met ==>
          p in c && met[p] <= met.Keys && (c[p].Wrapped? <==> Learned(prog, met[p]).Wants(prog.code[p])))
    && (forall p :: p in c && c[p].Wrapped? ==> p in met)
  }

  /** All visited instructions have been met, but perhaps for that at q. */
  ghost predicate AllMet(visited: set<Ref>, met: map<nat, set<nat>>, q: int) {
    forall p :: Orig(p) in visited && p != q ==> p in met
  }

  /** What comes before an instruction in its function has been met before it. */
  ghost predicate InOrder(prog: Program, met: map<nat, set<nat>>) {
    prog.Distinct() ==> forall p, q :: q in met && prog.Before(p, q) ==> p in met[q]
  }

  ghost predicate Due(prog: Program, met: map<nat, set<nat>>, q: nat) {
    prog.Distinct() ==> forall p :: prog.Before(p, q) ==> p in met
  }

  /** Operations are numbered in the order they were met in. */
  ghost predicate Numbered(c: map<nat, Ref>, met: map<nat, set<nat>>) {
    forall p, q :: MetFirst(met, p, q) && p in c && q in c && c[p].Wrapped? && c[q].Wrapped? ==> c[p].id < c[q].id
  }

  /** p was met before q, and not once more after it. */
  ghost predicate MetFirst(met: map<nat, set<nat>>, p: nat, q: nat) {
    p in met && q in met && p in met[q] && q !in met[p]
  }

  /** The invariant on all these; the instruction at q may have been marked as visited and not yet been met. */
  ghost predicate Consistent(
    prog: Program, c: map<nat, Ref>, added: map<nat, nat>, visited: set<Ref>, met: map<nat, set<nat>>, q: int) {
    && WrappedOnce(prog, c, added) && Informed(prog, c, met) && AllMet(visited, met, q)
    && InOrder(prog, met) && Numbered(c, met)
  }

  lemma WrapOne(prog: Program, c: map<nat, Ref>, added: map<nat, nat>, p: nat, id: nat)
    requires WrappedOnce(prog, c, added) && p in c && c[p] == Orig(p) && id !in added
    ensures WrappedOnce(prog, c[p := Wrapped(p, id)], added[id := p])
  {
  }

  lemma MeetInformed(prog: Program, c: map<nat, Ref>, met: map<nat, set<nat>>, p: nat, r: Ref)
    requires c.Keys == prog.code.Keys && Informed(prog, c, met) && p in c && c[p] == Orig(p)
    requires r.Wrapped? <==> Learned(prog, met.Keys).Wants(prog.code[p])
    ensures c[p := r].Keys == prog.code.Keys && Informed(prog, c[p := r], met[p := met.Keys])
  {
  }

  lemma MeetInOrder(prog: Program, visited: set<Ref>, met: map<nat, set<nat>>, p: nat)
    requires AllMet(visited, met, p) && InOrder(prog, met) && Due(prog, met, p)
    ensures AllMet(visited, met[p := met.Keys], -1) && InOrder(prog, met[p := met.Keys])
  {
  }

  lemma MeetNumbered(prog: Program, c: map<nat, Ref>, added: map<nat, nat>, met: map<nat, set<nat>>, p: nat, r: Ref)
    requires WrappedOnce(prog, c, added) && Informed(prog, c, met) && Numbered(c, met) && p in c && c[p] == Orig(p)
    requires r.Wrapped? ==> forall k :: k in added ==> k < r.id
    ensures Numbered(c[p := r], met[p := met.Keys])
  {
    var c', met' := c[p := r], met[p := met.Keys];
    forall q, s | MetFirst(met', q, s) && q in c' && s in c' && c'[q].Wrapped? && c'[s].Wrapped?
      ensures c'[q].id < c'[s].id
    {
      if q != p && s != p {
        assert MetFirst(met, q, s);
      }
    }
  }

  /** Meeting one more instruction, and wrapping it if it is to be tracked. */
  lemma MeetOne(
    prog: Program, c: map<nat, Ref>, added: map<nat, nat>, visited: set<Ref>, met: map<nat, set<nat>>, p: nat, id: nat)
    requires Consistent(prog, c, added, visited, met, p) && Due(prog, met, p) && p in c && c[p] == Orig(p)
    requires forall k :: k in added ==> k < id
    ensures var met' := met[p := met.Keys];
            && met'.Keys == met.Keys + {p}
            && (if Learned(prog, met.Keys).Wants(prog.code[p])
                then Consistent(prog, c[p := Wrapped(p, id)], added[id := p], visited, met', -1)
                else Consistent(prog, c, added, visited, met', -1))
  {
    var r := if Learned(prog, met.Keys).Wants(prog.code[p]) then Wrapped(p, id) else Orig(p);
    WrapOne(prog, c, added, p, id);
    MeetInformed(prog, c, met, p, r);
    MeetInOrder(prog, visited, met, p);
    MeetNumbered(prog, c, added, met, p, r);
    assert c[p := Orig(p)] == c;
  }

  /**
   From s to s' the visit has only gone on: it forgets nothing, what it visits belongs to the functions
   fs, and an entry changes only from a parsed instruction that it visits to a wrapper.
   */
  ghost predicate GoesOn(prog: Program, s: State, s': State, fs: set<Func>)
    requires prog.Valid() && prog.Closed(fs)
  {
    && s.visited <= s'.visited && s.content.Keys == s'.content.Keys && s.met.Keys <= s'.met.Keys
    && (forall p :: Orig(p) in s'.visited && Orig(p) !in s.visited ==> prog.Within(p, fs))
    && (forall p :: p in s.content && s'.content[p] != s.content[p] ==>
          s.content[p].Orig? && s'.content[p].Wrapped? && Orig(p) in s'.visited)
  }

  /** No call visited between s and s' fails, and all lead to functions that have been seen completely. */
  ghost predicate Followed(prog: Program, s: State, s': State)
    requires prog.Valid()
  {
    && (forall p | p in prog.code && Orig(p) in s'.visited && Orig(p) !in s.visited :: !prog.Fails(p))
    && (forall p, f | p in prog.code && Orig(p) in s'.visited && Orig(p) !in s.visited && f in prog.Callees(p) ::
          s'.AllSeen(prog, f))
  }

  lemma SeenStays(prog: Program, s: State, s': State, fs: set<Func>)
    requires prog.Valid() && prog.Closed(fs) && GoesOn(prog, s, s', fs)
    ensures forall p :: s.Seen(p) ==> s'.Seen(p)
    ensures forall f: nat :: f < |prog.funcs| && s.AllSeen(prog, f) ==> s'.AllSeen(prog, f)
    ensures |s'.Unvisited(prog)| <= |s.Unvisited(prog)|
  {
    forall p | s.Seen(p)
      ensures s'.Seen(p)
    {
    }
    Sets.SubsetSize(s'.Unvisited(prog), s.Unvisited(prog));
  }

  ghost predicate BlockIn(prog: Program, block: seq<nat>, fs: set<Func>)
    requires prog.Valid() && prog.Closed(fs)
  {
    forall j :: 0 <= j < |block| ==> block[j] in prog.code && prog.Within(block[j], fs)
  }

  lemma BlockWithin(prog: Program, f: Func, b: nat, fs: set<Func>)
    requires prog.Valid() && prog.Closed(fs) && f in fs && b < |prog.funcs[f]|
    ensures BlockIn(prog, prog.funcs[f][b], fs)
  {
    var block := prog.funcs[f][b];
    assert forall j :: 0 <= j < |block| ==> block[j] in prog.PositionsOf(f);
  }

  lemma SeenMore(prog: Program, s: State, s': State, fs: set<Func>, block: seq<nat>, i: nat)
    requires prog.Valid() && prog.Closed(fs) && GoesOn(prog, s, s', fs)
    requires i < |block| && s.SeenUpTo(block, i) && s'.Seen(block[i])
    ensures s'.SeenUpTo(block, i + 1)
  {
    SeenStays(prog, s, s', fs);
  }

  lemma BlocksStay(prog: Program, s: State, s': State, fs: set<Func>, blocks: seq<seq<nat>>, b: nat)
    requires prog.Valid() && prog.Closed(fs) && GoesOn(prog, s, s', fs) && b <= |blocks| && s.BlocksSeen(blocks, b)
    ensures s'.BlocksSeen(blocks, b)
  {
    SeenStays(prog, s, s', fs);
    forall c | 0 <= c < b
      ensures s'.SeenUpTo(blocks[c], |blocks[c]|)
    {
      assert s.SeenUpTo(blocks[c], |blocks[c]|);
    }
  }

  /** When the blocks before have been seen, and the entries before in its block, the next entry is due. */
  lemma DueNext(prog: Program, s: State, f: Func, b: nat, i: nat)
    requires s.content.Keys == prog.code.Keys && Informed(prog, s.content, s.met) && AllMet(s.visited, s.met, -1)
    requires f < |prog.funcs| && b < |prog.funcs[f]| && i < |prog.funcs[f][b]|
    requires s.BlocksSeen(prog.funcs[f], b) && s.SeenUpTo(prog.funcs[f][b], i)
    ensures Due(prog, s.met, prog.funcs[f][b][i])
  {
    var q := prog.funcs[f][b][i];
    if prog.Distinct() {
      forall p | prog.Before(p, q)
        ensures p in s.met
      {
        var g: Func, c: nat, j: nat, d: nat, k: nat :|
          prog.At(g, c, j, p) && prog.At(g, d, k, q) && (c < d || (c == d && j < k));
        assert prog.At(f, b, i, q);
        assert c < b ==> s.SeenUpTo(prog.funcs[f][c], |prog.funcs[f][c]|);
        assert s.Seen(p);
      }
    }
  }

  lemma BlocksMore(prog: Program, s: State, s': State, fs: set<Func>, blocks: seq<seq<nat>>, b: nat)
    requires prog.Valid() && prog.Closed(fs) && GoesOn(prog, s, s', fs)
    requires b < |blocks| && s.BlocksSeen(blocks, b) && s'.SeenUpTo(blocks[b], |blocks[b]|)
    ensures s'.BlocksSeen(blocks, b + 1)
  {
    BlocksStay(prog, s, s', fs, blocks, b);
  }

  lemma FunctionSeen(prog: Program, s: State, f: Func)
    requires f < |prog.funcs| && s.BlocksSeen(prog.funcs[f], |prog.funcs[f]|)
    ensures s.AllSeen(prog, f)
  {
    forall b, i | 0 <= b < |prog.funcs[f]| && 0 <= i < |prog.funcs[f][b]|
      ensures s.Seen(prog.funcs[f][b][i])
    {
      assert s.SeenUpTo(prog.funcs[f][b], |prog.funcs[f][b]|);
    }
  }

  /** Going on is transitive, and so is following calls. */
  lemma GoesOnTrans(prog: Program, s: State, t: State, u: State, fs: set<Func>)
    requires prog.Valid() && prog.Closed(fs) && GoesOn(prog, s, t, fs) && GoesOn(prog, t, u, fs)
    ensures GoesOn(prog, s, u, fs)
    ensures Followed(prog, s, t) && Followed(prog, t, u) ==> Followed(prog, s, u)
  {
    SeenStays(prog, t, u, fs);
    forall p | p in s.content && u.content[p] != s.content[p]
      ensures s.content[p].Orig? && u.content[p].Wrapped? && Orig(p) in u.visited
    {
      if t.content[p] != s.content[p] {
        assert u.content[p] == t.content[p];
      }
    }
    if Followed(prog, s, t) && Followed(prog, t, u) {
      forall p, f | p in prog.code && Orig(p) in u.visited && Orig(p) !in s.visited && f in prog.Callees(p)
        ensures u.AllSeen(prog, f)
      {
        if Orig(p) in t.visited {
          assert t.AllSeen(prog, f);
        }
      }
    }
  }

  lemma MarkedCounts(prog: Program, s: State, t: State, p: nat)
    requires p in prog.code && Orig(p) !in s.visited && t.visited == s.visited + {Orig(p)}
    ensures |t.Unvisited(prog)| < |s.Unvisited(prog)|
  {
    assert t.Unvisited(prog) == s.Unvisited(prog) - {p};
  }

  /** Marking an instruction that is no call as visited. */
  lemma MarkedOnly(prog: Program, s: State, t: State, p: nat, fs: set<Func>)
    requires prog.Valid() && prog.Closed(fs) && p in prog.code && prog.Within(p, fs)
    requires t.visited == s.visited + {Orig(p)} && t.content == s.content && s.met.Keys <= t.met.Keys
    ensures GoesOn(prog, s, t, fs) && t.Seen(p)
    ensures !prog.code[p].Call? ==> Followed(prog, s, t)
  {
  }

  /** Marking a call as visited, and then following it. */
  lemma CallFollowed(prog: Program, s: State, t: State, u: State, p: nat, fs: set<Func>)
    requires prog.Valid() && prog.Closed(fs) && GoesOn(prog, t, u, fs) && p in prog.code && prog.Within(p, fs)
    requires t.visited == s.visited + {Orig(p)} && t.content == s.content && s.met.Keys <= t.met.Keys
    ensures GoesOn(prog, s, u, fs) && u.Seen(p)
    ensures Followed(prog, t, u) && !prog.Fails(p) && (forall f :: f in prog.Callees(p) ==> u.AllSeen(prog, f)) ==>
              Followed(prog, s, u)
  {
    MarkedOnly(prog, s, t, p, fs);
    GoesOnTrans(prog, s, t, u, fs);
  }

  /** Replacing one visited entry is going on. */
  lemma ReplacesOne(prog: Program, s: State, s': State, p: nat, fs: set<Func>)
    requires prog.Valid() && prog.Closed(fs) && p in s.content && s.content[p].Orig? && Orig(p) in s.visited
    requires s'.visited == s.visited && s'.met == s.met && p in s'.content && s'.content[p].Wrapped?
    requires s'.content == s.content[p := s'.content[p]]
    ensures GoesOn(prog, s, s', fs) && Followed(prog, s, s') && s'.Seen(p)
  {
  }

  class Visitor {
    const prog: Program
    const a: Analyzer

    /** What each position of the instruction lists holds now. */
    var content: map<nat, Ref>

    var visited: set<Ref>

    /** For each position whose instruction was handed to the analysis, those that had been before. */
    ghost var met: map<nat, set<nat>>

    constructor (prog: Program)
      requires prog.Valid()
      ensures this.prog == prog && fresh(a) && visited == {} && met == map[] && Inv(content)
      ensures content == map p | p in prog.code :: Orig(p)
      ensures a.count == 0
    {
      this.prog := prog;
      a := new Analyzer();
      content := map p | p in prog.code :: Orig(p);
      visited := {};
      met := map[];
    }

    /** The invariant, were the lists to hold c. */
    ghost predicate Inv(c: map<nat, Ref>)
      reads this, a
    {
      InvBut(c, -1)
    }

    /** The same, except that the instruction at q may have been marked as visited and not yet been met. */
    ghost predicate InvBut(c: map<nat, Ref>, q: int)
      reads this, a
    {
      prog.Valid() && a.Valid() && a.Knows() == Learned(prog, met.Keys) && Consistent(prog, c, a.added, visited, met, q)
    }

    /** Nothing has happened since `before` but marking the instruction at p. */
    ghost predicate Marked(before: State, p: nat)
      reads this, a
    {
      visited == before.visited + {Orig(p)} && content == before.content && met == before.met
    }

    /** The same, but that the analysis has met it. */
    ghost predicate Resumed(before: State, p: nat)
      reads this, a
    {
      visited == before.visited + {Orig(p)} && content == before.content && met == before.met[p := before.met.Keys]
    }

    ghost function Now(): State
      reads this
    {
      State(visited, content, met)
    }

    /** The visit may start or go on within the functions fs. */
    ghost predicate Ready(fs: set<Func>)
      reads this, a
    {
      Inv(content) && prog.Closed(fs)
    }

    /** Visits one block entry. A tracked operation is to be replaced by ni; otherwise the entry is skipped. */
    method VisitInst(r: Ref, ghost fs: set<Func>) returns (skip: bool, ni: Ref, ok: bool)
      requires Ready(fs) && r.pos in content && content[r.pos] == r && prog.Within(r.pos, fs) && Due(prog, met, r.pos)
      modifies this, a
      ensures prog.Valid() && prog.Closed(fs) && GoesOn(prog, old(Now()), Now(), fs)
      ensures ok ==> Followed(prog, old(Now()), Now()) && Now().Seen(r.pos)
      ensures skip || !ok ==> Inv(content)
      ensures ok && !skip ==> r.Orig? && r in visited && ni.Wrapped? && ni.pos == r.pos
      ensures ok && !skip ==> content == old(content) && Inv(content[r.pos := ni])
      ensures !ok ==> exists p :: prog.Within(p, fs) && prog.Fails(p)
      decreases |Now().Unvisited(prog)|, 1, 0
    {
      if r in visited {
        return true, r, true;
      }
      ghost var before := Now();
      visited := visited + {r};
      if r.Wrapped? {
        return true, r, true;
      }
      MarkedCounts(prog, before, Now(), r.pos);
      skip, ni, ok := Dispatch(r.pos, before, fs);
    }

    /** Hands a newly marked instruction to the callback, and follows it if it is a call. */
    method Dispatch(p: nat, ghost before: State, ghost fs: set<Func>) returns (skip: bool, ni: Ref, ok: bool)
      requires prog.Valid() && prog.Closed(fs) && p in content && content[p] == Orig(p) && prog.Within(p, fs)
      requires Marked(before, p) && InvBut(content, p) && Due(prog, met, p)
      modifies this, a
      ensures prog.Valid() && prog.Closed(fs) && GoesOn(prog, before, Now(), fs)
      ensures ok ==> Followed(prog, before, Now()) && Now().Seen(p)
      ensures skip || !ok ==> Inv(content)
      ensures ok && !skip ==> Orig(p) in visited && ni.Wrapped? && ni.pos == p
      ensures ok && !skip ==> content == before.content && Inv(content[p := ni])
      ensures !ok ==> exists q :: prog.Within(q, fs) && prog.Fails(q)
      decreases |Now().Unvisited(prog)|, 5
    {
      var w := Consult(p, before);
      MarkedOnly(prog, before, Now(), p, fs);
      if w.Some? {
        return false, w.value, true;
      }
      if !prog.code[p].Call? {
        return true, Orig(p), true;
      }
      ok := FollowCall(p, before, fs);
      return true, Orig(p), ok;
    }

    /** Asks the analysis whether to replace the instruction, which may learn from it. */
    method Consult(p: nat, ghost before: State) returns (w: Option<Ref>)
      requires prog.Valid() && p in content && content[p] == Orig(p) && Marked(before, p) && InvBut(content, p)
      requires Due(prog, met, p)
      modifies a, `met
      ensures Resumed(before, p)
      ensures w.None? ==> Inv(content)
      ensures w.Some? ==>
                !prog.code[p].Call? && w.value.Wrapped? && w.value.pos == p && Inv(content[p := w.value])
    {
      MeetOne(prog, content, a.added, visited, met, p, a.count + 1);
      w := Meet(p);
      if w.None? {
        assert Consistent(prog, content, a.added, visited, met, -1);
      } else {
        assert Consistent(prog, content[p := w.value], a.added, visited, met, -1);
      }
    }

    /** Hands the instruction to the analysis, whose knowledge stays what the instructions it has met teach. */
    method Meet(p: nat) returns (w: Option<Ref>)
      requires p in prog.code && a.Valid() && a.Knows() == Learned(prog, met.Keys)
      modifies a, `met
      ensures met == old(met)[p := old(met).Keys] && a.Valid() && a.Knows() == Learned(prog, met.Keys)
      ensures w == if Learned(prog, old(met).Keys).Wants(prog.code[p]) then Some(Wrapped(p, old(a.count) + 1)) else None
      ensures a.added == if w.Some? then old(a.added)[old(a.count) + 1 := p] else old(a.added)
      ensures w.Some? ==> !prog.code[p].Call?
    {
      LearnedMore(prog, met.Keys, p);
      w := a.Callback(p, prog.code[p]);
      assert met[p := met.Keys].Keys == met.Keys + {p};
      met := met[p := met.Keys];
    }

    /** The rest of visiting a call, `before` being the state before it was marked as visited. */
    method FollowCall(p: nat, ghost before: State, ghost fs: set<Func>) returns (ok: bool)
      requires Ready(fs) && p in content && prog.code[p].Call? && prog.Within(p, fs)
      requires Resumed(before, p)
      modifies this, a
      ensures Ready(fs) && GoesOn(prog, before, Now(), fs)
      ensures ok ==> Followed(prog, before, Now()) && Now().Seen(p)
      ensures !ok ==> exists q :: prog.Within(q, fs) && prog.Fails(q)
      decreases |Now().Unvisited(prog)|, 4
    {
      ghost var marked := Now();
      ok := VisitCallee(p, fs);
      CallFollowed(prog, before, marked, Now(), p, fs);
    }

    /** Follows a call that has just been visited. */
    method VisitCallee(p: nat, ghost fs: set<Func>) returns (ok: bool)
      requires Ready(fs) && p in content && prog.code[p].Call? && prog.Within(p, fs)
      modifies this, a
      ensures Ready(fs) && GoesOn(prog, old(Now()), Now(), fs)
      ensures ok ==> Followed(prog, old(Now()), Now()) && !prog.Fails(p)
      ensures ok ==> forall f :: f in prog.Callees(p) ==> Now().AllSeen(prog, f)
      ensures !ok ==> exists q :: prog.Within(q, fs) && prog.Fails(q)
      ensures var c := prog.code[p].kind;
              && (c.Named?
                  && (c.ignored || c.callee.InlineAsm? || c.callee.FunctionPointer? || c.callee == BitCast(None)) ==>
                    ok && Now() == old(Now()))
              && (forall f: Func :: c == Named(false, BitCast(Some(f))) || c == Named(false, Callee.Function(f)) ==>
                    f < |prog.funcs| && (ok ==> Now().AllSeen(prog, f)))
      decreases |Now().Unvisited(prog)|, 3
    {
      ResolveCases(prog.code[p].kind);
      match Resolve(prog.code[p].kind) {
        case Into(f) =>
          assert f in prog.Callees(p);
          ok := Visit(f, fs);
        case Nowhere => ok := true;
        case Failed =>
          assert prog.Fails(p);
          ok := false;
      }
    }

    /** Visits the blocks of a function. */
    method Visit(f: Func, ghost fs: set<Func>) returns (ok: bool)
      requires Ready(fs) && f in fs
      modifies this, a
      ensures Ready(fs) && GoesOn(prog, old(Now()), Now(), fs)
      ensures ok ==> Followed(prog, old(Now()), Now()) && Now().AllSeen(prog, f)
      ensures !ok ==> exists p :: prog.Within(p, fs) && prog.Fails(p)
      decreases |Now().Unvisited(prog)|, 2, 1
    {
      var blocks := prog.funcs[f];
      for b := 0 to |blocks|
        invariant Ready(fs) && GoesOn(prog, old(Now()), Now(), fs) && Followed(prog, old(Now()), Now())
        invariant Now().BlocksSeen(blocks, b)
      {
        ghost var s := Now();
        SeenStays(prog, old(Now()), s, fs);
        ok := VisitBlock(f, b, fs);
        GoesOnTrans(prog, old(Now()), s, Now(), fs);
        if !ok {
          return;
        }
        BlocksMore(prog, s, Now(), fs, blocks, b);
      }
      FunctionSeen(prog, Now(), f);
      ok := true;
    }

    /** The loop over the instructions of a block, which reads each list entry when its turn comes. */
    method VisitBlock(f: Func, b: nat, ghost fs: set<Func>) returns (ok: bool)
      requires Ready(fs) && f in fs && b < |prog.funcs[f]| && Now().BlocksSeen(prog.funcs[f], b)
      modifies this, a
      ensures Ready(fs) && GoesOn(prog, old(Now()), Now(), fs)
      ensures ok ==> Followed(prog, old(Now()), Now()) && Now().SeenUpTo(prog.funcs[f][b], |prog.funcs[f][b]|)
      ensures !ok ==> exists p :: prog.Within(p, fs) && prog.Fails(p)
      decreases |Now().Unvisited(prog)|, 2, 0
    {
      var block := prog.funcs[f][b];
      BlockWithin(prog, f, b, fs);
      for i := 0 to |block|
        invariant Ready(fs) && GoesOn(prog, old(Now()), Now(), fs) && Followed(prog, old(Now()), Now())
        invariant Now().BlocksSeen(prog.funcs[f], b) && Now().SeenUpTo(block, i)
      {
        ghost var s := Now();
        SeenStays(prog, old(Now()), s, fs);
        DueNext(prog, s, f, b, i);
        ok := VisitEntry(block[i], fs);
        GoesOnTrans(prog, old(Now()), s, Now(), fs);
        if !ok {
          return;
        }
        SeenMore(prog, s, Now(), fs, block, i);
        BlocksStay(prog, s, Now(), fs, prog.funcs[f], b);
      }
      ok := true;
    }

    /** The body of the loop: visit the entry at p and replace it unless it is to be skipped. */
    method VisitEntry(p: nat, ghost fs: set<Func>) returns (ok: bool)
      requires Ready(fs) && p in prog.code && prog.Within(p, fs) && Due(prog, met, p)
      modifies this, a
      ensures Ready(fs) && GoesOn(prog, old(Now()), Now(), fs)
      ensures ok ==> Followed(prog, old(Now()), Now()) && Now().Seen(p)
      ensures !ok ==> exists q :: prog.Within(q, fs) && prog.Fails(q)
      decreases |Now().Unvisited(prog)|, 1, 1
    {
      var skip, ni, done := VisitInst(content[p], fs);
      ghost var s := Now();
      if done && !skip {
        content := content[p := ni];
        ReplacesOne(prog, s, Now(), p, fs);
        GoesOnTrans(prog, old(Now()), s, Now(), fs);
      }
      ok := done;
    }

    /** One visit from an entry function, with nothing marked as visited yet. */
    method VisitFrom(f: Func) returns (ok: bool)
      requires Inv(content) && f < |prog.funcs|
      modifies this, a
      ensures Inv(content)
      ensures ok <==> NoFailure(prog, f)
      ensures ok ==> Covered(prog, content, met, f)
      ensures old(met).Keys <= met.Keys
      ensures Replaced(prog, old(content), content, [f])
    {
      visited := {};
      ghost var start, fs := Now(), ReachableFrom(prog, f);
      ReachableClosed(prog, f);
      ok := Visit(f, fs);
      if ok {
        CoveredBy(prog, start, Now(), f);
      } else {
        assert !NoFailure(prog, f) by {
          var p :| prog.Within(p, fs) && prog.Fails(p);
          assert Reaches(prog, f, p);
        }
      }
      ReplacedBy(prog, start, Now(), f);
    }

    /** A visit from each entry function; an operation tracked by one visit is skipped by the others. */
    method VisitModule(entries: seq<Func>) returns (ok: bool)
      requires Inv(content) && forall k :: 0 <= k < |entries| ==> entries[k] < |prog.funcs|
      modifies this, a
      ensures Inv(content)
      ensures ok <==> NoFailures(prog, entries, |entries|)
      ensures ok ==> CoveredUpTo(prog, content, met, entries, |entries|)
      ensures InOrder(prog, met) && Numbered(content, met)
      ensures Replaced(prog, old(content), content, entries)
    {
      for j := 0 to |entries|
        invariant Inv(content) && NoFailures(prog, entries, j)
        invariant CoveredUpTo(prog, content, met, entries, j) && Replaced(prog, old(content), content, entries[..j])
      {
        ghost var c, m := content, met;
        ok := VisitFrom(entries[j]);
        EntryDone(prog, old(content), c, content, entries, j);
        if !ok {
          ReplacedMore(prog, old(content), content, entries, j + 1);
          assert !NoFailure(prog, entries[j]);
          return;
        }
        CoveredMore(prog, c, content, m, met, entries, j);
      }
      assert entries[..|entries|] == entries;
      ok := true;
    }
  }

  /** A complete visit that started with nothing visited covers its entry, and met no call that fails. */
  lemma CoveredBy(prog: Program, s: State, s': State, f: Func)
    requires prog.Valid() && f < |prog.funcs| && s.visited == {} && Followed(prog, s, s') && s'.AllSeen(prog, f)
    requires s'.content.Keys == prog.code.Keys && Informed(prog, s'.content, s'.met) && AllMet(s'.visited, s'.met, -1)
    ensures Covered(prog, s'.content, s'.met, f) && NoFailure(prog, f)
  {
    VisitComplete(prog, s, s', f);
  }

  /** A visit that started with nothing visited replaces only what its entry reaches. */
  lemma ReplacedBy(prog: Program, s: State, s': State, f: Func)
    requires prog.Valid() && prog.Closed(ReachableFrom(prog, f)) && s.visited == {}
    requires GoesOn(prog, s, s', ReachableFrom(prog, f))
    ensures Replaced(prog, s.content, s'.content, [f])
  {
    assert forall p :: prog.Within(p, ReachableFrom(prog, f)) ==> Reaches(prog, [f][0], p);
  }

  /** What one more visit adds to what the earlier ones did. */
  lemma EntryDone(prog: Program, c: map<nat, Ref>, d: map<nat, Ref>, e: map<nat, Ref>, entries: seq<Func>, j: nat)
    requires prog.Valid() && j < |entries|
    requires Replaced(prog, c, d, entries[..j]) && Replaced(prog, d, e, [entries[j]])
    ensures Replaced(prog, c, e, entries[..j + 1])
  {
    ReplacedTrans(prog, c, d, e, entries[..j], [entries[j]]);
    assert entries[..j] + [entries[j]] == entries[..j + 1];
  }

  /**
   An instruction reachable from f has been replaced if and only if it was to be tracked, by what the
   instructions handed to the analysis before it teach.
   */
  ghost predicate Covered(prog: Program, c: map<nat, Ref>, met: map<nat, set<nat>>, f: Func)
    requires prog.Valid()
  {
    forall p :: Reaches(prog, f, p) ==>
      p in met && p in c && (c[p].Wrapped? <==> Learned(prog, met[p]).Wants(prog.code[p]))
  }

  ghost predicate CoveredUpTo(prog: Program, c: map<nat, Ref>, met: map<nat, set<nat>>, entries: seq<Func>, n: nat)
    requires prog.Valid() && n <= |entries|
  {
    forall k :: 0 <= k < n ==> Covered(prog, c, met, entries[k])
  }

  /** What was covered stays so when more is met. */
  lemma CoveredMore(
    prog: Program, c: map<nat, Ref>, c': map<nat, Ref>, met: map<nat, set<nat>>, met': map<nat, set<nat>>,
    entries: seq<Func>, j: nat)
    requires prog.Valid() && j < |entries|
    requires CoveredUpTo(prog, c, met, entries, j) && Covered(prog, c', met', entries[j])
    requires c'.Keys == prog.code.Keys && Informed(prog, c', met') && met.Keys <= met'.Keys
    ensures CoveredUpTo(prog, c', met', entries, j + 1)
  {
    forall k | 0 <= k <= j
      ensures Covered(prog, c', met', entries[k])
    {
      if k < j {
        CoveredStays(prog, c, c', met, met', entries[k]);
      }
    }
  }

  lemma CoveredStays(
    prog: Program, c: map<nat, Ref>, c': map<nat, Ref>, met: map<nat, set<nat>>, met': map<nat, set<nat>>, f: Func)
    requires prog.Valid() && Covered(prog, c, met, f)
    requires c'.Keys == prog.code.Keys && Informed(prog, c', met') && met.Keys <= met'.Keys
    ensures Covered(prog, c', met', f)
  {
  }

  /** The instruction is an access to v, with debug information. */
  predicate Accesses(inst: Inst, v: Value) {
    (inst.Load? && inst.dbg && inst.src == v) || (inst.Store? && inst.dbg && inst.dst == v)
  }

  /**
   Accesses to a variable declared before them in their function are wrapped, unless it is a spilled parameter.
   Accesses to a stack slot allocated before them are not, unless it is declared somewhere.
   */
  lemma LocalAccess(prog: Program, c: map<nat, Ref>, met: map<nat, set<nat>>, p: nat, q: nat, v: Value)
    requires c.Keys == prog.code.Keys && Informed(prog, c, met) && InOrder(prog, met) && prog.Distinct()
    requires q in met && prog.Before(p, q) && Accesses(prog.code[q], v)
    ensures p in c
    ensures prog.code[p].Call? && prog.code[p].declares == Some(v) && v !in Learned(prog, met.Keys).params ==>
              c[q].Wrapped?
    ensures prog.code[p].Alloca? && prog.code[p].v == v && v !in Learned(prog, met.Keys).declared ==> c[q].Orig?
  {
    assert p in met[q] && met[q] <= met.Keys;
    var k, all := Learned(prog, met[q]), Learned(prog, met.Keys);
    assert k.params <= all.params && k.declared <= all.declared;
  }

  /** The lists have only changed by replacing instructions reachable from the entries by wrappers. */
  ghost predicate Replaced(prog: Program, c: map<nat, Ref>, c': map<nat, Ref>, entries: seq<Func>)
    requires prog.Valid()
  {
    && c.Keys == c'.Keys
    && forall p :: p in c && c'[p] != c[p] ==>
         c[p].Orig? && c'[p].Wrapped? && exists k :: 0 <= k < |entries| && Reaches(prog, entries[k], p)
  }

  ghost predicate NoFailures(prog: Program, entries: seq<Func>, n: nat)
    requires prog.Valid() && n <= |entries|
  {
    forall k :: 0 <= k < n ==> NoFailure(prog, entries[k])
  }

  lemma ReplacedTrans(
    prog: Program, c: map<nat, Ref>, d: map<nat, Ref>, e: map<nat, Ref>, first: seq<Func>, second: seq<Func>)
    requires prog.Valid() && Replaced(prog, c, d, first) && Replaced(prog, d, e, second)
    ensures Replaced(prog, c, e, first + second)
  {
    var all := first + second;
    forall p | p in c && e[p] != c[p]
      ensures c[p].Orig? && e[p].Wrapped? && exists k :: 0 <= k < |all| && Reaches(prog, all[k], p)
    {
      if d[p] != c[p] {
        var k :| 0 <= k < |first| && Reaches(prog, first[k], p);
        assert all[k] == first[k];
      } else {
        var k :| 0 <= k < |second| && Reaches(prog, second[k], p);
        assert all[|first| + k] == second[k];
      }
    }
  }

  lemma ReplacedMore(prog: Program, c: map<nat, Ref>, d: map<nat, Ref>, entries: seq<Func>, n: nat)
    requires prog.Valid() && n <= |entries| && Replaced(prog, c, d, entries[..n])
    ensures Replaced(prog, c, d, entries)
  {
    forall p | p in c && d[p] != c[p]
      ensures exists k :: 0 <= k < |entries| && Reaches(prog, entries[k], p)
    {
      var k :| 0 <= k < n && Reaches(prog, entries[..n][k], p);
      assert entries[k] == entries[..n][k];
    }
  }

  // ----- reachability in the call graph -----

  /** g is called from f through n calls. */
  ghost predicate Calls(prog: Program, f: Func, g: Func, n: nat)
    requires prog.Valid()
    decreases n
  {
    if n == 0 then f == g
    else exists h: nat, p :: Calls(prog, f, h, n - 1) && h < |prog.funcs| && p in prog.PositionsOf(h) && g in prog.Callees(p)
  }

  ghost predicate Reachable(prog: Program, f: Func, g: Func)
    requires prog.Valid()
  {
    exists n: nat :: Calls(prog, f, g, n)
  }

  ghost function ReachableFrom(prog: Program, f: Func): set<Func>
    requires prog.Valid()
  {
    set g | 0 <= g < |prog.funcs| && Reachable(prog, f, g)
  }

  /** The position is in a function reachable from f. */
  ghost predicate Reaches(prog: Program, f: Func, p: nat)
    requires prog.Valid()
    ensures Reaches(prog, f, p) ==> p in prog.code
  {
    exists g :: g in ReachableFrom(prog, f) && p in prog.PositionsOf(g)
  }

  ghost predicate NoFailure(prog: Program, f: Func)
    requires prog.Valid()
  {
    forall p :: Reaches(prog, f, p) ==> !prog.Fails(p)
  }

  lemma ReachableClosed(prog: Program, f: Func)
    requires prog.Valid() && f < |prog.funcs|
    ensures prog.Closed(ReachableFrom(prog, f)) && f in ReachableFrom(prog, f)
  {
    assert Calls(prog, f, f, 0);
    var fs := ReachableFrom(prog, f);
    forall h, p, g | h in fs && p in prog.PositionsOf(h) && g in prog.Callees(p)
      ensures g in fs
    {
      var n: nat :| Calls(prog, f, h, n);
      assert Calls(prog, f, g, n + 1);
    }
  }

  /** A complete visit that started with nothing visited has seen everything reachable. */
  lemma VisitComplete(prog: Program, s: State, s': State, f: Func)
    requires prog.Valid() && f < |prog.funcs| && s.visited == {} && Followed(prog, s, s') && s'.AllSeen(prog, f)
    requires forall p :: p in prog.code && prog.code[p].Call? && p in s'.content ==> s'.content[p].Orig?
    ensures forall p :: Reaches(prog, f, p) ==> s'.Seen(p) && !prog.Fails(p)
  {
    forall p | Reaches(prog, f, p)
      ensures s'.Seen(p) && !prog.Fails(p)
    {
      var g :| g in ReachableFrom(prog, f) && p in prog.PositionsOf(g);
      var n: nat :| Calls(prog, f, g, n);
      CalledSeen(prog, s, s', f, g, n);
    }
  }

  lemma {:induction false} CalledSeen(prog: Program, s: State, s': State, f: Func, g: Func, n: nat)
    requires prog.Valid() && f < |prog.funcs| && s.visited == {} && Followed(prog, s, s') && s'.AllSeen(prog, f)
    requires forall p :: p in prog.code && prog.code[p].Call? && p in s'.content ==> s'.content[p].Orig?
    requires Calls(prog, f, g, n)
    ensures g < |prog.funcs| && s'.AllSeen(prog, g)
    decreases n
  {
    if n > 0 {
      var h: nat, p :| Calls(prog, f, h, n - 1) && h < |prog.funcs| && p in prog.PositionsOf(h) && g in prog.Callees(p);
      CalledSeen(prog, s, s', f, h, n - 1);
      assert s'.Seen(p);
    }
  }
}
