/**
 Linear relaxation: one left-to-right walk over the bit pairs that keeps, for every operation, the
 first weaker ordering the checker accepts.
 */
module LinearRelaxation {
  import opened Search

  /** The weaker assignments tried for the operation with bits i and i + 1, in the order of trial. */
  ghost function Candidates(bs: Bits, i: nat): seq<Bits> {
    (if i in bs && i + 1 in bs then [bs - {i, i + 1}] else [])
    + (if i in bs then [bs - {i}] else [])
    + (if i + 1 in bs then [bs - {i + 1}] else [])
  }

  /** Check the candidates the filter lets through until one is accepted; `hit` holds at most that one. */
  ghost function TryEach(env: Env, cands: seq<Bits>, st: State): Tried {
    if cands == [] then Tried([], st)
    else if Contains(st.filter, cands[0], env.mode) then TryEach(env, cands[1..], st)
    else
      var s := Ask(env, cands[0], st);
      var st' := Checked(env, cands[0], st);
      if Accepted(s) then Tried([Entry(cands[0], s)], st') else TryEach(env, cands[1..], st')
  }

  /** The walk from bit i on, over assignments of n bits. */
  ghost function From(env: Env, n: nat, i: nat, bs: Bits, st: State): Outcome
    decreases n - i
  {
    if i >= n then Outcome([], st)
    else
      var t := TryEach(env, Candidates(bs, i), st);
      var rest := From(env, n, i + 2, Final(t.hit, bs), t.st);
      Outcome(rest.sol + t.hit, rest.st)
  }

  ghost function Relax(env: Env, n: nat, bs: Bits, st: State): Outcome {
    From(env, n, 0, bs, st)
  }

  /** After its first operation the walk goes on as if it had started there. */
  lemma FromStep(env: Env, n: nat, i: nat, x: Bits, st: State)
    requires i < n
    ensures var t := TryEach(env, Candidates(x, i), st);
            var y, o := Final(t.hit, x), From(env, n, i, x, st);
            var rest := From(env, n, i + 2, y, t.st);
            o == Outcome(rest.sol + t.hit, rest.st) && Final(o.sol, x) == Final(rest.sol, y)
  {
    var t := TryEach(env, Candidates(x, i), st);
    FinalOnto(From(env, n, i + 2, Final(t.hit, x), t.st).sol, t.hit, x);
  }

  // ----- one operation -----

  /**
   Trying candidates strictly below x: the log and filter grow only below x, and either one candidate
   was accepted by its own check, or all of them are below filter entries. The accepted one was not in
   the filter when checked and is not in it now.
   */
  lemma {:induction false} TryEachSteps(env: Env, cands: seq<Bits>, st: State, x: Bits)
    requires forall c :: c in cands ==> c < x
    ensures var t := TryEach(env, cands, st);
            && Extends(st, t.st, x)
            && |t.hit| <= 1
            && Chain(t.hit, x)
            && Witnessed(env, t.hit, t.st.log, |st.log|)
            && |t.st.log| <= |st.log| + |cands|
            && (t.hit != [] ==> t.hit[0].bs in cands && !Contains(t.st.filter, t.hit[0].bs, env.mode))
  {
    if cands != [] {
      var st' := Checked(env, cands[0], st);
      if Contains(st.filter, cands[0], env.mode) {
        TryEachSteps(env, cands[1..], st, x);
      } else if Accepted(Ask(env, cands[0], st)) {
        assert CheckedAt(env, Entry(cands[0], Ask(env, cands[0], st)), st'.log, |st.log|);
      } else {
        assert cands[0] in cands;
        TryEachSteps(env, cands[1..], st', x);
        WitnessedLater(env, TryEach(env, cands[1..], st').hit, TryEach(env, cands, st).st.log, |st'.log|, |st.log|);
      }
    }
  }

  /** Whatever comes before the accepted candidate ends up below a filter entry. */
  lemma {:induction false} TryEachCovers(env: Env, cands: seq<Bits>, st: State, k: nat)
    requires Decided(env) && k < |cands|
    requires var hit := TryEach(env, cands, st).hit; hit == [] || hit[0].bs !in cands[..k + 1]
    ensures Below(TryEach(env, cands, st).st.filter, cands[k])
  {
    var t := TryEach(env, cands, st);
    var c := cands[0];
    assert c in cands[..k + 1];
    var st' := if Contains(st.filter, c, env.mode) then st else Checked(env, c, st);
    assert Accepted(Ask(env, c, st)) || Failing(Ask(env, c, st));
    assert t == TryEach(env, cands[1..], st');
    TryEachGrows(env, cands[1..], st');
    if k == 0 {
      assert Below(st'.filter, c);
      BelowGrows(st'.filter, t.st.filter, c, c);
    } else {
      assert forall b :: b in cands[1..][..k] ==> b in cands[..k + 1];
      TryEachCovers(env, cands[1..], st', k - 1);
    }
  }

  lemma {:induction false} TryEachGrows(env: Env, cands: seq<Bits>, st: State)
    ensures st.filter <= TryEach(env, cands, st).st.filter
  {
    if cands != [] {
      TryEachGrows(env, cands[1..], st);
      TryEachGrows(env, cands[1..], Checked(env, cands[0], st));
    }
  }

  lemma {:induction false} TryEachNeverTwice(env: Env, cands: seq<Bits>, st: State)
    requires Decided(env) && env.mode != Off && NeverTwice(st)
    ensures NeverTwice(TryEach(env, cands, st).st)
  {
    if cands != [] {
      if Contains(st.filter, cands[0], env.mode) {
        TryEachNeverTwice(env, cands[1..], st);
      } else {
        assert cands[0] in st.filter ==> Below(st.filter, cands[0]);
        CheckNeverTwice(env, cands[0], st);
        TryEachNeverTwice(env, cands[1..], Checked(env, cands[0], st));
      }
    }
  }

  /** After one operation, clearing either of its remaining bits gives an assignment below the filter. */
  lemma PairMinimal(env: Env, bs: Bits, i: nat, st: State)
    requires Decided(env)
    ensures var t := TryEach(env, Candidates(bs, i), st);
            var bs' := Final(t.hit, bs);
            forall j :: i <= j < i + 2 && j in bs' ==> Below(t.st.filter, bs' - {j})
  {
    var cands := Candidates(bs, i);
    var t := TryEach(env, cands, st);
    var bs' := Final(t.hit, bs);
    assert forall c :: c in cands ==> c < bs by { CandidatesWeaker(bs, i); }
    TryEachSteps(env, cands, st, bs);
    forall j | i <= j < i + 2 && j in bs'
      ensures Below(t.st.filter, bs' - {j})
    {
      if t.hit == [] {
        var k :| 0 <= k < |cands| && cands[k] == bs - {j};
        TryEachCovers(env, cands, st, k);
      } else {
        assert i in bs && i + 1 in bs;
        assert cands[0] == bs - {i, i + 1} && bs' - {j} == cands[0];
        TryEachCovers(env, cands, st, 0);
      }
    }
  }

  lemma CandidatesWeaker(bs: Bits, i: nat)
    ensures forall c :: c in Candidates(bs, i) ==> c < bs
    ensures |Candidates(bs, i)| == 3 <==> i in bs && i + 1 in bs
  {
  }

  // ----- the whole walk -----

  /** The walk's solutions form a chain of accepted assignments, and everything it rejects is weaker. */
  lemma {:induction false} FromSteps(env: Env, n: nat, i: nat, bs: Bits, st: State)
    ensures var o := From(env, n, i, bs, st);
            && Extends(st, o.st, bs)
            && Chain(o.sol, bs)
            && Witnessed(env, o.sol, o.st.log, |st.log|)
    decreases n - i
  {
    if i < n {
      CandidatesWeaker(bs, i);
      var t := TryEach(env, Candidates(bs, i), st);
      TryEachSteps(env, Candidates(bs, i), st, bs);
      var bs' := Final(t.hit, bs);
      FromSteps(env, n, i + 2, bs', t.st);
      StepsOnto(env, st, t.st, From(env, n, i + 2, bs', t.st), t.hit, bs, bs');
    }
  }

  /**
   The certificate. With no assumption on the checker beyond the five statuses, and in every filter
   mode, whatever is strictly weaker than the final assignment lies below an entry of the final filter.
   */
  lemma RelaxCertified(env: Env, n: nat, bs: Bits, st: State)
    requires Decided(env) && forall j :: j in bs ==> j < n
    ensures var o := Relax(env, n, bs, st); Certified(o.st.filter, Final(o.sol, bs))
  {
    var o := Relax(env, n, bs, st);
    FromOneMinimal(env, n, 0, bs, st);
    OneMinimalCertifies(o.st.filter, Final(o.sol, bs));
  }

  lemma {:induction false} FromOneMinimal(env: Env, n: nat, i: nat, bs: Bits, st: State)
    requires Decided(env) && forall j :: j in bs ==> j < n
    requires MinimalBefore(st.filter, bs, i)
    ensures var o := From(env, n, i, bs, st); OneMinimal(o.st.filter, Final(o.sol, bs))
    decreases n - i
  {
    if i < n {
      var t := TryEach(env, Candidates(bs, i), st);
      var y := Final(t.hit, bs);
      MinimalNext(env, bs, i, st);
      FromOneMinimal(env, n, i + 2, y, t.st);
      assert From(env, n, i, bs, st).st == From(env, n, i + 2, y, t.st).st by {
        FromStep(env, n, i, bs, st);
      }
      assert Final(From(env, n, i, bs, st).sol, bs) == Final(From(env, n, i + 2, y, t.st).sol, y) by {
        FromStep(env, n, i, bs, st);
      }
    }
  }

  /** Clearing any 1-bit before i gives an assignment below the filter. */
  ghost predicate MinimalBefore(filter: set<Bits>, x: Bits, i: nat) {
    forall j :: j in x && j < i ==> Below(filter, x - {j})
  }

  lemma MinimalNext(env: Env, x: Bits, i: nat, st: State)
    requires Decided(env) && MinimalBefore(st.filter, x, i)
    ensures var t := TryEach(env, Candidates(x, i), st);
            Final(t.hit, x) <= x && MinimalBefore(t.st.filter, Final(t.hit, x), i + 2)
  {
    CandidatesWeaker(x, i);
    TryEachSteps(env, Candidates(x, i), st, x);
    PairMinimal(env, x, i, st);
    var t := TryEach(env, Candidates(x, i), st);
    var y := Final(t.hit, x);
    forall j | j in y && j < i
      ensures Below(t.st.filter, y - {j})
    {
      BelowGrows(st.filter, t.st.filter, x - {j}, y - {j});
    }
  }

  // ----- which of several acceptable assignments the walk ends with -----

  /** What the walk holds when it comes to bit i, if it ends with f: f below that bit, and still x from it on. */
  ghost function Mixed(f: Bits, x: Bits, i: nat): Bits {
    set j | j in f + x && (if j < i then j in f else j in x)
  }

  /**
   The preference at the k-th operation. Clearing both its bits comes before anything else, and clearing the lower
   one comes before clearing the upper one; what comes before f's choice lies below a filter entry.
   */
  ghost predicate PreferredAt(filter: set<Bits>, f: Bits, x: Bits, k: nat) {
    var cur := Mixed(f, x, 2 * k);
    && (2 * k in f || 2 * k + 1 in f ==> Below(filter, cur - {2 * k, 2 * k + 1}))
    && (2 * k in f ==> Below(filter, cur - {2 * k}))
    && (2 * k in f && 2 * k + 1 in f ==> Below(filter, cur - {2 * k + 1}))
  }

  /** Where f differs from x at the k-th operation, the walk accepted what it then held. */
  ghost predicate ChosenAt(sol: seq<Entry>, f: Bits, x: Bits, k: nat) {
    Mixed(f, x, 2 * k + 2) == Mixed(f, x, 2 * k) || exists s :: s in sol && s.bs == Mixed(f, x, 2 * k + 2)
  }

  /** Trying the candidates of one operation follows the preference, and changes no other bits. */
  lemma PairPreferred(env: Env, x: Bits, k: nat, st: State)
    requires Decided(env)
    ensures var t := TryEach(env, Candidates(x, 2 * k), st);
            var y := Final(t.hit, x);
            && y <= x && y - {2 * k, 2 * k + 1} == x - {2 * k, 2 * k + 1}
            && (2 * k in y || 2 * k + 1 in y ==> Below(t.st.filter, x - {2 * k, 2 * k + 1}))
            && (2 * k in y ==> Below(t.st.filter, x - {2 * k}))
            && (2 * k in y && 2 * k + 1 in y ==> Below(t.st.filter, x - {2 * k + 1}))
  {
    var cands := Candidates(x, 2 * k);
    CandidatesWeaker(x, 2 * k);
    TryEachSteps(env, cands, st, x);
    PairMinimal(env, x, 2 * k, st);
    if 2 * k in x && 2 * k + 1 in x {
      BothPreferred(env, x, k, st);
    } else {
      assert x - {2 * k, 2 * k + 1} == if 2 * k in x then x - {2 * k} else x - {2 * k + 1};
    }
  }

  lemma BothPreferred(env: Env, x: Bits, k: nat, st: State)
    requires Decided(env) && 2 * k in x && 2 * k + 1 in x
    ensures var t := TryEach(env, Candidates(x, 2 * k), st);
            var both, low := x - {2 * k, 2 * k + 1}, x - {2 * k};
            && (t.hit == [] || t.hit[0].bs != both ==> Below(t.st.filter, both))
            && (t.hit == [] || (t.hit[0].bs != both && t.hit[0].bs != low) ==> Below(t.st.filter, low))
  {
    var cands := Candidates(x, 2 * k);
    var t := TryEach(env, cands, st);
    assert cands == [x - {2 * k, 2 * k + 1}, x - {2 * k}, x - {2 * k + 1}];
    if t.hit == [] || t.hit[0].bs != cands[0] {
      TryEachCovers(env, cands, st, 0);
      if t.hit == [] || t.hit[0].bs != cands[1] {
        TryEachCovers(env, cands, st, 1);
      }
    }
  }

  /** Relaxing the j-th operation from x to y, and then going on to f, leaves what the walk holds later the same. */
  lemma MixedLater(f: Bits, y: Bits, x: Bits, j: nat)
    requires f <= y <= x && y - {2 * j, 2 * j + 1} == x - {2 * j, 2 * j + 1} && Mixed(f, y, 2 * (j + 1)) == y
    ensures Mixed(f, x, 2 * j) == x && Mixed(f, x, 2 * j + 2) == y
    ensures 2 * j in f <==> 2 * j in y
    ensures 2 * j + 1 in f <==> 2 * j + 1 in y
    ensures forall k: nat :: j < k ==> Mixed(f, x, 2 * k) == Mixed(f, y, 2 * k)
  {
    forall v
      ensures v < 2 * j + 2 ==> (v in f <==> v in y)
    {
      assert v in Mixed(f, y, 2 * (j + 1)) <==> v in y;
    }
    assert forall v :: v != 2 * j && v != 2 * j + 1 ==> (v in y <==> v in x) by {
      assert forall v :: v != 2 * j && v != 2 * j + 1 ==> (v in x - {2 * j, 2 * j + 1} <==> v in x);
      assert forall v :: v != 2 * j && v != 2 * j + 1 ==> (v in y - {2 * j, 2 * j + 1} <==> v in y);
    }
  }

  /** The preference of the operations after the j-th is that of the rest of the walk. */
  lemma PrefersLater(filter: set<Bits>, sol: seq<Entry>, hit: seq<Entry>, f: Bits, y: Bits, x: Bits, k: nat)
    requires Mixed(f, x, 2 * k) == Mixed(f, y, 2 * k) && Mixed(f, x, 2 * (k + 1)) == Mixed(f, y, 2 * (k + 1))
    requires PreferredAt(filter, f, y, k) && ChosenAt(sol, f, y, k)
    ensures PreferredAt(filter, f, x, k) && ChosenAt(sol + hit, f, x, k)
  {
    assert 2 * k + 2 == 2 * (k + 1);
    if Mixed(f, y, 2 * k + 2) != Mixed(f, y, 2 * k) {
      var s :| s in sol && s.bs == Mixed(f, y, 2 * k + 2);
      assert s in sol + hit;
    }
  }

  /** The preference is followed from the j-th of m operations on by a search that starts from x. */
  ghost predicate Prefers(o: Outcome, x: Bits, j: nat, m: nat) {
    var f := Final(o.sol, x);
    && f <= x && Mixed(f, x, 2 * j) == x
    && forall k: nat :: j <= k < m ==> PreferredAt(o.st.filter, f, x, k) && ChosenAt(o.sol, f, x, k)
  }

  /** The whole walk follows the preference at each operation. */
  lemma {:induction false} FromPrefers(env: Env, m: nat, j: nat, x: Bits, st: State)
    requires Decided(env)
    ensures Prefers(From(env, 2 * m, 2 * j, x, st), x, j, m)
    decreases m - j
  {
    if j < m {
      var t := TryEach(env, Candidates(x, 2 * j), st);
      var y := Final(t.hit, x);
      PairPreferred(env, x, j, st);
      FromPrefers(env, m, j + 1, y, t.st);
      FromSteps(env, 2 * m, 2 * (j + 1), y, t.st);
      PrefersOnto(From(env, 2 * m, 2 * (j + 1), y, t.st), t, x, j, m);
    } else {
      assert Mixed(x, x, 2 * j) == x;
    }
  }

  /** Going on from what the j-th operation was relaxed to. */
  lemma PrefersOnto(rest: Outcome, t: Tried, x: Bits, j: nat, m: nat)
    requires var y := Final(t.hit, x);
             && Prefers(rest, y, j + 1, m) && t.st.filter <= rest.st.filter
             && y <= x && y - {2 * j, 2 * j + 1} == x - {2 * j, 2 * j + 1}
             && (2 * j in y || 2 * j + 1 in y ==> Below(t.st.filter, x - {2 * j, 2 * j + 1}))
             && (2 * j in y ==> Below(t.st.filter, x - {2 * j}))
             && (2 * j in y && 2 * j + 1 in y ==> Below(t.st.filter, x - {2 * j + 1}))
    ensures Prefers(Outcome(rest.sol + t.hit, rest.st), x, j, m)
  {
    var y, sol := Final(t.hit, x), rest.sol + t.hit;
    var f := Final(rest.sol, y);
    assert Final(sol, x) == f;
    MixedLater(f, y, x, j);
    forall k: nat | j <= k < m
      ensures PreferredAt(rest.st.filter, f, x, k) && ChosenAt(sol, f, x, k)
    {
      if k == j {
        PreferredHere(t.st.filter, rest.st.filter, f, y, x, j);
        assert t.hit != [] ==> t.hit[0] in sol && t.hit[0].bs == y;
      } else {
        PrefersLater(rest.st.filter, rest.sol, t.hit, f, y, x, k);
      }
    }
  }

  lemma PreferredHere(filter: set<Bits>, later: set<Bits>, f: Bits, y: Bits, x: Bits, j: nat)
    requires filter <= later && Mixed(f, x, 2 * j) == x
    requires (2 * j in f <==> 2 * j in y) && (2 * j + 1 in f <==> 2 * j + 1 in y)
    requires 2 * j in y || 2 * j + 1 in y ==> Below(filter, x - {2 * j, 2 * j + 1})
    requires 2 * j in y ==> Below(filter, x - {2 * j})
    requires 2 * j in y && 2 * j + 1 in y ==> Below(filter, x - {2 * j + 1})
    ensures PreferredAt(later, f, x, j)
  {
    forall z | Below(filter, z)
      ensures Below(later, z)
    {
      BelowGrows(filter, later, z, z);
    }
  }

  /**
   The certificate of preference, for any checker and filter mode. Of the assignments that differ from what the
   walk held only at one operation, those it prefers to its choice there lie below a filter entry.
   */
  lemma RelaxPrefers(env: Env, m: nat, x: Bits, st: State)
    requires Decided(env)
    ensures Prefers(Relax(env, 2 * m, x, st), x, 0, m)
  {
    FromPrefers(env, m, 0, x, st);
  }

  /** The most relaxed solution is new to the filter, both when it was checked and at the end. */
  lemma {:induction false} FromFresh(env: Env, n: nat, i: nat, bs: Bits, st: State)
    ensures var o := From(env, n, i, bs, st);
            o.sol != [] && env.mode != Off ==> o.sol[0].bs !in o.st.filter
    decreases n - i
  {
    if i < n {
      CandidatesWeaker(bs, i);
      var t := TryEach(env, Candidates(bs, i), st);
      TryEachSteps(env, Candidates(bs, i), st, bs);
      var bs' := Final(t.hit, bs);
      FromFresh(env, n, i + 2, bs', t.st);
      FromSteps(env, n, i + 2, bs', t.st);
      if t.hit != [] && env.mode != Off {
        assert bs' in t.st.filter ==> Below(t.st.filter, bs');
      }
    }
  }

  lemma {:induction false} FromNeverTwice(env: Env, n: nat, i: nat, bs: Bits, st: State)
    requires Decided(env) && env.mode != Off && NeverTwice(st)
    ensures NeverTwice(From(env, n, i, bs, st).st)
    decreases n - i
  {
    if i < n {
      var t := TryEach(env, Candidates(bs, i), st);
      TryEachNeverTwice(env, Candidates(bs, i), st);
      FromNeverTwice(env, n, i + 2, Final(t.hit, bs), t.st);
    }
  }

  /** The 1-bits at index i or above. */
  ghost function Ahead(bs: Bits, i: nat): Bits {
    set j | j in bs && j >= i
  }

  lemma AheadPair(bs: Bits, i: nat)
    ensures |Ahead(bs, i)| == |Ahead(bs, i + 2)| + (if i in bs then 1 else 0) + (if i + 1 in bs then 1 else 0)
  {
    AheadBit(bs, i);
    AheadBit(bs, i + 1);
  }

  lemma AheadBit(bs: Bits, i: nat)
    ensures |Ahead(bs, i)| == |Ahead(bs, i + 1)| + if i in bs then 1 else 0
  {
    var rest := Ahead(bs, i + 1);
    if i in bs {
      assert Ahead(bs, i) == rest + {i} && i !in rest;
    } else {
      assert Ahead(bs, i) == rest;
    }
  }

  /** Twice the number of checks is at most three times the number of 1-bits of the input. */
  lemma RelaxCost(env: Env, n: nat, bs: Bits, st: State)
    ensures 2 * (|Relax(env, n, bs, st).st.log| - |st.log|) <= 3 * |bs|
  {
    assert Ahead(bs, 0) == bs;
    FromCost(env, n, 0, bs, st);
  }

  lemma {:induction false} FromCost(env: Env, n: nat, i: nat, bs: Bits, st: State)
    ensures 2 * (|From(env, n, i, bs, st).st.log| - |st.log|) <= 3 * |Ahead(bs, i)|
    decreases n - i
  {
    if i < n {
      CandidatesWeaker(bs, i);
      var cands := Candidates(bs, i);
      var t := TryEach(env, cands, st);
      TryEachSteps(env, cands, st, bs);
      AheadPair(bs, i);
      assert 2 * |cands| <= 3 * (|Ahead(bs, i)| - |Ahead(bs, i + 2)|);
      var bs' := Final(t.hit, bs);
      assert Ahead(bs', i + 2) == Ahead(bs, i + 2);
      FromCost(env, n, i + 2, bs', t.st);
    }
  }
}
