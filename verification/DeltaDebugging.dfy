/**
 Delta debugging: try each chunk of the 1-bits alone, then each complement of a chunk, then cut finer.
 */
module DeltaDebugging {
  import opened Search
  import opened Chunking
  import Sets

  /** The candidates the filter lets through, all judged by the filter as it is now. */
  ghost function Keep(filter: set<Bits>, cands: seq<Bits>, mode: Mode): seq<Bits> {
    if cands == [] then []
    else (if Contains(filter, cands[0], mode) then [] else [cands[0]]) + Keep(filter, cands[1..], mode)
  }

  /** The state after a check whose assignment, when not accepted, is inserted whatever the status. */
  ghost function Refused(env: Env, x: Bits, st: State): State {
    var st' := Checked(env, x, st);
    State(st'.filter + {x}, st'.log)
  }

  /** Check candidates until one is accepted, without consulting the filter any more. */
  ghost function TryBatch(env: Env, cands: seq<Bits>, st: State): (t: Tried)
    ensures t.hit != [] ==> t.hit[0].bs in cands
  {
    if cands == [] then Tried([], st)
    else if Accepted(Ask(env, cands[0], st)) then
      Tried([Entry(cands[0], Ask(env, cands[0], st))], Checked(env, cands[0], st))
    else TryBatch(env, cands[1..], Refused(env, cands[0], st))
  }

  /** The same, except that the filter is consulted for each candidate when its turn comes. */
  ghost function TryInTurn(env: Env, cands: seq<Bits>, st: State): Tried {
    if cands == [] then Tried([], st)
    else if Contains(st.filter, cands[0], env.mode) then TryInTurn(env, cands[1..], st)
    else if Accepted(Ask(env, cands[0], st)) then
      Tried([Entry(cands[0], Ask(env, cands[0], st))], Checked(env, cands[0], st))
    else TryInTurn(env, cands[1..], Refused(env, cands[0], st))
  }

  datatype Round = Round(hit: seq<Entry>, g: nat, st: State)

  /** One granularity: the chunks, then the complements; g is the granularity to go on with. */
  ghost function OneRound(env: Env, n: nat, x: Bits, g: nat, st: State): Round {
    var c := Chunks(x, n, g);
    var t := TryBatch(env, Keep(st.filter, c, env.mode), st);
    if t.hit != [] then Round(t.hit, 2, t.st)
    else
      var u := TryBatch(env, Keep(t.st.filter, Nablas(x, c), env.mode), t.st);
      Round(u.hit, if u.hit == [] then g else Max(g - 1, 2), u.st)
  }

  function Min(a: int, b: int): int { if a > b then b else a }

  function Max(a: int, b: int): int { if a > b then a else b }

  /** The search from x at granularity g, over assignments of n bits. */
  ghost function Ddmin(env: Env, n: nat, x: Bits, g: nat, st: State): Outcome
    requires Within(x, n) && g >= 2
    decreases |x|, |x| - g
  {
    if |x| < g then Outcome([], st)
    else
      var r := OneRound(env, n, x, g, st);
      RoundHit(env, n, x, g, st);
      if r.hit != [] then
        var o := Ddmin(env, n, r.hit[0].bs, r.g, r.st);
        Outcome(o.sol + r.hit, o.st)
      else if g < |x| then Ddmin(env, n, x, Min(|x|, 2 * g), r.st)
      else Outcome([], r.st)
  }

  // ----- batches -----

  lemma {:induction false} KeepFrom(filter: set<Bits>, cands: seq<Bits>, mode: Mode)
    ensures forall c :: c in Keep(filter, cands, mode) ==> c in cands
    ensures |Keep(filter, cands, mode)| <= |cands|
  {
    if cands != [] {
      KeepFrom(filter, cands[1..], mode);
    }
  }

  lemma {:induction false} KeepSame(filter: set<Bits>, c: Bits, cands: seq<Bits>, mode: Mode)
    requires forall k :: 0 <= k < |cands| ==> !(cands[k] <= c)
    ensures Keep(filter + {c}, cands, mode) == Keep(filter, cands, mode)
  {
    if cands != [] {
      assert Below(filter + {c}, cands[0]) <==> Below(filter, cands[0]);
      KeepSame(filter, c, cands[1..], mode);
    }
  }

  /**
   Filtering a whole batch beforehand is exact: as no candidate of a batch is contained in another,
   rejections inside the batch never make the filter contain a candidate still to be tried.
   */
  lemma {:induction false} BatchIsExact(env: Env, cands: seq<Bits>, x: Bits, st: State)
    requires Antichain(cands, x)
    ensures TryBatch(env, Keep(st.filter, cands, env.mode), st) == TryInTurn(env, cands, st)
  {
    if cands != [] {
      var c, rest := cands[0], cands[1..];
      assert Antichain(rest, x);
      var keep := Keep(st.filter, cands, env.mode);
      if Contains(st.filter, c, env.mode) {
        assert keep == Keep(st.filter, rest, env.mode);
        BatchIsExact(env, rest, x, st);
      } else {
        assert keep[0] == c && keep[1..] == Keep(st.filter, rest, env.mode);
        var st' := Refused(env, c, st);
        assert st'.filter == st.filter + {c};
        KeepSame(st.filter, c, rest, env.mode);
        BatchIsExact(env, rest, x, st');
      }
    }
  }

  lemma RoundHit(env: Env, n: nat, x: Bits, g: nat, st: State)
    requires Within(x, n) && 2 <= g <= |x|
    ensures var r := OneRound(env, n, x, g, st);
            r.hit != [] ==> r.hit[0].bs < x && |r.hit[0].bs| < |x| && Within(r.hit[0].bs, n)
  {
    var c := Chunks(x, n, g);
    ChunksPartition(x, n, g);
    BatchShape(c, x);
    var t := TryBatch(env, Keep(st.filter, c, env.mode), st);
    KeepFrom(st.filter, c, env.mode);
    KeepFrom(t.st.filter, Nablas(x, c), env.mode);
    var r := OneRound(env, n, x, g, st);
    if r.hit != [] {
      assert r.hit[0].bs < x;
      Sets.ProperSubsetSize(r.hit[0].bs, x);
    }
  }

  /**
   Trying a batch strictly below x: log and filter grow only below x, at most one candidate is accepted,
   by its own check and while outside the filter, and if none is, all are below filter entries.
   */
  lemma {:induction false} TurnSteps(env: Env, cands: seq<Bits>, st: State, x: Bits)
    requires forall k :: 0 <= k < |cands| ==> cands[k] < x
    ensures var t := TryInTurn(env, cands, st);
            && Extends(st, t.st, x)
            && |t.hit| <= 1
            && Chain(t.hit, x)
            && Witnessed(env, t.hit, t.st.log, |st.log|)
            && |t.st.log| <= |st.log| + |cands|
            && (t.hit != [] && env.mode != Off ==> t.hit[0].bs !in t.st.filter)
            && (t.hit == [] ==> forall c :: c in cands ==> Below(t.st.filter, c))
  {
    if cands != [] {
      var c, rest := cands[0], cands[1..];
      var t := TryInTurn(env, cands, st);
      assert cands == [c] + rest;
      if Contains(st.filter, c, env.mode) {
        TurnSteps(env, rest, st, x);
        assert Below(st.filter, c);
        BelowGrows(st.filter, t.st.filter, c, c);
      } else if Accepted(Ask(env, c, st)) {
        assert CheckedAt(env, Entry(c, Ask(env, c, st)), t.st.log, |st.log|);
        assert c in st.filter ==> Below(st.filter, c);
      } else {
        var st' := Refused(env, c, st);
        TurnSteps(env, rest, st', x);
        WitnessedLater(env, t.hit, t.st.log, |st'.log|, |st.log|);
        assert c in st'.filter && Below(st'.filter, c);
        BelowGrows(st'.filter, t.st.filter, c, c);
      }
    }
  }

  lemma {:induction false} TurnNeverTwice(env: Env, cands: seq<Bits>, st: State)
    requires env.mode != Off && NeverTwice(st)
    ensures NeverTwice(TryInTurn(env, cands, st).st)
  {
    if cands != [] {
      var c := cands[0];
      if Contains(st.filter, c, env.mode) {
        TurnNeverTwice(env, cands[1..], st);
      } else {
        assert c in st.filter ==> Below(st.filter, c);
        if !Accepted(Ask(env, c, st)) {
          TurnNeverTwice(env, cands[1..], Refused(env, c, st));
        }
      }
    }
  }

  // ----- one round -----

  lemma ExtendsTrans(a: State, b: State, c: State, x: Bits)
    requires Extends(a, b, x) && Extends(b, c, x)
    ensures Extends(a, c, x)
  {
  }

  /** What one round keeps: see TurnSteps. If nothing is accepted, all complements are suppressed. */
  lemma RoundSteps(env: Env, n: nat, x: Bits, g: nat, st: State)
    requires Within(x, n) && 2 <= g <= |x|
    ensures var r := OneRound(env, n, x, g, st);
            && Extends(st, r.st, x)
            && |r.hit| <= 1
            && Chain(r.hit, x)
            && Witnessed(env, r.hit, r.st.log, |st.log|)
            && |r.st.log| <= |st.log| + 2 * g
            && (r.hit != [] && env.mode != Off ==> r.hit[0].bs !in r.st.filter)
            && (r.hit == [] ==> forall b :: b in Nablas(x, Chunks(x, n, g)) ==> Below(r.st.filter, b))
  {
    var c := Chunks(x, n, g);
    ChunksPartition(x, n, g);
    BatchShape(c, x);
    BatchIsExact(env, c, x, st);
    TurnSteps(env, c, st, x);
    var t := TryInTurn(env, c, st);
    if t.hit == [] {
      BatchIsExact(env, Nablas(x, c), x, t.st);
      TurnSteps(env, Nablas(x, c), t.st, x);
      var u := TryInTurn(env, Nablas(x, c), t.st);
      ExtendsTrans(st, t.st, u.st, x);
      WitnessedLater(env, u.hit, u.st.log, |t.st.log|, |st.log|);
    }
  }

  lemma RoundNeverTwice(env: Env, n: nat, x: Bits, g: nat, st: State)
    requires Within(x, n) && 2 <= g <= |x| && env.mode != Off && NeverTwice(st)
    ensures NeverTwice(OneRound(env, n, x, g, st).st)
  {
    var c := Chunks(x, n, g);
    ChunksPartition(x, n, g);
    BatchShape(c, x);
    BatchIsExact(env, c, x, st);
    TurnNeverTwice(env, c, st);
    var t := TryInTurn(env, c, st);
    BatchIsExact(env, Nablas(x, c), x, t.st);
    TurnNeverTwice(env, Nablas(x, c), t.st);
  }

  /** The accepted candidate is a chunk, or a complement large enough for the next granularity. */
  lemma RoundSize(env: Env, n: nat, x: Bits, g: nat, st: State)
    requires Within(x, n) && 2 <= g <= |x|
    ensures var r := OneRound(env, n, x, g, st);
            r.hit != [] ==>
              var m := |r.hit[0].bs|;
              && m < |x|
              && r.g >= 2
              && ((r.g == 2 && 2 * m <= |x| + 1) || (r.g == g - 1 && g - 1 <= m))
  {
    var c := Chunks(x, n, g);
    ChunksPartition(x, n, g);
    KeepFrom(st.filter, c, env.mode);
    var t := TryBatch(env, Keep(st.filter, c, env.mode), st);
    KeepFrom(t.st.filter, Nablas(x, c), env.mode);
    var r := OneRound(env, n, x, g, st);
    if t.hit != [] {
      ChunkSize(c, x, r.hit[0].bs);
    } else if r.hit != [] {
      NablaSize(c, x, r.hit[0].bs);
    }
  }

  lemma ChunkSize(c: seq<Bits>, x: Bits, y: Bits)
    requires Partition(c, x, |c|) && 2 <= |c| && y in c
    ensures |y| < |x| && 2 * |y| <= |x| + 1
  {
    var k :| 0 <= k < |c| && c[k] == y;
    BatchSizes(c, x, k);
  }

  lemma NablaSize(c: seq<Bits>, x: Bits, y: Bits)
    requires Partition(c, x, |c|) && 2 <= |c| && y in Nablas(x, c)
    ensures |c| - 1 <= |y| < |x|
    ensures |c| == 2 ==> 2 * |y| <= |x| + 1
  {
    var k :| 0 <= k < |c| && Nablas(x, c)[k] == y;
    BatchSizes(c, x, k);
    if |c| == 2 {
      TwoHalves(c, x, k);
      BatchSizes(c, x, 1 - k);
    }
  }

  // ----- the whole search -----

  /** The search's solutions form a chain of accepted assignments, and everything it rejects is weaker. */
  lemma {:induction false} DdminSteps(env: Env, n: nat, x: Bits, g: nat, st: State)
    requires Within(x, n) && g >= 2
    ensures var o := Ddmin(env, n, x, g, st);
            && Extends(st, o.st, x)
            && Chain(o.sol, x)
            && Witnessed(env, o.sol, o.st.log, |st.log|)
            && (o.sol != [] && env.mode != Off ==> o.sol[0].bs !in o.st.filter)
    decreases |x|, |x| - g
  {
    if |x| >= g {
      var r := OneRound(env, n, x, g, st);
      RoundHit(env, n, x, g, st);
      RoundSteps(env, n, x, g, st);
      if r.hit != [] {
        var y := r.hit[0].bs;
        DdminSteps(env, n, y, r.g, r.st);
        var o := Ddmin(env, n, y, r.g, r.st);
        StepsOnto(env, st, r.st, o, r.hit, x, y);
        assert r.hit[0].bs in r.st.filter ==> r.hit[0].bs in o.st.filter;
      } else if g < |x| {
        DdminSteps(env, n, x, Min(|x|, 2 * g), r.st);
        StepsOnto(env, st, r.st, Ddmin(env, n, x, Min(|x|, 2 * g), r.st), [], x, x);
      }
    }
  }

  lemma {:induction false} DdminNeverTwice(env: Env, n: nat, x: Bits, g: nat, st: State)
    requires Within(x, n) && g >= 2 && env.mode != Off && NeverTwice(st)
    ensures NeverTwice(Ddmin(env, n, x, g, st).st)
    decreases |x|, |x| - g
  {
    if |x| >= g {
      var r := OneRound(env, n, x, g, st);
      RoundHit(env, n, x, g, st);
      RoundNeverTwice(env, n, x, g, st);
      if r.hit != [] {
        DdminNeverTwice(env, n, r.hit[0].bs, r.g, r.st);
      } else if g < |x| {
        DdminNeverTwice(env, n, x, Min(|x|, 2 * g), r.st);
      }
    }
  }

  /** Ending on at least two 1-bits, clearing any one of them gives an assignment below the filter. */
  lemma {:induction false} DdminOneMinimal(env: Env, n: nat, x: Bits, g: nat, st: State)
    requires Within(x, n) && g >= 2 && (g <= |x| || g == 2)
    ensures var o := Ddmin(env, n, x, g, st);
            |Final(o.sol, x)| >= 2 ==> OneMinimal(o.st.filter, Final(o.sol, x))
    decreases |x|, |x| - g
  {
    if |x| >= g {
      var r := OneRound(env, n, x, g, st);
      RoundHit(env, n, x, g, st);
      RoundSteps(env, n, x, g, st);
      if r.hit != [] {
        RoundSize(env, n, x, g, st);
        DdminOneMinimal(env, n, r.hit[0].bs, r.g, r.st);
      } else if g < |x| {
        DdminOneMinimal(env, n, x, Min(|x|, 2 * g), r.st);
      } else {
        forall j | j in x
          ensures Below(r.st.filter, x - {j})
        {
          ChunksPartition(x, n, g);
          SingleBits(Chunks(x, n, g), x, j);
        }
      }
    }
  }

  /**
   The certificate of delta debugging, with no assumption on the checker and in every filter mode: whatever
   is strictly weaker than the final assignment lies below a filter entry, but for the fully relaxed one.
   */
  lemma DdminCertified(env: Env, n: nat, x: Bits, st: State)
    requires Within(x, n)
    ensures var o := Ddmin(env, n, x, 2, st);
            forall y: Bits :: y < Final(o.sol, x) && y != {} ==> Below(o.st.filter, y)
  {
    var o := Ddmin(env, n, x, 2, st);
    var f := Final(o.sol, x);
    if |f| >= 2 {
      DdminOneMinimal(env, n, x, 2, st);
      OneMinimalCertifies(o.st.filter, f);
    } else {
      forall y: Bits | y < f
        ensures y == {}
      {
        Sets.ProperSubsetSize(y, f);
      }
    }
  }

  // ----- cost -----

  /** An upper bound on the checks made from m 1-bits at granularity g. */
  ghost function Budget(m: nat, g: nat): int {
    if m < g then 0 else if m == g then m * m + m else m * m + 5 * m - 2 * g - 4
  }

  lemma {:induction false} DdminCostFrom(env: Env, n: nat, x: Bits, g: nat, st: State)
    requires Within(x, n) && g >= 2 && (g <= |x| || g == 2)
    ensures |Ddmin(env, n, x, g, st).st.log| - |st.log| <= Budget(|x|, g)
    decreases |x|, |x| - g
  {
    if |x| >= g {
      var r := OneRound(env, n, x, g, st);
      RoundHit(env, n, x, g, st);
      RoundSteps(env, n, x, g, st);
      if r.hit != [] {
        RoundSize(env, n, x, g, st);
        DdminCostFrom(env, n, r.hit[0].bs, r.g, r.st);
        AcceptedPays(|x|, g, |r.hit[0].bs|, r.g);
      } else if g < |x| {
        DdminCostFrom(env, n, x, Min(|x|, 2 * g), r.st);
        RefinementPays(|x|, g);
      } else {
        assert 2 * g <= |x| * |x| + |x|;
      }
    }
  }

  /** The budget covers one round and the budget of the accepted candidate. */
  lemma AcceptedPays(m: nat, g: nat, m': nat, g': nat)
    requires 2 <= g <= m && m' < m
    requires (g' == 2 && 2 * m' <= m + 1) || (g' == g - 1 && 2 <= g - 1 <= m')
    ensures 2 * g + Budget(m', g') <= Budget(m, g)
  {
    if g' == 2 && 2 * m' <= m + 1 {
      HalfPays(m, m');
    } else {
      SquareBelow(m', m);
    }
  }

  lemma HalfPays(m: nat, m': nat)
    requires 2 <= m && 2 * m' <= m + 1
    ensures Budget(m', 2) <= m * m - m
  {
    if m' >= 2 {
      var d: nat := m + 1 - 2 * m';
      assert m * m - m == (2 * m' - 1) * (2 * m' - 2) + d * (m + 2 * m' - 2);
      assert (2 * m' - 1) * (2 * m' - 2) - (m' * m' + 5 * m' - 8) == (3 * m' - 5) * (m' - 2);
      assert (3 * m' - 5) * (m' - 2) >= 0 && d * (m + 2 * m' - 2) >= 0;
    }
  }

  lemma SquareBelow(a: nat, b: nat)
    requires a < b
    ensures a * a <= b * b - 2 * b + 1
  {
    assert (b - 1) * (b - 1) - a * a == (b - 1 - a) * (b - 1 + a);
  }

  /** The budget covers one round and the budget of the next finer granularity. */
  lemma RefinementPays(m: nat, g: nat)
    requires 2 <= g < m
    ensures 2 * g + Budget(m, Min(m, 2 * g)) <= Budget(m, g)
  {
  }

  /** The number of checks is at most quadratic in the number of 1-bits. */
  lemma DdminCost(env: Env, n: nat, x: Bits, st: State)
    requires Within(x, n)
    ensures |Ddmin(env, n, x, 2, st).st.log| - |st.log| <= |x| * |x| + 5 * |x|
  {
    DdminCostFrom(env, n, x, 2, st);
  }
}
