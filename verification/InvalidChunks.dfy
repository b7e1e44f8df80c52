/**
 Delta debugging over loads and stores. A chunk may leave an operation with a bit pair it cannot take;
 under the relaxed filter the rejected chunk then hides what lies below it. This module says when that
 cannot hide a correct assignment, and from that exactly when the result is minimal.
 */
module InvalidChunks {
  import opened Search
  import opened Ordering
  import opened InvalidPairs
  import opened Chunking
  import opened DeltaDebugging
  import Sets

  ghost predicate NoneBefore(x: Bits, i: nat) { forall v :: v in x ==> v >= i }

  ghost predicate NoneFrom(x: Bits, i: nat) { forall v :: v in x ==> v < i }

  /**
   Chunks hide nothing below x: a sequentially consistent load is the first or the last operation that
   has a 1-bit in x, and a sequentially consistent store is the last one.
   */
  ghost predicate Sheltered(kinds: seq<AtomicOp>, x: Bits) {
    forall k: nat :: k < |kinds| && 2 * k in x && 2 * k + 1 in x ==>
      && (kinds[k].Load? ==> NoneBefore(x, 2 * k) || NoneFrom(x, 2 * k + 2))
      && (kinds[k].Store? ==> NoneFrom(x, 2 * k + 2))
  }

  /** The assignment with operation k fully relaxed. */
  ghost function WithoutOp(x: Bits, k: nat): Bits { x - {2 * k, 2 * k + 1} }

  /** Minimal among all assignments. */
  ghost predicate Minimal(x: Bits, good: Bits -> bool) {
    forall y: Bits :: y < x ==> !good(y)
  }

  // ----- bit pairs -----

  /** An invalid part of a valid assignment keeps one bit of a sequentially consistent load or store. */
  lemma BrokenPair(kinds: seq<AtomicOp>, x: Bits, z: Bits) returns (k: nat)
    requires ValidFor(kinds, x) && z <= x && !ValidFor(kinds, z)
    ensures k < |kinds| && 2 * k in x && 2 * k + 1 in x
    ensures (kinds[k].Load? && 2 * k in z && 2 * k + 1 !in z) || (kinds[k].Store? && 2 * k !in z && 2 * k + 1 in z)
  {
    k :| k < |kinds| && GetOrdering(kinds[k], Pair(z, k)).Invalid?;
    assert !GetOrdering(kinds[k], Pair(x, k)).Invalid?;
  }

  /** A valid assignment below one with a broken pair relaxes that operation fully. */
  lemma BelowBroken(kinds: seq<AtomicOp>, z: Bits, y: Bits, k: nat)
    requires k < |kinds| && ValidFor(kinds, y) && y <= z
    requires (kinds[k].Load? && 2 * k + 1 !in z) || (kinds[k].Store? && 2 * k !in z)
    ensures 2 * k !in y && 2 * k + 1 !in y
  {
    assert !GetOrdering(kinds[k], Pair(y, k)).Invalid?;
  }

  lemma RelaxedValid(kinds: seq<AtomicOp>, x: Bits, k: nat)
    requires k < |kinds| && ValidFor(kinds, x)
    ensures ValidFor(kinds, WithoutOp(x, k))
  {
    OtherPairs(kinds, x, WithoutOp(x, k), k);
    assert !GetOrdering(kinds[k], Pair(x, k)).Invalid?;
  }

  /** Of the two bits of a sequentially consistent load or store, one can be cleared alone. */
  lemma ClearOne(kinds: seq<AtomicOp>, x: Bits, k: nat)
    requires k < |kinds| && ValidFor(kinds, x) && 2 * k in x && 2 * k + 1 in x
    ensures kinds[k].Load? ==> ValidFor(kinds, x - {2 * k})
    ensures kinds[k].Store? ==> ValidFor(kinds, x - {2 * k + 1})
  {
    OtherPairs(kinds, x, x - {2 * k}, k);
    OtherPairs(kinds, x, x - {2 * k + 1}, k);
  }

  /** When clearing any single bit of x fails, so does everything strictly weaker. */
  lemma ClearingsDecide(kinds: seq<AtomicOp>, x: Bits, good: Bits -> bool)
    requires ValidFor(kinds, x) && FailureDownClosed(good, ValidityOf(kinds))
    requires forall y :: good(y) ==> ValidFor(kinds, y)
    requires forall j :: j in x ==> !good(x - {j})
    ensures Minimal(x, good)
  {
    forall y: Bits | y < x
      ensures !good(y)
    {
      if ValidFor(kinds, y) {
        var j :| j in x && j !in y;
        var z := x - {j};
        if !ValidFor(kinds, z) {
          var k := BrokenPair(kinds, x, z);
          BelowBroken(kinds, z, y, k);
          ClearOne(kinds, x, k);
          z := if kinds[k].Load? then x - {2 * k} else x - {2 * k + 1};
        }
        assert ValidityOf(kinds)(z) && ValidityOf(kinds)(y) && y <= z && !good(z);
      }
    }
  }

  // ----- batches -----

  /** What lies below an invalid candidate and is correct also lies below a valid one tried earlier. */
  ghost predicate Shielded(cands: seq<Bits>, good: Bits -> bool, valid: Bits -> bool) {
    forall k, y | 0 <= k < |cands| && !valid(cands[k]) && y <= cands[k] && good(y) :: Earlier(cands, k, y, valid)
  }

  ghost predicate Earlier(cands: seq<Bits>, k: nat, y: Bits, valid: Bits -> bool)
    requires k <= |cands|
  {
    exists j :: 0 <= j < k && valid(cands[j]) && y <= cands[j]
  }

  /** Trying a batch keeps the filter innocent, and when all candidates are passed over, all of them fail. */
  lemma {:induction false} TurnInnocent(env: Env, cands: seq<Bits>, st: State, good: Bits -> bool, valid: Bits -> bool)
    requires Truthful(env, good, valid) && FailureDownClosed(good, valid) && Innocent(st.filter, good, env.mode)
    requires env.mode.Rlx? ==> Shielded(cands, good, valid)
    ensures var t := TryInTurn(env, cands, st);
            && Innocent(t.st.filter, good, env.mode)
            && (t.hit == [] ==> forall c :: c in cands ==> !good(c))
            && (t.hit != [] ==> valid(t.hit[0].bs))
  {
    if cands != [] {
      var c, rest := cands[0], cands[1..];
      assert Accepted(Ask(env, c, st)) || Failing(Ask(env, c, st));
      if Contains(st.filter, c, env.mode) {
        if env.mode.Rlx? {
          ShieldedRest(cands, st.filter, good, valid);
        }
        TurnInnocent(env, rest, st, good, valid);
      } else if !Accepted(Ask(env, c, st)) {
        var st' := Refused(env, c, st);
        assert st'.filter == st.filter + {c};
        if env.mode.Rlx? {
          FirstHidesNothing(cands, good, valid);
        }
        InsertInnocent(st.filter, c, good, env.mode);
        if env.mode.Rlx? {
          assert c in st'.filter && Below(st'.filter, c);
          ShieldedRest(cands, st'.filter, good, valid);
        }
        TurnInnocent(env, rest, st', good, valid);
      }
    }
  }

  lemma FirstHidesNothing(cands: seq<Bits>, good: Bits -> bool, valid: Bits -> bool)
    requires cands != [] && Shielded(cands, good, valid) && FailureDownClosed(good, valid) && !good(cands[0])
    requires forall y :: good(y) ==> valid(y)
    ensures forall y :: y <= cands[0] ==> !good(y)
  {
    forall y | y <= cands[0]
      ensures !good(y)
    {
      assert !Earlier(cands, 0, y, valid);
    }
  }

  lemma ShieldedRest(cands: seq<Bits>, filter: set<Bits>, good: Bits -> bool, valid: Bits -> bool)
    requires cands != [] && Shielded(cands, good, valid) && Innocent(filter, good, Rlx) && Below(filter, cands[0])
    ensures Shielded(cands[1..], good, valid)
  {
    var rest := cands[1..];
    forall y | y <= cands[0]
      ensures !good(y)
    {
      BelowGrows(filter, filter, cands[0], y);
      assert Contains(filter, y, Rlx);
    }
    forall k, y | 0 <= k < |rest| && !valid(rest[k]) && y <= rest[k] && good(y)
      ensures Earlier(rest, k, y, valid)
    {
      assert Earlier(cands, k + 1, y, valid);
      var j :| 0 <= j < k + 1 && valid(cands[j]) && y <= cands[j];
      assert rest[j - 1] == cands[j];
    }
  }

  // ----- the chunks of one granularity -----

  /** Chunks of x in order. */
  ghost predicate Cut(c: seq<Bits>, x: Bits) {
    Partition(c, x, |c|) && Ordered(c) && 2 <= |c|
  }

  lemma ChunkOf(c: seq<Bits>, x: Bits, v: nat) returns (i: nat)
    requires Cut(c, x) && v in x
    ensures i < |c| && v in c[i]
  {
    assert InSome(c, v);
    i :| 0 <= i < |c| && v in c[i];
  }

  /** A chunk with the lower but not the upper bit of a sheltered load has no other bit. */
  lemma LowerAlone(c: seq<Bits>, x: Bits, i: nat, k: nat)
    requires Cut(c, x) && i < |c| && 2 * k in c[i] && 2 * k + 1 in x && 2 * k + 1 !in c[i]
    requires NoneBefore(x, 2 * k) || NoneFrom(x, 2 * k + 2)
    ensures c[i] == {2 * k}
  {
    var j := ChunkOf(c, x, 2 * k + 1);
    assert i < j;
    if NoneBefore(x, 2 * k) {
      forall v | v in c[i]
        ensures v == 2 * k
      {
        assert v in x && v < 2 * k + 1;
      }
    } else {
      UpperAlone(c, x, j, i, k);
      assert |c[j]| == 1;
      SingleSet(c[i], 2 * k);
    }
  }

  /** The chunk with the last bit of x has no other bit if the one before is in another chunk. */
  lemma UpperAlone(c: seq<Bits>, x: Bits, j: nat, i: nat, k: nat)
    requires Cut(c, x) && i < j < |c| && 2 * k in c[i] && 2 * k + 1 in c[j] && NoneFrom(x, 2 * k + 2)
    ensures c[j] == {2 * k + 1}
  {
    forall v | v in c[j]
      ensures v == 2 * k + 1
    {
      assert v in x && v > 2 * k;
    }
  }

  /** Only single bits are invalid chunks, and nothing but the fully relaxed assignment lies below them. */
  lemma ChunksShielded(kinds: seq<AtomicOp>, x: Bits, c: seq<Bits>, good: Bits -> bool)
    requires ValidFor(kinds, x) && Sheltered(kinds, x) && Cut(c, x) && !good({})
    requires forall y :: good(y) ==> ValidFor(kinds, y)
    ensures Shielded(c, good, ValidityOf(kinds))
  {
    forall i, y | 0 <= i < |c| && !ValidityOf(kinds)(c[i]) && y <= c[i]
      ensures !good(y)
    {
      var k := BrokenPair(kinds, x, c[i]);
      if kinds[k].Load? {
        LowerAlone(c, x, i, k);
      } else {
        var j := ChunkOf(c, x, 2 * k);
        assert j < i;
        UpperAlone(c, x, i, j, k);
      }
      assert y == {} || y == c[i];
    }
  }

  /** The last operation, if it is a sequentially consistent store, cannot be relaxed fully. */
  ghost predicate StoreNeeded(kinds: seq<AtomicOp>, x: Bits, good: Bits -> bool) {
    forall k: nat :: k < |kinds| && kinds[k].Store? && 2 * k in x && 2 * k + 1 in x ==> !good(WithoutOp(x, k))
  }

  /** An invalid complement hides nothing: the valid way to weaken the operation is tried before it. */
  lemma NablasShielded(kinds: seq<AtomicOp>, x: Bits, c: seq<Bits>, good: Bits -> bool)
    requires ValidFor(kinds, x) && Sheltered(kinds, x) && Cut(c, x)
    requires |x| == |c| ==> StoreNeeded(kinds, x, good)
    requires forall y :: good(y) ==> ValidFor(kinds, y)
    requires FailureDownClosed(good, ValidityOf(kinds))
    ensures Shielded(Nablas(x, c), good, ValidityOf(kinds))
  {
    var d := Nablas(x, c);
    forall i, y | 0 <= i < |d| && !ValidityOf(kinds)(d[i]) && y <= d[i] && ValidFor(kinds, y)
      ensures good(y) ==> Earlier(d, i, y, ValidityOf(kinds))
    {
      var k := BrokenPair(kinds, x, d[i]);
      BelowBroken(kinds, d[i], y, k);
      if kinds[k].Load? {
        LoadComplement(kinds, x, c, i, k);
        var j: nat :| j < i && d[j] == x - {2 * k};
        assert ValidityOf(kinds)(d[j]) && y <= d[j];
      } else {
        StoreComplement(kinds, x, c, i, k);
        RelaxedValid(kinds, x, k);
        assert ValidityOf(kinds)(WithoutOp(x, k)) && ValidityOf(kinds)(y) && y <= WithoutOp(x, k);
      }
    }
  }

  lemma LoadComplement(kinds: seq<AtomicOp>, x: Bits, c: seq<Bits>, i: nat, k: nat)
    requires ValidFor(kinds, x) && Sheltered(kinds, x) && Cut(c, x) && i < |c|
    requires k < |kinds| && kinds[k].Load? && 2 * k in x && 2 * k + 1 in x
    requires 2 * k !in c[i] && 2 * k + 1 in c[i]
    ensures ValidFor(kinds, x - {2 * k})
    ensures exists j: nat :: j < i && Nablas(x, c)[j] == x - {2 * k}
  {
    var j := ChunkOf(c, x, 2 * k);
    assert c[i] !! c[j] by {
      assert i != j;
    }
    LowerAlone(c, x, j, k);
    ClearOne(kinds, x, k);
    assert j < i && Nablas(x, c)[j] == x - {2 * k};
  }

  lemma StoreComplement(kinds: seq<AtomicOp>, x: Bits, c: seq<Bits>, i: nat, k: nat)
    requires Sheltered(kinds, x) && Cut(c, x) && i < |c|
    requires k < |kinds| && kinds[k].Store? && 2 * k in x && 2 * k + 1 in x
    requires 2 * k in c[i] && 2 * k + 1 !in c[i]
    ensures |x| == |c|
  {
    var j := ChunkOf(c, x, 2 * k + 1);
    assert i < j;
    UpperAlone(c, x, j, i, k);
    LastHasTop(c, x, j, k);
    forall a | 0 <= a < |c|
      ensures |c[a]| <= 1
    {
      assert a < j ==> |c[a]| <= |c[j]|;
    }
    Singletons(c, x);
    DisjointCount(c, x);
  }

  lemma LastHasTop(c: seq<Bits>, x: Bits, j: nat, k: nat)
    requires Cut(c, x) && j < |c| && 2 * k + 1 in c[j] && NoneFrom(x, 2 * k + 2)
    ensures j == |c| - 1
  {
    var l := |c| - 1;
    var v :| v in c[l];
    assert v in x && (j < l ==> v > 2 * k + 1);
  }

  lemma {:induction false} Singletons(c: seq<Bits>, x: Bits)
    requires Parts(c, x) && Disjoint(c) && Covers(c, x) && forall a :: 0 <= a < |c| ==> |c[a]| <= 1
    ensures |x| <= |c|
  {
    if c == [] {
      assert forall v :: v in x ==> InSome(c, v);
      assert x == {};
    } else {
      var rest, x' := c[1..], x - c[0];
      Sets.SubsetSize(c[0], x);
      forall v | v in x'
        ensures InSome(rest, v)
      {
        assert InSome(c, v);
        var a :| 0 <= a < |c| && v in c[a];
        assert rest[a - 1] == c[a];
      }
      assert Parts(rest, x') by {
        assert forall a :: 0 <= a < |rest| ==> rest[a] == c[a + 1] && c[0] !! c[a + 1];
      }
      assert Disjoint(rest);
      Singletons(rest, x');
    }
  }

  // ----- from one granularity to the next -----

  /** At the finest granularity the last operation, if a sequentially consistent store, is needed. */
  ghost predicate Settled(kinds: seq<AtomicOp>, x: Bits, g: nat, good: Bits -> bool) {
    g == |x| ==> StoreNeeded(kinds, x, good)
  }

  /** Being sheltered is kept by weakening. */
  lemma ShelteredBelow(kinds: seq<AtomicOp>, x: Bits, y: Bits)
    requires Sheltered(kinds, x) && y <= x
    ensures Sheltered(kinds, y)
  {
  }

  lemma PairIsAll(y: Bits, k: nat)
    requires 2 * k in y && 2 * k + 1 in y && |y| == 2
    ensures WithoutOp(y, k) == {}
  {
    Sets.SubsetSize({2 * k, 2 * k + 1}, y);
    assert |y - {2 * k, 2 * k + 1}| == 0;
  }

  /** With two 1-bits left only the fully relaxed assignment is in question. */
  lemma TwoSettled(kinds: seq<AtomicOp>, y: Bits, good: Bits -> bool)
    requires !good({})
    ensures Settled(kinds, y, 2, good)
  {
    if |y| == 2 {
      forall k: nat | k < |kinds| && kinds[k].Store? && 2 * k in y && 2 * k + 1 in y
        ensures !good(WithoutOp(y, k))
      {
        PairIsAll(y, k);
      }
    }
  }

  /** Before the finest granularity the last chunk was the last two 1-bits, and its complement was tried. */
  lemma FinestSettled(kinds: seq<AtomicOp>, x: Bits, c: seq<Bits>, good: Bits -> bool)
    requires Sheltered(kinds, x) && Cut(c, x) && |c| < |x|
    requires forall a :: 0 <= a < |c| ==> |c[a]| <= 2
    requires forall b :: b in Nablas(x, c) ==> !good(b)
    ensures StoreNeeded(kinds, x, good)
  {
    forall k: nat | k < |kinds| && kinds[k].Store? && 2 * k in x && 2 * k + 1 in x
      ensures !good(WithoutOp(x, k))
    {
      LastIsPair(c, x, k);
      var j := |c| - 1;
      assert |c[j]| <= 2 && {2 * k, 2 * k + 1} <= c[j];
      Sets.SubsetSize({2 * k, 2 * k + 1}, c[j]);
      assert c[j] - {2 * k, 2 * k + 1} == {};
      assert Nablas(x, c)[j] == WithoutOp(x, k);
    }
  }

  /** With fewer chunks than 1-bits, the last chunk holds both bits of the last operation. */
  lemma LastIsPair(c: seq<Bits>, x: Bits, k: nat)
    requires Cut(c, x) && |c| < |x| && 2 * k in x && 2 * k + 1 in x && NoneFrom(x, 2 * k + 2)
    ensures 2 * k in c[|c| - 1] && 2 * k + 1 in c[|c| - 1]
  {
    var j := ChunkOf(c, x, 2 * k + 1);
    LastHasTop(c, x, j, k);
    var i := ChunkOf(c, x, 2 * k);
    if i < j {
      UpperAlone(c, x, j, i, k);
      assert forall a :: 0 <= a < j ==> |c[a]| <= |c[j]|;
      Singletons(c, x);
    }
  }

  /** After a complement was accepted, the next granularity is settled as well. */
  lemma NablaSettled(kinds: seq<AtomicOp>, x: Bits, c: seq<Bits>, i: nat, good: Bits -> bool)
    requires Sheltered(kinds, x) && Cut(c, x) && i < |c| && 2 < |c|
    requires Settled(kinds, x, |c|, good) && ValidFor(kinds, x) && ValidFor(kinds, x - c[i])
    requires FailureDownClosed(good, ValidityOf(kinds))
    ensures Settled(kinds, x - c[i], |c| - 1, good)
  {
    var y := x - c[i];
    forall k: nat | k < |kinds| && kinds[k].Store? && 2 * k in y && 2 * k + 1 in y
      ensures |y| == |c| - 1 ==> !good(WithoutOp(y, k))
    {
      if |c| < |x| {
        LastIsPair(c, x, k);
        SpareBit(c, x, i, k);
      } else {
        DisjointCount(c, x);
        RelaxedValid(kinds, x, k);
        RelaxedValid(kinds, y, k);
        assert ValidityOf(kinds)(WithoutOp(x, k)) && ValidityOf(kinds)(WithoutOp(y, k));
        assert WithoutOp(y, k) <= WithoutOp(x, k);
      }
    }
  }

  /** Without a chunk, there is a bit for each of the others and one more when the last of them has two. */
  lemma SpareBit(c: seq<Bits>, x: Bits, i: nat, k: nat)
    requires Cut(c, x) && i < |c| && 2 * k + 1 !in c[i]
    requires 2 * k in c[|c| - 1] && 2 * k + 1 in c[|c| - 1]
    ensures |c| <= |x - c[i]|
  {
    var l := |c| - 1;
    var one: Bits := {2 * k};
    var c', x' := c[l := one], x - {2 * k + 1};
    assert c'[i] == c[i];
    forall a | 0 <= a < |c'|
      ensures c'[a] != {} && c'[a] <= x'
    {
      assert a < l ==> c[a] !! c[l];
    }
    assert forall a, b :: 0 <= a < b < |c'| ==> c[a] !! c[b] && c'[a] <= c[a] && c'[b] <= c[b];
    OtherParts(c', x', i);
    assert x' - c[i] == (x - c[i]) - {2 * k + 1};
    assert |x' - c[i]| == |x - c[i]| - 1;
  }

  // ----- one round -----

  lemma ChunksCut(x: Bits, n: nat, g: nat)
    requires Within(x, n) && 2 <= g <= |x|
    ensures Cut(Chunks(x, n, g), x) && |Chunks(x, n, g)| == g
  {
    ChunksPartition(x, n, g);
    ChunksOrdered(x, n, g);
  }

  /** What the theorems about delta debugging start from: a truthful checker, and monotone correctness. */
  ghost predicate Fair(env: Env, kinds: seq<AtomicOp>, good: Bits -> bool) {
    Truthful(env, good, ValidityOf(kinds)) && FailureDownClosed(good, ValidityOf(kinds))
  }

  /** A search at x with granularity g whose filter has hidden nothing, and under Rlx cannot come to. */
  ghost predicate Careful(env: Env, kinds: seq<AtomicOp>, x: Bits, g: nat, st: State, good: Bits -> bool) {
    && ValidFor(kinds, x) && Within(x, 2 * |kinds|) && Innocent(st.filter, good, env.mode)
    && (env.mode.Rlx? ==> Sheltered(kinds, x) && !good({}) && Settled(kinds, x, g, good))
  }

  /** The outcome of a round: the filter stays innocent, and unless one is accepted all complements fail. */
  lemma RoundInnocent(env: Env, kinds: seq<AtomicOp>, x: Bits, g: nat, st: State, good: Bits -> bool)
    requires Fair(env, kinds, good) && Careful(env, kinds, x, g, st, good) && 2 <= g <= |x|
    ensures var r := OneRound(env, 2 * |kinds|, x, g, st);
            && Innocent(r.st.filter, good, env.mode)
            && (r.hit != [] ==> ValidFor(kinds, r.hit[0].bs))
            && (r.hit == [] ==> forall b :: b in Nablas(x, Chunks(x, 2 * |kinds|, g)) ==> !good(b))
  {
    var c, valid := Chunks(x, 2 * |kinds|, g), ValidityOf(kinds);
    ChunksCut(x, 2 * |kinds|, g);
    BatchShape(c, x);
    BatchIsExact(env, c, x, st);
    if env.mode.Rlx? {
      ChunksShielded(kinds, x, c, good);
      NablasShielded(kinds, x, c, good);
    }
    TurnInnocent(env, c, st, good, valid);
    var t := TryInTurn(env, c, st);
    BatchIsExact(env, Nablas(x, c), x, t.st);
    TurnInnocent(env, Nablas(x, c), t.st, good, valid);
  }

  /** The assignment and granularity a round goes on with are settled again. */
  lemma RoundSettled(env: Env, kinds: seq<AtomicOp>, x: Bits, g: nat, st: State, good: Bits -> bool)
    requires Fair(env, kinds, good) && Careful(env, kinds, x, g, st, good) && 2 <= g <= |x| && env.mode.Rlx?
    ensures var r := OneRound(env, 2 * |kinds|, x, g, st);
            && (r.hit != [] ==> Settled(kinds, r.hit[0].bs, r.g, good))
            && (r.hit == [] && g < |x| ==> Settled(kinds, x, Min(|x|, 2 * g), good))
  {
    var n, r := 2 * |kinds|, OneRound(env, 2 * |kinds|, x, g, st);
    var c := Chunks(x, n, g);
    ChunksCut(x, n, g);
    RoundInnocent(env, kinds, x, g, st, good);
    if r.hit == [] {
      if g < |x| <= 2 * g {
        ChunksPairs(x, n, g);
        FinestSettled(kinds, x, c, good);
      }
    } else {
      TwoSettled(kinds, r.hit[0].bs, good);
      if r.g != 2 {
        var i := ComplementHit(env, n, x, g, st);
        NablaSettled(kinds, x, c, i, good);
      }
    }
  }

  /** A round that goes on with another granularity than 2 has accepted a complement. */
  lemma ComplementHit(env: Env, n: nat, x: Bits, g: nat, st: State) returns (i: nat)
    requires Within(x, n) && 2 <= g <= |x| && OneRound(env, n, x, g, st).hit != [] && OneRound(env, n, x, g, st).g != 2
    ensures var r := OneRound(env, n, x, g, st);
            i < g == |Chunks(x, n, g)| && r.hit[0].bs == x - Chunks(x, n, g)[i] && 2 < g && r.g == g - 1
  {
    var c, r := Chunks(x, n, g), OneRound(env, n, x, g, st);
    ChunksPartition(x, n, g);
    var t := TryBatch(env, Keep(st.filter, c, env.mode), st);
    var keep := Keep(t.st.filter, Nablas(x, c), env.mode);
    KeepFrom(t.st.filter, Nablas(x, c), env.mode);
    assert r.hit[0].bs in keep;
    i :| 0 <= i < |c| && Nablas(x, c)[i] == r.hit[0].bs;
  }

  // ----- the whole search -----

  /** The filter stays innocent, and ending on at least two 1-bits, clearing any single one fails. */
  lemma {:induction false} DdminInnocent(
    env: Env, kinds: seq<AtomicOp>, x: Bits, g: nat, st: State, good: Bits -> bool)
    requires Fair(env, kinds, good) && Careful(env, kinds, x, g, st, good) && g >= 2 && (g <= |x| || g == 2)
    ensures var o := Ddmin(env, 2 * |kinds|, x, g, st);
            && Innocent(o.st.filter, good, env.mode)
            && ValidFor(kinds, Final(o.sol, x))
            && (|Final(o.sol, x)| >= 2 ==> forall j :: j in Final(o.sol, x) ==> !good(Final(o.sol, x) - {j}))
    decreases |x|, |x| - g
  {
    var n := 2 * |kinds|;
    if |x| >= g {
      var r := OneRound(env, n, x, g, st);
      RoundHit(env, n, x, g, st);
      RoundInnocent(env, kinds, x, g, st, good);
      if env.mode.Rlx? {
        RoundSettled(env, kinds, x, g, st, good);
      }
      if r.hit != [] {
        RoundSize(env, n, x, g, st);
        if env.mode.Rlx? {
          ShelteredBelow(kinds, x, r.hit[0].bs);
        }
        DdminInnocent(env, kinds, r.hit[0].bs, r.g, r.st, good);
      } else if g < |x| {
        DdminInnocent(env, kinds, x, Min(|x|, 2 * g), r.st, good);
      } else {
        ChunksPartition(x, n, g);
        forall j | j in x
          ensures !good(x - {j})
        {
          SingleBits(Chunks(x, n, g), x, j);
        }
      }
    }
  }

  /** Delta debugging never clears the last bit. */
  lemma {:induction false} DdminKeepsSome(env: Env, n: nat, x: Bits, g: nat, st: State)
    requires Within(x, n) && g >= 2 && x != {}
    ensures Final(Ddmin(env, n, x, g, st).sol, x) != {}
    decreases |x|, |x| - g
  {
    if |x| >= g {
      var r := OneRound(env, n, x, g, st);
      RoundHit(env, n, x, g, st);
      if r.hit != [] {
        RoundSome(env, n, x, g, st);
        DdminKeepsSome(env, n, r.hit[0].bs, r.g, r.st);
      } else if g < |x| {
        DdminKeepsSome(env, n, x, Min(|x|, 2 * g), r.st);
      }
    }
  }

  lemma RoundSome(env: Env, n: nat, x: Bits, g: nat, st: State)
    requires Within(x, n) && 2 <= g <= |x|
    ensures var r := OneRound(env, n, x, g, st); r.hit != [] ==> r.hit[0].bs != {}
  {
    var c, r := Chunks(x, n, g), OneRound(env, n, x, g, st);
    ChunksPartition(x, n, g);
    var t := TryBatch(env, Keep(st.filter, c, env.mode), st);
    KeepFrom(st.filter, c, env.mode);
    KeepFrom(t.st.filter, Nablas(x, c), env.mode);
    if r.hit != [] && r.hit[0].bs !in c {
      NablaSize(c, x, r.hit[0].bs);
    }
  }

  /**
   Delta debugging ends with a minimal assignment if and only if there was nothing to relax, or the fully
   relaxed assignment is not correct. That holds for loads and stores too in every filter mode but Rlx,
   and under Rlx for every sheltered assignment.
   */
  lemma DdminMinimal(env: Env, kinds: seq<AtomicOp>, x: Bits, st: State, good: Bits -> bool)
    requires Fair(env, kinds, good) && ValidFor(kinds, x) && Within(x, 2 * |kinds|)
    requires Innocent(st.filter, good, env.mode) && (env.mode.Rlx? ==> Sheltered(kinds, x))
    ensures var o := Ddmin(env, 2 * |kinds|, x, 2, st);
            && (Minimal(Final(o.sol, x), good) <==> x == {} || !good({}))
            && (!env.mode.Rlx? || !good({}) ==> Innocent(o.st.filter, good, env.mode))
  {
    var o := Ddmin(env, 2 * |kinds|, x, 2, st);
    var f := Final(o.sol, x);
    if x == {} {
      assert o == Outcome([], st);
    } else {
      DdminKeepsSome(env, 2 * |kinds|, x, 2, st);
      assert {} < f;
    }
    if !(env.mode.Rlx? && good({})) {
      if !good({}) {
        TwoSettled(kinds, x, good);
      }
      DdminInnocent(env, kinds, x, 2, st, good);
      if |f| >= 2 {
        ClearingsDecide(kinds, f, good);
      } else {
        forall y: Bits | y < f
          ensures y == {}
        {
          Sets.ProperSubsetSize(y, f);
        }
      }
    }
  }
}
