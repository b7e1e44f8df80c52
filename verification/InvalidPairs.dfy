/**
 Linear relaxation over loads and stores, whose bit pairs include one that the operation cannot take.
 Invalid candidates are put into the filter like failing ones, and yet the filter never comes to
 suppress a correct assignment.
 */
module InvalidPairs {
  import opened Search
  import opened LinearRelaxation
  import opened Ordering

  ghost function ValidityOf(kinds: seq<AtomicOp>): Bits -> bool {
    x => ValidFor(kinds, x)
  }

  /** The only correct assignments below c are below zero as well. */
  ghost predicate ReducesTo(c: Bits, zero: Bits, good: Bits -> bool) {
    forall y :: y <= c && good(y) ==> y <= zero
  }

  lemma {:induction false} TryEachSound(
    env: Env, cands: seq<Bits>, st: State, zero: Bits, good: Bits -> bool, valid: Bits -> bool)
    requires Truthful(env, good, valid) && FailureDownClosed(good, valid) && SoundFilter(st.filter, good)
    requires forall c :: c in cands ==> valid(c) || ReducesTo(c, zero, good)
    requires Below(st.filter, zero) || (forall c :: c in cands ==> valid(c)) || (cands != [] && cands[0] == zero && valid(zero))
    ensures var t := TryEach(env, cands, st);
            SoundFilter(t.st.filter, good) && (t.hit != [] ==> valid(t.hit[0].bs))
  {
    if cands != [] {
      var c := cands[0];
      if Contains(st.filter, c, env.mode) {
        assert Below(st.filter, c);
        TryEachSound(env, cands[1..], st, zero, good, valid);
      } else {
        var s := Ask(env, c, st);
        assert Accepted(s) || Failing(s);
        if !Accepted(s) {
          var st' := Checked(env, c, st);
          if valid(c) {
            InsertSound(st.filter, c, good, valid);
          } else {
            InsertReducing(st.filter, c, zero, good);
          }
          if Below(st.filter, zero) {
            BelowGrows(st.filter, st'.filter, zero, zero);
          }
          TryEachSound(env, cands[1..], st', zero, good, valid);
        }
      }
    }
  }

  /** Inserting an invalid assignment adds nothing once the fully relaxed candidate is suppressed. */
  lemma InsertReducing(filter: set<Bits>, c: Bits, zero: Bits, good: Bits -> bool)
    requires SoundFilter(filter, good) && Below(filter, zero) && ReducesTo(c, zero, good)
    ensures SoundFilter(filter + {c}, good)
  {
    forall y | Below(filter + {c}, y)
      ensures !good(y)
    {
      var e :| e in filter + {c} && y <= e;
      if e in filter {
        assert Below(filter, y);
      } else if good(y) {
        BelowGrows(filter, filter, zero, y);
      }
    }
  }

  /** A candidate for one operation changes no other pair, and the one that relaxes it fully is valid. */
  lemma CandidatesValid(kinds: seq<AtomicOp>, bs: Bits, k: nat, good: Bits -> bool)
    requires k < |kinds| && ValidFor(kinds, bs) && forall y :: good(y) ==> ValidFor(kinds, y)
    ensures var zero := bs - {2 * k, 2 * k + 1};
            && ValidFor(kinds, zero)
            && forall c :: c in Candidates(bs, 2 * k) ==> ValidFor(kinds, c) || ReducesTo(c, zero, good)
  {
    var i, zero := 2 * k, bs - {2 * k, 2 * k + 1};
    OtherPairs(kinds, bs, zero, k);
    forall c | c in Candidates(bs, i)
      ensures ValidFor(kinds, c) || ReducesTo(c, zero, good)
    {
      OtherPairs(kinds, bs, c, k);
      if !ValidFor(kinds, c) {
        forall y | y <= c && good(y)
          ensures y <= zero
        {
          assert !GetOrdering(kinds[k], Pair(y, k)).Invalid?;
        }
      }
    }
  }

  lemma OtherPairs(kinds: seq<AtomicOp>, bs: Bits, c: Bits, k: nat)
    requires k < |kinds| && ValidFor(kinds, bs)
    requires bs - {2 * k, 2 * k + 1} <= c <= bs
    ensures ValidFor(kinds, c) <==> !GetOrdering(kinds[k], Pair(c, k)).Invalid?
  {
    forall j | 0 <= j < |kinds| && j != k
      ensures Pair(c, j) == Pair(bs, j)
    {
    }
  }

  /**
   From a valid assignment on, with failure downward closed only among valid assignments, the filter
   stays sound: every valid assignment below any of its entries really fails.
   */
  lemma {:induction false} FromSound(env: Env, kinds: seq<AtomicOp>, k: nat, bs: Bits, st: State, good: Bits -> bool)
    requires Truthful(env, good, ValidityOf(kinds)) && FailureDownClosed(good, ValidityOf(kinds))
    requires k <= |kinds| && ValidFor(kinds, bs) && SoundFilter(st.filter, good)
    ensures var o := From(env, 2 * |kinds|, 2 * k, bs, st);
            SoundFilter(o.st.filter, good) && ValidFor(kinds, Final(o.sol, bs))
    decreases |kinds| - k
  {
    if k < |kinds| {
      var t := TryEach(env, Candidates(bs, 2 * k), st);
      var y := Final(t.hit, bs);
      OperationSound(env, kinds, k, bs, st, good);
      FromSound(env, kinds, k + 1, y, t.st, good);
      assert 2 * (k + 1) == 2 * k + 2;
      var o, rest := From(env, 2 * |kinds|, 2 * k, bs, st), From(env, 2 * |kinds|, 2 * k + 2, y, t.st);
      assert o.st == rest.st && Final(o.sol, bs) == Final(rest.sol, y) by {
        FromStep(env, 2 * |kinds|, 2 * k, bs, st);
      }
    }
  }

  lemma OperationSound(env: Env, kinds: seq<AtomicOp>, k: nat, bs: Bits, st: State, good: Bits -> bool)
    requires Truthful(env, good, ValidityOf(kinds)) && FailureDownClosed(good, ValidityOf(kinds))
    requires k < |kinds| && ValidFor(kinds, bs) && SoundFilter(st.filter, good)
    ensures var t := TryEach(env, Candidates(bs, 2 * k), st);
            SoundFilter(t.st.filter, good) && ValidFor(kinds, Final(t.hit, bs))
  {
    var valid := ValidityOf(kinds);
    assert forall y :: valid(y) <==> ValidFor(kinds, y);
    CandidatesValid(kinds, bs, k, good);
    OnePairIsValid(kinds, bs, k);
    TryEachSound(env, Candidates(bs, 2 * k), st, bs - {2 * k, 2 * k + 1}, good, valid);
  }

  /** An invalid candidate occurs only after the fully relaxed one, for an operation with both bits set. */
  lemma OnePairIsValid(kinds: seq<AtomicOp>, bs: Bits, k: nat)
    requires k < |kinds| && ValidFor(kinds, bs)
    ensures var cands := Candidates(bs, 2 * k);
            (forall c :: c in cands ==> ValidFor(kinds, c)) || cands[0] == bs - {2 * k, 2 * k + 1}
  {
    var cands := Candidates(bs, 2 * k);
    if 2 * k in bs && 2 * k + 1 in bs {
    } else {
      forall c | c in cands
        ensures ValidFor(kinds, c)
      {
        OtherPairs(kinds, bs, c, k);
      }
    }
  }

  /**
   Minimality of linear relaxation: over valid assignments, starting from a sound filter, nothing
   strictly weaker than the final assignment is correct, whatever the filter mode.
   */
  lemma RelaxMinimal(env: Env, kinds: seq<AtomicOp>, bs: Bits, st: State, good: Bits -> bool)
    requires Truthful(env, good, ValidityOf(kinds)) && FailureDownClosed(good, ValidityOf(kinds))
    requires ValidFor(kinds, bs) && SoundFilter(st.filter, good) && forall j :: j in bs ==> j < 2 * |kinds|
    ensures var o := Relax(env, 2 * |kinds|, bs, st);
            && SoundFilter(o.st.filter, good)
            && forall y: Bits :: y < Final(o.sol, bs) ==> !good(y)
  {
    var o := Relax(env, 2 * |kinds|, bs, st);
    FromSound(env, kinds, 0, bs, st, good);
    RelaxCertified(env, 2 * |kinds|, bs, st);
    CertifiedIsMinimal(o.st.filter, Final(o.sol, bs), good);
  }

  /**
   Where the k-th operation had both bits in x and f has given up acquire strength, to have given up release
   strength instead is not correct.
   */
  ghost predicate AcquireFirst(x: Bits, f: Bits, good: Bits -> bool) {
    forall k: nat :: 2 * k in x && 2 * k + 1 in x && 2 * k in f && 2 * k + 1 !in f ==>
      !good(f - {2 * k} + {2 * k + 1})
  }

  /** Acquire strength is given up only after release strength could not be. */
  lemma RelaxAcquireFirst(env: Env, kinds: seq<AtomicOp>, x: Bits, st: State, good: Bits -> bool)
    requires Truthful(env, good, ValidityOf(kinds)) && FailureDownClosed(good, ValidityOf(kinds))
    requires ValidFor(kinds, x) && SoundFilter(st.filter, good) && forall j :: j in x ==> j < 2 * |kinds|
    ensures AcquireFirst(x, Final(Relax(env, 2 * |kinds|, x, st).sol, x), good)
  {
    var o := Relax(env, 2 * |kinds|, x, st);
    var f := Final(o.sol, x);
    FromSound(env, kinds, 0, x, st, good);
    RelaxPrefers(env, |kinds|, x, st);
    forall k: nat | 2 * k in x && 2 * k + 1 in x && 2 * k in f && 2 * k + 1 !in f
      ensures !good(f - {2 * k} + {2 * k + 1})
    {
      assert PreferredAt(o.st.filter, f, x, k);
      assert f - {2 * k} + {2 * k + 1} <= Mixed(f, x, 2 * k) - {2 * k};
      BelowGrows(o.st.filter, o.st.filter, Mixed(f, x, 2 * k) - {2 * k}, f - {2 * k} + {2 * k + 1});
    }
  }
}
