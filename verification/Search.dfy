/**
 The vocabulary of the relaxation search: an assignment is the set of indices of its 1-bits, the
 checker is an arbitrary reply function, and a search state is what the driver remembers, namely
 the rejected assignments and the checks made so far.
 */
module Search {

  type Bits = set<nat>

  datatype Status = Undefined | OK | NotSafe | NotLive | Invalid | Timeout | Rejected

  /** The three filter strategies; Off is the source's None. */
  datatype Mode = Off | Dup | Rlx

  /** An assignment with the status a check gave it: a solution, or one line of the log. */
  datatype Entry = Entry(bs: Bits, status: Status)

  /**
   What one pass of the search depends on: the filter mode, the deadline tau, and the checker.
   `reply(k, x, tau)` is the answer to the k-th check of the run when that check asks about x under
   deadline tau. As it may differ from one k to the next, every behaviour of a checker that answers
   differently each time it is asked is one such function.
   */
  datatype Env = Env(mode: Mode, reply: (nat, Bits, int) -> Status, tau: int)

  datatype State = State(filter: set<Bits>, log: seq<Entry>)

  /** A list of solutions, most relaxed first, and the state the search ended in. */
  datatype Outcome = Outcome(sol: seq<Entry>, st: State)

  /** What trying some candidates gives: the one that was accepted, if any, and the new state. */
  datatype Tried = Tried(hit: seq<Entry>, st: State)

  predicate Accepted(s: Status) { s.OK? || s.Timeout? }

  /** The statuses that put an assignment into the filter. */
  predicate Failing(s: Status) { s.NotSafe? || s.NotLive? || s.Invalid? }

  ghost predicate Below(filter: set<Bits>, x: Bits) {
    exists e :: e in filter && x <= e
  }

  ghost predicate Contains(filter: set<Bits>, x: Bits, mode: Mode) {
    match mode
    case Off => false
    case Dup => x in filter
    case Rlx => Below(filter, x)
  }

  ghost function Ask(env: Env, x: Bits, st: State): Status {
    env.reply(|st.log|, x, env.tau)
  }

  /** The state after the check closure has been run on x. */
  ghost function Checked(env: Env, x: Bits, st: State): State {
    var s := Ask(env, x, st);
    State(if Failing(s) then st.filter + {x} else st.filter, st.log + [Entry(x, s)])
  }

  /** The most relaxed assignment of a solution list found for x. */
  ghost function Final(sol: seq<Entry>, x: Bits): Bits {
    if sol == [] then x else sol[0].bs
  }

  // ----- what the theorems assume of a checker -----

  /** The checker gives one of the five statuses the driver knows how to handle. */
  ghost predicate Decided(env: Env) {
    forall k, x, tau :: var s := env.reply(k, x, tau); s.OK? || s.Timeout? || s.NotSafe? || s.NotLive? || s.Invalid?
  }

  /**
   A reply is Timeout or tells the truth, and only a check with a deadline times out. `good` holds
   of the assignments that are really correct, `valid` of those the module can be mutated to.
   */
  ghost predicate Truthful(env: Env, good: Bits -> bool, valid: Bits -> bool) {
    && Decided(env)
    && (forall k, x, tau :: env.reply(k, x, tau).OK? ==> good(x))
    && (forall k, x, tau :: var s := env.reply(k, x, tau); s.NotSafe? || s.NotLive? || s.Invalid? ==> !good(x))
    && (forall k, x, tau :: env.reply(k, x, tau).Timeout? ==> tau > 0 && valid(x))
    && (forall x :: good(x) ==> valid(x))
  }

  /** Weakening a failing assignment to another one the module can take never repairs it. */
  ghost predicate FailureDownClosed(good: Bits -> bool, valid: Bits -> bool) {
    forall x, y :: y <= x && valid(x) && valid(y) && good(y) ==> good(x)
  }

  /** Every assignment the filter may suppress, and the module can take, really fails. */
  ghost predicate SoundFilter(filter: set<Bits>, good: Bits -> bool) {
    forall y :: Below(filter, y) ==> !good(y)
  }

  /** The filter, as it is consulted in this mode, hides no correct assignment. */
  ghost predicate Innocent(filter: set<Bits>, good: Bits -> bool, mode: Mode) {
    forall y :: Contains(filter, y, mode) ==> !good(y)
  }

  /** Clearing any one bit of x gives an assignment below a filter entry. */
  ghost predicate OneMinimal(filter: set<Bits>, x: Bits) {
    forall j :: j in x ==> Below(filter, x - {j})
  }

  /** Every strictly weaker assignment lies below a filter entry. */
  ghost predicate Certified(filter: set<Bits>, x: Bits) {
    forall y: Bits :: y < x ==> Below(filter, y)
  }

  // ----- what every search step keeps -----

  /** The log and the filter only grow, and what is added to the filter is strictly below x. */
  ghost predicate Extends(st: State, st': State, x: Bits) {
    && st.log <= st'.log
    && st.filter <= st'.filter
    && (forall e :: e in st'.filter && e !in st.filter ==> e < x)
    && (forall k :: |st.log| <= k < |st'.log| ==> st'.log[k].bs < x)
  }

  /** Solutions strictly increase by inclusion from the first one on, and stay strictly below x. */
  ghost predicate Chain(sol: seq<Entry>, x: Bits) {
    && (forall k :: 0 <= k < |sol| ==> sol[k].bs < x)
    && (forall j, k :: 0 <= j < k < |sol| ==> sol[j].bs < sol[k].bs)
  }

  /** The k-th check of the run was made in this environment and gave s. */
  ghost predicate CheckedAt(env: Env, s: Entry, log: seq<Entry>, k: nat) {
    k < |log| && log[k] == s && env.reply(k, s.bs, env.tau) == s.status
  }

  /** Each solution was accepted, with the status it carries, by a check made after `from`. */
  ghost predicate Witnessed(env: Env, sol: seq<Entry>, log: seq<Entry>, from: nat) {
    forall s :: s in sol ==>
      (s.status.OK? || s.status.Timeout?) && exists k: nat :: from <= k && CheckedAt(env, s, log, k)
  }

  /** Every rejected assignment is in the filter, and none was checked again after its rejection. */
  ghost predicate NeverTwice(st: State) {
    && (forall k :: 0 <= k < |st.log| && !Accepted(st.log[k].status) ==> st.log[k].bs in st.filter)
    && (forall j, k :: 0 <= j < k < |st.log| && st.log[j].bs == st.log[k].bs ==> Accepted(st.log[j].status))
  }

  // ----- lemmas shared by the strategies -----

  /** Solutions found below y, on top of the one that led to y, if any. */
  lemma StepsOnto(
    env: Env, st: State, mid: State, o: Outcome, hit: seq<Entry>, x: Bits, y: Bits)
    requires Extends(st, mid, x) && Extends(mid, o.st, y) && Chain(o.sol, y) && Chain(hit, x) && |hit| <= 1
    requires y == Final(hit, x)
    requires Witnessed(env, o.sol, o.st.log, |mid.log|) && Witnessed(env, hit, mid.log, |st.log|)
    ensures Extends(st, o.st, x) && Chain(o.sol + hit, x) && Witnessed(env, o.sol + hit, o.st.log, |st.log|)
  {
    WitnessedLater(env, o.sol, o.st.log, |mid.log|, |st.log|);
    WitnessedStill(env, hit, mid.log, o.st.log, |st.log|);
  }

  /** The end of a search that goes on from y is the end of the whole. */
  lemma FinalOnto(sol: seq<Entry>, hit: seq<Entry>, x: Bits)
    ensures Final(sol + hit, x) == Final(sol, Final(hit, x))
  {
  }

  lemma WitnessedLater(env: Env, sol: seq<Entry>, log: seq<Entry>, from: nat, from': nat)
    requires Witnessed(env, sol, log, from) && from' <= from
    ensures Witnessed(env, sol, log, from')
  {
  }

  /** A witness stays one when the log grows. */
  lemma WitnessedStill(env: Env, sol: seq<Entry>, log: seq<Entry>, log': seq<Entry>, from: nat)
    requires Witnessed(env, sol, log, from) && log <= log'
    ensures Witnessed(env, sol, log', from)
  {
    forall s | s in sol
      ensures exists k: nat :: from <= k && CheckedAt(env, s, log', k)
    {
      var k: nat :| from <= k && CheckedAt(env, s, log, k);
      assert CheckedAt(env, s, log', k);
    }
  }

  /** Suppressing every clearing of one bit is suppressing everything strictly weaker. */
  lemma OneMinimalCertifies(filter: set<Bits>, x: Bits)
    ensures OneMinimal(filter, x) <==> Certified(filter, x)
  {
    if OneMinimal(filter, x) {
      forall y: Bits | y < x
        ensures Below(filter, y)
      {
        var j :| j in x && j !in y;
        var e :| e in filter && x - {j} <= e;
        assert y <= e;
      }
    }
    if Certified(filter, x) {
      forall j | j in x
        ensures Below(filter, x - {j})
      {
        assert x - {j} < x;
      }
    }
  }

  /** The filter certificate becomes minimality as soon as the filter is sound. */
  lemma CertifiedIsMinimal(filter: set<Bits>, x: Bits, good: Bits -> bool)
    requires Certified(filter, x) && SoundFilter(filter, good)
    ensures forall y: Bits :: y < x ==> !good(y)
  {
  }

  /** A really failing assignment the module can take may be inserted: the filter stays sound. */
  lemma InsertSound(filter: set<Bits>, x: Bits, good: Bits -> bool, valid: Bits -> bool)
    requires SoundFilter(filter, good) && FailureDownClosed(good, valid)
    requires valid(x) && !good(x) && forall y :: good(y) ==> valid(y)
    ensures SoundFilter(filter + {x}, good)
  {
    forall y | Below(filter + {x}, y)
      ensures !good(y)
    {
      var e :| e in filter + {x} && y <= e;
      if e in filter {
        assert Below(filter, y);
      }
    }
  }

  /** In any mode a failing assignment may be inserted, unless it hides a correct one under the relaxed filter. */
  lemma InsertInnocent(filter: set<Bits>, x: Bits, good: Bits -> bool, mode: Mode)
    requires Innocent(filter, good, mode) && !good(x)
    requires mode.Rlx? ==> forall y :: y <= x ==> !good(y)
    ensures Innocent(filter + {x}, good, mode)
  {
    forall y | Contains(filter + {x}, y, mode)
      ensures !good(y)
    {
      if mode.Rlx? {
        var e :| e in filter + {x} && y <= e;
        if e in filter {
          assert Below(filter, y) && Contains(filter, y, mode);
        }
      } else {
        assert y != x ==> Contains(filter, y, mode);
      }
    }
  }

  /** A check keeps NeverTwice when a decided checker is asked about an assignment not in the filter. */
  lemma CheckNeverTwice(env: Env, x: Bits, st: State)
    requires Decided(env) && NeverTwice(st) && x !in st.filter
    ensures NeverTwice(Checked(env, x, st))
  {
    var s := Ask(env, x, st);
    assert Accepted(s) || Failing(s);
  }

  lemma BelowGrows(filter: set<Bits>, filter': set<Bits>, x: Bits, y: Bits)
    requires filter <= filter' && Below(filter, x) && y <= x
    ensures Below(filter', y)
  {
    var e :| e in filter && x <= e;
    assert e in filter' && y <= e;
  }
}
