/**
 Under the relaxed filter, delta debugging is exact for sheltered assignments. This module shows that it is
 not for any other, by two runs in which a chunk with an impossible bit pair hides a correct assignment.
 */
module Shelter {
  import opened Search
  import opened Ordering
  import opened Chunking
  import opened DeltaDebugging
  import opened InvalidChunks
  import opened Fallback

  /** What delta debugging from x makes of an empty relaxed filter is minimal unless only {} was missed. */
  ghost predicate Exact(kinds: seq<AtomicOp>, x: Bits) {
    Within(x, 2 * |kinds|) && forall env: Env, good | env.mode.Rlx? && Fair(env, kinds, good) ::
      Minimal(EndsAt(env, 2 * |kinds|, x, 2, State({}, [])), good) <==> x == {} || !good({})
  }

  /** Being sheltered is exactly what makes delta debugging exact for an input and everything weaker. */
  lemma ShelterIff(kinds: seq<AtomicOp>, x: Bits)
    requires ValidFor(kinds, x) && Within(x, 2 * |kinds|)
    ensures Sheltered(kinds, x) <==> forall z | z <= x && ValidFor(kinds, z) :: Exact(kinds, z)
  {
    if Sheltered(kinds, x) {
      forall z | z <= x && ValidFor(kinds, z)
        ensures Exact(kinds, z)
      {
        ShelteredBelow(kinds, x, z);
        ShelteredExact(kinds, z);
      }
    } else {
      var z := Unsheltered(kinds, x);
      assert z <= x && ValidFor(kinds, z) && !Exact(kinds, z);
    }
  }

  lemma ShelteredExact(kinds: seq<AtomicOp>, x: Bits)
    requires ValidFor(kinds, x) && Within(x, 2 * |kinds|) && Sheltered(kinds, x)
    ensures Exact(kinds, x)
  {
    forall env: Env, good | env.mode.Rlx? && Fair(env, kinds, good)
      ensures Minimal(EndsAt(env, 2 * |kinds|, x, 2, State({}, [])), good) <==> x == {} || !good({})
    {
      DdminMinimal(env, kinds, x, State({}, []), good);
    }
  }

  /** An input that is not sheltered includes one of the two troublesome ones. */
  lemma Unsheltered(kinds: seq<AtomicOp>, x: Bits) returns (z: Bits)
    requires ValidFor(kinds, x) && Within(x, 2 * |kinds|) && !Sheltered(kinds, x)
    ensures z <= x && ValidFor(kinds, z) && !Exact(kinds, z)
  {
    var k: nat :| k < |kinds| && 2 * k in x && 2 * k + 1 in x
      && ((kinds[k].Load? && !NoneBefore(x, 2 * k) && !NoneFrom(x, 2 * k + 2))
          || (kinds[k].Store? && !NoneFrom(x, 2 * k + 2)));
    var v :| v in x && v >= 2 * k + 2;
    var b := AloneBit(kinds, x, v);
    SameSide(b, v, k);
    FullAlone(kinds, x, k);
    if kinds[k].Store? {
      z := StoreHides(kinds, k, b);
    } else {
      var u :| u in x && u < 2 * k;
      var a := AloneBit(kinds, x, u);
      SameSide(a, u, k);
      z := LoadHides(kinds, a, k, b);
    }
  }

  lemma SameSide(b: nat, v: nat, k: nat)
    requires b / 2 == v / 2
    ensures v >= 2 * k + 2 ==> b >= 2 * k + 2
    ensures v < 2 * k ==> b < 2 * k
  {
  }

  // ----- checkers and validity -----

  /** Always tells whether the assignment is valid and keeps what is needed. */
  ghost function Telling(kinds: seq<AtomicOp>, needed: Bits): Env {
    Env(Rlx, (k, x, tau) => if !ValidFor(kinds, x) then Status.Invalid else if needed <= x then OK else NotSafe, 0)
  }

  lemma TellingIsFair(kinds: seq<AtomicOp>, needed: Bits)
    ensures Fair(Telling(kinds, needed), kinds, Needs(kinds, needed))
  {
  }

  /** Valid assignments of different operations can be put together. */
  lemma JoinValid(kinds: seq<AtomicOp>, x: Bits, y: Bits)
    requires ValidFor(kinds, x) && ValidFor(kinds, y)
    requires forall u, v :: u in x && v in y ==> u / 2 != v / 2
    ensures ValidFor(kinds, x + y)
  {
    forall j | 0 <= j < |kinds|
      ensures !GetOrdering(kinds[j], Pair(x + y, j)).Invalid?
    {
      assert !GetOrdering(kinds[j], Pair(x, j)).Invalid? && !GetOrdering(kinds[j], Pair(y, j)).Invalid?;
      OnePairOf(x, y, j);
    }
  }

  lemma OnePairOf(x: Bits, y: Bits, j: nat)
    requires forall u, v :: u in x && v in y ==> u / 2 != v / 2
    ensures Pair(x + y, j) == Pair(x, j) || Pair(x + y, j) == Pair(y, j)
  {
    assert (2 * j) / 2 == j && (2 * j + 1) / 2 == j;
  }

  // ----- rounds -----

  /** Two chunks that both fail are inserted; as each is the complement of the other, nothing else is tried. */
  lemma BothFail(env: Env, n: nat, a: Bits, x: Bits, y: Bits) returns (st': State)
    requires env.mode.Rlx? && Within(a, n) && 2 < |a| <= 4 && Chunks(a, n, 2) == [x, y] && a - x == y && a - y == x
    requires Failing(env.reply(0, x, env.tau)) && Failing(env.reply(1, y, env.tau))
    ensures st'.filter == {x, y} && Ddmin(env, n, a, 2, State({}, [])) == Ddmin(env, n, a, |a|, st')
  {
    var st := State({}, []);
    KeepTwo(x, y, Rlx);
    BatchOfTwo(env, x, y, st);
    var st1 := Refused(env, x, st);
    BatchOfOne(env, y, st1);
    st' := Refused(env, y, st1);
    assert st'.filter == {x, y};
    assert Nablas(a, [x, y]) == [y, x];
    assert x in st'.filter && y in st'.filter;
    KeepNone(st'.filter, [y, x]);
    AfterRound(env, n, a, 2, st);
  }

  lemma {:induction false} KeepNone(filter: set<Bits>, cands: seq<Bits>)
    requires forall c :: c in cands ==> Below(filter, c)
    ensures Keep(filter, cands, Rlx) == []
  {
    if cands != [] {
      KeepNone(filter, cands[1..]);
    }
  }

  /** The assignment a search ends with. */
  ghost function EndsAt(env: Env, n: nat, x: Bits, g: nat, st: State): Bits
    requires Within(x, n) && g >= 2
  {
    Final(Ddmin(env, n, x, g, st).sol, x)
  }

  /** All chunks are hidden; the first complement is hidden or fails, and the second is accepted. */
  lemma SecondHits(env: Env, n: nat, a: Bits, c: seq<Bits>, st: State) returns (st': State)
    requires env.mode.Rlx? && |a| == |c| && Within(a, n) && |c| >= 3 && Chunks(a, n, |c|) == c
    requires forall x :: x in c ==> Below(st.filter, x)
    requires Below(st.filter, a - c[0]) || forall m: nat :: Failing(env.reply(m, a - c[0], env.tau))
    requires !Below(st.filter, a - c[1]) && forall m: nat :: env.reply(m, a - c[1], env.tau).OK?
    ensures st'.filter <= st.filter + {a - c[0]} && st.filter <= st'.filter
    ensures Within(a - c[1], n)
         && EndsAt(env, n, a, |c|, st) == EndsAt(env, n, a - c[1], |c| - 1, st')
  {
    var d := Nablas(a, c);
    ChunksPartition(a, n, |c|);
    BatchShape(c, a);
    KeepNone(st.filter, c);
    BatchIsExact(env, d, a, st);
    var t := TwoInTurn(env, d, st);
    st' := t.st;
    AfterRound(env, n, a, |c|, st);
  }

  lemma TwoInTurn(env: Env, d: seq<Bits>, st: State) returns (t: Tried)
    requires env.mode.Rlx? && |d| >= 2 && !(d[1] <= d[0])
    requires Below(st.filter, d[0]) || forall m: nat :: Failing(env.reply(m, d[0], env.tau))
    requires !Below(st.filter, d[1]) && forall m: nat :: env.reply(m, d[1], env.tau).OK?
    ensures t == TryInTurn(env, d, st) && t.hit == [Entry(d[1], OK)]
    ensures t.st.filter <= st.filter + {d[0]} && st.filter <= t.st.filter
  {
    t := TryInTurn(env, d, st);
    var st1 := if Below(st.filter, d[0]) then st else Refused(env, d[0], st);
    assert !Below(st1.filter, d[1]);
    assert d[1..][0] == d[1];
    assert t == TryInTurn(env, d[1..], st1);
  }

  ghost predicate Hidden(filter: set<Bits>, c: seq<Bits>) {
    forall x :: x in c ==> Below(filter, x)
  }

  lemma HiddenGrows(filter: set<Bits>, filter': set<Bits>, c: seq<Bits>)
    requires filter <= filter' && Hidden(filter, c)
    ensures Hidden(filter', c)
  {
    forall x | x in c
      ensures Below(filter', x)
    {
      BelowGrows(filter, filter', x, x);
    }
  }

  /** When the two last bits are hidden, the search ends. */
  lemma TwoHidden(env: Env, n: nat, a: Bits, x: Bits, y: Bits, st: State)
    requires env.mode.Rlx? && Within(a, n) && |a| == 2 && Chunks(a, n, 2) == [x, y] && a - x == y && a - y == x
    requires Hidden(st.filter, [x, y])
    ensures Ddmin(env, n, a, 2, st) == Outcome([], st)
  {
    KeepNone(st.filter, [x, y]);
    assert Nablas(a, [x, y]) == [y, x];
    KeepNone(st.filter, [y, x]);
    AfterRound(env, n, a, 2, st);
  }

  /** A search of three bits, all hidden, that clears the second one and ends. */
  lemma ThreeBits(env: Env, n: nat, a: Bits, c: seq<Bits>, y: Bits, st: State)
    requires env.mode.Rlx? && Within(a, n) && |a| == 3 == |c| && |y| == 2 && Chunks(a, n, 3) == c
    requires y == a - c[1] && Chunks(y, n, 2) == [c[0], c[2]] && y - c[0] == c[2] && y - c[2] == c[0]
    requires Hidden(st.filter, c) && Below(st.filter, a - c[0]) && !Below(st.filter, y)
    requires forall m: nat :: env.reply(m, y, env.tau).OK?
    ensures EndsAt(env, n, a, 3, st) == y
  {
    var st' := SecondHits(env, n, a, c, st);
    HiddenGrows(st.filter, st'.filter, c);
    assert c[0] in c && c[2] in c;
    TwoHidden(env, n, y, c[0], c[2], st');
  }

  /** A search of four bits, all hidden, that clears the second one and then the second one again. */
  lemma FourBits(env: Env, n: nat, a: Bits, c: seq<Bits>, y: Bits, d: seq<Bits>, w: Bits, st: State)
    requires env.mode.Rlx? && Within(a, n) && |a| == 4 == |c| && |y| == 3 == |d| && |w| == 2
    requires Chunks(a, n, 4) == c && Chunks(y, n, 3) == d && Chunks(w, n, 2) == [d[0], d[2]]
    requires y == a - c[1] && w == y - d[1] && w - d[0] == d[2] && w - d[2] == d[0]
    requires Hidden(st.filter, c) && Hidden(st.filter, d) && Below(st.filter, y - d[0])
    requires !Below(st.filter + {a - c[0]}, y) && !Below(st.filter + {a - c[0]}, w)
    requires forall m: nat :: Failing(env.reply(m, a - c[0], env.tau))
    requires forall m: nat :: env.reply(m, y, env.tau).OK?
    requires forall m: nat :: env.reply(m, w, env.tau).OK?
    ensures EndsAt(env, n, a, 4, st) == w
  {
    NotBelowLess(st.filter, st.filter + {a - c[0]}, y);
    var st' := SecondHits(env, n, a, c, st);
    StillTrapped(st.filter, st'.filter, a - c[0], d, y - d[0], w);
    ThreeBits(env, n, y, d, w, st');
  }

  lemma StillTrapped(filter: set<Bits>, filter': set<Bits>, e: Bits, d: seq<Bits>, x: Bits, w: Bits)
    requires filter <= filter' <= filter + {e} && Hidden(filter, d) && Below(filter, x) && !Below(filter + {e}, w)
    ensures Hidden(filter', d) && Below(filter', x) && !Below(filter', w)
  {
    HiddenGrows(filter, filter', d);
    BelowGrows(filter, filter', x, x);
    NotBelowLess(filter', filter + {e}, w);
  }

  lemma NotBelowLess(filter: set<Bits>, filter': set<Bits>, x: Bits)
    requires filter <= filter' && !Below(filter', x)
    ensures !Below(filter, x)
  {
  }

  /** A search that ends at y although some correct part of y is weaker shows that z is not exact. */
  lemma NotExact(kinds: seq<AtomicOp>, z: Bits, y: Bits, w: Bits)
    requires Within(z, 2 * |kinds|) && ValidFor(kinds, w) && w < y && w != {} && z != {}
    requires EndsAt(Telling(kinds, w), 2 * |kinds|, z, 2, State({}, [])) == y
    ensures !Exact(kinds, z)
  {
    var env, good := Telling(kinds, w), Needs(kinds, w);
    TellingIsFair(kinds, w);
    assert good(w) && !good({});
  }

  lemma Rejects(kinds: seq<AtomicOp>, w: Bits, x: Bits)
    requires !ValidFor(kinds, x) || !(w <= x)
    ensures var env := Telling(kinds, w); forall m: nat :: Failing(env.reply(m, x, env.tau))
  {
  }

  lemma Accepts(kinds: seq<AtomicOp>, w: Bits, x: Bits)
    requires ValidFor(kinds, x) && w <= x
    ensures var env := Telling(kinds, w); forall m: nat :: env.reply(m, x, env.tau).OK?
  {
  }

  // ----- a store and a later bit -----

  /** Three bits whose halves p and q fail when w is needed, and then hide w from a search that ends at y. */
  ghost predicate ThreeTrap(n: nat, z: Bits, p: Bits, q: Bits, c: seq<Bits>, y: Bits, w: Bits) {
    && Within(z, n) && |z| == 3 == |c| && |y| == 2 && w < y && w != {} && z != {}
    && Chunks(z, n, 2) == [p, q] && z - p == q && z - q == p
    && Chunks(z, n, 3) == c && z - c[0] == q && z - c[1] == y
    && Chunks(y, n, 2) == [c[0], c[2]] && y - c[0] == c[2] && y - c[2] == c[0]
    && Hidden({p, q}, c) && Below({p, q}, q) && !Below({p, q}, y)
  }

  lemma ThreeTrapped(kinds: seq<AtomicOp>, z: Bits, p: Bits, q: Bits, c: seq<Bits>, y: Bits, w: Bits)
    requires ThreeTrap(2 * |kinds|, z, p, q, c, y, w) && ValidFor(kinds, y) && ValidFor(kinds, w)
    requires (!ValidFor(kinds, p) || !(w <= p)) && (!ValidFor(kinds, q) || !(w <= q))
    ensures !Exact(kinds, z)
  {
    var env, n := Telling(kinds, w), 2 * |kinds|;
    Rejects(kinds, w, p);
    Rejects(kinds, w, q);
    var st := BothFail(env, n, z, p, q);
    Accepts(kinds, w, y);
    ThreeBits(env, n, z, c, y, st);
    NotExact(kinds, z, y, w);
  }

  /** b is needed; the second half, which the store cannot take, hides {b}. */
  lemma StoreHides(kinds: seq<AtomicOp>, k: nat, b: nat) returns (z: Bits)
    requires k < |kinds| && kinds[k].Store? && ValidFor(kinds, {2 * k, 2 * k + 1})
    requires 2 * k + 1 < b < 2 * |kinds| && ValidFor(kinds, {b})
    ensures z == {2 * k, 2 * k + 1, b} && ValidFor(kinds, z) && !Exact(kinds, z)
  {
    var p: Bits, q: Bits, y: Bits, w: Bits := {2 * k}, {2 * k + 1, b}, {2 * k, b}, {b};
    var c: seq<Bits> := [{2 * k}, {2 * k + 1}, {b}];
    z := {2 * k, 2 * k + 1, b};
    StoreValid(kinds, k, b, z, y, q);
    StoreTrap(2 * |kinds|, 2 * k, 2 * k + 1, b, z, p, q, c, y, w);
    ThreeTrapped(kinds, z, p, q, c, y, w);
  }

  lemma StoreTrap(
    n: nat, l: nat, u: nat, b: nat, z: Bits, p: Bits, q: Bits, c: seq<Bits>, y: Bits, w: Bits)
    requires l < u < b < n && z == {l, u, b} && p == {l} && q == {u, b} && c == [{l}, {u}, {b}]
    requires y == {l, b} && w == {b}
    ensures ThreeTrap(n, z, p, q, c, y, w)
  {
    TripleChunks(l, u, b, n);
    PairChunks(l, b, n);
    ThreeParts(l, u, b, z, c);
    StoreHidden(l, u, b, p, q, c, y);
    assert l in y;
  }

  /** The parts of three bits. */
  lemma ThreeParts(l: nat, u: nat, b: nat, z: Bits, c: seq<Bits>)
    requires l < u < b && z == {l, u, b} && c == [{l}, {u}, {b}]
    ensures |z| == 3 && |{l, b}| == 2 && z - {l} == {u, b} && z - {u, b} == {l} && z - {u} == {l, b}
    ensures {l, b} - {l} == {b} && {l, b} - {b} == {l}
  {
    assert z - {l} == {u, b} && {u, b} - {u} == {b};
  }

  lemma StoreHidden(l: nat, u: nat, b: nat, p: Bits, q: Bits, c: seq<Bits>, y: Bits)
    requires l < u < b && p == {l} && q == {u, b} && c == [{l}, {u}, {b}] && y == {l, b}
    ensures Hidden({p, q}, c) && Below({p, q}, q) && !Below({p, q}, y)
  {
    var filter := {p, q};
    assert p in filter && q in filter && {l} <= p && {u} <= q && {b} <= q;
    assert l in y && b in y;
  }

  lemma StoreValid(kinds: seq<AtomicOp>, k: nat, b: nat, z: Bits, y: Bits, q: Bits)
    requires k < |kinds| && kinds[k].Store? && 2 * k + 1 < b
    requires ValidFor(kinds, {b}) && ValidFor(kinds, {2 * k, 2 * k + 1})
    requires z == {2 * k, 2 * k + 1, b} && y == {2 * k, b} && q == {2 * k + 1, b}
    ensures ValidFor(kinds, z) && ValidFor(kinds, y) && !ValidFor(kinds, q)
  {
    var pair: Bits := {2 * k, 2 * k + 1};
    JoinValid(kinds, pair, {b});
    assert pair + {b} == z;
    ClearOne(kinds, z, k);
    assert z - {2 * k + 1} == y;
    assert Pair(q, k) == 2 && GetOrdering(kinds[k], Pair(q, k)).Invalid?;
  }

  // ----- a load between two other bits -----

  /** Four bits whose halves p and q fail when v is needed, and then hide v from a search that ends at w. */
  ghost predicate FourTrap(
    n: nat, z: Bits, p: Bits, q: Bits, c: seq<Bits>, y: Bits, d: seq<Bits>, w: Bits, v: Bits) {
    && Within(z, n) && Within(y, n) && |z| == 4 == |c| && |y| == 3 == |d| && |w| == 2 && v < w && v != {} && z != {}
    && Chunks(z, n, 2) == [p, q] && z - p == q && z - q == p
    && Chunks(z, n, 4) == c && z - c[1] == y && !(v <= z - c[0])
    && Chunks(y, n, 3) == d && y - d[0] == q && y - d[1] == w
    && Chunks(w, n, 2) == [d[0], d[2]] && w - d[0] == d[2] && w - d[2] == d[0]
    && Hidden({p, q}, c) && Hidden({p, q}, d) && Below({p, q}, q)
    && !Below({p, q} + {z - c[0]}, y) && !Below({p, q} + {z - c[0]}, w)
  }

  lemma FourTrapped(
    kinds: seq<AtomicOp>, z: Bits, p: Bits, q: Bits, c: seq<Bits>, y: Bits, d: seq<Bits>, w: Bits, v: Bits)
    requires FourTrap(2 * |kinds|, z, p, q, c, y, d, w, v)
    requires ValidFor(kinds, y) && ValidFor(kinds, w) && ValidFor(kinds, v)
    requires (!ValidFor(kinds, p) || !(v <= p)) && (!ValidFor(kinds, q) || !(v <= q))
    ensures !Exact(kinds, z)
  {
    var env, n := Telling(kinds, v), 2 * |kinds|;
    Rejects(kinds, v, p);
    Rejects(kinds, v, q);
    var st := BothFail(env, n, z, p, q);
    Rejects(kinds, v, z - c[0]);
    Accepts(kinds, v, y);
    Accepts(kinds, v, w);
    FourBits(env, n, z, c, y, d, w, st);
    NotExact(kinds, z, w, v);
  }

  /** a is needed; the first half, which the load cannot take, hides {a}. */
  lemma LoadHides(kinds: seq<AtomicOp>, a: nat, k: nat, b: nat) returns (z: Bits)
    requires k < |kinds| && kinds[k].Load? && ValidFor(kinds, {2 * k, 2 * k + 1})
    requires a < 2 * k && ValidFor(kinds, {a}) && 2 * k + 1 < b < 2 * |kinds| && ValidFor(kinds, {b})
    ensures z == {a, 2 * k, 2 * k + 1, b} && ValidFor(kinds, z) && !Exact(kinds, z)
  {
    var p: Bits, q: Bits, y: Bits := {a, 2 * k}, {2 * k + 1, b}, {a, 2 * k + 1, b};
    var c: seq<Bits>, d: seq<Bits> := [{a}, {2 * k}, {2 * k + 1}, {b}], [{a}, {2 * k + 1}, {b}];
    z := {a, 2 * k, 2 * k + 1, b};
    LoadValid(kinds, a, k, b, z, y, p);
    LoadTrap(2 * |kinds|, a, 2 * k, 2 * k + 1, b, z, p, q, c, y, d);
    assert a !in q;
    FourTrapped(kinds, z, p, q, c, y, d, {a, b}, {a});
  }

  lemma LoadTrap(
    n: nat, a: nat, l: nat, u: nat, b: nat, z: Bits, p: Bits, q: Bits, c: seq<Bits>, y: Bits, d: seq<Bits>)
    requires a < l < u < b < n && z == {a, l, u, b} && p == {a, l} && q == {u, b} && y == {a, u, b}
    requires c == [{a}, {l}, {u}, {b}] && d == [{a}, {u}, {b}]
    ensures FourTrap(n, z, p, q, c, y, d, {a, b}, {a})
  {
    QuadChunks(a, l, u, b, n);
    TripleChunks(a, u, b, n);
    PairChunks(a, b, n);
    ThreeParts(a, u, b, y, d);
    FourParts(a, l, u, b, z);
    LoadHidden(a, l, u, b, z, p, q, c, y, d);
    assert b in {a, b};
  }

  lemma FourParts(a: nat, l: nat, u: nat, b: nat, z: Bits)
    requires a < l < u < b && z == {a, l, u, b}
    ensures |z| == 4 && z - {a, l} == {u, b} && z - {u, b} == {a, l} && z - {l} == {a, u, b} && !({a} <= z - {a})
  {
    ThreeParts(l, u, b, {l, u, b}, [{l}, {u}, {b}]);
    assert z - {a} == {l, u, b};
  }

  lemma LoadHidden(
    a: nat, l: nat, u: nat, b: nat, z: Bits, p: Bits, q: Bits, c: seq<Bits>, y: Bits, d: seq<Bits>)
    requires a < l < u < b && z == {a, l, u, b} && p == {a, l} && q == {u, b} && y == {a, u, b}
    requires c == [{a}, {l}, {u}, {b}] && d == [{a}, {u}, {b}]
    ensures Hidden({p, q}, c) && Hidden({p, q}, d) && Below({p, q}, q)
    ensures !Below({p, q} + {z - c[0]}, y) && !Below({p, q} + {z - c[0]}, {a, b})
  {
    var filter, w: Bits := {p, q}, {a, b};
    assert p in filter && q in filter && {a} <= p && {l} <= p && {u} <= q && {b} <= q;
    assert a in y && b in y && a in w && b in w;
  }

  lemma LoadValid(kinds: seq<AtomicOp>, a: nat, k: nat, b: nat, z: Bits, y: Bits, p: Bits)
    requires k < |kinds| && kinds[k].Load? && a < 2 * k && 2 * k + 1 < b
    requires ValidFor(kinds, {a}) && ValidFor(kinds, {b}) && ValidFor(kinds, {2 * k, 2 * k + 1})
    requires z == {a, 2 * k, 2 * k + 1, b} && y == {a, 2 * k + 1, b} && p == {a, 2 * k}
    ensures ValidFor(kinds, z) && ValidFor(kinds, y) && ValidFor(kinds, {a, b}) && !ValidFor(kinds, p)
  {
    var pair: Bits, ends: Bits := {2 * k, 2 * k + 1}, {a, b};
    JoinValid(kinds, {a}, {b});
    assert {a} + {b} == ends;
    JoinValid(kinds, pair, ends);
    assert pair + ends == z;
    ClearOne(kinds, z, k);
    assert z - {2 * k} == y;
    assert Pair(p, k) == 1 && GetOrdering(kinds[k], Pair(p, k)).Invalid?;
  }
}
