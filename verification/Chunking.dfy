/** The chunks of an assignment and their complements: the candidates of delta debugging. */
module Chunking {
  import opened Search
  import opened Delta
  import Sets

  /** The chunks of x, as sets, when its indices are divided into g parts. */
  ghost function Chunks(x: Bits, n: nat, g: nat): seq<Bits> {
    AsSets(Slices(Ascending(x, n), g))
  }

  ghost function AsSets(c: seq<seq<nat>>): (r: seq<Bits>)
    ensures |r| == |c| && forall k :: 0 <= k < |c| ==> r[k] == Elements(c[k])
  {
    seq(|c|, k requires 0 <= k < |c| => Elements(c[k]))
  }

  ghost function Nablas(x: Bits, chunks: seq<Bits>): seq<Bits> {
    seq(|chunks|, k requires 0 <= k < |chunks| => x - chunks[k])
  }

  ghost predicate Within(x: Bits, n: nat) { forall j :: j in x ==> j < n }

  /** g non-empty parts of x that cover it, pairwise disjoint, of sizes differing by at most one. */
  ghost predicate Partition(c: seq<Bits>, x: Bits, g: nat) {
    |c| == g && Parts(c, x) && Disjoint(c) && Balanced(c) && Covers(c, x)
  }

  ghost predicate Parts(c: seq<Bits>, x: Bits) {
    forall k :: 0 <= k < |c| ==> c[k] != {} && c[k] <= x
  }

  ghost predicate Disjoint(c: seq<Bits>) {
    forall j, k :: 0 <= j < k < |c| ==> c[j] !! c[k]
  }

  ghost predicate Balanced(c: seq<Bits>) {
    forall j, k :: 0 <= j < k < |c| ==> |c[j]| <= |c[k]| <= |c[j]| + 1
  }

  ghost predicate Covers(c: seq<Bits>, x: Bits) {
    forall v {:trigger InSome(c, v)} :: v in x ==> InSome(c, v)
  }

  ghost predicate InSome(c: seq<Bits>, v: nat) {
    exists k :: 0 <= k < |c| && v in c[k]
  }

  /** No candidate is contained in another of its batch, and all are strictly below x. */
  ghost predicate Antichain(cands: seq<Bits>, x: Bits) {
    && (forall k :: 0 <= k < |cands| ==> cands[k] < x)
    && (forall j, k :: 0 <= j < |cands| && 0 <= k < |cands| && j != k ==> !(cands[k] <= cands[j]))
  }

  lemma ChunksPartition(x: Bits, n: nat, g: nat)
    requires Within(x, n) && 1 <= g <= |x|
    ensures Partition(Chunks(x, n, g), x, g)
  {
    var d := Ascending(x, n);
    AscendingLists(x, n);
    IncreasingSize(d);
    assert Elements(d) == x;
    SlicesBalanced(d, g);
    SetsPartition(Slices(d, g), d);
  }

  lemma SetsPartition(c: seq<seq<nat>>, d: seq<nat>)
    requires Flatten(c) == d && Increasing(d)
    requires forall k :: 0 <= k < |c| ==> |c[k]| > 0
    requires forall j, k :: 0 <= j < k < |c| ==> |c[j]| <= |c[k]| <= |c[j]| + 1
    ensures Partition(AsSets(c), Elements(d), |c|)
  {
    SetsCover(c, d);
    SetSizes(c);
    FlattenIncreasing(c);
  }

  lemma SetSizes(c: seq<seq<nat>>)
    requires Increasing(Flatten(c))
    ensures forall k :: 0 <= k < |c| ==> |AsSets(c)[k]| == |c[k]|
  {
    FlattenIncreasing(c);
    forall k | 0 <= k < |c|
      ensures |AsSets(c)[k]| == |c[k]|
    {
      IncreasingSize(c[k]);
    }
  }

  lemma SetsCover(c: seq<seq<nat>>, d: seq<nat>)
    requires Flatten(c) == d
    ensures Covers(AsSets(c), Elements(d))
  {
    FlattenCovers(c);
    forall v | v in Elements(d)
      ensures InSome(AsSets(c), v)
    {
      var k :| 0 <= k < |c| && v in c[k];
      assert v in AsSets(c)[k];
    }
  }

  /** Earlier chunks hold smaller indices. */
  ghost predicate Ordered(c: seq<Bits>) {
    forall j, k, u, v :: 0 <= j < k < |c| && u in c[j] && v in c[k] ==> u < v
  }

  lemma ChunksOrdered(x: Bits, n: nat, g: nat)
    requires Within(x, n) && 1 <= g <= |x|
    ensures Ordered(Chunks(x, n, g))
  {
    var d := Ascending(x, n);
    AscendingLists(x, n);
    IncreasingSize(d);
    assert Elements(d) == x;
    SlicesBalanced(d, g);
    FlattenOrdered(Slices(d, g));
  }

  /** When x has at most twice as many indices as there are chunks, no chunk has more than two. */
  lemma ChunksPairs(x: Bits, n: nat, g: nat)
    requires Within(x, n) && 1 <= g <= |x| <= 2 * g
    ensures forall k :: 0 <= k < g && k < |Chunks(x, n, g)| ==> |Chunks(x, n, g)[k]| <= 2
  {
    var d := Ascending(x, n);
    AscendingLists(x, n);
    IncreasingSize(d);
    assert Elements(d) == x;
    SplitShape(d, g, 1);
    SlicesBalanced(d, g);
    SetSizes(Slices(d, g));
  }

  /** Taking a chunk out of x is the same as putting the other chunks together. */
  lemma NablaIsComplement(x: Bits, n: nat, g: nat, k: nat)
    requires Within(x, n) && 1 <= g <= |x| && k < g
    ensures var c := Slices(Ascending(x, n), g);
            |c| == g && Nablas(x, Chunks(x, n, g))[k] == Elements(Complement(c, k))
  {
    var d := Ascending(x, n);
    AscendingLists(x, n);
    IncreasingSize(d);
    assert Elements(d) == x;
    SlicesBalanced(d, g);
    ComplementElements(Slices(d, g), k);
  }

  lemma {:induction false} FlattenCovers(c: seq<seq<nat>>)
    ensures forall v :: v in Flatten(c) ==> exists k :: 0 <= k < |c| && v in c[k]
  {
    if c != [] {
      FlattenCovers(c[1..]);
      forall v | v in Flatten(c)
        ensures exists k :: 0 <= k < |c| && v in c[k]
      {
        if v !in c[0] {
          assert v in Flatten(c[1..]);
          var k: nat :| k < |c[1..]| && v in c[1..][k];
          assert c[1..][k] == c[k + 1];
        }
      }
    }
  }

  lemma PairShape(a: Bits, b: Bits, x: Bits)
    requires a != {} && b != {} && a <= x && b <= x && a !! b
    ensures a < x && x - a < x && !(a <= b) && !(x - a <= x - b)
    ensures b < x && x - b < x && !(b <= a) && !(x - b <= x - a)
  {
    var v :| v in a;
    var w :| w in b;
    assert v !in b && w !in a;
    assert v !in x - a && w in x - a && w !in x - b && v in x - b;
  }

  /** Both batches are antichains strictly below x. */
  lemma BatchShape(c: seq<Bits>, x: Bits)
    requires Parts(c, x) && Disjoint(c) && 2 <= |c|
    ensures Antichain(c, x) && Antichain(Nablas(x, c), x)
  {
    forall k | 0 <= k < |c|
      ensures c[k] < x && x - c[k] < x
    {
      PairShape(c[k], c[if k == 0 then 1 else 0], x);
    }
    forall j, k | 0 <= j < |c| && 0 <= k < |c| && j != k
      ensures !(c[k] <= c[j]) && !(x - c[k] <= x - c[j])
    {
      PairShape(c[j], c[k], x);
    }
  }

  lemma {:induction false} DisjointCount(c: seq<Bits>, u: Bits)
    requires Parts(c, u) && Disjoint(c)
    ensures |c| <= |u|
  {
    if c != [] {
      var rest, u' := c[1..], u - c[0];
      assert Parts(rest, u') by {
        forall k | 0 <= k < |rest|
          ensures rest[k] != {} && rest[k] <= u'
        {
          assert rest[k] == c[k + 1] && c[0] !! c[k + 1];
        }
      }
      assert Disjoint(rest);
      Sets.SubsetSize(c[0], u);
      assert |c[0]| > 0;
      DisjointCount(rest, u');
    }
  }

  /** Without one chunk, there still is an element for each of the others. */
  lemma OtherParts(c: seq<Bits>, x: Bits, k: nat)
    requires Parts(c, x) && Disjoint(c) && k < |c|
    ensures |c| - 1 <= |x - c[k]|
  {
    var others := c[..k] + c[k + 1..];
    forall i | 0 <= i < |others|
      ensures others[i] != {} && others[i] <= x - c[k]
    {
      assert others[i] == c[if i < k then i else i + 1];
    }
    assert Disjoint(others);
    DisjointCount(others, x - c[k]);
  }

  /** How large the chunks and complements can be. */
  lemma BatchSizes(c: seq<Bits>, x: Bits, k: nat)
    requires Parts(c, x) && Disjoint(c) && Balanced(c) && 2 <= |c| && k < |c|
    ensures 2 * |c[k]| <= |x| + 1
    ensures |c| - 1 <= |x - c[k]| == |x| - |c[k]| < |x|
  {
    var i := if k == 0 then 1 else 0;
    assert |c[k]| > 0 && |c[i]| - 1 <= |c[k]| <= |c[i]| + 1;
    assert c[i] !! c[k];
    OtherParts(c, x, k);
    TwoParts(c[i], c[k], x);
  }

  /** Of two chunks, each is the complement of the other. */
  lemma TwoHalves(c: seq<Bits>, x: Bits, k: nat)
    requires Parts(c, x) && Disjoint(c) && Covers(c, x) && |c| == 2 && k < 2
    ensures x - c[k] == c[1 - k]
  {
    assert c[0] !! c[1];
    forall v | v in x - c[k]
      ensures v in c[1 - k]
    {
      assert InSome(c, v);
    }
  }

  lemma TwoParts(a: Bits, b: Bits, x: Bits)
    requires a <= x && b <= x && a !! b
    ensures |x - b| == |x| - |b| && |a| + |b| <= |x|
  {
    Sets.SubsetSize(b, x);
    Sets.SubsetSize(a, x - b);
  }

  lemma SingleSet(a: Bits, j: nat)
    requires j in a && |a| <= 1
    ensures a == {j}
  {
    Sets.SubsetSize({j}, a);
  }

  /** When there are as many chunks as 1-bits, the complements clear exactly the single bits. */
  lemma SingleBits(c: seq<Bits>, x: Bits, j: nat)
    requires Partition(c, x, |x|) && 2 <= |x| && j in x
    ensures x - {j} in Nablas(x, c)
  {
    assert InSome(c, j);
    var k :| 0 <= k < |c| && j in c[k];
    BatchSizes(c, x, k);
    SingleSet(c[k], j);
    assert Nablas(x, c)[k] == x - {j};
  }

  // ----- chunks of a few indices -----

  lemma SplitStep(d: seq<nat>, n: nat, q: nat)
    requires n > 0 && q * n <= |d| < (q + 1) * n && q <= |d|
    ensures Split(d, n) == [d[..q]] + Split(d[q..], n - 1)
    ensures n == 1 ==> Split(d, n) == [d[..q]]
  {
    ShareUnique(|d|, n, q);
    assert n == 1 ==> Split(d[q..], n - 1) == [];
  }

  /** The chunks of the elements of an increasing list are its slices. */
  lemma ListedChunks(d: seq<nat>, n: nat, g: nat)
    requires Increasing(d) && forall v :: v in d ==> v < n
    ensures Chunks(Elements(d), n, g) == AsSets(Slices(d, g))
  {
    AscendingLists(Elements(d), n);
    assert Elements(Ascending(Elements(d), n)) == Elements(d);
    IncreasingUnique(Ascending(Elements(d), n), d);
  }

  /** The chunks of two indices in two parts. */
  lemma PairChunks(a: nat, b: nat, n: nat)
    requires a < b < n
    ensures Chunks({a, b}, n, 2) == [{a}, {b}]
  {
    var d := [a, b];
    assert Elements(d) == {a, b} && d[1..] == [b] && d[..1] == [a] && [b][..1] == [b];
    ListedChunks(d, n, 2);
    SplitStep(d, 2, 1);
    SplitStep([b], 1, 1);
    assert Elements([a]) == {a} && Elements([b]) == {b};
  }

  lemma TripleSlices(a: nat, b: nat, c: nat)
    ensures Slices([a, b, c], 2) == [[a], [b, c]] && Slices([a, b, c], 3) == [[a], [b], [c]]
  {
    var d, e := [a, b, c], [b, c];
    assert d[1..] == e && e[1..] == [c] && d[..1] == [a] && e[..1] == [b] && e[..2] == e && [c][..1] == [c];
    SplitStep(d, 2, 1);
    SplitStep(e, 1, 2);
    SplitStep(d, 3, 1);
    SplitStep(e, 2, 1);
    SplitStep([c], 1, 1);
  }

  /** The chunks of three indices in two and in three parts. */
  lemma TripleChunks(a: nat, b: nat, c: nat, n: nat)
    requires a < b < c < n
    ensures Chunks({a, b, c}, n, 2) == [{a}, {b, c}] && Chunks({a, b, c}, n, 3) == [{a}, {b}, {c}]
  {
    ThreeElements(a, b, c);
    ListedChunks([a, b, c], n, 2);
    ListedChunks([a, b, c], n, 3);
    TripleSlices(a, b, c);
    ThreeSets(a, b, c);
  }

  lemma ThreeElements(a: nat, b: nat, c: nat)
    requires a < b < c
    ensures Elements([a, b, c]) == {a, b, c} && Increasing([a, b, c])
  {
  }

  lemma ThreeSets(a: nat, b: nat, c: nat)
    ensures AsSets([[a], [b, c]]) == [{a}, {b, c}] && AsSets([[a], [b], [c]]) == [{a}, {b}, {c}]
  {
    assert Elements([a]) == {a} && Elements([b]) == {b} && Elements([c]) == {c} && Elements([b, c]) == {b, c};
  }

  lemma QuadHalves(a: nat, b: nat, c: nat, d: nat)
    ensures Slices([a, b, c, d], 2) == [[a, b], [c, d]]
  {
    var s, u := [a, b, c, d], [c, d];
    assert s[2..] == u && s[..2] == [a, b] && u[..2] == u;
    SplitStep(s, 2, 2);
    SplitStep(u, 1, 2);
  }

  lemma QuadSingles(a: nat, b: nat, c: nat, d: nat)
    ensures Slices([a, b, c, d], 4) == [[a], [b], [c], [d]]
  {
    var s, t := [a, b, c, d], [b, c, d];
    assert s[1..] == t && s[..1] == [a];
    SplitStep(s, 4, 1);
    TripleSlices(b, c, d);
  }

  lemma FourElements(a: nat, b: nat, c: nat, d: nat)
    requires a < b < c < d
    ensures Elements([a, b, c, d]) == {a, b, c, d} && Increasing([a, b, c, d])
  {
  }

  lemma FourSets(a: nat, b: nat, c: nat, d: nat)
    ensures AsSets([[a, b], [c, d]]) == [{a, b}, {c, d}] && AsSets([[a], [b], [c], [d]]) == [{a}, {b}, {c}, {d}]
  {
    assert Elements([a, b]) == {a, b} && Elements([c, d]) == {c, d};
    assert Elements([a]) == {a} && Elements([b]) == {b} && Elements([c]) == {c} && Elements([d]) == {d};
  }

  /** The chunks of four indices in two and in four parts. */
  lemma QuadChunks(a: nat, b: nat, c: nat, d: nat, n: nat)
    requires a < b < c < d < n
    ensures Chunks({a, b, c, d}, n, 2) == [{a, b}, {c, d}]
    ensures Chunks({a, b, c, d}, n, 4) == [{a}, {b}, {c}, {d}]
  {
    FourElements(a, b, c, d);
    ListedChunks([a, b, c, d], n, 2);
    ListedChunks([a, b, c, d], n, 4);
    QuadHalves(a, b, c, d);
    QuadSingles(a, b, c, d);
    FourSets(a, b, c, d);
  }
}
