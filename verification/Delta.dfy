/** Index lists and their division into chunks, as delta debugging uses them. */
module Delta {

  /** The elements of x below n in ascending order. */
  ghost function Ascending(x: set<nat>, n: nat): seq<nat> {
    if n == 0 then []
    else Ascending(x, n - 1) + (if n - 1 in x then [n - 1] else [])
  }

  ghost predicate Increasing(d: seq<nat>) {
    forall j, k :: 0 <= j < k < |d| ==> d[j] < d[k]
  }

  ghost function Elements(d: seq<nat>): set<nat> {
    set v | v in d
  }

  /** Ascending lists exactly the elements below n, in strictly increasing order. */
  lemma {:induction false} AscendingLists(x: set<nat>, n: nat)
    ensures Increasing(Ascending(x, n))
    ensures forall v :: v in Ascending(x, n) <==> v in x && v < n
  {
    if n > 0 {
      AscendingLists(x, n - 1);
      var d := Ascending(x, n - 1);
      assert forall k :: 0 <= k < |d| ==> d[k] in d;
    }
  }

  lemma {:induction false} IncreasingSize(d: seq<nat>)
    requires Increasing(d)
    ensures |Elements(d)| == |d|
  {
    if d != [] {
      var l := |d| - 1;
      IncreasingSize(d[..l]);
      assert Elements(d) == Elements(d[..l]) + {d[l]};
    }
  }

  /** An increasing list is determined by its elements. */
  lemma {:induction false} IncreasingUnique(d: seq<nat>, e: seq<nat>)
    requires Increasing(d) && Increasing(e) && Elements(d) == Elements(e)
    ensures d == e
  {
    IncreasingSize(d);
    IncreasingSize(e);
    if d != [] {
      var a, b := d[|d| - 1], e[|e| - 1];
      assert a in Elements(e) && b in Elements(d);
      assert a == b;
      var d', e' := d[..|d| - 1], e[..|e| - 1];
      assert Elements(d') == Elements(d) - {a};
      assert Elements(e') == Elements(e) - {a};
      IncreasingUnique(d', e');
      assert d == d' + [a] && e == e' + [a];
    }
  }

  ghost predicate IsShare(q: nat, m: nat, n: nat) {
    q * n <= m < (q + 1) * n && q <= m
  }

  /** The rounded-down share of the first of n chunks of m elements. */
  ghost function Share(m: nat, n: nat): (q: nat)
    requires n > 0
    ensures IsShare(q, m, n)
  {
    ShareBounds(m, n);
    m / n
  }

  lemma ShareBounds(m: nat, n: nat)
    requires n > 0
    ensures IsShare(m / n, m, n)
  {
    var q := m / n;
    assert m == q * n + m % n;
    AtLeastOnce(q, n);
  }

  lemma AtLeastOnce(q: nat, n: nat)
    requires n > 0
    ensures q <= q * n
  {
  }

  lemma ShareUnique(m: nat, n: nat, q: nat)
    requires n > 0 && q * n <= m < (q + 1) * n
    ensures Share(m, n) == q
  {
    var p := Share(m, n);
    if p < q {
      Times(p + 1, q, n);
    } else if p > q {
      Times(q + 1, p, n);
    }
  }

  lemma Times(a: nat, b: nat, n: nat)
    requires a <= b
    ensures a * n <= b * n
  {
  }

  /** The first share of m elements, and what is left for the other n - 1 chunks. */
  lemma ShareRest(m: nat, n: nat, q: nat)
    requires n > 0 && q * n <= m <= (q + 1) * n
    ensures var i := Share(m, n);
            && (i == if m == (q + 1) * n then q + 1 else q)
            && q * (n - 1) <= m - i <= (q + 1) * (n - 1)
            && (i == q + 1 ==> m - i == (q + 1) * (n - 1))
            && (n == 1 ==> i == m)
  {
    if m == (q + 1) * n {
      assert (q + 2) * n == m + n;
      ShareUnique(m, n, q + 1);
    } else {
      ShareUnique(m, n, q);
    }
    assert (q + 1) * (n - 1) == (q + 1) * n - (q + 1);
    assert q * (n - 1) == q * n - q;
  }

  /** n chunks, each taking its share of what is left. */
  ghost function Split(d: seq<nat>, n: nat): seq<seq<nat>>
    decreases n
  {
    if n == 0 then []
    else
      var i := Share(|d|, n);
      [d[..i]] + Split(d[i..], n - 1)
  }

  ghost function Flatten(chunks: seq<seq<nat>>): seq<nat> {
    if chunks == [] then [] else chunks[0] + Flatten(chunks[1..])
  }

  /** Chunks of q or q + 1 elements, the smaller ones first, that concatenate to d. */
  ghost predicate Shaped(c: seq<seq<nat>>, d: seq<nat>, n: nat, q: nat) {
    && |c| == n
    && Flatten(c) == d
    && (forall k :: 0 <= k < n ==> q <= |c[k]| <= q + 1)
    && (forall j, k :: 0 <= j < k < n ==> |c[j]| <= |c[k]|)
  }

  lemma {:induction false} SplitShape(d: seq<nat>, n: nat, q: nat)
    requires n > 0 && q * n <= |d| <= (q + 1) * n
    ensures Shaped(Split(d, n), d, n, q)
    decreases n
  {
    var i := Share(|d|, n);
    ShareRest(|d|, n, q);
    if n > 1 {
      SplitShape(d[i..], n - 1, q);
      if i == q + 1 {
        Times(q + 1, q + 2, n - 1);
        SplitShape(d[i..], n - 1, q + 1);
      }
    }
    OneMoreChunk(d, i, Split(d[i..], n - 1), n, q);
  }

  /** A first chunk, no larger than the others, on top of them. */
  lemma OneMoreChunk(d: seq<nat>, i: nat, rest: seq<seq<nat>>, n: nat, q: nat)
    requires n > 0 && i <= |d| && q <= i <= q + 1 && Shaped(rest, d[i..], n - 1, if n > 1 && i == q + 1 then q + 1 else q)
    requires n > 1 && i == q + 1 ==> Shaped(rest, d[i..], n - 1, q)
    ensures Shaped([d[..i]] + rest, d, n, q)
  {
    var c := [d[..i]] + rest;
    assert c[1..] == rest && d == d[..i] + d[i..];
    assert forall k :: 0 < k < n ==> c[k] == rest[k - 1];
  }

  /** No chunks at all when there are fewer elements than chunks asked for. */
  ghost function Slices(d: seq<nat>, n: nat): seq<seq<nat>> {
    if n > |d| then [] else Split(d, n)
  }

  /** Cuts the list by taking the share of the next chunk off its front until no chunk is left. */
  method Subslices(d: seq<nat>, n: nat) returns (ret: seq<seq<nat>>)
    ensures ret == Slices(d, n)
  {
    ret := [];
    if n > |d| {
      return;
    }
    var rest, m := d, n;
    while m > 0
      invariant ret + Split(rest, m) == Split(d, n)
    {
      var i := |rest| / m;
      ShareBounds(|rest|, m);
      assert Split(rest, m) == [rest[..i]] + Split(rest[i..], m - 1);
      rest, ret := rest[i..], ret + [rest[..i]];
      m := m - 1;
    }
  }

  /** For 1 <= n <= |d|: n non-empty chunks, sizes non-decreasing and differing by at most one. */
  lemma SlicesBalanced(d: seq<nat>, n: nat)
    requires 1 <= n <= |d|
    ensures var c := Slices(d, n);
            && |c| == n
            && Flatten(c) == d
            && (forall k :: 0 <= k < n ==> |c[k]| > 0)
            && (forall j, k :: 0 <= j < k < n ==> |c[j]| <= |c[k]| <= |c[j]| + 1)
  {
    SplitShape(d, n, Share(|d|, n));
  }

  /** The chunks of an increasing list are increasing, and pairwise disjoint. */
  lemma {:induction false} FlattenIncreasing(c: seq<seq<nat>>)
    requires Increasing(Flatten(c))
    ensures forall k :: 0 <= k < |c| ==> Increasing(c[k]) && Elements(c[k]) <= Elements(Flatten(c))
    ensures forall j, k :: 0 <= j < k < |c| ==> Elements(c[j]) !! Elements(c[k])
  {
    if c != [] {
      var f, rest := Flatten(c), Flatten(c[1..]);
      assert f == c[0] + rest;
      assert rest == f[|c[0]|..];
      assert c[0] == f[..|c[0]|];
      FlattenIncreasing(c[1..]);
      FlattenDisjoint(c[0], rest);
      forall k | 0 <= k < |c|
        ensures Increasing(c[k]) && Elements(c[k]) <= Elements(f)
      {
        if k > 0 {
          assert c[k] == c[1..][k - 1];
          assert forall v :: v in rest ==> v in f;
        }
      }
      forall j, k | 0 <= j < k < |c|
        ensures Elements(c[j]) !! Elements(c[k])
      {
        assert c[k] == c[1..][k - 1];
        if j > 0 {
          assert c[j] == c[1..][j - 1];
        }
      }
    }
  }

  /** The elements of an earlier chunk come before those of a later one. */
  lemma {:induction false} FlattenOrdered(c: seq<seq<nat>>)
    requires Increasing(Flatten(c))
    ensures forall j, k, u, v :: 0 <= j < k < |c| && u in c[j] && v in c[k] ==> u < v
  {
    if c != [] {
      var f, head, rest := Flatten(c), c[0], Flatten(c[1..]);
      assert f == head + rest && rest == f[|head|..];
      FlattenOrdered(c[1..]);
      forall j, k, u, v | 0 <= j < k < |c| && u in c[j] && v in c[k]
        ensures u < v
      {
        assert c[k] == c[1..][k - 1];
        if j > 0 {
          assert c[j] == c[1..][j - 1];
        } else {
          FlattenHolds(c[1..], k - 1, v);
          var a :| 0 <= a < |head| && head[a] == u;
          var b :| 0 <= b < |rest| && rest[b] == v;
          assert f[a] == u && f[|head| + b] == v;
        }
      }
    }
  }

  lemma {:induction false} FlattenHolds(c: seq<seq<nat>>, k: nat, v: nat)
    requires k < |c| && v in c[k]
    ensures v in Flatten(c)
  {
    if k > 0 {
      assert c[k] == c[1..][k - 1];
      FlattenHolds(c[1..], k - 1, v);
    }
  }

  /** The concatenation of all chunks but the n-th. */
  ghost function Complement(c: seq<seq<nat>>, n: nat): seq<nat> {
    if c == [] then []
    else (if n == 0 then [] else c[0]) + (if n == 0 then Flatten(c[1..]) else Complement(c[1..], n - 1))
  }

  /** Removing the elements of one chunk leaves the elements of the complement. */
  lemma {:induction false} ComplementElements(c: seq<seq<nat>>, n: nat)
    requires n < |c| && Increasing(Flatten(c))
    ensures Elements(Complement(c, n)) == Elements(Flatten(c)) - Elements(c[n])
  {
    var head, rest := c[0], Flatten(c[1..]);
    assert Flatten(c) == head + rest;
    assert Increasing(rest) by {
      assert rest == Flatten(c)[|head|..];
    }
    FlattenDisjoint(head, rest);
    ElementsConcat(head, rest);
    if n == 0 {
      assert Complement(c, 0) == rest;
    } else {
      FlattenIncreasing(c[1..]);
      ComplementElements(c[1..], n - 1);
      ElementsConcat(head, Complement(c[1..], n - 1));
      assert c[n] == c[1..][n - 1];
    }
  }

  lemma ElementsConcat(a: seq<nat>, b: seq<nat>)
    ensures Elements(a + b) == Elements(a) + Elements(b)
  {
  }

  lemma FlattenDisjoint(a: seq<nat>, b: seq<nat>)
    requires Increasing(a + b)
    ensures Elements(a) !! Elements(b)
  {
    forall j, k | 0 <= j < |a| && 0 <= k < |b|
      ensures a[j] < b[k]
    {
      assert (a + b)[j] == a[j] && (a + b)[|a| + k] == b[k];
    }
  }
}
