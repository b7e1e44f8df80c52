/** Bitsequences packed into 64-bit words: they stand for sets of indices. */
module Bitseqs {
  import opened Words
  import opened Delta
  import opened Wrappers
  import Ordering

  function DivCeil(a: nat, b: nat): nat
    requires b > 0
  {
    (a + b - 1) / b
  }

  /** Bit i of a word array. */
  ghost predicate At(data: seq<Word>, i: nat) {
    i / 64 < |data| && Bit(data[i / 64], i % 64)
  }

  datatype Bitseq = Bitseq(data: seq<Word>, bits: nat) {

    /** As many words as needed, and no 1-bit at or beyond the length. */
    ghost predicate Valid() {
      && |data| == DivCeil(bits, 64)
      && forall i: nat :: At(data, i) ==> i < bits
    }

    /** The set of indices this bitsequence stands for. */
    ghost function Ix(): set<nat> {
      set i: nat | i < bits && At(data, i)
    }

    // ----- comparing -----

    method Equals(o: Bitseq) returns (r: bool)
      requires Valid() && o.Valid()
      ensures r <==> bits == o.bits && Ix() == o.Ix()
    {
      if bits != o.bits {
        return false;
      }
      for i := 0 to |data|
        invariant data[..i] == o.data[..i]
      {
        if data[i] != o.data[i] {
          assert this != o;
          if Ix() == o.Ix() {
            Canonical(this, o);
          }
          return false;
        }
      }
      assert data == data[..|data|] && o.data == o.data[..|data|];
      return true;
    }

    /** Strict inclusion, between bitsequences of the same length. */
    method SubsetOf(o: Bitseq) returns (r: bool)
      requires Valid() && o.Valid()
      ensures r <==> bits == o.bits && Ix() < o.Ix()
    {
      if |data| != |o.data| || bits != o.bits {
        return false;
      }
      var e := Equals(o);
      if e {
        return false;
      }
      for i := 0 to |data|
        invariant forall k :: 0 <= k < i ==> BitsWithin(data[k], o.data[k])
      {
        AndIsSubset(data[i], o.data[i]);
        if WordOp(Op.And, data[i], o.data[i]) != data[i] {
          WordOutside(this, o, i);
          return false;
        }
      }
      WordsWithin(this, o);
      return true;
    }

    method Intersect(o: Bitseq) returns (r: bool)
      requires Valid() && o.Valid()
      ensures r <==> bits == o.bits && Ix() * o.Ix() != {}
    {
      if |data| != |o.data| || bits != o.bits {
        return false;
      }
      for i := 0 to |data|
        invariant forall k :: 0 <= k < i ==> !HasBit(WordOp(Op.And, data[k], o.data[k]))
      {
        NonZeroBit(WordOp(Op.And, data[i], o.data[i]));
        if WordOp(Op.And, data[i], o.data[i]) != 0 {
          CommonBit(this, o, i);
          return true;
        }
      }
      NoCommonBit(this, o);
      return false;
    }

    // ----- changing the length and single bits -----

    /**
     Extends or shrinks. Extending keeps all indices; so does shrinking those below n, except that
     shrinking to a positive multiple of 64 clears the whole last word.
     */
    method Fit(n: nat) returns (r: Bitseq)
      requires Valid()
      ensures r.Valid() && r.bits == n && r.Ix() == Fitted(Ix(), bits, n)
    {
      r := this;
      if n == 0 {
        r := Bitseq([], 0);
      }
      if n < r.bits {
        var d := r.data[0..DivCeil(n, 64)];
        var l := |d| - 1;
        MaskRange(n % 64);
        d := d[l := WordOp(Op.And, d[l], Pow2(n % 64) - 1)];
        Shrunk(this, n, d);
        r := Bitseq(d, n);
      }
      if n > r.bits {
        r := r.(bits := n);
        var c := DivCeil(r.bits, 64);
        while |r.data| < c
          invariant r.bits == n && |r.data| <= c
          invariant r.data[..|data|] == data
          invariant forall k :: |data| <= k < |r.data| ==> r.data[k] == 0
        {
          r := r.(data := r.data + [0]);
        }
        Extended(this, r);
      }
    }

    method Clone() returns (r: Bitseq)
      requires Valid()
      ensures r == this
    {
      var zero := NewBitseq(bits);
      var d := zero.data;
      for i := 0 to |d|
        invariant |d| == |data| && d[..i] == data[..i]
      {
        d := d[i := data[i]];
      }
      assert d == d[..|d|] == data;
      r := Bitseq(d, bits);
    }

    /** Adds indices, extending the length where necessary. */
    method Set(i: seq<nat>) returns (r: Bitseq)
      requires Valid()
      ensures r.Valid() && r.bits == Grown(bits, i) && r.Ix() == Ix() + Elements(i)
    {
      r := Clone();
      for k := 0 to |i|
        invariant r.Valid() && r.bits == Grown(bits, i[..k]) && r.Ix() == Ix() + Elements(i[..k])
      {
        var b := i[k];
        GrownMore(bits, i, k);
        if b >= r.bits {
          r := r.Fit(b + 1);
        }
        r := r.PutBit(Op.Or, b);
      }
      assert i[..|i|] == i;
    }

    /** Removes indices, extending the length where necessary. */
    method Unset(i: seq<nat>) returns (r: Bitseq)
      requires Valid()
      ensures r.Valid() && r.bits == Grown(bits, i) && r.Ix() == Ix() - Elements(i)
    {
      r := Clone();
      for k := 0 to |i|
        invariant r.Valid() && r.bits == Grown(bits, i[..k]) && r.Ix() == Ix() - Elements(i[..k])
      {
        var b := i[k];
        GrownMore(bits, i, k);
        if b >= r.bits {
          r := r.Fit(b + 1);
        }
        r := r.PutBit(AndNot, b);
      }
      assert i[..|i|] == i;
    }

    /** Writes one bit of the word it lies in: data[b/64] |= 1 << (b%64), or &^= to clear it. */
    method PutBit(op: Op, b: nat) returns (r: Bitseq)
      requires Valid() && b < bits && (op == Op.Or || op == AndNot)
      ensures r.Valid() && r.bits == bits
      ensures r.Ix() == if op == Op.Or then Ix() + {b} else Ix() - {b}
    {
      var idx := b / 64;
      BitRange(b % 64);
      var d := data[idx := WordOp(op, data[idx], Pow2(b % 64))];
      r := Bitseq(d, bits);
      forall i: nat
        ensures At(d, i) <==> if i == b then op == Op.Or else At(data, i)
      {
        if i / 64 == idx {
          BitwiseBit(op, data[idx], Pow2(b % 64), i % 64);
          Pow2Bit(b % 64, i % 64);
        }
      }
    }

    method SetRange(from: nat, to: int) returns (r: Bitseq)
      requires Valid()
      ensures r.Valid()
      ensures r.bits == (if from <= to && bits <= to then to + 1 else bits)
      ensures forall j :: j in r.Ix() <==> j in Ix() || from <= j <= to
    {
      r := Clone();
      var i := from;
      while i <= to
        invariant from <= i && (i <= to + 1 || i == from) && r.Valid()
        invariant r.bits == (if from < i && bits < i then i else bits)
        invariant forall j :: j in r.Ix() <==> j in Ix() || from <= j < i
      {
        r := r.Set([i]);
        assert Elements([i]) == {i};
        i := i + 1;
      }
    }

    // ----- set operations -----

    // Operands of different lengths are not refused. The result has the length of the first one, and the
    // words that both have.

    method And(o: Bitseq) returns (r: Bitseq)
      requires Valid() && o.Valid()
      ensures r.bits == bits && r.Ix() == Ix() * o.Ix()
      ensures r.Valid() <==> |data| <= |o.data|
    {
      var d := Zip(Op.And, o);
      r := Bitseq(d, bits);
      Zipped(Op.And, this, o, r);
    }

    method Or(o: Bitseq) returns (r: Bitseq)
      requires Valid() && o.Valid()
      ensures r.bits == bits && r.Ix() == Shared(Ix() + o.Ix(), o)
      ensures bits == o.bits ==> r.Valid() && r.Ix() == Ix() + o.Ix()
    {
      var d := Zip(Op.Or, o);
      r := Bitseq(d, bits);
      Zipped(Op.Or, this, o, r);
    }

    method Xor(o: Bitseq) returns (r: Bitseq)
      requires Valid() && o.Valid()
      ensures r.bits == bits && r.Ix() == Shared((Ix() - o.Ix()) + (o.Ix() - Ix()), o)
      ensures bits == o.bits ==> r.Valid() && r.Ix() == (Ix() - o.Ix()) + (o.Ix() - Ix())
    {
      var d := Zip(Op.Xor, o);
      r := Bitseq(d, bits);
      Zipped(Op.Xor, this, o, r);
    }

    /** The indices of x within this length and within the words of o. */
    ghost function Shared(x: set<nat>, o: Bitseq): set<nat> {
      set i | i in x && i < bits && i / 64 < |o.data|
    }

    /** The word loop the three set operations share. */
    method Zip(op: Op, o: Bitseq) returns (d: seq<Word>)
      ensures |d| == if |data| <= |o.data| then |data| else |o.data|
      ensures forall k :: 0 <= k < |d| ==> d[k] == WordOp(op, data[k], o.data[k])
    {
      d := [];
      for i := 0 to |data|
        invariant |d| == if i <= |o.data| then i else |o.data|
        invariant forall k :: 0 <= k < |d| ==> d[k] == WordOp(op, data[k], o.data[k])
      {
        if i < |o.data| {
          d := d + [WordOp(op, data[i], o.data[i])];
        }
      }
    }

    // ----- counting and listing -----

    /** The number of 1-bits. */
    method Ones() returns (r: nat)
      requires Valid()
      ensures r == |Ix()|
    {
      r := 0;
      ghost var x := Ix();
      for w := 0 to |data|
        invariant r == CountBelow(x, 64 * w)
      {
        r := AddOnes(w, r);
      }
      AllListed(this);
    }

    /** Adds the number of 1-bits of word w. */
    method AddOnes(w: nat, r: nat) returns (more: nat)
      requires Valid() && w < |data| && r == CountBelow(Ix(), 64 * w)
      ensures more == CountBelow(Ix(), 64 * (w + 1))
    {
      more := r;
      var d := data[w];
      ghost var j := 0;
      ShiftStart(data, w);
      while d != 0
        invariant Shifted(data, w, j, d) && more == CountBelow(Ix(), 64 * w + j)
        decreases d
      {
        ShiftCount(this, w, j, d);
        if d % 2 == 1 {
          more := more + 1;
        }
        d := d / 2;
        j := j + 1;
      }
      ShiftEnd(this, w, j);
    }

    /** The indices of the 1-bits, in ascending order. */
    method Indices() returns (r: seq<nat>)
      requires Valid()
      ensures r == Ascending(Ix(), bits)
    {
      r := [];
      for d := 0 to |data|
        invariant r == Ascending(Ix(), 64 * d)
      {
        r := AddIndices(d, r);
      }
      AllListed(this);
    }

    /** Appends the indices of the 1-bits of word d. */
    method AddIndices(d: nat, r: seq<nat>) returns (more: seq<nat>)
      requires Valid() && d < |data| && r == Ascending(Ix(), 64 * d)
      ensures more == Ascending(Ix(), 64 * (d + 1))
    {
      more := r;
      var bs := data[d];
      var i := 0;
      ShiftStart(data, d);
      while bs > 0
        invariant Shifted(data, d, i, bs) && more == Ascending(Ix(), 64 * d + i)
        decreases bs
      {
        ShiftStep(this, d, i, bs);
        if bs % 2 == 1 {
          more := more + [64 * d + i];
        }
        bs := bs / 2;
        i := i + 1;
      }
      ShiftEnd(this, d, i);
    }

    // ----- decoding -----

    /**
     The values of consecutive groups of `granularity` bits, lowest first; the source hands them to a
     callback one at a time.
     */
    method Translate(granularity: nat) returns (r: Result<seq<nat>>)
      requires Valid()
      ensures r.Ok? <==> (granularity == 1 || granularity == 2) && bits % granularity == 0
      ensures r.Ok? ==> |r.value| == bits / granularity
      ensures r.Ok? ==> forall k: nat :: k < |r.value| ==> r.value[k] == Item(Ix(), granularity, k)
    {
      if granularity == 0 {
        return Err("cannot use empty mapping");
      }
      if bits % granularity != 0 {
        return Err("granularity is not multiple of bitseq length");
      }
      if granularity > 2 {
        return Err("bitseq has not been tested with this granularity");
      }
      if (bits / granularity) / (64 / granularity) > |data| {
        GroupFacts(granularity, bits / granularity);
        assert false;
      }
      var vals := TranslateItems(granularity);
      return Ok(vals);
    }

    /** The loop of Translate. */
    method TranslateItems(granularity: nat) returns (vals: seq<nat>)
      requires Valid() && (granularity == 1 || granularity == 2) && bits % granularity == 0
      ensures |vals| == bits / granularity
      ensures forall k: nat :: k < |vals| ==> vals[k] == Item(Ix(), granularity, k)
    {
      var sz := 64 / granularity;
      var items := bits / granularity;
      var mask := MaskOf(granularity);
      var word: Word := 0;
      vals := [];
      for k := 0 to items
        invariant |vals| == k && forall j: nat :: j < k ==> vals[j] == Item(Ix(), granularity, j)
        invariant k < items ==> InWord(data, granularity, k, word)
      {
        var val, rest := TakeItem(granularity, sz, mask, k, word);
        vals := vals + [val];
        word := rest;
      }
    }

    /** The k-th item and what is left of its word, `word` being what the last item left. */
    method TakeItem(granularity: nat, sz: nat, mask: Word, k: nat, word: Word) returns (val: nat, rest: Word)
      requires Valid() && (granularity == 1 || granularity == 2) && bits % granularity == 0 && k < bits / granularity
      requires sz == 64 / granularity && mask == (if granularity == 1 then 1 else 3)
      requires InWord(data, granularity, k, word)
      ensures val == Item(Ix(), granularity, k) && InWord(data, granularity, k + 1, rest)
    {
      ItemPlace(granularity, k);
      var w := word;
      if k % sz == 0 {
        w := data[k / sz];
      }
      NextItem(this, granularity, k, w);
      val := WordOp(Op.And, w, mask);
      rest := w / (if granularity == 1 then 2 else 4);
    }

    /** Item k is within the words, and starts a new word exactly when its first bit does. */
    lemma ItemPlace(g: nat, k: nat)
      requires Valid() && (g == 1 || g == 2) && bits % g == 0 && k < bits / g
      ensures k / (64 / g) < |data| && (if g == 2 then 2 * k + 1 else k) < bits
      ensures var i := if g == 2 then 2 * k else k;
              k / (64 / g) == i / 64 && (k % (64 / g) == 0 <==> i % 64 == 0)
    {
      GroupFacts(g, k);
    }
  }

  /** The lowest bits of a word, as many as an item has. */
  method MaskOf(granularity: nat) returns (mask: Word)
    requires granularity == 1 || granularity == 2
    ensures mask == if granularity == 1 then 1 else 3
  {
    mask := 0;
    for i := 0 to granularity
      invariant mask == Pow2(i) - 1
    {
      mask := 2 * mask + 1;
    }
  }

  /** Where item k lies when 64 / g items make a word. */
  lemma GroupFacts(g: nat, k: nat)
    requires g == 1 || g == 2
    ensures g == 1 ==> k % (64 / g) == k % 64 && k / (64 / g) == k / 64
    ensures g == 2 ==> k % (64 / g) == (2 * k % 64) / 2 && k / (64 / g) == 2 * k / 64
  {
    if g == 2 {
      assert 64 / g == 32;
    }
  }

  /** The k-th group of g bits of a set of indices, as a number. */
  ghost function Item(x: set<nat>, g: nat, k: nat): nat {
    if g == 2 then Ordering.Pair(x, k) else if k in x then 1 else 0
  }

  lemma {:induction false} MaskOff(d: nat)
    ensures Bitwise(And, d, 0) == 0 && Bitwise(And, d, 1) == d % 2 && Bitwise(And, d, 3) == d % 4
  {
    if d > 0 {
      MaskOff(d / 2);
    }
  }

  /** Item k is in the lowest bits of the word, unless the word has to be fetched for it first. */
  ghost predicate InWord(data: seq<Word>, g: nat, k: nat, word: Word) {
    var i := if g == 2 then 2 * k else k;
    i % 64 == 0 || Shifted(data, i / 64, i % 64, word)
  }

  lemma NextItem(s: Bitseq, g: nat, k: nat, word: Word)
    requires s.Valid() && (g == 1 || g == 2) && (if g == 2 then 2 * k + 1 else k) < s.bits
    requires var i := if g == 2 then 2 * k else k;
             if i % 64 == 0 then word == s.data[i / 64] else InWord(s.data, g, k, word)
    ensures WordOp(And, word, if g == 1 then 1 else 3) == Item(s.Ix(), g, k)
    ensures InWord(s.data, g, k + 1, if g == 1 then word / 2 else word / 4)
  {
    MaskOff(word);
    if g == 1 {
      OneBitItem(s, k, word);
    } else {
      TwoBitItem(s, k, word);
    }
  }

  lemma OneBitItem(s: Bitseq, k: nat, word: Word)
    requires s.Valid() && k < s.bits
    requires if k % 64 == 0 then word == s.data[k / 64] else InWord(s.data, 1, k, word)
    ensures word % 2 == Item(s.Ix(), 1, k) && InWord(s.data, 1, k + 1, word / 2)
  {
    var w, j := k / 64, k % 64;
    NextBit(s, w, j, word);
    IndexParts(k + 1, w, j + 1);
  }

  lemma TwoBitItem(s: Bitseq, k: nat, word: Word)
    requires s.Valid() && 2 * k + 1 < s.bits
    requires if 2 * k % 64 == 0 then word == s.data[2 * k / 64] else InWord(s.data, 2, k, word)
    ensures word % 4 == Item(s.Ix(), 2, k) && InWord(s.data, 2, k + 1, word / 4)
  {
    var w, j := 2 * k / 64, 2 * k % 64;
    PairPlace(k, w, j);
    NextBit(s, w, j, word);
    SecondBit(s, w, j, word);
    IndexParts(2 * (k + 1), w, j + 2);
  }

  lemma PairPlace(k: nat, w: nat, j: nat)
    requires 2 * k == 64 * w + j && j < 64
    ensures j % 2 == 0 && j + 2 <= 64 && 2 * (k + 1) == 64 * w + (j + 2)
  {
    Even(k - 32 * w);
  }

  lemma Even(t: int)
    ensures 2 * t % 2 == 0
  {
  }

  /** Word and offset of an index at most one past the end of word w. */
  lemma IndexParts(i: nat, w: nat, j: nat)
    requires i == 64 * w + j && j <= 64
    ensures i % 64 == 0 || (i / 64 == w && i % 64 == j)
  {
  }

  lemma NextBit(s: Bitseq, w: nat, j: nat, word: Word)
    requires s.Valid() && w < |s.data| && j < 64
    requires if j == 0 then word == s.data[w] else Shifted(s.data, w, j, word)
    ensures Shifted(s.data, w, j + 1, word / 2)
    ensures 64 * w + j in s.Ix() <==> word % 2 == 1
  {
    if j == 0 {
      ShiftStart(s.data, w);
    }
    ShiftAny(s, w, j, word);
  }

  lemma SecondBit(s: Bitseq, w: nat, j: nat, d: nat)
    requires s.Valid() && j < 63 && Shifted(s.data, w, j + 1, d / 2)
    ensures Shifted(s.data, w, j + 2, d / 4)
    ensures d % 4 == d % 2 + if 64 * w + j + 1 in s.Ix() then 2 else 0
  {
    ShiftAny(s, w, j + 1, d / 2);
    assert d / 2 / 2 == d / 4;
  }

  /** One shift, also of a word that has run out. */
  lemma ShiftAny(s: Bitseq, w: nat, j: nat, d: nat)
    requires s.Valid() && j < 64 && Shifted(s.data, w, j, d)
    ensures Shifted(s.data, w, j + 1, d / 2)
    ensures 64 * w + j in s.Ix() <==> d % 2 == 1
  {
    assert Bit(d, 0) <==> At(s.data, 64 * w + j + 0);
    InIx(s, 64 * w + j);
    forall k: nat | j + 1 + k < 64
      ensures Bit(d / 2, k) <==> At(s.data, 64 * w + (j + 1) + k)
    {
      assert Bit(d, k + 1) <==> At(s.data, 64 * w + j + (k + 1));
    }
  }

  /** What Fit(n) leaves of the indices x of a bitsequence of the given length. */
  ghost function Fitted(x: set<nat>, bits: nat, n: nat): set<nat> {
    if n >= bits then x
    else set i | i in x && i < (if n % 64 == 0 && n > 0 then n - 64 else n)
  }

  /** The length after setting or clearing bits i: it grows to hold the largest. */
  function Grown(bits: nat, i: seq<nat>): (g: nat)
    ensures bits <= g && forall k :: 0 <= k < |i| ==> i[k] < g
    ensures g == bits || exists k :: 0 <= k < |i| && g == i[k] + 1
  {
    if i == [] then bits
    else
      var g := Grown(bits, i[..|i| - 1]);
      if i[|i| - 1] >= g then i[|i| - 1] + 1 else g
  }

  lemma GrownMore(bits: nat, i: seq<nat>, k: nat)
    requires k < |i|
    ensures var g := Grown(bits, i[..k]);
            Grown(bits, i[..k + 1]) == if i[k] >= g then i[k] + 1 else g
    ensures Elements(i[..k + 1]) == Elements(i[..k]) + {i[k]}
  {
    assert i[..k + 1][..k] == i[..k];
    assert i[..k + 1] == i[..k] + [i[k]];
  }

  lemma {:induction false} GrownWithin(bits: nat, i: seq<nat>)
    requires forall k :: 0 <= k < |i| ==> i[k] < bits
    ensures Grown(bits, i) == bits
  {
    if i != [] {
      GrownWithin(bits, i[..|i| - 1]);
    }
  }

  method NewBitseq(bits: nat) returns (r: Bitseq)
    ensures r.Valid() && r.bits == bits && r.Ix() == {}
    ensures |r.data| == DivCeil(bits, 64)
  {
    r := Bitseq(seq(DivCeil(bits, 64), _ => 0), bits);
    forall i: nat
      ensures !At(r.data, i)
    {
      ZeroBit(i % 64);
    }
  }

  // ----- the packed form is canonical -----

  /** Two bitsequences of one length that stand for the same set are the same words. */
  lemma Canonical(s: Bitseq, t: Bitseq)
    requires s.Valid() && t.Valid() && s.bits == t.bits && s.Ix() == t.Ix()
    ensures s == t
  {
    forall w | 0 <= w < |s.data|
      ensures s.data[w] == t.data[w]
    {
      forall k: nat | k < 64
        ensures Bit(s.data[w], k) == Bit(t.data[w], k)
      {
        AtWord(s, w, k);
        AtWord(t, w, k);
      }
      WordExtensional(s.data[w], t.data[w]);
    }
  }

  lemma AtWord(s: Bitseq, w: nat, k: nat)
    requires s.Valid() && w < |s.data| && k < 64
    ensures Bit(s.data[w], k) <==> 64 * w + k in s.Ix()
  {
    var i := 64 * w + k;
    assert i / 64 == w && i % 64 == k;
    assert At(s.data, i) <==> Bit(s.data[w], k);
  }

  lemma InIx(s: Bitseq, i: nat)
    requires s.Valid()
    ensures i in s.Ix() <==> At(s.data, i)
  {
  }

  lemma WordsWithin(s: Bitseq, o: Bitseq)
    requires s.Valid() && o.Valid() && s.bits == o.bits
    requires forall k :: 0 <= k < |s.data| ==> BitsWithin(s.data[k], o.data[k])
    ensures s.Ix() <= o.Ix()
  {
    forall i | i in s.Ix()
      ensures i in o.Ix()
    {
      assert BitsWithin(s.data[i / 64], o.data[i / 64]);
      assert At(o.data, i);
    }
  }

  lemma WordOutside(s: Bitseq, o: Bitseq, w: nat)
    requires s.Valid() && o.Valid() && s.bits == o.bits && w < |s.data| && !BitsWithin(s.data[w], o.data[w])
    ensures !(s.Ix() <= o.Ix())
  {
    var k: nat :| k < 64 && Bit(s.data[w], k) && !Bit(o.data[w], k);
    AtWord(s, w, k);
    AtWord(o, w, k);
  }

  lemma CommonBit(s: Bitseq, o: Bitseq, w: nat)
    requires s.Valid() && o.Valid() && s.bits == o.bits && w < |s.data|
    requires HasBit(WordOp(And, s.data[w], o.data[w]))
    ensures s.Ix() * o.Ix() != {}
  {
    var k: nat :| k < 64 && Bit(WordOp(And, s.data[w], o.data[w]), k);
    BitwiseBit(And, s.data[w], o.data[w], k);
    AtWord(s, w, k);
    AtWord(o, w, k);
    assert 64 * w + k in s.Ix() * o.Ix();
  }

  lemma NoCommonBit(s: Bitseq, o: Bitseq)
    requires s.Valid() && o.Valid() && s.bits == o.bits
    requires forall k :: 0 <= k < |s.data| ==> !HasBit(WordOp(And, s.data[k], o.data[k]))
    ensures s.Ix() * o.Ix() == {}
  {
    forall i | i in s.Ix()
      ensures i !in o.Ix()
    {
      assert !HasBit(WordOp(And, s.data[i / 64], o.data[i / 64]));
      BitwiseBit(And, s.data[i / 64], o.data[i / 64], i % 64);
    }
  }

  /** Word-wise application of an operator is its bit-wise application to the sets, as far as both have words. */
  lemma Zipped(op: Op, s: Bitseq, o: Bitseq, r: Bitseq)
    requires s.Valid() && o.Valid() && r.bits == s.bits
    requires |r.data| == if |s.data| <= |o.data| then |s.data| else |o.data|
    requires forall k :: 0 <= k < |r.data| ==> r.data[k] == WordOp(op, s.data[k], o.data[k])
    ensures forall i :: i in r.Ix() <==> i < s.bits && i / 64 < |o.data| && Holds(op, i in s.Ix(), i in o.Ix())
    ensures s.bits == o.bits ==> r.Valid()
    ensures op.And? ==> (r.Valid() <==> |s.data| <= |o.data|)
  {
    forall i: nat
      ensures At(r.data, i) <==> i / 64 < |r.data| && Holds(op, At(s.data, i), At(o.data, i))
    {
      if i / 64 < |r.data| {
        BitwiseBit(op, s.data[i / 64], o.data[i / 64], i % 64);
      }
    }
    forall i: nat | i < s.bits
      ensures i / 64 < |s.data|
    {
    }
  }

  // ----- changing the length -----

  lemma BitRange(k: nat)
    requires k < 64
    ensures Pow2(k) < 0x1_0000_0000_0000_0000
  {
    WordRange();
    Pow2Monotone(k + 1, 64);
  }

  lemma MaskRange(k: nat)
    requires k < 64
    ensures 0 <= Pow2(k) - 1 < 0x1_0000_0000_0000_0000
  {
    BitRange(k);
  }

  lemma Extended(s: Bitseq, r: Bitseq)
    requires s.Valid() && s.bits <= r.bits && |s.data| <= |r.data| == DivCeil(r.bits, 64)
    requires r.data[..|s.data|] == s.data && forall k :: |s.data| <= k < |r.data| ==> r.data[k] == 0
    ensures r.Valid() && r.Ix() == s.Ix()
  {
    forall i: nat
      ensures At(r.data, i) <==> At(s.data, i)
    {
      if i / 64 < |s.data| {
        assert r.data[..|s.data|][i / 64] == s.data[i / 64];
      } else {
        ZeroBit(i % 64);
      }
    }
  }

  lemma Shrunk(s: Bitseq, n: nat, d: seq<Word>)
    requires s.Valid() && 0 < n < s.bits && |d| == DivCeil(n, 64) <= |s.data|
    requires forall k :: 0 <= k < |d| - 1 ==> d[k] == s.data[k]
    requires 0 <= Pow2(n % 64) - 1 < 0x1_0000_0000_0000_0000
    requires d[|d| - 1] == WordOp(And, s.data[|d| - 1], Pow2(n % 64) - 1)
    ensures Bitseq(d, n).Valid()
    ensures Bitseq(d, n).Ix() == Fitted(s.Ix(), s.bits, n)
  {
    var m := if n % 64 == 0 then n - 64 else n;
    var l := |d| - 1;
    assert m == 64 * l + n % 64;
    forall i: nat
      ensures At(d, i) <==> At(s.data, i) && i < m
    {
      if i / 64 == l {
        BitwiseBit(And, s.data[l], Pow2(n % 64) - 1, i % 64);
        MaskBit(n % 64, i % 64);
      }
    }
  }

  /** The indices that shrinking to n bits clears in words another bitsequence shares. */
  ghost predicate Cleared(i: nat, n: nat) {
    (if n % 64 == 0 then n - 64 else n) <= i < 64 * DivCeil(n, 64)
  }

  /**
   Shrinking does not copy: it masks the last word it keeps in the words of the bitsequence it shrinks. That one,
   still as long as before, loses what is cleared there.
   */
  method ShrinkInPlace(words: array<Word>, bits: nat, n: nat) returns (kept: nat)
    requires Bitseq(words[..], bits).Valid() && 0 < n < bits
    modifies words
    ensures kept == DivCeil(n, 64) <= words.Length
    ensures Bitseq(words[..kept], n).Valid()
    ensures Bitseq(words[..kept], n).Ix() == Fitted(old(Bitseq(words[..], bits).Ix()), bits, n)
    ensures forall i: nat :: i in Bitseq(words[..], bits).Ix() <==>
              i in old(Bitseq(words[..], bits).Ix()) && !Cleared(i, n)
  {
    ghost var s := Bitseq(words[..], bits);
    kept := DivCeil(n, 64);
    var l := kept - 1;
    MaskRange(n % 64);
    words[l] := WordOp(Op.And, words[l], Pow2(n % 64) - 1);
    ghost var d := s.data[0..kept];
    assert words[..kept] == d[l := words[l]];
    Shrunk(s, n, words[..kept]);
    OwnerLoses(s, n, words[..]);
  }

  lemma OwnerLoses(s: Bitseq, n: nat, words: seq<Word>)
    requires s.Valid() && 0 < n < s.bits && |words| == |s.data| && DivCeil(n, 64) <= |words|
    requires forall k :: 0 <= k < |words| && k != DivCeil(n, 64) - 1 ==> words[k] == s.data[k]
    requires var r := Bitseq(words[..DivCeil(n, 64)], n); r.Valid() && r.Ix() == Fitted(s.Ix(), s.bits, n)
    ensures forall i: nat :: i in Bitseq(words, s.bits).Ix() <==> i in s.Ix() && !Cleared(i, n)
  {
    var kept := DivCeil(n, 64);
    forall i: nat | i < s.bits
      ensures At(words, i) <==> At(s.data, i) && !Cleared(i, n)
    {
      if i / 64 == kept - 1 {
        assert At(words, i) <==> At(words[..kept], i);
        assert At(words[..kept], i) <==> i in Fitted(s.Ix(), s.bits, n);
      }
    }
  }

  /**
   Shrinking keeps exactly the indices below n, unless n is a positive multiple of 64 and there are
   indices in the last word it keeps: those it wipes.
   */
  lemma FitKeeps(x: set<nat>, bits: nat, n: nat)
    requires forall i :: i in x ==> i < bits
    ensures (Fitted(x, bits, n) == set i | i in x && i < n) <==>
            n >= bits || n % 64 != 0 || n == 0 || forall i :: n - 64 <= i < n ==> i !in x
  {
    var all := set i | i in x && i < n;
    if n >= bits {
      assert all == x;
    } else if n % 64 == 0 && n > 0 && Fitted(x, bits, n) == all {
      forall i | n - 64 <= i < n
        ensures i !in x
      {
        assert i !in Fitted(x, bits, n);
      }
    }
  }

  // ----- shifting a word out bit by bit -----

  /** d is word w shifted right j times. */
  ghost predicate Shifted(data: seq<Word>, w: nat, j: nat, d: nat) {
    && w < |data| && j <= 64 && d < Pow2(64 - j)
    && forall k: nat :: j + k < 64 ==> (Bit(d, k) <==> At(data, 64 * w + j + k))
  }

  lemma ShiftStart(data: seq<Word>, w: nat)
    requires w < |data|
    ensures Shifted(data, w, 0, data[w])
  {
    WordRange();
  }

  lemma ShiftStep(s: Bitseq, w: nat, j: nat, d: nat)
    requires s.Valid() && Shifted(s.data, w, j, d) && d != 0
    ensures j < 64 && Shifted(s.data, w, j + 1, d / 2)
    ensures Ascending(s.Ix(), 64 * w + j + 1)
         == Ascending(s.Ix(), 64 * w + j) + if d % 2 == 1 then [64 * w + j] else []
  {
    assert d > 0;
    assert Pow2(0) == 1;
    assert j < 64;
    ShiftAny(s, w, j, d);
  }

  ghost function CountBelow(x: set<nat>, n: nat): nat {
    |Ascending(x, n)|
  }

  lemma ShiftCount(s: Bitseq, w: nat, j: nat, d: nat)
    requires s.Valid() && Shifted(s.data, w, j, d) && d != 0
    ensures Shifted(s.data, w, j + 1, d / 2)
    ensures CountBelow(s.Ix(), 64 * w + j + 1) == CountBelow(s.Ix(), 64 * w + j) + d % 2
  {
    ShiftStep(s, w, j, d);
  }

  lemma ShiftEnd(s: Bitseq, w: nat, j: nat)
    requires s.Valid() && Shifted(s.data, w, j, 0)
    ensures Ascending(s.Ix(), 64 * (w + 1)) == Ascending(s.Ix(), 64 * w + j)
  {
    forall i: nat | 64 * w + j <= i < 64 * (w + 1)
      ensures i !in s.Ix()
    {
      var k := i - 64 * w - j;
      ZeroBit(k);
      assert Bit(0, k) <==> At(s.data, 64 * w + j + k);
      InIx(s, i);
    }
    AscendingSkip(s.Ix(), 64 * w + j, 64 * (w + 1));
  }

  lemma {:induction false} AscendingSkip(x: set<nat>, m: nat, n: nat)
    requires m <= n && forall i: nat :: m <= i < n ==> i !in x
    ensures Ascending(x, n) == Ascending(x, m)
  {
    if m < n {
      AscendingSkip(x, m, n - 1);
    }
  }

  lemma AllListed(s: Bitseq)
    requires s.Valid()
    ensures Ascending(s.Ix(), 64 * |s.data|) == Ascending(s.Ix(), s.bits)
    ensures CountBelow(s.Ix(), s.bits) == |s.Ix()|
  {
    AscendingSkip(s.Ix(), s.bits, 64 * |s.data|);
    AscendingLists(s.Ix(), s.bits);
    IncreasingSize(Ascending(s.Ix(), s.bits));
    assert Elements(Ascending(s.Ix(), s.bits)) == s.Ix();
  }
}
