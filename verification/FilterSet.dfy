/** The set of rejected assignments, kept as their binary strings. */
module FilterSet {
  import opened Search
  import opened Bitseqs
  import opened Text

  class FilterSet {
    /** The keys of the source's map[string]bool, whose values are all true. */
    var keys: set<string>

    constructor ()
      ensures keys == {}
      ensures forall n: nat :: At(n) == {}
    {
      keys := {};
    }

    /** Every key is the print of some bitsequence. */
    ghost predicate Valid()
      reads this
    {
      forall k :: k in keys ==> AllBinary(k)
    }

    /** The assignments of n bits that were inserted. */
    ghost function At(n: nat): set<Bits>
      reads this
    {
      set k | k in keys && |k| == n :: BinIx(k)
    }

    method Set(bs: Bitseq)
      requires Valid() && bs.Valid()
      modifies this
      ensures Valid()
      ensures forall n: nat :: At(n) == old(At(n)) + if n == bs.bits then {bs.Ix()} else {}
    {
      var str := ToBinString(bs);
      BinTextIx(bs.bits, bs.Ix());
      ghost var before := keys;
      keys := keys + {str};
      forall n: nat
        ensures At(n) == old(At(n)) + if n == bs.bits then {bs.Ix()} else {}
      {
        AddKey(before, str, n);
      }
    }

    method Dup(bs: Bitseq) returns (r: bool)
      requires Valid() && bs.Valid()
      ensures r <==> bs.Ix() in At(bs.bits)
    {
      var str := ToBinString(bs);
      r := str in keys;
      BinTextIx(bs.bits, bs.Ix());
      forall k | k in keys && |k| == bs.bits && BinIx(k) == bs.Ix()
        ensures k == str
      {
        BinTextOfIx(k);
      }
    }

    method Rlx(bs: Bitseq) returns (r: bool)
      requires Valid() && bs.Valid()
      ensures r <==> Below(At(bs.bits), bs.Ix())
    {
      var rest := keys;
      while rest != {}
        invariant rest <= keys
        invariant forall k :: k in keys - rest && |k| == bs.bits ==> !(bs.Ix() <= BinIx(k))
        decreases |rest|
      {
        var k :| k in rest;
        var so := MustFromBinString(k);
        var sub := bs.SubsetOf(so);
        var eq := bs.Equals(so);
        if sub || eq {
          assert BinIx(k) in At(bs.bits);
          return true;
        }
        rest := rest - {k};
      }
      return false;
    }

    method Contains(bs: Bitseq, s: Mode) returns (r: bool)
      requires Valid() && bs.Valid()
      ensures r <==> Search.Contains(At(bs.bits), bs.Ix(), s)
      ensures s.Off? ==> !r
      ensures s.Dup? ==> (r <==> bs.Ix() in At(bs.bits))
      ensures s.Rlx? ==> (r <==> exists e :: e in At(bs.bits) && bs.Ix() <= e)
    {
      match s
      case Off => r := false;
      case Dup => r := Dup(bs);
      case Rlx => r := Rlx(bs);
    }

    /** As many keys as inserted assignments: distinct ones never share a key. */
    lemma KeyPerEntry(n: nat)
      requires Valid() && forall k :: k in keys ==> |k| == n
      ensures |keys| == |At(n)|
    {
      KeysInjective(keys, n);
      assert At(n) == set k | k in keys :: BinIx(k);
    }
  }

  lemma AddKey(keys: set<string>, str: string, n: nat)
    ensures (set k | k in keys + {str} && |k| == n :: BinIx(k))
         == (set k | k in keys && |k| == n :: BinIx(k)) + if |str| == n then {BinIx(str)} else {}
  {
  }

  lemma {:induction false} KeysInjective(keys: set<string>, n: nat)
    requires forall k :: k in keys ==> AllBinary(k) && |k| == n
    ensures |set k | k in keys :: BinIx(k)| == |keys|
    decreases |keys|
  {
    if keys != {} {
      var str :| str in keys;
      var rest := keys - {str};
      KeysInjective(rest, n);
      var all, others := set k | k in keys :: BinIx(k), set k | k in rest :: BinIx(k);
      forall k | k in rest
        ensures BinIx(k) != BinIx(str)
      {
        BinTextOfIx(k);
        BinTextOfIx(str);
      }
      assert all == others + {BinIx(str)};
    }
  }
}
