/** A family of subsets of x has at most 2^|x| members. */
module Powerset {
  import Sets
  import Words

  lemma {:induction false} FamilySize(family: set<set<nat>>, x: set<nat>)
    requires forall e :: e in family ==> e <= x
    ensures |family| <= Words.Pow2(|x|)
    decreases |x|
  {
    if x == {} {
      forall e | e in family
        ensures e in {x}
      {
        assert e == x;
      }
      Sets.SubsetSize(family, {x});
    } else {
      var v :| v in x;
      var x' := x - {v};
      var without := set e | e in family && v !in e;
      var having := set e | e in family && v in e;
      assert family == without + having;
      var dropped := set e | e in having :: e - {v};
      ImageSize(having, dropped, v);
      FamilySize(without, x');
      FamilySize(dropped, x');
    }
  }

  /** Removing v from sets that all have it keeps them apart. */
  lemma {:induction false} ImageSize(having: set<set<nat>>, dropped: set<set<nat>>, v: nat)
    requires forall e :: e in having ==> v in e
    requires dropped == set e | e in having :: e - {v}
    ensures |dropped| == |having|
    decreases |having|
  {
    if having != {} {
      var e :| e in having;
      var rest := having - {e};
      var dropped' := dropped - {e - {v}};
      forall d | d in dropped'
        ensures exists r :: r in rest && d == r - {v}
      {
        var r :| r in having && d == r - {v};
        assert r in rest;
      }
      forall r | r in rest
        ensures r - {v} in dropped'
      {
        assert r == (r - {v}) + {v} && e == (e - {v}) + {v};
      }
      assert dropped' == set r | r in rest :: r - {v};
      ImageSize(rest, dropped', v);
    }
  }
}
