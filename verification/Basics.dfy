/** Types and set facts that several parts share. */
module Basics {

  type Byte = b: nat | b < 0x100
  type U32 = n: nat | n < 0x1_0000_0000

  datatype Option<T> = None | Some(value: T)

  lemma {:induction false} SubsetSize<A>(s: set<A>, t: set<A>)
    requires s <= t
    ensures |s| <= |t|
    ensures |s| == |t| ==> s == t
    decreases |s|
  {
    if s != {} {
      var x :| x in s;
      SubsetSize(s - {x}, t - {x});
      if s - {x} == t - {x} { assert s == s - {x} + {x} && t == t - {x} + {x}; }
    } else if |t| == 0 {
      assert t == {};
    }
  }

  lemma NoneMissing<A>(s: set<A>, t: set<A>)
    requires s - t == {}
    ensures s <= t
  {
    assert s == s - t + s * t;
  }

  lemma SmallerMisses<A>(s: set<A>, t: set<A>)
    requires |t| < |s|
    ensures s - t != {}
  {
    if s - t == {} {
      NoneMissing(s, t);
      SubsetSize(s, t);
    }
  }

  lemma SizePositive<A>(s: set<A>)
    requires s != {}
    ensures |s| > 0
  {
  }
}
