/**
 * Facts about finite sets of primary keys: the least key, the keys in
 * ascending order, and the existence of a key that is not yet taken.
 */
module Ids {

  /** A non-empty set of keys has a member to pick. */
  lemma HasMember(ids: set<int>)
    requires ids != {}
    ensures exists x :: x in ids
  {
    if forall x :: x !in ids {
      assert false;
    }
  }

  /** Every non-empty finite set of keys has a least element. */
  lemma {:induction false} LeastExists(ids: set<int>)
    requires ids != {}
    ensures exists m :: m in ids && forall k :: k in ids ==> m <= k
  {
    HasMember(ids);
    var x :| x in ids;
    if ids != {x} {
      var rest := ids - {x};
      LeastExists(rest);
      var m :| m in rest && forall k :: k in rest ==> m <= k;
      var least := if x < m then x else m;
      forall k | k in ids ensures least <= k {
        if k != x { assert k in rest; }
      }
    } else {
      assert forall k :: k in ids ==> x <= k;
    }
  }

  /** The least key of a non-empty set. */
  function Least(ids: set<int>): (m: int)
    requires ids != {}
    ensures m in ids
    ensures forall k :: k in ids ==> m <= k
  {
    LeastExists(ids);
    var m :| m in ids && forall k :: k in ids ==> m <= k;
    m
  }

  /** The keys of a set, each exactly once, in ascending order. */
  function SortedIds(ids: set<int>): (s: seq<int>)
    ensures |s| == |ids|
    ensures forall i :: 0 <= i < |s| ==> s[i] in ids
    ensures forall k :: k in ids ==> k in s
    ensures forall i, j :: 0 <= i < j < |s| ==> s[i] < s[j]
    decreases |ids|
  {
    if ids == {} then []
    else
      var m := Least(ids);
      [m] + SortedIds(ids - {m})
  }

  /** However many keys are taken, some key is still free. */
  lemma FreshIdExists(ids: set<int>)
    ensures exists k :: k !in ids
  {
    if ids == {} {
      assert 0 !in ids;
    } else {
      assert Least(ids) - 1 !in ids;
    }
  }
}
