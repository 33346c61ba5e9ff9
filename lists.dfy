/**
 * Lists of lists: the bucket lists of the buffer cache and the per-CPU free lists of the
 * page allocator are both a sequence of lists, one per bucket or CPU. `Flatten` puts them
 * one after the other, so that "each element is on exactly one list" and "no element is
 * lost" are statements about one multiset.
 */
module Lists {
  /** All lists, one after the other. */
  function Flatten(bs: seq<seq<nat>>): seq<nat> {
    if bs == [] then [] else bs[0] + Flatten(bs[1..])
  }

  /** An element found in the flattened lists sits at some position of some list. */
  lemma {:induction false} FlattenFind(bs: seq<seq<nat>>, x: nat) returns (i: nat, p: nat)
    requires x in Flatten(bs)
    ensures i < |bs| && p < |bs[i]| && bs[i][p] == x
  {
    assert Flatten(bs) == bs[0] + Flatten(bs[1..]);
    if x in bs[0] {
      i := 0;
      p :| 0 <= p < |bs[0]| && bs[0][p] == x;
    } else {
      var i', p' := FlattenFind(bs[1..], x);
      i, p := i' + 1, p';
    }
  }

  /** Each list is a part of the flattened lists. */
  lemma {:induction false} FlattenCovers(bs: seq<seq<nat>>, i: nat)
    requires i < |bs|
    ensures multiset(bs[i]) <= multiset(Flatten(bs))
  {
    assert Flatten(bs) == bs[0] + Flatten(bs[1..]);
    if i > 0 {
      FlattenCovers(bs[1..], i - 1);
    }
  }

  /** Two different lists are disjoint parts of the flattened lists. */
  lemma {:induction false} FlattenCovers2(bs: seq<seq<nat>>, i: nat, j: nat)
    requires i < j < |bs|
    ensures multiset(bs[i]) + multiset(bs[j]) <= multiset(Flatten(bs))
  {
    assert Flatten(bs) == bs[0] + Flatten(bs[1..]);
    if i == 0 {
      FlattenCovers(bs[1..], j - 1);
    } else {
      FlattenCovers2(bs[1..], i - 1, j - 1);
    }
  }

  /** Replacing one list changes the flattened multiset by exactly that list. */
  lemma {:induction false} FlattenUpdate(bs: seq<seq<nat>>, j: nat, l: seq<nat>)
    requires j < |bs|
    ensures multiset(Flatten(bs[j := l])) + multiset(bs[j]) == multiset(Flatten(bs)) + multiset(l)
  {
    assert Flatten(bs) == bs[0] + Flatten(bs[1..]);
    assert Flatten(bs[j := l]) == bs[j := l][0] + Flatten(bs[j := l][1..]);
    if j == 0 {
      assert bs[j := l][1..] == bs[1..];
    } else {
      var t := bs[1..];
      assert bs[j := l][0] == bs[0];
      assert bs[j := l][1..] == t[j - 1 := l];
      assert t[j - 1] == bs[j];
      FlattenUpdate(t, j - 1, l);
      calc {
        multiset(Flatten(bs[j := l])) + multiset(bs[j]);
        multiset(bs[0]) + multiset(Flatten(t[j - 1 := l])) + multiset(t[j - 1]);
        multiset(bs[0]) + (multiset(Flatten(t[j - 1 := l])) + multiset(t[j - 1]));
        multiset(bs[0]) + (multiset(Flatten(t)) + multiset(l));
        multiset(Flatten(bs)) + multiset(l);
      }
    }
  }

  lemma SeqCount2(l: seq<nat>, p: nat, q: nat)
    requires p < q < |l| && l[p] == l[q]
    ensures multiset(l)[l[p]] >= 2
  {
    assert l == l[..q] + l[q..];
    assert l[p] in l[..q];
    assert l[q] in l[q..];
  }

  lemma {:induction false} FlattenEmpty(bs: seq<seq<nat>>)
    requires forall k :: 0 <= k < |bs| ==> bs[k] == []
    ensures Flatten(bs) == []
  {
    if bs != [] {
      FlattenEmpty(bs[1..]);
    }
  }

}
