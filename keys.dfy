/** Orderings over sets of row ids: the largest and smallest id, the ids in
    descending order (`orderBy: { id: "desc" }`) and an offset page of them
    (`skip`, `take`). */
module Keys {

  predicate IsMax(s: set<nat>, m: nat)
  {
    m in s && forall k :: k in s ==> k <= m
  }

  predicate IsMin(s: set<nat>, m: nat)
  {
    m in s && forall k :: k in s ==> m <= k
  }

  lemma {:induction false} MaxExists(s: set<nat>)
    requires s != {}
    ensures exists m :: IsMax(s, m)
    decreases |s|
  {
    var x :| x in s;
    if s == {x} {
      assert IsMax(s, x);
    } else {
      MaxExists(s - {x});
      var m :| IsMax(s - {x}, m);
      var top := if x <= m then m else x;
      forall k | k in s
        ensures k <= top
      {
        if k != x { assert k in s - {x}; }
      }
      assert IsMax(s, top);
    }
  }

  lemma {:induction false} MinExists(s: set<nat>)
    requires s != {}
    ensures exists m :: IsMin(s, m)
    decreases |s|
  {
    var x :| x in s;
    if s == {x} {
      assert IsMin(s, x);
    } else {
      MinExists(s - {x});
      var m :| IsMin(s - {x}, m);
      var bottom := if m <= x then m else x;
      forall k | k in s
        ensures bottom <= k
      {
        if k != x { assert k in s - {x}; }
      }
      assert IsMin(s, bottom);
    }
  }

  function MaxOf(s: set<nat>): (m: nat)
    requires s != {}
    ensures m in s && forall k :: k in s ==> k <= m
  {
    MaxExists(s);
    var m :| IsMax(s, m); m
  }

  function MinOf(s: set<nat>): (m: nat)
    requires s != {}
    ensures m in s && forall k :: k in s ==> m <= k
  {
    MinExists(s);
    var m :| IsMin(s, m); m
  }

  /** The number of ids in `s` above `x`: the position `x` takes when `s` is listed in descending order. */
  function Above(s: set<nat>, x: nat): nat
  {
    |set k | k in s && k > x|
  }

  /** The ids of `s`, each once, largest first. */
  function SortedDesc(s: set<nat>): (r: seq<nat>)
    ensures |r| == |s|
    ensures forall k :: k in r <==> k in s
    ensures forall i, j :: 0 <= i < j < |r| ==> r[i] > r[j]
    decreases |s|
  {
    if s == {} then []
    else
      var m := MaxOf(s);
      [m] + SortedDesc(s - {m})
  }

  /** The id at index `i` of the descending listing has exactly `i` ids above it. */
  lemma {:induction false} SortedDescRank(s: set<nat>, i: nat)
    requires i < |s|
    ensures Above(s, SortedDesc(s)[i]) == i
    decreases |s|
  {
    var m := MaxOf(s);
    var rest := SortedDesc(s - {m});
    assert SortedDesc(s) == [m] + rest;
    if i == 0 {
      NoneAboveMax(s, m);
    } else {
      SortedDescRank(s - {m}, i - 1);
      AboveBelowMax(s, m, rest[i - 1]);
    }
  }

  lemma NoneAboveMax(s: set<nat>, m: nat)
    requires IsMax(s, m)
    ensures Above(s, m) == 0
  {
  }

  lemma AboveBelowMax(s: set<nat>, m: nat, x: nat)
    requires IsMax(s, m) && x < m
    ensures Above(s, x) == Above(s - {m}, x) + 1
  {
    var above := set k | k in s && k > x;
    var aboveRest := set k | k in s - {m} && k > x;
    assert above == aboveRest + {m};
    assert m !in aboveRest;
  }

  /** `skip`/`take` over `s` listed in descending order: the ids at positions
      `skip` up to `skip + take` of that listing. */
  function PageOf(s: set<nat>, skip: nat, take: nat): (r: seq<nat>)
    ensures |r| == if skip < |s| then Min(take, |s| - skip) else 0
    ensures forall i :: 0 <= i < |r| ==> r[i] in s && Above(s, r[i]) == skip + i
    ensures forall i, j :: 0 <= i < j < |r| ==> r[i] > r[j]
  {
    var all := SortedDesc(s);
    var lo := Min(skip, |all|);
    var hi := Min(skip + take, |all|);
    PageRanks(s, lo, hi);
    all[lo..hi]
  }

  lemma PageRanks(s: set<nat>, lo: nat, hi: nat)
    requires lo <= hi <= |s|
    ensures forall i :: lo <= i < hi ==> Above(s, SortedDesc(s)[i]) == i
  {
    forall i | lo <= i < hi
      ensures Above(s, SortedDesc(s)[i]) == i
    {
      SortedDescRank(s, i);
    }
  }

  function Min(a: nat, b: nat): nat
  {
    if a <= b then a else b
  }
}
