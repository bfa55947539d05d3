/** Keeping the first element of each key, in order. */
module Dedupe {

  ghost function KeysOf<T, K>(xs: seq<T>, key: T -> K): set<K> {
    set i | 0 <= i < |xs| :: key(xs[i])
  }

  /** No earlier element has the key of element i. */
  ghost predicate IsFirst<T, K>(xs: seq<T>, key: T -> K, i: nat)
    requires i < |xs|
  {
    forall k :: 0 <= k < i ==> key(xs[k]) != key(xs[i])
  }

  /** The positions of the first occurrences, from left to right. */
  ghost function Picks<T, K>(xs: seq<T>, key: T -> K): (r: seq<nat>)
    ensures forall j :: 0 <= j < |r| ==> r[j] < |xs|
  {
    if xs == [] then []
    else
      var n := |xs| - 1;
      var front := Picks(xs[..n], key);
      if key(xs[n]) in KeysOf(xs[..n], key) then front else front + [n]
  }

  ghost function Firsts<T, K>(xs: seq<T>, key: T -> K): seq<T> {
    seq(|Picks(xs, key)|, j requires 0 <= j < |Picks(xs, key)| => xs[Picks(xs, key)[j]])
  }

  lemma KeysOfAppend<T, K>(xs: seq<T>, x: T, key: T -> K)
    ensures KeysOf(xs + [x], key) == KeysOf(xs, key) + {key(x)}
  {
    var all := xs + [x];
    assert all[|xs|] == x;
    assert forall i :: 0 <= i < |xs| ==> all[i] == xs[i];
  }

  lemma KeysOfConcat<T, K>(xs: seq<T>, ys: seq<T>, key: T -> K)
    ensures KeysOf(xs + ys, key) == KeysOf(xs, key) + KeysOf(ys, key)
  {
    var all := xs + ys;
    forall k | k in KeysOf(xs, key) + KeysOf(ys, key)
      ensures k in KeysOf(all, key)
    {
      if k in KeysOf(xs, key) {
        var i :| 0 <= i < |xs| && key(xs[i]) == k;
        assert all[i] == xs[i];
      } else {
        var i :| 0 <= i < |ys| && key(ys[i]) == k;
        assert all[|xs| + i] == ys[i];
      }
    }
  }

  lemma FirstsAppend<T, K>(xs: seq<T>, x: T, key: T -> K)
    ensures Firsts(xs + [x], key) == if key(x) in KeysOf(xs, key) then Firsts(xs, key) else Firsts(xs, key) + [x]
  {
    assert (xs + [x])[..|xs|] == xs;
    assert forall i :: 0 <= i < |xs| ==> (xs + [x])[i] == xs[i];
  }

  /** The positions picked are strictly increasing, and a position is picked exactly when it is
      the first of its key; so the list of first occurrences is determined, in order, with no
      key lost and none repeated. */
  lemma {:induction false} PicksAreTheFirsts<T, K>(xs: seq<T>, key: T -> K)
    ensures var r := Picks(xs, key);
            && (forall j, k :: 0 <= j < k < |r| ==> r[j] < r[k])
            && (forall i :: 0 <= i < |xs| ==> (i in r <==> IsFirst(xs, key, i)))
  {
    if xs != [] {
      var n := |xs| - 1;
      var front := xs[..n];
      PicksAreTheFirsts(front, key);
      forall i | 0 <= i < |xs|
        ensures i in Picks(xs, key) <==> IsFirst(xs, key, i)
      {
        if i < n {
          assert forall k :: 0 <= k <= i ==> front[k] == xs[k];
          assert IsFirst(xs, key, i) <==> IsFirst(front, key, i);
          assert i in Picks(xs, key) <==> i in Picks(front, key);
        } else {
          LastIsFirst(xs, key);
          assert n !in Picks(front, key);
        }
      }
    }
  }

  lemma LastIsFirst<T, K>(xs: seq<T>, key: T -> K)
    requires xs != []
    ensures var n := |xs| - 1;
            IsFirst(xs, key, n) <==> key(xs[n]) !in KeysOf(xs[..n], key)
  {
    var n := |xs| - 1;
    assert forall k :: 0 <= k < n ==> xs[..n][k] == xs[k];
    if key(xs[n]) !in KeysOf(xs[..n], key) {
      forall k | 0 <= k < n
        ensures key(xs[k]) != key(xs[n])
      {
        assert key(xs[..n][k]) in KeysOf(xs[..n], key);
      }
    }
  }

  /** There is one first occurrence for each key. */
  lemma {:induction false} OnePickPerKey<T, K>(xs: seq<T>, key: T -> K)
    ensures |Picks(xs, key)| == |KeysOf(xs, key)|
    ensures KeysOf(Firsts(xs, key), key) == KeysOf(xs, key)
  {
    if xs != [] {
      var n := |xs| - 1;
      OnePickPerKey(xs[..n], key);
      assert xs == xs[..n] + [xs[n]];
      KeysOfAppend(xs[..n], xs[n], key);
      FirstsAppend(xs[..n], xs[n], key);
      KeysOfAppend(Firsts(xs[..n], key), xs[n], key);
    }
  }

  /** Keys that distinguish the same elements pick the same elements. */
  lemma {:induction false} SameFirsts<T, K, L>(xs: seq<T>, key: T -> K, key': T -> L)
    requires forall i, j :: 0 <= i < |xs| && 0 <= j < |xs| ==> (key(xs[i]) == key(xs[j]) <==> key'(xs[i]) == key'(xs[j]))
    ensures Picks(xs, key) == Picks(xs, key') && Firsts(xs, key) == Firsts(xs, key')
  {
    if xs != [] {
      SameFirsts(xs[..|xs| - 1], key, key');
      LastIsFirst(xs, key);
      LastIsFirst(xs, key');
    }
  }
}
