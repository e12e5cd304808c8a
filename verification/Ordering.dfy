/**
 Sorted insertion and insertion sort on sequences of keyed items, for a C-style comparator
 `cmp(x, y)` that is negative, zero or positive. The list modules prove that their pointer
 code computes these functions; the laws of the functions are proved here.
 */
module Ordering {

  /** A list element: the identity of a node and the key the comparator reads. */
  datatype Item<I, K> = Item(id: I, key: K)

  ghost predicate Antisymmetric<K>(cmp: (K, K) -> int, x: K, y: K) {
    cmp(x, y) < 0 <==> cmp(y, x) > 0
  }

  ghost predicate TransitiveAt<K>(cmp: (K, K) -> int, x: K, y: K, z: K) {
    cmp(x, y) <= 0 && cmp(y, z) <= 0 ==> cmp(x, z) <= 0
  }

  /** `cmp` behaves like a total preorder on the keys that occur in `s`. */
  ghost predicate PreorderOn<I, K>(cmp: (K, K) -> int, s: seq<Item<I, K>>) {
    && (forall x, y {:trigger Antisymmetric(cmp, x.key, y.key)} | x in s && y in s :: Antisymmetric(cmp, x.key, y.key))
    && (forall x, y, z {:trigger TransitiveAt(cmp, x.key, y.key, z.key)} | x in s && y in s && z in s ::
          TransitiveAt(cmp, x.key, y.key, z.key))
  }

  ghost predicate SortedBy<I, K>(cmp: (K, K) -> int, s: seq<Item<I, K>>) {
    forall i, j | 0 <= i < j < |s| :: cmp(s[i].key, s[j].key) <= 0
  }

  function InsertAt<T>(s: seq<T>, p: nat, x: T): seq<T>
    requires p <= |s|
  {
    s[..p] + [x] + s[p..]
  }

  function RemoveAt<T>(s: seq<T>, p: nat): seq<T>
    requires p < |s|
  {
    s[..p] + s[p + 1..]
  }

  /** Scan from the front: before the first element that `key` is strictly below, else at the end. */
  function FrontPos<I, K>(cmp: (K, K) -> int, s: seq<Item<I, K>>, key: K): (p: nat)
    ensures p <= |s|
    ensures forall i | 0 <= i < p :: cmp(key, s[i].key) >= 0
    ensures p < |s| ==> cmp(key, s[p].key) < 0
  {
    if s == [] || cmp(key, s[0].key) < 0 then 0 else 1 + FrontPos(cmp, s[1..], key)
  }

  /** Scan from the back: after the last element that is not above `key`, else at the front. */
  function BackPos<I, K>(cmp: (K, K) -> int, s: seq<Item<I, K>>, key: K): (p: nat)
    ensures p <= |s|
    ensures forall i | p <= i < |s| :: cmp(s[i].key, key) > 0
    ensures p > 0 ==> cmp(s[p - 1].key, key) <= 0
  {
    if s == [] then 0
    else if cmp(s[|s| - 1].key, key) <= 0 then |s|
    else BackPos(cmp, s[..|s| - 1], key)
  }

  /** The postconditions above name the scans' results completely. */
  lemma {:induction false} FrontPosIs<I, K>(cmp: (K, K) -> int, s: seq<Item<I, K>>, key: K, p: nat)
    requires p <= |s| && (forall i | 0 <= i < p :: cmp(key, s[i].key) >= 0)
    requires p < |s| ==> cmp(key, s[p].key) < 0
    ensures FrontPos(cmp, s, key) == p
  {
  }

  lemma {:induction false} BackPosIs<I, K>(cmp: (K, K) -> int, s: seq<Item<I, K>>, key: K, p: nat)
    requires p <= |s| && (forall i | p <= i < |s| :: cmp(s[i].key, key) > 0)
    requires p > 0 ==> cmp(s[p - 1].key, key) <= 0
    ensures BackPos(cmp, s, key) == p
  {
  }

  function Insert<I, K>(cmp: (K, K) -> int, s: seq<Item<I, K>>, x: Item<I, K>): seq<Item<I, K>> {
    InsertAt(s, FrontPos(cmp, s, x.key), x)
  }

  function InsertFromBack<I, K>(cmp: (K, K) -> int, s: seq<Item<I, K>>, x: Item<I, K>): seq<Item<I, K>> {
    InsertAt(s, BackPos(cmp, s, x.key), x)
  }

  /** Sorting by repeatedly taking the first remaining element. */
  function SortFromFront<I, K>(cmp: (K, K) -> int, s: seq<Item<I, K>>): seq<Item<I, K>> {
    if s == [] then [] else Insert(cmp, SortFromFront(cmp, s[..|s| - 1]), s[|s| - 1])
  }

  /** Sorting by repeatedly taking the last remaining element. */
  function SortFromBack<I, K>(cmp: (K, K) -> int, s: seq<Item<I, K>>): seq<Item<I, K>> {
    if s == [] then [] else Insert(cmp, SortFromBack(cmp, s[1..]), s[0])
  }

  /** The elements of `t` inserted into `acc`, last one first. */
  function InsertAllFromBack<I, K>(cmp: (K, K) -> int, acc: seq<Item<I, K>>, t: seq<Item<I, K>>): seq<Item<I, K>>
    decreases |t|
  {
    if t == [] then acc else InsertAllFromBack(cmp, Insert(cmp, acc, t[|t| - 1]), t[..|t| - 1])
  }

  /** The elements of `t` inserted into `acc`, first one first. */
  function InsertAllFromFront<I, K>(cmp: (K, K) -> int, acc: seq<Item<I, K>>, t: seq<Item<I, K>>): seq<Item<I, K>>
    decreases |t|
  {
    if t == [] then acc else InsertAllFromFront(cmp, Insert(cmp, acc, t[0]), t[1..])
  }

  lemma {:induction false} InsertAllFromBackStep<I, K>(cmp: (K, K) -> int, acc: seq<Item<I, K>>, t: seq<Item<I, K>>)
    ensures t == [] ==> InsertAllFromBack(cmp, acc, t) == acc
    ensures t != [] ==>
              var k := |t| - 1;
              InsertAllFromBack(cmp, acc, t) == InsertAllFromBack(cmp, Insert(cmp, acc, t[k]), t[..k])
  {
  }

  lemma {:induction false} InsertAllFromFrontStep<I, K>(cmp: (K, K) -> int, acc: seq<Item<I, K>>, t: seq<Item<I, K>>)
    ensures t == [] ==> InsertAllFromFront(cmp, acc, t) == acc
    ensures t != [] ==> InsertAllFromFront(cmp, acc, t) == InsertAllFromFront(cmp, Insert(cmp, acc, t[0]), t[1..])
  {
  }

  lemma {:induction false} InsertAllIsSort<I, K>(cmp: (K, K) -> int, s: seq<Item<I, K>>)
    ensures InsertAllFromBack(cmp, [], s) == SortFromBack(cmp, s)
    ensures InsertAllFromFront(cmp, [], s) == SortFromFront(cmp, s)
  {
    assert s + [] == s && [] + s == s;
    InsertAllBackSplit(cmp, s, []);
    InsertAllFrontSplit(cmp, [], s);
  }

  lemma {:induction false} InsertAllBackSplit<I, K>(cmp: (K, K) -> int, t: seq<Item<I, K>>, s: seq<Item<I, K>>)
    ensures InsertAllFromBack(cmp, SortFromBack(cmp, s), t) == SortFromBack(cmp, t + s)
    decreases |t|
  {
    if t == [] {
      assert t + s == s;
    } else {
      var init, last := t[..|t| - 1], t[|t| - 1];
      assert ([last] + s)[1..] == s;
      assert init + ([last] + s) == t + s;
      InsertAllBackSplit(cmp, init, [last] + s);
    }
  }

  lemma {:induction false} InsertAllFrontSplit<I, K>(cmp: (K, K) -> int, s: seq<Item<I, K>>, t: seq<Item<I, K>>)
    ensures InsertAllFromFront(cmp, SortFromFront(cmp, s), t) == SortFromFront(cmp, s + t)
    decreases |t|
  {
    if t == [] {
      assert s + t == s;
    } else {
      assert (s + [t[0]])[..|s|] == s;
      assert (s + [t[0]]) + t[1..] == s + t;
      InsertAllFrontSplit(cmp, s + [t[0]], t[1..]);
    }
  }

  /** The elements whose key is equivalent to `key`, in order of appearance. */
  function Same<I, K>(cmp: (K, K) -> int, s: seq<Item<I, K>>, key: K): seq<Item<I, K>> {
    if s == [] then []
    else (if cmp(s[0].key, key) == 0 then [s[0]] else []) + Same(cmp, s[1..], key)
  }

  function Reverse<T>(s: seq<T>): seq<T> {
    if s == [] then [] else Reverse(s[1..]) + [s[0]]
  }

  // ---------------------------------------------------------------- insertion

  lemma InsertAtEnds<T>(s: seq<T>, x: T)
    ensures InsertAt(s, 0, x) == [x] + s && InsertAt(s, |s|, x) == s + [x]
  {
  }

  lemma InsertAtMembers<T>(s: seq<T>, p: nat, x: T)
    requires p <= |s|
    ensures multiset(InsertAt(s, p, x)) == multiset(s) + multiset{x}
    ensures forall y :: y in InsertAt(s, p, x) <==> y == x || y in s
  {
    assert s == s[..p] + s[p..];
  }

  /** In a sorted list the front scan stops behind exactly the elements not above `x`. */
  lemma {:induction false} FrontPosMeaning<I, K>(cmp: (K, K) -> int, s: seq<Item<I, K>>, x: Item<I, K>)
    requires PreorderOn(cmp, s + [x]) && SortedBy(cmp, s)
    ensures forall i | 0 <= i < |s| :: i < FrontPos(cmp, s, x.key) <==> cmp(s[i].key, x.key) <= 0
  {
    var f := FrontPos(cmp, s, x.key);
    var all := s + [x];
    assert all[|s|] == x;
    forall i | 0 <= i < |s|
      ensures i < f <==> cmp(s[i].key, x.key) <= 0
    {
      assert all[i] == s[i];
      assert Antisymmetric(cmp, x.key, s[i].key);
      if f <= i {
        assert all[f] == s[f] && (f < i ==> cmp(s[f].key, s[i].key) <= 0);
        assert Antisymmetric(cmp, x.key, s[f].key);
        assert TransitiveAt(cmp, s[f].key, s[i].key, x.key);
      }
    }
  }

  /** And so does the back scan. */
  lemma {:induction false} BackPosMeaning<I, K>(cmp: (K, K) -> int, s: seq<Item<I, K>>, x: Item<I, K>)
    requires PreorderOn(cmp, s + [x]) && SortedBy(cmp, s)
    ensures forall i | 0 <= i < |s| :: i < BackPos(cmp, s, x.key) <==> cmp(s[i].key, x.key) <= 0
  {
    var b := BackPos(cmp, s, x.key);
    var all := s + [x];
    assert all[|s|] == x;
    forall i | 0 <= i < b
      ensures cmp(s[i].key, x.key) <= 0
    {
      assert all[i] == s[i] && all[b - 1] == s[b - 1];
      assert i < b - 1 ==> cmp(s[i].key, s[b - 1].key) <= 0;
      assert TransitiveAt(cmp, s[i].key, s[b - 1].key, x.key);
    }
  }

  /** Hence the two scans of a sorted list insert at the same place. */
  lemma {:induction false} FrontAndBackAgree<I, K>(cmp: (K, K) -> int, s: seq<Item<I, K>>, x: Item<I, K>)
    requires PreorderOn(cmp, s + [x]) && SortedBy(cmp, s)
    ensures FrontPos(cmp, s, x.key) == BackPos(cmp, s, x.key)
    ensures Insert(cmp, s, x) == InsertFromBack(cmp, s, x)
  {
    FrontPosMeaning(cmp, s, x);
    BackPosMeaning(cmp, s, x);
    var f, b := FrontPos(cmp, s, x.key), BackPos(cmp, s, x.key);
    assert f < |s| ==> cmp(s[f].key, x.key) > 0;
    assert b < |s| ==> cmp(s[b].key, x.key) > 0;
  }

  lemma InsertIsAt<I, K>(cmp: (K, K) -> int, s: seq<Item<I, K>>, x: Item<I, K>)
    ensures Insert(cmp, s, x) == InsertAt(s, FrontPos(cmp, s, x.key), x)
  {
    hide FrontPos;
  }

  lemma InsertAtIndex<T>(s: seq<T>, p: nat, x: T, i: nat)
    requires p <= |s| && i <= |s|
    ensures |InsertAt(s, p, x)| == |s| + 1
    ensures InsertAt(s, p, x)[i] == if i < p then s[i] else if i == p then x else s[i - 1]
  {
  }

  /** What stands behind the place of an insert is not below the new element. */
  lemma NotBelowBehind<I, K>(cmp: (K, K) -> int, s: seq<Item<I, K>>, x: Item<I, K>, i: nat)
    requires PreorderOn(cmp, s + [x]) && SortedBy(cmp, s) && FrontPos(cmp, s, x.key) <= i < |s|
    ensures cmp(x.key, s[i].key) <= 0
  {
    FrontPosMeaning(cmp, s, x);
    hide FrontPos, SortedBy;
    var all := s + [x];
    assert all[|s|] == x && all[i] == s[i];
    assert Antisymmetric(cmp, x.key, s[i].key);
  }

  /** Two positions after an insert are in order. */
  lemma InsertedPair<I, K>(cmp: (K, K) -> int, s: seq<Item<I, K>>, x: Item<I, K>, i: nat, j: nat)
    requires PreorderOn(cmp, s + [x]) && SortedBy(cmp, s) && i < j <= |s|
    ensures var r := InsertAt(s, FrontPos(cmp, s, x.key), x);
            |r| == |s| + 1 && cmp(r[i].key, r[j].key) <= 0
  {
    var p := FrontPos(cmp, s, x.key);
    InsertAtIndex(s, p, x, i);
    InsertAtIndex(s, p, x, j);
    FrontPosMeaning(cmp, s, x);
    hide FrontPos, InsertAt, PreorderOn;
    if i == p {
      NotBelowBehind(cmp, s, x, j - 1);
    }
  }

  lemma SortedIs<I, K>(cmp: (K, K) -> int, s: seq<Item<I, K>>)
    requires forall i: nat, j: nat | i < j < |s| :: cmp(s[i].key, s[j].key) <= 0
    ensures SortedBy(cmp, s)
  {
  }

  lemma {:induction false} InsertSorted<I, K>(cmp: (K, K) -> int, s: seq<Item<I, K>>, x: Item<I, K>)
    requires PreorderOn(cmp, s + [x]) && SortedBy(cmp, s)
    ensures SortedBy(cmp, Insert(cmp, s, x))
    ensures multiset(Insert(cmp, s, x)) == multiset(s) + multiset{x}
  {
    hide *;
    InsertIsAt(cmp, s, x);
    var p := FrontPos(cmp, s, x.key);
    InsertAtIndex(s, p, x, 0);
    InsertAtMembers(s, p, x);
    forall i: nat, j: nat | i < j <= |s|
      ensures cmp(InsertAt(s, p, x)[i].key, InsertAt(s, p, x)[j].key) <= 0
    {
      InsertedPair(cmp, s, x, i, j);
    }
    SortedIs(cmp, InsertAt(s, p, x));
  }

  lemma SameConcat<I, K>(cmp: (K, K) -> int, s: seq<Item<I, K>>, t: seq<Item<I, K>>, key: K)
    ensures Same(cmp, s + t, key) == Same(cmp, s, key) + Same(cmp, t, key)
  {
    if s == [] {
      assert s + t == t;
    } else {
      assert (s + t)[1..] == s[1..] + t;
      SameConcat(cmp, s[1..], t, key);
    }
  }

  lemma SameEmpty<I, K>(cmp: (K, K) -> int, s: seq<Item<I, K>>, key: K)
    requires forall i | 0 <= i < |s| :: cmp(s[i].key, key) != 0
    ensures Same(cmp, s, key) == []
  {
  }

  /** Nothing behind the insertion point has the key class of `x`. */
  lemma {:induction false} NoEqualsBehind<I, K>(cmp: (K, K) -> int, s: seq<Item<I, K>>, x: Item<I, K>, k: Item<I, K>)
    requires PreorderOn(cmp, s + [x]) && SortedBy(cmp, s) && k in s + [x] && cmp(x.key, k.key) == 0
    ensures Same(cmp, s[FrontPos(cmp, s, x.key)..], k.key) == []
  {
    var p := FrontPos(cmp, s, x.key);
    var all := s + [x];
    assert all[|s|] == x;
    forall i | p <= i < |s|
      ensures cmp(s[i].key, k.key) != 0
    {
      assert all[i] == s[i] && all[p] == s[p];
      assert i > p ==> cmp(s[p].key, s[i].key) <= 0;
      assert Antisymmetric(cmp, x.key, s[p].key);
      assert Antisymmetric(cmp, x.key, k.key);
      assert Antisymmetric(cmp, k.key, x.key);
      assert TransitiveAt(cmp, s[p].key, s[i].key, k.key);
      assert TransitiveAt(cmp, s[p].key, k.key, x.key);
    }
    SameEmpty(cmp, s[p..], k.key);
  }

  lemma InsertSplits<I, K>(cmp: (K, K) -> int, s: seq<Item<I, K>>, x: Item<I, K>)
    ensures var p := FrontPos(cmp, s, x.key);
            s == s[..p] + s[p..] && Insert(cmp, s, x) == s[..p] + [x] + s[p..]
  {
    hide FrontPos;
  }

  lemma SwapIfEmpty<T>(a: seq<T>, b: seq<T>, c: seq<T>)
    ensures b == [] || c == [] ==> a + c + b == a + b + c
  {
  }

  /** Equal keys keep their arrival order: the new element goes after its equals. */
  lemma {:induction false} InsertStable<I, K>(cmp: (K, K) -> int, s: seq<Item<I, K>>, x: Item<I, K>, k: Item<I, K>)
    requires PreorderOn(cmp, s + [x]) && SortedBy(cmp, s) && k in s + [x]
    ensures Same(cmp, Insert(cmp, s, x), k.key) == Same(cmp, s, k.key) + Same(cmp, [x], k.key)
  {
    hide *;
    var p := FrontPos(cmp, s, x.key);
    var a, b := s[..p], s[p..];
    InsertSplits(cmp, s, x);
    SameConcat(cmp, a, b, k.key);
    SameConcat(cmp, a + [x], b, k.key);
    SameConcat(cmp, a, [x], k.key);
    SwapIfEmpty(Same(cmp, a, k.key), Same(cmp, b, k.key), Same(cmp, [x], k.key));
    if cmp(x.key, k.key) == 0 {
      NoEqualsBehind(cmp, s, x, k);
    } else {
      SameEmpty(cmp, [x], k.key);
    }
  }

  // ---------------------------------------------------------------- sorting

  lemma {:induction false} PreorderPart<I, K>(cmp: (K, K) -> int, s: seq<Item<I, K>>, t: seq<Item<I, K>>)
    requires PreorderOn(cmp, s) && forall x | x in t :: x in s
    ensures PreorderOn(cmp, t)
  {
  }

  lemma {:induction false} SameMembers<I, K>(s: seq<Item<I, K>>, t: seq<Item<I, K>>)
    requires multiset(s) == multiset(t)
    ensures forall x | x in s :: x in t
    ensures forall x | x in t :: x in s
  {
    forall x | x in s
      ensures x in t
    {
      assert x in multiset(s) && x in multiset(t);
    }
    forall x | x in t
      ensures x in s
    {
      assert x in multiset(t) && x in multiset(s);
    }
  }

  /** Taking from the front gives a stable sort: sorted, a permutation, equal keys in arrival order. */
  lemma {:induction false} SortFromFrontStable<I, K>(cmp: (K, K) -> int, s: seq<Item<I, K>>)
    requires PreorderOn(cmp, s)
    ensures SortedBy(cmp, SortFromFront(cmp, s))
    ensures multiset(SortFromFront(cmp, s)) == multiset(s)
    ensures forall k | k in s :: Same(cmp, SortFromFront(cmp, s), k.key) == Same(cmp, s, k.key)
  {
    if s != [] {
      var init, last := s[..|s| - 1], s[|s| - 1];
      assert s == init + [last];
      PreorderPart(cmp, s, init);
      SortFromFrontStable(cmp, init);
      var r := SortFromFront(cmp, init);
      SameMembers(r, init);
      PreorderPart(cmp, s, r + [last]);
      InsertSorted(cmp, r, last);
      forall k | k in s
        ensures Same(cmp, SortFromFront(cmp, s), k.key) == Same(cmp, s, k.key)
      {
        InsertStable(cmp, r, last, k);
        SameConcat(cmp, init, [last], k.key);
        SameOfEquivalents(cmp, r, init, last, k);
      }
    }
  }

  /** Taking from the back also sorts, but leaves equal keys in the reverse of their arrival order. */
  lemma {:induction false} SortFromBackReverses<I, K>(cmp: (K, K) -> int, s: seq<Item<I, K>>)
    requires PreorderOn(cmp, s)
    ensures SortedBy(cmp, SortFromBack(cmp, s))
    ensures multiset(SortFromBack(cmp, s)) == multiset(s)
    ensures forall k | k in s :: Same(cmp, SortFromBack(cmp, s), k.key) == Reverse(Same(cmp, s, k.key))
  {
    SortBackIsSortOfReverse(cmp, s);
    ReverseMembers(s);
    SameMembers(Reverse(s), s);
    PreorderPart(cmp, s, Reverse(s));
    SortFromFrontStable(cmp, Reverse(s));
    forall k | k in s
      ensures Same(cmp, SortFromBack(cmp, s), k.key) == Reverse(Same(cmp, s, k.key))
    {
      SameReverse(cmp, s, k.key);
    }
  }

  lemma {:induction false} SameOfEquivalents<I, K>(
      cmp: (K, K) -> int, r: seq<Item<I, K>>, init: seq<Item<I, K>>, last: Item<I, K>, k: Item<I, K>)
    requires k in init || k == last
    requires multiset(r) == multiset(init)
    requires PreorderOn(cmp, init + [last])
    requires forall k' | k' in init :: Same(cmp, r, k'.key) == Same(cmp, init, k'.key)
    ensures Same(cmp, r, k.key) == Same(cmp, init, k.key)
  {
    if k !in init {
      var all := init + [last];
      assert all[|init|] == last;
      SameMembers(r, init);
      forall x | x in r
        ensures x in all
      {
        assert x in init;
      }
      if i :| 0 <= i < |init| && cmp(init[i].key, k.key) == 0 {
        SameClass(cmp, all, r, init[i], k);
        SameClass(cmp, all, init, init[i], k);
      } else {
        SameEmpty(cmp, init, k.key);
        forall i | 0 <= i < |r|
          ensures cmp(r[i].key, k.key) != 0
        {
          assert r[i] in init;
        }
        SameEmpty(cmp, r, k.key);
      }
    }
  }

  /** Equivalent keys select the same elements. */
  lemma {:induction false} SameClass<I, K>(
      cmp: (K, K) -> int, all: seq<Item<I, K>>, s: seq<Item<I, K>>, j: Item<I, K>, k: Item<I, K>)
    requires PreorderOn(cmp, all) && j in all && k in all && cmp(j.key, k.key) == 0
    requires forall x | x in s :: x in all
    ensures Same(cmp, s, j.key) == Same(cmp, s, k.key)
  {
    if s != [] {
      var x := s[0];
      assert x in s;
      assert Antisymmetric(cmp, j.key, k.key) && Antisymmetric(cmp, k.key, j.key);
      assert Antisymmetric(cmp, x.key, k.key) && Antisymmetric(cmp, k.key, x.key);
      assert Antisymmetric(cmp, x.key, j.key) && Antisymmetric(cmp, j.key, x.key);
      assert TransitiveAt(cmp, x.key, j.key, k.key) && TransitiveAt(cmp, k.key, j.key, x.key);
      assert TransitiveAt(cmp, x.key, k.key, j.key) && TransitiveAt(cmp, j.key, k.key, x.key);
      SameClass(cmp, all, s[1..], j, k);
    }
  }

  lemma {:induction false} SortBackIsSortOfReverse<I, K>(cmp: (K, K) -> int, s: seq<Item<I, K>>)
    ensures SortFromBack(cmp, s) == SortFromFront(cmp, Reverse(s))
  {
    if s != [] {
      var r := Reverse(s);
      assert r[..|r| - 1] == Reverse(s[1..]) && r[|r| - 1] == s[0];
      SortBackIsSortOfReverse(cmp, s[1..]);
    }
  }

  lemma {:induction false} ReverseMembers<T>(s: seq<T>)
    ensures multiset(Reverse(s)) == multiset(s)
  {
    if s != [] {
      assert s == [s[0]] + s[1..];
      ReverseMembers(s[1..]);
    }
  }

  lemma {:induction false} ReverseConcat<T>(s: seq<T>, t: seq<T>)
    ensures Reverse(s + t) == Reverse(t) + Reverse(s)
  {
    if s == [] {
      assert s + t == t;
    } else {
      assert (s + t)[1..] == s[1..] + t;
      ReverseConcat(s[1..], t);
    }
  }

  lemma {:induction false} SameReverse<I, K>(cmp: (K, K) -> int, s: seq<Item<I, K>>, key: K)
    ensures Same(cmp, Reverse(s), key) == Reverse(Same(cmp, s, key))
  {
    if s != [] {
      var head := if cmp(s[0].key, key) == 0 then [s[0]] else [];
      assert [s[0]][1..] == [] && Same(cmp, [s[0]], key) == head && Reverse(head) == head;
      assert Same(cmp, s, key) == head + Same(cmp, s[1..], key);
      assert Reverse(s) == Reverse(s[1..]) + [s[0]];
      hide Same, Reverse;
      SameReverse(cmp, s[1..], key);
      SameConcat(cmp, Reverse(s[1..]), [s[0]], key);
      ReverseConcat(head, Same(cmp, s[1..], key));
    }
  }

  // ---------------------------------------------------------------- the specification is complete

  /** A sorted list is determined by its equivalence classes: there is one stable sort of each list. */
  lemma {:induction false} SortedDetermined<I, K>(cmp: (K, K) -> int, s: seq<Item<I, K>>, t: seq<Item<I, K>>)
    requires PreorderOn(cmp, s) && SortedBy(cmp, s) && SortedBy(cmp, t) && multiset(s) == multiset(t)
    requires forall k | k in s :: Same(cmp, s, k.key) == Same(cmp, t, k.key)
    ensures s == t
  {
    hide Same, PreorderOn, SortedBy;
    assert |s| == |multiset(s)| == |multiset(t)| == |t|;
    if s != [] {
      HeadsEqual(cmp, s, t);
      TailsPermuted(s, t);
      PreorderPart(cmp, s, s[1..]);
      TailsAgree(cmp, s, t);
      SortedTail(cmp, s);
      SortedTail(cmp, t);
      SortedDetermined(cmp, s[1..], t[1..]);
      assert s == [s[0]] + s[1..] && t == [t[0]] + t[1..];
    }
  }

  lemma {:induction false} TailsPermuted<T>(s: seq<T>, t: seq<T>)
    requires s != [] && t != [] && s[0] == t[0] && multiset(s) == multiset(t)
    ensures multiset(s[1..]) == multiset(t[1..])
  {
    assert s == [s[0]] + s[1..] && t == [t[0]] + t[1..];
    assert multiset(s[1..]) == multiset(s) - multiset{s[0]};
    assert multiset(t[1..]) == multiset(t) - multiset{t[0]};
  }

  lemma {:induction false} SortedTail<I, K>(cmp: (K, K) -> int, s: seq<Item<I, K>>)
    requires SortedBy(cmp, s) && s != []
    ensures SortedBy(cmp, s[1..])
  {
  }

  lemma {:induction false} TailsAgree<I, K>(cmp: (K, K) -> int, s: seq<Item<I, K>>, t: seq<Item<I, K>>)
    requires s != [] && t != [] && s[0] == t[0]
    requires forall k | k in s :: Same(cmp, s, k.key) == Same(cmp, t, k.key)
    ensures forall k | k in s[1..] :: Same(cmp, s[1..], k.key) == Same(cmp, t[1..], k.key)
  {
    forall k | k in s[1..]
      ensures Same(cmp, s[1..], k.key) == Same(cmp, t[1..], k.key)
    {
      var head := if cmp(s[0].key, k.key) == 0 then [s[0]] else [];
      assert head + Same(cmp, s[1..], k.key) == head + Same(cmp, t[1..], k.key);
      assert (head + Same(cmp, s[1..], k.key))[|head|..] == Same(cmp, s[1..], k.key);
      assert (head + Same(cmp, t[1..], k.key))[|head|..] == Same(cmp, t[1..], k.key);
    }
  }

  lemma {:induction false} HeadsEqual<I, K>(cmp: (K, K) -> int, s: seq<Item<I, K>>, t: seq<Item<I, K>>)
    requires PreorderOn(cmp, s) && SortedBy(cmp, s) && SortedBy(cmp, t) && s != [] && t != []
    requires multiset(s) == multiset(t)
    requires forall k | k in s :: Same(cmp, s, k.key) == Same(cmp, t, k.key)
    ensures s[0] == t[0]
  {
    var x, y := s[0], t[0];
    SameMembers(s, t);
    assert x in s && y in t && x in t && y in s;
    var i :| 0 <= i < |s| && s[i] == y;
    var j :| 0 <= j < |t| && t[j] == x;
    assert Antisymmetric(cmp, x.key, x.key);
    assert Antisymmetric(cmp, y.key, x.key);
    assert cmp(x.key, y.key) <= 0 && cmp(y.key, x.key) <= 0;
    assert Antisymmetric(cmp, x.key, y.key);
    assert Same(cmp, s, x.key)[0] == x;
    assert Same(cmp, t, x.key)[0] == y;
  }
}
