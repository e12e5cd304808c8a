/**
 Circular lists as pure data: a dummy `d` and the sequence `s` of the nodes after it. `Succ` and
 `Pred` are what the links of each member have to be; the lemmas say how few of them an insertion,
 a removal or an append changes.
 */
module Rings {
  import opened Common
  import opened Ordering

  ghost predicate Ring<N>(d: N, s: seq<N>) {
    d !in s && Distinct(s)
  }

  ghost function Members<N>(d: N, s: seq<N>): set<N> {
    {d} + set n | n in s
  }

  /** Moving the last node of one ring into another keeps them apart. */
  lemma MoveMembers<N>(d: N, s: seq<N>, e: N, t: seq<N>, p: nat)
    requires t != [] && Ring(e, t) && p <= |s| && Members(d, s) !! Members(e, t)
    ensures var s' := InsertAt(s, p, t[|t| - 1]);
            var t' := t[..|t| - 1];
            && Members(d, s') !! Members(e, t')
            && Members(d, s') <= Members(d, s) + Members(e, t) && Members(e, t') <= Members(e, t)
  {
    var x := t[|t| - 1];
    var s', t' := InsertAt(s, p, x), t[..|t| - 1];
    assert forall n | n in s' :: n in s || n == x;
    assert x in Members(e, t) && x !in t' && x != e;
  }

  /** So does moving the first one. */
  lemma MoveFirstMember<N>(d: N, s: seq<N>, e: N, t: seq<N>, p: nat)
    requires t != [] && Ring(e, t) && p <= |s| && Members(d, s) !! Members(e, t)
    ensures Members(d, InsertAt(s, p, t[0])) !! Members(e, t[1..])
    ensures Members(d, InsertAt(s, p, t[0])) <= Members(d, s) + Members(e, t) && Members(e, t[1..]) <= Members(e, t)
  {
    var x := t[0];
    assert forall n | n in InsertAt(s, p, x) :: n in s || n == x;
    assert x in Members(e, t) && x !in t[1..] && x != e;
  }

  ghost function IndexOf<N>(s: seq<N>, n: N): (i: nat)
    requires n in s
    ensures i < |s| && s[i] == n
  {
    var i :| 0 <= i < |s| && s[i] == n;
    i
  }

  /** The member at position `i`, where the dummy stands before the first and after the last. */
  ghost function At<N>(d: N, s: seq<N>, i: int): N {
    if 0 <= i < |s| then s[i] else d
  }

  ghost function Succ<N>(d: N, s: seq<N>, n: N): N
    requires n == d || n in s
  {
    if n == d then At(d, s, 0) else At(d, s, IndexOf(s, n) + 1)
  }

  ghost function Pred<N>(d: N, s: seq<N>, n: N): N
    requires n == d || n in s
  {
    if n == d then At(d, s, |s| - 1) else At(d, s, IndexOf(s, n) - 1)
  }

  lemma Position<N>(d: N, s: seq<N>, i: nat)
    requires Ring(d, s) && i < |s|
    ensures s[i] in s && IndexOf(s, s[i]) == i
    ensures Succ(d, s, s[i]) == At(d, s, i + 1) && Pred(d, s, s[i]) == At(d, s, i - 1)
    ensures At(d, s, i + 1) != s[i] && At(d, s, i - 1) != s[i] && s[i] != d
  {
  }

  /** The neighbours of a position are the dummy or members. */
  lemma Neighbours<N>(d: N, s: seq<N>, k: int)
    ensures At(d, s, k) == d || At(d, s, k) in s
    ensures At(d, s, -1) == At(d, s, |s|) == d
    ensures 0 <= k < |s| ==> At(d, s, k) == s[k]
    ensures Succ(d, s, d) == At(d, s, 0) && Pred(d, s, d) == At(d, s, |s| - 1)
  {
  }

  lemma RingInsertMembers<N>(d: N, s: seq<N>, p: nat, x: N)
    requires Ring(d, s) && p <= |s| && x != d && x !in s
    ensures Ring(d, InsertAt(s, p, x))
    ensures forall n {:trigger n in InsertAt(s, p, x)} :: n in InsertAt(s, p, x) <==> n == x || n in s
  {
    var r := InsertAt(s, p, x);
    forall n
      ensures n in r <==> n == x || n in s
    {
      if n in s {
        var i := IndexOf(s, n);
        assert r[if i < p then i else i + 1] == n;
      }
      assert r[p] == x;
    }
  }

  lemma RingInsert<N>(d: N, s: seq<N>, p: nat, x: N)
    requires Ring(d, s) && p <= |s| && x != d && x !in s
    ensures Ring(d, InsertAt(s, p, x))
    ensures forall n {:trigger n in InsertAt(s, p, x)} :: n in InsertAt(s, p, x) <==> n == x || n in s
    ensures forall n {:trigger Succ(d, InsertAt(s, p, x), n)} | n == d || n in InsertAt(s, p, x) ::
              Succ(d, InsertAt(s, p, x), n) ==
              if n == x then At(d, s, p) else if n == At(d, s, p - 1) then x else Succ(d, s, n)
    ensures forall n {:trigger Pred(d, InsertAt(s, p, x), n)} | n == d || n in InsertAt(s, p, x) ::
              Pred(d, InsertAt(s, p, x), n) ==
              if n == x then At(d, s, p - 1) else if n == At(d, s, p) then x else Pred(d, s, n)
  {
    RingInsertMembers(d, s, p, x);
    var r := InsertAt(s, p, x);
    forall n | n == d || n in r
      ensures Succ(d, r, n) == if n == x then At(d, s, p) else if n == At(d, s, p - 1) then x else Succ(d, s, n)
      ensures Pred(d, r, n) == if n == x then At(d, s, p - 1) else if n == At(d, s, p) then x else Pred(d, s, n)
    {
      if n == x {
        assert r[p] == x;
        Position(d, r, p);
      } else if n != d {
        var i := IndexOf(s, n);
        assert r[if i < p then i else i + 1] == n;
        Position(d, s, i);
        Position(d, r, if i < p then i else i + 1);
      }
    }
  }

  lemma RingRemove<N>(d: N, s: seq<N>, k: nat)
    requires Ring(d, s) && k < |s|
    ensures var r := RemoveAt(s, k);
            && Ring(d, r)
            && (forall n {:trigger n in r} :: n in r <==> n in s && n != s[k])
            && (forall n {:trigger Succ(d, r, n)} | n == d || n in r ::
                  Succ(d, r, n) == if n == At(d, s, k - 1) then At(d, s, k + 1) else Succ(d, s, n))
            && (forall n {:trigger Pred(d, r, n)} | n == d || n in r ::
                  Pred(d, r, n) == if n == At(d, s, k + 1) then At(d, s, k - 1) else Pred(d, s, n))
  {
    var r := RemoveAt(s, k);
    forall n
      ensures n in r <==> n in s && n != s[k]
    {
      if n in s && n != s[k] {
        var i := IndexOf(s, n);
        assert r[if i < k then i else i - 1] == n;
      }
    }
    forall n | n in r
      ensures Succ(d, r, n) == if n == At(d, s, k - 1) then At(d, s, k + 1) else Succ(d, s, n)
      ensures Pred(d, r, n) == if n == At(d, s, k + 1) then At(d, s, k - 1) else Pred(d, s, n)
    {
      var i := IndexOf(s, n);
      Position(d, s, i);
      Position(d, r, if i < k then i else i - 1);
    }
  }

  lemma RingAppend<N>(d: N, s: seq<N>, e: N, t: seq<N>)
    requires Ring(d, s) && Ring(e, t) && t != [] && d !in t && d != e
    requires forall i | 0 <= i < |s| :: s[i] !in t
    ensures Ring(d, s + t)
    ensures forall n {:trigger Succ(d, s + t, n)} | n == d || n in s + t ::
              Succ(d, s + t, n) ==
              if n == t[|t| - 1] then d else if n == At(d, s, |s| - 1) then t[0]
              else if n == d || n in s then Succ(d, s, n) else Succ(e, t, n)
    ensures forall n {:trigger Pred(d, s + t, n)} | n == d || n in s + t ::
              Pred(d, s + t, n) ==
              if n == t[0] then At(d, s, |s| - 1) else if n == d then t[|t| - 1]
              else if n in s then Pred(d, s, n) else Pred(e, t, n)
  {
    forall i, j | 0 <= i < |s| && 0 <= j < |t|
      ensures s[i] != t[j]
    {
      assert s[i] in s && t[j] in t;
    }
    forall n | n in s
      ensures n in s + t
      ensures Succ(d, s + t, n) == if n == At(d, s, |s| - 1) then t[0] else Succ(d, s, n)
      ensures Pred(d, s + t, n) == Pred(d, s, n)
    {
      var i := IndexOf(s, n);
      assert (s + t)[i] == n;
      Position(d, s, i);
      Position(d, s + t, i);
    }
    forall n | n in t
      ensures n in s + t
      ensures Succ(d, s + t, n) == if n == t[|t| - 1] then d else Succ(e, t, n)
      ensures Pred(d, s + t, n) == if n == t[0] then At(d, s, |s| - 1) else Pred(e, t, n)
    {
      var i := IndexOf(t, n);
      assert (s + t)[|s| + i] == n;
      Position(e, t, i);
      Position(d, s + t, |s| + i);
    }
  }

  /** Where the successor of position `p` is after the node there was removed, and after it came back at `q`. */
  lemma CursorAfter<N>(d: N, s: seq<N>, p: nat, q: nat, x: N)
    requires p < |s| && q < |s|
    ensures |RemoveAt(s, p)| == |s| - 1
    ensures At(d, RemoveAt(s, p), p) == At(d, s, p + 1)
    ensures At(d, InsertAt(RemoveAt(s, p), q, x), if q <= p then p + 1 else p) == At(d, s, p + 1)
    ensures Members(d, RemoveAt(s, p)) <= Members(d, s)
    ensures x in s ==> Members(d, InsertAt(RemoveAt(s, p), q, x)) <= Members(d, s)
  {
  }
}
