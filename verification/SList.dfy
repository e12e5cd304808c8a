/**
 Intrusive circular singly linked lists, with a pointer to the last node. A list is a dummy node; an
 empty list's dummy and last pointer stand at the dummy, and a node that is in no list points at
 itself (or nowhere, before its first use).
 */
module SLists {
  import opened Common
  import opened Ordering
  import opened Rings

  class SLLNode<T(0)> {
    var pNext: SLLNode?<T>
    var data: T

    constructor (data: T)
      ensures pNext == this && this.data == data
    {
      this.data := data;
      new;
      pNext := this;
    }

    /** In no list. */
    ghost predicate Loose()
      reads this
    {
      pNext == this || pNext == null
    }
  }

  ghost function ItemsOf<T(0)>(nodes: seq<SLLNode<T>>): (r: seq<Item<SLLNode<T>, T>>)
    reads (set n | n in nodes)`data
    ensures |r| == |nodes|
    ensures forall i | 0 <= i < |nodes| :: r[i] == Item(nodes[i], nodes[i].data)
  {
    if nodes == [] then [] else [Item(nodes[0], nodes[0].data)] + ItemsOf(nodes[1..])
  }

  lemma {:induction false} ItemsOfInsert<T(0)>(nodes: seq<SLLNode<T>>, items: seq<Item<SLLNode<T>, T>>, p: nat,
      n: SLLNode<T>)
    requires p <= |nodes| && items == ItemsOf(nodes)
    ensures ItemsOf(InsertAt(nodes, p, n)) == InsertAt(items, p, Item(n, n.data))
  {
    hide ItemsOf;
  }

  class SLL<T(0)> {
    const dummyNode: SLLNode<T>
    var pLast: SLLNode<T>
    ghost var nodes: seq<SLLNode<T>>

    /** Every link is the one that the sequence of nodes asks for, and so is the last pointer. */
    ghost predicate Valid()
      reads this, dummyNode, nodes
    {
      && Ring(dummyNode, nodes)
      && dummyNode.pNext == Succ(dummyNode, nodes, dummyNode)
      && pLast == At(dummyNode, nodes, |nodes| - 1)
      && (forall n {:trigger n.pNext} | n in nodes :: n.pNext == Succ(dummyNode, nodes, n))
    }

    /** The objects whose links belong to this list. */
    ghost function Linked(): (r: set<SLLNode<T>>)
      reads this
      ensures dummyNode in r && forall n | n in nodes :: n in r
    {
      Members(dummyNode, nodes)
    }

    ghost function Items(): (r: seq<Item<SLLNode<T>, T>>)
      reads this, (set n | n in nodes)`data
      ensures |r| == |nodes| && forall i | 0 <= i < |nodes| :: r[i] == Item(nodes[i], nodes[i].data)
    {
      ItemsOf(nodes)
    }

    lemma ItemsAre()
      ensures Items() == ItemsOf(nodes)
    {
    }

    lemma LinkedAre()
      ensures Linked() == Members(dummyNode, nodes)
    {
    }

    lemma Consists()
      requires Valid()
      ensures dummyNode !in nodes && Items() == ItemsOf(nodes)
      ensures forall n | n in Linked() :: n == dummyNode || n in nodes
      ensures nodes == [] ==> ItemsOf(nodes) == []
    {
    }

    lemma ValidRing()
      requires Valid()
      ensures Ring(dummyNode, nodes)
    {
    }

    constructor (filler: T)
      ensures Valid() && nodes == [] && fresh(dummyNode)
    {
      var d := new SLLNode<T>(filler);
      dummyNode := d;
      pLast := d;
      nodes := [];
    }

    method IsEmpty() returns (r: bool)
      requires Valid()
      ensures r == (nodes == [])
    {
      r := dummyNode.pNext == dummyNode;
    }

    method GetFront() returns (r: SLLNode?<T>)
      requires Valid()
      ensures r == if nodes == [] then null else nodes[0]
    {
      if dummyNode.pNext != dummyNode {
        r := dummyNode.pNext;
      } else {
        r := null;
      }
    }

    method GetBack() returns (r: SLLNode?<T>)
      requires Valid()
      ensures r == if nodes == [] then null else nodes[|nodes| - 1]
    {
      if dummyNode.pNext != dummyNode {
        r := pLast;
      } else {
        r := null;
      }
    }

    method PushBack(n: SLLNode<T>)
      requires Valid() && n !in Linked() && n.Loose()
      modifies `nodes, `pLast, Linked()`pNext, n`pNext
      ensures Valid() && nodes == old(nodes) + [n] == InsertAt(old(nodes), |old(nodes)|, n)
    {
      assert InsertAt(nodes, |nodes|, n) == nodes + [n];
      assert At(dummyNode, nodes + [n], |nodes|) == n;
      hide Ring, Distinct, At, Succ, Pred, InsertAt;
      RingInsert(dummyNode, nodes, |nodes|, n);
      Neighbours(dummyNode, nodes, |nodes| - 1);
      pLast.pNext := n;
      n.pNext := dummyNode;
      pLast := n;
      nodes := InsertAt(nodes, |nodes|, n);
    }

    method PushFront(n: SLLNode<T>)
      requires Valid() && n !in Linked() && n.Loose()
      modifies `nodes, `pLast, Linked()`pNext, n`pNext
      ensures Valid() && nodes == [n] + old(nodes) == InsertAt(old(nodes), 0, n)
    {
      assert InsertAt(nodes, 0, n) == [n] + nodes;
      LastAfterInsert(dummyNode, nodes, 0, n);
      assert (pLast == dummyNode) == (nodes == []);
      hide Ring, Distinct, At, Succ, Pred, InsertAt;
      RingInsert(dummyNode, nodes, 0, n);
      Neighbours(dummyNode, nodes, 0);
      Neighbours(dummyNode, nodes, |nodes| - 1);
      n.pNext := dummyNode.pNext;
      dummyNode.pNext := n;
      if pLast == dummyNode {
        pLast := n;
      }
      nodes := InsertAt(nodes, 0, n);
    }

    /** Links a node behind a member that is not the last one, or behind the dummy of a list that is not empty. */
    method NodeInsertAfter(pNewNode: SLLNode<T>, pOldNode: SLLNode<T>, ghost k: nat)
      requires Valid() && pNewNode !in Linked() && pNewNode.Loose()
      requires k < |nodes| && pOldNode == At(dummyNode, nodes, k - 1)
      modifies `nodes, Linked()`pNext, pNewNode`pNext
      ensures Valid() && nodes == InsertAt(old(nodes), k, pNewNode)
    {
      hide Ring, Distinct, At, Succ, Pred, InsertAt;
      LastAfterInsert(dummyNode, nodes, k, pNewNode);
      RingInsert(dummyNode, nodes, k, pNewNode);
      Neighbours(dummyNode, nodes, k);
      Neighbours(dummyNode, nodes, k - 1);
      Stepped(k);
      pNewNode.pNext := pOldNode.pNext;
      pOldNode.pNext := pNewNode;
      nodes := InsertAt(nodes, k, pNewNode);
    }

    /** Where the link of the member before position `k` leads. */
    lemma Stepped(k: nat)
      requires Valid() && k <= |nodes|
      ensures At(dummyNode, nodes, k - 1) in Linked() && At(dummyNode, nodes, k - 1).pNext == At(dummyNode, nodes, k)
    {
      if k > 0 {
        Position(dummyNode, nodes, k - 1);
      }
    }

    /** A cursor is at the dummy exactly when it has passed the last member. */
    lemma Standing(k: nat)
      requires Valid() && k <= |nodes|
      ensures At(dummyNode, nodes, k) == dummyNode <==> k == |nodes|
    {
    }

    /** The walk of a sorted insert: the position before the first node above the key. */
    method SortedInsert(n: SLLNode<T>, cmp: (T, T) -> int)
      requires Valid() && n !in Linked() && n.Loose()
      modifies `nodes, `pLast, Linked()`pNext, n`pNext
      ensures Valid()
      ensures nodes == InsertAt(old(nodes), FrontPos(cmp, old(Items()), n.data), n)
      ensures Items() == Insert(cmp, old(Items()), Item(n, n.data))
    {
      hide *;
      LinkedAre();
      ghost var items, before := Items(), nodes;
      ghost var p := FrontPos(cmp, items, n.data);
      ItemsAre();
      var at, pPrev := Scan(n.data, cmp);
      if at != dummyNode {
        NodeInsertAfter(n, pPrev, p);
      } else {
        PushBack(n);
      }
      ItemsAre();
      ItemsOfInsert(before, items, p, n);
      InsertIs(cmp, items, Item(n, n.data));
    }

    /** The node to insert before and the member before it, or the dummy and the last member. */
    method Scan(key: T, cmp: (T, T) -> int) returns (at: SLLNode<T>, pPrev: SLLNode<T>)
      requires Valid()
      ensures var p := FrontPos(cmp, Items(), key);
              && at == At(dummyNode, nodes, p) && pPrev == At(dummyNode, nodes, p - 1)
              && (at == dummyNode <==> p == |nodes|)
    {
      hide Valid, Ring, Distinct, Succ, Pred, FrontPos, ItemsOf;
      ghost var k := 0;
      Stepped(0);
      at, pPrev := dummyNode.pNext, dummyNode;
      while at != dummyNode
        invariant 0 <= k <= |nodes| && at == At(dummyNode, nodes, k) && pPrev == At(dummyNode, nodes, k - 1)
        invariant forall i | 0 <= i < k :: cmp(key, Items()[i].key) >= 0
        decreases |nodes| - k
      {
        var nodeMinusNext := cmp(key, at.data);
        if nodeMinusNext < 0 {
          assert Items()[k].key == at.data;
          Standing(k);
          FrontPosIs(cmp, Items(), key, k);
          return;
        }
        Standing(k);
        Stepped(k + 1);
        pPrev := at;
        at := at.pNext;
        k := k + 1;
      }
      Standing(k);
      FrontPosIs(cmp, Items(), key, |nodes|);
    }

    /** Unlists a node if it stands behind `pNodeBefore`. */
    method NodeUnlistQuick(pNodeBefore: SLLNode<T>, pNodeToUnlist: SLLNode<T>, ghost k: nat) returns (rval: bool)
      requires Valid() && k <= |nodes| && pNodeBefore == At(dummyNode, nodes, k - 1) && pNodeToUnlist != dummyNode
      modifies `nodes, `pLast, Linked()`pNext
      ensures Valid() && rval == (k < |old(nodes)| && pNodeToUnlist == old(nodes)[k])
      ensures nodes == if rval then RemoveAt(old(nodes), k) else old(nodes)
      ensures rval ==> pNodeToUnlist.pNext == pNodeToUnlist && pNodeToUnlist !in Linked()
    {
      rval := false;
      Stepped(k);
      if pNodeToUnlist.pNext != null {
        if pNodeBefore.pNext == pNodeToUnlist {
          Unlink(pNodeBefore, pNodeToUnlist, k);
          rval := true;
        }
      } else {
        Listed(pNodeToUnlist);
      }
    }

    lemma Listed(n: SLLNode<T>)
      requires Valid()
      ensures n in nodes ==> n.pNext != null
    {
    }

    method Unlink(pNodeBefore: SLLNode<T>, pNodeToUnlist: SLLNode<T>, ghost k: nat)
      requires Valid() && k < |nodes| && pNodeBefore == At(dummyNode, nodes, k - 1) && pNodeToUnlist == nodes[k]
      modifies `nodes, `pLast, Linked()`pNext
      ensures Valid() && nodes == RemoveAt(old(nodes), k)
      ensures pNodeToUnlist.pNext == pNodeToUnlist && pNodeToUnlist !in Linked()
    {
      Stepped(k);
      Stepped(k + 1);
      LastAfterRemove(dummyNode, nodes, k);
      hide Ring, Distinct, At, Succ, Pred, RemoveAt;
      RingRemove(dummyNode, nodes, k);
      Position(dummyNode, nodes, k);
      Neighbours(dummyNode, nodes, k - 1);
      Neighbours(dummyNode, nodes, k);
      pNodeBefore.pNext := pNodeToUnlist.pNext;
      if pLast == pNodeToUnlist {
        pLast := pNodeBefore;
      }
      pNodeToUnlist.pNext := pNodeToUnlist;
      nodes := RemoveAt(nodes, k);
    }

    /** Searches the predecessor; a node of no list or of another one is left alone. */
    method NodeUnlist(n: SLLNode<T>) returns (rval: bool)
      requires Valid() && n != dummyNode
      modifies `nodes, `pLast, Linked()`pNext
      ensures Valid() && rval == (n in old(nodes))
      ensures nodes == if rval then RemoveAt(old(nodes), IndexOf(old(nodes), n)) else old(nodes)
      ensures rval ==> n.pNext == n && n !in Linked()
    {
      rval := false;
      Listed(n);
      ValidRing();
      if n.pNext != null {
        var pNodeBefore := dummyNode;
        ghost var k := 0;
        Stepped(0);
        while pNodeBefore.pNext != n
          invariant 0 <= k <= |nodes| && pNodeBefore == At(dummyNode, nodes, k - 1) && n !in nodes[..k]
          invariant pNodeBefore.pNext == At(dummyNode, nodes, k)
          modifies {}
          decreases |nodes| - k
        {
          pNodeBefore := pNodeBefore.pNext;
          if pNodeBefore == dummyNode {
            break;
          }
          k := k + 1;
          Stepped(k);
        }
        if pNodeBefore == dummyNode {
          k := 0;
        }
        Found(n, k);
        rval := NodeUnlistQuick(pNodeBefore, n, k);
      }
    }

    lemma Found(n: SLLNode<T>, k: nat)
      requires Valid() && k <= |nodes|
      ensures k < |nodes| && nodes[k] == n ==> n in nodes && IndexOf(nodes, n) == k
    {
      if k < |nodes| {
        Position(dummyNode, nodes, k);
      }
    }

    method PopFront() returns (r: SLLNode?<T>)
      requires Valid()
      modifies `nodes, `pLast, Linked()`pNext
      ensures Valid()
      ensures if old(nodes) == [] then r == null && nodes == []
              else r == old(nodes)[0] && nodes == old(nodes)[1..] && r.pNext == r && r !in Linked()
    {
      r := GetFront();
      if r != null {
        TakeFront(r);
      }
    }

    method TakeFront(r: SLLNode<T>)
      requires Valid() && nodes != [] && r == nodes[0]
      modifies `nodes, `pLast, Linked()`pNext
      ensures Valid() && nodes == old(nodes)[1..] && r.pNext == r && r !in Linked()
    {
      hide Ring, Distinct, At, Succ, Pred, RemoveAt, IndexOf, Members;
      LinkedAre();
      RemoveFirst(nodes);
      LastAfterRemove(dummyNode, nodes, 0);
      RingRemove(dummyNode, nodes, 0);
      Position(dummyNode, nodes, 0);
      Neighbours(dummyNode, nodes, 0);
      Neighbours(dummyNode, nodes, -1);
      if r == pLast {
        pLast := dummyNode;
      }
      dummyNode.pNext := r.pNext;
      r.pNext := r;
      nodes := RemoveAt(nodes, 0);
      Excluded(r);
    }

    lemma Excluded(n: SLLNode<T>)
      requires n !in nodes && n != dummyNode
      ensures n !in Linked()
    {
    }

    method PopBack() returns (r: SLLNode?<T>)
      requires Valid()
      modifies `nodes, `pLast, Linked()`pNext
      ensures Valid()
      ensures if old(nodes) == [] then r == null && nodes == []
              else r == old(nodes)[|old(nodes)| - 1] && nodes == old(nodes)[..|old(nodes)| - 1]
                   && r.pNext == r && r !in Linked()
    {
      r := GetBack();
      if r != null {
        Found(r, |nodes| - 1);
        var unlisted := NodeUnlist(r);
        assert unlisted;
      }
    }

    /** Walks the list until it meets the node or the dummy. */
    method IsListed(n: SLLNode<T>) returns (r: bool)
      requires Valid() && n != dummyNode
      ensures r == (n in nodes)
    {
      Stepped(0);
      var pIter := dummyNode.pNext;
      ghost var k := 0;
      while pIter != dummyNode && pIter != n
        invariant 0 <= k <= |nodes| && n !in nodes[..k] && pIter == At(dummyNode, nodes, k)
        decreases |nodes| - k
      {
        Stepped(k + 1);
        pIter := pIter.pNext;
        k := k + 1;
      }
      r := pIter == n;
    }

    /** Moves all of `other` behind this list. */
    method AppendListToBack(other: SLL<T>)
      requires Valid() && other.Valid() && Linked() !! other.Linked()
      modifies `nodes, `pLast, other`nodes, other`pLast, Linked()`pNext, other.Linked()`pNext
      ensures Valid() && other.Valid()
      ensures nodes == old(nodes) + old(other.nodes) && other.nodes == []
    {
      var pList2First := other.GetFront();
      var pList2Last := other.GetBack();
      if pList2First != null && pList2Last != null {
        Splice(other, pList2First, pList2Last);
      }
      other.pLast := other.dummyNode;
      other.dummyNode.pNext := other.dummyNode;
      other.nodes := [];
    }

    lemma Apart(other: SLL<T>)
      requires Valid() && other.Valid() && Linked() !! other.Linked() && other.nodes != []
      ensures Ring(dummyNode, nodes) && Ring(other.dummyNode, other.nodes)
      ensures dummyNode != other.dummyNode && dummyNode !in other.nodes && dummyNode !in nodes
      ensures forall i | 0 <= i < |nodes| :: nodes[i] !in other.nodes
      ensures forall n | n in other.nodes :: n !in nodes && n !in Linked()
      ensures other.nodes[0] in other.nodes && other.nodes[|other.nodes| - 1] in other.nodes
    {
      assert forall i | 0 <= i < |nodes| :: nodes[i] in Linked();
      assert forall n | n in other.nodes :: n in other.Linked();
    }

    lemma LinksAre()
      requires Valid()
      ensures forall n {:trigger n.pNext} | n in nodes :: n.pNext == Succ(dummyNode, nodes, n)
      ensures dummyNode.pNext == Succ(dummyNode, nodes, dummyNode) && pLast == At(dummyNode, nodes, |nodes| - 1)
      ensures pLast == dummyNode || pLast in nodes
    {
    }

    /** The pointer stores of an append: the other dummy still points into the nodes it has lost. */
    method Splice(other: SLL<T>, pList2First: SLLNode<T>, pList2Last: SLLNode<T>)
      requires Valid() && other.Valid() && Linked() !! other.Linked() && other.nodes != []
      requires pList2First == other.nodes[0] && pList2Last == other.nodes[|other.nodes| - 1]
      modifies `nodes, `pLast, Linked()`pNext, pList2Last`pNext
      ensures Valid() && nodes == old(nodes) + other.nodes
    {
      hide *;
      Apart(other);
      LinksAre();
      other.LinksAre();
      ghost var s, t := nodes, other.nodes;
      pLast.pNext := pList2First;
      pList2Last.pNext := dummyNode;
      pLast := pList2Last;
      nodes := s + t;
      Spliced(s, other.dummyNode, t);
    }

    /** The links that an append leaves are those of the joined ring. */
    lemma Spliced(s: seq<SLLNode<T>>, e: SLLNode<T>, t: seq<SLLNode<T>>)
      requires Ring(dummyNode, s) && Ring(e, t) && t != [] && dummyNode !in t && dummyNode != e && nodes == s + t
      requires forall i | 0 <= i < |s| :: s[i] !in t
      requires forall n | n in s :: n.pNext == (if n == At(dummyNode, s, |s| - 1) then t[0] else Succ(dummyNode, s, n))
      requires forall n | n in t :: n.pNext == if n == t[|t| - 1] then dummyNode else Succ(e, t, n)
      requires dummyNode.pNext ==
               (if dummyNode == At(dummyNode, s, |s| - 1) then t[0] else Succ(dummyNode, s, dummyNode))
      requires pLast == t[|t| - 1]
      ensures Valid()
    {
      assert dummyNode !in s;
      assert At(dummyNode, nodes, |nodes| - 1) == t[|t| - 1];
      hide Ring, Distinct, At, Succ, Pred;
      Neighbours(dummyNode, s, |s| - 1);
      RingAppend(dummyNode, s, e, t);
      forall n | n in nodes
        ensures n.pNext == Succ(dummyNode, nodes, n)
      {
        assert n in s || n in t;
        assert n in s ==> n !in t;
      }
      assert t[|t| - 1] in t;
    }

    /** One turn of the sort: the first node of `tmp` is inserted here. */
    method SortStep(tmp: SLL<T>, cmp: (T, T) -> int) returns (pNode: SLLNode?<T>)
      requires Valid() && tmp.Valid() && Linked() !! tmp.Linked()
      modifies `nodes, `pLast, tmp`nodes, tmp`pLast, Linked()`pNext, tmp.Linked()`pNext
      ensures Valid() && tmp.Valid() && Linked() !! tmp.Linked()
      ensures Linked() <= old(Linked()) + old(tmp.Linked()) && tmp.Linked() <= old(tmp.Linked())
      ensures (pNode == null) == (old(tmp.nodes) == [])
      ensures pNode == null ==> Items() == old(Items()) && tmp.nodes == []
      ensures pNode != null ==>
        |tmp.nodes| == |old(tmp.nodes)| - 1 && tmp.Items() == old(tmp.Items())[1..]
        && Items() == Insert(cmp, old(Items()), old(tmp.Items())[0])
    {
      hide *;
      tmp.ValidRing();
      LinkedAre();
      tmp.LinkedAre();
      ghost var t := tmp.nodes;
      assert t != [] ==> t[0] in tmp.Linked();
      pNode := tmp.PopFront();
      tmp.LinkedAre();
      if pNode != null {
        MoveFirstMember(dummyNode, nodes, tmp.dummyNode, t, FrontPos(cmp, Items(), pNode.data));
        Popped(pNode);
        SortedInsert(pNode, cmp);
        LinkedAre();
      }
    }

    lemma Popped(n: SLLNode<T>)
      requires n.pNext == n
      ensures n.Loose()
    {
    }

    /** Inserts the nodes of `tmp` here, first one first. */
    method Drain(tmp: SLL<T>, cmp: (T, T) -> int)
      requires Valid() && tmp.Valid() && Linked() !! tmp.Linked()
      modifies `nodes, `pLast, tmp`nodes, tmp`pLast, Linked()`pNext, tmp.Linked()`pNext
      ensures Valid() && Items() == InsertAllFromFront(cmp, old(Items()), old(tmp.Items()))
    {
      hide Valid, Insert, Members, InsertAllFromFront, ItemsOf;
      ghost var mine, theirs := Linked(), tmp.Linked();
      ghost var goal := InsertAllFromFront(cmp, Items(), tmp.Items());
      var more := true;
      while more
        invariant Valid() && tmp.Valid() && Linked() !! tmp.Linked()
        invariant Linked() <= mine + theirs && tmp.Linked() <= theirs
        invariant InsertAllFromFront(cmp, Items(), tmp.Items()) == goal
        invariant more || tmp.nodes == []
        decreases |tmp.nodes|, more
      {
        InsertAllFromFrontStep(cmp, Items(), tmp.Items());
        var pNode := SortStep(tmp, cmp);
        more := pNode != null;
      }
      InsertAllFromFrontStep(cmp, Items(), tmp.Items());
    }

    /** Everything moves to a new list. */
    method MoveAll() returns (tmpList: SLL<T>)
      requires Valid()
      modifies `nodes, `pLast, Linked()`pNext
      ensures Valid() && tmpList.Valid() && Linked() !! tmpList.Linked()
      ensures Items() == [] && tmpList.Items() == old(Items())
      ensures fresh(tmpList) && Linked() <= old(Linked()) && fresh(tmpList.Linked() - old(Linked()))
    {
      hide *;
      ghost var all := nodes;
      Consists();
      tmpList := new SLL<T>(dummyNode.data);
      tmpList.Consists();
      assert Linked() !! tmpList.Linked();
      tmpList.AppendListToBack(this);
      Consists();
      tmpList.Consists();
      assert tmpList.nodes == all;
    }

    /** Insertion sort through a temporary list, which is emptied from its front: a stable sort. */
    method SortList(cmp: (T, T) -> int)
      requires Valid()
      modifies `nodes, `pLast, Linked()`pNext
      ensures Valid() && Items() == SortFromFront(cmp, old(Items()))
    {
      hide *;
      ghost var items := Items();
      var tmpList := MoveAll();
      Drain(tmpList, cmp);
      InsertAllIsSort(cmp, items);
    }
  }

  lemma InsertIs<I, K>(cmp: (K, K) -> int, s: seq<Item<I, K>>, x: Item<I, K>)
    ensures Insert(cmp, s, x) == InsertAt(s, FrontPos(cmp, s, x.key), x)
  {
  }

  lemma RemoveFirst<T>(s: seq<T>)
    requires s != []
    ensures RemoveAt(s, 0) == s[1..] && |RemoveAt(s, 0)| == |s| - 1
  {
  }

  lemma LastAfterInsert<N>(d: N, s: seq<N>, k: nat, x: N)
    requires k <= |s|
    ensures |InsertAt(s, k, x)| == |s| + 1
    ensures At(d, InsertAt(s, k, x), |s|) == if k < |s| then At(d, s, |s| - 1) else x
  {
  }

  lemma LastAfterRemove<N>(d: N, s: seq<N>, k: nat)
    requires Ring(d, s) && k < |s|
    ensures |RemoveAt(s, k)| == |s| - 1
    ensures At(d, s, |s| - 1) == s[k] <==> k == |s| - 1
    ensures At(d, RemoveAt(s, k), |s| - 2) == At(d, s, if k == |s| - 1 then k - 1 else |s| - 1)
    ensures |s| == 1 ==> At(d, RemoveAt(s, k), -1) == d
  {
  }
}
