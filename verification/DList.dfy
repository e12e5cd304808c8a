/**
 Intrusive circular doubly linked lists. A list is a dummy node; an empty list's dummy points at
 itself, and a node that is in no list has null links. `data` stands for the structure a node is
 embedded in.
 */
module DLists {
  import opened Common
  import opened Ordering
  import opened Rings

  class DLLNode<T(0)> {
    var pNext: DLLNode?<T>
    var pPrev: DLLNode?<T>
    var data: T

    /** A node outside every list. */
    constructor (data: T)
      ensures pNext == null && pPrev == null && this.data == data
    {
      pNext, pPrev, this.data := null, null, data;
    }

    /** In no list: without links, or pointing at itself. */
    ghost predicate Loose()
      reads this
    {
      (pNext == null && pPrev == null) || (pNext == this && pPrev == this)
    }

    /** Unlisting a node that is in no list. */
    method Loosen()
      requires Loose()
      modifies `pNext, `pPrev
      ensures pNext == null && pPrev == null
    {
      if pNext != null {
        pPrev.pNext := pNext;
        pNext.pPrev := pPrev;
        pNext, pPrev := null, null;
      }
    }
  }

  /** The nodes of `nodes` paired with their data, which is what a comparator can see of them. */
  ghost function ItemsOf<T(0)>(nodes: seq<DLLNode<T>>): (r: seq<Item<DLLNode<T>, T>>)
    reads (set n | n in nodes)`data
    ensures |r| == |nodes|
    ensures forall i | 0 <= i < |nodes| :: r[i] == Item(nodes[i], nodes[i].data)
  {
    if nodes == [] then [] else [Item(nodes[0], nodes[0].data)] + ItemsOf(nodes[1..])
  }

  lemma {:induction false} ItemsOfInsert<T(0)>(nodes: seq<DLLNode<T>>, items: seq<Item<DLLNode<T>, T>>, p: nat,
      n: DLLNode<T>)
    requires p <= |nodes| && items == ItemsOf(nodes)
    ensures ItemsOf(InsertAt(nodes, p, n)) == InsertAt(items, p, Item(n, n.data))
  {
    hide ItemsOf;
  }

  class DLL<T(0)> {
    const dummyNode: DLLNode<T>
    ghost var nodes: seq<DLLNode<T>>

    /** Every link of the ring is the one that the sequence of nodes asks for. */
    ghost predicate Valid()
      reads this, dummyNode, nodes
    {
      && Ring(dummyNode, nodes)
      && dummyNode.pNext == Succ(dummyNode, nodes, dummyNode)
      && dummyNode.pPrev == Pred(dummyNode, nodes, dummyNode)
      && (forall n {:trigger n.pNext} | n in nodes :: n.pNext == Succ(dummyNode, nodes, n))
      && (forall n {:trigger n.pPrev} | n in nodes :: n.pPrev == Pred(dummyNode, nodes, n))
    }

    lemma ItemsAre()
      ensures Items() == ItemsOf(nodes)
    {
    }

    lemma WhenEmpty()
      requires nodes == []
      ensures Linked() == {dummyNode} && Items() == []
    {
    }

    lemma LinkedAre()
      ensures Linked() == Members(dummyNode, nodes)
    {
    }

    lemma Front()
      requires Valid()
      ensures dummyNode.pNext == At(dummyNode, nodes, 0)
    {
    }

    /** Where a cursor at position `k` stands and goes. */
    lemma Cursor(k: nat)
      requires Valid() && k <= |nodes| && At(dummyNode, nodes, k) != dummyNode
      ensures k < |nodes| && nodes[k] == At(dummyNode, nodes, k) && nodes[k] in Linked()
      ensures nodes[k].pNext == At(dummyNode, nodes, k + 1)
    {
      Position(dummyNode, nodes, k);
    }

    lemma End(k: nat)
      requires Valid() && k <= |nodes| && At(dummyNode, nodes, k) == dummyNode
      ensures k == |nodes|
    {
    }

    lemma Consists()
      requires Valid()
      ensures dummyNode !in nodes && Items() == ItemsOf(nodes)
      ensures forall n | n in Linked() :: n == dummyNode || n in nodes
      ensures nodes == [] ==> ItemsOf(nodes) == []
    {
    }

    lemma ValidRing()
      requires Valid()
      ensures Ring(dummyNode, nodes)
    {
    }

    /** The objects whose links belong to this list. */
    ghost function Linked(): (r: set<DLLNode<T>>)
      reads this
      ensures dummyNode in r && forall n | n in nodes :: n in r
    {
      Members(dummyNode, nodes)
    }

    ghost function Items(): (r: seq<Item<DLLNode<T>, T>>)
      reads this, (set n | n in nodes)`data
      ensures |r| == |nodes| && forall i | 0 <= i < |nodes| :: r[i] == Item(nodes[i], nodes[i].data)
    {
      ItemsOf(nodes)
    }

    constructor (filler: T)
      ensures Valid() && nodes == [] && fresh(dummyNode)
    {
      var d := new DLLNode<T>(filler);
      dummyNode := d;
      nodes := [];
      new;
      d.pNext, d.pPrev := d, d;
    }

    method IsEmpty() returns (r: bool)
      requires Valid()
      ensures r == (nodes == [])
    {
      r := dummyNode.pNext == dummyNode;
    }

    method GetFront() returns (r: DLLNode?<T>)
      requires Valid()
      ensures r == if nodes == [] then null else nodes[0]
    {
      if dummyNode.pNext != dummyNode {
        r := dummyNode.pNext;
      } else {
        r := null;
      }
    }

    method GetBack() returns (r: DLLNode?<T>)
      requires Valid()
      ensures r == if nodes == [] then null else nodes[|nodes| - 1]
    {
      if dummyNode.pNext != dummyNode {
        r := dummyNode.pPrev;
      } else {
        r := null;
      }
    }

    method PushBack(n: DLLNode<T>)
      requires Valid() && n !in Linked() && n.pNext == null && n.pPrev == null
      modifies `nodes, Linked()`pNext, Linked()`pPrev, n`pNext, n`pPrev
      ensures Valid() && nodes == old(nodes) + [n] == InsertAt(old(nodes), |old(nodes)|, n)
    {
      hide Ring, Distinct, At, Succ, Pred, InsertAt;
      InsertAtEnds(nodes, n);
      RingInsert(dummyNode, nodes, |nodes|, n);
      Neighbours(dummyNode, nodes, |nodes| - 1);
      dummyNode.pPrev.pNext := n;
      n.pPrev := dummyNode.pPrev;
      n.pNext := dummyNode;
      dummyNode.pPrev := n;
      nodes := InsertAt(nodes, |nodes|, n);
    }

    method PushFront(n: DLLNode<T>)
      requires Valid() && n !in Linked() && n.Loose()
      modifies `nodes, Linked()`pNext, Linked()`pPrev, n`pNext, n`pPrev
      ensures Valid() && nodes == [n] + old(nodes) == InsertAt(old(nodes), 0, n)
    {
      hide Ring, Distinct, At, Succ, Pred, InsertAt;
      InsertAtEnds(nodes, n);
      RingInsert(dummyNode, nodes, 0, n);
      Neighbours(dummyNode, nodes, 0);
      dummyNode.pNext.pPrev := n;
      n.pPrev := dummyNode;
      n.pNext := dummyNode.pNext;
      dummyNode.pNext := n;
      nodes := InsertAt(nodes, 0, n);
    }

    method LinkBefore(n: DLLNode<T>, at: DLLNode<T>, ghost k: nat)
      requires Valid() && n !in Linked() && n.pNext == null && n.pPrev == null
      requires k < |nodes| && at == nodes[k]
      modifies `nodes, Linked()`pNext, Linked()`pPrev, n`pNext, n`pPrev
      ensures Valid() && nodes == InsertAt(old(nodes), k, n)
    {
      hide Ring, Distinct, At, Succ, Pred, InsertAt;
      RingInsert(dummyNode, nodes, k, n);
      Position(dummyNode, nodes, k);
      Neighbours(dummyNode, nodes, k);
      Neighbours(dummyNode, nodes, k - 1);
      at.pPrev.pNext := n;
      n.pPrev := at.pPrev;
      n.pNext := at;
      at.pPrev := n;
      nodes := InsertAt(nodes, k, n);
    }

    method NodeInsertBefore(n: DLLNode<T>, at: DLLNode<T>, ghost k: nat)
      requires Valid() && n !in Linked() && n.Loose()
      requires k < |nodes| && at == nodes[k]
      modifies `nodes, Linked()`pNext, Linked()`pPrev, n`pNext, n`pPrev
      ensures Valid() && nodes == InsertAt(old(nodes), k, n)
    {
      hide *;
      n.Loosen();
      LinkBefore(n, at, k);
    }

    method LinkAfter(n: DLLNode<T>, at: DLLNode<T>, ghost k: nat)
      requires Valid() && n !in Linked() && n.pNext == null && n.pPrev == null
      requires 0 < k <= |nodes| && at == nodes[k - 1]
      modifies `nodes, Linked()`pNext, Linked()`pPrev, n`pNext, n`pPrev
      ensures Valid() && nodes == InsertAt(old(nodes), k, n)
    {
      hide Ring, Distinct, At, Succ, Pred, InsertAt;
      RingInsert(dummyNode, nodes, k, n);
      Position(dummyNode, nodes, k - 1);
      Neighbours(dummyNode, nodes, k);
      Neighbours(dummyNode, nodes, k - 1);
      at.pNext.pPrev := n;
      n.pPrev := at;
      n.pNext := at.pNext;
      at.pNext := n;
      nodes := InsertAt(nodes, k, n);
    }

    method NodeInsertAfter(n: DLLNode<T>, at: DLLNode<T>, ghost k: nat)
      requires Valid() && n !in Linked() && n.Loose()
      requires 0 < k <= |nodes| && at == nodes[k - 1]
      modifies `nodes, Linked()`pNext, Linked()`pPrev, n`pNext, n`pPrev
      ensures Valid() && nodes == InsertAt(old(nodes), k, n)
    {
      hide *;
      n.Loosen();
      LinkAfter(n, at, k);
    }

    /** Where the links of the member at position `k` lead. */
    lemma Stepped(k: nat)
      requires Valid() && k < |nodes|
      ensures nodes[k] != dummyNode && nodes[k].pNext == At(dummyNode, nodes, k + 1)
              && nodes[k].pPrev == At(dummyNode, nodes, k - 1)
    {
      Position(dummyNode, nodes, k);
    }

    lemma Ends()
      requires Valid()
      ensures dummyNode.pNext == At(dummyNode, nodes, 0) && dummyNode.pPrev == At(dummyNode, nodes, |nodes| - 1)
    {
    }

    /** The walk of a sorted insert from the front: the node to insert before, or the dummy. */
    method ScanFromFront(key: T, cmp: (T, T) -> int) returns (at: DLLNode<T>)
      requires Valid()
      ensures var p := FrontPos(cmp, Items(), key);
              if p < |nodes| then at == nodes[p] && at != dummyNode else at == dummyNode
    {
      hide Valid, Ring, Distinct, Succ, Pred, FrontPos, ItemsOf;
      Ends();
      ghost var k := 0;
      at := dummyNode.pNext;
      while at != dummyNode
        invariant 0 <= k <= |nodes| && at == At(dummyNode, nodes, k)
        invariant forall i | 0 <= i < k :: cmp(key, Items()[i].key) >= 0
        decreases |nodes| - k
      {
        Stepped(k);
        var nodeMinusNext := cmp(key, at.data);
        if nodeMinusNext < 0 {
          assert Items()[k].key == at.data;
          FrontPosIs(cmp, Items(), key, k);
          return;
        }
        at := at.pNext;
        k := k + 1;
      }
      if k < |nodes| {
        Stepped(k);
      }
      FrontPosIs(cmp, Items(), key, |nodes|);
    }

    /** The walk of a sorted insert from the back: the node to insert after, or the dummy. */
    method ScanFromBack(key: T, cmp: (T, T) -> int) returns (at: DLLNode<T>)
      requires Valid()
      ensures var p := BackPos(cmp, Items(), key);
              if p > 0 then at == nodes[p - 1] && at != dummyNode else at == dummyNode
    {
      hide Valid, Ring, Distinct, Succ, Pred, BackPos, ItemsOf;
      Ends();
      ghost var k := |nodes|;
      at := dummyNode.pPrev;
      while at != dummyNode
        invariant 0 <= k <= |nodes| && at == At(dummyNode, nodes, k - 1)
        invariant forall i | k <= i < |nodes| :: cmp(Items()[i].key, key) > 0
        decreases k
      {
        Stepped(k - 1);
        var prevMinusNode := cmp(at.data, key);
        if prevMinusNode <= 0 {
          assert Items()[k - 1].key == at.data;
          BackPosIs(cmp, Items(), key, k);
          return;
        }
        at := at.pPrev;
        k := k - 1;
      }
      if k > 0 {
        Stepped(k - 1);
      }
      BackPosIs(cmp, Items(), key, 0);
    }

    method SortedInsert(n: DLLNode<T>, cmp: (T, T) -> int)
      requires Valid() && n !in Linked() && n.pNext == null && n.pPrev == null
      modifies `nodes, Linked()`pNext, Linked()`pPrev, n`pNext, n`pPrev
      ensures Valid()
      ensures nodes == InsertAt(old(nodes), FrontPos(cmp, old(Items()), n.data), n)
      ensures Items() == Insert(cmp, old(Items()), Item(n, n.data))
    {
      hide Valid, ItemsOf, InsertAt, FrontPos, BackPos;
      ghost var items, before := Items(), nodes;
      ghost var p := FrontPos(cmp, items, n.data);
      var at := ScanFromFront(n.data, cmp);
      if at != dummyNode {
        NodeInsertBefore(n, at, p);
      } else {
        PushBack(n);
      }
      ItemsOfInsert(before, items, p, n);
    }

    method SortedInsertFromBack(n: DLLNode<T>, cmp: (T, T) -> int)
      requires Valid() && n !in Linked() && n.Loose()
      modifies `nodes, Linked()`pNext, Linked()`pPrev, n`pNext, n`pPrev
      ensures Valid()
      ensures nodes == InsertAt(old(nodes), BackPos(cmp, old(Items()), n.data), n)
      ensures Items() == InsertFromBack(cmp, old(Items()), Item(n, n.data))
    {
      hide Valid, ItemsOf, InsertAt, FrontPos, BackPos;
      ghost var items, before := Items(), nodes;
      ghost var p := BackPos(cmp, items, n.data);
      var at := ScanFromBack(n.data, cmp);
      if at != dummyNode {
        NodeInsertAfter(n, at, p);
      } else {
        PushFront(n);
      }
      ItemsOfInsert(before, items, p, n);
    }

    method PopFront() returns (r: DLLNode?<T>)
      requires Valid()
      modifies `nodes, Linked()`pNext, Linked()`pPrev
      ensures Valid()
      ensures if old(nodes) == [] then r == null && nodes == []
              else
                && r == old(nodes)[0] && nodes == old(nodes)[1..]
                && r.pNext == null && r.pPrev == null && r !in Linked()
    {
      r := GetFront();
      if r != null {
        NodeUnlist(r, this, 0);
      }
    }

    method PopBack() returns (r: DLLNode?<T>)
      requires Valid()
      modifies `nodes, Linked()`pNext, Linked()`pPrev
      ensures Valid()
      ensures if old(nodes) == [] then r == null && nodes == []
              else r == old(nodes)[|old(nodes)| - 1] && nodes == old(nodes)[..|old(nodes)| - 1]
                   && r.pNext == null && r.pPrev == null && r !in Linked()
    {
      r := GetBack();
      if r != null {
        NodeUnlist(r, this, |nodes| - 1);
      }
    }

    /** Walks the list until it meets the node or the dummy. */
    method IsListed(n: DLLNode<T>) returns (r: bool)
      requires Valid() && n != dummyNode
      ensures r == (n in nodes)
    {
      var pIter := dummyNode.pNext;
      ghost var k := 0;
      while pIter != dummyNode && pIter != n
        invariant 0 <= k <= |nodes| && n !in nodes[..k]
        invariant pIter == if k < |nodes| then nodes[k] else dummyNode
        decreases |nodes| - k
      {
        Position(dummyNode, nodes, k);
        pIter := pIter.pNext;
        k := k + 1;
      }
      r := pIter == n;
    }

    /** Moves all of `other` behind this list. */
    method AppendListToBack(other: DLL<T>)
      requires Valid() && other.Valid() && Linked() !! other.Linked()
      modifies `nodes, other`nodes
      modifies Linked()`pNext, Linked()`pPrev, other.Linked()`pNext, other.Linked()`pPrev
      ensures Valid() && other.Valid()
      ensures nodes == old(nodes) + old(other.nodes) && other.nodes == []
    {
      var pList2First := other.GetFront();
      var pList2Last := other.GetBack();
      if pList2First != null && pList2Last != null {
        Splice(other, pList2First, pList2Last);
      }
      other.dummyNode.pPrev, other.dummyNode.pNext := other.dummyNode, other.dummyNode;
      other.nodes := [];
    }

    lemma Apart(other: DLL<T>)
      requires Valid() && other.Valid() && Linked() !! other.Linked() && other.nodes != []
      ensures Ring(dummyNode, nodes) && Ring(other.dummyNode, other.nodes)
      ensures dummyNode != other.dummyNode && dummyNode !in other.nodes && dummyNode !in nodes
      ensures forall i | 0 <= i < |nodes| :: nodes[i] !in other.nodes
      ensures forall n | n in other.nodes :: n !in nodes && n !in Linked()
      ensures other.nodes[0] in other.nodes && other.nodes[|other.nodes| - 1] in other.nodes
    {
      assert forall i | 0 <= i < |nodes| :: nodes[i] in Linked();
      assert forall n | n in other.nodes :: n in other.Linked();
    }

    lemma LinksAre()
      requires Valid()
      ensures forall n {:trigger n.pNext} | n in nodes :: n.pNext == Succ(dummyNode, nodes, n)
      ensures forall n {:trigger n.pPrev} | n in nodes :: n.pPrev == Pred(dummyNode, nodes, n)
      ensures dummyNode.pNext == Succ(dummyNode, nodes, dummyNode)
              && dummyNode.pPrev == At(dummyNode, nodes, |nodes| - 1)
      ensures dummyNode.pPrev == dummyNode || dummyNode.pPrev in nodes
    {
    }

    /** The pointer stores of an append: the other dummy still points into the nodes it has lost. */
    method Splice(other: DLL<T>, pList2First: DLLNode<T>, pList2Last: DLLNode<T>)
      requires Valid() && other.Valid() && Linked() !! other.Linked() && other.nodes != []
      requires pList2First == other.nodes[0] && pList2Last == other.nodes[|other.nodes| - 1]
      modifies `nodes, Linked()`pNext, Linked()`pPrev, pList2First`pPrev, pList2Last`pNext
      ensures Valid() && nodes == old(nodes) + other.nodes
    {
      hide *;
      Apart(other);
      LinksAre();
      other.LinksAre();
      ghost var s, t := nodes, other.nodes;
      var pList1Last := dummyNode.pPrev;
      pList1Last.pNext := pList2First;
      pList2First.pPrev := pList1Last;
      pList2Last.pNext := dummyNode;
      dummyNode.pPrev := pList2Last;
      nodes := s + t;
      Spliced(s, other.dummyNode, t);
    }

    /** The links that an append leaves are those of the joined ring. */
    lemma Spliced(s: seq<DLLNode<T>>, e: DLLNode<T>, t: seq<DLLNode<T>>)
      requires Ring(dummyNode, s) && Ring(e, t) && t != [] && dummyNode !in t && dummyNode != e && nodes == s + t
      requires forall i | 0 <= i < |s| :: s[i] !in t
      requires forall n | n in s :: n.pNext == (if n == At(dummyNode, s, |s| - 1) then t[0] else Succ(dummyNode, s, n))
      requires forall n | n in s :: n.pPrev == Pred(dummyNode, s, n)
      requires forall n | n in t :: n.pNext == if n == t[|t| - 1] then dummyNode else Succ(e, t, n)
      requires forall n | n in t :: n.pPrev == if n == t[0] then At(dummyNode, s, |s| - 1) else Pred(e, t, n)
      requires dummyNode.pNext ==
               (if dummyNode == At(dummyNode, s, |s| - 1) then t[0] else Succ(dummyNode, s, dummyNode))
      requires dummyNode.pPrev == t[|t| - 1]
      ensures Valid()
    {
      assert dummyNode !in s;
      hide Ring, Distinct, At, Succ, Pred;
      Neighbours(dummyNode, s, |s| - 1);
      RingAppend(dummyNode, s, e, t);
      forall n | n in nodes
        ensures n.pNext == Succ(dummyNode, nodes, n) && n.pPrev == Pred(dummyNode, nodes, n)
      {
        assert n in s || n in t;
        assert n in s ==> n !in t;
      }
      assert t[0] in t && t[0] !in s && t[|t| - 1] in t;
    }

    /** One turn of the sort: the last node of `tmp` is inserted here. */
    method SortStep(tmp: DLL<T>, cmp: (T, T) -> int) returns (pNode: DLLNode?<T>)
      requires Valid() && tmp.Valid() && Linked() !! tmp.Linked()
      modifies `nodes, tmp`nodes, Linked()`pNext, Linked()`pPrev, tmp.Linked()`pNext, tmp.Linked()`pPrev
      ensures Valid() && tmp.Valid() && Linked() !! tmp.Linked()
      ensures Linked() <= old(Linked()) + old(tmp.Linked()) && tmp.Linked() <= old(tmp.Linked())
      ensures (pNode == null) == (old(tmp.nodes) == [])
      ensures pNode == null ==> Items() == old(Items()) && tmp.nodes == []
      ensures pNode != null ==>
        var k := |old(tmp.nodes)| - 1;
        |tmp.nodes| == k && tmp.Items() == old(tmp.Items())[..k]
          && Items() == Insert(cmp, old(Items()), old(tmp.Items())[k])
    {
      hide *;
      tmp.ValidRing();
      LinkedAre();
      tmp.LinkedAre();
      ghost var t := tmp.nodes;
      assert t != [] ==> t[|t| - 1] in tmp.Linked();
      pNode := tmp.PopBack();
      tmp.LinkedAre();
      if pNode != null {
        MoveMembers(dummyNode, nodes, tmp.dummyNode, t, FrontPos(cmp, Items(), pNode.data));
        SortedInsert(pNode, cmp);
        LinkedAre();
      }
    }

    /** Inserts the nodes of `tmp` here, last one first. */
    method Drain(tmp: DLL<T>, cmp: (T, T) -> int)
      requires Valid() && tmp.Valid() && Linked() !! tmp.Linked()
      modifies `nodes, tmp`nodes, Linked()`pNext, Linked()`pPrev, tmp.Linked()`pNext, tmp.Linked()`pPrev
      ensures Valid() && Items() == InsertAllFromBack(cmp, old(Items()), old(tmp.Items()))
    {
      hide Valid, Insert, Members, InsertAllFromBack, ItemsOf;
      ghost var mine, theirs := Linked(), tmp.Linked();
      ghost var goal := InsertAllFromBack(cmp, Items(), tmp.Items());
      var more := true;
      while more
        invariant Valid() && tmp.Valid() && Linked() !! tmp.Linked()
        invariant Linked() <= mine + theirs && tmp.Linked() <= theirs
        invariant InsertAllFromBack(cmp, Items(), tmp.Items()) == goal
        invariant more || tmp.nodes == []
        decreases |tmp.nodes|, more
      {
        InsertAllFromBackStep(cmp, Items(), tmp.Items());
        var pNode := SortStep(tmp, cmp);
        more := pNode != null;
      }
      InsertAllFromBackStep(cmp, Items(), tmp.Items());
    }

    /** Everything moves to a new list. */
    method MoveAll() returns (tmpList: DLL<T>)
      requires Valid()
      modifies `nodes, Linked()`pNext, Linked()`pPrev
      ensures Valid() && tmpList.Valid() && Linked() !! tmpList.Linked()
      ensures Items() == [] && tmpList.Items() == old(Items())
      ensures fresh(tmpList) && Linked() <= old(Linked()) && fresh(tmpList.Linked() - old(Linked()))
    {
      hide *;
      ghost var all := nodes;
      Consists();
      tmpList := new DLL<T>(dummyNode.data);
      tmpList.Consists();
      assert Linked() !! tmpList.Linked();
      tmpList.AppendListToBack(this);
      Consists();
      tmpList.Consists();
      assert tmpList.nodes == all;
    }

    /** Insertion sort through a temporary list, which is emptied from its back. */
    method SortList(cmp: (T, T) -> int)
      requires Valid()
      modifies `nodes, Linked()`pNext, Linked()`pPrev
      ensures Valid() && Items() == SortFromBack(cmp, old(Items()))
    {
      hide *;
      ghost var items := Items();
      var tmpList := MoveAll();
      Drain(tmpList, cmp);
      InsertAllIsSort(cmp, items);
    }
  }

  /** Unlisting needs no list pointer; in `list`, the node is at position `k`. */
  method NodeUnlist<T(0)>(n: DLLNode<T>, ghost list: DLL<T>, ghost k: nat)
    requires list.Valid() && k < |list.nodes| && n == list.nodes[k]
    modifies list`nodes, list.Linked()`pNext, list.Linked()`pPrev
    ensures list.Valid() && list.nodes == RemoveAt(old(list.nodes), k)
    ensures n.pNext == null && n.pPrev == null && n !in list.Linked()
  {
    hide Ring, Distinct, At, Succ, Pred;
    RingRemove(list.dummyNode, list.nodes, k);
    Position(list.dummyNode, list.nodes, k);
    Neighbours(list.dummyNode, list.nodes, k + 1);
    Neighbours(list.dummyNode, list.nodes, k - 1);
    if n.pNext != null {
      n.pPrev.pNext := n.pNext;
      n.pNext.pPrev := n.pPrev;
      n.pNext, n.pPrev := null, null;
    }
    list.nodes := RemoveAt(list.nodes, k);
  }
}
