/** Intrusive circular doubly linked lists (core/include/list.h).  Lock regions are single steps. */
module DynLists {

  /** The links embedded in a list element; `id` tells which element they are embedded in. */
  class Node {
    const id: nat
    var list: DynList?
    var prev: Node?
    var next: Node?

    constructor (id: nat)
      ensures this.id == id && Free()
    {
      this.id := id;
      list, prev, next := null, null, null;
    }

    /** In no list. */
    ghost predicate Free()
      reads this
    {
      list == null && prev == null && next == null
    }
  }

  ghost predicate Distinct<T>(s: seq<T>) {
    forall i, j | 0 <= i < j < |s| :: s[i] != s[j]
  }

  function Following(i: nat, n: nat): nat
    requires i < n
  {
    if i + 1 < n then i + 1 else 0
  }

  function Preceding(i: nat, n: nat): nat
    requires i < n
  {
    if i > 0 then i - 1 else n - 1
  }

  /** The index in a sequence of what stands at index `i` after the element at `k` is taken out. */
  function Origin(i: nat, k: nat): nat {
    if i < k then i else i + 1
  }

  lemma WithoutNeighbours(i: nat, k: nat, n: nat)
    requires k < n && i < n - 1
    ensures Origin(Following(i, n - 1), k)
         == if Origin(i, k) == Preceding(k, n) then Following(k, n) else Following(Origin(i, k), n)
    ensures Origin(Preceding(i, n - 1), k)
         == if Origin(i, k) == Following(k, n) then Preceding(k, n) else Preceding(Origin(i, k), n)
  {
  }

  /** The nodes of `s` form one ring in which `next` and `prev` are inverse. */
  ghost predicate Linked(s: seq<Node>)
    reads s`next, s`prev
  {
    forall i | 0 <= i < |s| :: s[i].next == s[Following(i, |s|)] && s[i].prev == s[Preceding(i, |s|)]
  }

  function Without<T>(s: seq<T>, k: nat): (r: seq<T>)
    requires k < |s|
    ensures |r| == |s| - 1
    ensures forall i | 0 <= i < |r| :: r[i] == s[Origin(i, k)]
  {
    s[..k] + s[k + 1..]
  }

  lemma WithoutDistinct<T>(s: seq<T>, k: nat)
    requires k < |s| && Distinct(s)
    ensures Distinct(Without(s, k)) && s[k] !in Without(s, k)
  {
  }

  /** `e` stands between the last and the first element of `s`. */
  ghost predicate Bridges(s: seq<Node>, e: Node)
    reads e`next, e`prev, s`next, s`prev
  {
    && (if s == [] then e.next == e && e.prev == e else e.next == s[0] && e.prev == s[|s| - 1])
    && forall j | 0 <= j < |s| ::
         && s[j].next == (if j == |s| - 1 then e else s[Following(j, |s|)])
         && s[j].prev == (if j == 0 then e else s[Preceding(j, |s|)])
  }

  /** Such a node extends the ring at either end. */
  lemma LinkedBefore(s: seq<Node>, e: Node)
    requires Bridges(s, e)
    ensures Linked([e] + s)
  {
    var a, n := [e] + s, |s| + 1;
    forall i | 0 <= i < n ensures a[i].next == a[Following(i, n)] && a[i].prev == a[Preceding(i, n)] {
      assert i > 0 ==> a[i] == s[i - 1];
    }
  }

  lemma LinkedBehind(s: seq<Node>, e: Node)
    requires Bridges(s, e)
    ensures Linked(s + [e])
  {
    var b, n := s + [e], |s| + 1;
    forall i | 0 <= i < n ensures b[i].next == b[Following(i, n)] && b[i].prev == b[Preceding(i, n)] {
      assert i < n - 1 ==> b[i] == s[i];
    }
  }

  /** The neighbours of the element at `k` point at each other, and all others at theirs. */
  ghost predicate Gapped(s: seq<Node>, k: nat)
    requires k < |s|
    reads s`next, s`prev
  {
    var p, f := Preceding(k, |s|), Following(k, |s|);
    && (forall j | 0 <= j < |s| && j != k && j != p :: s[j].next == s[Following(j, |s|)])
    && (forall j | 0 <= j < |s| && j != k && j != f :: s[j].prev == s[Preceding(j, |s|)])
    && (|s| > 1 ==> s[p].next == s[f] && s[f].prev == s[p])
  }

  /** Then what is left is a ring. */
  lemma GappedWithout(s: seq<Node>, k: nat)
    requires k < |s| && Gapped(s, k)
    ensures Linked(Without(s, k))
  {
    var r, n := Without(s, k), |s|;
    forall i | 0 <= i < |r| ensures r[i].next == r[Following(i, |r|)] && r[i].prev == r[Preceding(i, |r|)] {
      GappedNext(s, k, i);
      GappedPrev(s, k, i);
    }
  }

  lemma GappedNext(s: seq<Node>, k: nat, i: nat)
    requires k < |s| && Gapped(s, k) && i < |s| - 1
    ensures Without(s, k)[i].next == Without(s, k)[Following(i, |s| - 1)]
  {
    var n := |s|;
    WithoutNeighbours(i, k, n);
    var j := Origin(i, k);
    assert s[j].next == s[if j == Preceding(k, n) then Following(k, n) else Following(j, n)];
  }

  lemma GappedPrev(s: seq<Node>, k: nat, i: nat)
    requires k < |s| && Gapped(s, k) && i < |s| - 1
    ensures Without(s, k)[i].prev == Without(s, k)[Preceding(i, |s| - 1)]
  {
    var n := |s|;
    WithoutNeighbours(i, k, n);
    var j := Origin(i, k);
    assert s[j].prev == s[if j == Following(k, n) then Preceding(k, n) else Preceding(j, n)];
  }

  class DynList {
    var head: Node?
    var numOfElems: int
    /** The elements from the head on. */
    ghost var elems: seq<Node>

    /** The elements are `numOfElems` distinct nodes in one ring, owned by this list. */
    ghost predicate Ring()
      reads this, elems
    {
      && numOfElems == |elems|
      && Distinct(elems)
      && (forall i | 0 <= i < |elems| :: elems[i].list == this)
      && Linked(elems)
    }

    ghost predicate Valid()
      reads this, elems
    {
      Ring() && head == if elems == [] then null else elems[0]
    }

    /** `dyn_list_init` */
    constructor ()
      ensures Valid() && elems == []
    {
      head, numOfElems, elems := null, 0, [];
    }

    /** The link updates of both insertions: `e` goes between the last element and the head. */
    method Link(e: Node)
      requires Valid() && e.Free()
      modifies e`next, e`prev, elems`next, elems`prev
      ensures Linked([e] + elems) && Linked(elems + [e])
    {
      ghost var n := |elems|;
      if head != null {
        assert head == elems[0] && head.prev == elems[n - 1];
        e.next := head;
        e.prev := head.prev;
        head.prev.next := e;
        head.prev := e;
        forall j | 0 <= j < n
          ensures elems[j].next == (if j == n - 1 then e else elems[Following(j, n)])
          ensures elems[j].prev == (if j == 0 then e else elems[Preceding(j, n)])
        {
          assert elems[j] != e && (j != 0 ==> elems[j] != elems[0]) && (j != n - 1 ==> elems[j] != elems[n - 1]);
        }
      } else {
        e.next, e.prev := e, e;
      }
      LinkedBefore(elems, e);
      LinkedBehind(elems, e);
    }

    /** `e` is in the ring: the list counts it. */
    method Enlist(e: Node, ghost more: seq<Node>)
      requires Distinct(more) && Linked(more) && |more| == numOfElems + 1
      requires forall i | 0 <= i < |more| :: more[i] == e || more[i].list == this
      modifies this`numOfElems, this`elems, e`list
      ensures Ring() && elems == more
    {
      numOfElems := numOfElems + 1;
      e.list := this;
      elems := more;
    }

    /** `dyn_list_insert_head`; an element that is already in the list stays where it is. */
    method InsertHead(e: Node)
      requires Valid() && (e.Free() || e in elems)
      modifies this, e, elems
      ensures Valid()
      ensures elems == if old(e in elems) then old(elems) else [e] + old(elems)
    {
      if e.list != null {
        return;
      }
      Link(e);
      head := e;
      Enlist(e, [e] + elems);
    }

    /** `dyn_list_insert_tail` */
    method InsertTail(e: Node)
      requires Valid() && (e.Free() || e in elems)
      modifies this, e, elems
      ensures Valid()
      ensures elems == if old(e in elems) then old(elems) else old(elems) + [e]
    {
      if e.list != null {
        return;
      }
      Link(e);
      if head == null {
        head := e;
      }
      Enlist(e, elems + [e]);
    }

    /** The neighbours of `e` become neighbours. */
    method Bypass(e: Node, ghost k: nat)
      requires Ring() && k < |elems| && elems[k] == e
      modifies elems`next, elems`prev
      ensures Gapped(elems, k)
    {
      ghost var n := |elems|;
      assert e.prev == elems[Preceding(k, n)] && e.next == elems[Following(k, n)];
      e.prev.next := e.next;
      e.next.prev := e.prev;
    }

    /** The link updates of all three removals: `e` leaves the ring without links. */
    method Unlink(e: Node, ghost k: nat)
      requires Ring() && k < |elems| && elems[k] == e
      modifies elems`next, elems`prev
      ensures Linked(Without(elems, k)) && e.prev == null && e.next == null
    {
      Bypass(e, k);
      GappedWithout(elems, k);
      WithoutDistinct(elems, k);
      e.prev, e.next := null, null;
    }

    /** What all three removals have in common; the head is the caller's affair, unless it was the last. */
    method Retire(e: Node, ghost k: nat)
      requires Ring() && k < |elems| && elems[k] == e
      modifies this, elems
      ensures Ring() && e.Free()
      ensures elems == old(Without(elems, k))
      ensures head == if elems == [] then null else old(head)
    {
      ghost var rest := Without(elems, k);
      WithoutDistinct(elems, k);
      assert forall i | 0 <= i < |rest| :: rest[i].list == this;
      Unlink(e, k);
      Disown(e, rest);
    }

    /** `e` is out of the ring: the list forgets it. */
    method Disown(e: Node, ghost rest: seq<Node>)
      requires e.prev == null && e.next == null && e !in rest && numOfElems == |rest| + 1
      requires Distinct(rest) && Linked(rest) && forall i | 0 <= i < |rest| :: rest[i].list == this
      modifies this, e`list
      ensures Ring() && e.Free() && elems == rest
      ensures head == if elems == [] then null else old(head)
    {
      e.list := null;
      numOfElems := numOfElems - 1;
      if numOfElems == 0 {
        head := null;
      }
      elems := rest;
    }

    /** `dyn_list_remove_head` */
    method RemoveHead() returns (e: Node?)
      requires Valid()
      modifies this, elems
      ensures Valid()
      ensures old(elems) == [] ==> e == null && elems == []
      ensures old(elems) != [] ==> e == old(elems[0]) && elems == old(elems[1..]) && e.Free()
    {
      e := head;
      if e != null {
        head := e.next;
        Retire(e, 0);
      }
    }

    /** `dyn_list_remove_tail` */
    method RemoveTail() returns (e: Node?)
      requires Valid()
      modifies this, elems
      ensures Valid()
      ensures old(elems) == [] ==> e == null && elems == []
      ensures old(elems) != [] ==> e == old(elems[|elems| - 1]) && elems == old(elems[..|elems| - 1]) && e.Free()
    {
      e := null;
      if head != null {
        e := head.prev;
        Retire(e, |elems| - 1);
      }
    }

    /** `dyn_list_remove_element` */
    method RemoveElement(e: Node, ghost k: nat)
      requires Valid() && k < |elems| && elems[k] == e
      modifies this, elems
      ensures Valid() && e.Free()
      ensures elems == old(Without(elems, k))
    {
      if head == e {
        head := e.next;
      }
      Retire(e, k);
    }

    /** `DYNLIST_FOR_EACH_ELEMENT`: visits every element once, in order, and ends back at the head. */
    method ForEach() returns (visited: seq<Node>)
      requires Valid()
      ensures visited == elems
    {
      visited := [];
      var e, n := numOfElems, head;
      while e != 0
        invariant 0 <= e <= numOfElems && visited == elems[..numOfElems - e]
        invariant e > 0 ==> n == elems[numOfElems - e]
        invariant e == 0 ==> n == head
      {
        visited := visited + [n];
        e, n := e - 1, n.next;
      }
    }
  }
}
