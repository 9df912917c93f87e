/** The intrusive circular doubly-linked list (wg_linked_list.c) and its
    iterator (wg_iterator.c).

    A list is a head node whose `next` link goes to the most recently added
    element and whose `prev` link goes to the oldest. The model keeps the
    elements as a sequence in `next` order, newest first: `elems[0]` is
    `head->next` and `elems[|elems| - 1]` is `head->prev`. The elements are
    nodes, so each occurs at most once. */
module LinkedList {
  import opened CTypes

  /** The elements in the opposite order. */
  function Reverse<T>(s: seq<T>): (r: seq<T>)
    ensures |r| == |s|
    ensures forall i :: 0 <= i < |s| ==> r[i] == s[|s| - 1 - i]
  {
    if s == [] then [] else Reverse(s[1..]) + [s[0]]
  }

  predicate Distinct<T(==)>(s: seq<T>)
  {
    forall i, j :: 0 <= i < j < |s| ==> s[i] != s[j]
  }

  class DList<T(==)> {
    /** Elements in `next` order from the head: newest first. */
    var elems: seq<T>

    ghost predicate Valid()
      reads this
    {
      Distinct(elems)
    }

    /** dlist_init: the head is linked to itself. */
    constructor ()
      ensures Valid() && elems == []
    {
      elems := [];
    }

    /** dlist_add: the object is linked right after the head. Adding a node
        that is already linked would corrupt the list, so it must not be. */
    method Add(o: T)
      requires Valid() && o !in elems
      modifies this
      ensures Valid() && elems == [o] + old(elems)
    {
      elems := [o] + elems;
    }

    /** dlist_remove: the node is unlinked; its neighbours are joined. */
    method Remove(o: T)
      requires Valid() && o in elems
      modifies this
      ensures Valid()
      ensures exists i :: 0 <= i < |old(elems)| && old(elems)[i] == o &&
                elems == old(elems)[..i] + old(elems)[i + 1..]
      ensures |elems| == |old(elems)| - 1 && o !in elems
    {
      var i :| 0 <= i < |elems| && elems[i] == o;
      ghost var before := elems;
      elems := elems[..i] + elems[i + 1..];
      assert forall k :: 0 <= k < |elems| ==> elems[k] == if k < i then before[k] else before[k + 1];
    }

    /** dlist_empty: the head's `next` link is the head itself. */
    function IsEmpty(): (r: bool)
      reads this
      ensures r <==> |elems| == 0
    {
      elems == []
    }

    /** dlist_size: follows `next` links from the head until it comes back,
        counting the nodes. */
    method Size() returns (n: nat)
      ensures n == |elems|
    {
      var h := 0;
      n := 0;
      while h != |elems|
        invariant 0 <= h <= |elems| && n == h
      {
        h := h + 1;
        n := n + 1;
      }
    }

    /** dlist_get: the n-th element counted from the newest, or NULL. The
        counter is a wg_uint that is pre-incremented and then decremented
        once per step, so n = 0xffffffff wraps to 0 and still works. */
    method Get(n: u32) returns (r: Option<T>)
      ensures n < |elems| ==> r == Some(elems[n])
      ensures n >= |elems| ==> r == None
    {
      var h := 0;
      var c: u32 := Wrap32(n + 1);
      while h != |elems|
        invariant 0 <= h <= |elems| && h <= n
        invariant c == Wrap32(n + 1 - h)
      {
        c := Wrap32(c - 1);
        if c == 0 {
          break;
        }
        h := h + 1;
      }
      r := if h == |elems| then None else Some(elems[h]);
    }

    /** dlist_get_last: `head->next`, the most recently added element. */
    function GetLast(): (r: Option<T>)
      reads this
      ensures r == None <==> |elems| == 0
      ensures r != None ==> r.value == elems[0]
    {
      if elems != [] then Some(elems[0]) else None
    }

    /** dlist_get_first: `head->prev`, the oldest element. */
    function GetFirst(): (r: Option<T>)
      reads this
      ensures r == None <==> |elems| == 0
      ensures r != None ==> r.value == elems[|elems| - 1]
    {
      if elems != [] then Some(elems[|elems| - 1]) else None
    }

    /** dlist_pop_first: unlinks `head->prev` and returns it; on an empty
        list the head is "unlinked" from itself, which changes nothing. */
    method PopFirst() returns (r: Option<T>)
      requires Valid()
      modifies this
      ensures Valid()
      ensures r == old(GetFirst())
      ensures elems == if old(elems) == [] then [] else old(elems)[..|old(elems)| - 1]
    {
      r := GetFirst();
      if elems != [] {
        elems := elems[..|elems| - 1];
      }
    }

    /** dlist_to_array: walks the list with an iterator in `next` order of
        the iterator (oldest first) and stores every element. */
    method ToArray(a: array<T>) returns (n: nat)
      requires Valid() && |elems| <= a.Length
      modifies a
      ensures n == |elems|
      ensures a[..n] == Reverse(elems)
      ensures a[n..] == old(a[n..])
    {
      var it := new ListIterator(this);
      n := 0;
      var e := it.Next();
      while e.Some?
        invariant it.list == this && it.Valid()
        invariant e.Some? ==> n < |elems| && e.value == elems[|elems| - 1 - n] && it.prev == |elems| - 2 - n
        invariant e.None? ==> n == |elems|
        invariant n <= |elems|
        invariant forall k :: 0 <= k < n ==> a[k] == elems[|elems| - 1 - k]
        invariant a[|elems|..] == old(a[|elems|..])
        decreases |elems| - n
      {
        a[n] := e.value;
        n := n + 1;
        e := it.Next();
      }
      assert a[..n] == Reverse(elems);
    }
  }

  /** Iterator over a list that is not changed while it is walked.
      `prev` is the position of the node `iterator->prev` points at (-1 for
      the head) and `next` the position of `iterator->next` (|elems| for the
      head). */
  class ListIterator<T(==)> {
    const list: DList<T>
    var next: int
    var prev: int

    ghost predicate Valid()
      reads this, list
    {
      0 <= next <= |list.elems| && -1 <= prev < |list.elems|
    }

    /** iterator_list_init: copies the head's two links. */
    constructor (l: DList<T>)
      ensures list == l && Valid()
      ensures next == 0 && prev == |l.elems| - 1
    {
      list := l;
      next := 0;
      prev := |l.elems| - 1;
    }

    /** iterator_list_is_last: `prev` is back at the head. */
    predicate IsLast()
      reads this
    {
      prev == -1
    }

    /** iterator_list_is_first: `next` is back at the head. */
    predicate IsFirst()
      reads this, list
    {
      next == |list.elems|
    }

    /** iterator_list_next: yields the node `prev` points at and follows its
        `prev` link, so elements come oldest to newest. */
    method Next() returns (r: Option<T>)
      requires Valid()
      modifies this
      ensures Valid() && next == old(next)
      ensures old(IsLast()) ==> r == None && prev == old(prev)
      ensures !old(IsLast()) ==> r == Some(list.elems[old(prev)]) && prev == old(prev) - 1
    {
      if !IsLast() {
        r := Some(list.elems[prev]);
        prev := prev - 1;
      } else {
        r := None;
      }
    }

    /** iterator_list_prev: yields the node `next` points at and follows its
        `next` link, so elements come newest to oldest. */
    method Prev() returns (r: Option<T>)
      requires Valid()
      modifies this
      ensures Valid() && prev == old(prev)
      ensures old(IsFirst()) ==> r == None && next == old(next)
      ensures !old(IsFirst()) ==> r == Some(list.elems[old(next)]) && next == old(next) + 1
    {
      if !IsFirst() {
        r := Some(list.elems[next]);
        next := next + 1;
      } else {
        r := None;
      }
    }
  }

  /** The element sequence after adding each of `xs` in turn. */
  function AddAll<T>(s: seq<T>, xs: seq<T>): seq<T>
    decreases |xs|
  {
    if xs == [] then s else AddAll([xs[0]] + s, xs[1..])
  }

  /** The elements returned by popping the oldest element until empty. */
  function PopAll<T>(s: seq<T>): seq<T>
    decreases |s|
  {
    if s == [] then [] else [s[|s| - 1]] + PopAll(s[..|s| - 1])
  }

  lemma {:induction false} AddAllIsReverse<T>(s: seq<T>, xs: seq<T>)
    ensures AddAll(s, xs) == Reverse(xs) + s
    decreases |xs|
  {
    if xs != [] {
      AddAllIsReverse([xs[0]] + s, xs[1..]);
      assert Reverse(xs) == Reverse(xs[1..]) + [xs[0]];
    }
  }

  lemma {:induction false} PopAllOfReverse<T>(xs: seq<T>)
    ensures PopAll(Reverse(xs)) == xs
    decreases |xs|
  {
    if xs != [] {
      var r := Reverse(xs);
      assert r[..|r| - 1] == Reverse(xs[1..]);
      PopAllOfReverse(xs[1..]);
      assert xs == [xs[0]] + xs[1..];
    }
  }

  /** Used as add / pop_first the list is a FIFO queue: elements come out of
      pop_first in the order they were added. */
  lemma FifoOrder<T>(xs: seq<T>)
    ensures PopAll(AddAll([], xs)) == xs
  {
    AddAllIsReverse([], xs);
    assert Reverse(xs) + [] == Reverse(xs);
    PopAllOfReverse(xs);
  }

  /** Used as add / get_last the list is a LIFO stack: after an add,
      get_last reads back the element just added, and the rest of the list
      is the list as it was. */
  method LifoTop<T(==)>(l: DList<T>, x: T) returns (top: Option<T>)
    requires l.Valid() && x !in l.elems
    modifies l
    ensures l.Valid() && top == Some(x) && l.elems == [x] + old(l.elems)
  {
    l.Add(x);
    top := l.GetLast();
  }

  /** After a run of adds get_last is the element added last, whatever the
      list held before. */
  lemma LifoLast<T>(s: seq<T>, xs: seq<T>)
    requires xs != []
    ensures |AddAll(s, xs)| == |s| + |xs|
    ensures AddAll(s, xs)[0] == xs[|xs| - 1]
  {
    AddAllIsReverse(s, xs);
  }
}
