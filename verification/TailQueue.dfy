/** Intrusive tail queues. A head and an element's entry have the same layout, a forward
    pointer and the address of a forward pointer, and the reverse traversal relies on it; so
    one class of links stands for both, and the address of a link's forward pointer is the
    link itself. */
module TailQueue {

  class Link {
    var next: Link?  // tqh_first, tqe_next
    var prev: Link?  // tqh_last, tqe_prev: the link whose forward pointer is meant

    constructor ()
    {
      next, prev := null, null;
    }
  }

  function NextIn(chain: seq<Link>, i: nat): Link?
    requires i < |chain|
  {
    if i + 1 < |chain| then chain[i + 1] else null
  }

  function PrevIn(chain: seq<Link>, i: nat): Link
    requires i < |chain|
  {
    if i > 0 then chain[i - 1] else chain[|chain| - 1]
  }

  ghost predicate Distinct<T>(s: seq<T>) {
    forall i, j :: 0 <= i < j < |s| ==> s[i] != s[j]
  }

  /** The links `chain` form a queue: chain[0] is the head, the others the elements. */
  ghost predicate Linked(chain: seq<Link>)
    reads chain
  {
    && |chain| > 0 && Distinct(chain)
    && (forall i {:trigger chain[i].next} :: 0 <= i < |chain| ==> chain[i].next == NextIn(chain, i))
    && (forall i {:trigger chain[i].prev} :: 0 <= i < |chain| ==> chain[i].prev == PrevIn(chain, i))
  }

  /** The pun behind the reverse traversal: reading the previous slot as a head and following
      its last pointer finds the element before, and nothing before the first element. */
  lemma PreviousElement(chain: seq<Link>, i: nat)
    requires Linked(chain) && i < |chain|
    ensures chain[i].prev != null && chain[i].prev.prev != null
    ensures i > 0 ==> chain[i].prev.prev.next == if i == 1 then null else chain[i - 1]
    ensures i == 0 ==> chain[i].prev.prev.next == if |chain| == 1 then null else chain[|chain| - 1]
  {
    var j := if i > 0 then i - 1 else |chain| - 1;
    assert chain[i].prev == chain[j];
    var k := if j > 0 then j - 1 else |chain| - 1;
    assert chain[j].prev == chain[k] && chain[k].next == NextIn(chain, k);
  }

  function Insert<T>(s: seq<T>, p: nat, x: T): (r: seq<T>)
    requires p <= |s|
    ensures |r| == |s| + 1
    ensures forall i {:trigger r[i]} :: 0 <= i < |r| ==> r[i] == if i < p then s[i] else if i == p then x else s[i - 1]
  {
    s[..p] + [x] + s[p..]
  }

  function Delete<T>(s: seq<T>, p: nat): (r: seq<T>)
    requires p < |s|
    ensures |r| == |s| - 1
    ensures forall i {:trigger r[i]} :: 0 <= i < |r| ==> r[i] == if i < p then s[i] else s[i + 1]
  {
    s[..p] + s[p + 1..]
  }

  /** The index of the link whose previous pointer speaks of chain[p]: the element after it,
      or the head. */
  function After(chain: seq<Link>, p: nat): nat
    requires p < |chain|
  {
    if p + 1 < |chain| then p + 1 else 0
  }

  /** The four pointers an insertion after chain[p] must set. */
  lemma InsertionLinks(chain: seq<Link>, p: nat, elm: Link)
    requires p < |chain| && Distinct(chain) && elm !in chain
    requires elm.next == NextIn(chain, p) && elm.prev == chain[p]
    requires forall i {:trigger chain[i].next} :: 0 <= i < |chain| ==> chain[i].next == if i == p then elm else NextIn(chain, i)
    requires forall i {:trigger chain[i].prev} :: 0 <= i < |chain| ==> chain[i].prev == if i == After(chain, p) then elm else PrevIn(chain, i)
    ensures Linked(Insert(chain, p + 1, elm))
  {
    var c := Insert(chain, p + 1, elm);
    hide Insert;
    forall i | 0 <= i < |c|
      ensures c[i].next == NextIn(c, i) && c[i].prev == PrevIn(c, i)
    {
      assert i == p + 1 || c[i] == chain[if i <= p then i else i - 1];
    }
  }

  /** The two pointers the removal of chain[p] must set. */
  lemma RemovalLinks(chain: seq<Link>, p: nat)
    requires 0 < p < |chain| && Distinct(chain)
    requires forall i {:trigger chain[i].next} :: 0 <= i < |chain| ==>
      chain[i].next == NextIn(chain, if i == p - 1 then p else i)
    requires forall i {:trigger chain[i].prev} :: 0 <= i < |chain| ==>
      chain[i].prev == if i == After(chain, p) then chain[p - 1] else PrevIn(chain, i)
    ensures Linked(Delete(chain, p))
  {
    var c := Delete(chain, p);
    forall i | 0 <= i < |c|
      ensures c[i].next == NextIn(c, i)
    {
      RemovalNext(chain, p, c, i);
    }
    forall i | 0 <= i < |c|
      ensures c[i].prev == PrevIn(c, i)
    {
      RemovalPrev(chain, p, c, i);
    }
    DeleteKeepsDistinct(chain, p);
  }

  ghost predicate IsWithout<T>(s: seq<T>, p: nat, r: seq<T>) {
    p < |s| && |r| == |s| - 1 && forall i {:trigger r[i]} :: 0 <= i < |r| ==> r[i] == if i < p then s[i] else s[i + 1]
  }

  lemma RemovalNext(chain: seq<Link>, p: nat, c: seq<Link>, i: nat)
    requires 0 < p < |chain| && IsWithout(chain, p, c) && i < |c|
    requires forall i {:trigger chain[i].next} :: 0 <= i < |chain| ==>
      chain[i].next == NextIn(chain, if i == p - 1 then p else i)
    ensures c[i].next == NextIn(c, i)
  {
    var k := if i < p then i else i + 1;
    assert c[i] == chain[k];
    assert chain[k].next == NextIn(chain, if k == p - 1 then p else k);
    assert i + 1 < |c| ==> c[i + 1] == chain[if i + 1 < p then i + 1 else i + 2];
  }

  lemma RemovalPrev(chain: seq<Link>, p: nat, c: seq<Link>, i: nat)
    requires 0 < p < |chain| && IsWithout(chain, p, c) && i < |c|
    requires forall i {:trigger chain[i].prev} :: 0 <= i < |chain| ==>
      chain[i].prev == if i == After(chain, p) then chain[p - 1] else PrevIn(chain, i)
    ensures c[i].prev == PrevIn(c, i)
  {
    var k := if i < p then i else i + 1;
    assert c[i] == chain[k];
    assert chain[k].prev == if k == After(chain, p) then chain[p - 1] else PrevIn(chain, k);
    assert i > 0 ==> c[i - 1] == chain[if i - 1 < p then i - 1 else i];
    assert c[|c| - 1] == chain[if |c| - 1 < p then |c| - 1 else |c|];
  }

  lemma DeleteKeepsDistinct<T>(s: seq<T>, p: nat)
    requires p < |s| && Distinct(s)
    ensures Distinct(Delete(s, p))
  {
  }

  lemma TailOfInsert<T>(s: seq<T>, p: nat, x: T)
    requires p < |s|
    ensures Insert(s, p + 1, x)[1..] == Insert(s[1..], p, x)
    ensures p == |s| - 1 ==> Insert(s, p + 1, x)[1..] == s[1..] + [x]
    ensures p == 0 ==> Insert(s, p + 1, x)[1..] == [x] + s[1..]
  {
  }

  lemma TailOfDelete<T>(s: seq<T>, p: nat)
    requires p + 1 < |s|
    ensures Delete(s, p + 1)[1..] == Delete(s[1..], p)
  {
  }

  /** A queue; its head's forward pointer is the first element, its previous pointer the last
      link of the chain. */
  class TailQueue {
    const head: Link
    ghost var chain: seq<Link>

    ghost predicate Valid()
      reads this, chain
    {
      Linked(chain) && chain[0] == head
    }

    /** The elements of the queue, first to last. */
    ghost function Elems(): seq<Link>
      requires |chain| > 0
      reads this
    {
      chain[1..]
    }

    constructor ()
      ensures Valid() && fresh(head) && Elems() == []
    {
      head := new Link();
      chain := [head];
      new;
      head.next := null;
      head.prev := head;
    }

    method InsertHead(elm: Link)
      requires Valid() && elm !in chain
      modifies this`chain, chain, elm
      ensures Valid() && Elems() == [elm] + old(Elems())
    {
      ghost var was := chain;
      assert was[0].next == NextIn(was, 0);
      elm.next := head.next;
      if elm.next != null {
        head.next.prev := elm;
      } else {
        head.prev := elm;
      }
      head.next := elm;
      elm.prev := head;
      InsertionLinks(was, 0, elm);
      chain := Insert(was, 1, elm);
      TailOfInsert(was, 0, elm);
    }

    method InsertTail(elm: Link)
      requires Valid() && elm !in chain
      modifies this`chain, chain, elm
      ensures Valid() && Elems() == old(Elems()) + [elm]
    {
      ghost var was := chain;
      assert was[0].prev == was[|was| - 1];
      elm.next := null;
      elm.prev := head.prev;
      head.prev.next := elm;
      head.prev := elm;
      InsertionLinks(was, |was| - 1, elm);
      chain := Insert(was, |was|, elm);
      TailOfInsert(was, |was| - 1, elm);
    }

    /** Inserts after the k-th element. */
    method InsertAfter(listelm: Link, elm: Link, ghost k: nat)
      requires Valid() && elm !in chain && k < |Elems()| && Elems()[k] == listelm
      modifies this`chain, chain, elm
      ensures Valid() && Elems() == Insert(old(Elems()), k + 1, elm)
    {
      ghost var was := chain;
      assert was[k + 1].next == NextIn(was, k + 1);
      elm.next := listelm.next;
      if elm.next != null {
        elm.next.prev := elm;
      } else {
        head.prev := elm;
      }
      listelm.next := elm;
      elm.prev := listelm;
      InsertionLinks(was, k + 1, elm);
      chain := Insert(was, k + 2, elm);
      TailOfInsert(was, k + 1, elm);
    }

    /** Inserts before the k-th element; the head is not needed. */
    method InsertBefore(listelm: Link, elm: Link, ghost k: nat)
      requires Valid() && elm !in chain && k < |Elems()| && Elems()[k] == listelm
      modifies this`chain, chain, elm
      ensures Valid() && Elems() == Insert(old(Elems()), k, elm)
    {
      ghost var was := chain;
      assert was[k + 1].prev == was[k] && was[k].next == NextIn(was, k);
      elm.prev := listelm.prev;
      elm.next := listelm;
      listelm.prev.next := elm;
      listelm.prev := elm;
      InsertionLinks(was, k, elm);
      chain := Insert(was, k + 1, elm);
      TailOfInsert(was, k, elm);
    }

    /** Removes the k-th element, whose own pointers are left as they were. */
    method Remove(elm: Link, ghost k: nat)
      requires Valid() && k < |Elems()| && Elems()[k] == elm
      modifies this`chain, chain
      ensures Valid() && Elems() == Delete(old(Elems()), k)
      ensures elm.next == old(elm.next) && elm.prev == old(elm.prev)
    {
      hide Delete;
      ghost var was := chain;
      assert was[k + 1].prev == was[k] && was[k + 1].next == NextIn(was, k + 1);
      assert was[k] != was[k + 1] && was[After(was, k + 1)] != was[k + 1];
      if elm.next != null {
        elm.next.prev := elm.prev;
      } else {
        head.prev := elm.prev;
      }
      elm.prev.next := elm.next;
      RemovalLinks(was, k + 1);
      chain := Delete(was, k + 1);
      TailOfDelete(was, k);
    }

    /** Taking an inserted element out again restores every pointer of the queue. */
    method InsertThenRemove(listelm: Link, elm: Link, ghost k: nat)
      requires Valid() && elm !in chain && k < |Elems()| && Elems()[k] == listelm
      modifies this`chain, chain, elm
      ensures Valid() && chain == old(chain)
      ensures forall l :: l in chain ==> l.next == old(l.next) && l.prev == old(l.prev)
    {
      ghost var was := chain;
      InsertBefore(listelm, elm, k);
      Remove(elm, k);
      assert chain[0] == was[0] && chain == [chain[0]] + Elems() && was == [was[0]] + was[1..];
      assert chain == was;
      forall i | 0 <= i < |was|
        ensures was[i].next == old(was[i].next) && was[i].prev == old(was[i].prev)
      {
      }
    }

    /** The forward traversal. */
    method Foreach() returns (visited: seq<Link>)
      requires Valid()
      ensures visited == Elems()
    {
      visited := [];
      var v := head.next;
      while v != null
        invariant |visited| < |chain| && visited == chain[1..|visited| + 1]
        invariant v == NextIn(chain, |visited|)
        decreases |chain| - |visited|
      {
        visited := visited + [v];
        v := v.next;
      }
    }

    /** The reverse traversal: each step reads the previous slot as if it were a head. */
    method ForeachReverse() returns (visited: seq<Link>)
      requires Valid()
      ensures |visited| == |Elems()| && forall k :: 0 <= k < |visited| ==> visited[k] == Elems()[|Elems()| - 1 - k]
    {
      ghost var n := |chain|;
      visited := [];
      PreviousElement(chain, 0);
      var v := head.prev.prev.next;
      while v != null
        invariant |visited| < n
        invariant forall j :: 0 <= j < |visited| ==> visited[j] == chain[n - 1 - j]
        invariant v == if |visited| < n - 1 then chain[n - 1 - |visited|] else null
        decreases n - |visited|
      {
        PreviousElement(chain, n - 1 - |visited|);
        visited := visited + [v];
        v := v.prev.prev.next;
      }
    }
  }
}
