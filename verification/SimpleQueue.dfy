/** Intrusive simple queues: forward pointers, and the address of the last one so that the tail
    can be extended and one queue appended to another. */
module SimpleQueue {
  import opened TailQueue

  class Cell {
    var next: Cell?  // sqh_first, sqe_next

    constructor ()
    {
      next := null;
    }
  }

  function Follower(chain: seq<Cell>, i: nat): Cell?
    requires i < |chain|
  {
    if i + 1 < |chain| then chain[i + 1] else null
  }

  /** The cells `chain` form a queue: chain[0] is the head, the others the elements. */
  ghost predicate Threaded(chain: seq<Cell>)
    reads chain
  {
    && |chain| > 0 && Distinct(chain)
    && forall i {:trigger chain[i].next} :: 0 <= i < |chain| ==> chain[i].next == Follower(chain, i)
  }

  /** The two pointers an insertion after chain[p] must set. */
  lemma InsertionThreads(chain: seq<Cell>, p: nat, elm: Cell)
    requires p < |chain| && Distinct(chain) && elm !in chain && elm.next == Follower(chain, p)
    requires forall i {:trigger chain[i].next} :: 0 <= i < |chain| ==>
      chain[i].next == if i == p then elm else Follower(chain, i)
    ensures Threaded(Insert(chain, p + 1, elm))
  {
    var c := Insert(chain, p + 1, elm);
    hide Insert;
    forall i | 0 <= i < |c| ensures c[i].next == Follower(c, i) {
      assert i == p + 1 || c[i] == chain[if i <= p then i else i - 1];
    }
  }

  /** The one pointer the removal of chain[p] must set. */
  lemma RemovalThreads(chain: seq<Cell>, p: nat)
    requires 0 < p < |chain| && Distinct(chain)
    requires forall i {:trigger chain[i].next} :: 0 <= i < |chain| ==>
      chain[i].next == Follower(chain, if i == p - 1 then p else i)
    ensures Threaded(Delete(chain, p))
  {
    var c := Delete(chain, p);
    DeleteKeepsDistinct(chain, p);
    hide Delete;
    forall i | 0 <= i < |c| ensures c[i].next == Follower(c, i) {
      var k := if i < p then i else i + 1;
      assert c[i] == chain[k];
      assert chain[k].next == Follower(chain, if k == p - 1 then p else k);
      assert i + 1 < |c| ==> c[i + 1] == chain[if i + 1 < p then i + 1 else i + 2];
    }
  }

  /** The one pointer that appending the elements of another chain must set. */
  lemma JoiningThreads(a: seq<Cell>, b: seq<Cell>)
    requires |a| > 0 && |b| > 1 && Distinct(a) && Threaded(b) && (forall c :: c in a ==> c !in b)
    requires forall i {:trigger a[i].next} :: 0 <= i < |a| ==>
      a[i].next == if i == |a| - 1 then b[1] else Follower(a, i)
    ensures Threaded(a + b[1..])
  {
    var c := a + b[1..];
    forall i | 0 <= i < |c| ensures c[i].next == Follower(c, i) {
      if i < |a| {
        assert c[i] == a[i];
      } else {
        assert c[i] == b[i - |a| + 1];
        assert b[i - |a| + 1].next == Follower(b, i - |a| + 1);
      }
    }
    forall i, j | 0 <= i < j < |c| ensures c[i] != c[j] {
      assert i < |a| ==> c[i] == a[i] && a[i] in a;
      assert j >= |a| ==> c[j] == b[j - |a| + 1] && b[j - |a| + 1] in b;
    }
  }

  lemma HeadIsApart(a: seq<Cell>, b: seq<Cell>)
    requires |b| > 0 && Distinct(b) && (forall c :: c in a ==> c !in b)
    ensures b[0] !in a + b[1..]
  {
    assert b[0] in b;
    assert forall i :: 0 <= i < |a| ==> a[i] in a;
  }

  class SimpleQueue {
    const head: Cell
    var last: Cell  // sqh_last: the cell whose forward pointer is the last
    ghost var chain: seq<Cell>

    ghost predicate Valid()
      reads this, chain
    {
      Threaded(chain) && chain[0] == head && last == chain[|chain| - 1]
    }

    ghost function Elems(): seq<Cell>
      requires |chain| > 0
      reads this
    {
      chain[1..]
    }

    constructor ()
      ensures Valid() && fresh(head) && Elems() == []
    {
      head := new Cell();
      last := head;
      chain := [head];
      new;
      head.next := null;
    }

    method InsertHead(elm: Cell)
      requires Valid() && elm !in chain
      modifies this`chain, this`last, chain, elm
      ensures Valid() && Elems() == [elm] + old(Elems())
    {
      ghost var was := chain;
      assert was[0].next == Follower(was, 0);
      elm.next := head.next;
      if elm.next == null {
        last := elm;
      }
      head.next := elm;
      InsertionThreads(was, 0, elm);
      chain := Insert(was, 1, elm);
      TailOfInsert(was, 0, elm);
    }

    method InsertTail(elm: Cell)
      requires Valid() && elm !in chain
      modifies this`chain, this`last, chain, elm
      ensures Valid() && Elems() == old(Elems()) + [elm]
    {
      ghost var was := chain;
      elm.next := null;
      last.next := elm;
      last := elm;
      InsertionThreads(was, |was| - 1, elm);
      chain := Insert(was, |was|, elm);
      TailOfInsert(was, |was| - 1, elm);
    }

    /** Inserts after the k-th element. */
    method InsertAfter(listelm: Cell, elm: Cell, ghost k: nat)
      requires Valid() && elm !in chain && k < |Elems()| && Elems()[k] == listelm
      modifies this`chain, this`last, chain, elm
      ensures Valid() && Elems() == Insert(old(Elems()), k + 1, elm)
    {
      ghost var was := chain;
      assert was[k + 1].next == Follower(was, k + 1);
      elm.next := listelm.next;
      if elm.next == null {
        last := elm;
      }
      listelm.next := elm;
      InsertionThreads(was, k + 1, elm);
      chain := Insert(was, k + 2, elm);
      TailOfInsert(was, k + 1, elm);
    }

    /** Removes the cell behind `before`, which is chain[p]. */
    method Unlink(before: Cell, ghost p: nat)
      requires Valid() && p + 1 < |chain| && chain[p] == before
      modifies this`chain, this`last, chain
      ensures Valid() && Elems() == Delete(old(Elems()), p)
    {
      hide Delete;
      ghost var was := chain;
      assert was[p].next == was[p + 1] && was[p + 1].next == Follower(was, p + 1) && was[p] != was[p + 1];
      before.next := before.next.next;
      if before.next == null {
        last := before;
      }
      RemovalThreads(was, p + 1);
      chain := Delete(was, p + 1);
      TailOfDelete(was, p);
    }

    method RemoveHead()
      requires Valid() && Elems() != []
      modifies this`chain, this`last, chain
      ensures Valid() && Elems() == old(Elems())[1..]
    {
      Unlink(head, 0);
    }

    /** Removes the k-th element, which is looked for from the front. */
    method Remove(elm: Cell, ghost k: nat)
      requires Valid() && k < |Elems()| && Elems()[k] == elm
      modifies this`chain, this`last, chain
      ensures Valid() && Elems() == Delete(old(Elems()), k)
    {
      assert chain[0].next == chain[1] && chain[k + 1] == elm;
      if head.next == elm {
        Unlink(head, 0);
      } else {
        var curelm := head.next;
        ghost var j := 1;
        assert chain[1].next == Follower(chain, 1);
        while curelm.next != elm
          invariant 1 <= j <= k && curelm == chain[j] && curelm.next == chain[j + 1]
          decreases k - j
        {
          assert chain[j + 1].next == Follower(chain, j + 1);
          curelm := curelm.next;
          j := j + 1;
        }
        Unlink(curelm, j);
      }
    }

    /** Appends the elements of another queue, which is left empty. */
    method Concat(other: SimpleQueue)
      requires Valid() && other.Valid() && other != this && (forall c :: c in chain ==> c !in other.chain)
      modifies this`chain, this`last, chain, other`chain, other`last, other.chain
      ensures Valid() && Elems() == old(Elems()) + old(other.Elems())
      ensures other.Valid() && other.Elems() == []
    {
      ghost var a, b := chain, other.chain;
      assert b[0].next == Follower(b, 0);
      if other.head.next != null {
        assert last == a[|a| - 1] && last in a;
        last.next := other.head.next;
        last := other.last;
        assert forall i :: 0 <= i < |b| ==> b[i] in b && b[i] != a[|a| - 1];
        assert Threaded(b);
        JoiningThreads(a, b);
        chain := a + b[1..];
        HeadIsApart(a, b);
        other.head.next := null;
        other.last := other.head;
        other.chain := [other.head];
      }
    }

    method Foreach() returns (visited: seq<Cell>)
      requires Valid()
      ensures visited == Elems()
    {
      visited := [];
      var v := head.next;
      while v != null
        invariant |visited| < |chain| && visited == chain[1..|visited| + 1]
        invariant v == Follower(chain, |visited|)
        decreases |chain| - |visited|
      {
        visited := visited + [v];
        v := v.next;
      }
    }
  }
}
