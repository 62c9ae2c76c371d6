/**
 * The generic binary heap: a caller-supplied buffer of `maxItems` records, of
 * which the first `items` are live, ordered by the caller's comparator so that
 * no live record comes before its parent.
 */
module PriorityQueue {
  import opened HeapIndex
  import opened HeapOrder

  datatype Option<T> = None | Some(value: T)

  class PrioQueue<T(!new)> {
    /** Number of live records, the prefix memory[..items]. */
    var items: nat
    /** Capacity, the number of record slots in the buffer. */
    const maxItems: nat
    /** The caller's buffer; the queue moves records inside it, never replaces it. */
    const memory: array<T>
    /** The caller's comparator: before(a, b) when a comes before b. */
    const before: (T, T) -> bool

    /** Buffer and counters agree, and the comparator is a strict weak order. */
    ghost predicate Shape()
      reads this
    {
      memory.Length == maxItems && items <= maxItems && StrictWeakOrder(before)
    }

    /** The live records. */
    ghost function Live(): (s: seq<T>)
      reads this, memory
      requires Shape()
      ensures |s| == items
    {
      memory[..items]
    }

    /** The live records as a bag: what the queue holds, regardless of order. */
    ghost function Contents(): multiset<T>
      reads this, memory
      requires Shape()
    {
      multiset(Live())
    }

    /** The queue invariant: no live record comes before its parent. */
    ghost predicate Valid()
      reads this, memory
    {
      Shape() && HeapOrdered(Live(), before)
    }

    /** A queue over the caller's buffer, initially empty. */
    constructor (buffer: array<T>, before: (T, T) -> bool)
      requires StrictWeakOrder(before)
      ensures Valid() && items == 0 && Contents() == multiset{}
      ensures memory == buffer && maxItems == buffer.Length && this.before == before
    {
      items := 0;
      maxItems := buffer.Length;
      memory := buffer;
      this.before := before;
    }

    /** Sift-down from `index`.  The candidate starts at `index`; a live left
        child replaces it when the candidate does not come before that child,
        then a live right child likewise.  So a child that merely ties with the
        record is still swapped up, and on a tie between the two children the
        right one wins.  If the candidate moved, the two records swap and the
        sift continues from the candidate's slot. */
    method Heapify(index: nat)
      requires Shape() && HeapExceptBelow(Live(), index, before)
      modifies memory
      ensures HeapOrdered(Live(), before)
      ensures Contents() == old(Contents())
      ensures memory[items..] == old(memory[items..])
      ensures items <= 1 ==> memory[..] == old(memory[..])
      decreases items - index
    {
      if items <= 1 {
        return;
      }
      ghost var s := Live();
      var l, r, m := Left(index), Right(index), index;
      if l < items && !before(memory[m], memory[l]) {
        m := l;
      }
      ghost var m1 := m;
      if r < items && !before(memory[m], memory[r]) {
        m := r;
      }
      if index < items {
        SiftDownChoice(s, index, m1, m, before);
      }
      if m != index {
        Exchange(index, m);
        assert Live() == Swap(s, index, m);
        SiftDownStep(s, index, m, before);
        Heapify(m);
      } else {
        SiftDownDone(s, index, before);
      }
    }

    /** Exchanges the records in slots i and j (the three-memcpy idiom). */
    method Exchange(i: nat, j: nat)
      requires i < memory.Length && j < memory.Length
      modifies memory
      ensures memory[..] == Swap(old(memory[..]), i, j)
    {
      memory[i], memory[j] := memory[j], memory[i];
    }

    /** Appends x after the live records and sifts it up: while it comes
        before its parent, the two swap. */
    method Push(x: T)
      requires Valid() && items < maxItems
      modifies this`items, memory
      ensures Valid()
      ensures items == old(items) + 1
      ensures Contents() == old(Contents()) + multiset{x}
      ensures memory[items..] == old(memory[items + 1..])
    {
      var i: nat := items;
      memory[i] := x;
      items := items + 1;
      assert Live() == old(Live()) + [x];
      AppendBreaksAtMostLast(old(Live()), x, before);
      while i != 0 && before(memory[i], memory[Parent(i)])
        invariant Shape() && i < items == old(items) + 1
        invariant HeapExceptAt(Live(), i, before)
        invariant Contents() == old(Contents()) + multiset{x}
        invariant memory[items..] == old(memory[items + 1..])
        decreases i
      {
        ghost var s := Live();
        var p := Parent(i);
        Exchange(i, p);
        assert Live() == Swap(s, i, p);
        SiftUpStep(s, i, before);
        i := p;
      }
      SiftUpDone(Live(), i, before);
    }

    /** The record in slot 0: the first of the queue when it is not empty. */
    method Top() returns (t: T)
      requires Valid() && 0 < maxItems
      ensures t == memory[0]
      ensures 0 < items ==> forall k :: 0 <= k < items ==> !before(memory[k], t)
    {
      t := memory[0];
      if 0 < items {
        RootIsFirst(Live(), before);
      }
    }

    /** Removes the first record: None on an empty queue, otherwise the root,
        after the last live record has taken its place and been sifted down. */
    method Pop() returns (popped: Option<T>)
      requires Valid()
      modifies this`items, memory
      ensures Valid()
      ensures old(items) == 0 ==> popped == None && items == 0 && memory[..] == old(memory[..])
      ensures old(items) > 0 ==>
        && popped == Some(old(memory[0]))
        && items == old(items) - 1
        && Contents() == old(Contents()) - multiset{old(memory[0])}
        && memory[items] == old(memory[0])
        && memory[old(items)..] == old(memory[items..])
      ensures popped.Some? ==> forall e | e in Contents() :: !before(e, popped.value)
    {
      if items == 0 {
        return None;
      }
      ghost var whole := memory[..];
      RootIsFirst(Live(), before);
      RootToEnd(whole, items, before);
      popped := Some(memory[0]);
      var last := items - 1;
      Exchange(0, last);
      items := last;
      assert Live() == memory[..][..last];
      ghost var tail := memory[last..];
      assert tail == [whole[0]] + whole[last + 1..];
      Heapify(0);
      assert memory[last..] == tail;
      assert memory[last] == tail[0] && memory[last + 1..] == tail[1..];
    }
  }
}
