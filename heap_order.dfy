/**
 * Heap order over the live region of the queue, stated on sequences.
 *
 * `before(a, b)` is the caller's comparator: true when a comes before b
 * (a has the higher priority).  A record never comes before its parent.
 */
module HeapOrder {
  import opened HeapIndex

  /** A term that names three records.  The laws of the order below are
      instantiated only at records a proof names this way (through Asymmetric,
      Transitive and NotBeforeTransitive), so that the solver does not apply
      them to every comparison in sight. */
  ghost predicate Chain<T>(a: T, b: T, c: T) {
    true
  }

  /** The comparator is a strict weak order: irreflexive, transitive, and
      "not before" is transitive too (records that neither comes before the
      other are interchangeable).  The last law is what lets the sift-down
      pick a child by a chain of `!before` tests. */
  ghost predicate StrictWeakOrder<T(!new)>(before: (T, T) -> bool) {
    && (forall a {:trigger Chain(a, a, a)} :: !before(a, a))
    && (forall a, b, c {:trigger Chain(a, b, c)} :: before(a, b) && before(b, c) ==> before(a, c))
    && (forall a, b, c {:trigger Chain(a, b, c)} :: !before(a, b) && !before(b, c) ==> !before(a, c))
  }

  lemma Asymmetric<T(!new)>(before: (T, T) -> bool, a: T, b: T)
    requires StrictWeakOrder(before)
    ensures before(a, b) ==> !before(b, a)
  {
    assert Chain(a, a, a) && Chain(a, b, a);
  }

  lemma Transitive<T(!new)>(before: (T, T) -> bool, a: T, b: T, c: T)
    requires StrictWeakOrder(before)
    ensures before(a, b) && before(b, c) ==> before(a, c)
  {
    assert Chain(a, b, c);
  }

  lemma NotBeforeTransitive<T(!new)>(before: (T, T) -> bool, a: T, b: T, c: T)
    requires StrictWeakOrder(before)
    ensures !before(a, b) && !before(b, c) ==> !before(a, c)
  {
    assert Chain(a, b, c);
  }

  /** No record of s comes before its parent. */
  ghost predicate HeapOrdered<T>(s: seq<T>, before: (T, T) -> bool) {
    forall k {:trigger s[Parent(k)]} :: 0 < k < |s| ==> !before(s[k], s[Parent(k)])
  }

  /** The state inside the sift-up: heap order holds for every record except
      the one at i, and i's children do not come before i's parent either. */
  ghost predicate HeapExceptAt<T>(s: seq<T>, i: nat, before: (T, T) -> bool) {
    && (forall k {:trigger s[Parent(k)]} :: 0 < k < |s| && k != i ==> !before(s[k], s[Parent(k)]))
    && (0 < i ==> forall k :: 0 < k < |s| && Parent(k) == i ==> !before(s[k], s[Parent(i)]))
  }

  /** The state inside the sift-down: heap order holds for every record except
      the children of i, and those children do not come before i's parent. */
  ghost predicate HeapExceptBelow<T>(s: seq<T>, i: nat, before: (T, T) -> bool) {
    && (forall k {:trigger s[Parent(k)]} :: 0 < k < |s| && Parent(k) != i ==> !before(s[k], s[Parent(k)]))
    && (0 < i ==> forall k :: 0 < k < |s| && Parent(k) == i ==> !before(s[k], s[Parent(i)]))
  }

  /** Exchange of two whole records. */
  function Swap<T>(s: seq<T>, i: nat, j: nat): (r: seq<T>)
    requires i < |s| && j < |s|
    ensures |r| == |s| && r[i] == s[j] && r[j] == s[i]
    ensures forall k :: 0 <= k < |s| && k != i && k != j ==> r[k] == s[k]
    ensures multiset(r) == multiset(s)
  {
    s[i := s[j]][j := s[i]]
  }

  /** A record appended at the end of a heap leaves heap order broken at most
      at that record, which has no children yet. */
  lemma AppendBreaksAtMostLast<T>(s: seq<T>, x: T, before: (T, T) -> bool)
    requires HeapOrdered(s, before)
    ensures HeapExceptAt(s + [x], |s|, before)
  {
  }

  /** Moving the last live record (of the n live ones at the front of w) to
      the root and the root to slot n - 1 leaves one copy of the root fewer in
      the live region, with heap order broken at most below the root, and the
      old root just past the new live region. */
  lemma RootToEnd<T>(w: seq<T>, n: nat, before: (T, T) -> bool)
    requires 0 < n <= |w| && HeapOrdered(w[..n], before)
    ensures HeapExceptBelow(Swap(w, 0, n - 1)[..n - 1], 0, before)
    ensures multiset(Swap(w, 0, n - 1)[..n - 1]) == multiset(w[..n]) - multiset{w[0]}
    ensures Swap(w, 0, n - 1)[n - 1..] == [w[0]] + w[n..]
  {
    RootToEndOrder(w, n, before);
    RootToEndContents(w, n);
  }

  /** The heap-order half of RootToEnd. */
  lemma RootToEndOrder<T>(w: seq<T>, n: nat, before: (T, T) -> bool)
    requires 0 < n <= |w| && HeapOrdered(w[..n], before)
    ensures HeapExceptBelow(Swap(w, 0, n - 1)[..n - 1], 0, before)
  {
  }

  /** The multiset half of RootToEnd. */
  lemma RootToEndContents<T>(w: seq<T>, n: nat)
    requires 0 < n <= |w|
    ensures multiset(Swap(w, 0, n - 1)[..n - 1]) == multiset(w[..n]) - multiset{w[0]}
  {
    var t := Swap(w, 0, n - 1);
    assert t[..n] == t[..n - 1] + [w[0]];
    SwapInPrefix(w, n - 1, n);
  }

  /** Swapping inside the first n records permutes those n records. */
  lemma SwapInPrefix<T>(w: seq<T>, j: nat, n: nat)
    requires j < n <= |w|
    ensures Swap(w, 0, j)[..n] == Swap(w[..n], 0, j)
  {
  }

  /** One step of the sift-up: swapping a record that comes before its parent
      with that parent moves the single break in heap order one level up. */
  lemma SiftUpStep<T(!new)>(s: seq<T>, i: nat, before: (T, T) -> bool)
    requires StrictWeakOrder(before)
    requires 0 < i < |s| && HeapExceptAt(s, i, before)
    requires before(s[i], s[Parent(i)])
    ensures HeapExceptAt(Swap(s, i, Parent(i)), Parent(i), before)
  {
    var p := Parent(i);
    var t := Swap(s, i, p);
    forall k | 0 < k < |t| && k != p
      ensures !before(t[k], t[Parent(k)])
    {
      if k == i {
        // the old parent now sits below the record that came before it
        Asymmetric(before, s[i], s[p]);
      } else if Parent(k) == p {
        // i's sibling did not come before p, and i came before p
        Transitive(before, s[k], s[i], s[p]);
      }
    }
    if 0 < p {
      forall k | 0 < k < |t| && Parent(k) == p
        ensures !before(t[k], t[Parent(p)])
      {
        assert !before(s[p], s[Parent(p)]);
        if k != i {
          NotBeforeTransitive(before, s[k], s[p], s[Parent(p)]);
        }
      }
    }
  }

  /** The sift-up stops once the record at i is at the root or does not come
      before its parent: then the whole sequence is heap-ordered. */
  lemma SiftUpDone<T>(s: seq<T>, i: nat, before: (T, T) -> bool)
    requires i < |s| && HeapExceptAt(s, i, before)
    requires i == 0 || !before(s[i], s[Parent(i)])
    ensures HeapOrdered(s, before)
  {
  }

  /** One step of the sift-down: when m is a child of i that no record among i
      and its children comes before, swapping i and m moves the single break in
      heap order down to m's children. */
  lemma SiftDownStep<T>(s: seq<T>, i: nat, m: nat, before: (T, T) -> bool)
    requires 0 < m < |s| && Parent(m) == i && HeapExceptBelow(s, i, before)
    requires !before(s[i], s[m])
    requires forall c :: 0 < c < |s| && Parent(c) == i ==> !before(s[c], s[m])
    ensures HeapExceptBelow(Swap(s, i, m), m, before)
  {
  }

  /** The sift-down's choice: starting from i, the left child is taken when
      the record at i does not come before it, then the right child when the
      record taken so far does not come before it.  No record among i and its
      children comes before the one taken. */
  lemma SiftDownChoice<T(!new)>(s: seq<T>, i: nat, m1: nat, m: nat, before: (T, T) -> bool)
    requires StrictWeakOrder(before)
    requires i < |s|
    requires m1 == if Left(i) < |s| && !before(s[i], s[Left(i)]) then Left(i) else i
    requires m == if Right(i) < |s| && !before(s[m1], s[Right(i)]) then Right(i) else m1
    ensures !before(s[i], s[m])
    ensures forall c :: 0 < c < |s| && Parent(c) == i ==> !before(s[c], s[m])
  {
    NotBeforeTransitive(before, s[i], s[m1], s[m]);
    Asymmetric(before, s[i], s[m]);
    forall c | 0 < c < |s| && Parent(c) == i
      ensures !before(s[c], s[m])
    {
      ParentIsInverse(i, c);
      Asymmetric(before, s[m], s[c]);
      Transitive(before, s[i], s[c], s[m]);
    }
  }

  /** The sift-down stops once no child of i comes before the record at i:
      then the whole sequence is heap-ordered. */
  lemma SiftDownDone<T>(s: seq<T>, i: nat, before: (T, T) -> bool)
    requires HeapExceptBelow(s, i, before)
    requires forall c :: 0 < c < |s| && Parent(c) == i ==> !before(s[c], s[i])
    ensures HeapOrdered(s, before)
  {
  }

  /** In a heap-ordered sequence no record comes before the record at the
      root; the path from k up to the root gives the chain of `!before`. */
  lemma {:induction false} RootFirst<T(!new)>(s: seq<T>, k: nat, before: (T, T) -> bool)
    requires StrictWeakOrder(before)
    requires HeapOrdered(s, before) && k < |s|
    ensures !before(s[k], s[0])
    decreases k
  {
    if k > 0 {
      RootFirst(s, Parent(k), before);
      NotBeforeTransitive(before, s[k], s[Parent(k)], s[0]);
    } else {
      Asymmetric(before, s[0], s[0]);
    }
  }

  /** In a non-empty heap-ordered sequence no record comes before the root. */
  lemma RootIsFirst<T(!new)>(s: seq<T>, before: (T, T) -> bool)
    requires StrictWeakOrder(before)
    requires HeapOrdered(s, before) && 0 < |s|
    ensures forall k :: 0 <= k < |s| ==> !before(s[k], s[0])
    ensures forall e | e in multiset(s) :: !before(e, s[0])
  {
    forall k | 0 <= k < |s|
      ensures !before(s[k], s[0])
    {
      RootFirst(s, k, before);
    }
  }
}
