/**
 * The order kept by Go's `container/heap` on a slice: every element is not
 * less than its parent. The library itself is not part of this model; its
 * `up` and `down` loops are written out in the Heap module, and this module
 * holds the invariants of those loops and the value-level steps that keep
 * them (the heap's slots are objects; these lemmas are about the sequence of
 * their values).
 */
module HeapOrder {
  import opened Orders

  /**
   * The parent slot of `j`: Go's `(j - 1) / 2`, which is 0 at the root
   * because Go's division truncates toward zero.
   */
  function Parent(j: int): (p: int)
    requires j >= 0
    ensures j == 0 ==> p == 0
    ensures j > 0 ==> 0 <= p < j && (j == 2 * p + 1 || j == 2 * p + 2)
  {
    if j == 0 then 0 else (j - 1) / 2
  }

  /** `s` with the elements at `i` and `j` exchanged. */
  function SwapSeq<T>(s: seq<T>, i: int, j: int): (r: seq<T>)
    requires 0 <= i < |s| && 0 <= j < |s|
    ensures |r| == |s| && r[i] == s[j] && r[j] == s[i]
    ensures forall k :: 0 <= k < |s| && k != i && k != j ==> r[k] == s[k]
  {
    s[i := s[j]][j := s[i]]
  }

  /** Exchanging two elements keeps the multiset of elements. */
  lemma SwapPerm<T>(s: seq<T>, i: int, j: int)
    requires 0 <= i < |s| && 0 <= j < |s|
    ensures multiset(SwapSeq(s, i, j)) == multiset(s)
  {
  }

  /** Cutting off the last element removes exactly that element from the multiset. */
  lemma DropLast<T>(s: seq<T>)
    requires |s| >= 1
    ensures multiset(s[..|s| - 1]) + multiset{s[|s| - 1]} == multiset(s)
  {
    assert s == s[..|s| - 1] + [s[|s| - 1]];
  }

  /** Slot `c` is not less than its parent. */
  ghost predicate Ok<V>(v: seq<V>, lt: (V, V) -> bool, c: int)
    requires 0 <= c < |v|
  {
    c == 0 || !lt(v[c], v[Parent(c)])
  }

  /** Slot `c` is not less than its grandparent. */
  ghost predicate Below<V>(v: seq<V>, lt: (V, V) -> bool, c: int)
    requires 0 <= c < |v|
  {
    !lt(v[c], v[Parent(Parent(c))])
  }

  /** The first `n` slots are heap-ordered. */
  ghost predicate Ordered<V>(v: seq<V>, lt: (V, V) -> bool, n: int)
    requires n <= |v|
  {
    forall c :: 0 <= c < n ==> Ok(v, lt, c)
  }

  /** The heap invariant of `container/heap`: every slot is not less than its parent. */
  ghost predicate HeapOrdered<V>(v: seq<V>, lt: (V, V) -> bool) {
    Ordered(v, lt, |v|)
  }

  /**
   * The invariant of `up` at slot `j`: every slot but `j` is in order, and
   * the children of `j` are not less than `j`'s parent (so `j` may move up).
   */
  ghost predicate UpInv<V>(v: seq<V>, lt: (V, V) -> bool, j: int)
    requires 0 <= j < |v|
  {
    && (forall c :: 0 <= c < |v| && c != j ==> Ok(v, lt, c))
    && (j > 0 ==> forall c :: 0 < c < |v| && Parent(c) == j ==> Below(v, lt, c))
  }

  /**
   * The invariant of `down(h, i0, n)` at slot `i`, over the first `n`
   * slots: every slot is in order except the children of `i` and, while
   * nothing has moved, `i0` itself; and the children of `i` are not less
   * than `i`'s parent.
   */
  ghost predicate DownInv<V>(v: seq<V>, lt: (V, V) -> bool, n: int, i0: int, i: int)
    requires 0 <= i0 <= i && n <= |v|
  {
    && (forall c :: 0 < c < n && Parent(c) != i && (c != i0 || i0 < i) ==> Ok(v, lt, c))
    && (i > 0 ==> forall c :: 0 < c < n && Parent(c) == i ==> Below(v, lt, c))
  }

  /**
   * `j` is the child `down` picks below `i`: the left child, unless the
   * right child exists and is less than it.
   */
  ghost predicate ChosenChild<V>(v: seq<V>, lt: (V, V) -> bool, n: int, i: int, j: int)
    requires 0 <= i && n <= |v|
  {
    && 2 * i + 1 < n
    && if 2 * i + 2 < n && lt(v[2 * i + 2], v[2 * i + 1]) then j == 2 * i + 2 else j == 2 * i + 1
  }

  /** In a strict weak order `lt(x, y)` excludes `lt(y, x)`. */
  lemma Asymmetric<V(!new)>(lt: (V, V) -> bool, x: V, y: V)
    requires StrictWeakOrder(lt) && lt(x, y)
    ensures !lt(y, x)
  {
    assert !lt(x, x);
  }

  /** "Not less than" is transitive in a strict weak order. */
  lemma NotLessThrough<V(!new)>(lt: (V, V) -> bool, x: V, y: V, z: V)
    requires StrictWeakOrder(lt)
    requires !lt(x, y) && !lt(y, z)
    ensures !lt(x, z)
  {
  }

  /** `x` is not less than `y` when `x` is not less than `z` and `y` is less than `z`. */
  lemma NotLessBelow<V(!new)>(lt: (V, V) -> bool, x: V, y: V, z: V)
    requires StrictWeakOrder(lt)
    requires !lt(x, z) && lt(y, z)
    ensures !lt(x, y)
  {
    assert lt(x, y) ==> lt(x, z);
  }

  /** The root of a heap-ordered sequence is not greater than any element. */
  lemma {:induction false} RootMinimal<V(!new)>(v: seq<V>, lt: (V, V) -> bool, k: int)
    requires StrictWeakOrder(lt) && HeapOrdered(v, lt) && 0 <= k < |v|
    ensures !lt(v[k], v[0])
    decreases k
  {
    if k > 0 {
      assert Ok(v, lt, k);
      RootMinimal(v, lt, Parent(k));
      NotLessThrough(lt, v[k], v[Parent(k)], v[0]);
    }
  }

  /** No element of a heap-ordered sequence is less than its root. */
  lemma RootIsMinimum<V(!new)>(v: seq<V>, lt: (V, V) -> bool)
    requires StrictWeakOrder(lt) && HeapOrdered(v, lt)
    ensures forall k :: 0 <= k < |v| ==> !lt(v[k], v[0])
    ensures forall y :: y in multiset(v) ==> !lt(y, v[0])
  {
    forall k | 0 <= k < |v| ensures !lt(v[k], v[0]) {
      RootMinimal(v, lt, k);
    }
  }

  /** Appending to a heap leaves only the new last slot to move up. */
  lemma PushStart<V>(v: seq<V>, lt: (V, V) -> bool, x: V)
    requires HeapOrdered(v, lt)
    ensures UpInv(v + [x], lt, |v|)
  {
    var w := v + [x];
    forall c | 0 <= c < |w| && c != |v| ensures Ok(w, lt, c) {
      assert Ok(v, lt, c);
    }
  }

  /** One step of `up`: exchanging `j` with its smaller parent moves the invariant to the parent. */
  lemma UpStep<V(!new)>(v: seq<V>, lt: (V, V) -> bool, j: int)
    requires StrictWeakOrder(lt) && 0 < j < |v| && UpInv(v, lt, j)
    requires lt(v[j], v[Parent(j)])
    ensures UpInv(SwapSeq(v, Parent(j), j), lt, Parent(j))
  {
    var p := Parent(j);
    var w := SwapSeq(v, p, j);
    forall c | 0 <= c < |w| && c != p ensures Ok(w, lt, c) {
      if c == 0 {
      } else if c == j {
        Asymmetric(lt, v[j], v[p]);
      } else if Parent(c) == p {
        assert Ok(v, lt, c);
        NotLessBelow(lt, v[c], v[j], v[p]);
      } else if Parent(c) == j {
        assert Below(v, lt, c);
      } else {
        assert Ok(v, lt, c);
      }
    }
    if p > 0 {
      forall c | 0 < c < |w| && Parent(c) == p ensures Below(w, lt, c) {
        assert Ok(v, lt, p);
        if c != j {
          assert Ok(v, lt, c);
          NotLessThrough(lt, v[c], v[p], v[Parent(p)]);
        }
      }
    }
  }

  /** `up` stops at the root or below a parent that is not greater: the heap is in order. */
  lemma UpDone<V>(v: seq<V>, lt: (V, V) -> bool, j: int)
    requires 0 <= j < |v| && UpInv(v, lt, j)
    requires j == 0 || !lt(v[j], v[Parent(j)])
    ensures HeapOrdered(v, lt)
  {
    assert Ok(v, lt, j);
  }

  /**
   * Changing the value at slot `i` of a heap (and possibly dropping slots
   * after the end of the new sequence) leaves `down` to start at `i`.
   */
  lemma FixStart<V(!new)>(v: seq<V>, w: seq<V>, lt: (V, V) -> bool, i: int)
    requires StrictWeakOrder(lt) && HeapOrdered(v, lt)
    requires 0 <= i < |w| <= |v|
    requires forall k :: 0 <= k < |w| && k != i ==> w[k] == v[k]
    ensures DownInv(w, lt, |w|, i, i)
  {
    forall c | 0 < c < |w| && Parent(c) != i && c != i ensures Ok(w, lt, c) {
      assert Ok(v, lt, c);
    }
    if i > 0 {
      forall c | 0 < c < |w| && Parent(c) == i ensures Below(w, lt, c) {
        assert Ok(v, lt, c) && Ok(v, lt, i);
        NotLessThrough(lt, v[c], v[i], v[Parent(i)]);
      }
    }
  }

  /** Exchanging the root with the last slot of a heap leaves `down` to start at the root of the rest. */
  lemma PopStart<V>(v: seq<V>, lt: (V, V) -> bool)
    requires HeapOrdered(v, lt) && |v| >= 1
    ensures DownInv(SwapSeq(v, 0, |v| - 1), lt, |v| - 1, 0, 0)
  {
    var w := SwapSeq(v, 0, |v| - 1);
    forall c | 0 < c < |v| - 1 && Parent(c) != 0 ensures Ok(w, lt, c) {
      assert Ok(v, lt, c);
    }
  }

  /** One step of `down`: exchanging `i` with its chosen, smaller child moves the invariant to the child. */
  lemma DownStep<V(!new)>(v: seq<V>, lt: (V, V) -> bool, n: int, i0: int, i: int, j: int)
    requires StrictWeakOrder(lt) && 0 <= i0 <= i && n <= |v|
    requires DownInv(v, lt, n, i0, i) && ChosenChild(v, lt, n, i, j)
    requires lt(v[j], v[i])
    ensures DownInv(SwapSeq(v, i, j), lt, n, i0, j)
  {
    var w := SwapSeq(v, i, j);
    forall c | 0 < c < n && Parent(c) != j && (c != i0 || i0 < j) ensures Ok(w, lt, c) {
      if c == j {
        Asymmetric(lt, v[j], v[i]);
      } else if Parent(c) == i {
        if j == 2 * i + 2 {
          Asymmetric(lt, v[j], v[c]);
        }
      } else if c == i {
        assert Below(v, lt, j);
      } else {
        assert Ok(v, lt, c);
      }
    }
    forall c | 0 < c < n && Parent(c) == j ensures Below(w, lt, c) {
      assert Ok(v, lt, c);
    }
  }

  /**
   * `down` stops when `i` has no child or its chosen child is not less: the
   * first `n` slots are in order if anything moved (or `down` started at
   * the root), and otherwise only `i0`'s place against its parent is open.
   */
  lemma DownDone<V(!new)>(v: seq<V>, lt: (V, V) -> bool, n: int, i0: int, i: int, j: int)
    requires StrictWeakOrder(lt) && 0 <= i0 <= i && n <= |v|
    requires DownInv(v, lt, n, i0, i)
    requires 2 * i + 1 >= n || (ChosenChild(v, lt, n, i, j) && !lt(v[j], v[i]))
    ensures i0 < i || i0 == 0 ==> Ordered(v, lt, n)
    ensures i0 == i && i0 < n == |v| ==> UpInv(v, lt, i0)
  {
    forall c | 0 < c < n && Parent(c) == i ensures Ok(v, lt, c) {
      if c != j {
        if c == 2 * i + 1 {
          Asymmetric(lt, v[j], v[c]);
        }
        NotLessThrough(lt, v[c], v[j], v[i]);
      }
    }
  }

  /** A sequence whose first `n` slots are in order has a heap-ordered prefix of length `n`. */
  lemma OrderedPrefix<V>(v: seq<V>, lt: (V, V) -> bool, n: int)
    requires 0 <= n <= |v| && Ordered(v, lt, n)
    ensures HeapOrdered(v[..n], lt)
  {
    forall c | 0 <= c < n ensures Ok(v[..n], lt, c) {
      assert Ok(v, lt, c);
    }
  }
}
