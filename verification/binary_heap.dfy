/** `BinaryHeap`: a binary heap kept in a Python list `lst`, with its length in
    `size` and the caller's `compare(x, y)` meaning "x belongs above y". The
    node at index `i > 0` hangs under index `(i - 1) // 2`. */
module BinaryHeaps {
  import opened Wrappers
  import opened PyLists
  import opened Orders
  import NaryTrees

  datatype BinaryHeap = BinaryHeap(lst: seq<int>, size: int, compare: (int, int) -> bool)

  /** `size` tracks `len(lst)`. */
  predicate Valid(h: BinaryHeap)
  {
    h.size == |h.lst|
  }

  /** Python's `(i - 1) // 2`. The divisor is positive, so Dafny's Euclidean
      division agrees with Python's floor division, giving -1 at `i == 0`. */
  function Parent(i: int): int
  {
    (i - 1) / 2
  }

  /** No element is `less` than the element it hangs under. */
  ghost predicate HeapOrdered(a: seq<int>, less: (int, int) -> bool)
  {
    forall i :: 0 < i < |a| ==> !less(a[i], a[Parent(i)])
  }

  /** The sift-up state: heap order holds on every edge except the one from
      `hole` to its parent, and the children of `hole` are also in order with
      respect to that parent. */
  ghost predicate OrderedExceptAt(a: seq<int>, hole: int, less: (int, int) -> bool)
  {
    && (forall i :: 0 < i < |a| && i != hole ==> !less(a[i], a[Parent(i)]))
    && (forall i :: 0 < i < |a| && Parent(i) == hole && 0 < hole ==> !less(a[i], a[Parent(hole)]))
  }

  /** The sift-down state: heap order holds on every edge except those from the
      children of `hole` to `hole`, and those children are in order with respect
      to the parent of `hole`. */
  ghost predicate OrderedExceptBelow(a: seq<int>, hole: int, less: (int, int) -> bool)
  {
    && (forall i :: 0 < i < |a| && Parent(i) != hole ==> !less(a[i], a[Parent(i)]))
    && (forall i :: 0 < i < |a| && Parent(i) == hole && 0 < hole ==> !less(a[i], a[Parent(hole)]))
  }

  /** The tuple assignment `lst[i], lst[j] = lst[j], lst[i]`. */
  function Swap(a: seq<int>, i: nat, j: nat): (b: seq<int>)
    requires i < |a| && j < |a|
    ensures |b| == |a| && b[i] == a[j] && b[j] == a[i]
    ensures forall t :: 0 <= t < |a| && t != i && t != j ==> b[t] == a[t]
    ensures multiset(b) == multiset(a)
  {
    a[i := a[j]][j := a[i]]
  }

  /** `__init__`: the heap starts with the single placeholder value 11. */
  function New(compare: (int, int) -> bool): (h: BinaryHeap)
    ensures h.lst == [11] && h.size == 1 && h.compare == compare
    ensures Valid(h) && HeapOrdered(h.lst, compare)
  {
    BinaryHeap([11], 1, compare)
  }

  /** `push(val)`: append, then swap the new element with its parent while
      `compare` puts it above the parent, stopping at the root. On an empty list
      the first parent index is -1, which Python reads as the last element, the
      new element itself; so the loop runs forever there unless
      `compare(val, val)` is false, and that is what the source asks of its
      caller. */
  method Push(h: BinaryHeap, val: int) returns (h': BinaryHeap)
    requires Valid(h)
    requires |h.lst| > 0 || !h.compare(val, val)
    ensures Valid(h') && h'.compare == h.compare
    ensures |h'.lst| == |h.lst| + 1
    ensures multiset(h'.lst) == multiset(h.lst) + multiset{val}
    ensures StrictWeakOrder(h.compare) && HeapOrdered(h.lst, h.compare) ==>
      HeapOrdered(h'.lst, h.compare)
  {
    var less := h.compare;
    ghost var ordered := StrictWeakOrder(less) && HeapOrdered(h.lst, less);
    var a := h.lst + [val];
    var size := h.size + 1;
    var cur := size - 1;
    var par := (cur - 1) / 2;
    if ordered {
      assert OrderedExceptAt(a, cur, less);
    }
    while less(a[cur], At(a, par))
      invariant |a| == size == |h.lst| + 1
      invariant 0 <= cur < |a| && par == Parent(cur)
      invariant cur == 0 ==> |a| == 1 && !less(a[0], a[0])
      invariant multiset(a) == multiset(h.lst) + multiset{val}
      invariant ordered ==> OrderedExceptAt(a, cur, less)
      decreases cur
    {
      if ordered {
        SiftUpStep(a, cur, less);
      }
      a := Swap(a, cur, par);
      cur := par;
      if cur == 0 {
        break;
      }
      par := (cur - 1) / 2;
    }
    h' := h.(lst := a, size := size);
  }

  /** One swap of sift-up moves the hole from `cur` to its parent. */
  lemma SiftUpStep(a: seq<int>, cur: nat, less: (int, int) -> bool)
    requires StrictWeakOrder(less)
    requires 0 < cur < |a|
    requires OrderedExceptAt(a, cur, less)
    requires less(a[cur], a[Parent(cur)])
    ensures OrderedExceptAt(Swap(a, cur, Parent(cur)), Parent(cur), less)
    ensures Parent(cur) == 0 ==> HeapOrdered(Swap(a, cur, Parent(cur)), less)
  {

  }

  /** Sift-up ends with the heap ordered: at the root, or where the element no
      longer belongs above its parent. */
  lemma SiftUpDone(a: seq<int>, cur: nat, less: (int, int) -> bool)
    requires cur < |a|
    requires OrderedExceptAt(a, cur, less)
    requires cur == 0 || !less(a[cur], a[Parent(cur)])
    ensures HeapOrdered(a, less)
  {
  }

  /** The child selection inside the sift-down loop of `pop`: the index among
      `cur` and its in-range children `2*cur+1`, `2*cur+2` that belongs highest,
      preferring `cur`, then the left child, on ties. */
  function PickChild(a: seq<int>, cur: nat, less: (int, int) -> bool): (m: nat)
    ensures m == cur || (m == 2 * cur + 1 && m < |a|) || (m == 2 * cur + 2 && m < |a|)
    ensures StrictWeakOrder(less) && m != cur ==> less(a[m], a[cur])
    ensures StrictWeakOrder(less) && 2 * cur + 1 < |a| ==> !less(a[2 * cur + 1], a[m])
    ensures StrictWeakOrder(less) && 2 * cur + 2 < |a| ==> !less(a[2 * cur + 2], a[m])
  {
    var left := 2 * cur + 1;
    var right := 2 * cur + 2;
    var m := if left < |a| && less(a[left], a[cur]) then left else cur;
    var r := if right < |a| && less(a[right], a[m]) then right else m;
    PickChildFacts(a, cur, left, right, m, r, less);
    r
  }

  lemma PickChildFacts(a: seq<int>, cur: nat, left: nat, right: nat, m: nat, r: nat, less: (int, int) -> bool)
    requires left == 2 * cur + 1 && right == 2 * cur + 2
    requires m == if left < |a| && less(a[left], a[cur]) then left else cur
    requires r == if right < |a| && less(a[right], a[m]) then right else m
    ensures StrictWeakOrder(less) && r != cur ==> less(a[r], a[cur])
    ensures StrictWeakOrder(less) && left < |a| ==> !less(a[left], a[r])
    ensures StrictWeakOrder(less) && right < |a| ==> !less(a[right], a[r])
  {
    if StrictWeakOrder(less) && left < |a| {
      Asymmetric(less, a[left], a[left]);
      if right < |a| {
        Asymmetric(less, a[right], a[right]);
        Transitive(less, a[right], a[left], a[cur]);
        Asymmetric(less, a[right], a[left]);
        Transitive(less, a[left], a[right], a[cur]);
      }
    }
  }

  /** One swap of sift-down moves the hole from `cur` to its chosen child `m`. */
  lemma SiftDownStep(a: seq<int>, cur: nat, m: nat, less: (int, int) -> bool)
    requires StrictWeakOrder(less)
    requires (m == 2 * cur + 1 || m == 2 * cur + 2) && m < |a|
    requires OrderedExceptBelow(a, cur, less)
    requires less(a[m], a[cur])
    requires 2 * cur + 1 < |a| ==> !less(a[2 * cur + 1], a[m])
    requires 2 * cur + 2 < |a| ==> !less(a[2 * cur + 2], a[m])
    ensures OrderedExceptBelow(Swap(a, m, cur), m, less)
  {

  }

  /** Sift-down ends with the heap ordered once no child belongs above `cur`. */
  lemma SiftDownDone(a: seq<int>, cur: nat, less: (int, int) -> bool)
    requires OrderedExceptBelow(a, cur, less)
    requires 2 * cur + 1 < |a| ==> !less(a[2 * cur + 1], a[cur])
    requires 2 * cur + 2 < |a| ==> !less(a[2 * cur + 2], a[cur])
    ensures HeapOrdered(a, less)
  {

  }

  /** Moving the last element to the root and dropping the last slot removes
      exactly one copy of the old root. */
  lemma ReplaceRootWithLast(a: seq<int>)
    requires |a| > 0
    ensures multiset(a[0 := a[|a| - 1]][..|a| - 1]) == multiset(a) - multiset{a[0]}
  {
    var n := |a|;
    if n > 1 {
      assert a == [a[0]] + a[1..n - 1] + [a[n - 1]];
      assert a[0 := a[n - 1]][..n - 1] == [a[n - 1]] + a[1..n - 1];
    }
  }

  /** After the last element replaces the root of an ordered heap, only the
      edges into the root can be out of order. */
  lemma PopStartsOrderedBelowRoot(a: seq<int>, less: (int, int) -> bool)
    requires |a| > 0
    requires HeapOrdered(a, less)
    ensures OrderedExceptBelow(a[0 := a[|a| - 1]][..|a| - 1], 0, less)
  {

  }

  /** Whatever is left after removing the root of an ordered heap does not
      belong above that root. */
  lemma RemainderNotAboveRoot(a: seq<int>, rest: seq<int>, less: (int, int) -> bool)
    requires StrictWeakOrder(less)
    requires |a| > 0 && HeapOrdered(a, less)
    requires multiset(rest) == multiset(a) - multiset{a[0]}
    ensures forall e :: e in rest ==> !less(e, a[0])
  {
    forall e | e in rest
      ensures !less(e, a[0])
    {
      assert e in multiset(rest);
      assert e in multiset(a);
      var i :| 0 <= i < |a| && a[i] == e;
      RootIsExtreme(a, less, i);
    }
  }

  /** In a heap-ordered list nothing belongs above the root. */
  lemma {:induction false} RootIsExtreme(a: seq<int>, less: (int, int) -> bool, i: nat)
    requires StrictWeakOrder(less)
    requires HeapOrdered(a, less)
    requires i < |a|
    ensures !less(a[i], a[0])
    decreases i
  {
    if i == 0 {
      Asymmetric(less, a[0], a[0]);
    } else {
      RootIsExtreme(a, less, Parent(i));
      assert !less(a[i], a[Parent(i)]);
      NotLessTransitive(less, a[i], a[Parent(i)], a[0]);
    }
  }

  /** `pop()`: take the root, move the last element into its place, then swap it
      with its better child until neither child belongs above it. Indexing
      `lst[0]` of an empty list raises IndexError. */
  method Pop(h: BinaryHeap) returns (r: Result<(BinaryHeap, int)>)
    ensures r.Success? <==> |h.lst| > 0
    ensures r.Success? ==>
      && r.value.1 == h.lst[0]
      && r.value.0.compare == h.compare
      && r.value.0.size == h.size - 1
      && (Valid(h) ==> Valid(r.value.0))
      && |r.value.0.lst| == |h.lst| - 1
      && multiset(r.value.0.lst) == multiset(h.lst) - multiset{h.lst[0]}
    ensures r.Success? && StrictWeakOrder(h.compare) && HeapOrdered(h.lst, h.compare) ==>
      && HeapOrdered(r.value.0.lst, h.compare)
      && forall e :: e in r.value.0.lst ==> !h.compare(e, r.value.1)
  {
    if |h.lst| == 0 {
      return Failure(IndexError);
    }
    var less := h.compare;
    ghost var ordered := StrictWeakOrder(less) && HeapOrdered(h.lst, less);
    var a := h.lst;
    var rootVal := a[0];
    a := a[0 := a[|a| - 1]];
    a := a[..|a| - 1];
    ReplaceRootWithLast(h.lst);
    var size := h.size - 1;
    if ordered {
      PopStartsOrderedBelowRoot(h.lst, less);
    }
    a := SiftDown(a, less);
    if ordered {
      RemainderNotAboveRoot(h.lst, a, less);
    }
    r := Success((h.(lst := a, size := size), rootVal));
  }

  /** The loop of `pop` from `cur = 0`: swap the element at `cur` with its
      chosen child until neither child belongs above it. `cur` only moves down,
      so the loop ends. */
  method SiftDown(a0: seq<int>, less: (int, int) -> bool) returns (a: seq<int>)
    ensures |a| == |a0| && multiset(a) == multiset(a0)
    ensures StrictWeakOrder(less) && OrderedExceptBelow(a0, 0, less) ==> HeapOrdered(a, less)
  {
    ghost var ordered := StrictWeakOrder(less) && OrderedExceptBelow(a0, 0, less);
    a := a0;
    var cur := 0;
    while true
      invariant cur <= |a| && (cur < |a| || cur == 0)
      invariant |a| == |a0| && multiset(a) == multiset(a0)
      invariant ordered ==> OrderedExceptBelow(a, cur, less)
      decreases |a| - cur
    {
      var m := PickChild(a, cur, less);
      if m == cur {
        if ordered {
          SiftDownDone(a, cur, less);
        }
        break;
      }
      if ordered {
        SiftDownStep(a, cur, m, less);
      }
      a := Swap(a, m, cur);
      cur := m;
    }
  }

  /** For arity 2 the heap's parent index is the parent the n-ary tree edge list
      gives each vertex, and it is the only one. */
  lemma ParentMatchesTreeEdges(n: nat, j: nat)
    requires 1 <= j < n
    ensures Parent(j) >= 0 && NaryTrees.Edge(Parent(j), j) in NaryTrees.Edges(n, 2)
    ensures forall e :: e in NaryTrees.Edges(n, 2) && e.child == j ==> e.parent == Parent(j)
  {
    NaryTrees.ParentOf(n, 2, j);
  }

  /** A list is heap-ordered exactly when every edge of the binary tree drawn over
      it has its child not belonging above its parent. */
  lemma HeapOrderedOnTreeEdges(a: seq<int>, less: (int, int) -> bool)
    ensures HeapOrdered(a, less) <==>
      forall e :: e in NaryTrees.Edges(|a|, 2) ==> e.child < |a| && !less(a[e.child], a[e.parent])
  {
    var es := NaryTrees.Edges(|a|, 2);
    NaryTrees.ParentPrecedesChild(|a|, 2);
    if HeapOrdered(a, less) {
      forall e | e in es
        ensures e.child < |a| && !less(a[e.child], a[e.parent])
      {
        ParentMatchesTreeEdges(|a|, e.child);
      }
    } else {
      var i :| 0 < i < |a| && less(a[i], a[Parent(i)]);
      ParentMatchesTreeEdges(|a|, i);
    }
  }
}
