/** The reader's pending-debug-info queue: a `std::priority_queue` over a vector
    ordered by `std::greater`, i.e. a binary heap whose top is an entry with the
    earliest timestamp. The heap is kept in a sequence indexed as the standard
    library indexes the vector (entry i's parent is entry (i - 1) / 2); the
    sift-up and sift-down here are the textbook ones, so entries of equal
    timestamp may be laid out differently from the standard library's. */
module DebugInfoQueue {
  import opened Base
  import opened DebugInfo

  function Parent(i: nat): nat
    requires i > 0
  {
    (i - 1) / 2
  }

  /** The heap order for `std::greater`: no entry is `>` any of its children. */
  ghost predicate IsMinHeap(h: seq<JITDebugInfo>) {
    forall i :: 0 < i < |h| ==> !Greater(h[Parent(i)], h[i])
  }

  /** The heap order everywhere except between entry k and its parent. */
  ghost predicate IsMinHeapExceptAbove(h: seq<JITDebugInfo>, k: nat) {
    forall i :: 0 < i < |h| && i != k ==> !Greater(h[Parent(i)], h[i])
  }

  /** The heap order everywhere except between entry k and its children. */
  ghost predicate IsMinHeapExceptBelow(h: seq<JITDebugInfo>, k: nat) {
    forall i :: 0 < i < |h| && Parent(i) != k ==> !Greater(h[Parent(i)], h[i])
  }

  /** Entry k's parent is not `>` entry k's children, so k may be moved up or down
      past its parent without breaking the order between the two generations. */
  ghost predicate GrandparentInOrder(h: seq<JITDebugInfo>, k: nat) {
    0 < k < |h| ==>
      forall i :: 0 < i < |h| && Parent(i) == k ==> !Greater(h[Parent(k)], h[i])
  }

  /** `x` is one of the entries of `m` that `std::greater` puts first: no entry
      of `m` has an earlier timestamp. */
  ghost predicate IsEarliest(x: JITDebugInfo, m: multiset<JITDebugInfo>) {
    x in m && forall y | y in m :: !Greater(x, y)
  }

  /** The root of a heap is not later than any entry on the path up from j. */
  lemma {:induction false} RootNotLater(h: seq<JITDebugInfo>, j: nat)
    requires IsMinHeap(h) && j < |h|
    ensures !Greater(h[0], h[j])
    decreases j
  {
    if j > 0 {
      RootNotLater(h, Parent(j));
    }
  }

  /** The root of a non-empty heap is an earliest entry. */
  lemma HeapRootIsEarliest(h: seq<JITDebugInfo>)
    requires IsMinHeap(h) && |h| > 0
    ensures IsEarliest(h[0], multiset(h))
  {
    forall y | y in multiset(h)
      ensures !Greater(h[0], y)
    {
      var j :| 0 <= j < |h| && h[j] == y;
      RootNotLater(h, j);
    }
  }

  /** Exchanging two entries keeps the multiset of entries. */
  function Swap(h: seq<JITDebugInfo>, i: nat, j: nat): (r: seq<JITDebugInfo>)
    requires i < |h| && j < |h|
    ensures |r| == |h| && r[i] == h[j] && r[j] == h[i]
    ensures forall k :: 0 <= k < |h| && k != i && k != j ==> r[k] == h[k]
    ensures multiset(r) == multiset(h)
  {
    h[i := h[j]][j := h[i]]
  }

  lemma ChildrenOf(i: nat, k: nat)
    requires i > 0
    ensures Parent(i) == k <==> i == 2 * k + 1 || i == 2 * k + 2
  {
  }

  /** Appending an entry to a heap leaves only the new entry possibly out of order. */
  lemma PushStart(h: seq<JITDebugInfo>, x: JITDebugInfo)
    requires IsMinHeap(h)
    ensures IsMinHeapExceptAbove(h + [x], |h|) && GrandparentInOrder(h + [x], |h|)
  {
  }

  /** Moving entry k above a parent that is `>` it keeps the sift-up invariant. */
  lemma SiftUpStep(h: seq<JITDebugInfo>, k: nat)
    requires 0 < k < |h|
    requires IsMinHeapExceptAbove(h, k) && GrandparentInOrder(h, k)
    requires Greater(h[Parent(k)], h[k])
    ensures IsMinHeapExceptAbove(Swap(h, Parent(k), k), Parent(k))
    ensures GrandparentInOrder(Swap(h, Parent(k), k), Parent(k))
  {
    // Case split on i: i is k, a child of k, k's sibling, or outside the
    // two swapped positions and their children.
  }

  /** Once entry k is not below a parent that is `>` it, the heap order holds. */
  lemma SiftUpDone(h: seq<JITDebugInfo>, k: nat)
    requires k < |h| && IsMinHeapExceptAbove(h, k)
    requires k > 0 ==> !Greater(h[Parent(k)], h[k])
    ensures IsMinHeap(h)
  {
  }

  /** Moving the last entry of a heap to the root removes the root's entry from
      the multiset and leaves only the root possibly out of order with its children. */
  lemma PopStart(h: seq<JITDebugInfo>)
    requires IsMinHeap(h) && |h| > 0
    ensures var h' := if |h| == 1 then [] else [h[|h| - 1]] + h[1..|h| - 1];
            && multiset(h') == multiset(h) - multiset{h[0]}
            && IsMinHeapExceptBelow(h', 0)
  {
    var n := |h| - 1;
    if n > 0 {
      assert h == [h[0]] + h[1..n] + [h[n]];
      var h' := [h[n]] + h[1..n];
      forall i | 0 < i < |h'| && Parent(i) != 0
        ensures !Greater(h'[Parent(i)], h'[i])
      {
        assert h'[i] == h[i] && h'[Parent(i)] == h[Parent(i)];
      }
    }
  }

  /** The child of k that sifting down compares k with: the right child when the
      left one is `>` it, otherwise the left one. */
  function EarlierChild(h: seq<JITDebugInfo>, k: nat): (c: nat)
    requires 2 * k + 1 < |h|
    ensures 0 < c < |h| && Parent(c) == k
    ensures forall i :: 0 < i < |h| && Parent(i) == k ==> !Greater(h[c], h[i])
  {
    var l := 2 * k + 1;
    forall i | 0 < i < |h| && Parent(i) == k
      ensures i == l || i == l + 1
    {
      ChildrenOf(i, k);
    }
    if l + 1 < |h| && Greater(h[l], h[l + 1]) then l + 1 else l
  }

  /** An entry whose left child would lie past the end has no children. */
  lemma LeafHasNoChildren(h: seq<JITDebugInfo>, k: nat)
    requires 2 * k + 1 >= |h|
    ensures forall i :: 0 < i < |h| ==> Parent(i) != k
  {
  }

  /** Moving entry k below its earlier child c, when k is `>` c, keeps the
      sift-down invariant. */
  lemma SiftDownStep(h: seq<JITDebugInfo>, k: nat, c: nat)
    requires 0 < c < |h| && Parent(c) == k
    requires forall i :: 0 < i < |h| && Parent(i) == k ==> !Greater(h[c], h[i])
    requires Greater(h[k], h[c])
    requires IsMinHeapExceptBelow(h, k) && GrandparentInOrder(h, k)
    ensures IsMinHeapExceptBelow(Swap(h, k, c), c)
    ensures GrandparentInOrder(Swap(h, k, c), c)
  {
    // Case split on i: i is c, c's sibling, k itself, a child of c, or outside
    // the two swapped positions and their children.
  }

  /** Once entry k is not `>` any of its children, the heap order holds. */
  lemma SiftDownDone(h: seq<JITDebugInfo>, k: nat)
    requires IsMinHeapExceptBelow(h, k)
    requires forall i :: 0 < i < |h| && Parent(i) == k ==> !Greater(h[k], h[i])
    ensures IsMinHeap(h)
  {
  }

  class PriorityQueue {
    var heap: seq<JITDebugInfo>

    ghost predicate Valid()
      reads this
    {
      IsMinHeap(heap)
    }

    /** The queued entries, in no particular order. */
    ghost function Contents(): multiset<JITDebugInfo>
      reads this
    {
      multiset(heap)
    }

    constructor ()
      ensures Valid() && Contents() == multiset{}
    {
      heap := [];
    }

    /** `size()` */
    function Size(): (n: nat)
      reads this
      ensures n == |Contents()|
    {
      |heap|
    }

    /** `empty()` */
    predicate Empty()
      reads this
      ensures Empty() <==> Contents() == multiset{}
    {
      |heap| == 0
    }

    /** `top()`: an entry with the earliest timestamp. Which of several entries
        with that timestamp it is depends on the heap's layout. */
    function Top(): (x: JITDebugInfo)
      reads this
      requires Valid() && !Empty()
      ensures IsEarliest(x, Contents())
    {
      HeapRootIsEarliest(heap);
      heap[0]
    }

    /** `push(x)`: append x, then move it up while its parent is `>` it. */
    method Push(x: JITDebugInfo)
      requires Valid()
      modifies this
      ensures Valid() && Contents() == old(Contents()) + multiset{x}
    {
      var h := heap + [x];
      var k := |h| - 1;
      PushStart(heap, x);
      while k > 0 && Greater(h[Parent(k)], h[k])
        invariant 0 <= k < |h|
        invariant multiset(h) == old(Contents()) + multiset{x}
        invariant IsMinHeapExceptAbove(h, k)
        invariant GrandparentInOrder(h, k)
        decreases k
      {
        SiftUpStep(h, k);
        var p := Parent(k);
        h := Swap(h, p, k);
        k := p;
      }
      SiftUpDone(h, k);
      heap := h;
    }

    /** `pop()`: remove the top entry. The last entry takes the root's place and
        moves down, towards its earlier child, while it is `>` that child. */
    method Pop()
      requires Valid() && !Empty()
      modifies this
      ensures Valid() && Contents() == old(Contents()) - multiset{old(Top())}
    {
      var n := |heap| - 1;
      PopStart(heap);
      var h := if n == 0 then [] else [heap[n]] + heap[1..n];
      ghost var rest := multiset(h);
      var k := 0;
      while 2 * k + 1 < |h|
        invariant 0 <= k && (k < |h| || k == 0)
        invariant multiset(h) == rest
        invariant IsMinHeapExceptBelow(h, k)
        invariant GrandparentInOrder(h, k)
        decreases |h| - k
      {
        var c := EarlierChild(h, k);
        if !Greater(h[k], h[c]) {
          SiftDownDone(h, k);
          heap := h;
          return;
        }
        SiftDownStep(h, k, c);
        h := Swap(h, k, c);
        k := c;
      }
      LeafHasNoChildren(h, k);
      SiftDownDone(h, k);
      heap := h;
    }
  }
}
