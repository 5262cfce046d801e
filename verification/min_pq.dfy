/**
 A 1-indexed, array-backed binary min-heap, modelled as a value.

 `pq` is the backing array: slot 0 is never used, slots 1..n hold the live
 keys and every other slot is null (`None`). The ordering of keys is given by
 `rank`, which stands in for `Key.compareTo`: `a.compareTo(b) > 0` is
 `rank(a) - rank(b) > 0`.
 */
module MinPQ {
  import opened Results

  /** The `NoSuchElementException` thrown on an empty queue. */
  datatype PQError = Underflow

  datatype Heap<K> = Heap(pq: seq<Option<K>>, n: nat)

  /** The array layout `isMinHeap` checks before the order: the count fits the
      array, slot 0 is null, slots 1..n are non-null and the rest are null. */
  ghost predicate Shaped<K>(h: Heap<K>) {
    && h.n < |h.pq|
    && h.pq[0].None?
    && (forall i :: 1 <= i <= h.n ==> h.pq[i].Some?)
    && (forall i :: h.n < i < |h.pq| ==> h.pq[i].None?)
  }

  /** The rank of the live key in slot `i`. */
  ghost function RankAt<K>(h: Heap<K>, rank: K -> int, i: int): int
    requires Shaped(h) && 1 <= i <= h.n
  {
    rank(h.pq[i].value)
  }

  /** No parent ranks above its child. */
  ghost predicate HeapOrdered<K>(h: Heap<K>, rank: K -> int)
    requires Shaped(h)
  {
    forall i :: 2 <= i <= h.n ==> RankAt(h, rank, i / 2) <= RankAt(h, rank, i)
  }

  /** The representation invariant that holds after every public operation. */
  ghost predicate Valid<K>(h: Heap<K>, rank: K -> int) {
    Shaped(h) && HeapOrdered(h, rank)
  }

  /** The live keys, in array order. */
  ghost function Keys<K>(h: Heap<K>): (ks: seq<K>)
    requires Shaped(h)
    ensures |ks| == h.n
    ensures forall i :: 0 <= i < h.n ==> ks[i] == h.pq[i + 1].value
  {
    seq(h.n, i requires 0 <= i < h.n => h.pq[i + 1].value)
  }

  /** The abstract view of the queue: the multiset of its keys. */
  ghost function Contents<K>(h: Heap<K>): multiset<K>
    requires Shaped(h)
  {
    multiset(Keys(h))
  }

  /** `x` ranks at or below every element of `m`. */
  ghost predicate IsLeast<K>(rank: K -> int, x: K, m: multiset<K>) {
    forall y :: y in m ==> rank(x) <= rank(y)
  }

  /** The queue built by `new MinPQ()`: an array of two null slots. */
  function Empty<K>(): (h: Heap<K>)
    ensures Shaped(h) && |h.pq| == 2
    ensures Contents(h) == multiset{}
  {
    Heap([None, None], 0)
  }

  /** `size()`: the number of keys held. */
  function Size<K>(h: Heap<K>): (r: nat)
    requires Shaped(h)
    ensures r == |Contents(h)|
  {
    h.n
  }

  /** `isEmpty()`. */
  function IsEmpty<K>(h: Heap<K>): (r: bool)
    requires Shaped(h)
    ensures r <==> Contents(h) == multiset{}
  {
    h.n == 0
  }

  /** `greater(i, j)`: the key in slot `i` compares above the key in slot `j`. */
  function Greater<K>(h: Heap<K>, rank: K -> int, i: int, j: int): (r: bool)
    requires Shaped(h) && 1 <= i <= h.n && 1 <= j <= h.n
    ensures r <==> RankAt(h, rank, j) < RankAt(h, rank, i)
  {
    rank(h.pq[i].value) - rank(h.pq[j].value) > 0
  }

  /** `exch(i, j)`: swaps two slots and touches nothing else. */
  function Exch<T>(s: seq<T>, i: int, j: int): (t: seq<T>)
    requires 0 <= i < |s| && 0 <= j < |s|
    ensures |t| == |s| && t[i] == s[j] && t[j] == s[i]
    ensures forall k :: 0 <= k < |s| && k != i && k != j ==> t[k] == s[k]
    ensures multiset(t) == multiset(s)
  {
    s[i := s[j]][j := s[i]]
  }

  /** Exchanging two live slots keeps the layout and the multiset of keys. */
  lemma ExchContents<K>(h: Heap<K>, i: int, j: int)
    requires Shaped(h) && 1 <= i <= h.n && 1 <= j <= h.n
    ensures Shaped(h.(pq := Exch(h.pq, i, j)))
    ensures Keys(h.(pq := Exch(h.pq, i, j))) == Exch(Keys(h), i - 1, j - 1)
    ensures Contents(h.(pq := Exch(h.pq, i, j))) == Contents(h)
  {
    var g := h.(pq := Exch(h.pq, i, j));
    assert Keys(g) == Exch(Keys(h), i - 1, j - 1);
  }

  /** `resize(capacity)`: a fresh array of the given length holding slots 1..n. */
  function Resize<K>(h: Heap<K>, capacity: int): (h': Heap<K>)
    requires Shaped(h) && h.n < capacity
    ensures Shaped(h') && h'.n == h.n && |h'.pq| == capacity
    ensures forall i :: 1 <= i <= h.n ==> h'.pq[i] == h.pq[i]
    ensures Keys(h') == Keys(h)
  {
    Heap(seq(capacity, i requires 0 <= i < capacity => if 1 <= i <= h.n then h.pq[i] else None), h.n)
  }

  /** Heap order holds everywhere except possibly between `k` and its parent,
      and `k`'s parent ranks no higher than `k`'s children. */
  ghost predicate OrderedExceptUp<K>(h: Heap<K>, rank: K -> int, k: int)
    requires Shaped(h)
  {
    && (forall i :: 2 <= i <= h.n && i != k ==> RankAt(h, rank, i / 2) <= RankAt(h, rank, i))
    && (forall i :: 2 <= i <= h.n && i / 2 == k && 2 <= k ==> RankAt(h, rank, k / 2) <= RankAt(h, rank, i))
  }

  /** Heap order holds everywhere except possibly between `k` and its children,
      and `k`'s parent ranks no higher than `k`'s children. */
  ghost predicate OrderedExceptDown<K>(h: Heap<K>, rank: K -> int, k: int)
    requires Shaped(h)
  {
    && (forall i :: 2 <= i <= h.n && i / 2 != k ==> RankAt(h, rank, i / 2) <= RankAt(h, rank, i))
    && (forall i :: 2 <= i <= h.n && i / 2 == k && 2 <= k ==> RankAt(h, rank, k / 2) <= RankAt(h, rank, i))
  }

  /** `swim(k)`: moves the key at `k` up while its parent is greater. */
  method Swim<K>(h: Heap<K>, rank: K -> int, k0: int) returns (h': Heap<K>)
    requires Shaped(h) && 1 <= k0 <= h.n && OrderedExceptUp(h, rank, k0)
    ensures Shaped(h') && HeapOrdered(h', rank)
    ensures h'.n == h.n && |h'.pq| == |h.pq|
    ensures Contents(h') == Contents(h)
  {
    h' := h;
    var k := k0;
    while k > 1 && Greater(h', rank, k / 2, k)
      invariant Shaped(h') && h'.n == h.n && |h'.pq| == |h.pq|
      invariant 1 <= k <= h.n
      invariant OrderedExceptUp(h', rank, k)
      invariant Contents(h') == Contents(h)
      decreases k
    {
      SwimStep(h', rank, k);
      ExchContents(h', k / 2, k);
      h' := h'.(pq := Exch(h'.pq, k / 2, k));
      k := k / 2;
    }
    SwimSettled(h', rank, k);
  }

  /** One step of `swim`: swapping `k` with its parent, which ranks above it,
      moves the only possible disorder up to the parent. */
  lemma SwimStep<K>(h: Heap<K>, rank: K -> int, k: int)
    requires Shaped(h) && 2 <= k <= h.n && OrderedExceptUp(h, rank, k)
    requires RankAt(h, rank, k) < RankAt(h, rank, k / 2)
    ensures Shaped(h.(pq := Exch(h.pq, k / 2, k)))
    ensures OrderedExceptUp(h.(pq := Exch(h.pq, k / 2, k)), rank, k / 2)
  {
    ExchContents(h, k / 2, k);
    SwimStepPairs(h, rank, k);
    SwimStepGrandparent(h, rank, k);
  }

  /** After the swap, every pair except the parent's own link upward is in
      order. */
  lemma SwimStepPairs<K>(h: Heap<K>, rank: K -> int, k: int)
    requires Shaped(h) && 2 <= k <= h.n && OrderedExceptUp(h, rank, k)
    requires RankAt(h, rank, k) < RankAt(h, rank, k / 2)
    requires Shaped(h.(pq := Exch(h.pq, k / 2, k)))
    ensures forall i :: 2 <= i <= h.n && i != k / 2 ==>
      RankAt(h.(pq := Exch(h.pq, k / 2, k)), rank, i / 2) <= RankAt(h.(pq := Exch(h.pq, k / 2, k)), rank, i)
  {
    var g := h.(pq := Exch(h.pq, k / 2, k));
    var p := k / 2;
    forall i | 2 <= i <= g.n && i != p
      ensures RankAt(g, rank, i / 2) <= RankAt(g, rank, i)
    {
      if i == k {
      } else if i / 2 == k {
        assert RankAt(h, rank, k / 2) <= RankAt(h, rank, i);
      } else if i / 2 == p {
        assert RankAt(h, rank, p) <= RankAt(h, rank, i);
      } else {
        assert RankAt(h, rank, i / 2) <= RankAt(h, rank, i);
      }
    }
  }

  /** After the swap, the parent's parent ranks no higher than the parent's
      children. */
  lemma SwimStepGrandparent<K>(h: Heap<K>, rank: K -> int, k: int)
    requires Shaped(h) && 2 <= k <= h.n && OrderedExceptUp(h, rank, k)
    requires RankAt(h, rank, k) < RankAt(h, rank, k / 2)
    requires Shaped(h.(pq := Exch(h.pq, k / 2, k)))
    ensures forall i :: 2 <= i <= h.n && i / 2 == k / 2 && 2 <= k / 2 ==>
      RankAt(h.(pq := Exch(h.pq, k / 2, k)), rank, k / 2 / 2) <= RankAt(h.(pq := Exch(h.pq, k / 2, k)), rank, i)
  {
    var g := h.(pq := Exch(h.pq, k / 2, k));
    var p := k / 2;
    forall i | 2 <= i <= g.n && i / 2 == p && 2 <= p
      ensures RankAt(g, rank, p / 2) <= RankAt(g, rank, i)
    {
      assert RankAt(h, rank, p / 2) <= RankAt(h, rank, p);
      if i != k {
        assert RankAt(h, rank, p) <= RankAt(h, rank, i);
      }
    }
  }

  /** `swim` stops at the root or below a parent that is not greater: the heap
      is then fully ordered. */
  lemma SwimSettled<K>(h: Heap<K>, rank: K -> int, k: int)
    requires Shaped(h) && 1 <= k <= h.n && OrderedExceptUp(h, rank, k)
    requires k > 1 ==> RankAt(h, rank, k / 2) <= RankAt(h, rank, k)
    ensures HeapOrdered(h, rank)
  {
  }

  /** `sink(k)`: moves the key at `k` down, swapping with its smaller child,
      until it is not greater than that child. */
  method Sink<K>(h: Heap<K>, rank: K -> int, k0: int) returns (h': Heap<K>)
    requires Shaped(h) && 1 <= k0 && OrderedExceptDown(h, rank, k0)
    ensures Shaped(h') && HeapOrdered(h', rank)
    ensures h'.n == h.n && |h'.pq| == |h.pq|
    ensures Contents(h') == Contents(h)
  {
    h' := h;
    var k := k0;
    while 2 * k <= h'.n
      invariant Shaped(h') && h'.n == h.n && |h'.pq| == |h.pq|
      invariant 1 <= k
      invariant OrderedExceptDown(h', rank, k)
      invariant Contents(h') == Contents(h)
      decreases h'.n - k
    {
      var j := SmallerChild(h', rank, k);
      if !Greater(h', rank, k, j) {
        SinkSettled(h', rank, k, j);
        break;
      }
      SinkStep(h', rank, k, j);
      ExchContents(h', k, j);
      h' := h'.(pq := Exch(h'.pq, k, j));
      k := j;
    }
    if h'.n < 2 * k {
      SinkBottom(h', rank, k);
    }
  }

  /** The child `sink` compares `k` with: the right one only when it ranks
      strictly below the left one. */
  method SmallerChild<K>(h: Heap<K>, rank: K -> int, k: int) returns (j: int)
    requires Shaped(h) && 1 <= k && 2 * k <= h.n
    ensures (j == 2 * k || j == 2 * k + 1) && j <= h.n
    ensures j == 2 * k + 1 ==> RankAt(h, rank, j) < RankAt(h, rank, 2 * k)
    ensures j == 2 * k && j < h.n ==> RankAt(h, rank, j) <= RankAt(h, rank, j + 1)
  {
    j := 2 * k;
    if j < h.n && Greater(h, rank, j, j + 1) {
      j := j + 1;
    }
  }

  /** `sink` stops when `k` has no child: the heap is then fully ordered. */
  lemma SinkBottom<K>(h: Heap<K>, rank: K -> int, k: int)
    requires Shaped(h) && 1 <= k && h.n < 2 * k && OrderedExceptDown(h, rank, k)
    ensures HeapOrdered(h, rank)
  {
  }

  /** One step of `sink`: swapping `k` with its smaller child `j`, which ranks
      below it, moves the only possible disorder down to `j`. */
  lemma SinkStep<K>(h: Heap<K>, rank: K -> int, k: int, j: int)
    requires Shaped(h) && 1 <= k && OrderedExceptDown(h, rank, k)
    requires (j == 2 * k || j == 2 * k + 1) && j <= h.n
    requires j == 2 * k + 1 ==> RankAt(h, rank, j) < RankAt(h, rank, 2 * k)
    requires j == 2 * k && j < h.n ==> RankAt(h, rank, j) <= RankAt(h, rank, j + 1)
    requires RankAt(h, rank, j) < RankAt(h, rank, k)
    ensures Shaped(h.(pq := Exch(h.pq, k, j)))
    ensures OrderedExceptDown(h.(pq := Exch(h.pq, k, j)), rank, j)
  {
    ExchContents(h, k, j);
    SinkStepAbove(h, rank, k, j);
    SinkStepBelow(h, rank, k, j);
  }

  /** After the swap, every pair whose parent is not `j` is in order. */
  lemma SinkStepAbove<K>(h: Heap<K>, rank: K -> int, k: int, j: int)
    requires Shaped(h) && 1 <= k && OrderedExceptDown(h, rank, k)
    requires (j == 2 * k || j == 2 * k + 1) && j <= h.n
    requires j == 2 * k + 1 ==> RankAt(h, rank, j) < RankAt(h, rank, 2 * k)
    requires j == 2 * k && j < h.n ==> RankAt(h, rank, j) <= RankAt(h, rank, j + 1)
    requires RankAt(h, rank, j) < RankAt(h, rank, k)
    requires Shaped(h.(pq := Exch(h.pq, k, j)))
    ensures forall i :: 2 <= i <= h.n && i / 2 != j ==>
      RankAt(h.(pq := Exch(h.pq, k, j)), rank, i / 2) <= RankAt(h.(pq := Exch(h.pq, k, j)), rank, i)
  {
    var g := h.(pq := Exch(h.pq, k, j));
    forall i | 2 <= i <= g.n && i / 2 != j
      ensures RankAt(g, rank, i / 2) <= RankAt(g, rank, i)
    {
      if i == j {
      } else if i / 2 == k {
      } else if i == k {
        assert RankAt(h, rank, k / 2) <= RankAt(h, rank, j);
      } else {
        assert RankAt(h, rank, i / 2) <= RankAt(h, rank, i);
      }
    }
  }

  /** After the swap, `j`'s parent ranks no higher than `j`'s children. */
  lemma SinkStepBelow<K>(h: Heap<K>, rank: K -> int, k: int, j: int)
    requires Shaped(h) && 1 <= k && OrderedExceptDown(h, rank, k)
    requires (j == 2 * k || j == 2 * k + 1) && j <= h.n
    requires Shaped(h.(pq := Exch(h.pq, k, j)))
    ensures forall i :: 2 <= i <= h.n && i / 2 == j ==>
      RankAt(h.(pq := Exch(h.pq, k, j)), rank, j / 2) <= RankAt(h.(pq := Exch(h.pq, k, j)), rank, i)
  {
    var g := h.(pq := Exch(h.pq, k, j));
    forall i | 2 <= i <= g.n && i / 2 == j
      ensures RankAt(g, rank, j / 2) <= RankAt(g, rank, i)
    {
      assert RankAt(h, rank, i / 2) <= RankAt(h, rank, i);
    }
  }

  /** `sink` stops when `k` is not greater than its smaller child `j`: the heap
      is then fully ordered. */
  lemma SinkSettled<K>(h: Heap<K>, rank: K -> int, k: int, j: int)
    requires Shaped(h) && 1 <= k && OrderedExceptDown(h, rank, k)
    requires (j == 2 * k || j == 2 * k + 1) && j <= h.n
    requires j == 2 * k + 1 ==> RankAt(h, rank, j) < RankAt(h, rank, 2 * k)
    requires j == 2 * k && j < h.n ==> RankAt(h, rank, j) <= RankAt(h, rank, j + 1)
    requires RankAt(h, rank, k) <= RankAt(h, rank, j)
    ensures HeapOrdered(h, rank)
  {
    forall i | 2 <= i <= h.n
      ensures RankAt(h, rank, i / 2) <= RankAt(h, rank, i)
    {
      if i / 2 == k {
      }
    }
  }

  /** `insert(key)`: grows a full array to twice its length, appends `key`
      and swims it up. */
  method Insert<K>(h: Heap<K>, rank: K -> int, key: K) returns (h': Heap<K>)
    requires Valid(h, rank)
    ensures Valid(h', rank)
    ensures h'.n == h.n + 1
    ensures Contents(h') == Contents(h) + multiset{key}
    ensures |h'.pq| == (if h.n == |h.pq| - 1 then 2 * |h.pq| else |h.pq|)
  {
    var g := h;
    if g.n == |g.pq| - 1 {
      g := Resize(g, 2 * |g.pq|);
    }
    g := Heap(g.pq[g.n + 1 := Some(key)], g.n + 1);
    assert Keys(g) == Keys(h) + [key];
    h' := Swim(g, rank, g.n);
  }

  /** The key in slot 1 ranks at or below every key of a valid heap. */
  lemma {:induction false} RootBelow<K>(h: Heap<K>, rank: K -> int, i: int)
    requires Valid(h, rank) && 1 <= i <= h.n
    ensures RankAt(h, rank, 1) <= RankAt(h, rank, i)
    decreases i
  {
    if i > 1 {
      RootBelow(h, rank, i / 2);
    }
  }

  lemma RootIsLeast<K>(h: Heap<K>, rank: K -> int)
    requires Valid(h, rank) && h.n > 0
    ensures h.pq[1].value in Contents(h)
    ensures IsLeast(rank, h.pq[1].value, Contents(h))
  {
    assert Keys(h)[0] == h.pq[1].value;
    forall y | y in Contents(h)
      ensures rank(h.pq[1].value) <= rank(y)
    {
      var i :| 0 <= i < h.n && Keys(h)[i] == y;
      RootBelow(h, rank, i + 1);
    }
  }

  /** `min()`: the smallest key, or `Underflow` on an empty queue. */
  function Min<K>(h: Heap<K>, rank: K -> int): (r: Result<K, PQError>)
    requires Valid(h, rank)
    ensures r.Failure? <==> Contents(h) == multiset{}
    ensures r.Failure? ==> r.error == Underflow
    ensures r.Success? ==> r.value in Contents(h) && IsLeast(rank, r.value, Contents(h))
  {
    if h.n == 0 then Failure(Underflow)
    else
      RootIsLeast(h, rank);
      Success(h.pq[1].value)
  }

  /** Moving the last key into slot 1 and nulling the vacated slot leaves one
      key fewer and disorder only below slot 1. */
  lemma RemoveLast<K>(h: Heap<K>, rank: K -> int)
    requires Valid(h, rank) && h.n > 0
    ensures Shaped(Heap(Exch(h.pq, 1, h.n)[h.n := None], h.n - 1))
    ensures OrderedExceptDown(Heap(Exch(h.pq, 1, h.n)[h.n := None], h.n - 1), rank, 1)
    ensures Contents(h) == Contents(Heap(Exch(h.pq, 1, h.n)[h.n := None], h.n - 1)) + multiset{h.pq[1].value}
  {
    RemoveLastContents(h);
    RemoveLastOrder(h, rank);
  }

  lemma RemoveLastContents<K>(h: Heap<K>)
    requires Shaped(h) && h.n > 0
    ensures Shaped(Heap(Exch(h.pq, 1, h.n)[h.n := None], h.n - 1))
    ensures Contents(h) == Contents(Heap(Exch(h.pq, 1, h.n)[h.n := None], h.n - 1)) + multiset{h.pq[1].value}
  {
    ExchContents(h, 1, h.n);
    var e := h.(pq := Exch(h.pq, 1, h.n));
    var g := Heap(e.pq[h.n := None], h.n - 1);
    assert Keys(g) == Keys(e)[..h.n - 1];
    assert Keys(e) == Keys(g) + [h.pq[1].value];
  }

  lemma RemoveLastOrder<K>(h: Heap<K>, rank: K -> int)
    requires Valid(h, rank) && h.n > 0
    requires Shaped(Heap(Exch(h.pq, 1, h.n)[h.n := None], h.n - 1))
    ensures OrderedExceptDown(Heap(Exch(h.pq, 1, h.n)[h.n := None], h.n - 1), rank, 1)
  {
    var g := Heap(Exch(h.pq, 1, h.n)[h.n := None], h.n - 1);
    forall i | 2 <= i <= g.n && i / 2 != 1
      ensures RankAt(g, rank, i / 2) <= RankAt(g, rank, i)
    {
      assert RankAt(h, rank, i / 2) <= RankAt(h, rank, i);
    }
  }

  /** `delMin()`: removes and returns a smallest key; swaps the last key into
      slot 1, nulls the vacated slot, sinks, and halves an array that has
      fallen to a quarter full. */
  method DelMin<K>(h: Heap<K>, rank: K -> int) returns (r: Result<K, PQError>, h': Heap<K>)
    requires Valid(h, rank)
    ensures Valid(h', rank)
    ensures h.n == 0 ==> r == Failure(Underflow) && h' == h
    ensures h.n > 0 ==> r.Success? && h'.n == h.n - 1
    ensures r.Success? ==> Contents(h) == Contents(h') + multiset{r.value}
    ensures r.Success? ==> IsLeast(rank, r.value, Contents(h))
    ensures h.n > 0 ==> |h'.pq| == (if h'.n > 0 && h'.n == |h.pq| / 4 then |h.pq| / 2 else |h.pq|)
  {
    if h.n == 0 {
      return Failure(Underflow), h;
    }
    var min := h.pq[1].value;
    RootIsLeast(h, rank);
    var g := Heap(Exch(h.pq, 1, h.n)[h.n := None], h.n - 1);
    RemoveLast(h, rank);
    g := Sink(g, rank, 1);
    if g.n > 0 && g.n == |g.pq| / 4 {
      g := Resize(g, |g.pq| / 2);
    }
    return Success(min), g;
  }

  /** `copyMinPQ()`: a new queue built by inserting every live key, or
      `Underflow` when this queue is empty. */
  method CopyMinPQ<K>(h: Heap<K>, rank: K -> int) returns (r: Result<Heap<K>, PQError>)
    requires Valid(h, rank)
    ensures r.Failure? <==> h.n == 0
    ensures r.Failure? ==> r.error == Underflow
    ensures r.Success? ==> Valid(r.value, rank) && r.value.n == h.n && Contents(r.value) == Contents(h)
  {
    if h.n == 0 {
      return Failure(Underflow);
    }
    var copy: Heap<K> := Empty();
    var i := 1;
    while i <= h.n
      invariant 1 <= i <= h.n + 1
      invariant Valid(copy, rank) && copy.n == i - 1
      invariant Contents(copy) == multiset(Keys(h)[..i - 1])
    {
      assert Keys(h)[..i] == Keys(h)[..i - 1] + [h.pq[i].value];
      copy := Insert(copy, rank, h.pq[i].value);
      i := i + 1;
    }
    assert Keys(h)[..h.n] == Keys(h);
    return Success(copy);
  }

  /** `s` is in non-decreasing rank order. */
  ghost predicate SortedByRank<K>(rank: K -> int, s: seq<K>) {
    forall i, j :: 0 <= i < j < |s| ==> rank(s[i]) <= rank(s[j])
  }

  /** Every element of `s` ranks at or below every element of `m`. */
  ghost predicate AllBelow<K>(rank: K -> int, s: seq<K>, m: multiset<K>) {
    forall i, y :: 0 <= i < |s| && y in m ==> rank(s[i]) <= rank(y)
  }

  /** Appending the least of the remaining keys keeps the drained prefix sorted
      and below what is left. */
  lemma DrainStep<K>(rank: K -> int, out: seq<K>, x: K, before: multiset<K>, after: multiset<K>)
    requires SortedByRank(rank, out) && AllBelow(rank, out, before)
    requires before == after + multiset{x} && IsLeast(rank, x, before)
    ensures SortedByRank(rank, out + [x]) && AllBelow(rank, out + [x], after)
  {
    assert x in before;
  }

  /** Emptying a queue with repeated `delMin` hands back all its keys in
      non-decreasing order. */
  method Drain<K>(h: Heap<K>, rank: K -> int) returns (out: seq<K>)
    requires Valid(h, rank)
    ensures multiset(out) == Contents(h)
    ensures SortedByRank(rank, out)
  {
    out := [];
    var g := h;
    while g.n > 0
      invariant Valid(g, rank)
      invariant multiset(out) + Contents(g) == Contents(h)
      invariant SortedByRank(rank, out) && AllBelow(rank, out, Contents(g))
      decreases g.n
    {
      var r, g' := DelMin(g, rank);
      DrainStep(rank, out, r.value, Contents(g), Contents(g'));
      out, g := out + [r.value], g';
    }
  }

  /** `isMinHeapOrdered(k)`: the subtree rooted at `k` has no parent greater
      than its child, checked recursively as the Java code does. */
  predicate IsMinHeapOrdered<K>(h: Heap<K>, rank: K -> int, k: int)
    requires Shaped(h) && 1 <= k
    decreases if k <= h.n then h.n + 1 - k else 0
  {
    if k > h.n then true
    else
      var l := 2 * k;
      var r := 2 * k + 1;
      if l <= h.n && Greater(h, rank, k, l) then false
      else if r <= h.n && Greater(h, rank, k, r) then false
      else IsMinHeapOrdered(h, rank, l) && IsMinHeapOrdered(h, rank, r)
  }

  /** `isMinHeap()`: the self-check of the representation invariant. */
  predicate IsMinHeap<K>(h: Heap<K>, rank: K -> int)
    requires h.n < |h.pq|
  {
    && (forall i | 1 <= i <= h.n :: h.pq[i].Some?)
    && (forall i | h.n < i < |h.pq| :: h.pq[i].None?)
    && h.pq[0].None?
    && IsMinHeapOrdered(h, rank, 1)
  }

  /** Slot `i` lies in the subtree rooted at slot `k`. */
  ghost predicate Descends(i: int, k: int)
    decreases i
  {
    i == k || (1 <= k < i && Descends(i / 2, k))
  }

  /** Every parent-child pair whose parent lies in the subtree at `k` is ordered. */
  ghost predicate SubtreeOrdered<K>(h: Heap<K>, rank: K -> int, k: int)
    requires Shaped(h)
  {
    forall i :: 2 <= i <= h.n && Descends(i / 2, k) ==> RankAt(h, rank, i / 2) <= RankAt(h, rank, i)
  }

  lemma {:induction false} DescendsAbove(i: int, k: int)
    requires Descends(i, k)
    ensures k <= i
    decreases i
  {
    if i != k {
      DescendsAbove(i / 2, k);
    }
  }

  lemma {:induction false} DescendsFromRoot(i: int)
    requires 1 <= i
    ensures Descends(i, 1)
    decreases i
  {
    if i > 1 {
      DescendsFromRoot(i / 2);
    }
  }

  /** A slot below a child of `k` is below `k`. */
  lemma {:induction false} DescendsThroughChild(i: int, k: int, c: int)
    requires 1 <= k && (c == 2 * k || c == 2 * k + 1) && Descends(i, c)
    ensures Descends(i, k)
    decreases i
  {
    if i != c {
      DescendsThroughChild(i / 2, k, c);
    }
  }

  /** A slot strictly below `k` is below one of `k`'s children. */
  lemma {:induction false} DescendsSplit(i: int, k: int)
    requires 1 <= k && Descends(i, k) && i != k
    ensures Descends(i, 2 * k) || Descends(i, 2 * k + 1)
    decreases i
  {
    if i / 2 != k {
      DescendsSplit(i / 2, k);
    }
  }

  lemma OrderedMatchesSubtree<K>(h: Heap<K>, rank: K -> int, k: int)
    requires Shaped(h) && 1 <= k
    ensures IsMinHeapOrdered(h, rank, k) <==> SubtreeOrdered(h, rank, k)
  {
    if SubtreeOrdered(h, rank, k) {
      OrderedFromSubtree(h, rank, k);
    }
    if IsMinHeapOrdered(h, rank, k) {
      SubtreeFromOrdered(h, rank, k);
    }
  }

  lemma {:induction false} OrderedFromSubtree<K>(h: Heap<K>, rank: K -> int, k: int)
    requires Shaped(h) && 1 <= k && SubtreeOrdered(h, rank, k)
    ensures IsMinHeapOrdered(h, rank, k)
    decreases if k <= h.n then h.n + 1 - k else 0
  {
    if k <= h.n {
      var l, r := 2 * k, 2 * k + 1;
      forall i | 2 <= i <= h.n && Descends(i / 2, l)
        ensures RankAt(h, rank, i / 2) <= RankAt(h, rank, i)
      {
        DescendsThroughChild(i / 2, k, l);
      }
      forall i | 2 <= i <= h.n && Descends(i / 2, r)
        ensures RankAt(h, rank, i / 2) <= RankAt(h, rank, i)
      {
        DescendsThroughChild(i / 2, k, r);
      }
      OrderedFromSubtree(h, rank, l);
      OrderedFromSubtree(h, rank, r);
      if l <= h.n {
        assert Descends(l / 2, k);
      }
      if r <= h.n {
        assert Descends(r / 2, k);
      }
    }
  }

  lemma {:induction false} SubtreeFromOrdered<K>(h: Heap<K>, rank: K -> int, k: int)
    requires Shaped(h) && 1 <= k && IsMinHeapOrdered(h, rank, k)
    ensures SubtreeOrdered(h, rank, k)
    decreases if k <= h.n then h.n + 1 - k else 0
  {
    if k > h.n {
      forall i | 2 <= i <= h.n && Descends(i / 2, k)
        ensures false
      {
        DescendsAbove(i / 2, k);
      }
    } else {
      SubtreeFromOrdered(h, rank, 2 * k);
      SubtreeFromOrdered(h, rank, 2 * k + 1);
      forall i | 2 <= i <= h.n && Descends(i / 2, k)
        ensures RankAt(h, rank, i / 2) <= RankAt(h, rank, i)
      {
        if i / 2 != k {
          DescendsSplit(i / 2, k);
        }
      }
    }
  }

  /** The Java code's recursive self-check holds exactly when the representation
      invariant does. */
  lemma IsMinHeapIffValid<K>(h: Heap<K>, rank: K -> int)
    requires h.n < |h.pq|
    ensures IsMinHeap(h, rank) <==> Valid(h, rank)
  {
    if Shaped(h) {
      OrderedMatchesSubtree(h, rank, 1);
      forall i | 2 <= i <= h.n
        ensures Descends(i / 2, 1)
      {
        DescendsFromRoot(i / 2);
      }
    }
  }
}
