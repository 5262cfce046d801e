/**
 Building a Huffman code for a text: count the symbols, queue one leaf per
 symbol that occurs, merge the two lightest trees until one remains, and read
 the code table off the resulting tree.
 */
module HuffmanBuild {
  import opened Results
  import opened MinPQ
  import opened HuffmanTree

  /** Why a codebook cannot be built. The Java code fails in each case: an index
      out of bounds while counting, `delMin` underflow for an empty text, and
      its asserted `!root.isLeaf()` for a text with one distinct symbol. */
  datatype HuffmanError = SymbolOutOfRange | EmptyText | SingleSymbol

  /** The tree and code table built from one text. */
  datatype Codebook = Codebook(root: Node, table: map<char, string>)

  /** Every character of the text can index the count array. */
  predicate InAlphabet(text: string) {
    forall i | 0 <= i < |text| :: (text[i] as int) < ALPHABET_SIZE
  }

  /** The text holds two different characters. */
  ghost predicate Varied(text: string) {
    exists i, j :: 0 <= i < |text| && 0 <= j < |text| && text[i] != text[j]
  }

  /** Reference counts: the number of occurrences of each symbol. */
  ghost function Counts(text: string): (count: seq<nat>)
    ensures |count| == ALPHABET_SIZE
  {
    seq(ALPHABET_SIZE, c requires 0 <= c < ALPHABET_SIZE => multiset(text)[c as char])
  }

  function Sum(s: seq<int>): int {
    if s == [] then 0 else Sum(s[..|s| - 1]) + s[|s| - 1]
  }

  lemma {:induction false} SumIncrement(s: seq<int>, k: int)
    requires 0 <= k < |s|
    ensures Sum(s[k := s[k] + 1]) == Sum(s) + 1
    decreases |s|
  {
    var t := s[k := s[k] + 1];
    if k == |s| - 1 {
      assert t[..|t| - 1] == s[..|s| - 1];
    } else {
      assert t[..|t| - 1] == s[..|s| - 1][k := s[k] + 1];
      SumIncrement(s[..|s| - 1], k);
    }
  }

  lemma {:induction false} SumOfZeros(n: nat)
    ensures Sum(seq(n, _ => 0)) == 0
  {
    if n > 0 {
      assert seq(n, _ => 0)[..n - 1] == seq(n - 1, _ => 0);
      SumOfZeros(n - 1);
    }
  }

  /** `getFrequencyCount()`: one count per symbol, each the number of times the
      symbol occurs in the text; the counts add up to the text's length. */
  method GetFrequencyCount(text: string) returns (count: seq<nat>)
    requires InAlphabet(text)
    ensures count == Counts(text)
    ensures Sum(count) == |text|
  {
    count := seq(ALPHABET_SIZE, _ => 0);
    SumOfZeros(ALPHABET_SIZE);
    var i := 0;
    while i < |text|
      invariant 0 <= i <= |text|
      invariant |count| == ALPHABET_SIZE
      invariant forall c :: 0 <= c < ALPHABET_SIZE ==> count[c] == multiset(text[..i])[c as char]
      invariant Sum(count) == i
    {
      var c := text[i] as int;
      SumIncrement(count, c);
      assert text[..i + 1] == text[..i] + [text[i]];
      count := count[c := count[c] + 1];
      i := i + 1;
    }
    assert text[..|text|] == text;
  }

  /** The leaves queued for the symbols `count` covers, in symbol order: one
      leaf per symbol with a positive count, weighted by that count. */
  ghost function LeafList(count: seq<nat>): seq<Node>
    requires |count| <= ALPHABET_SIZE
  {
    if count == [] then []
    else
      var k := |count| - 1;
      LeafList(count[..k]) + (if count[k] > 0 then [Leaf(k as char, count[k])] else [])
  }

  /** `t` is the leaf queued for one of the symbols `count` covers. */
  ghost predicate IsQueuedLeaf(count: seq<nat>, t: Node)
    requires |count| <= ALPHABET_SIZE
  {
    t.Leaf? && (t.c as int) < |count| && count[t.c as int] > 0 && t.weight == count[t.c as int]
  }

  /** Each symbol with a positive count has exactly one leaf, of weight equal
      to its count, and there is nothing else. */
  lemma {:induction false} LeafListMembers(count: seq<nat>)
    requires |count| <= ALPHABET_SIZE
    ensures forall t :: multiset(LeafList(count))[t] == (if IsQueuedLeaf(count, t) then 1 else 0)
    decreases |count|
  {
    if count != [] {
      var k := |count| - 1;
      LeafListMembers(count[..k]);
      forall t
        ensures multiset(LeafList(count))[t] == (if IsQueuedLeaf(count, t) then 1 else 0)
      {
        if t.Leaf? && (t.c as int) == k {
          assert t == Leaf(k as char, t.weight);
        } else if t.Leaf? && (t.c as int) < k {
          assert count[..k][t.c as int] == count[t.c as int];
        }
      }
    }
  }

  /** `initializeEncodeCompress` (leaf insertion): a queue holding one leaf per
      symbol that occurs. */
  method LeafQueue(count: seq<nat>) returns (h: Heap<Node>)
    requires |count| == ALPHABET_SIZE
    ensures Valid(h, Weight)
    ensures Contents(h) == multiset(LeafList(count))
  {
    h := Empty();
    var c := 0;
    while c < ALPHABET_SIZE
      invariant 0 <= c <= ALPHABET_SIZE
      invariant Valid(h, Weight)
      invariant Contents(h) == multiset(LeafList(count[..c]))
    {
      h := QueueLeaf(h, count, c);
      c := c + 1;
    }
    assert count[..ALPHABET_SIZE] == count;
  }

  /** One iteration of the leaf-insertion loop: symbol `c` gets its leaf
      queued when it occurs. */
  method QueueLeaf(h: Heap<Node>, count: seq<nat>, c: int) returns (h': Heap<Node>)
    requires |count| == ALPHABET_SIZE && 0 <= c < ALPHABET_SIZE
    requires Valid(h, Weight) && Contents(h) == multiset(LeafList(count[..c]))
    ensures Valid(h', Weight) && Contents(h') == multiset(LeafList(count[..c + 1]))
  {
    LeafListSnoc(count, c);
    h' := h;
    if count[c] > 0 {
      h' := Insert(h, Weight, Leaf(c as char, count[c]));
    }
  }

  /** Covering one more symbol queues its leaf after the others, if it occurs. */
  lemma LeafListSnoc(count: seq<nat>, c: int)
    requires |count| <= ALPHABET_SIZE && 0 <= c < |count|
    ensures multiset(LeafList(count[..c + 1])) ==
      multiset(LeafList(count[..c])) + (if count[c] > 0 then multiset{Leaf(c as char, count[c])} else multiset{})
  {
    assert count[..c + 1][..c] == count[..c];
  }

  /** Total weight of a forest. */
  ghost function WeightSum(f: seq<Node>): int {
    if f == [] then 0 else WeightSum(f[..|f| - 1]) + f[|f| - 1].weight
  }

  /** All leaves of a forest. */
  ghost function ForestLeaves(f: seq<Node>): multiset<Node> {
    if f == [] then multiset{} else ForestLeaves(f[..|f| - 1]) + LeafBag(f[|f| - 1])
  }

  lemma ForestConcat(a: seq<Node>, b: seq<Node>)
    ensures WeightSum(a + b) == WeightSum(a) + WeightSum(b)
    ensures ForestLeaves(a + b) == ForestLeaves(a) + ForestLeaves(b)
  {
    WeightConcat(a, b);
    LeavesConcat(a, b);
  }

  lemma {:induction false} WeightConcat(a: seq<Node>, b: seq<Node>)
    ensures WeightSum(a + b) == WeightSum(a) + WeightSum(b)
    decreases |b|
  {
    if b == [] {
      assert a + b == a;
    } else {
      var c := a + b;
      assert c[..|c| - 1] == a + b[..|b| - 1];
      WeightConcat(a, b[..|b| - 1]);
    }
  }

  lemma {:induction false} LeavesConcat(a: seq<Node>, b: seq<Node>)
    ensures ForestLeaves(a + b) == ForestLeaves(a) + ForestLeaves(b)
    decreases |b|
  {
    if b == [] {
      assert a + b == a;
    } else {
      var init, x := b[..|b| - 1], b[|b| - 1];
      assert b == init + [x] && a + b == (a + init) + [x];
      LeavesConcat(a, init);
      LeavesSnoc(a + init, x);
      LeavesSnoc(init, x);
    }
  }

  lemma WeightSnoc(s: seq<Node>, x: Node)
    ensures WeightSum(s + [x]) == WeightSum(s) + x.weight
  {
    assert (s + [x])[..|s|] == s;
  }

  lemma LeavesSnoc(s: seq<Node>, x: Node)
    ensures ForestLeaves(s + [x]) == ForestLeaves(s) + LeafBag(x)
  {
    assert (s + [x])[..|s|] == s;
  }

  /** The forest left after taking out the tree at index `i`. */
  ghost function RemoveAt(f: seq<Node>, i: int): (g: seq<Node>)
    requires 0 <= i < |f|
    ensures multiset(g) == multiset(f) - multiset{f[i]}
    ensures WeightSum(g) + f[i].weight == WeightSum(f)
    ensures ForestLeaves(g) + LeafBag(f[i]) == ForestLeaves(f)
    ensures forall t :: t in g ==> t in f
  {
    assert f == f[..i] + [f[i]] + f[i + 1..];
    ForestConcat(f[..i] + [f[i]], f[i + 1..]);
    ForestConcat(f[..i], [f[i]]);
    ForestConcat(f[..i], f[i + 1..]);
    assert [f[i]][..0] == [];
    f[..i] + f[i + 1..]
  }

  /** The forest stays well formed and keeps its total weight and its leaves. */
  ghost predicate ForestKeeps(f: seq<Node>, forest: seq<Node>) {
    && (forall t :: t in f ==> WellFormed(t))
    && WeightSum(f) == WeightSum(forest)
    && ForestLeaves(f) == ForestLeaves(forest)
  }

  /** Replacing two trees of the forest by their parent keeps it well formed
      and keeps its total weight and its leaves. */
  lemma Merge(f: seq<Node>, forest: seq<Node>, a: Node, b: Node, rest: multiset<Node>, parent: Node) returns (g: seq<Node>)
    requires ForestKeeps(f, forest) && multiset(f) == rest + multiset{a} + multiset{b}
    requires parent == Internal(a.weight + b.weight, a, b)
    ensures multiset(g) == rest + multiset{parent}
    ensures ForestKeeps(g, forest)
    ensures |g| == |f| - 1 && g[|g| - 1] == parent
  {
    var f2 := RemovePair(f, a, b, rest);
    g := f2 + [parent];
    ParentSnoc(f2, a, b, parent);
    assert WellFormed(parent) by {
      assert a in multiset(f) && b in multiset(f);
    }
    AppendWellFormed(f, f2, parent);
    assert multiset(g) == multiset(f2) + multiset{parent};
  }

  /** Appending the parent of `a` and `b` adds their weight and their leaves. */
  lemma ParentSnoc(s: seq<Node>, a: Node, b: Node, parent: Node)
    requires parent == Internal(a.weight + b.weight, a, b)
    ensures WeightSum(s + [parent]) == WeightSum(s) + a.weight + b.weight
    ensures ForestLeaves(s + [parent]) == ForestLeaves(s) + LeafBag(a) + LeafBag(b)
  {
    WeightSnoc(s, parent);
    LeavesSnoc(s, parent);
  }

  lemma AppendWellFormed(f: seq<Node>, f2: seq<Node>, parent: Node)
    requires forall t :: t in f ==> WellFormed(t)
    requires forall t :: t in f2 ==> t in f
    requires WellFormed(parent)
    ensures forall t :: t in f2 + [parent] ==> WellFormed(t)
  {
    forall t | t in f2 + [parent]
      ensures WellFormed(t)
    {
      if t != parent {
        assert t in f2;
      }
    }
  }

  /** Taking two trees out of a forest takes their weight and their leaves
      with them. */
  lemma RemovePair(f: seq<Node>, a: Node, b: Node, rest: multiset<Node>) returns (g: seq<Node>)
    requires multiset(f) == rest + multiset{a} + multiset{b}
    ensures multiset(g) == rest && |g| == |f| - 2
    ensures WeightSum(g) + a.weight + b.weight == WeightSum(f)
    ensures ForestLeaves(g) + LeafBag(a) + LeafBag(b) == ForestLeaves(f)
    ensures forall t :: t in g ==> t in f
  {
    assert multiset(f) == (rest + multiset{b}) + multiset{a};
    var f1 := RemoveOne(f, a, rest + multiset{b});
    g := RemoveOne(f1, b, rest);
    assert WeightSum(g) + a.weight + b.weight == WeightSum(f);
    assert ForestLeaves(g) + LeafBag(a) + LeafBag(b) == ForestLeaves(f);
  }

  /** Taking one tree out of a forest takes its weight and its leaves with it. */
  lemma RemoveOne(f: seq<Node>, a: Node, rest: multiset<Node>) returns (g: seq<Node>)
    requires multiset(f) == rest + multiset{a}
    ensures multiset(g) == rest && |g| == |f| - 1
    ensures WeightSum(g) + a.weight == WeightSum(f)
    ensures ForestLeaves(g) + LeafBag(a) == ForestLeaves(f)
    ensures forall t :: t in g ==> t in f
  {
    assert a in multiset(f);
    var i :| 0 <= i < |f| && f[i] == a;
    g := RemoveAt(f, i);
    assert |multiset(g)| == |rest|;
  }

  /** A forest of one tree. */
  lemma Singleton(t: Node)
    ensures WeightSum([t]) == t.weight && ForestLeaves([t]) == LeafBag(t)
  {
    assert [t][..0] == [];
  }

  /** `createHuffmanTree(pq)`: while more than one tree is queued, take out the
      two lightest, queue their parent, and finally take out the last tree. The
      queue's contents are tracked as the ghost `forest`. */
  method CreateHuffmanTree(h: Heap<Node>, ghost forest: seq<Node>) returns (r: Result<Node, PQError>)
    requires Valid(h, Weight) && Contents(h) == multiset(forest)
    requires forall t :: t in forest ==> WellFormed(t)
    ensures r.Failure? <==> |forest| == 0
    ensures r.Failure? ==> r.error == Underflow
    ensures r.Success? ==> WellFormed(r.value)
    ensures r.Success? ==> Weight(r.value) == WeightSum(forest)
    ensures r.Success? ==> LeafBag(r.value) == ForestLeaves(forest)
    ensures |forest| == 1 ==> r == Success(forest[0])
    ensures 2 <= |forest| ==> r.Success? && r.value.Internal?
  {
    var pq, f := MergeRounds(h, forest);
    var last;
    last, pq := DelMin(pq, Weight);
    if last.Success? {
      LastTree(f, forest, last.value);
    }
    return last;
  }

  /** The loop of `createHuffmanTree`: merge rounds until at most one tree is
      queued. The forest keeps its weight and leaves, and a forest of two or
      more trees ends as a single internal node. */
  method MergeRounds(h: Heap<Node>, ghost forest: seq<Node>) returns (pq: Heap<Node>, ghost f: seq<Node>)
    requires Valid(h, Weight) && Contents(h) == multiset(forest)
    requires forall t :: t in forest ==> WellFormed(t)
    ensures Valid(pq, Weight) && Contents(pq) == multiset(f) && |f| == pq.n <= 1
    ensures ForestKeeps(f, forest)
    ensures |forest| <= 1 ==> f == forest
    ensures 2 <= |forest| ==> |f| == 1 && f[0].Internal?
  {
    pq := h;
    f := forest;
    assert |f| == |multiset(f)| == |Contents(pq)| == Size(pq) == pq.n;
    while Size(pq) > 1
      invariant Valid(pq, Weight)
      invariant Contents(pq) == multiset(f)
      invariant |f| == pq.n
      invariant ForestKeeps(f, forest)
      invariant |forest| <= 1 ==> f == forest
      invariant 2 <= |forest| ==> 1 <= |f| && (|f| == 1 ==> f[0].Internal?)
      decreases pq.n
    {
      ghost var left, right;
      pq, f, left, right := CombineLightest(pq, f, forest);
    }
  }

  /** The two `delMin` calls of one round: the lightest tree and the
      lightest of the rest. */
  method TakeTwo(pq: Heap<Node>) returns (left: Node, right: Node, pq': Heap<Node>)
    requires Valid(pq, Weight) && 1 < pq.n
    ensures Valid(pq', Weight) && pq'.n == pq.n - 2
    ensures Contents(pq) == Contents(pq') + multiset{left} + multiset{right}
    ensures IsLeast(Weight, left, Contents(pq)) && IsLeast(Weight, right, Contents(pq) - multiset{left})
  {
    var l, pq1 := DelMin(pq, Weight);
    var r, pq2 := DelMin(pq1, Weight);
    left, right, pq' := l.value, r.value, pq2;
  }

  /** One round of `createHuffmanTree`: take out the lightest tree `left` and
      the lightest of the rest `right`, and queue their parent in their place. */
  method CombineLightest(pq: Heap<Node>, ghost f: seq<Node>, ghost forest: seq<Node>)
    returns (pq': Heap<Node>, ghost f': seq<Node>, ghost left: Node, ghost right: Node)
    requires Valid(pq, Weight) && Contents(pq) == multiset(f) && |f| == pq.n && 1 < pq.n
    requires ForestKeeps(f, forest)
    ensures Valid(pq', Weight) && Contents(pq') == multiset(f') && |f'| == pq'.n == pq.n - 1
    ensures ForestKeeps(f', forest)
    ensures IsLeast(Weight, left, Contents(pq)) && IsLeast(Weight, right, Contents(pq) - multiset{left})
    ensures f'[|f'| - 1] == Internal(left.weight + right.weight, left, right)
    ensures Contents(pq') + multiset{left} + multiset{right} ==
      Contents(pq) + multiset{Internal(left.weight + right.weight, left, right)}
  {
    var l, r, pq2 := TakeTwo(pq);
    var parent := Internal(l.weight + r.weight, l, r);
    f' := Merge(f, forest, l, r, Contents(pq2), parent);
    pq' := Insert(pq2, Weight, parent);
    left, right := l, r;
  }

  /** The heap compares queued nodes exactly as `Node.compareTo` does. */
  lemma GreaterIsCompareTo(h: Heap<Node>, i: int, j: int)
    requires Shaped(h) && 1 <= i <= h.n && 1 <= j <= h.n
    ensures Greater(h, Weight, i, j) <==> CompareTo(h.pq[i].value, h.pq[j].value) > 0
  {
  }

  lemma LastTree(f: seq<Node>, forest: seq<Node>, t: Node)
    requires ForestKeeps(f, forest) && multiset(f) == multiset{t}
    ensures f == [t]
    ensures WellFormed(t) && t.weight == WeightSum(forest) && LeafBag(t) == ForestLeaves(forest)
  {
    assert |f| == 1;
    assert f[0] in multiset(f);
    assert f == [t];
    Singleton(t);
  }

  /** The queued leaves weigh as much as the counts add up to. */
  lemma {:induction false} LeafListWeight(count: seq<nat>)
    requires |count| <= ALPHABET_SIZE
    ensures WeightSum(LeafList(count)) == Sum(count)
    decreases |count|
  {
    if count != [] {
      var k := |count| - 1;
      LeafListWeight(count[..k]);
      var prev := LeafList(count[..k]);
      if count[k] > 0 {
        var x := Leaf(k as char, count[k]);
        assert LeafList(count) == prev + [x];
        assert (prev + [x])[..|prev|] == prev;
      } else {
        assert LeafList(count) == prev;
      }
    }
  }

  /** A forest of leaves has itself as its leaves. */
  lemma {:induction false} LeafListLeaves(count: seq<nat>)
    requires |count| <= ALPHABET_SIZE
    ensures ForestLeaves(LeafList(count)) == multiset(LeafList(count))
    decreases |count|
  {
    if count != [] {
      var k := |count| - 1;
      LeafListLeaves(count[..k]);
      var prev := LeafList(count[..k]);
      if count[k] > 0 {
        var x := Leaf(k as char, count[k]);
        assert LeafList(count) == prev + [x];
        assert (prev + [x])[..|prev|] == prev;
      } else {
        assert LeafList(count) == prev;
      }
    }
  }

  /** The text is empty exactly when no leaf is queued. */
  lemma LeafListEmpty(text: string)
    requires InAlphabet(text)
    ensures |LeafList(Counts(text))| == 0 <==> |text| == 0
  {
    var count := Counts(text);
    var leaves := LeafList(count);
    LeafListMembers(count);
    if |text| > 0 {
      var c := text[0];
      assert multiset(text)[c] > 0;
      assert IsQueuedLeaf(count, Leaf(c, count[c as int]));
      assert Leaf(c, count[c as int]) in multiset(leaves);
    }
  }

  /** Two different characters in the text give at least two queued leaves. */
  lemma VariedHasTwoLeaves(text: string)
    requires InAlphabet(text) && Varied(text)
    ensures 2 <= |LeafList(Counts(text))|
  {
    var count := Counts(text);
    var leaves := LeafList(count);
    var i, j :| 0 <= i < |text| && 0 <= j < |text| && text[i] != text[j];
    QueuedLeafOf(text, i);
    QueuedLeafOf(text, j);
    var a, b := Leaf(text[i], count[text[i] as int]), Leaf(text[j], count[text[j] as int]);
    assert a in leaves && b in leaves && a != b;
  }

  /** Two queued leaves come from two different characters of the text. */
  lemma TwoLeavesAreVaried(text: string)
    requires InAlphabet(text) && 2 <= |LeafList(Counts(text))|
    ensures Varied(text)
  {
    var count := Counts(text);
    var leaves := LeafList(count);
    LeafListMembers(count);
    var a, b := leaves[0], leaves[1];
    assert a in multiset(leaves) && b in multiset(leaves);
    FirstTwoCounted(leaves);
    assert IsQueuedLeaf(count, a) && IsQueuedLeaf(count, b);
    assert a.c != b.c;
    assert a.c in multiset(text) && b.c in multiset(text);
    var i :| 0 <= i < |text| && text[i] == a.c;
    var j :| 0 <= j < |text| && text[j] == b.c;
    assert text[i] != text[j];
  }

  lemma FirstTwoCounted(s: seq<Node>)
    requires 2 <= |s|
    ensures s[0] == s[1] ==> multiset(s)[s[0]] >= 2
  {
    assert s == [s[0], s[1]] + s[2..];
  }

  /** Every queued tree is a well-formed leaf. */
  lemma LeafListWellFormed(count: seq<nat>)
    requires |count| == ALPHABET_SIZE
    ensures forall t :: t in LeafList(count) ==> t.Leaf? && WellFormed(t)
  {
    LeafListMembers(count);
    forall t | t in LeafList(count)
      ensures t.Leaf? && WellFormed(t)
    {
      assert t in multiset(LeafList(count));
    }
  }

  /** The character at position `i` has its leaf queued. */
  lemma QueuedLeafOf(text: string, i: int)
    requires InAlphabet(text) && 0 <= i < |text|
    ensures Leaf(text[i], Counts(text)[text[i] as int]) in LeafList(Counts(text))
  {
    var count := Counts(text);
    LeafListMembers(count);
    assert text[i] in multiset(text);
    assert IsQueuedLeaf(count, Leaf(text[i], count[text[i] as int]));
    assert Leaf(text[i], count[text[i] as int]) in multiset(LeafList(count));
  }

  /** How many leaves are queued tells the three cases of a text apart: none
      for the empty text, two or more exactly when it has two different
      characters. */
  lemma LeafListShape(text: string)
    requires InAlphabet(text)
    ensures |text| == 0 <==> |LeafList(Counts(text))| == 0
    ensures Varied(text) <==> 2 <= |LeafList(Counts(text))|
    ensures forall t :: t in LeafList(Counts(text)) ==> t.Leaf? && WellFormed(t)
  {
    LeafListWellFormed(Counts(text));
    LeafListEmpty(text);
    if Varied(text) {
      VariedHasTwoLeaves(text);
    } else if 2 <= |LeafList(Counts(text))| {
      TwoLeavesAreVaried(text);
    }
  }

  /** The queued leaves of a text as a forest: well-formed leaves weighing as
      much as the text is long, with a single leaf exactly when the text
      repeats one character. */
  lemma LeafForest(text: string)
    requires InAlphabet(text) && Sum(Counts(text)) == |text|
    ensures forall t :: t in LeafList(Counts(text)) ==> WellFormed(t)
    ensures WeightSum(LeafList(Counts(text))) == |text|
    ensures ForestLeaves(LeafList(Counts(text))) == multiset(LeafList(Counts(text)))
    ensures |text| == 0 <==> |LeafList(Counts(text))| == 0
    ensures Varied(text) <==> 2 <= |LeafList(Counts(text))|
    ensures |LeafList(Counts(text))| == 1 ==> LeafList(Counts(text))[0].Leaf?
  {
    var leaves := LeafList(Counts(text));
    LeafListWeight(Counts(text));
    LeafListLeaves(Counts(text));
    LeafListShape(text);
    if |leaves| == 1 {
      assert leaves[0] in leaves;
    }
  }

  /** What `initializeEncodeCompress` leaves behind for a text: an internal,
      well-formed root weighing the text's length whose leaves are exactly the
      queued leaves, and the code table read off that root. */
  ghost predicate IsCodebookOf(book: Codebook, text: string) {
    && InAlphabet(text)
    && book.root.Internal?
    && WellFormed(book.root)
    && Weight(book.root) == |text|
    && LeafBag(book.root) == multiset(LeafList(Counts(text)))
    && book.table == CreateCodeTable(book.root, "", map[])
  }

  /** `initializeEncodeCompress()`: count, queue the leaves, build the tree and
      the code table; each way the Java code fails is returned as an error. */
  method Initialize(text: string) returns (r: Result<Codebook, HuffmanError>)
    ensures !InAlphabet(text) ==> r == Failure(SymbolOutOfRange)
    ensures InAlphabet(text) && |text| == 0 ==> r == Failure(EmptyText)
    ensures InAlphabet(text) && 0 < |text| && !Varied(text) ==> r == Failure(SingleSymbol)
    ensures InAlphabet(text) && Varied(text) ==> r.Success? && IsCodebookOf(r.value, text)
  {
    if !InAlphabet(text) {
      return Failure(SymbolOutOfRange);
    }
    var tree := BuildTree(text);
    if tree.Failure? {
      return Failure(EmptyText);
    }
    var root := tree.value;
    if root.Leaf? {
      return Failure(SingleSymbol);
    }
    return Success(Codebook(root, CreateCodeTable(root, "", map[])));
  }

  /** The tree-building part of `initializeEncodeCompress()`: count, queue one
      leaf per occurring symbol, and merge. The queue underflows on the empty
      text, a text of one repeated symbol gives a single leaf, and any other
      text gives an internal root whose leaves are the queued ones. */
  method BuildTree(text: string) returns (tree: Result<Node, PQError>)
    requires InAlphabet(text)
    ensures tree.Failure? <==> |text| == 0
    ensures tree.Success? ==> WellFormed(tree.value) && Weight(tree.value) == |text|
    ensures tree.Success? ==> LeafBag(tree.value) == multiset(LeafList(Counts(text)))
    ensures tree.Success? ==> (tree.value.Internal? <==> Varied(text))
  {
    var count := GetFrequencyCount(text);
    var pq := LeafQueue(count);
    ghost var leaves := LeafList(count);
    LeafForest(text);
    tree := CreateHuffmanTree(pq, leaves);
  }


  /** A codebook covers exactly the characters of its text. */
  lemma CodebookSymbols(book: Codebook, text: string)
    requires IsCodebookOf(book, text)
    ensures forall c :: c in Symbols(book.root) <==> c in text
  {
    forall c | c in text
      ensures c in Symbols(book.root)
    {
      TextSymbolInTree(book, text, c);
    }
    forall c | c in Symbols(book.root)
      ensures c in text
    {
      TreeSymbolInText(book, text, c);
    }
  }

  lemma TextSymbolInTree(book: Codebook, text: string, c: char)
    requires IsCodebookOf(book, text) && c in text
    ensures c in Symbols(book.root)
  {
    var count := Counts(text);
    LeafListMembers(count);
    LeafBagHoldsLeaves(book.root);
    var i :| 0 <= i < |text| && text[i] == c;
    assert IsQueuedLeaf(count, Leaf(c, count[c as int]));
    assert Leaf(c, count[c as int]) in LeafBag(book.root);
  }

  lemma TreeSymbolInText(book: Codebook, text: string, c: char)
    requires IsCodebookOf(book, text) && c in Symbols(book.root)
    ensures c in text
  {
    var count := Counts(text);
    LeafListMembers(count);
    SymbolsHaveLeaves(book.root, c);
    var x :| x in LeafBag(book.root) && x.Leaf? && x.c == c;
    assert IsQueuedLeaf(count, x);
    assert multiset(text)[c] > 0;
  }
}
