/**
 The Huffman tree: weighted leaves for symbols, internal nodes that own two
 children, and the code table read off the tree by depth-first path
 accumulation ('0' for a left edge, '1' for a right edge).
 */
module HuffmanTree {

  /** Size of the extended-ASCII alphabet the codec counts over. */
  const ALPHABET_SIZE: int := 256

  /** A tree node. The Java code's single `Node` class marks a leaf by two null
      children (`isLeaf()`); here the two shapes are separate constructors, so
      an internal node always has both children. The `'\0'` character the
      Java code stores in internal nodes is never read and is left out. */
  datatype Node = Leaf(c: char, weight: int) | Internal(weight: int, left: Node, right: Node)

  /** The key the priority queue orders nodes by. */
  function Weight(t: Node): int {
    t.weight
  }

  /** `compareTo`: negative, zero or positive as `a` weighs less than, the same
      as, or more than `b`. */
  function CompareTo(a: Node, b: Node): (r: int)
    ensures r < 0 <==> Weight(a) < Weight(b)
    ensures r == 0 <==> Weight(a) == Weight(b)
    ensures r > 0 <==> Weight(a) > Weight(b)
  {
    a.weight - b.weight
  }

  /** Leaves carry a positive count and every internal node weighs the sum of
      its two children. */
  ghost predicate WellFormed(t: Node) {
    match t
    case Leaf(_, w) => 0 < w
    case Internal(w, l, r) => w == l.weight + r.weight && WellFormed(l) && WellFormed(r)
  }

  /** The leaves of the tree, as a multiset. */
  ghost function LeafBag(t: Node): multiset<Node> {
    match t
    case Leaf(_, _) => multiset{t}
    case Internal(_, l, r) => LeafBag(l) + LeafBag(r)
  }

  /** The symbols at the leaves. */
  ghost function Symbols(t: Node): set<char> {
    match t
    case Leaf(c, _) => {c}
    case Internal(_, l, r) => Symbols(l) + Symbols(r)
  }

  /** Every character of `s` is a binary digit. */
  ghost predicate IsBinary(s: string) {
    forall i :: 0 <= i < |s| ==> s[i] == '0' || s[i] == '1'
  }

  /** `p` spells the path from `t` down to a leaf holding `c`. */
  ghost predicate LeafPath(t: Node, p: string, c: char) {
    match t
    case Leaf(d, _) => p == [] && d == c
    case Internal(_, l, r) =>
      && 0 < |p|
      && ((p[0] == '0' && LeafPath(l, p[1..], c)) || (p[0] == '1' && LeafPath(r, p[1..], c)))
  }

  lemma LeafBagHoldsLeaves(t: Node)
    ensures forall x :: x in LeafBag(t) ==> x.Leaf? && x.c in Symbols(t)
  {
  }

  /** Each symbol of the tree is the symbol of one of its leaves. */
  lemma {:induction false} SymbolsHaveLeaves(t: Node, c: char)
    requires c in Symbols(t)
    ensures exists x :: x in LeafBag(t) && x.Leaf? && x.c == c
  {
    match t
    case Leaf(_, _) =>
      assert t in LeafBag(t);
    case Internal(_, l, r) =>
      if c in Symbols(l) {
        SymbolsHaveLeaves(l, c);
      } else {
        SymbolsHaveLeaves(r, c);
      }
  }

  /** `createCodeTable(node, s)`: records a code for every symbol below `t`,
      leaving the entries of all other symbols as they were. The left subtree
      is visited first, so for a symbol held by two leaves the right one wins. */
  function CreateCodeTable(t: Node, s: string, table: map<char, string>): (r: map<char, string>)
    ensures r.Keys == table.Keys + Symbols(t)
    ensures forall c :: c in table && c !in Symbols(t) ==> r[c] == table[c]
  {
    match t
    case Leaf(c, _) => table[c := s]
    case Internal(_, l, rt) => CreateCodeTable(rt, s + "1", CreateCodeTable(l, s + "0", table))
  }

  /** The code recorded for a symbol below `t` is the prefix `s` followed by a
      path from `t` to a leaf holding that symbol. */
  lemma {:induction false} CodeTablePaths(t: Node, s: string, table: map<char, string>, c: char)
    requires c in Symbols(t)
    ensures |s| <= |CreateCodeTable(t, s, table)[c]|
    ensures CreateCodeTable(t, s, table)[c][..|s|] == s
    ensures LeafPath(t, CreateCodeTable(t, s, table)[c][|s|..], c)
  {
    match t
    case Leaf(_, _) =>
    case Internal(_, l, rt) =>
      if c in Symbols(rt) {
        CodeTablePaths(rt, s + "1", CreateCodeTable(l, s + "0", table), c);
        PathFromRight(t, s, table, c);
      } else {
        CodeTablePaths(l, s + "0", table, c);
        PathFromLeft(t, s, table, c);
      }
  }

  /** A code recorded by the right subtree is a path from `t` through its
      right child. */
  lemma PathFromRight(t: Node, s: string, table: map<char, string>, c: char)
    requires t.Internal? && c in Symbols(t.right)
    requires var code := CreateCodeTable(t.right, s + "1", CreateCodeTable(t.left, s + "0", table))[c];
      |s + "1"| <= |code| && code[..|s + "1"|] == s + "1" && LeafPath(t.right, code[|s + "1"|..], c)
    ensures |s| <= |CreateCodeTable(t, s, table)[c]|
    ensures CreateCodeTable(t, s, table)[c][..|s|] == s
    ensures LeafPath(t, CreateCodeTable(t, s, table)[c][|s|..], c)
  {
    var code := CreateCodeTable(t, s, table)[c];
    assert code == CreateCodeTable(t.right, s + "1", CreateCodeTable(t.left, s + "0", table))[c];
    ChildPrefix(code, s, '1');
    PathThroughChild(t, s, code, c);
  }

  /** A code recorded by the left subtree, for a symbol the right subtree
      does not hold, is a path from `t` through its left child. */
  lemma PathFromLeft(t: Node, s: string, table: map<char, string>, c: char)
    requires t.Internal? && c in Symbols(t.left) && c !in Symbols(t.right)
    requires var code := CreateCodeTable(t.left, s + "0", table)[c];
      |s + "0"| <= |code| && code[..|s + "0"|] == s + "0" && LeafPath(t.left, code[|s + "0"|..], c)
    ensures |s| <= |CreateCodeTable(t, s, table)[c]|
    ensures CreateCodeTable(t, s, table)[c][..|s|] == s
    ensures LeafPath(t, CreateCodeTable(t, s, table)[c][|s|..], c)
  {
    var inner := CreateCodeTable(t.left, s + "0", table);
    var code := CreateCodeTable(t, s, table)[c];
    assert code == CreateCodeTable(t.right, s + "1", inner)[c] == inner[c];
    ChildPrefix(code, s, '0');
    PathThroughChild(t, s, code, c);
  }

  lemma ChildPrefix(code: string, s: string, b: char)
    requires |s| + 1 <= |code| && code[..|s| + 1] == s + [b]
    ensures code[..|s|] == s && code[|s|] == b
  {
    assert code[..|s|] == code[..|s| + 1][..|s|];
  }

  /** A path from a child of `t` extends to a path from `t` by one edge. */
  lemma PathThroughChild(t: Node, s: string, code: string, c: char)
    requires t.Internal? && |s| < |code|
    requires || (code[|s|] == '0' && LeafPath(t.left, code[|s| + 1..], c))
             || (code[|s|] == '1' && LeafPath(t.right, code[|s| + 1..], c))
    ensures LeafPath(t, code[|s|..], c)
  {
    assert code[|s|..][1..] == code[|s| + 1..];
  }

  /** Leaf paths are made of binary digits only. */
  lemma {:induction false} LeafPathBinary(t: Node, p: string, c: char)
    requires LeafPath(t, p, c)
    ensures IsBinary(p)
  {
    match t
    case Leaf(_, _) =>
    case Internal(_, l, r) =>
      if p[0] == '0' {
        LeafPathBinary(l, p[1..], c);
      } else {
        LeafPathBinary(r, p[1..], c);
      }
      assert p == [p[0]] + p[1..];
  }

  /** A leaf path is never a proper prefix of another leaf path: if one is a
      prefix of the other they are the same path to the same leaf. */
  lemma {:induction false} LeafPathPrefixFree(t: Node, p: string, q: string, c: char, d: char)
    requires LeafPath(t, p, c) && LeafPath(t, q, d) && p <= q
    ensures p == q && c == d
  {
    match t
    case Leaf(_, _) =>
    case Internal(_, l, r) =>
      assert p[0] == q[0];
      assert p[1..] <= q[1..];
      if p[0] == '0' {
        LeafPathPrefixFree(l, p[1..], q[1..], c, d);
      } else {
        LeafPathPrefixFree(r, p[1..], q[1..], c, d);
      }
      assert p == [p[0]] + p[1..] && q == [q[0]] + q[1..];
  }

  /** The code table of a tree whose root is internal: one entry per symbol of
      the tree and no other, each a non-empty binary path to a leaf holding that
      symbol, and no code of one symbol a prefix of the code of another. */
  lemma CodeTableFacts(root: Node)
    requires root.Internal?
    ensures CreateCodeTable(root, "", map[]).Keys == Symbols(root)
    ensures forall c :: c in CreateCodeTable(root, "", map[]) ==>
      LeafPath(root, CreateCodeTable(root, "", map[])[c], c)
    ensures forall c :: c in CreateCodeTable(root, "", map[]) ==>
      0 < |CreateCodeTable(root, "", map[])[c]| && IsBinary(CreateCodeTable(root, "", map[])[c])
    ensures forall c, d :: c in CreateCodeTable(root, "", map[]) && d in CreateCodeTable(root, "", map[]) && c != d ==>
      !(CreateCodeTable(root, "", map[])[c] <= CreateCodeTable(root, "", map[])[d])
  {
    var table := CreateCodeTable(root, "", map[]);
    forall c | c in table
      ensures LeafPath(root, table[c], c) && IsBinary(table[c])
    {
      CodeTablePaths(root, "", map[], c);
      assert table[c][0..] == table[c];
      LeafPathBinary(root, table[c], c);
    }
    forall c, d | c in table && d in table && c != d
      ensures !(table[c] <= table[d])
    {
      if table[c] <= table[d] {
        LeafPathPrefixFree(root, table[c], table[d], c, d);
      }
    }
  }

  /** A tree that is a single leaf gives its symbol the empty code, which the
      decoder cannot tell apart from no input at all. */
  lemma LeafRootHasEmptyCode(c: char, w: int)
    ensures CreateCodeTable(Leaf(c, w), "", map[]) == map[c := ""]
  {
  }
}
