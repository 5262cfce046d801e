/**
 The two ways the codec writes a text out and reads it back: as a string of
 '0'/'1' characters (encode, then decode), and packed seven code digits to a
 byte (compress, then extract). Both read back by walking the Huffman tree from
 the root, emitting a symbol and starting over at every leaf.
 */
module HuffmanCodec {
  import opened Results
  import opened HuffmanTree
  import opened HuffmanBuild

  // ---------------------------------------------------------------------
  // Walking the tree
  // ---------------------------------------------------------------------

  /** The decoder's state: the text read so far and the node it stands on. */
  datatype Cursor = Cursor(out: string, cur: Node)

  /** One decoding step: '0' goes to the left child and any other digit to the
      right one; reaching a leaf emits its symbol and goes back to the root. */
  function Step(root: Node, st: Cursor, b: char): (r: Cursor)
    requires root.Internal? && st.cur.Internal?
    ensures r.cur.Internal?
    ensures r.out == st.out || (|r.out| == |st.out| + 1 && r.out[..|st.out|] == st.out)
  {
    var next := if b == '0' then st.cur.left else st.cur.right;
    if next.Leaf? then Cursor(st.out + [next.c], root) else Cursor(st.out, next)
  }

  /** The decoder's state after reading `bits` one after another from `st`. */
  function Walk(root: Node, st: Cursor, bits: string): (r: Cursor)
    requires root.Internal? && st.cur.Internal?
    ensures r.cur.Internal?
    decreases |bits|
  {
    if bits == [] then st
    else Step(root, Walk(root, st, bits[..|bits| - 1]), bits[|bits| - 1])
  }

  /** Reading `a` and then `b` is reading `a + b`. */
  lemma {:induction false} WalkAppend(root: Node, st: Cursor, a: string, b: string)
    requires root.Internal? && st.cur.Internal?
    ensures Walk(root, st, a + b) == Walk(root, Walk(root, st, a), b)
    decreases |b|
  {
    if b == [] {
      assert a + b == a;
    } else {
      var ab := a + b;
      assert ab[..|ab| - 1] == a + b[..|b| - 1];
      assert ab[|ab| - 1] == b[|b| - 1];
      WalkAppend(root, st, a, b[..|b| - 1]);
    }
  }

  /** Reading one more digit of `bits` is one more step. */
  lemma WalkSnoc(root: Node, st: Cursor, bits: string, count: int)
    requires root.Internal? && st.cur.Internal? && 0 <= count < |bits|
    ensures Walk(root, st, bits[..count + 1]) == Step(root, Walk(root, st, bits[..count]), bits[count])
  {
    assert bits[..count + 1][..count] == bits[..count];
  }

  /** Reading a path from the current node down to a leaf emits that leaf's
      symbol and leaves the decoder back at the root. */
  lemma {:induction false} WalkLeafPath(root: Node, out: string, cur: Node, p: string, c: char)
    requires root.Internal? && cur.Internal? && LeafPath(cur, p, c)
    ensures Walk(root, Cursor(out, cur), p) == Cursor(out + [c], root)
    decreases |p|
  {
    var st := Cursor(out, cur);
    var next := if p[0] == '0' then cur.left else cur.right;
    assert LeafPath(next, p[1..], c);
    assert [p[0]] + p[1..] == p;
    WalkAppend(root, st, [p[0]], p[1..]);
    assert [p[0]][..0] == [];
    if next.Leaf? {
      assert Walk(root, st, [p[0]]) == Cursor(out + [c], root);
    } else {
      assert Walk(root, st, [p[0]]) == Cursor(out, next);
      WalkLeafPath(root, out, next, p[1..], c);
    }
  }

  // ---------------------------------------------------------------------
  // The code of a text
  // ---------------------------------------------------------------------

  /** Every character of the text has an entry in the table. */
  predicate Covered(table: map<char, string>, text: string) {
    forall i | 0 <= i < |text| :: text[i] in table
  }

  /** The codes of the text's characters, one after another. */
  function Codeword(table: map<char, string>, text: string): (r: string)
    requires Covered(table, text)
  {
    if text == [] then [] else Codeword(table, text[..|text| - 1]) + table[text[|text| - 1]]
  }

  /** Codes made of binary digits give a binary codeword. */
  lemma {:induction false} CodewordBinary(table: map<char, string>, text: string)
    requires Covered(table, text)
    requires forall c :: c in table ==> IsBinary(table[c])
    ensures IsBinary(Codeword(table, text))
    decreases |text|
  {
    if text != [] {
      CodewordBinary(table, text[..|text| - 1]);
    }
  }

  /** Reading the codeword of `text` from the root appends `text` to what was
      read before, when every code is a path to a leaf of its own symbol. */
  lemma {:induction false} CodewordWalk(root: Node, table: map<char, string>, out: string, text: string)
    requires root.Internal? && Covered(table, text)
    requires forall c :: c in table ==> LeafPath(root, table[c], c)
    ensures Walk(root, Cursor(out, root), Codeword(table, text)) == Cursor(out + text, root)
    decreases |text|
  {
    if text == [] {
      assert out + text == out;
    } else {
      var k := |text| - 1;
      CodewordWalk(root, table, out, text[..k]);
      WalkAppend(root, Cursor(out, root), Codeword(table, text[..k]), table[text[k]]);
      WalkLeafPath(root, out + text[..k], root, table[text[k]], text[k]);
      assert out + text[..k] + [text[k]] == out + text;
    }
  }

  /** A codebook's table covers its text, holds binary codes, and decoding the
      text's codeword gives the text back, ending at the root. */
  lemma DecodeEncode(book: Codebook, text: string)
    requires IsCodebookOf(book, text)
    ensures Covered(book.table, text)
    ensures forall c :: c in book.table ==> IsBinary(book.table[c])
    ensures Walk(book.root, Cursor([], book.root), Codeword(book.table, text)) == Cursor(text, book.root)
  {
    CodeTableFacts(book.root);
    CodebookSymbols(book, text);
    assert Covered(book.table, text);
    CodewordWalk(book.root, book.table, [], text);
    assert [] + text == text;
  }

  /** A text made of one repeated character builds a single-leaf tree, and
      that tree's table gives the character the empty code: every such text,
      of any length, encodes to no digits at all. */
  lemma {:induction false} SingleLeafCodewordEmpty(c: char, w: int, text: string)
    requires forall i :: 0 <= i < |text| ==> text[i] == c
    ensures Covered(CreateCodeTable(Leaf(c, w), "", map[]), text)
    ensures Codeword(CreateCodeTable(Leaf(c, w), "", map[]), text) == []
    decreases |text|
  {
    LeafRootHasEmptyCode(c, w);
    if text != [] {
      SingleLeafCodewordEmpty(c, w, text[..|text| - 1]);
    }
  }

  /** So "a" and "aa" get the same, empty, encoding and no decoder can give
      both back. */
  lemma SingleLeafLosesText()
    ensures Codeword(CreateCodeTable(Leaf('a', 2), "", map[]), "a")
         == Codeword(CreateCodeTable(Leaf('a', 2), "", map[]), "aa") == []
  {
    SingleLeafCodewordEmpty('a', 2, "a");
    SingleLeafCodewordEmpty('a', 2, "aa");
  }

  // ---------------------------------------------------------------------
  // Encode and decode
  // ---------------------------------------------------------------------

  /** The digit the encoder writes for one character of a code. */
  function Digit(ch: char): char {
    if ch == '0' then '0' else '1'
  }

  /** `outEncodedTextNoPQ` (encoding loop): writes, for each character of the
      text, the digits of its code, so the output is the text's codeword with
      every digit written as '0' or '1'. */
  method EncodeText(table: map<char, string>, text: string) returns (encoded: string)
    requires Covered(table, text)
    ensures |encoded| == |Codeword(table, text)|
    ensures forall k :: 0 <= k < |encoded| ==> encoded[k] == Digit(Codeword(table, text)[k])
  {
    encoded := [];
    var i := 0;
    while i < |text|
      invariant 0 <= i <= |text|
      invariant |encoded| == |Codeword(table, text[..i])|
      invariant forall k :: 0 <= k < |encoded| ==> encoded[k] == Digit(Codeword(table, text[..i])[k])
    {
      var code := table[text[i]];
      ghost var before := Codeword(table, text[..i]);
      assert text[..i + 1][..i] == text[..i];
      assert Codeword(table, text[..i + 1]) == before + code;
      var j := 0;
      while j < |code|
        invariant 0 <= j <= |code|
        invariant |encoded| == |before| + j
        invariant forall k :: 0 <= k < |encoded| ==> encoded[k] == Digit((before + code)[k])
      {
        if code[j] == '0' {
          encoded := encoded + ['0'];
        } else {
          encoded := encoded + ['1'];
        }
        j := j + 1;
      }
      i := i + 1;
    }
    assert text[..i] == text;
  }

  /** An encoding of binary codes is the codeword itself. */
  lemma EncodedIsCodeword(encoded: string, code: string)
    requires IsBinary(code) && |encoded| == |code|
    requires forall k :: 0 <= k < |encoded| ==> encoded[k] == Digit(code[k])
    ensures encoded == code
  {
  }

  /** `outDecodedTextNoPQ` (decoding loop): walks the tree along the digits
      and collects the symbol of every leaf reached. Digits left over after the
      last leaf are dropped, as the Java code drops them. */
  method DecodeText(root: Node, encoded: string) returns (text: string)
    requires root.Internal?
    ensures text == Walk(root, Cursor([], root), encoded).out
  {
    var cur := root;
    var out := [];
    var i := 0;
    while i < |encoded|
      invariant 0 <= i <= |encoded|
      invariant Cursor(out, cur) == Walk(root, Cursor([], root), encoded[..i])
    {
      assert encoded[..i + 1][..i] == encoded[..i];
      if encoded[i] == '0' {
        cur := cur.left;
      } else {
        cur := cur.right;
      }
      if cur.Leaf? {
        out := out + [cur.c];
        cur := root;
      }
      i := i + 1;
    }
    assert encoded[..i] == encoded;
    text := out;
  }

  // ---------------------------------------------------------------------
  // Packing code digits into bytes
  // ---------------------------------------------------------------------

  /** The values a Java `byte` holds. */
  type JavaByte = b: int | -128 <= b < 128

  /** Number of code digits packed into one byte. */
  const GROUP: int := 7

  function Pow2(k: nat): (r: nat)
    ensures 0 < r
  {
    if k == 0 then 1 else 2 * Pow2(k - 1)
  }

  /** The bit the compressor shifts in for one character of a code. */
  function BitOf(ch: char): int {
    if ch == '1' then 1 else 0
  }

  /** The digits of `g` read as a binary number, most significant first. */
  function GroupValue(g: string): (r: int)
    ensures 0 <= r < Pow2(|g|)
  {
    if g == [] then 0 else 2 * GroupValue(g[..|g| - 1]) + BitOf(g[|g| - 1])
  }

  /** Whole groups of seven digits, one byte each, in order. */
  function PackGroups(x: string): (r: seq<JavaByte>)
    requires |x| % GROUP == 0
    ensures |r| == |x| / GROUP
    ensures forall i :: 0 <= i < |r| ==> 0 <= r[i] < 128
    decreases |x|
  {
    if x == [] then []
    else
      var v := GroupValue(x[|x| - GROUP..]);
      assert Pow2(GROUP) == 128;
      PackGroups(x[..|x| - GROUP]) + [v]
  }

  function Zeros(k: nat): (r: string)
    ensures |r| == k && forall i :: 0 <= i < k ==> r[i] == '0'
  {
    seq(k, _ => '0')
  }

  /** The zero digits that fill the last group. */
  function Padding(m: nat): (r: nat)
    ensures r < GROUP && (m + r) % GROUP == 0
  {
    (GROUP - m % GROUP) % GROUP
  }

  /** The bytes the compressor writes for a codeword: its groups of seven
      digits, the last one filled up with zeros. */
  function Pack(e: string): seq<JavaByte> {
    PackGroups(e + Zeros(Padding(|e|)))
  }

  /** `b >> j` on a Java int: arithmetic shift right, which for every int is
      halving with the quotient rounded down, `j` times. */
  function Shr(v: int, j: nat): int
    decreases j
  {
    if j == 0 then v else Shr(v / 2, j - 1)
  }

  /** The digit the extractor reads as bit `j` of a byte: `((b >> j) & 1) == 1`. */
  function BitChar(b: int, j: nat): char {
    if Shr(b, j) % 2 == 1 then '1' else '0'
  }

  /** The seven digits the extractor reads from one byte, bit 6 down to bit 0. */
  function ByteDigits(b: int): (r: string)
    ensures |r| == GROUP
  {
    seq(GROUP, k requires 0 <= k < GROUP => BitChar(b, GROUP - 1 - k))
  }

  /** Every digit the extractor can read from the bytes, in order. */
  function Unpack(bs: seq<JavaByte>): (r: string)
    ensures |r| == GROUP * |bs|
  {
    if bs == [] then [] else Unpack(bs[..|bs| - 1]) + ByteDigits(bs[|bs| - 1])
  }

  /** Shifting a group's value right by the distance of digit `k` from the end
      brings that digit to the lowest bit. */
  lemma {:induction false} GroupBits(g: string, k: int)
    requires 0 <= k < |g|
    ensures Shr(GroupValue(g), |g| - 1 - k) % 2 == BitOf(g[k])
    decreases |g|
  {
    var p := g[..|g| - 1];
    var v := GroupValue(g);
    assert v == 2 * GroupValue(p) + BitOf(g[|g| - 1]);
    if k < |g| - 1 {
      assert v / 2 == GroupValue(p);
      GroupBits(p, k);
      assert p[k] == g[k];
    }
  }

  /** Reading back the byte of a group of binary digits gives the group. */
  lemma ByteOfGroup(g: string)
    requires |g| == GROUP && IsBinary(g)
    ensures ByteDigits(GroupValue(g)) == g
  {
    forall k | 0 <= k < GROUP
      ensures ByteDigits(GroupValue(g))[k] == g[k]
    {
      GroupBits(g, k);
      assert g[k] == '0' || g[k] == '1';
      assert ByteDigits(GroupValue(g))[k] == BitChar(GroupValue(g), |g| - 1 - k);
    }
  }

  /** Reading back whole groups of binary digits gives the digits. */
  lemma {:induction false} UnpackGroups(x: string)
    requires |x| % GROUP == 0 && IsBinary(x)
    ensures Unpack(PackGroups(x)) == x
    decreases |x|
  {
    if x != [] {
      var m := |x| - GROUP;
      var bs := PackGroups(x);
      assert bs[..|bs| - 1] == PackGroups(x[..m]);
      UnpackGroups(x[..m]);
      ByteOfGroup(x[m..]);
      assert x[..m] + x[m..] == x;
    }
  }

  /** Packing a binary codeword takes one byte per seven digits, rounded up,
      every byte below 128, and reading the bytes back gives the codeword
      followed by the zeros that padded its last group. */
  lemma PackRoundTrip(e: string)
    requires IsBinary(e)
    ensures |Pack(e)| == (|e| + GROUP - 1) / GROUP
    ensures forall i :: 0 <= i < |Pack(e)| ==> 0 <= Pack(e)[i] < 128
    ensures Unpack(Pack(e)) == e + Zeros(Padding(|e|))
    ensures |e| <= |Unpack(Pack(e))| && Unpack(Pack(e))[..|e|] == e
  {
    var x := e + Zeros(Padding(|e|));
    UnpackGroups(x);
    assert x[..|e|] == e;
  }

  /** Digit `k` of byte `i` sits at position `7 * i + k` of what is read back. */
  lemma {:induction false} UnpackAt(bs: seq<JavaByte>, i: int, k: int)
    requires 0 <= i < |bs| && 0 <= k < GROUP
    ensures Unpack(bs)[GROUP * i + k] == BitChar(bs[i], GROUP - 1 - k)
    decreases |bs|
  {
    var last := |bs| - 1;
    if i < last {
      UnpackAt(bs[..last], i, k);
    }
  }

  // ---------------------------------------------------------------------
  // Compress and extract
  // ---------------------------------------------------------------------

  /** The compressor's state: the bytes written hold the whole groups of
      `done`, and the buffer holds the `n` digits of `pending` not yet written. */
  ghost predicate Packing(bytes: seq<JavaByte>, buffer: int, n: int, done: string, pending: string) {
    && |done| % GROUP == 0 && |pending| == n < GROUP
    && bytes == PackGroups(done) && buffer == GroupValue(pending)
  }

  /** One digit of the compressor's inner loop body: shift the buffer left,
      set the low bit for a '1', and write the buffer once it holds seven
      digits. */
  method ShiftIn(bytes: seq<JavaByte>, buffer: int, n: int, ghost done: string, ghost pending: string, ch: char)
    returns (bytes': seq<JavaByte>, buffer': int, n': int, ghost done': string, ghost pending': string)
    requires Packing(bytes, buffer, n, done, pending)
    ensures Packing(bytes', buffer', n', done', pending')
    ensures done' + pending' == done + pending + [ch]
    ensures n < GROUP - 1 ==> n' == n + 1 && done' == done
    ensures n == GROUP - 1 ==> n' == 0 && pending' == []
    ensures n < GROUP - 1 ==> bytes' == bytes && buffer' == 2 * buffer + BitOf(ch)
    ensures n == GROUP - 1 ==> bytes' == bytes + [2 * buffer + BitOf(ch)] && buffer' == 0
  {
    ghost var p := pending + [ch];
    ShiftDigit(pending, ch);
    // `buffer <<= 1`, then `buffer |= 1` sets the bit the shift cleared
    var v := buffer * 2;
    if ch == '1' {
      v := v + 1;
    }
    assert v == GroupValue(p);
    assert done + p == done + pending + [ch];
    if n + 1 == GROUP {
      FullGroup(done, p);
      bytes', buffer', n' := bytes + [v], 0, 0;
      done', pending' := done + p, [];
      assert done' + pending' == done + p;
    } else {
      bytes', buffer', n' := bytes, v, n + 1;
      done', pending' := done, p;
    }
  }

  /** Shifting a digit into a group doubles its value and adds the digit. */
  lemma ShiftDigit(g: string, ch: char)
    ensures GroupValue(g + [ch]) == 2 * GroupValue(g) + BitOf(ch)
  {
    assert (g + [ch])[..|g|] == g;
  }

  /** A full group is written as one byte below 128, after the bytes of the
      groups before it. */
  lemma FullGroup(done: string, g: string)
    requires |done| % GROUP == 0 && |g| == GROUP
    ensures 0 <= GroupValue(g) < 128
    ensures |done + g| % GROUP == 0
    ensures PackGroups(done + g) == PackGroups(done) + [GroupValue(g)]
  {
    assert Pow2(GROUP) == 128;
    EmitGroup(done, g);
  }

  /** `outCompressedTextNoPQ` (packing loops): shifts the digits of each code
      into a buffer, writes the buffer every seven digits, then shifts in zeros
      until the last group is full. Returns the bytes and the number of code
      digits. */
  method CompressText(table: map<char, string>, text: string) returns (bytes: seq<JavaByte>, bitCount: int)
    requires Covered(table, text)
    ensures bitCount == |Codeword(table, text)|
    ensures bytes == Pack(Codeword(table, text))
  {
    bytes := [];
    bitCount := 0;
    var buffer := 0;
    var n := 0;
    ghost var done: string := [];
    ghost var pending: string := [];
    var i := 0;
    while i < |text|
      invariant 0 <= i <= |text|
      invariant Packing(bytes, buffer, n, done, pending)
      invariant done + pending == Codeword(table, text[..i])
      invariant bitCount == |done + pending|
    {
      var code := table[text[i]];
      assert text[..i + 1][..i] == text[..i];
      assert Codeword(table, text[..i + 1]) == Codeword(table, text[..i]) + code;
      var j := 0;
      while j < |code|
        invariant 0 <= j <= |code|
        invariant Packing(bytes, buffer, n, done, pending)
        invariant done + pending == Codeword(table, text[..i]) + code[..j]
        invariant bitCount == |done + pending|
      {
        assert code[..j + 1] == code[..j] + [code[j]];
        bytes, buffer, n, done, pending := ShiftIn(bytes, buffer, n, done, pending, code[j]);
        bitCount := bitCount + 1;
        j := j + 1;
      }
      assert code[..j] == code;
      i := i + 1;
    }
    assert text[..i] == text;
    bytes := Flush(bytes, buffer, n, done, pending);
  }

  /** The compressor's closing loop: shift zeros into a partly filled buffer
      until it is written, so the last group is padded with zeros. */
  method Flush(bytes: seq<JavaByte>, buffer: int, n: int, ghost done: string, ghost pending: string)
    returns (bytes': seq<JavaByte>)
    requires Packing(bytes, buffer, n, done, pending)
    ensures bytes' == Pack(done + pending)
  {
    ghost var e := done + pending;
    bytes' := bytes;
    var buffer', n' := buffer, n;
    ghost var done', pending' := done, pending;
    ghost var z := 0;
    while n' > 0
      invariant Packing(bytes', buffer', n', done', pending')
      invariant done' + pending' == e + Zeros(z)
      invariant |done'| + n' == |e| + z
      invariant n' > 0 ==> |done'| < |e|
      invariant n' == 0 ==> pending' == []
      invariant z < GROUP
      decreases if n' == 0 then 0 else GROUP - n'
    {
      ZerosSnoc(z);
      bytes', buffer', n', done', pending' := ShiftIn(bytes', buffer', n', done', pending', '0');
      z := z + 1;
    }
    assert pending' == [] && done' == e + Zeros(z);
    PaddingUnique(|e|, z);
  }

  lemma ZerosSnoc(z: nat)
    ensures Zeros(z + 1) == Zeros(z) + ['0']
  {
  }

  /** The padding is the only count of zeros below seven that fills the last
      group. */
  lemma PaddingUnique(m: nat, z: nat)
    requires z < GROUP && (m + z) % GROUP == 0
    ensures z == Padding(m)
  {
  }

  /** Writing a full buffer: the group joins the digits already written and
      its value is the next byte. */
  lemma EmitGroup(done: string, pending: string)
    requires |done| % GROUP == 0 && |pending| == GROUP
    ensures PackGroups(done + pending) == PackGroups(done) + [GroupValue(pending)]
  {
    var x := done + pending;
    assert x[..|x| - GROUP] == done && x[|x| - GROUP..] == pending;
  }

  /** How many of the `available` digits the extractor reads: `bitCount`,
      but never fewer than none nor more than there are. */
  function Budget(bitCount: int, available: nat): (r: nat)
    ensures r <= available
    ensures 0 < bitCount <= available ==> r == bitCount
  {
    if bitCount <= 0 then 0 else if bitCount < available then bitCount else available
  }

  /** Below the number of available digits, the extractor's test against
      `bitCount` is the test against the budget. */
  lemma BudgetBelow(bitCount: int, available: nat, c: int)
    requires 0 <= c < available
    ensures c < bitCount <==> c < Budget(bitCount, available)
  {
  }

  /** One bit of the extractor's inner loop body: `((b >> j) & 1) == 1` goes
      right and anything else left; a leaf emits its symbol and goes back to
      the root. */
  method Advance(root: Node, out: string, cur: Node, b: JavaByte, j: nat) returns (out': string, cur': Node)
    requires root.Internal? && cur.Internal?
    ensures Cursor(out', cur') == Step(root, Cursor(out, cur), BitChar(b, j))
  {
    if Shr(b, j) % 2 == 1 {
      cur' := cur.right;
    } else {
      cur' := cur.left;
    }
    out' := out;
    if cur'.Leaf? {
      out' := out + [cur'.c];
      cur' := root;
    }
  }

  /** Reading the digit at `count` of a byte's digits is reading bit `j` of
      the byte. */
  lemma ExtractStep(root: Node, bits: string, b: JavaByte, base: int, count: int, j: int)
    requires root.Internal?
    requires 0 <= base && base + GROUP <= |bits| && bits[base..base + GROUP] == ByteDigits(b)
    requires 0 <= j < GROUP && count == base + GROUP - 1 - j
    ensures Walk(root, Cursor([], root), bits[..count + 1])
      == Step(root, Walk(root, Cursor([], root), bits[..count]), BitChar(b, j))
  {
    var k := GROUP - 1 - j;
    assert bits[count] == bits[base..base + GROUP][k];
    assert GROUP - 1 - k == j;
    assert bits[count] == BitChar(b, j);
    WalkSnoc(root, Cursor([], root), bits, count);
  }

  /** `outExtractedTextNoPQ` (unpacking loops): reads bits 6 down to 0 of each
      byte, stopping once `bitCount` digits have been read, and walks the tree
      along them, a set bit going right. */
  method ExtractText(root: Node, compressed: seq<JavaByte>, bitCount: int) returns (text: string)
    requires root.Internal?
    ensures text == Walk(root, Cursor([], root), Unpack(compressed)[..Budget(bitCount, GROUP * |compressed|)]).out
  {
    ghost var bits := Unpack(compressed);
    ghost var budget := Budget(bitCount, |bits|);
    var cur := root;
    var out := [];
    var count := 0;
    var i := 0;
    while i < |compressed|
      invariant 0 <= i <= |compressed|
      invariant count == MinInt(budget, GROUP * i)
      invariant Cursor(out, cur) == Walk(root, Cursor([], root), bits[..count])
    {
      UnpackByte(compressed, i);
      out, cur, count := ExtractByte(root, compressed[i], out, cur, count, bitCount, bits, GROUP * i);
      i := i + 1;
    }
    text := out;
  }

  /** The inner loop of `outExtractedTextNoPQ` for the byte whose digits start
      at position `base` of `bits`. */
  method ExtractByte(root: Node, b: JavaByte, out: string, cur: Node, count: int, bitCount: int,
                     ghost bits: string, ghost base: int)
    returns (out': string, cur': Node, count': int)
    requires root.Internal? && cur.Internal?
    requires 0 <= base && base + GROUP <= |bits| && bits[base..base + GROUP] == ByteDigits(b)
    requires count == MinInt(Budget(bitCount, |bits|), base)
    requires Cursor(out, cur) == Walk(root, Cursor([], root), bits[..count])
    ensures count' == MinInt(Budget(bitCount, |bits|), base + GROUP)
    ensures Cursor(out', cur') == Walk(root, Cursor([], root), bits[..count'])
  {
    ghost var budget := Budget(bitCount, |bits|);
    out', cur', count' := out, cur, count;
    var j := GROUP - 1;
    while j >= 0
      invariant -1 <= j < GROUP
      invariant count' == MinInt(budget, base + GROUP - 1 - j)
      invariant Cursor(out', cur') == Walk(root, Cursor([], root), bits[..count'])
    {
      BudgetBelow(bitCount, |bits|, count');
      if count' >= bitCount {
        break;
      }
      ExtractStep(root, bits, b, base, count', j);
      out', cur' := Advance(root, out', cur', b, j);
      count' := count' + 1;
      j := j - 1;
    }
  }

  /** The seven digits read back from byte `i`. */
  lemma UnpackByte(bs: seq<JavaByte>, i: int)
    requires 0 <= i < |bs|
    ensures Unpack(bs)[GROUP * i..GROUP * i + GROUP] == ByteDigits(bs[i])
  {
    var u := Unpack(bs);
    var slice := u[GROUP * i..GROUP * i + GROUP];
    forall k | 0 <= k < GROUP
      ensures slice[k] == ByteDigits(bs[i])[k]
    {
      assert slice[k] == u[GROUP * i + k];
      UnpackAt(bs, i, k);
    }
    assert slice == ByteDigits(bs[i]);
  }

  function MinInt(a: int, b: int): int {
    if a < b then a else b
  }

  // ---------------------------------------------------------------------
  // Whole sessions
  // ---------------------------------------------------------------------

  /** What `encode()` produces: the codebook, the digit string and the text
      decoded from it. */
  datatype Encoded = Encoded(book: Codebook, digits: string, decoded: string)

  /** What `compress()` produces: the codebook, the bytes, the number of code
      digits in them, and the text extracted from them. */
  datatype Compressed = Compressed(book: Codebook, bytes: seq<JavaByte>, bitCount: int, extracted: string)

  /** Extracting the compressed codeword of a text, reading no more than its
      `bitCount` digits, gives the text back: the padding zeros are never
      walked. */
  lemma ExtractCompress(book: Codebook, text: string)
    requires IsCodebookOf(book, text)
    ensures Covered(book.table, text)
    ensures var e := Codeword(book.table, text);
      Walk(book.root, Cursor([], book.root), Unpack(Pack(e))[..Budget(|e|, GROUP * |Pack(e)|)]).out == text
  {
    DecodeEncode(book, text);
    var e := Codeword(book.table, text);
    CodewordBinary(book.table, text);
    PackRoundTrip(e);
    var bits := Unpack(Pack(e));
    if |e| == 0 {
      assert bits[..Budget(|e|, GROUP * |Pack(e)|)] == e;
    } else {
      assert Budget(|e|, GROUP * |Pack(e)|) == |e|;
    }
  }

  /** `encode()`: build the codebook, encode the text, decode it again. The
      Java code asserts that the decoded text equals the original. */
  method EncodeSession(text: string) returns (r: Result<Encoded, HuffmanError>)
    ensures !InAlphabet(text) ==> r == Failure(SymbolOutOfRange)
    ensures InAlphabet(text) && |text| == 0 ==> r == Failure(EmptyText)
    ensures InAlphabet(text) && 0 < |text| && !Varied(text) ==> r == Failure(SingleSymbol)
    ensures r.Success? <==> InAlphabet(text) && Varied(text)
    ensures r.Success? ==> IsCodebookOf(r.value.book, text) && Covered(r.value.book.table, text)
    ensures r.Success? ==> r.value.digits == Codeword(r.value.book.table, text)
    ensures r.Success? ==> r.value.decoded == Walk(r.value.book.root, Cursor([], r.value.book.root), r.value.digits).out
    ensures r.Success? ==> r.value.decoded == text && IsBinary(r.value.digits)
  {
    var book := Initialize(text);
    if book.Failure? {
      return Failure(book.error);
    }
    var digits, decoded := EncodeDecode(book.value, text);
    return Success(Encoded(book.value, digits, decoded));
  }

  /** `outEncodedTextNoPQ` followed by `outDecodedTextNoPQ` with a codebook
      of the text: the digits are the text's codeword and decoding them gives
      the text back. */
  method EncodeDecode(book: Codebook, text: string) returns (digits: string, decoded: string)
    requires IsCodebookOf(book, text)
    ensures Covered(book.table, text)
    ensures digits == Codeword(book.table, text) && IsBinary(digits)
    ensures decoded == Walk(book.root, Cursor([], book.root), digits).out
    ensures decoded == text
  {
    DecodeEncode(book, text);
    CodewordBinary(book.table, text);
    digits := EncodeText(book.table, text);
    EncodedIsCodeword(digits, Codeword(book.table, text));
    decoded := DecodeText(book.root, digits);
  }

  /** `compress()`: build the codebook, compress the text, extract it again.
      The Java code asserts that the extracted text equals the original. */
  method CompressSession(text: string) returns (r: Result<Compressed, HuffmanError>)
    ensures !InAlphabet(text) ==> r == Failure(SymbolOutOfRange)
    ensures InAlphabet(text) && |text| == 0 ==> r == Failure(EmptyText)
    ensures InAlphabet(text) && 0 < |text| && !Varied(text) ==> r == Failure(SingleSymbol)
    ensures r.Success? <==> InAlphabet(text) && Varied(text)
    ensures r.Success? ==> IsCodebookOf(r.value.book, text) && Covered(r.value.book.table, text)
    ensures r.Success? ==> r.value.bitCount == |Codeword(r.value.book.table, text)|
    ensures r.Success? ==> r.value.bytes == Pack(Codeword(r.value.book.table, text))
    ensures r.Success? ==> r.value.extracted == Walk(r.value.book.root, Cursor([], r.value.book.root),
      Unpack(r.value.bytes)[..Budget(r.value.bitCount, GROUP * |r.value.bytes|)]).out
    ensures r.Success? ==> r.value.extracted == text
    ensures r.Success? ==> |r.value.bytes| == (r.value.bitCount + GROUP - 1) / GROUP
    ensures r.Success? ==> forall i :: 0 <= i < |r.value.bytes| ==> 0 <= r.value.bytes[i] < 128
  {
    var book := Initialize(text);
    if book.Failure? {
      return Failure(book.error);
    }
    var bytes, bitCount, extracted := CompressExtract(book.value, text);
    return Success(Compressed(book.value, bytes, bitCount, extracted));
  }

  /** `outCompressedTextNoPQ` followed by `outExtractedTextNoPQ` with a
      codebook of the text: the bytes pack the text's codeword, `bitCount` is
      its length, and extracting gives the text back. */
  method CompressExtract(book: Codebook, text: string) returns (bytes: seq<JavaByte>, bitCount: int, extracted: string)
    requires IsCodebookOf(book, text)
    ensures Covered(book.table, text)
    ensures bitCount == |Codeword(book.table, text)|
    ensures bytes == Pack(Codeword(book.table, text))
    ensures |bytes| == (bitCount + GROUP - 1) / GROUP
    ensures forall i :: 0 <= i < |bytes| ==> 0 <= bytes[i] < 128
    ensures extracted == Walk(book.root, Cursor([], book.root), Unpack(bytes)[..Budget(bitCount, GROUP * |bytes|)]).out
    ensures extracted == text
  {
    DecodeEncode(book, text);
    ExtractCompress(book, text);
    CodewordBinary(book.table, text);
    bytes, bitCount := CompressText(book.table, text);
    PackRoundTrip(Codeword(book.table, text));
    extracted := ExtractText(book.root, bytes, bitCount);
  }
}
