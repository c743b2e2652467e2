/**
 * Huffman decoding: walking the tree bit by bit, writing the character of
 * every leaf reached and starting again from the root, until the leaf of
 * PSEUDO_EOF. Also the round trip: decoding what the encoder wrote with the
 * codes of the same tree gives back the input.
 */
module HuffmanDecode {
  import opened HuffmanTree
  import opened HuffmanCode

  /**
   * How decodeData ends: it reaches PSEUDO_EOF having written `output`, it
   * dereferences the null pointer, or it never stops (the bits run out away
   * from PSEUDO_EOF, after which readBit keeps answering end-of-stream).
   */
  datatype Decoding = Decoded(output: seq<byte>) | NullNode | Unterminated

  /** The byte the stream receives for a character: its low eight bits. */
  function ByteOf(ch: int): byte
  {
    (ch % 256) as byte
  }

  /**
   * decodeData from node `curr`, with `bits` still to read and `output`
   * written so far. A bit other than 0 or 1 leaves `curr` where it is.
   */
  function DecodeFrom(root: Tree, curr: Tree, bits: seq<int>, output: seq<byte>): (r: Decoding)
    ensures r.Decoded? ==> |output| <= |r.output| && r.output[..|output|] == output
    decreases |bits|
  {
    if curr.Nil? then NullNode
    else if |bits| == 0 then AtEnd(root, curr, output)
    else
      var next := if bits[0] == 0 then curr.zero else if bits[0] == 1 then curr.one else curr;
      if next.Nil? then NullNode
      else if IsLeaf(next) then
        if next.character == PSEUDO_EOF then Decoded(output)
        else DecodeFrom(root, root, bits[1..], output + [ByteOf(next.character)])
      else DecodeFrom(root, next, bits[1..], output)
  }

  /**
   * The rounds after the last bit: readBit answers end-of-stream, so `curr`
   * stays put. Only a leaf can end the loop: PSEUDO_EOF at once, another
   * character by sending the walk back to a root that is PSEUDO_EOF's leaf.
   */
  function AtEnd(root: Tree, curr: Tree, output: seq<byte>): Decoding
    requires curr.Node?
  {
    if !IsLeaf(curr) then Unterminated
    else if curr.character == PSEUDO_EOF then Decoded(output)
    else if root.Node? && IsLeaf(root) && root.character == PSEUDO_EOF then Decoded(output + [ByteOf(curr.character)])
    else Unterminated
  }

  /** decodeData: what it writes, or how it fails, for the bits of the stream. */
  method DecodeData(bits: seq<int>, encodingTree: Tree) returns (r: Decoding)
    ensures r == DecodeFrom(encodingTree, encodingTree, bits, [])
  {
    var curr := encodingTree;
    var output: seq<byte> := [];
    var i := 0;
    while i < |bits|
      invariant 0 <= i <= |bits|
      invariant DecodeFrom(encodingTree, curr, bits[i..], output) == DecodeFrom(encodingTree, encodingTree, bits, [])
    {
      if curr.Nil? {
        return NullNode;
      }
      assert bits[i..][1..] == bits[i + 1..];
      var bit := bits[i];
      i := i + 1;
      if bit == 0 {
        curr := curr.zero;
      } else if bit == 1 {
        curr := curr.one;
      }
      if curr.Nil? {
        return NullNode;
      }
      if IsLeaf(curr) {
        var ch := curr.character;
        if ch == PSEUDO_EOF {
          return Decoded(output);
        }
        output := output + [ByteOf(ch)];
        curr := encodingTree;
      }
    }
    // from here on readBit answers end-of-stream and curr no longer moves
    if curr.Nil? {
      return NullNode;
    }
    if !IsLeaf(curr) {
      return Unterminated;
    }
    var ch := curr.character;
    if ch == PSEUDO_EOF {
      return Decoded(output);
    }
    output := output + [ByteOf(ch)];
    curr := encodingTree;
    if IsLeaf(curr) && curr.character == PSEUDO_EOF {
      return Decoded(output);
    }
    return Unterminated;
  }

  /**
   * Reading the bits of a code that leads from an inner node to the leaf of
   * c ends the walk there: decoding stops at PSEUDO_EOF, or writes c and
   * goes on from the root with the bits that follow.
   */
  lemma {:induction false} DecodeCode(root: Tree, t: Tree, code: string, c: int, rest: seq<int>, output: seq<byte>)
    requires Reaches(t, code, c) && |code| > 0
    ensures DecodeFrom(root, t, Bits(code) + rest, output)
      == if c == PSEUDO_EOF then Decoded(output) else DecodeFrom(root, root, rest, output + [ByteOf(c)])
    decreases |code|
  {
    var bits := Bits(code) + rest;
    assert bits[0] == code[0] as int - '0' as int;
    assert bits[1..] == Bits(code[1..]) + rest;
    var next := if code[0] == '0' then t.zero else t.one;
    assert Reaches(next, code[1..], c);
    if |code| > 1 {
      DecodeCode(root, next, code[1..], c, rest, output);
    }
  }

  /**
   * Decoding the codes of a string of bytes followed by the code of
   * PSEUDO_EOF gives back the string, when the root is an inner node and
   * every byte and PSEUDO_EOF have a leaf.
   */
  lemma {:induction false} DecodeCodes(root: Tree, input: seq<byte>, output: seq<byte>)
    requires root.Node? && !IsLeaf(root) && UniqueLeaves(root) && PSEUDO_EOF in LeafChars(root)
    requires forall i :: 0 <= i < |input| ==> input[i] as int in LeafChars(root)
    ensures DecodeFrom(root, root, Encoded(BuildEncodingMap(root), input), output) == Decoded(output + input)
    decreases |input|
  {
    var m := BuildEncodingMap(root);
    if |input| == 0 {
      CodeLeadsToLeaf(root, PSEUDO_EOF);
      assert Encoded(m, input) == Bits(m[PSEUDO_EOF]) + [];
      DecodeCode(root, root, m[PSEUDO_EOF], PSEUDO_EOF, [], output);
    } else {
      var c := input[0] as int;
      CodeLeadsToLeaf(root, c);
      assert Encoded(m, input) == Bits(m[c]) + Encoded(m, input[1..]);
      DecodeCode(root, root, m[c], c, Encoded(m, input[1..]), output);
      assert ByteOf(c) == input[0];
      DecodeCodes(root, input[1..], output + [input[0]]);
      assert output + [input[0]] + input[1..] == output + input;
    }
  }

  /** The encoding map holds a code for each leaf character, leading to its leaf. */
  lemma CodeLeadsToLeaf(encodingTree: Tree, c: int)
    requires UniqueLeaves(encodingTree) && c in LeafChars(encodingTree)
    ensures c in BuildEncodingMap(encodingTree) && Reaches(encodingTree, BuildEncodingMap(encodingTree)[c], c)
  {
    EncodingMapCodes(encodingTree);
  }

  /**
   * The round trip over one tree: when every byte of the input and
   * PSEUDO_EOF have a leaf, decoding what encodeData writes with the tree's
   * encoding map gives back exactly the input.
   */
  lemma RoundTrip(encodingTree: Tree, input: seq<byte>)
    requires encodingTree.Node? && UniqueLeaves(encodingTree) && PSEUDO_EOF in LeafChars(encodingTree)
    requires forall i :: 0 <= i < |input| ==> input[i] as int in LeafChars(encodingTree)
    ensures DecodeFrom(encodingTree, encodingTree, Encoded(BuildEncodingMap(encodingTree), input), []) == Decoded(input)
  {
    if IsLeaf(encodingTree) {
      // the only leaf is PSEUDO_EOF's, no byte has one, and its code is empty
      assert LeafChars(encodingTree) == {encodingTree.character};
      if |input| > 0 {
        assert input[0] as int in LeafChars(encodingTree);
      }
      EncodingMapCodes(encodingTree);
      assert Encoded(BuildEncodingMap(encodingTree), input) == [];
    } else {
      DecodeCodes(encodingTree, input, []);
    }
  }

  /** The character of a leaf pair is a leaf character. */
  lemma {:induction false} CharOfLeaf(t: Tree, p: (int, nat))
    requires p in Leaves(t)
    ensures p.0 in LeafChars(t)
  {
    if t.Node? && !(t.zero.Nil? && t.one.Nil?) {
      if p in Leaves(t.zero) {
        CharOfLeaf(t.zero, p);
      } else {
        CharOfLeaf(t.one, p);
      }
    }
  }

  /** A leaf character is the character of some leaf pair. */
  lemma {:induction false} LeafOfChar(t: Tree, c: int) returns (p: (int, nat))
    requires c in LeafChars(t)
    ensures p in Leaves(t) && p.0 == c
  {
    if t.zero.Nil? && t.one.Nil? {
      p := (t.character, t.count);
    } else if c in LeafChars(t.zero) {
      p := LeafOfChar(t.zero, c);
    } else {
      p := LeafOfChar(t.one, c);
    }
  }

  /** No pair is a leaf more often than once, and only the table's entries are leaves at all. */
  ghost predicate AtMostOnce(leaves: seq<(int, nat)>, freqTable: map<int, nat>)
  {
    forall p: (int, nat) :: multiset(leaves)[p] <= if p.0 in freqTable && p.1 == freqTable[p.0] then 1 else 0
  }

  /** Both halves of a leaf sequence keep AtMostOnce, and no pair is in both. */
  lemma AtMostOnceSplit(a: seq<(int, nat)>, b: seq<(int, nat)>, freqTable: map<int, nat>)
    requires AtMostOnce(a + b, freqTable)
    ensures AtMostOnce(a, freqTable) && AtMostOnce(b, freqTable)
    ensures forall p :: p in a ==> p !in b
  {
    assert multiset(a + b) == multiset(a) + multiset(b);
    forall p | p in a
      ensures p !in b
    {
      assert multiset(a)[p] >= 1;
      assert multiset(a + b)[p] == multiset(a)[p] + multiset(b)[p] <= 1;
      assert multiset(b)[p] == 0;
    }
  }

  /** Under AtMostOnce, two leaf pairs with the same character are the same pair. */
  lemma SameCharSamePair(leaves: seq<(int, nat)>, freqTable: map<int, nat>, p: (int, nat), q: (int, nat))
    requires AtMostOnce(leaves, freqTable) && p in leaves && q in leaves && p.0 == q.0
    ensures p == q
  {
    assert multiset(leaves)[p] >= 1 && multiset(leaves)[q] >= 1;
  }

  /** When each table entry is a leaf at most once, no two leaves share a character. */
  lemma {:induction false} UniqueWhenAtMostOnce(t: Tree, freqTable: map<int, nat>)
    requires AtMostOnce(Leaves(t), freqTable)
    ensures UniqueLeaves(t)
  {
    if t.Node? && !(t.zero.Nil? && t.one.Nil?) {
      var lz, lo := Leaves(t.zero), Leaves(t.one);
      AtMostOnceSplit(lz, lo, freqTable);
      UniqueWhenAtMostOnce(t.zero, freqTable);
      UniqueWhenAtMostOnce(t.one, freqTable);
      forall c | c in LeafChars(t.zero)
        ensures c !in LeafChars(t.one)
      {
        var pz := LeafOfChar(t.zero, c);
        if c in LeafChars(t.one) {
          var po := LeafOfChar(t.one, c);
          SameCharSamePair(lz + lo, freqTable, pz, po);
        }
      }
    }
  }

  /**
   * A tree built from a table has the table's keys, and nothing else, on its
   * leaves, and no character on two leaves.
   */
  lemma TreeOfTable(root: Tree, freqTable: map<int, nat>)
    requires EncodingTreeOf(root, freqTable)
    ensures LeafChars(root) == freqTable.Keys
    ensures UniqueLeaves(root)
  {
    UniqueWhenAtMostOnce(root, freqTable);
    var leaves := Leaves(root);
    forall c | c in freqTable
      ensures c in LeafChars(root)
    {
      var p := (c, freqTable[c]);
      assert multiset(leaves)[p] == 1;
      CharOfLeaf(root, p);
    }
    forall c | c in LeafChars(root)
      ensures c in freqTable
    {
      var p := LeafOfChar(root, c);
      assert multiset(leaves)[p] > 0;
    }
  }

  /**
   * compress followed by decompress, with both sides using the same tree:
   * the table counts the input's bytes, the tree is built from the table,
   * and decoding what encodeData wrote with that tree's codes gives back
   * the input.
   */
  lemma CompressedRoundTrip(input: seq<byte>, freqTable: map<int, nat>, encodingTree: Tree)
    requires FrequencyTableOf(freqTable, input)
    requires EncodingTreeOf(encodingTree, freqTable)
    ensures DecodeFrom(encodingTree, encodingTree, Encoded(BuildEncodingMap(encodingTree), input), []) == Decoded(input)
  {
    TreeOfTable(encodingTree, freqTable);
    forall i | 0 <= i < |input|
      ensures input[i] as int in LeafChars(encodingTree)
    {
      assert input[i] in multiset(input);
    }
    RoundTrip(encodingTree, input);
  }
}
