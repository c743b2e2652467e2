/**
 * Huffman coding, second half: the code of every leaf (the string of '0' and
 * '1' steps from the root to it), the encoding map built from the tree, and
 * the encoder that writes the code of every input byte, then the code of
 * PSEUDO_EOF, to a bit stream. The bit stream is the sequence of bits
 * written so far.
 */
module HuffmanCode {
  import opened HuffmanTree

  /** The characters on the leaves of a tree. */
  function LeafChars(t: Tree): set<int>
  {
    match t
    case Nil => {}
    case Node(c, _, zero, one) => if zero.Nil? && one.Nil? then {c} else LeafChars(zero) + LeafChars(one)
  }

  /** No two leaves carry the same character. */
  predicate UniqueLeaves(t: Tree)
  {
    match t
    case Nil => true
    case Node(_, _, zero, one) =>
      (zero.Nil? && one.Nil?) || (UniqueLeaves(zero) && UniqueLeaves(one) && LeafChars(zero) !! LeafChars(one))
  }

  /**
   * Following `code` from t, one step per character ('0' to the zero child,
   * '1' to the one child), passes inner nodes only and stops on the leaf of c.
   */
  predicate Reaches(t: Tree, code: string, c: int)
    decreases |code|
  {
    t.Node? &&
    if |code| == 0 then t.zero.Nil? && t.one.Nil? && t.character == c
    else
      && !(t.zero.Nil? && t.one.Nil?)
      && ((code[0] == '0' && Reaches(t.zero, code[1..], c)) || (code[0] == '1' && Reaches(t.one, code[1..], c)))
  }

  /** The steps from t to the leaf of c: the zero side when c is there, the one side otherwise. */
  ghost function PathTo(t: Tree, c: int): string
  {
    match t
    case Nil => ""
    case Node(_, _, zero, one) =>
      if zero.Nil? && one.Nil? then ""
      else if c in LeafChars(zero) then "0" + PathTo(zero, c)
      else "1" + PathTo(one, c)
  }

  /** In a tree without repeated characters, PathTo leads to the leaf of c. */
  lemma {:induction false} PathReaches(t: Tree, c: int)
    requires UniqueLeaves(t) && c in LeafChars(t)
    ensures Reaches(t, PathTo(t, c), c)
    decreases t
  {
    if !(t.zero.Nil? && t.one.Nil?) {
      if c in LeafChars(t.zero) {
        PathReaches(t.zero, c);
        assert ("0" + PathTo(t.zero, c))[1..] == PathTo(t.zero, c);
      } else {
        PathReaches(t.one, c);
        assert ("1" + PathTo(t.one, c))[1..] == PathTo(t.one, c);
      }
    }
  }

  /**
   * buildCode: records, for every leaf under `node`, the code that leads to
   * it, prefixed by `code`, the steps already taken from the root. A later
   * leaf with the same character overwrites an earlier one.
   */
  function BuildCode(node: Tree, encodingMap: map<int, string>, code: string): (r: map<int, string>)
    requires node.Node?
    ensures r.Keys == encodingMap.Keys + LeafChars(node)
    decreases node
  {
    if IsLeaf(node) then encodingMap[node.character := code]
    else
      var afterZero := if node.zero.Node? then BuildCode(node.zero, encodingMap, code + "0") else encodingMap;
      if node.one.Node? then BuildCode(node.one, afterZero, code + "1") else afterZero
  }

  /** buildEncodingMap: the codes of all leaves of the tree; an empty map for no tree. */
  function BuildEncodingMap(encodingTree: Tree): (m: map<int, string>)
    ensures m.Keys == LeafChars(encodingTree)
  {
    if encodingTree.Nil? then map[] else BuildCode(encodingTree, map[], "")
  }

  /**
   * In a tree without repeated characters, buildCode adds exactly the leaves'
   * characters, each with the prefix followed by the steps to its leaf, and
   * leaves the other entries alone.
   */
  lemma {:induction false} BuildCodeSpec(node: Tree, encodingMap: map<int, string>, code: string)
    requires node.Node? && UniqueLeaves(node)
    ensures BuildCode(node, encodingMap, code).Keys == encodingMap.Keys + LeafChars(node)
    ensures forall c :: c in encodingMap && c !in LeafChars(node) ==>
      BuildCode(node, encodingMap, code)[c] == encodingMap[c]
    ensures forall c :: c in LeafChars(node) ==> BuildCode(node, encodingMap, code)[c] == code + PathTo(node, c)
    decreases node
  {
    if !IsLeaf(node) {
      var afterZero := if node.zero.Node? then BuildCode(node.zero, encodingMap, code + "0") else encodingMap;
      if node.zero.Node? {
        BuildCodeSpec(node.zero, encodingMap, code + "0");
      }
      if node.one.Node? {
        BuildCodeSpec(node.one, afterZero, code + "1");
      }
      var r := BuildCode(node, encodingMap, code);
      forall c | c in LeafChars(node)
        ensures r[c] == code + PathTo(node, c)
      {
        if c in LeafChars(node.zero) {
          assert code + "0" + PathTo(node.zero, c) == code + ("0" + PathTo(node.zero, c));
        } else {
          assert code + "1" + PathTo(node.one, c) == code + ("1" + PathTo(node.one, c));
        }
      }
    }
  }

  /** The encoding map has a code for exactly the leaves' characters, and each code leads to its leaf. */
  lemma EncodingMapCodes(encodingTree: Tree)
    requires UniqueLeaves(encodingTree)
    ensures BuildEncodingMap(encodingTree).Keys == LeafChars(encodingTree)
    ensures forall c :: c in LeafChars(encodingTree) ==>
      BuildEncodingMap(encodingTree)[c] == PathTo(encodingTree, c)
      && Reaches(encodingTree, BuildEncodingMap(encodingTree)[c], c)
  {
    if encodingTree.Node? {
      BuildCodeSpec(encodingTree, map[], "");
      forall c | c in LeafChars(encodingTree)
        ensures Reaches(encodingTree, PathTo(encodingTree, c), c)
      {
        PathReaches(encodingTree, c);
      }
    }
  }

  /** Codes that lead to leaves are prefix-free: a code that starts another leads to the same leaf. */
  lemma {:induction false} ReachesPrefix(t: Tree, s1: string, a: int, s2: string, b: int)
    requires Reaches(t, s1, a) && Reaches(t, s2, b) && |s1| <= |s2| && s2[..|s1|] == s1
    ensures s1 == s2 && a == b
    decreases |s1|
  {
    if |s1| > 0 {
      assert s2[0] == s1[0];
      assert s2[1..][..|s1| - 1] == s1[1..];
      if s1[0] == '0' {
        ReachesPrefix(t.zero, s1[1..], a, s2[1..], b);
      } else {
        ReachesPrefix(t.one, s1[1..], a, s2[1..], b);
      }
      assert s1 == [s1[0]] + s1[1..] && s2 == [s2[0]] + s2[1..];
    }
  }

  /** No code of the encoding map is a prefix of another character's code. */
  lemma EncodingMapPrefixFree(encodingTree: Tree, a: int, b: int)
    requires UniqueLeaves(encodingTree)
    requires a in BuildEncodingMap(encodingTree) && b in BuildEncodingMap(encodingTree) && a != b
    ensures var m := BuildEncodingMap(encodingTree);
      !(|m[a]| <= |m[b]| && m[b][..|m[a]|] == m[a])
  {
    EncodingMapCodes(encodingTree);
    var m := BuildEncodingMap(encodingTree);
    if |m[a]| <= |m[b]| && m[b][..|m[a]|] == m[a] {
      ReachesPrefix(encodingTree, m[a], a, m[b], b);
    }
  }

  /** The bits writeCode writes for a code: each character minus '0'. */
  function Bits(code: string): seq<int>
  {
    seq(|code|, i requires 0 <= i < |code| => code[i] as int - '0' as int)
  }

  lemma BitsAppend(a: string, b: string)
    ensures Bits(a + b) == Bits(a) + Bits(b)
  {
  }

  /** writeCode: appends one bit per character of the code to the stream. */
  method WriteCode(code: string, output: seq<int>) returns (written: seq<int>)
    ensures written == output + Bits(code)
  {
    written := output;
    var i := 0;
    while i < |code|
      invariant 0 <= i <= |code|
      invariant written == output + Bits(code[..i])
    {
      BitsAppend(code[..i], [code[i]]);
      assert code[..i + 1] == code[..i] + [code[i]];
      written := written + [code[i] as int - '0' as int];
      i := i + 1;
    }
    assert code[..i] == code;
  }

  /** `Map::get`: the recorded code, or the empty string for a character without one. */
  function Lookup(encodingMap: map<int, string>, key: int): (code: string)
    ensures key in encodingMap ==> code == encodingMap[key]
    ensures key !in encodingMap ==> code == ""
  {
    if key in encodingMap then encodingMap[key] else ""
  }

  /** The bits of the codes of the bytes of `input`, in order. */
  function Codes(encodingMap: map<int, string>, input: seq<byte>): seq<int>
  {
    if |input| == 0 then [] else Bits(Lookup(encodingMap, input[0] as int)) + Codes(encodingMap, input[1..])
  }

  /** What encodeData writes: the code of every byte, then the code of PSEUDO_EOF. */
  function Encoded(encodingMap: map<int, string>, input: seq<byte>): seq<int>
  {
    Codes(encodingMap, input) + Bits(Lookup(encodingMap, PSEUDO_EOF))
  }

  lemma {:induction false} CodesSnoc(encodingMap: map<int, string>, input: seq<byte>, b: byte)
    ensures Codes(encodingMap, input + [b]) == Codes(encodingMap, input) + Bits(Lookup(encodingMap, b as int))
    decreases |input|
  {
    if |input| == 0 {
      assert Codes(encodingMap, [b][1..]) == [];
    } else {
      CodesSnoc(encodingMap, input[1..], b);
      assert (input + [b])[1..] == input[1..] + [b];
    }
  }

  /** Bytes without a code in the map write no bits at all. */
  lemma {:induction false} CodesUncoded(encodingMap: map<int, string>, input: seq<byte>)
    requires forall i :: 0 <= i < |input| ==> input[i] as int !in encodingMap
    ensures Codes(encodingMap, input) == []
    decreases |input|
  {
    if |input| > 0 {
      assert input[0] as int !in encodingMap;
      assert Bits(Lookup(encodingMap, input[0] as int)) == [];
      CodesUncoded(encodingMap, input[1..]);
    }
  }

  /** encodeData: writes the code of each input byte, then the code of PSEUDO_EOF. */
  method EncodeData(input: seq<byte>, encodingMap: map<int, string>, output: seq<int>) returns (written: seq<int>)
    ensures written == output + Encoded(encodingMap, input)
  {
    written := output;
    var i := 0;
    while i < |input|
      invariant 0 <= i <= |input|
      invariant written == output + Codes(encodingMap, input[..i])
    {
      var key := input[i];
      var code := Lookup(encodingMap, key as int);
      CodesSnoc(encodingMap, input[..i], key);
      assert input[..i + 1] == input[..i] + [key];
      written := WriteCode(code, written);
      i := i + 1;
    }
    assert input[..i] == input;
    var code := Lookup(encodingMap, PSEUDO_EOF);
    written := WriteCode(code, written);
  }
}
