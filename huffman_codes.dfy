/** The code table of Lab5/main.py (lines 37-46): every leaf character gets
    the path from the root to its leaf, "0" for a left turn and "1" for a
    right turn. `build_huffman_codes` writes into a dict shared by all its
    recursive calls; here the dict is the field of a CodeBook object. */
module HuffmanCodes {
  import opened Options
  import opened HuffmanTree
  import opened BitStrings

  /** The tree has no character at two leaves. */
  predicate DistinctLeaves(t: Node)
  {
    forall c :: Leaves(t)[c] <= 1
  }

  /** No code is a prefix of the code of another character. */
  predicate PrefixFree(codes: map<char, string>)
  {
    forall c1, c2 :: c1 in codes && c2 in codes && c1 != c2 ==> !(codes[c1] <= codes[c2])
  }

  /** Different characters have different codes. */
  predicate Injective(codes: map<char, string>)
  {
    forall c1, c2 :: c1 in codes && c2 in codes && c1 != c2 ==> codes[c1] != codes[c2]
  }

  /** The codes the recursion assigns below a node reached by `prefix`
      (reference definition); the right subtree is written last, so it wins
      on a character present in both. */
  function CodeTable(t: Node, prefix: string): map<char, string>
  {
    match t
    case Leaf(c, _) => map[c := prefix]
    case Internal(_, l, r) => CodeTable(l, prefix + "0") + CodeTable(r, prefix + "1")
  }

  /** Following a 0/1 path from a node: the character of the leaf it ends
      at, or None if it ends at an internal node or runs past a leaf. */
  function Walk(t: Node, path: string): Option<char>
  {
    if path == [] then (if t.Leaf? then Some(t.ch) else None)
    else if t.Leaf? then None
    else Walk(if path[0] == '0' then t.left else t.right, path[1..])
  }

  /** The table has an entry for exactly the leaf characters. */
  lemma {:induction false} CodeTableKeys(t: Node, prefix: string)
    ensures forall c :: c in CodeTable(t, prefix) <==> c in Leaves(t)
  {
    if t.Internal? {
      CodeTableKeys(t.left, prefix + "0");
      CodeTableKeys(t.right, prefix + "1");
    }
  }

  /** A code that extends prefix + [bit] by a 0/1 path extends prefix by
      a longer one. */
  lemma ExtendBits(prefix: string, bit: char, code: string)
    requires bit == '0' || bit == '1'
    requires prefix + [bit] <= code && IsBits(code[|prefix| + 1..])
    ensures prefix <= code && IsBits(code[|prefix|..]) && |code| > |prefix|
  {
    var path := code[|prefix|..];
    assert path[0] == (prefix + [bit])[|prefix|] == bit;
    assert path == [bit] + code[|prefix| + 1..];
    assert prefix == (prefix + [bit])[..|prefix|];
  }

  /** Every code extends the prefix by a 0/1 path; below an internal node
      the path is not empty. */
  lemma {:induction false} CodeTableShape(t: Node, prefix: string)
    ensures forall c :: c in CodeTable(t, prefix) ==>
      prefix <= CodeTable(t, prefix)[c] && IsBits(CodeTable(t, prefix)[c][|prefix|..]) &&
      (t.Internal? ==> |CodeTable(t, prefix)[c]| > |prefix|)
  {
    if t.Internal? {
      var p0, p1 := prefix + "0", prefix + "1";
      CodeTableShape(t.left, p0);
      CodeTableShape(t.right, p1);
      var m := CodeTable(t, prefix);
      forall c | c in m
        ensures prefix <= m[c] && IsBits(m[c][|prefix|..]) && |m[c]| > |prefix|
      {
        if c in CodeTable(t.right, p1) {
          ExtendBits(prefix, '1', m[c]);
        } else {
          ExtendBits(prefix, '0', m[c]);
        }
      }
    }
  }

  /** Where the leaves of the two subtrees are distinct, the table splits
      into the two subtables. */
  lemma SplitTable(t: Node, prefix: string)
    requires t.Internal? && DistinctLeaves(t)
    ensures DistinctLeaves(t.left) && DistinctLeaves(t.right)
    ensures forall c :: c in CodeTable(t.left, prefix + "0") ==>
      c !in CodeTable(t.right, prefix + "1") && CodeTable(t, prefix)[c] == CodeTable(t.left, prefix + "0")[c]
    ensures forall c :: c in CodeTable(t.right, prefix + "1") ==>
      CodeTable(t, prefix)[c] == CodeTable(t.right, prefix + "1")[c]
  {
    CodeTableKeys(t.left, prefix + "0");
    CodeTableKeys(t.right, prefix + "1");
    forall c ensures Leaves(t.left)[c] <= 1 && Leaves(t.right)[c] <= 1 {
      assert Leaves(t)[c] == Leaves(t.left)[c] + Leaves(t.right)[c];
    }
    forall c | c in Leaves(t.left) ensures c !in Leaves(t.right) {
      assert Leaves(t)[c] == Leaves(t.left)[c] + Leaves(t.right)[c];
    }
  }

  /** With distinct leaves no code is a prefix of another. */
  lemma {:induction false} CodeTablePrefixFree(t: Node, prefix: string)
    requires DistinctLeaves(t)
    ensures PrefixFree(CodeTable(t, prefix))
  {
    if t.Internal? {
      var p0, p1 := prefix + "0", prefix + "1";
      var l, r, m := CodeTable(t.left, p0), CodeTable(t.right, p1), CodeTable(t, prefix);
      SplitTable(t, prefix);
      CodeTablePrefixFree(t.left, p0);
      CodeTablePrefixFree(t.right, p1);
      CodeTableShape(t.left, p0);
      CodeTableShape(t.right, p1);
      forall c1, c2 | c1 in m && c2 in m && c1 != c2 ensures !(m[c1] <= m[c2]) {
        var n := |prefix|;
        if c1 in l && c2 !in l {
          assert m[c1][n] == p0[n] && m[c2][n] == p1[n];
        } else if c1 !in l && c2 in l {
          assert m[c1][n] == p1[n] && m[c2][n] == p0[n];
        }
      }
    }
  }

  /** A prefix-free table is injective. */
  lemma PrefixFreeInjective(codes: map<char, string>)
    requires PrefixFree(codes)
    ensures Injective(codes)
  {
    forall c1, c2 | c1 in codes && c2 in codes && c1 != c2 ensures codes[c1] != codes[c2] {
      assert !(codes[c1] <= codes[c2]);
    }
  }

  /** A path that turns by `bit` at an internal node continues in that
      child. */
  lemma WalkTurn(t: Node, prefix: string, bit: char, code: string)
    requires t.Internal? && prefix + [bit] <= code
    ensures Walk(t, code[|prefix|..]) ==
      Walk(if bit == '0' then t.left else t.right, code[|prefix| + 1..])
  {
    var path := code[|prefix|..];
    assert path[0] == (prefix + [bit])[|prefix|] == bit;
    assert path[1..] == code[|prefix| + 1..];
  }

  /** The code of a character is the path from the root to its leaf: the
      table and the tree walk are inverse. */
  lemma {:induction false} CodeTableWalk(t: Node, prefix: string)
    requires DistinctLeaves(t)
    ensures forall c :: c in CodeTable(t, prefix) ==>
      |prefix| <= |CodeTable(t, prefix)[c]| && Walk(t, CodeTable(t, prefix)[c][|prefix|..]) == Some(c)
  {
    CodeTableShape(t, prefix);
    if t.Internal? {
      var p0, p1 := prefix + "0", prefix + "1";
      var l, r, m := CodeTable(t.left, p0), CodeTable(t.right, p1), CodeTable(t, prefix);
      SplitTable(t, prefix);
      CodeTableWalk(t.left, p0);
      CodeTableWalk(t.right, p1);
      CodeTableShape(t.left, p0);
      CodeTableShape(t.right, p1);
      forall c | c in m ensures Walk(t, m[c][|prefix|..]) == Some(c) {
        if c in l {
          WalkTurn(t, prefix, '0', m[c]);
        } else {
          WalkTurn(t, prefix, '1', m[c]);
        }
      }
    }
  }

  /** Below an internal node with distinct leaves every code is a non-empty
      0/1 string, and no code is a prefix of another. */
  lemma RootCodes(t: Node)
    requires t.Internal? && DistinctLeaves(t)
    ensures forall c :: c in CodeTable(t, "") ==> |CodeTable(t, "")[c]| > 0 && IsBits(CodeTable(t, "")[c])
    ensures PrefixFree(CodeTable(t, "")) && Injective(CodeTable(t, ""))
  {
    CodeTableShape(t, "");
    CodeTablePrefixFree(t, "");
    PrefixFreeInjective(CodeTable(t, ""));
    forall c | c in CodeTable(t, "") ensures IsBits(CodeTable(t, "")[c]) {
      assert CodeTable(t, "")[c][0..] == CodeTable(t, "")[c];
    }
  }

  lemma UpdateIsUnion(m: map<char, string>, c: char, code: string)
    ensures m[c := code] == m + map[c := code]
  {
  }

  lemma UnionAssociative(m: map<char, string>, a: map<char, string>, b: map<char, string>)
    ensures (m + a) + b == m + (a + b)
  {
  }

  /** The shared `huffman_codes` dict. */
  class CodeBook {
    var codes: map<char, string>

    constructor ()
      ensures codes == map[]
    {
      codes := map[];
    }

    /** Lines 37-46: a leaf writes its code, an internal node recurses left
        with "0" appended, then right with "1". */
    method Build(node: Node, currentCode: string)
      modifies this
      ensures codes == old(codes) + CodeTable(node, currentCode)
      decreases node
    {
      match node
      case Leaf(c, _) =>
        UpdateIsUnion(codes, c, currentCode);
        codes := codes[c := currentCode];
      case Internal(_, l, r) =>
        ghost var a, b := CodeTable(l, currentCode + "0"), CodeTable(r, currentCode + "1");
        Build(l, currentCode + "0");
        Build(r, currentCode + "1");
        UnionAssociative(old(codes), a, b);
    }
  }
}
