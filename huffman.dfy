/** `compress` and `decompress` of Lab5/main.py (lines 48-94). A text is
    encoded with the codes of its Huffman tree, zero-padded to a whole
    number of bytes and preceded by one byte that holds the padding length;
    decoding reads the bits back and emits a character whenever the bits
    read since the last one form a code. */
module Huffman {
  import opened Options
  import opened BitStrings
  import opened HuffmanTree
  import opened HuffmanCodes

  /** Every character of the text has a code. */
  predicate Covers(text: string, codes: map<char, string>)
  {
    forall i :: 0 <= i < |text| ==> text[i] in codes
  }

  /** A table the greedy decoder can invert: different characters have
      different codes, none a prefix of another, each a non-empty 0/1
      string. */
  predicate Decodable(codes: map<char, string>)
  {
    Injective(codes) && PrefixFree(codes) &&
    forall c :: c in codes ==> |codes[c]| > 0 && IsBits(codes[c])
  }

  /** Line 55: the codes of the characters, one after another. */
  function Encode(text: string, codes: map<char, string>): string
    requires Covers(text, codes)
  {
    if text == [] then "" else codes[text[0]] + Encode(text[1..], codes)
  }

  /** Line 57: the number of zero bits appended. */
  function Padding(n: nat): (p: nat)
    ensures 1 <= p <= 8 && (n + p) % 8 == 0 && (8 + n + p) % 8 == 0
  {
    8 - n % 8
  }

  function Zeros(n: nat): (z: string)
    ensures |z| == n && IsBits(z)
  {
    seq(n, _ => '0')
  }

  /** Lines 57-61: the header byte, the encoded bits and the padding. */
  function Frame(encoded: string): (f: string)
    ensures |f| == 8 + |encoded| + Padding(|encoded|) && |f| % 8 == 0
  {
    BitsOf(Padding(|encoded|), 8) + encoded + Zeros(Padding(|encoded|))
  }

  /** The tree and the code table `compress` builds for a non-empty text. */
  function TreeFor(text: string): Node
    requires text != []
  {
    BuildTree(HeapOf(Dedup(text), Counts(text)))
  }

  function CodesFor(text: string): (codes: map<char, string>)
    requires text != []
    ensures Covers(text, codes)
  {
    TreeOfText(text);
    CodeTableKeys(TreeFor(text), "");
    CodeTable(TreeFor(text), "")
  }

  /** What `compress` returns (reference definition); an empty text makes
      `heap[0]` raise, which is None. */
  function CompressF(text: string): (r: Option<(seq<Byte>, map<char, string>)>)
    ensures r.None? <==> text == []
  {
    if text == [] then None
    else
      var codes := CodesFor(text);
      Some((Pack(Frame(Encode(text, codes))), codes))
  }

  /** Python's `s[:-k]`: everything but the last k characters, and the
      empty string for k == 0 or k beyond the length. */
  function DropLast(s: string, k: nat): (r: string)
    ensures r <= s
    ensures 1 <= k <= |s| ==> |r| == |s| - k
  {
    if k == 0 || k >= |s| then "" else s[..|s| - k]
  }

  /** Line 82: the table from codes back to characters. */
  function Reverse(codes: map<char, string>): (rev: map<string, char>)
    requires Injective(codes)
    ensures forall c :: c in codes ==> codes[c] in rev && rev[codes[c]] == c
    ensures forall w :: w in rev ==> rev[w] in codes && codes[rev[w]] == w
  {
    map c | c in codes :: codes[c] := c
  }

  /** Lines 84-92 from some point on: `current` holds the bits read since
      the last emitted character; leftover bits at the end are dropped. */
  function Greedy(bits: string, rev: map<string, char>, current: string): (r: string)
    ensures |r| <= |bits|
  {
    if bits == [] then ""
    else
      var next := current + [bits[0]];
      if next in rev then [rev[next]] + Greedy(bits[1..], rev, "")
      else Greedy(bits[1..], rev, next)
  }

  /** What `decompress` returns (reference definition); empty data makes
      `int('', 2)` raise, which is None. */
  function DecompressF(data: seq<Byte>, codes: map<char, string>): (r: Option<string>)
    requires Injective(codes)
    ensures r.None? <==> data == []
  {
    if data == [] then None
    else
      var bits := Unpack(data);
      Some(Greedy(DropLast(bits[8..], ValueOf(bits[..8])), Reverse(codes), ""))
  }

  /** Every character the decoder emits is the character of some code. */
  lemma {:induction false} GreedyEmits(bits: string, rev: map<string, char>, current: string)
    ensures forall i :: 0 <= i < |Greedy(bits, rev, current)| ==> Greedy(bits, rev, current)[i] in rev.Values
  {
    if bits != [] {
      var next := current + [bits[0]];
      if next in rev {
        GreedyEmits(bits[1..], rev, "");
      } else {
        GreedyEmits(bits[1..], rev, next);
      }
    }
  }

  /** `decompress` returns only characters of the table it is given. */
  lemma DecompressChars(data: seq<Byte>, codes: map<char, string>)
    requires Injective(codes) && data != []
    ensures forall i :: 0 <= i < |DecompressF(data, codes).value| ==> DecompressF(data, codes).value[i] in codes
  {
    var bits := Unpack(data);
    GreedyEmits(DropLast(bits[8..], ValueOf(bits[..8])), Reverse(codes), "");
  }

  /** The encoding of a text is a 0/1 string when its codes are. */
  lemma {:induction false} EncodeBits(text: string, codes: map<char, string>)
    requires Covers(text, codes)
    requires forall c :: c in codes ==> IsBits(codes[c])
    ensures IsBits(Encode(text, codes))
  {
    if text != [] {
      EncodeBits(text[1..], codes);
    }
  }

  /** Decoding a code that no shorter run of bits matches emits its
      character and starts afresh after it. */
  lemma {:induction false} DecodeCode(w: string, rest: string, rev: map<string, char>, cur: string)
    requires |w| > 0 && cur + w in rev
    requires forall k :: 0 < k < |w| ==> cur + w[..k] !in rev
    ensures Greedy(w + rest, rev, cur) == [rev[cur + w]] + Greedy(rest, rev, "")
    decreases |w|
  {
    var s := w + rest;
    assert s[0] == w[0] && s[1..] == w[1..] + rest;
    var next := cur + [w[0]];
    if |w| == 1 {
      assert next == cur + w;
    } else {
      assert next == cur + w[..1];
      assert next + w[1..] == cur + w;
      forall k | 0 < k < |w| - 1 ensures next + w[1..][..k] !in rev {
        assert next + w[1..][..k] == cur + w[..k + 1];
      }
      DecodeCode(w[1..], rest, rev, next);
    }
  }

  /** With a prefix-free table of non-empty codes, no proper prefix of a
      code is a code. */
  lemma ShorterNotCode(codes: map<char, string>, c: char)
    requires Injective(codes) && PrefixFree(codes) && c in codes
    ensures forall k :: 0 < k < |codes[c]| ==> codes[c][..k] !in Reverse(codes)
  {
    var w := codes[c];
    forall k | 0 < k < |w| ensures w[..k] !in Reverse(codes) {
      forall c' | c' in codes ensures codes[c'] != w[..k] {
        if c' != c {
          assert !(codes[c'] <= w);
          assert w[..k] <= w;
        }
      }
    }
  }

  /** Decoding the encoding of a text gives the text. */
  lemma {:induction false} DecodeEncode(text: string, codes: map<char, string>)
    requires Covers(text, codes)
    requires Decodable(codes)
    ensures Greedy(Encode(text, codes), Reverse(codes), "") == text
  {
    if text != [] {
      var c, w := text[0], codes[text[0]];
      var rev := Reverse(codes);
      ShorterNotCode(codes, c);
      assert "" + w == w;
      forall k | 0 < k < |w| ensures "" + w[..k] !in rev {
        assert "" + w[..k] == w[..k];
      }
      DecodeCode(w, Encode(text[1..], codes), rev, "");
      DecodeEncode(text[1..], codes);
      assert text == [c] + text[1..];
    }
  }

  /** Lines 73-80 on packed 0/1 bytes: `decompress` sees the bits that
      were packed, takes the header from the first eight and decodes the
      rest less the last `extra_padding`. */
  lemma DecompressPacked(bits: string, codes: map<char, string>)
    requires IsBits(bits) && |bits| % 8 == 0 && |bits| >= 8 && Injective(codes)
    ensures DecompressF(Pack(bits), codes) ==
      Some(Greedy(DropLast(bits[8..], ValueOf(bits[..8])), Reverse(codes), ""))
  {
    PackLength(bits);
    UnpackPack(bits);
  }

  /** Lines 57-66 for any encoded bits: the padding lies in 1..8, the
      header byte holds it, and there is one byte per eight bits of header,
      code and padding. */
  lemma FrameShape(encoded: string)
    ensures var p := Padding(|encoded|);
      var data := Pack(Frame(encoded));
      1 <= p <= 8 && 8 * |data| == 8 + |encoded| + p && data[0] == p
  {
    var p := Padding(|encoded|);
    var header := BitsOf(p, 8);
    var rest := encoded + Zeros(p);
    assert Frame(encoded) == header + rest;
    PackFront(header, rest);
    PackLength(Frame(encoded));
    Pow2Eight();
    ValueOfBitsOf(p, 8);
  }

  /** The same for the output of `compress`. */
  lemma CompressShape(text: string)
    requires text != []
    ensures var codes := CodesFor(text);
      var encoded := Encode(text, codes);
      var data := CompressF(text).value.0;
      1 <= Padding(|encoded|) <= 8 &&
      8 * |data| == 8 + |encoded| + Padding(|encoded|) &&
      data[0] == Padding(|encoded|)
  {
    var encoded := Encode(text, CodesFor(text));
    assert CompressF(text).value.0 == Pack(Frame(encoded));
    FrameShape(encoded);
  }

  /** The code table of a text with at least two distinct characters:
      non-empty 0/1 codes, prefix-free, one per character of the text. */
  lemma CodesForFacts(text: string)
    requires |Dedup(text)| >= 2
    ensures text != []
    ensures Decodable(CodesFor(text))
    ensures forall c :: c in CodesFor(text) <==> c in text
  {
    assert Dedup(text)[0] in text;
    TreeOfText(text);
    var t := TreeFor(text);
    RootCodes(t);
    CodeTableKeys(t, "");
  }

  /** Lines 57-66 and 70-80: `decompress` undoes the framing of `compress`
      and decodes exactly the encoded bits. */
  lemma DecompressFrame(encoded: string, codes: map<char, string>)
    requires IsBits(encoded) && Injective(codes)
    ensures DecompressF(Pack(Frame(encoded)), codes) == Some(Greedy(encoded, Reverse(codes), ""))
  {
    var p := Padding(|encoded|);
    var header, body := BitsOf(p, 8), encoded + Zeros(p);
    var f := Frame(encoded);
    assert f == header + body && f[..8] == header && f[8..] == body;
    BitsOfIsBits(p, 8);
    BitsConcat(encoded, Zeros(p));
    BitsConcat(header, body);
    DecompressPacked(f, codes);
    Pow2Eight();
    ValueOfBitsOf(p, 8);
    assert DropLast(body, p) == encoded;
  }

  /** Framing, packing, unpacking and decoding with a decodable table give
      the text back. */
  lemma FrameRoundTrip(text: string, codes: map<char, string>)
    requires Covers(text, codes) && Decodable(codes)
    ensures DecompressF(Pack(Frame(Encode(text, codes))), codes) == Some(text)
  {
    EncodeBits(text, codes);
    DecompressFrame(Encode(text, codes), codes);
    DecodeEncode(text, codes);
  }

  /** Lines 70-94 after 48-68: decompressing the output of `compress` with
      its own table gives the text back, for a text of at least two
      distinct characters. */
  lemma RoundTrip(text: string)
    requires |Dedup(text)| >= 2
    ensures CompressF(text).Some?
    ensures Injective(CompressF(text).value.1)
    ensures DecompressF(CompressF(text).value.0, CompressF(text).value.1) == Some(text)
  {
    CodesForFacts(text);
    FrameRoundTrip(text, CodesFor(text));
  }

  /** With only empty codes the encoding is empty, and `decompress` strips
      the whole padding byte and returns the empty string. */
  lemma EmptyCodes(text: string, codes: map<char, string>)
    requires Covers(text, codes) && Injective(codes)
    requires forall c :: c in codes ==> codes[c] == ""
    ensures Encode(text, codes) == ""
    ensures DecompressF(Pack(Frame(Encode(text, codes))), codes) == Some("")
  {
    EmptyEncode(text, codes);
    DecompressFrame("", codes);
  }

  lemma {:induction false} EmptyEncode(text: string, codes: map<char, string>)
    requires Covers(text, codes) && forall c :: c in codes ==> codes[c] == ""
    ensures Encode(text, codes) == ""
  {
    if text != [] {
      EmptyEncode(text[1..], codes);
    }
  }

  /** A text with one distinct character gets the empty code, so its
      encoding is empty and `decompress` returns the empty string. */
  lemma SingleSymbol(text: string)
    requires |Dedup(text)| == 1
    ensures CompressF(text).Some?
    ensures Injective(CompressF(text).value.1)
    ensures DecompressF(CompressF(text).value.0, CompressF(text).value.1) == Some("")
  {
    var d := Dedup(text);
    assert d[0] in text;
    var h := HeapOf(d, Counts(text));
    assert TreeFor(text) == h[0];
    var codes := CodesFor(text);
    assert codes == map[d[0] := ""];
    EmptyCodes(text, codes);
  }

  function MinInt(a: int, b: int): int
  {
    if a <= b then a else b
  }

  /** Lines 63-66: the value of each slice of eight characters. */
  method PackBits(encodedText: string) returns (b: seq<Byte>)
    ensures b == Pack(encodedText)
  {
    b := [];
    var i := 0;
    while i < |encodedText|
      invariant 0 <= i
      invariant b + Pack(encodedText[MinInt(i, |encodedText|)..]) == Pack(encodedText)
      decreases |encodedText| - i
    {
      var rest := encodedText[i..];
      var byte := encodedText[i..MinInt(i + 8, |encodedText|)];
      if |rest| <= 8 {
        assert byte == rest;
      } else {
        assert byte == rest[..8] && rest[8..] == encodedText[i + 8..];
      }
      b := b + [ByteOf(byte)];
      i := i + 8;
    }
  }

  /** Lines 57-61 spelled out. */
  lemma FrameParts(encoded: string, padding: nat, framed: string)
    requires padding == 8 - |encoded| % 8
    requires framed == BitsOf(padding, 8) + (encoded + Zeros(padding))
    ensures framed == Frame(encoded)
  {
    assert Padding(|encoded|) == padding;
  }

  /** The table the recursion writes into an empty dict is the code table
      of the text's tree. */
  lemma CodesOfTree(text: string, tree: Node, codes: map<char, string>)
    requires text != [] && tree == TreeFor(text)
    requires codes == map[] + CodeTable(tree, "")
    ensures codes == CodesFor(text)
  {
    EmptyUnion(CodeTable(tree, ""));
    CodesForTable(text);
  }

  lemma EmptyUnion(m: map<char, string>)
    ensures map[] + m == m
  {
  }

  lemma CodesForTable(text: string)
    requires text != []
    ensures CodesFor(text) == CodeTable(TreeFor(text), "")
  {
  }

  /** Lines 48-68. */
  method Compress(text: string) returns (r: Option<(seq<Byte>, map<char, string>)>)
    ensures r == CompressF(text)
  {
    var order, frequency := BuildFrequencyDict(text);
    assert text != [] ==> text[0] in order;
    var tree := BuildHuffmanTree(order, frequency);
    if tree.None? {
      return None;
    }
    var book := new CodeBook();
    book.Build(tree.value, "");
    var codes := book.codes;
    CodesOfTree(text, tree.value, codes);
    var encodedText := Encode(text, codes);
    ghost var encoded := encodedText;
    var padding := 8 - |encodedText| % 8;
    encodedText := encodedText + Zeros(padding);
    var paddedInfo := BitsOf(padding, 8);
    encodedText := paddedInfo + encodedText;
    FrameParts(encoded, padding, encodedText);
    var b := PackBits(encodedText);
    return Some((b, codes));
  }

  /** One iteration of the decoding loop keeps what is decoded followed
      by what the rest decodes to. */
  lemma GreedyStep(bits: string, k: int, rev: map<string, char>, current: string, decoded: string)
    requires 0 <= k < |bits|
    ensures var next := current + [bits[k]];
      decoded + Greedy(bits[k..], rev, current) ==
        if next in rev then (decoded + [rev[next]]) + Greedy(bits[k + 1..], rev, "")
        else decoded + Greedy(bits[k + 1..], rev, next)
  {
    var rest := bits[k..];
    assert rest[0] == bits[k] && rest[1..] == bits[k + 1..];
    var next := current + [bits[k]];
    if next in rev {
      var tail := Greedy(bits[k + 1..], rev, "");
      assert decoded + ([rev[next]] + tail) == (decoded + [rev[next]]) + tail;
    }
  }

  /** Lines 73-75: eight binary digits per byte. */
  method ReadBits(encodedData: seq<Byte>) returns (bitString: string)
    ensures bitString == Unpack(encodedData)
  {
    bitString := "";
    for k := 0 to |encodedData|
      invariant bitString + Unpack(encodedData[k..]) == Unpack(encodedData)
    {
      assert encodedData[k..][0] == encodedData[k] && encodedData[k..][1..] == encodedData[k + 1..];
      bitString := bitString + BitsOf(encodedData[k], 8);
    }
    assert bitString + [] == bitString;
  }

  /** Lines 84-92: grow `current_code` bit by bit and emit a character as
      soon as it is a code. */
  method DecodeBits(encodedText: string, reversed: map<string, char>) returns (decodedText: string)
    ensures decodedText == Greedy(encodedText, reversed, "")
  {
    var currentCode := "";
    decodedText := "";
    for k := 0 to |encodedText|
      invariant decodedText + Greedy(encodedText[k..], reversed, currentCode) == Greedy(encodedText, reversed, "")
    {
      GreedyStep(encodedText, k, reversed, currentCode, decodedText);
      currentCode := currentCode + [encodedText[k]];
      if currentCode in reversed {
        decodedText := decodedText + [reversed[currentCode]];
        currentCode := "";
      }
    }
    assert encodedText[|encodedText|..] == [] && decodedText + [] == decodedText;
  }

  /** Lines 70-94. */
  method Decompress(encodedData: seq<Byte>, codes: map<char, string>) returns (r: Option<string>)
    requires Injective(codes)
    ensures r == DecompressF(encodedData, codes)
  {
    var bitString := ReadBits(encodedData);
    if bitString == "" {
      return None;
    }
    var extraPadding := ValueOf(bitString[..8]);
    bitString := bitString[8..];
    var encodedText := DropLast(bitString, extraPadding);
    var reversed := Reverse(codes);
    var decodedText := DecodeBits(encodedText, reversed);
    return Some(decodedText);
  }
}
