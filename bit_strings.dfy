/** The bit strings of Lab5/main.py: Python's `"{0:08b}".format(v)` and
    `int(s, 2)`, and the packing of a 0/1 string into bytes eight
    characters at a time. */
module BitStrings {
  /** An element of Python's `bytes`. */
  type Byte = x: int | 0 <= x < 256

  /** Every character is '0' or '1'. */
  predicate IsBits(s: string)
  {
    forall i :: 0 <= i < |s| ==> s[i] == '0' || s[i] == '1'
  }

  function Pow2(n: nat): (r: nat)
    ensures r >= 1
  {
    if n == 0 then 1 else 2 * Pow2(n - 1)
  }

  function Digit(c: char): (d: nat)
    ensures d == 0 || d == 1
  {
    if c == '1' then 1 else 0
  }

  /** `int(s, 2)`, most significant digit first. */
  function ValueOf(s: string): nat
  {
    if s == [] then 0 else 2 * ValueOf(s[..|s| - 1]) + Digit(s[|s| - 1])
  }

  /** n binary digits hold a value below 2^n. */
  lemma {:induction false} ValueOfBound(s: string)
    ensures ValueOf(s) < Pow2(|s|)
  {
    if s != [] {
      ValueOfBound(s[..|s| - 1]);
    }
  }

  lemma {:induction false} Pow2Monotone(m: nat, n: nat)
    requires m <= n
    ensures Pow2(m) <= Pow2(n)
    decreases n
  {
    if m < n {
      Pow2Monotone(m, n - 1);
    }
  }

  lemma Pow2Eight()
    ensures Pow2(8) == 256
  {
  }

  /** `int(s, 2)` of at most eight characters is a byte. */
  function ByteOf(s: string): Byte
    requires |s| <= 8
  {
    ValueOfBound(s);
    Pow2Monotone(|s|, 8);
    Pow2Eight();
    ValueOf(s)
  }

  /** The n low binary digits of v, most significant first, zero-filled on
      the left: `"{0:08b}".format(v)` for n == 8 and v < 256. */
  function BitsOf(v: nat, n: nat): (s: string)
    ensures |s| == n
  {
    if n == 0 then [] else BitsOf(v / 2, n - 1) + [if v % 2 == 1 then '1' else '0']
  }

  /** The digits of a number are a 0/1 string. */
  lemma {:induction false} BitsOfIsBits(v: nat, n: nat)
    ensures IsBits(BitsOf(v, n))
  {
    if n > 0 {
      BitsOfIsBits(v / 2, n - 1);
    }
  }

  lemma BitsConcat(a: string, b: string)
    requires IsBits(a) && IsBits(b)
    ensures IsBits(a + b)
  {
    forall i | 0 <= i < |a + b| ensures (a + b)[i] == '0' || (a + b)[i] == '1' {
      if i < |a| {
        assert (a + b)[i] == a[i];
      } else {
        assert (a + b)[i] == b[i - |a|];
      }
    }
  }

  /** One more digit doubles the value and adds the digit. */
  lemma ValueOfSnoc(a: string, x: char)
    ensures ValueOf(a + [x]) == 2 * ValueOf(a) + Digit(x)
  {
    assert (a + [x])[..|a|] == a;
  }

  /** Reading back the digits of a number that fits gives the number. */
  lemma {:induction false} ValueOfBitsOf(v: nat, n: nat)
    requires v < Pow2(n)
    ensures ValueOf(BitsOf(v, n)) == v
  {
    if n > 0 {
      var q, d := v / 2, v % 2;
      assert v == 2 * q + d && Pow2(n) == 2 * Pow2(n - 1);
      var x := if d == 1 then '1' else '0';
      var init := BitsOf(q, n - 1);
      calc {
        ValueOf(BitsOf(v, n));
        ValueOf(init + [x]);
        { ValueOfSnoc(init, x); }
        2 * ValueOf(init) + Digit(x);
        { ValueOfBitsOf(q, n - 1); }
        2 * q + d;
      }
    }
  }

  /** Writing out the value of a 0/1 string gives the string back. */
  lemma {:induction false} BitsOfValueOf(s: string)
    requires IsBits(s)
    ensures BitsOf(ValueOf(s), |s|) == s
  {
    if s != [] {
      var init, x := s[..|s| - 1], s[|s| - 1];
      assert s == init + [x];
      ValueOfSnoc(init, x);
      var v, d := ValueOf(init), Digit(x);
      assert IsBits(init);
      BitsOfValueOf(init);
      assert (2 * v + d) / 2 == v && (2 * v + d) % 2 == d;
    }
  }

  /** The bit string of `decompress`'s first loop: eight digits per byte. */
  function Unpack(data: seq<Byte>): (s: string)
    ensures |s| == 8 * |data|
  {
    if data == [] then [] else BitsOf(data[0], 8) + Unpack(data[1..])
  }

  /** The bytes of `compress`'s packing loop: the value of each run of
      eight characters, and of the shorter run at the end if there is one. */
  function Pack(bits: string): seq<Byte>
    decreases |bits|
  {
    if bits == [] then []
    else if |bits| <= 8 then [ByteOf(bits)]
    else [ByteOf(bits[..8])] + Pack(bits[8..])
  }

  /** A string of whole bytes packs into one byte per eight characters. */
  lemma {:induction false} PackLength(bits: string)
    requires |bits| % 8 == 0
    ensures 8 * |Pack(bits)| == |bits|
    decreases |bits|
  {
    if |bits| > 8 {
      PackLength(bits[8..]);
    }
  }

  /** Packing a first byte's worth of characters in front of the rest. */
  lemma PackFront(first: string, rest: string)
    requires |first| == 8
    ensures Pack(first + rest) == [ByteOf(first)] + Pack(rest)
  {
    var s := first + rest;
    if rest == [] {
      assert s == first;
    } else {
      assert s[..8] == first && s[8..] == rest;
    }
  }

  /** Both parts of a 0/1 string are 0/1 strings. */
  lemma BitsSplit(s: string, k: int)
    requires IsBits(s) && 0 <= k <= |s|
    ensures IsBits(s[..k]) && IsBits(s[k..])
  {
    forall i | 0 <= i < |s| - k ensures s[k..][i] == '0' || s[k..][i] == '1' {
      assert s[k..][i] == s[k + i];
    }
  }

  /** Unpacking a first byte in front of the rest. */
  lemma UnpackCons(b: Byte, data: seq<Byte>)
    ensures Unpack([b] + data) == BitsOf(b, 8) + Unpack(data)
  {
    assert ([b] + data)[0] == b && ([b] + data)[1..] == data;
  }

  /** Unpacking the packed bytes of a 0/1 string of whole bytes gives the
      string back. */
  lemma {:induction false} UnpackPack(bits: string)
    requires IsBits(bits) && |bits| % 8 == 0
    ensures Unpack(Pack(bits)) == bits
    decreases |bits|
  {
    if bits != [] {
      var first, rest := bits[..8], bits[8..];
      assert bits == first + rest;
      BitsSplit(bits, 8);
      PackFront(first, rest);
      UnpackCons(ByteOf(first), Pack(rest));
      BitsOfValueOf(first);
      UnpackPack(rest);
    }
  }

  /** Packing the unpacked bits of some bytes gives the bytes back. */
  lemma {:induction false} PackUnpack(data: seq<Byte>)
    ensures Pack(Unpack(data)) == data
  {
    if data != [] {
      var first := BitsOf(data[0], 8);
      PackFront(first, Unpack(data[1..]));
      Pow2Eight();
      ValueOfBitsOf(data[0], 8);
      PackUnpack(data[1..]);
      assert data == [data[0]] + data[1..];
    }
  }
}
