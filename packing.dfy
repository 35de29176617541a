/** The encoder's bit packing (HuffmanSubmit.encode, lines 55-75) and the
    decoder's bit expansion (HuffmanSubmit.genFile, lines 196-201). */
module BitPacking {
  import opened Common

  function Bit(c: char): nat {
    if c == '1' then 1 else 0
  }

  function Pow2(n: nat): nat {
    if n == 0 then 1 else 2 * Pow2(n - 1)
  }

  /** `Integer.parseInt(s, 2)` of a bit string: the most significant bit
      first, so n bits give a value below 2^n. */
  function BitsValue(s: string): (v: nat)
    ensures v < Pow2(|s|)
  {
    if s == [] then 0 else 2 * BitsValue(s[..|s| - 1]) + Bit(s[|s| - 1])
  }

  lemma ByteValueBound(s: string)
    requires |s| == 8
    ensures BitsValue(s) < 256
  {
    assert Pow2(2) == 4;
    assert Pow2(4) == 16;
    assert Pow2(6) == 64;
  }

  /** Two bit strings of equal length with the same value are equal. */
  lemma {:induction false} BitsValueInjective(s: string, t: string)
    requires |s| == |t| && IsBits(s) && IsBits(t)
    requires BitsValue(s) == BitsValue(t)
    ensures s == t
  {
    if s != [] {
      var n := |s| - 1;
      assert Bit(s[n]) == Bit(t[n]);
      BitsValueInjective(s[..n], t[..n]);
      assert s == s[..n] + [s[n]] && t == t[..n] + [t[n]];
    }
  }

  /** The codes of the input bytes, concatenated in input order
      (`co.append(ch_code.get(data))`, lines 56-59). */
  function Encoded(code: map<SByte, string>, s: seq<SByte>): (r: string)
    requires forall x :: x in s ==> x in code
    ensures (forall x :: x in s ==> code[x] != "") ==> |r| >= |s|
  {
    if s == [] then [] else code[s[0]] + Encoded(code, s[1..])
  }

  lemma {:induction false} EncodedSnoc(code: map<SByte, string>, s: seq<SByte>, x: SByte)
    requires forall y :: y in s + [x] ==> y in code
    ensures Encoded(code, s + [x]) == Encoded(code, s) + code[x]
  {
    if s == [] {
      assert [x][1..] == [];
    } else {
      assert (s + [x])[1..] == s[1..] + [x];
      EncodedSnoc(code, s[1..], x);
    }
  }

  lemma {:induction false} EncodedBits(code: map<SByte, string>, s: seq<SByte>)
    requires forall x :: x in s ==> x in code && IsBits(code[x])
    ensures IsBits(Encoded(code, s))
  {
    if s != [] {
      EncodedBits(code, s[1..]);
    }
  }

  /** Group k of `co`: bits 8k..8k+7, or, for a final partial group, its
      bits right-padded with zeros (`(s + "00000000").substring(0, 8)`). */
  function Group(co: string, k: nat): (g: string)
    requires 8 * k < |co|
    ensures |g| == 8
  {
    if 8 * k + 8 <= |co| then co[8 * k .. 8 * k + 8] else (co[8 * k ..] + "00000000")[..8]
  }

  lemma GroupAt(co: string, k: nat, j: nat)
    requires 8 * k < |co| && j < 8
    ensures Group(co, k)[j] == if 8 * k + j < |co| then co[8 * k + j] else '0'
  {
  }

  /** `out` is what lines 62-75 write for the bit string `co`: one byte per
      started group of eight bits, each the group's value read MSB first. */
  ghost predicate IsPacking(out: seq<UByte>, co: string) {
    && |co| <= 8 * |out| < |co| + 8
    && forall k :: 0 <= k < |out| ==> 8 * k < |co| && out[k] == BitsValue(Group(co, k))
  }

  /** The whole groups of `co` packed so far: byte j is the value of bits
      8j..8j+7. */
  ghost predicate PackedPrefix(out: seq<UByte>, co: string) {
    forall j :: 0 <= j < |out| ==> 8 * j + 8 <= |co| && out[j] == BitsValue(co[8 * j .. 8 * j + 8])
  }

  lemma PackedPrefixSnoc(out: seq<UByte>, co: string, b: UByte)
    requires PackedPrefix(out, co) && 8 * |out| + 8 <= |co|
    requires b == BitsValue(co[8 * |out| .. 8 * |out| + 8])
    ensures PackedPrefix(out + [b], co)
  {
  }

  /** Once the whole groups are packed, the partial group left over, if any,
      completes the packing. */
  lemma PackedFinish(full: seq<UByte>, co: string, out: seq<UByte>)
    requires PackedPrefix(full, co) && 8 * |full| <= |co| < 8 * |full| + 8
    requires 8 * |full| == |co| ==> out == full
    requires 8 * |full| < |co| ==> |out| == |full| + 1 && out[..|full|] == full && out[|full|] == BitsValue(Group(co, |full|))
    ensures IsPacking(out, co)
  {
    forall k | 0 <= k < |out|
      ensures 8 * k < |co| && out[k] == BitsValue(Group(co, k))
    {
      if k < |full| {
        assert out[k] == out[..|full|][k];
      }
    }
  }

  /** The bits left over after the whole groups, padded as line 70 pads
      them, are the last group. */
  lemma FinalGroup(co: string, full: seq<UByte>, s: string)
    requires 8 * |full| < |co| < 8 * |full| + 8
    requires s == co[8 * |full| ..]
    ensures (s + "00000000")[..8] == Group(co, |full|)
    ensures BitsValue((s + "00000000")[..8]) < 256
  {
    ByteValueBound((s + "00000000")[..8]);
  }

  /** The packing loop of lines 62-75. */
  method PackBits(co: string) returns (out: seq<UByte>)
    requires IsBits(co)
    ensures IsPacking(out, co)
  {
    out := [];
    var s := "";
    ghost var start := 0;
    for k := 0 to |co|
      invariant start == 8 * |out| && k == start + |s| && |s| < 8
      invariant s == co[start .. k]
      invariant PackedPrefix(out, co)
    {
      assert co[start .. k + 1] == co[start .. k] + [co[k]];
      s := s + [co[k]];
      if |s| == 8 {
        ByteValueBound(s);
        var b: UByte := BitsValue(s);
        PackedPrefixSnoc(out, co, b);
        out := out + [b];
        s := "";
        start := k + 1;
      }
    }
    ghost var full := out;
    if s != "" {
      var form := (s + "00000000")[..8];
      FinalGroup(co, full, s);
      var b: UByte := BitsValue(form);
      out := out + [b];
    }
    PackedFinish(full, co, out);
  }

  function BitChar(b: nat): char
    requires b < 2
  {
    if b == 1 then '1' else '0'
  }

  /** `Integer.toBinaryString` of a non-negative value: no leading zeros, "0" for zero. */
  function ToBinaryString(n: nat): (s: string)
    ensures |s| >= 1 && IsBits(s)
    ensures n >= 1 ==> s[0] == '1'
    decreases n
  {
    if n < 2 then [BitChar(n)] else ToBinaryString(n / 2) + [BitChar(n % 2)]
  }

  lemma {:induction false} ToBinaryStringValue(n: nat, k: nat)
    requires 1 <= k && n < Pow2(k)
    ensures IsBits(ToBinaryString(n)) && |ToBinaryString(n)| <= k
    ensures BitsValue(ToBinaryString(n)) == n
  {
    if n >= 2 {
      ToBinaryStringValue(n / 2, k - 1);
      var s := ToBinaryString(n);
      assert s[..|s| - 1] == ToBinaryString(n / 2);
    }
  }

  lemma {:induction false} ZerosValue(m: nat)
    ensures BitsValue(Zeros(m)) == 0
  {
    if m > 0 {
      ZerosValue(m - 1);
      assert Zeros(m)[..m - 1] == Zeros(m - 1);
    }
  }

  lemma {:induction false} LeadingZeros(m: nat, t: string)
    ensures BitsValue(Zeros(m) + t) == BitsValue(t)
  {
    if t == [] {
      assert Zeros(m) + t == Zeros(m);
      ZerosValue(m);
    } else {
      var u := Zeros(m) + t;
      assert u[..|u| - 1] == Zeros(m) + t[..|t| - 1];
      assert u[|u| - 1] == t[|t| - 1];
      LeadingZeros(m, t[..|t| - 1]);
    }
  }

  /** The eight-character form line 199 gives a byte read back from the
      packed stream: its binary digits left-padded with zeros. */
  function ByteBits(b: UByte): (s: string)
    ensures |s| == 8 && IsBits(s)
  {
    var str := ToBinaryString(b);
    ("00000000" + str)[|str|..]
  }

  /** ByteBits is the eight-bit MSB-first form of the byte. */
  lemma ByteBitsValue(b: UByte)
    ensures IsBits(ByteBits(b)) && BitsValue(ByteBits(b)) == b
  {
    var str := ToBinaryString(b);
    assert Pow2(2) == 4 && Pow2(4) == 16 && Pow2(6) == 64 && Pow2(8) == 256;
    ToBinaryStringValue(b, 8);
    assert ByteBits(b) == Zeros(8 - |str|) + str;
    LeadingZeros(8 - |str|, str);
  }

  /** Reading eight bits as a byte and expanding the byte again gives them back. */
  lemma ByteBitsOfGroup(g: string)
    requires |g| == 8 && IsBits(g)
    ensures BitsValue(g) < 256 && ByteBits(BitsValue(g)) == g
  {
    ByteValueBound(g);
    ByteBitsValue(BitsValue(g));
    BitsValueInjective(ByteBits(BitsValue(g)), g);
  }

  /** The bit string the decoder builds in lines 197-201: eight bits per
      packed byte. */
  function Expand(packed: seq<UByte>): (bits: string)
    ensures |bits| == 8 * |packed| && IsBits(bits)
  {
    if packed == [] then [] else Expand(packed[..|packed| - 1]) + ByteBits(packed[|packed| - 1])
  }

  /** Each byte of the packed stream becomes exactly eight bits, in stream
      order: bit i of the expansion is bit i % 8 of byte i / 8. */
  lemma {:induction false} ExpandAt(packed: seq<UByte>, i: nat)
    requires i < 8 * |packed|
    ensures |Expand(packed)| == 8 * |packed|
    ensures Expand(packed)[i] == ByteBits(packed[i / 8])[i % 8]
  {
    var n := |packed| - 1;
    var front := packed[..n];
    assert Expand(packed) == Expand(front) + ByteBits(packed[n]);
    if i < 8 * n {
      ExpandAt(front, i);
      assert front[i / 8] == packed[i / 8];
    } else {
      assert i / 8 == n && i % 8 == i - 8 * n;
    }
  }

  /** Bit j of packed byte k, read back the way the decoder reads it, is bit
      8k+j of `co`, or a pad zero past its end. */
  lemma PackedBit(out: seq<UByte>, co: string, k: nat, j: nat)
    requires IsBits(co) && IsPacking(out, co)
    requires k < |out| && j < 8
    ensures ByteBits(out[k])[j] == if 8 * k + j < |co| then co[8 * k + j] else '0'
  {
    var g := Group(co, k);
    assert IsBits(g) by {
      forall j' | 0 <= j' < 8 ensures IsBit(g[j']) {
        GroupAt(co, k, j');
      }
    }
    ByteBitsOfGroup(g);
    GroupAt(co, k, j);
  }

  /** Bit i of the expanded packing is bit i of `co`, or a pad zero past its end. */
  lemma ExpandPackedAt(out: seq<UByte>, co: string, i: nat)
    requires IsBits(co) && IsPacking(out, co)
    requires i < 8 * |out|
    ensures Expand(out)[i] == if i < |co| then co[i] else '0'
  {
    ExpandAt(out, i);
    PackedBit(out, co, i / 8, i % 8);
  }

  lemma ExpandPackedAll(out: seq<UByte>, co: string)
    requires IsBits(co) && IsPacking(out, co)
    ensures forall i :: 0 <= i < |Expand(out)| ==> Expand(out)[i] == if i < |co| then co[i] else '0'
  {
    forall i | 0 <= i < |Expand(out)|
      ensures Expand(out)[i] == if i < |co| then co[i] else '0'
    {
      ExpandPackedAt(out, co, i);
    }
  }

  /** Unpacking inverts packing up to the pad: expand(pack(co)) is `co`
      followed by fewer than eight zero bits. */
  lemma ExpandPacking(out: seq<UByte>, co: string)
    requires IsBits(co) && IsPacking(out, co)
    ensures |co| <= |Expand(out)| < |co| + 8
    ensures Expand(out) == co + Zeros(|Expand(out)| - |co|)
  {
    ExpandPackedAll(out, co);
    var e := Expand(out);
    var z := co + Zeros(|e| - |co|);
    SeqExt(e, z);
  }
}
