/** The decoder's second half, genFile (lines 190-214): expand the packed
    bytes into bits and read codes off them greedily. */
module Unpacking {
  import opened Common
  import opened BitPacking

  /** The scan of lines 202-211 from position 0 of `bits` on, with `check`
      the bits read since the last symbol and `count` the symbols written so
      far: a symbol is written as soon as `check` is a code, until `freq`
      symbols have been written. Bits left in `check` at the end are dropped. */
  function Scan(bits: string, m: map<string, SByte>, freq: int, check: string, count: int): (r: seq<SByte>)
    ensures |r| <= |bits|
    ensures count >= freq ==> r == []
    ensures count < freq ==> |r| <= freq - count
    ensures forall i :: 0 <= i < |r| ==> r[i] in m.Values
  {
    if bits == [] then []
    else
      var c := check + [bits[0]];
      if count < freq && c in m then [m[c]] + Scan(bits[1..], m, freq, "", count + 1)
      else Scan(bits[1..], m, freq, c, count)
  }

  /** genFile: the packed stream expanded (lines 196-201), then scanned
      (lines 202-211). The result is the sequence of bytes written to the
      output, each as the Java byte it was in the table. */
  method GenFile(m: map<string, SByte>, packed: seq<UByte>, freq: int) returns (out: seq<SByte>)
    ensures out == Scan(Expand(packed), m, freq, "", 0)
  {
    var bc := "";
    for i := 0 to |packed|
      invariant bc == Expand(packed[..i])
    {
      assert packed[..i + 1][..i] == packed[..i];
      bc := bc + ByteBits(packed[i]);
    }
    assert packed[..|packed|] == packed;
    var freqCount := 0;
    var check := "";
    out := [];
    for i := 0 to |bc|
      invariant out + Scan(bc[i..], m, freq, check, freqCount) == Scan(bc, m, freq, "", 0)
    {
      assert bc[i..][1..] == bc[i + 1..];
      check := check + [bc[i]];
      if freqCount < freq && check in m {
        out := out + [m[check]];
        check := "";
        freqCount := freqCount + 1;
      }
    }
  }

  /** Reading a code w, once the bits before it left `check` empty, writes
      its symbol and nothing else, provided no proper prefix of w is a code. */
  lemma {:induction false} ScanWord(w: string, k: nat, rest: string, m: map<string, SByte>, freq: int, count: int)
    requires k < |w| && w in m && count < freq
    requires forall j :: 0 < j < |w| ==> w[..j] !in m
    ensures Scan(w[k..] + rest, m, freq, w[..k], count) == [m[w]] + Scan(rest, m, freq, "", count + 1)
    decreases |w| - k
  {
    var bits := w[k..] + rest;
    assert bits[0] == w[k];
    assert w[..k] + [w[k]] == w[..k + 1];
    if k + 1 == |w| {
      assert w[..k + 1] == w;
      assert bits[1..] == rest;
    } else {
      assert bits[1..] == w[k + 1..] + rest;
      ScanWord(w, k + 1, rest, m, freq, count);
    }
  }

  /** The lookups a decoder of `s` needs: every symbol has a non-empty code,
      and `m` maps the code back to the symbol. */
  ghost predicate Decodes(code: map<SByte, string>, m: map<string, SByte>, s: seq<SByte>) {
    forall x :: x in s ==> x in code && code[x] != "" && code[x] in m && m[code[x]] == x
  }

  lemma NoProperPrefix(m: map<string, SByte>, w: string)
    requires PrefixFree(m) && w in m
    ensures forall j :: 0 < j < |w| ==> w[..j] !in m
  {
    forall j | 0 < j < |w| ensures w[..j] !in m {
      assert w[..j] <= w;
    }
  }

  lemma DecodesTail(code: map<SByte, string>, m: map<string, SByte>, s: seq<SByte>)
    requires s != [] && Decodes(code, m, s)
    ensures Decodes(code, m, s[1..])
  {
    forall x | x in s[1..] ensures x in s {
    }
  }

  lemma ConsAppend<T>(s: seq<T>, t: seq<T>)
    requires s != []
    ensures s + t == [s[0]] + (s[1..] + t)
  {
    assert s == [s[0]] + s[1..];
  }

  /** Scanning the codes of `s` writes the first symbol of `s` on reading its code. */
  lemma ScanFirst(code: map<SByte, string>, m: map<string, SByte>, s: seq<SByte>, pad: string, freq: int, count: int)
    requires PrefixFree(m) && s != [] && Decodes(code, m, s)
    requires count < freq
    ensures Scan(Encoded(code, s) + pad, m, freq, "", count)
         == [s[0]] + Scan(Encoded(code, s[1..]) + pad, m, freq, "", count + 1)
  {
    var w := code[s[0]];
    assert Encoded(code, s) + pad == w[0..] + (Encoded(code, s[1..]) + pad);
    NoProperPrefix(m, w);
    ScanWord(w, 0, Encoded(code, s[1..]) + pad, m, freq, count);
  }

  /** With a prefix-free table, scanning the codes of `s` gives `s` back,
      as long as `freq` leaves room for all of it. */
  lemma {:induction false} ScanEncoded(code: map<SByte, string>, m: map<string, SByte>, s: seq<SByte>, pad: string, freq: int, count: int)
    requires PrefixFree(m) && Decodes(code, m, s)
    requires count + |s| <= freq
    ensures Scan(Encoded(code, s) + pad, m, freq, "", count) == s + Scan(pad, m, freq, "", count + |s|)
  {
    if s == [] {
      assert Encoded(code, s) + pad == pad;
    } else {
      ScanFirst(code, m, s, pad, freq, count);
      DecodesTail(code, m, s);
      ScanEncoded(code, m, s[1..], pad, freq, count + 1);
      ConsAppend(s, Scan(pad, m, freq, "", count + |s|));
    }
  }

  /** Unpacking inverts packing and coding: with `freq` equal to the number
      of symbols, the scan of the expanded packed stream yields `s` exactly,
      whatever the padding bits. */
  lemma DecodePacked(code: map<SByte, string>, m: map<string, SByte>, s: seq<SByte>, packed: seq<UByte>)
    requires PrefixFree(m) && Decodes(code, m, s)
    requires forall x :: x in s ==> IsBits(code[x])
    requires IsPacking(packed, Encoded(code, s))
    ensures Scan(Expand(packed), m, |s|, "", 0) == s
  {
    var co := Encoded(code, s);
    EncodedBits(code, s);
    ExpandPacking(packed, co);
    var pad := Zeros(|Expand(packed)| - |co|);
    ScanEncoded(code, m, s, pad, |s|, 0);
  }
}
