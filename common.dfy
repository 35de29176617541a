/** Vocabulary shared by the compressor's components: Java's signed byte, the
    unsigned values the byte streams read and write, bit strings, and the
    outcomes of parsing the frequency file. */
module Common {

  /** A Java `byte`, sign-extended to `int` as `int val = bytes[i]` does. */
  type SByte = x: int | -128 <= x < 128

  /** A value handed to `OutputStream.write` or returned by `InputStream.read`
      before the end of the stream. */
  type UByte = x: int | 0 <= x < 256

  const INT_MIN: int := -0x8000_0000
  const INT_MAX: int := 0x7fff_ffff

  datatype Option<T> = None | Some(value: T)

  /** The exceptions the decoder's parsing can raise. */
  datatype Error =
    | NumberFormat   // NumberFormatException: a bad or missing count, a bad or out-of-range symbol
    | MissingField   // ArrayIndexOutOfBoundsException: a line without a second ':'-separated field

  datatype Result<T> = Ok(value: T) | Err(error: Error)

  predicate IsBit(c: char) {
    c == '0' || c == '1'
  }

  /** A string over {'0', '1'}, the representation the source uses for codes. */
  predicate IsBits(s: string) {
    forall i :: 0 <= i < |s| ==> IsBit(s[i])
  }

  /** A bit string holds no ':', the frequency file's field separator. */
  lemma BitsNoColon(s: string)
    requires IsBits(s)
    ensures ':' !in s
  {
    assert forall i :: 0 <= i < |s| ==> s[i] != ':';
  }

  /** No key of the code table is a prefix of another key. */
  ghost predicate PrefixFree<T>(m: map<string, T>) {
    forall a, b :: a in m && b in m && a != b ==> !(a <= b)
  }

  /** `n` zero bits. */
  function Zeros(n: nat): (z: string)
    ensures |z| == n
    ensures forall i :: 0 <= i < n ==> z[i] == '0'
  {
    if n == 0 then [] else Zeros(n - 1) + "0"
  }

  /** `order` lists the keys of `m` once each, as iterating a HashMap's key
      or entry set does. */
  ghost predicate ListsKeys<K(!new), V>(order: seq<K>, m: map<K, V>) {
    && (forall k :: k in order <==> k in m)
    && (forall i, j :: 0 <= i < j < |order| ==> order[i] != order[j])
  }

  /** Appending an element not yet listed keeps a list free of repeats. */
  lemma NoRepeatSnoc<T>(s: seq<T>, x: T)
    requires forall i, j :: 0 <= i < j < |s| ==> s[i] != s[j]
    requires x !in s
    ensures forall i, j :: 0 <= i < j < |s + [x]| ==> (s + [x])[i] != (s + [x])[j]
  {
    forall i, j | 0 <= i < j < |s + [x]|
      ensures (s + [x])[i] != (s + [x])[j]
    {
      if j == |s| {
        assert (s + [x])[i] == s[i];
      }
    }
  }

  /** Two sequences with the same length and the same elements are equal. */
  lemma SeqExt<T>(a: seq<T>, b: seq<T>)
    requires |a| == |b|
    requires forall i :: 0 <= i < |a| ==> a[i] == b[i]
    ensures a == b
  {
  }

  lemma UnionAssoc<K, V>(a: map<K, V>, b: map<K, V>, c: map<K, V>)
    ensures a + b + c == a + (b + c)
  {
    assert (a + b + c).Keys == (a + (b + c)).Keys;
  }

  /** Two maps with the same keys and the same value at each key are equal. */
  lemma MapExt<K, V>(a: map<K, V>, b: map<K, V>)
    requires forall k :: k in a <==> k in b
    requires forall k :: k in a ==> a[k] == b[k]
    ensures a == b
  {
    assert a.Keys == b.Keys;
  }

  lemma UnionEmpty<K, V>(m: map<K, V>)
    ensures map[] + m == m
  {
    assert (map[] + m).Keys == m.Keys;
  }
}
