/** The compressor object, HuffmanSubmit: its static fields become the
    fields of one object, and encode and decode its methods. */
module Huffman {
  import opened Common
  import opened BitPacking
  import opened FreqFile
  import opened HuffmanTree
  import opened Unpacking

  /** The count `m` holds for x, zero when x is absent. */
  function Lookup(m: map<SByte, nat>, x: SByte): nat {
    if x in m then m[x] else 0
  }

  /** What decode produces from the frequency file's lines and the packed
      stream, starting from the code table `acc`: genMap's exception, or the
      bytes genFile writes. */
  function DecodeSpec(lines: seq<string>, packed: seq<UByte>, acc: map<string, SByte>): (r: Result<seq<SByte>>)
    ensures r.Err? <==> ReadFreqFile(lines, acc).outcome.Err?
    ensures r.Ok? ==> |r.value| <= 8 * |packed|
    ensures r.Ok? ==> r.value == [] || |r.value| <= ReadFreqFile(lines, acc).outcome.value
    ensures r.Ok? ==> forall i :: 0 <= i < |r.value| ==> r.value[i] in ReadFreqFile(lines, acc).table.Values
  {
    var loaded := ReadFreqFile(lines, acc);
    match loaded.outcome
    case Err(e) => Err(e)
    case Ok(freq) => Ok(Scan(Expand(packed), loaded.table, freq, "", 0))
  }

  /** `m` counts the bytes of `bytes`: its keys are the byte values that
      occur, each mapped to its number of occurrences. */
  ghost predicate CountsOf(m: map<SByte, nat>, bytes: seq<SByte>) {
    && (forall x :: x in m <==> x in bytes)
    && (forall x :: x in m ==> m[x] == multiset(bytes)[x])
  }

  /** Counting into an empty map gives the counts of the input alone. */
  lemma FreshCounts(m0: map<SByte, nat>, m: map<SByte, nat>, bytes: seq<SByte>)
    requires m0 == map[]
    requires forall x :: x in m <==> x in m0 || x in bytes
    requires forall x :: x in m ==> m[x] == Lookup(m0, x) + multiset(bytes)[x]
    ensures CountsOf(m, bytes)
  {
  }

  /** The leaves buildQueue creates for the keys of `m` taken in `order`. */
  function LeafQueue(m: map<SByte, nat>, order: seq<SByte>): (q: seq<Tree>)
    requires forall x :: x in order ==> x in m
    ensures |q| == |order|
    ensures forall i :: 0 <= i < |order| ==> q[i] == Leaf(order[i], m[order[i]], "")
  {
    if order == [] then [] else LeafQueue(m, order[..|order| - 1]) + [Leaf(order[|order| - 1], m[order[|order| - 1]], "")]
  }

  /** The queue buildQueue fills holds each byte value of `m` in exactly one
      leaf, and as many occurrences of it as `m` counts. */
  lemma {:induction false} LeafQueueBags(m: map<SByte, nat>, order: seq<SByte>)
    requires forall x :: x in order ==> x in m
    requires forall i, j :: 0 <= i < j < |order| ==> order[i] != order[j]
    ensures forall x :: Bag(LeafQueue(m, order), Syms)[x] == if x in order then 1 else 0
    ensures forall x :: Bag(LeafQueue(m, order), Occ)[x] == if x in order then m[x] else 0
  {
    if order != [] {
      var n := |order| - 1;
      var front := order[..n];
      assert forall x :: x in order <==> x in front || x == order[n];
      assert order[n] !in front;
      LeafQueueBags(m, front);
      var q := LeafQueue(m, order);
      assert q[..n] == LeafQueue(m, front);
    }
  }

  /** The leaves built from the counts of `bytes` are well formed, and
      there is at least one when `bytes` is not empty. */
  lemma LeavesWellFormed(bytes: seq<SByte>, m: map<SByte, nat>, order: seq<SByte>)
    requires CountsOf(m, bytes)
    requires ListsKeys(order, m)
    ensures forall t :: t in LeafQueue(m, order) ==> t.Leaf? && WellFormed(t)
    ensures |bytes| >= 1 ==> |LeafQueue(m, order)| >= 1
  {
    var q := LeafQueue(m, order);
    forall t | t in q ensures t.Leaf? && WellFormed(t) {
      var i :| 0 <= i < |q| && q[i] == t;
      assert order[i] in bytes;
      assert order[i] in multiset(bytes);
    }
    if |bytes| >= 1 {
      assert bytes[0] in order;
    }
  }

  /** The leaves built from the counts of `bytes` hold each byte value once
      and together account for every byte of the input. */
  lemma CountedLeaves(bytes: seq<SByte>, m: map<SByte, nat>, order: seq<SByte>)
    requires CountsOf(m, bytes)
    requires ListsKeys(order, m)
    ensures Bag(LeafQueue(m, order), Occ) == multiset(bytes)
    ensures forall x :: Bag(LeafQueue(m, order), Syms)[x] <= 1
    ensures FreqSum(LeafQueue(m, order)) == |bytes|
  {
    var q := LeafQueue(m, order);
    LeafQueueBags(m, order);
    assert Bag(q, Occ) == multiset(bytes) by {
      forall x ensures Bag(q, Occ)[x] == multiset(bytes)[x] {
      }
    }
    LeavesWellFormed(bytes, m, order);
    FreqSumWeight(q);
  }

  /** The queue buildQueue fills from the counts of a non-empty input: one
      well-formed leaf per byte value, accounting for every input byte. */
  lemma FilledQueue(bytes: seq<SByte>, m: map<SByte, nat>, order: seq<SByte>, q: seq<Tree>)
    requires CountsOf(m, bytes) && 1 <= |bytes|
    requires ListsKeys(order, m) && |order| == |m|
    requires q == LeafQueue(m, order)
    ensures |m| == |q| >= 1
    ensures forall t :: t in q ==> t.Leaf? && WellFormed(t)
    ensures Bag(q, Occ) == multiset(bytes)
    ensures forall x :: Bag(q, Syms)[x] <= 1
  {
    LeavesWellFormed(bytes, m, order);
    CountedLeaves(bytes, m, order);
  }

  class HuffmanSubmit {
    /** `map`: byte value to number of occurrences (line 30). */
    var freqMap: map<SByte, nat>
    /** `ch_code` and `code_ch` (lines 31-32). */
    var chCode: map<SByte, string>
    var codeCh: map<string, SByte>
    /** `queue` (line 33): the priority queue's contents, in no particular
      order; empty until buildQueue creates the queue (null in the source). */
    var queue: seq<Tree>
    /** `nodes` (line 34): the number of leaves buildQueue has added. */
    var nodes: int
    /** `code_byte` (line 167). */
    var codeByte: map<string, SByte>

    /** The static fields as a fresh program starts with them. `queue` is
      null until buildQueue assigns it (line 109), before anything reads it;
      the empty sequence stands for that unset queue. */
    constructor ()
      ensures freqMap == map[] && chCode == map[] && codeCh == map[]
      ensures queue == [] && nodes == 0 && codeByte == map[]
    {
      freqMap := map[];
      chCode := map[];
      codeCh := map[];
      queue := [];
      nodes := 0;
      codeByte := map[];
    }

    /** getFreq (lines 96-105): every byte of the input adds one to its count. */
    method GetFreq(bytes: seq<SByte>)
      modifies this`freqMap
      ensures forall x :: x in freqMap <==> x in old(freqMap) || x in bytes
      ensures forall x :: x in freqMap ==> freqMap[x] == Lookup(old(freqMap), x) + multiset(bytes)[x]
    {
      for i := 0 to |bytes|
        invariant forall x :: x in freqMap <==> x in old(freqMap) || x in bytes[..i]
        invariant forall x :: x in freqMap ==> freqMap[x] == Lookup(old(freqMap), x) + multiset(bytes[..i])[x]
      {
        var val := bytes[i];
        assert bytes[..i + 1] == bytes[..i] + [val];
        if val !in freqMap {
          freqMap := freqMap[val := 1];
        } else {
          freqMap := freqMap[val := freqMap[val] + 1];
        }
      }
      assert bytes[..|bytes|] == bytes;
    }

    /** buildQueue (lines 108-115): a new queue holding one leaf per entry of
      `m`, in the map's iteration order `order`, each counted in `nodes`. */
    method BuildQueue(m: map<SByte, nat>) returns (ghost order: seq<SByte>)
      modifies this`queue, this`nodes
      ensures ListsKeys(order, m) && |order| == |m|
      ensures queue == LeafQueue(m, order)
      ensures nodes == old(nodes) + |m|
    {
      queue := [];
      order := [];
      var keys := m.Keys;
      while keys != {}
        invariant forall x :: x in m <==> x in order || x in keys
        invariant forall x :: x in order ==> x !in keys
        invariant forall i, j :: 0 <= i < j < |order| ==> order[i] != order[j]
        invariant nodes == old(nodes) + |order| && |order| + |keys| == |m|
        invariant queue == LeafQueue(m, order)
        decreases |keys|
      {
        var i :| i in keys;
        NoRepeatSnoc(order, i);
        var e := Leaf(i, m[i], "");
        assert (order + [i])[..|order|] == order;
        queue := queue + [e];
        nodes := nodes + 1;
        keys := keys - {i};
        order := order + [i];
      }
    }

    /** queue.poll() (lines 122-123): removes and returns a node of least frequency. */
    method Poll() returns (t: Tree, ghost k: nat)
      requires |queue| > 0
      modifies this`queue
      ensures k < |old(queue)| && t == old(queue)[k]
      ensures forall j :: 0 <= j < |old(queue)| ==> t.freq <= old(queue)[j].freq
      ensures queue == Remove(old(queue), k)
    {
      var i := MinIndex(queue);
      k := i;
      t := queue[i];
      queue := queue[..i] + queue[i + 1..];
    }

    /** One round of the loop of lines 120-131: poll a node of least
      frequency (left), then a node of least frequency among the rest
      (right), and add their parent, whose freq is the sum of theirs; the
      children get the codes "0" and "1" (lines 128-129). */
    method Merge() returns (ghost left: Tree, ghost right: Tree, ghost kl: nat, ghost kr: nat)
      requires |queue| >= 2
      modifies this`queue
      ensures kl < |old(queue)| && kr < |old(queue)| - 1
      ensures left == old(queue)[kl] && right == Remove(old(queue), kl)[kr]
      ensures forall j :: 0 <= j < |old(queue)| ==> left.freq <= old(queue)[j].freq
      ensures forall j :: 0 <= j < |old(queue)| - 1 ==> right.freq <= Remove(old(queue), kl)[j].freq
      ensures queue == Remove(Remove(old(queue), kl), kr) + [Parent(left, right)]
    {
      var l, r;
      l, kl := Poll();
      r, kr := Poll();
      var n := Parent(l, r);
      queue := queue + [n];
      left, right := l, r;
    }

    /** configQueue (lines 119-135): nodes - 1 times, merge two nodes of
      least frequency under a new node whose freq is their sum, then return
      the frequency of the one tree left. That tree accounts for exactly the
      byte occurrences and the leaves the queue held, and has one internal
      node per merge. */
    method ConfigQueue() returns (topFreq: int)
      requires nodes == |queue| >= 1
      requires forall t :: t in queue ==> t.Leaf? && WellFormed(t)
      modifies this`queue
      ensures |queue| == 1 && WellFormed(queue[0])
      ensures Occ(queue[0]) == old(Bag(queue, Occ)) && Syms(queue[0]) == old(Bag(queue, Syms))
      ensures Internal(queue[0]) == nodes - 1
      ensures topFreq == queue[0].freq == |old(Bag(queue, Occ))|
    {
      ghost var q0 := queue;
      LeafBagSize(q0);
      for i := 0 to nodes - 1
        invariant |queue| == nodes - i
        invariant forall t :: t in queue ==> WellFormed(t)
        invariant Bag(queue, Occ) == Bag(q0, Occ) && Bag(queue, Syms) == Bag(q0, Syms)
      {
        ghost var q1 := queue;
        ghost var left, right, kl, kr := Merge();
        MergeMembers(q1, kl, kr);
        MergeBag(q1, kl, kr, Occ);
        MergeBag(q1, kl, kr, Syms);
        assert left in q1 && right in Remove(q1, kl) by {
          RemoveAt(q1, kl);
        }
      }
      var top := queue[0];
      assert queue == [top];
      BagSingle(top, Occ);
      BagSingle(top, Syms);
      FreqIsWeight(top);
      FullTree(top);
      topFreq := top.freq;
    }

    /** setCodeMaps (lines 148-159): visits the leaves left to right,
      entering each leaf's code under its byte in ch_code and its byte under
      its code in code_ch. */
    method SetCodeMaps(t: Tree)
      modifies this`chCode, this`codeCh
      ensures chCode == old(chCode) + ChCodeOf(t)
      ensures codeCh == old(codeCh) + CodeChOf(t)
      decreases t
    {
      match t
      case Node(l, r, _, _) =>
        SetCodeMaps(l);
        SetCodeMaps(r);
        UnionAssoc(old(chCode), ChCodeOf(l), ChCodeOf(r));
        UnionAssoc(old(codeCh), CodeChOf(l), CodeChOf(r));
      case Leaf(s, _, c) =>
        chCode := chCode[s := c];
        codeCh := codeCh[c := s];
    }

    /** Lines 47-51: the count, then one line per entry of code_ch, in the
      HashMap's iteration order, returned as `order`. */
    method WriteFreqFile(topFreq: int) returns (lines: seq<string>, ghost order: seq<string>)
      ensures ListsKeys(order, codeCh)
      ensures lines == FreqLines(topFreq, codeCh, order)
    {
      lines := [IntToString(topFreq)];
      order := [];
      var keys := codeCh.Keys;
      while keys != {}
        invariant keys <= codeCh.Keys
        invariant forall c :: c in codeCh <==> c in order || c in keys
        invariant forall c :: c in order ==> c !in keys
        invariant forall i, j :: 0 <= i < j < |order| ==> order[i] != order[j]
        invariant lines == FreqLines(topFreq, codeCh, order)
        decreases |keys|
      {
        var c :| c in keys;
        FreqLinesSnoc(topFreq, codeCh, order, c);
        NoRepeatSnoc(order, c);
        lines := lines + [EntryLine(c, codeCh[c])];
        order := order + [c];
        keys := keys - {c};
      }
    }

    /** Lines 55-59: the codes of the input bytes, concatenated. */
    method CodeString(bytes: seq<SByte>) returns (co: string)
      requires forall x :: x in bytes ==> x in chCode
      ensures co == Encoded(chCode, bytes)
    {
      co := "";
      for i := 0 to |bytes|
        invariant co == Encoded(chCode, bytes[..i])
      {
        EncodedSnoc(chCode, bytes[..i], bytes[i]);
        assert bytes[..i + 1] == bytes[..i] + [bytes[i]];
        co := co + chCode[bytes[i]];
      }
      assert bytes[..|bytes|] == bytes;
    }

    /** Lines 39-41: count the input's bytes (getBytes calls getFreq), fill
      the queue with one leaf per byte value, and merge it into one tree. */
    method BuildTree(bytes: seq<SByte>) returns (topFreq: int)
      requires freqMap == map[] && nodes == 0 && 1 <= |bytes|
      modifies this`freqMap, this`queue, this`nodes
      ensures CountsOf(freqMap, bytes) && nodes == |freqMap|
      ensures |queue| == 1 && WellFormed(queue[0]) && Distinct(queue[0])
      ensures Occ(queue[0]) == multiset(bytes) && Internal(queue[0]) == nodes - 1
      ensures topFreq == queue[0].freq == |bytes|
    {
      FillQueue(bytes);
      ghost var leaves := queue;
      topFreq := ConfigQueue();
      assert Syms(queue[0]) == Bag(leaves, Syms);
    }

    /** Lines 39-40: count the input's bytes and fill the queue with their leaves. */
    method FillQueue(bytes: seq<SByte>)
      requires freqMap == map[] && nodes == 0 && 1 <= |bytes|
      modifies this`freqMap, this`queue, this`nodes
      ensures CountsOf(freqMap, bytes) && nodes == |freqMap| == |queue| >= 1
      ensures forall t :: t in queue ==> t.Leaf? && WellFormed(t)
      ensures Bag(queue, Occ) == multiset(bytes)
      ensures forall x :: Bag(queue, Syms)[x] <= 1
    {
      GetFreq(bytes);
      FreshCounts(old(freqMap), freqMap, bytes);
      ghost var symOrder := BuildQueue(freqMap);
      FilledQueue(bytes, freqMap, symOrder, queue);
    }

    /** Lines 39-44: build the tree, label it and fill ch_code and code_ch
      from it. Line 43 labels the tree with labelQueue; here the corrected
      labelling LabelTree, which gives a lone leaf the code "0". */
    method MakeCodes(bytes: seq<SByte>) returns (topFreq: int, ghost root: Tree)
      requires freqMap == map[] && chCode == map[] && codeCh == map[] && nodes == 0
      requires 1 <= |bytes|
      modifies this`freqMap, this`queue, this`nodes, this`chCode, this`codeCh
      ensures CountsOf(freqMap, bytes) && nodes == |freqMap|
      ensures queue == [root] && Internal(root) == nodes - 1
      ensures WellFormed(root) && CodeTree(root) && Distinct(root)
      ensures Occ(root) == multiset(bytes) && root.freq == |bytes|
      ensures chCode == ChCodeOf(root) && codeCh == CodeChOf(root)
      ensures topFreq == |bytes|
    {
      topFreq := BuildTree(bytes);
      root := AssignCodes();
    }

    /** Lines 43-44: label the merged tree and fill ch_code and code_ch from it. */
    method AssignCodes() returns (ghost root: Tree)
      requires |queue| == 1 && chCode == map[] && codeCh == map[]
      modifies this`queue, this`chCode, this`codeCh
      ensures root == LabelTree(old(queue[0])) && queue == [root]
      ensures chCode == ChCodeOf(root) && codeCh == CodeChOf(root)
    {
      var top := LabelTree(queue[0]);
      queue := [top];
      root := top;
      SetCodeMaps(top);
      UnionEmpty(ChCodeOf(top));
      UnionEmpty(CodeChOf(top));
    }

    /** encode (lines 36-77) on the input's bytes, returning the frequency
      file's lines and the packed stream. `root` is the labelled tree and
      `order` the order the table lines were written in. */
    method Encode(bytes: seq<SByte>)
      returns (lines: seq<string>, packed: seq<UByte>, ghost root: Tree, ghost order: seq<string>)
      requires freqMap == map[] && chCode == map[] && codeCh == map[] && nodes == 0
      requires 1 <= |bytes| <= INT_MAX
      modifies this`freqMap, this`queue, this`nodes, this`chCode, this`codeCh
      ensures CountsOf(freqMap, bytes) && nodes == |freqMap|
      ensures queue == [root] && Internal(root) == nodes - 1
      ensures WellFormed(root) && CodeTree(root) && Distinct(root)
      ensures Occ(root) == multiset(bytes) && root.freq == |bytes|
      ensures chCode == ChCodeOf(root) && codeCh == CodeChOf(root)
      ensures ListsKeys(order, codeCh) && lines == FreqLines(|bytes|, codeCh, order)
      ensures forall x :: x in bytes ==> x in chCode
      ensures IsPacking(packed, Encoded(chCode, bytes))
    {
      var topFreq;
      topFreq, root := MakeCodes(bytes);
      lines, order := WriteFreqFile(topFreq);
      CodeLookups(bytes, root);
      var co := CodeString(bytes);
      EncodedBits(chCode, bytes);
      packed := PackBits(co);
    }

    /** genMap (lines 177-187): the count on the first line, and the code
      table lines added to code_byte; an exception ends it early. */
    method GenMap(lines: seq<string>) returns (r: Result<int>)
      modifies this`codeByte
      ensures Loaded(codeByte, r) == ReadFreqFile(lines, old(codeByte))
    {
      if lines == [] {
        return Err(NumberFormat);
      }
      var header := ParseInt(lines[0]);
      if header.None? {
        return Err(NumberFormat);
      }
      var freq := header.value;
      var i := 1;
      while i < |lines|
        invariant 1 <= i <= |lines|
        invariant LoadEntries(lines[i..], codeByte, freq) == LoadEntries(lines[1..], old(codeByte), freq)
      {
        var entry := ParseEntry(lines[i]);
        if entry.Err? {
          return Err(entry.error);
        }
        assert lines[i..][1..] == lines[i + 1..];
        codeByte := codeByte[entry.value.0 := entry.value.1];
        i := i + 1;
      }
      r := Ok(freq);
    }

    /** decode (lines 170-174) on the frequency file's lines and the packed stream. */
    method Decode(lines: seq<string>, packed: seq<UByte>) returns (r: Result<seq<SByte>>)
      modifies this`codeByte
      ensures r == DecodeSpec(lines, packed, old(codeByte))
      ensures codeByte == ReadFreqFile(lines, old(codeByte)).table
    {
      var freq := GenMap(lines);
      match freq
      case Err(e) =>
        r := Err(e);
      case Ok(n) =>
        var out := GenFile(codeByte, packed, n);
        r := Ok(out);
    }
  }

  /** What the decoder relies on in the code table of the tree built for
      `bytes`: every input byte has a bit-string code that code_ch maps back
      to it, the codes are prefix-free and contain no ':', and the root's
      frequency is the input's length. */
  lemma CodeLookups(bytes: seq<SByte>, t: Tree)
    requires WellFormed(t) && CodeTree(t) && Distinct(t) && Occ(t) == multiset(bytes)
    ensures t.freq == |bytes|
    ensures forall x :: x in bytes ==> x in ChCodeOf(t) && IsBits(ChCodeOf(t)[x])
    ensures Decodes(ChCodeOf(t), CodeChOf(t), bytes)
    ensures PrefixFree(CodeChOf(t))
    ensures forall c :: c in CodeChOf(t) ==> ':' !in c
  {
    FreqIsWeight(t);
    assert |multiset(bytes)| == |bytes|;
    CodeTable(t);
    forall c | c in CodeChOf(t) ensures ':' !in c {
      BitsNoColon(c);
    }
    forall x | x in bytes ensures x in ChCodeOf(t) && IsBits(ChCodeOf(t)[x]) {
      assert x in multiset(bytes);
    }
  }

  /** Decoding what encode writes gives the input back: the frequency file
      carries the root's frequency and code_ch, and the packed stream the
      codes of the input bytes. */
  lemma RoundTrip(bytes: seq<SByte>, t: Tree, order: seq<string>, packed: seq<UByte>)
    requires |bytes| <= INT_MAX
    requires WellFormed(t) && CodeTree(t) && Distinct(t) && Occ(t) == multiset(bytes)
    requires ListsKeys(order, CodeChOf(t))
    requires forall x :: x in bytes ==> x in ChCodeOf(t)
    requires IsPacking(packed, Encoded(ChCodeOf(t), bytes))
    ensures DecodeSpec(FreqLines(t.freq, CodeChOf(t), order), packed, map[]) == Ok(bytes)
  {
    CodeLookups(bytes, t);
    FreqFileRoundTrip(t.freq, CodeChOf(t), order);
    DecodePacked(ChCodeOf(t), CodeChOf(t), bytes, packed);
  }

  /** encode followed by decode on the same object, as the program's main
      method runs them, gives the input back. */
  method CompressRoundTrip(bytes: seq<SByte>) returns (r: Result<seq<SByte>>)
    requires 1 <= |bytes| <= INT_MAX
    ensures r == Ok(bytes)
  {
    var h := new HuffmanSubmit();
    var lines, packed, root, order := h.Encode(bytes);
    r := h.Decode(lines, packed);
    RoundTrip(bytes, root, order, packed);
  }

  /** When every byte's code is empty, concatenating the codes gives no bits. */
  lemma {:induction false} EncodedEmpty(code: map<SByte, string>, s: seq<SByte>)
    requires forall x :: x in s ==> x in code && code[x] == ""
    ensures Encoded(code, s) == ""
  {
    if s != [] {
      EncodedEmpty(code, s[1..]);
    }
  }

  /** As written, an input made of n copies of one byte value gets the empty
      code from labelQueue (line 43 labels from the root's empty code and a
      leaf has no children), so nothing is packed and decode writes no byte. */
  lemma LoneLeafAsWritten(s: SByte, n: nat, packed: seq<UByte>)
    requires 1 <= n <= INT_MAX
    requires IsPacking(packed, Encoded(ChCodeOf(LabelQueue(Leaf(s, n, ""), "")), seq(n, _ => s)))
    ensures packed == []
    ensures DecodeSpec(FreqLines(n, CodeChOf(LabelQueue(Leaf(s, n, ""), "")), [""]), packed, map[]) == Ok([])
    ensures DecodeSpec(FreqLines(n, CodeChOf(LabelQueue(Leaf(s, n, ""), "")), [""]), packed, map[]) != Ok(seq(n, _ => s))
  {
    var t := LabelQueue(Leaf(s, n, ""), "");
    EncodedEmpty(ChCodeOf(t), seq(n, _ => s));
    FreqFileRoundTrip(n, CodeChOf(t), [""]);
    assert Expand(packed) == "";
    assert seq(n, _ => s) != [];
  }
}
