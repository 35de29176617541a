/** The Huffman tree (HuffmanSubmit.Node, lines 219-280), the queue
    bookkeeping of buildQueue/configQueue (lines 108-135), and the code tables
    labelQueue and setCodeMaps derive from a tree (lines 138-159). */
module HuffmanTree {
  import opened Common

  /** A tree node. A leaf carries the byte value it stands for; an internal
      node only its children. `code` is the node's `code` field. */
  datatype Tree =
    | Leaf(sym: SByte, freq: nat, code: string)
    | Node(left: Tree, right: Tree, freq: nat, code: string)

  /** Node.compareTo (lines 272-279): -1 exactly when this node's frequency is
      smaller; on equal frequencies it answers 1 whichever way it is asked,
      so only ties are left unordered. */
  function CompareTo(a: Tree, b: Tree): (r: int)
    ensures r == 1 || r == -1
    ensures r == -1 <==> a.freq < b.freq
  {
    if a.freq == b.freq then 1 else if a.freq > b.freq then 1 else -1
  }

  /** On equal frequencies compareTo answers 1 whichever way it is asked. */
  lemma CompareToTie(a: Tree, b: Tree)
    requires a.freq == b.freq
    ensures CompareTo(a, b) == 1 && CompareTo(b, a) == 1
  {
  }

  /** The index of a minimum-frequency node, found with CompareTo: what
      `queue.poll()` removes (lines 122-123). Among ties any would be correct. */
  method MinIndex(q: seq<Tree>) returns (k: nat)
    requires |q| > 0
    ensures k < |q|
    ensures forall j :: 0 <= j < |q| ==> q[k].freq <= q[j].freq
  {
    k := 0;
    for j := 1 to |q|
      invariant k < j
      invariant forall i :: 0 <= i < j ==> q[k].freq <= q[i].freq
    {
      if CompareTo(q[j], q[k]) < 0 {
        k := j;
      }
    }
  }

  /** The multiset holding `s` exactly `n` times. */
  function Repeat(s: SByte, n: nat): (m: multiset<SByte>)
    ensures |m| == n && m[s] == n
    ensures forall x :: x != s ==> m[x] == 0
  {
    if n == 0 then multiset{} else Repeat(s, n - 1) + multiset{s}
  }

  /** The byte occurrences a tree accounts for: each leaf's symbol, `freq` times. */
  function Occ(t: Tree): multiset<SByte> {
    match t
    case Leaf(s, f, _) => Repeat(s, f)
    case Node(l, r, _, _) => Occ(l) + Occ(r)
  }

  /** The symbols of the leaves, once per leaf. */
  function Syms(t: Tree): multiset<SByte> {
    match t
    case Leaf(s, _, _) => multiset{s}
    case Node(l, r, _, _) => Syms(l) + Syms(r)
  }

  /** The number of internal nodes, that is of merges that built the tree. */
  function Internal(t: Tree): nat {
    match t
    case Leaf(_, _, _) => 0
    case Node(l, r, _, _) => Internal(l) + Internal(r) + 1
  }

  /** Leaves have positive counts (they come from the frequency map) and an
      internal node's freq is the sum of its children's (line 126). */
  predicate WellFormed(t: Tree) {
    match t
    case Leaf(_, f, _) => f >= 1
    case Node(l, r, f, _) => WellFormed(l) && WellFormed(r) && f == l.freq + r.freq
  }

  /** No byte value labels two leaves. */
  ghost predicate Distinct(t: Tree) {
    forall s :: Syms(t)[s] <= 1
  }

  /** A well-formed tree's frequency is the number of byte occurrences under
      it, and its leaves are exactly the bytes that occur. */
  lemma {:induction false} FreqIsWeight(t: Tree)
    requires WellFormed(t)
    ensures t.freq == |Occ(t)|
    ensures forall s :: s in Syms(t) <==> s in Occ(t)
  {
    match t
    case Leaf(_, _, _) =>
    case Node(l, r, _, _) =>
      FreqIsWeight(l);
      FreqIsWeight(r);
  }

  /** Every internal node has two children, so a tree of n leaves has n - 1
      internal nodes: the merge loop of line 120 runs once per extra leaf. */
  lemma {:induction false} FullTree(t: Tree)
    ensures Internal(t) + 1 == |Syms(t)|
  {
    match t
    case Leaf(_, _, _) =>
    case Node(l, r, _, _) =>
      FullTree(l);
      FullTree(r);
  }

  /** The sum over a queue of a per-tree multiset. */
  function Bag(q: seq<Tree>, f: Tree -> multiset<SByte>): multiset<SByte> {
    if q == [] then multiset{} else Bag(q[..|q| - 1], f) + f(q[|q| - 1])
  }

  lemma {:induction false} BagAppend(a: seq<Tree>, b: seq<Tree>, f: Tree -> multiset<SByte>)
    ensures Bag(a + b, f) == Bag(a, f) + Bag(b, f)
  {
    if b == [] {
      assert a + b == a;
    } else {
      var n := |b| - 1;
      assert (a + b)[..|a + b| - 1] == a + b[..n];
      BagAppend(a, b[..n], f);
    }
  }

  lemma BagSingle(t: Tree, f: Tree -> multiset<SByte>)
    ensures Bag([t], f) == f(t)
  {
    assert [t][..0] == [];
  }

  lemma BagSnoc(q: seq<Tree>, t: Tree, f: Tree -> multiset<SByte>)
    ensures Bag(q + [t], f) == Bag(q, f) + f(t)
  {
    assert (q + [t])[..|q|] == q;
  }

  /** A queue of leaves holds one symbol per element. */
  lemma {:induction false} LeafBagSize(q: seq<Tree>)
    requires forall t :: t in q ==> t.Leaf?
    ensures |Bag(q, Syms)| == |q|
  {
    if q != [] {
      assert forall t :: t in q[..|q| - 1] ==> t in q;
      LeafBagSize(q[..|q| - 1]);
    }
  }

  /** The sum of the frequencies of the trees in a queue. */
  function FreqSum(q: seq<Tree>): nat {
    if q == [] then 0 else FreqSum(q[..|q| - 1]) + q[|q| - 1].freq
  }

  /** The frequencies in a queue of well-formed trees add up to the number of
      byte occurrences the queue accounts for. */
  lemma {:induction false} FreqSumWeight(q: seq<Tree>)
    requires forall t :: t in q ==> WellFormed(t)
    ensures FreqSum(q) == |Bag(q, Occ)|
  {
    if q != [] {
      assert forall t :: t in q[..|q| - 1] ==> t in q;
      FreqSumWeight(q[..|q| - 1]);
      FreqIsWeight(q[|q| - 1]);
    }
  }

  /** Removing the element at k leaves the others. */
  lemma RemoveAt(q: seq<Tree>, k: nat)
    requires k < |q|
    ensures forall t :: t in q[..k] + q[k + 1..] ==> t in q
  {
    assert q == q[..k] + [q[k]] + q[k + 1..];
  }

  /** Removing the element at k takes its share out of the sum. */
  lemma BagRemove(q: seq<Tree>, k: nat, f: Tree -> multiset<SByte>)
    requires k < |q|
    ensures Bag(q[..k] + q[k + 1..], f) + f(q[k]) == Bag(q, f)
  {
    var a, b := q[..k], q[k + 1..];
    assert q == (a + [q[k]]) + b;
    BagAppend(a + [q[k]], b, f);
    BagAppend(a, [q[k]], f);
    BagAppend(a, b, f);
    BagSingle(q[k], f);
  }

  /** The tree with every code blanked: its shape, frequencies and leaf
      bytes, which is all a labelling must keep. */
  function Erase(t: Tree): Tree {
    match t
    case Leaf(s, f, _) => Leaf(s, f, "")
    case Node(l, r, f, _) => Node(Erase(l), Erase(r), f, "")
  }

  /** The tree with its root's code field set, as lines 128-129 set the
      codes of the two nodes just merged. */
  function WithCode(t: Tree, c: string): (r: Tree)
    ensures r.code == c && r.freq == t.freq && r.Leaf? == t.Leaf?
    ensures Occ(r) == Occ(t) && Syms(r) == Syms(t) && Internal(r) == Internal(t)
    ensures WellFormed(r) == WellFormed(t)
    ensures Erase(r) == Erase(t)
  {
    match t
    case Leaf(s, f, _) => Leaf(s, f, c)
    case Node(l, r, f, _) => Node(l, r, f, c)
  }

  /** `q` without its element at k: the queue as poll leaves it. */
  function Remove(q: seq<Tree>, k: nat): (r: seq<Tree>)
    requires k < |q|
    ensures |r| == |q| - 1
  {
    q[..k] + q[k + 1..]
  }

  /** The node lines 121-129 build over two polled nodes: the first polled
      becomes the left child, coded "0", the second the right child, coded
      "1", and the new node keeps the default empty code. */
  function Parent(l: Tree, r: Tree): (n: Tree)
    ensures n.Node? && n.freq == l.freq + r.freq
    ensures n.left == WithCode(l, "0") && n.right == WithCode(r, "1") && n.code == ""
    ensures Occ(n) == Occ(l) + Occ(r) && Syms(n) == Syms(l) + Syms(r)
    ensures WellFormed(n) <==> WellFormed(l) && WellFormed(r)
  {
    Node(WithCode(l, "0"), WithCode(r, "1"), l.freq + r.freq, "")
  }

  /** The nodes left after two polls were in the queue before. */
  lemma MergeMembers(q: seq<Tree>, kl: nat, kr: nat)
    requires kl < |q| && kr < |q| - 1
    ensures forall t :: t in Remove(Remove(q, kl), kr) ==> t in q
  {
    RemoveAt(q, kl);
    RemoveAt(Remove(q, kl), kr);
  }

  /** One merge round keeps a sum over the queue that adds up over a parent:
      the two polled nodes are replaced by their parent. */
  lemma MergeBag(q: seq<Tree>, kl: nat, kr: nat, f: Tree -> multiset<SByte>)
    requires kl < |q| && kr < |q| - 1
    requires f(Parent(q[kl], Remove(q, kl)[kr])) == f(q[kl]) + f(Remove(q, kl)[kr])
    ensures Bag(Remove(Remove(q, kl), kr) + [Parent(q[kl], Remove(q, kl)[kr])], f) == Bag(q, f)
  {
    var q2 := Remove(q, kl);
    BagRemove(q, kl, f);
    BagRemove(q2, kr, f);
    BagSnoc(Remove(q2, kr), Parent(q[kl], q2[kr]), f);
  }

  /** Every node's code is its parent's plus "0" (left) or "1" (right), starting from p. */
  ghost predicate Labeled(t: Tree, p: string) {
    t.code == p &&
    match t
    case Leaf(_, _, _) => true
    case Node(l, r, _, _) => Labeled(l, p + "0") && Labeled(r, p + "1")
  }

  /** labelQueue (lines 138-145): `n` with its code set to `code` and every
      child's code set to its parent's code plus "0" for the left and "1" for
      the right child, all the way down. In the source the parent writes the
      child's code field (lines 140, 142) before the recursive call, whose
      `code` argument carries the same value; here that value is the argument. */
  function LabelQueue(n: Tree, code: string): (r: Tree)
    ensures Labeled(r, code)
    ensures Occ(r) == Occ(n) && Syms(r) == Syms(n) && Internal(r) == Internal(n)
    ensures r.freq == n.freq && WellFormed(r) == WellFormed(n)
    ensures r.Leaf? == n.Leaf?
    ensures Erase(r) == Erase(n)
  {
    match n
    case Leaf(s, f, _) => Leaf(s, f, code)
    case Node(l, rt, f, _) => Node(LabelQueue(l, code + "0"), LabelQueue(rt, code + "1"), f, code)
  }

  /** A labelling is fixed by its root code and the tree's shape: two trees
      with the same shape labelled from the same code are equal, so
      LabelQueue's contract determines its result. */
  lemma {:induction false} LabeledUnique(a: Tree, b: Tree, p: string)
    requires Labeled(a, p) && Labeled(b, p) && Erase(a) == Erase(b)
    ensures a == b
  {
    if a.Node? {
      LabeledUnique(a.left, b.left, p + "0");
      LabeledUnique(a.right, b.right, p + "1");
    }
  }

  /** A tree whose leaves all carry usable codes: a lone leaf coded "0", or a
      tree labelled from the empty root code. */
  ghost predicate CodeTree(t: Tree) {
    if t.Leaf? then t.code == "0" else Labeled(t, "")
  }

  /** Labelling as the encoder needs it: labelQueue from the root's empty code
      (line 43), except that a lone leaf gets the one-bit code "0" (see README,
      Findings). */
  function LabelTree(t: Tree): (r: Tree)
    ensures CodeTree(r)
    ensures Occ(r) == Occ(t) && Syms(r) == Syms(t) && Internal(r) == Internal(t)
    ensures r.freq == t.freq && WellFormed(r) == WellFormed(t)
    ensures Erase(r) == Erase(t)
  {
    if t.Leaf? then LabelQueue(t, "0") else LabelQueue(t, "")
  }

  /** `ch_code` as setCodeMaps fills it (lines 148-159): leaves only, the left
      subtree visited before the right. The bytes with a code are exactly
      the leaves' bytes. */
  function ChCodeOf(t: Tree): (m: map<SByte, string>)
    ensures forall s :: s in m <==> s in Syms(t)
  {
    match t
    case Leaf(s, _, c) => map[s := c]
    case Node(l, r, _, _) => ChCodeOf(l) + ChCodeOf(r)
  }

  /** `code_ch` as setCodeMaps fills it. */
  function CodeChOf(t: Tree): map<string, SByte> {
    match t
    case Leaf(s, _, c) => map[c := s]
    case Node(l, r, _, _) => CodeChOf(l) + CodeChOf(r)
  }

  /** The children of a node with distinct leaves have distinct leaves and no
      symbol in common. */
  lemma DistinctChildren(t: Tree)
    requires t.Node? && Distinct(t)
    ensures Distinct(t.left) && Distinct(t.right)
    ensures forall s :: s in Syms(t.left) ==> s !in Syms(t.right)
  {
    forall s
      ensures Syms(t.left)[s] <= 1 && Syms(t.right)[s] <= 1
      ensures s in Syms(t.left) ==> s !in Syms(t.right)
    {
      assert Syms(t)[s] == Syms(t.left)[s] + Syms(t.right)[s];
    }
  }

  /** A code of a tree labelled from p starts with p, and is longer than p
      below an internal node: it is p followed by the root-to-leaf path. */
  lemma {:induction false} CodeStart(t: Tree, p: string, c: string)
    requires Labeled(t, p) && c in CodeChOf(t)
    ensures |p| <= |c| && c[..|p|] == p
    ensures t.Node? ==> |p| < |c|
  {
    match t
    case Leaf(_, _, _) =>
    case Node(l, r, _, _) =>
      var q := if c in CodeChOf(r) then p + "1" else p + "0";
      CodeStart(if c in CodeChOf(r) then r else l, q, c);
      assert c[..|p|] == c[..|q|][..|p|];
  }

  /** The bit at position |p| tells on which side of the node a code lies. */
  lemma CodeSide(t: Tree, p: string, c: string)
    requires t.Node? && Labeled(t, p)
    ensures c in CodeChOf(t.left) ==> |p| < |c| && c[|p|] == '0'
    ensures c in CodeChOf(t.right) ==> |p| < |c| && c[|p|] == '1'
  {
    if c in CodeChOf(t.left) {
      CodeStart(t.left, p + "0", c);
      assert c[|p|] == c[..|p| + 1][|p|];
    }
    if c in CodeChOf(t.right) {
      CodeStart(t.right, p + "1", c);
      assert c[|p|] == c[..|p| + 1][|p|];
    }
  }

  /** Codes extend a bit-string starting code with bits only. */
  lemma {:induction false} CodeBits(t: Tree, p: string, c: string)
    requires Labeled(t, p) && IsBits(p) && c in CodeChOf(t)
    ensures IsBits(c)
  {
    match t
    case Leaf(_, _, _) =>
    case Node(l, r, _, _) =>
      if c in CodeChOf(r) {
        CodeBits(r, p + "1", c);
      } else {
        CodeBits(l, p + "0", c);
      }
  }

  /** No code of a labelled tree is a prefix of another: codes below the left
      child carry a '0' where those below the right child carry a '1'. */
  lemma {:induction false} CodeNotPrefix(t: Tree, p: string, a: string, b: string)
    requires Labeled(t, p) && a in CodeChOf(t) && b in CodeChOf(t) && a != b
    ensures !(a <= b)
  {
    match t
    case Leaf(_, _, _) =>
    case Node(l, r, _, _) =>
      var ra, rb := a in CodeChOf(r), b in CodeChOf(r);
      if ra && rb {
        CodeNotPrefix(r, p + "1", a, b);
      } else if !ra && !rb {
        CodeNotPrefix(l, p + "0", a, b);
      } else {
        CodeSide(t, p, a);
        CodeSide(t, p, b);
        assert a[|p|] != b[|p|];
      }
  }

  lemma CodesPrefixFree(t: Tree, p: string)
    requires Labeled(t, p)
    ensures PrefixFree(CodeChOf(t))
  {
    forall a, b | a in CodeChOf(t) && b in CodeChOf(t) && a != b
      ensures !(a <= b)
    {
      CodeNotPrefix(t, p, a, b);
    }
  }

  /** Looking a symbol's code up in code_ch gives the symbol back. */
  lemma {:induction false} ChCodeInverse(t: Tree, p: string, s: SByte)
    requires Labeled(t, p) && s in ChCodeOf(t)
    ensures ChCodeOf(t)[s] in CodeChOf(t) && CodeChOf(t)[ChCodeOf(t)[s]] == s
  {
    match t
    case Leaf(_, _, _) =>
    case Node(l, r, _, _) =>
      if s in ChCodeOf(r) {
        ChCodeInverse(r, p + "1", s);
      } else {
        ChCodeInverse(l, p + "0", s);
        var c := ChCodeOf(l)[s];
        CodeSide(t, p, c);
      }
  }

  /** With distinct leaf symbols, looking a code's symbol up in ch_code gives
      the code back. */
  lemma {:induction false} CodeChInverse(t: Tree, p: string, c: string)
    requires Labeled(t, p) && Distinct(t) && c in CodeChOf(t)
    ensures CodeChOf(t)[c] in ChCodeOf(t) && ChCodeOf(t)[CodeChOf(t)[c]] == c
  {
    match t
    case Leaf(_, _, _) =>
    case Node(l, r, _, _) =>
      DistinctChildren(t);
      if c in CodeChOf(r) {
        CodeChInverse(r, p + "1", c);
      } else {
        CodeChInverse(l, p + "0", c);
        var s := CodeChOf(l)[c];
      }
  }

  lemma UnionSize<K, V>(a: map<K, V>, b: map<K, V>)
    requires a.Keys !! b.Keys
    ensures |a + b| == |a| + |b|
  {
    assert (a + b).Keys == a.Keys + b.Keys;
  }

  /** One ch_code entry per leaf, so one per distinct byte value. */
  lemma {:induction false} ChCodeSize(t: Tree)
    requires Distinct(t)
    ensures |ChCodeOf(t)| == |Syms(t)|
  {
    match t
    case Leaf(_, _, _) =>
    case Node(l, r, _, _) =>
      DistinctChildren(t);
      ChCodeSize(l);
      ChCodeSize(r);
      UnionSize(ChCodeOf(l), ChCodeOf(r));
  }

  /** One code_ch entry per leaf: the codes of different leaves differ. */
  lemma {:induction false} CodeChSize(t: Tree, p: string)
    requires Labeled(t, p)
    ensures |CodeChOf(t)| == |Syms(t)|
  {
    match t
    case Leaf(_, _, _) =>
    case Node(l, r, _, _) =>
      CodeChSize(l, p + "0");
      CodeChSize(r, p + "1");
      forall c | c in CodeChOf(l) ensures c !in CodeChOf(r) {
        CodeSide(t, p, c);
      }
      UnionSize(CodeChOf(l), CodeChOf(r));
  }

  /** The code table of a coded tree with distinct leaves: every byte value of
      the tree has a code, every code is a non-empty bit string, no code is a
      prefix of another, and the two maps invert each other. */
  lemma CodeTable(t: Tree)
    requires CodeTree(t) && Distinct(t)
    ensures forall s :: s in ChCodeOf(t) <==> s in Syms(t)
    ensures forall c :: c in CodeChOf(t) ==> IsBits(c) && c != ""
    ensures PrefixFree(CodeChOf(t))
    ensures forall s :: s in ChCodeOf(t) ==> ChCodeOf(t)[s] in CodeChOf(t) && CodeChOf(t)[ChCodeOf(t)[s]] == s
    ensures forall c :: c in CodeChOf(t) ==> CodeChOf(t)[c] in ChCodeOf(t) && ChCodeOf(t)[CodeChOf(t)[c]] == c
    ensures |ChCodeOf(t)| == |CodeChOf(t)| == |Syms(t)|
  {
    var p := if t.Leaf? then "0" else "";
    assert Labeled(t, p) && IsBits(p);
    CodesPrefixFree(t, p);
    ChCodeSize(t);
    CodeChSize(t, p);
    forall c | c in CodeChOf(t)
      ensures IsBits(c) && c != ""
      ensures CodeChOf(t)[c] in ChCodeOf(t) && ChCodeOf(t)[CodeChOf(t)[c]] == c
    {
      CodeStart(t, p, c);
      CodeBits(t, p, c);
      CodeChInverse(t, p, c);
    }
    forall s | s in ChCodeOf(t)
      ensures ChCodeOf(t)[s] in CodeChOf(t) && CodeChOf(t)[ChCodeOf(t)[s]] == s
    {
      ChCodeInverse(t, p, s);
    }
  }
}
