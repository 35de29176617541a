# Huffman compressor model

A Dafny model of `HuffmanSubmit`, a static Huffman compressor.

`encode` does the following:
- It counts how often each byte value occurs in the input file.
- It builds a Huffman tree. It does this by repeatedly taking the two nodes of least frequency out of a priority queue and putting back their parent.
- It labels every node with its root-to-leaf path (`0` = left, `1` = right).
- It fills two code tables from the leaves: `ch_code` (byte to code) and `code_ch` (code to byte).
- It writes a frequency file: the input length on the first line, then one `code:byte` line per table entry.
- It concatenates the codes of the input bytes and packs the bits MSB first into bytes, zero-padding the last one.

`decode` does the following:
- It reads the frequency file back into `code_byte`.
- It expands every packed byte into its eight bits.
- It scans the bits greedily, emitting a byte whenever the bits read since the last emission form a code, and emits nothing more once the recorded number of bytes has been emitted, although it reads on to the end of the bits.

The model follows the source's shape:
- **Object state.** `Huffman.HuffmanSubmit` is a class. Its fields are the program's static fields: `map`, `ch_code`, `code_ch`, `queue`, `nodes` and `code_byte`. Its methods update those fields with loops that carry invariants.
- **Trees.** A tree is a value (`HuffmanTree.Tree`). The source's in-place writes to `Node.code` become functional updates.
- **Priority queue.** The queue is a sequence. A poll removes a minimum-frequency element, found with `Node.compareTo`.
- **Library routines.** The Java routines the code relies on are written out in Dafny: `Integer.toString`, `Integer.parseInt`, `Byte.parseByte`, `String.split(":")`, `Integer.parseInt(s, 2)` and `Integer.toBinaryString`.
- **Modules.** `Common` holds the shared types. `BitPacking` covers bit packing and expansion. `FreqFile` covers the frequency file. `HuffmanTree` covers the tree, queue bookkeeping and code tables. `Unpacking` covers the greedy scan. `Huffman` holds the compressor object.

The main results are these:
- **Lossless.** `Huffman.CompressRoundTrip` runs encode, with the lone-leaf fix described below, and then decode on one fresh object, and proves the output equals the input. This holds for every non-empty input that fits in a Java `int`.
- **Building blocks.** The same argument is split into parts:
  - the frequency file round-trips (`FreqFile.FreqFileRoundTrip`);
  - expanding a packing gives the bit string back plus fewer than eight zeros (`BitPacking.ExpandPacking`);
  - greedy scanning over a prefix-free table inverts coding (`Unpacking.DecodePacked`);
  - the tree's codes form a prefix-free, mutually inverse pair of tables (`HuffmanTree.CodeTable`).

In these places the model follows the code rather than the intended design:
- **Truncated stream.** The decoder does not report a packed stream that runs out before the recorded count is reached. It writes the bytes it found (see `Unpacking.Scan`).
- **Frequency-file lines.** A table line is split on every `:`. Fields after the second are ignored, and a line with fewer than two fields raises `ArrayIndexOutOfBoundsException` (`FreqFile.ParseEntry`).
- **Header.** The count line accepts any `int`, including negative ones.

In one place the model departs from the code. Line 43 labels the tree with `labelQueue(top, "")`, which gives the root of an input with only one distinct byte value the empty code. That input then does not round-trip. `Huffman.LoneLeafAsWritten` shows this for the code as written, and the findings below record it. Everywhere else the model labels with `HuffmanTree.LabelTree`, which gives a lone leaf the code "0" and labels every other tree exactly as line 43 does.

## Model

| member | source | states |
|---|---|---|
| Huffman.HuffmanSubmit.constructor | HuffmanSubmit.java:30-34 | a fresh compressor starts with empty `map`, `ch_code`, `code_ch`, `code_byte` and `nodes` = 0; the empty queue stands for the unset (null) `queue` of line 33, which buildQueue assigns before any use (line 109) |
| Huffman.HuffmanSubmit.GetFreq | HuffmanSubmit.java:96-105 | afterwards the map's keys are the old keys plus the input's byte values, and each count is the old count plus the number of occurrences in the input |
| Huffman.FreshCounts | HuffmanSubmit.java:96-105 | counting into an empty map gives exactly the occurrence counts of the input |
| Huffman.HuffmanSubmit.BuildQueue | HuffmanSubmit.java:108-115 | the new queue holds one leaf per map entry, with that entry's count, in the map's key order (each key once); `nodes` grows by the map's size |
| Huffman.LeafQueue | HuffmanSubmit.java:110-113 | element i of the queue is the leaf for the i-th key with its count and an empty code |
| Huffman.LeafQueueBags | HuffmanSubmit.java:110-113 | each byte value appears in exactly one leaf if it is a key and in none otherwise; the leaves' occurrences of a byte equal its count |
| Huffman.LeavesWellFormed | HuffmanSubmit.java:108-115 | the leaves built from the counts of an input are leaves with positive counts, and there is at least one for a non-empty input |
| Huffman.FilledQueue | HuffmanSubmit.java:108-115 | the queue buildQueue fills from a non-empty input's counts has one well-formed leaf per byte value and accounts for every input byte |
| Huffman.CountedLeaves | HuffmanSubmit.java:96-115 | the leaves account for exactly the input's bytes (as a multiset), hold each byte value at most once, and their counts sum to the input length |
| HuffmanTree.CompareTo | HuffmanSubmit.java:272-279 | the result is -1 or 1, and it is -1 exactly when this node's freq is smaller |
| HuffmanTree.CompareToTie | HuffmanSubmit.java:272-279 | on equal frequencies compareTo answers 1 whichever way it is asked |
| HuffmanTree.MinIndex | HuffmanSubmit.java:122-123 | scanning with compareTo finds an index whose node has the least frequency in the queue |
| Huffman.HuffmanSubmit.Poll | HuffmanSubmit.java:122-123 | removes and returns a node of least frequency; the queue is the old queue without that element |
| Huffman.HuffmanSubmit.Merge | HuffmanSubmit.java:121-130 | the left node is a minimum of the queue, the right one a minimum of the rest; the new queue is the rest plus their parent |
| HuffmanTree.Parent | HuffmanSubmit.java:121-129 | the first polled node becomes the left child with code "0" and the second the right child with code "1"; the new node has the empty code and the children's summed freq; its occurrences and leaves are the union of theirs, and it is well formed exactly when both children are |
| HuffmanTree.WithCode | HuffmanSubmit.java:128-129 | setting a node's code changes nothing else about it: with codes blanked the tree is the same, and freq, kind, occurrences, leaves and well-formedness are kept |
| HuffmanTree.MergeBag | HuffmanSubmit.java:121-130 | one merge round replaces two polled nodes by their parent and keeps the byte occurrences and leaves of the whole queue |
| HuffmanTree.MergeMembers | HuffmanSubmit.java:122-123 | the nodes left after two polls were in the queue before |
| Huffman.HuffmanSubmit.ConfigQueue | HuffmanSubmit.java:119-135 | after nodes - 1 merges one tree is left; it is well formed and holds exactly the occurrences and leaves the queue held; it has nodes - 1 internal nodes; the returned freq is the number of byte occurrences |
| HuffmanTree.FreqIsWeight | HuffmanSubmit.java:126 | in a tree where each internal freq is the sum of its children's, the root freq is the number of byte occurrences below it, and the leaves are exactly the bytes that occur |
| HuffmanTree.FullTree | HuffmanSubmit.java:120-131 | every merge adds one internal node over two subtrees, so a tree with n leaves has n - 1 internal nodes |
| HuffmanTree.FreqSumWeight | HuffmanSubmit.java:126 | the frequencies in a queue of well-formed trees add up to the byte occurrences it accounts for |
| HuffmanTree.LeafBagSize | HuffmanSubmit.java:108-115 | a queue of leaves holds one symbol per element, so the leaf count is the queue length |
| Huffman.HuffmanSubmit.FillQueue | HuffmanSubmit.java:39-40 | after counting and buildQueue, the map holds the input's counts; `nodes` equals the number of distinct bytes and the queue length; the leaves account for every input byte once |
| Huffman.HuffmanSubmit.BuildTree | HuffmanSubmit.java:39-41 | the single tree left holds each byte value in one leaf and every input byte once; it has `nodes` - 1 internal nodes; the returned topFreq is the input length |
| HuffmanTree.LabelQueue | HuffmanSubmit.java:138-145 | every node's code is its parent's code plus "0" on the left and "1" on the right, starting from the given code; with codes blanked the result is the input tree, so nothing but the codes changes |
| HuffmanTree.LabelTree | HuffmanSubmit.java:43 | the corrected labelling: the result is labelled from the empty root code, or is a lone leaf coded "0"; with codes blanked it is the input tree |
| HuffmanTree.LabeledUnique | HuffmanSubmit.java:138-145 | two trees of the same shape labelled from the same code are equal, so the labelling contract fixes labelQueue's result completely |
| HuffmanTree.CodeStart | HuffmanSubmit.java:138-145 | every code starts with its root's code; below an internal node it is strictly longer, so it is the root code followed by the root-to-leaf path |
| HuffmanTree.CodeSide | HuffmanSubmit.java:140-143 | the bit after a node's code is '0' for every code in its left subtree and '1' for every code in its right subtree |
| HuffmanTree.CodeBits | HuffmanSubmit.java:138-145 | codes are strings over {0,1} |
| HuffmanTree.CodeNotPrefix | HuffmanSubmit.java:138-145 | no code of a labelled tree is a prefix of another |
| HuffmanTree.CodesPrefixFree | HuffmanSubmit.java:138-159 | the code_ch table of a labelled tree is prefix-free |
| Huffman.HuffmanSubmit.SetCodeMaps | HuffmanSubmit.java:148-159 | visiting the leaves adds each leaf's byte-to-code entry to ch_code and its code-to-byte entry to code_ch, and nothing else |
| Huffman.HuffmanSubmit.AssignCodes | HuffmanSubmit.java:42-44 | with the lone-leaf fix: the queue holds the tree labelled by LabelTree, and ch_code and code_ch are exactly the tables of that tree |
| HuffmanTree.ChCodeOf | HuffmanSubmit.java:148-159 | the ch_code table setCodeMaps fills from a tree: the bytes with a code are exactly the leaves' bytes |
| HuffmanTree.CodeChOf | HuffmanSubmit.java:148-159 | the code_ch table setCodeMaps fills from a tree, one entry per leaf from its code to its byte (its properties are stated by CodeChSize, ChCodeInverse and CodeTable) |
| HuffmanTree.ChCodeInverse | HuffmanSubmit.java:148-159 | looking a byte's code up in code_ch gives the byte back |
| HuffmanTree.CodeChInverse | HuffmanSubmit.java:148-159 | with distinct leaf bytes, looking a code's byte up in ch_code gives the code back |
| HuffmanTree.DistinctChildren | HuffmanSubmit.java:121-127 | the subtrees of a tree with distinct leaves have distinct leaves and no byte in common |
| HuffmanTree.ChCodeSize | HuffmanSubmit.java:148-159 | ch_code has one entry per leaf |
| HuffmanTree.CodeChSize | HuffmanSubmit.java:148-159 | code_ch has one entry per leaf, since different leaves get different codes |
| HuffmanTree.CodeTable | HuffmanSubmit.java:138-159 | for a coded tree with distinct leaves, the keys of ch_code are the leaves; every code is a non-empty bit string; code_ch is prefix-free; the two tables invert each other; both have one entry per distinct byte |
| Huffman.CodeLookups | HuffmanSubmit.java:42-59 | for the tree built from an input, every input byte has a bit-string code that code_ch maps back to it; codes are prefix-free and contain no ':'; the root freq is the input length |
| Huffman.HuffmanSubmit.WriteFreqFile | HuffmanSubmit.java:47-51 | the lines written are the count followed by one `code:byte` line per code_ch entry, each entry once, in the map's iteration order |
| FreqFile.IntToString | HuffmanSubmit.java:47-51 | `Integer.toString` writes a non-empty string that starts with '-' exactly for a negative number, and is otherwise all digits |
| FreqFile.EntryLine | HuffmanSubmit.java:47-51 | a table line is one character longer than the code and the byte's decimal form together, with ':' right after the code (EntryRoundTrip proves it parses back) |
| FreqFile.FreqLines | HuffmanSubmit.java:47-51 | the frequency file has one line more than there are entries: the count first, then line i is the entry line of the i-th code in iteration order |
| FreqFile.FreqLinesSnoc | HuffmanSubmit.java:48-51 | writing one more entry appends its line to the file |
| FreqFile.EntryLines | HuffmanSubmit.java:48-51 | line i of the table part is the entry line of the i-th code in iteration order |
| Huffman.HuffmanSubmit.CodeString | HuffmanSubmit.java:55-59 | the bit string is the concatenation of the codes of the input bytes, in input order |
| BitPacking.Encoded | HuffmanSubmit.java:56-59 | the bit string is the codes of the input bytes concatenated in input order; when no code is empty it has at least one bit per input byte |
| BitPacking.EncodedSnoc | HuffmanSubmit.java:56-59 | appending one byte to the input appends its code to the bit string |
| BitPacking.EncodedBits | HuffmanSubmit.java:56-59 | when every code is a bit string, so is their concatenation |
| BitPacking.Group | HuffmanSubmit.java:64-74 | every group of the bit string that gets packed has exactly eight bits (which bits they are is stated by GroupAt) |
| BitPacking.GroupAt | HuffmanSubmit.java:64-74 | bit j of group k is bit 8k+j of the bit string, or '0' past its end |
| BitPacking.PackedFinish | HuffmanSubmit.java:71-75 | packing the whole groups and then the padded leftover, if any, yields a packing of the whole bit string |
| BitPacking.FinalGroup | HuffmanSubmit.java:71-73 | the pending bits padded to eight with zeros are the last group of the bit string, and their value is below 256 |
| BitPacking.PackBits | HuffmanSubmit.java:62-75 | the output has one byte per started group of eight bits, ⌈len/8⌉ in all; byte k is the MSB-first value of group k, zero-padded at the end |
| BitPacking.BitsValue | HuffmanSubmit.java:66 | `Integer.parseInt(s, 2)` of an n-bit string is below 2^n |
| BitPacking.ByteValueBound | HuffmanSubmit.java:66 | `Integer.parseInt(s, 2)` of eight bits is below 256, so `bout.write` gets the byte unchanged |
| BitPacking.BitsValueInjective | HuffmanSubmit.java:66 | two bit strings of equal length with the same value read MSB first are equal |
| BitPacking.ToBinaryString | HuffmanSubmit.java:198 | `Integer.toBinaryString` writes a non-empty bit string that starts with '1' for every positive value |
| BitPacking.ToBinaryStringValue | HuffmanSubmit.java:198 | `Integer.toBinaryString` of a value below 2^k is a bit string of at most k bits with that value |
| BitPacking.LeadingZeros | HuffmanSubmit.java:199 | leading zeros do not change a bit string's value |
| BitPacking.ByteBits | HuffmanSubmit.java:198-199 | the padded form of a byte is exactly eight bits |
| BitPacking.ByteBitsValue | HuffmanSubmit.java:198-199 | the zero-padded eight-character binary form of a byte is a bit string whose MSB-first value is the byte |
| BitPacking.ByteBitsOfGroup | HuffmanSubmit.java:198-199 | reading eight bits as a byte, then writing the byte's eight-bit form, gives the bits back |
| BitPacking.Expand | HuffmanSubmit.java:197-201 | the expanded bit string is a bit string with eight bits per packed byte |
| BitPacking.ExpandAt | HuffmanSubmit.java:197-201 | bit i of the expansion is bit i mod 8 of packed byte i div 8, in stream order |
| BitPacking.PackedBit | HuffmanSubmit.java:62-75 | bit j of packed byte k, read back as the decoder reads it, is bit 8k+j of the packed bit string, or a pad zero |
| BitPacking.ExpandPackedAt | HuffmanSubmit.java:197-201 | bit i of the expanded packing is bit i of the packed bit string, or a pad zero past its end |
| BitPacking.ExpandPacking | HuffmanSubmit.java:62-75 | expanding a packing gives the packed bit string followed by fewer than eight zeros |
| FreqFile.NatToString | HuffmanSubmit.java:47 | the decimal form of a natural number is a non-empty string of digits |
| FreqFile.ParseInt | HuffmanSubmit.java:179 | `Integer.parseInt` succeeds only with a value in the `int` range, and only on a string that starts with a digit, or with a sign followed by at least one more character |
| FreqFile.ParseByte | HuffmanSubmit.java:183 | `Byte.parseByte` succeeds exactly when `Integer.parseInt` does with a value in -128..127, and gives that value |
| FreqFile.NatStringValue | HuffmanSubmit.java:179 | the digits of a natural number read back as that number |
| FreqFile.IntStringRoundTrip | HuffmanSubmit.java:179 | `Integer.parseInt(Integer.toString(x))` is x for every `int` x |
| FreqFile.Fields | HuffmanSubmit.java:182 | the raw field list, before `split` drops the trailing empty fields, is non-empty, and no field contains ':' |
| FreqFile.DropTrailingEmpty | HuffmanSubmit.java:182 | `split` drops exactly the trailing empty fields and keeps the earlier ones in order |
| FreqFile.FieldsNoSep | HuffmanSubmit.java:182 | a string without ':' is one field |
| FreqFile.FieldsSep | HuffmanSubmit.java:182 | a ':' after a field without ':' ends that field |
| FreqFile.Split | HuffmanSubmit.java:182 | `split(":")` of a line without ':' is the line itself, and no part contains ':' |
| FreqFile.ParseEntry | HuffmanSubmit.java:182-183 | a line without ':' fails with ArrayIndexOutOfBoundsException; a parsed entry comes from a line with ':' and has a code without ':' |
| FreqFile.EntryRoundTrip | HuffmanSubmit.java:182-183 | a `code:byte` line whose code contains no ':' splits and parses back to the same code and byte |
| FreqFile.ParseHeader | HuffmanSubmit.java:179 | the count is read from the first line; a missing or malformed first line fails with NumberFormatException |
| FreqFile.LoadEntries | HuffmanSubmit.java:181-184 | when the table loop ends without an exception, its outcome is the count read from the header |
| FreqFile.LoadEntriesOk | HuffmanSubmit.java:181-184 | the table loop ends without an exception exactly when every table line parses |
| FreqFile.LoadEntryLines | HuffmanSubmit.java:181-184 | loading the lines written for a list of codes meets no error and adds exactly those entries, with their bytes, to the table |
| FreqFile.TableRoundTrip | HuffmanSubmit.java:181-184 | the table lines written for all of code_ch load back as code_ch |
| FreqFile.ReadFreqFile | HuffmanSubmit.java:177-187 | genMap succeeds only when the first line is an `int`, and returns that `int`; with no lines at all it fails with NumberFormatException and leaves the table as it was |
| FreqFile.FreqFileRoundTrip | HuffmanSubmit.java:177-187 | genMap reads back exactly the count and the table encode wrote, whatever order the entries were written in |
| Huffman.HuffmanSubmit.GenMap | HuffmanSubmit.java:177-187 | code_byte gets the header count's entries one line at a time, a later line winning; the result is the count, or the exception of the first bad line with the table as far as it got |
| Unpacking.Scan | HuffmanSubmit.java:202-211 | the greedy scan emits at most one byte per bit and at most freq - count bytes (none once freq is reached); every emitted byte is a value of the table |
| Unpacking.GenFile | HuffmanSubmit.java:190-214 | the output is the greedy scan of the packed stream's expansion with the table and the count |
| Unpacking.ScanWord | HuffmanSubmit.java:204-210 | reading a code none of whose proper prefixes is a code emits its byte exactly when the code is complete |
| Unpacking.NoProperPrefix | HuffmanSubmit.java:206 | in a prefix-free table no proper prefix of a code is a code |
| Unpacking.ScanFirst | HuffmanSubmit.java:202-211 | scanning the codes of a sequence emits its first byte on reading the first code |
| Unpacking.ScanEncoded | HuffmanSubmit.java:202-211 | with a prefix-free table, scanning the codes of a sequence and then any padding emits the sequence, then whatever the padding yields |
| Unpacking.DecodePacked | HuffmanSubmit.java:190-214 | with a prefix-free table and the right count, unpacking a packing of the codes of a sequence yields the sequence exactly, whatever the pad bits |
| Huffman.HuffmanSubmit.MakeCodes | HuffmanSubmit.java:39-44 | with the lone-leaf fix: after building and labelling, the queue is the root; ch_code and code_ch are the root's tables; the root is well formed and coded, with distinct leaves, every input byte once and freq the input length, which is the returned topFreq |
| Huffman.HuffmanSubmit.Encode | HuffmanSubmit.java:36-77 | with the lone-leaf fix: the new state and outputs of encode: counts, `nodes`, the single labelled tree, its code tables, the frequency file lines headed by topFreq, a code for every input byte, and the packing of the input's codes |
| Huffman.DecodeSpec | HuffmanSubmit.java:170-174 | decode fails exactly when genMap does; otherwise it yields at most eight bytes per packed byte, at most the header count (or none), and only bytes of the loaded table |
| Huffman.HuffmanSubmit.Decode | HuffmanSubmit.java:170-174 | decode yields genMap's exception, or the bytes genFile scans with the table and count genMap loaded; code_byte is the loaded table |
| Huffman.RoundTrip | HuffmanSubmit.java:170-214 | decoding the frequency file and the packing encode writes for a coded tree of the input gives the input back |
| Huffman.CompressRoundTrip | HuffmanSubmit.java:281-285 | with the lone-leaf fix: encode then decode on one fresh object returns exactly the input, for every non-empty input |
| Huffman.EncodedEmpty | HuffmanSubmit.java:56-59 | when every byte's code is empty, the bit string is empty |
| Huffman.LoneLeafAsWritten | HuffmanSubmit.java:43 | as written, n copies of one byte value pack into no bytes and decode to no bytes, not to the input |

## Left out

- I/O is not modelled. File reading and writing, `BufferedReader` line framing and the missing-file message of `getBytes` (lines 80-93) are left out. Input and output are byte sequences, and the frequency file is a sequence of lines.
- The empty input is left out. For an empty file, `configQueue` peeks an empty queue and raises `NullPointerException` (lines 132-133), so `Huffman.HuffmanSubmit.Encode` requires a non-empty input.
- Huffman.HuffmanSubmit.Encode: line 43's `labelQueue(top, "")` is replaced by `HuffmanTree.LabelTree`, so a lone leaf gets the code "0" rather than "" (see Findings; the code as written is `HuffmanTree.LabelQueue`, shown failing by `Huffman.LoneLeafAsWritten`).
- Huffman.HuffmanSubmit.Encode: the static fields are never reset between calls in the source. The model starts encode from an empty state (`map`, `ch_code`, `code_ch` empty, `nodes` = 0), which is the state of one run of the main method.
- Huffman.HuffmanSubmit.Encode: count overflow past the `int` range is not modelled. The input length is bounded by `INT_MAX`, so `map` counts and the header count fit in an `int`.
- Huffman.HuffmanSubmit.Poll: the heap inside `PriorityQueue` is not modelled. Any least-frequency node may be removed, so the tie order of the Java heap is not fixed.
- The sum `n.ch = left.ch + right.ch` (line 127) is not modelled. It is never read for an internal node.
- `labelQueue`'s `code` parameter is left out. It is not read: the child's code is already written into the field (lines 140, 142), so the model passes that value as the argument.
- The getters, setters and `equals` on `Node` are not modelled separately; accesses to fields stand in for them.
- `Node` objects are values in the model. In-place mutation and aliasing of them are not captured, and a node's code is updated by building a new tree.
- The Huffman tree's optimality (minimal weighted path length) is not stated.
- FreqFile.ParseInt: only ASCII digits are accepted. `Integer.parseInt` also takes other Unicode decimal digits.
- The decoder writes each byte as the Java `byte` found in the table. `bo.write` keeps its low eight bits, which gives the same byte.
- Unpacking.Scan: the scan never signals a truncated stream, as in the source. A short stream gives fewer bytes, not an error.
- `if (s != "")` (line 71) compares references in Java. It agrees with comparing contents here, because `s` is the interned literal `""` exactly when no bits are pending.

## Findings

| source | as written | input that shows it | evidently intended | confidence | as-written member | corrected member |
|---|---|---|---|---|---|---|
| HuffmanSubmit.java:43 | `labelQueue(top, "")` gives a lone root leaf (input with one distinct byte value) the empty code, so nothing is packed and decode writes no bytes | the input bytes [97, 97, 97]: the frequency file is `3` and `:97`, the packed stream is empty, decode yields [] | a lone leaf gets the one-bit code "0", and decode returns the input | not executed | Huffman.LoneLeafAsWritten | HuffmanTree.LabelTree |
