/** The frequency file: the lines encode writes (lines 47-51) and genMap
    reads back (lines 177-187), with the Java library routines they rely on
    (Integer.toString, Integer.parseInt, Byte.parseByte, String.split). */
module FreqFile {
  import opened Common

  predicate IsDigit(c: char) {
    '0' <= c <= '9'
  }

  function DigitChar(d: nat): (c: char)
    requires d < 10
    ensures IsDigit(c)
  {
    ('0' as int + d) as char
  }

  function DigitValue(c: char): nat
    requires IsDigit(c)
  {
    c as int - '0' as int
  }

  predicate AllDigits(s: string) {
    forall i :: 0 <= i < |s| ==> IsDigit(s[i])
  }

  /** The decimal digits of n, most significant first, without leading zeros. */
  function NatToString(n: nat): (s: string)
    ensures |s| >= 1 && AllDigits(s)
    decreases n
  {
    if n < 10 then [DigitChar(n)] else NatToString(n / 10) + [DigitChar(n % 10)]
  }

  /** Integer.toString, which string concatenation uses for the count and the
      byte values: a '-' exactly for a negative number, then its digits. */
  function IntToString(x: int): (s: string)
    ensures |s| >= 1 && (s[0] == '-' <==> x < 0)
    ensures AllDigits(if x < 0 then s[1..] else s)
  {
    if x < 0 then "-" + NatToString(-x) else NatToString(x)
  }

  /** The value of a string of decimal digits, most significant first. */
  function DigitsValue(s: string): nat
    requires AllDigits(s)
  {
    if s == [] then 0 else 10 * DigitsValue(s[..|s| - 1]) + DigitValue(s[|s| - 1])
  }

  /** Integer.parseInt(s): an optional '-' or '+' followed by at least one
      decimal digit, whose value fits in an int. None stands for the
      NumberFormatException thrown otherwise. */
  function ParseInt(s: string): (r: Option<int>)
    ensures r.Some? ==> INT_MIN <= r.value <= INT_MAX
    ensures r.Some? ==> s != [] && (IsDigit(s[0]) || (|s| >= 2 && (s[0] == '-' || s[0] == '+')))
  {
    var signed := |s| > 0 && (s[0] == '-' || s[0] == '+');
    var body := if signed then s[1..] else s;
    if body == [] || !AllDigits(body) then None
    else
      var v: int := if s[0] == '-' then -(DigitsValue(body) as int) else DigitsValue(body);
      if INT_MIN <= v <= INT_MAX then Some(v) else None
  }

  /** Byte.parseByte(s): Integer.parseInt(s) when the value lies in -128..127. */
  function ParseByte(s: string): (r: Option<SByte>)
    ensures r.Some? <==> ParseInt(s).Some? && -128 <= ParseInt(s).value < 128
    ensures r.Some? ==> r.value == ParseInt(s).value
  {
    match ParseInt(s)
    case Some(v) => if -128 <= v < 128 then Some(v) else None
    case None => None
  }

  lemma {:induction false} NatStringValue(n: nat)
    ensures DigitsValue(NatToString(n)) == n
  {
    if n >= 10 {
      NatStringValue(n / 10);
      var s := NatToString(n);
      assert s[..|s| - 1] == NatToString(n / 10);
    }
  }

  /** Integer.parseInt reads back what Integer.toString writes. */
  lemma IntStringRoundTrip(x: int)
    requires INT_MIN <= x <= INT_MAX
    ensures ParseInt(IntToString(x)) == Some(x)
  {
    var s := IntToString(x);
    if x < 0 {
      NatStringValue(-x);
      assert s[1..] == NatToString(-x);
    } else {
      NatStringValue(x);
    }
  }

  /** The `sep`-separated fields of s, empty ones included: at least one,
      and none containing `sep`. */
  function Fields(s: string, sep: char): (f: seq<string>)
    ensures |f| >= 1
    ensures forall i :: 0 <= i < |f| ==> sep !in f[i]
  {
    if s == [] then [""]
    else
      var rest := Fields(s[1..], sep);
      if s[0] == sep then [""] + rest else [[s[0]] + rest[0]] + rest[1..]
  }

  /** The fields with the trailing empty ones removed. */
  function DropTrailingEmpty(f: seq<string>): (r: seq<string>)
    ensures |r| <= |f| && r == f[..|r|]
    ensures r != [] ==> r[|r| - 1] != ""
    ensures forall i :: |r| <= i < |f| ==> f[i] == ""
  {
    if f == [] then []
    else if f[|f| - 1] == "" then DropTrailingEmpty(f[..|f| - 1])
    else f
  }

  /** String.split with a one-character separator: the string itself when
      the separator does not occur, otherwise its fields with the trailing
      empty ones removed (so ":" splits into no fields at all). */
  function Split(s: string, sep: char): (parts: seq<string>)
    ensures sep !in s ==> parts == [s]
    ensures forall i :: 0 <= i < |parts| ==> sep !in parts[i]
  {
    if sep !in s then [s] else DropTrailingEmpty(Fields(s, sep))
  }

  lemma {:induction false} FieldsNoSep(s: string, sep: char)
    requires sep !in s
    ensures Fields(s, sep) == [s]
  {
    if s != [] {
      FieldsNoSep(s[1..], sep);
      assert [s[0]] + s[1..] == s;
    }
  }

  lemma {:induction false} FieldsSep(a: string, b: string, sep: char)
    requires sep !in a
    ensures Fields(a + [sep] + b, sep) == [a] + Fields(b, sep)
  {
    var s := a + [sep] + b;
    if a == [] {
      assert s[1..] == b;
    } else {
      assert s[1..] == a[1..] + [sep] + b;
      FieldsSep(a[1..], b, sep);
      assert [a[0]] + a[1..] == a;
    }
  }

  /** One line of the table part: `code + ":" + value` (line 49). */
  function EntryLine(code: string, sym: SByte): (line: string)
    ensures |line| == |code| + 1 + |IntToString(sym)|
    ensures line[|code|] == ':'
  {
    code + ":" + IntToString(sym)
  }

  /** One line of the table part as line 183 reads it: the code is the first
      field and the byte the second; a line with fewer than two fields raises
      ArrayIndexOutOfBoundsException, a bad byte NumberFormatException. */
  function ParseEntry(line: string): (r: Result<(string, SByte)>)
    ensures ':' !in line ==> r == Err(MissingField)
    ensures r.Ok? ==> ':' in line && ':' !in r.value.0
  {
    var parts := Split(line, ':');
    if |parts| < 2 then Err(MissingField)
    else match ParseByte(parts[1])
      case None => Err(NumberFormat)
      case Some(v) => Ok((parts[0], v))
  }

  /** A line without ':' in its code splits into the code and the value. */
  lemma EntryRoundTrip(code: string, sym: SByte)
    requires ':' !in code
    ensures ParseEntry(EntryLine(code, sym)) == Ok((code, sym))
  {
    var t := IntToString(sym);
    assert ':' !in t by {
      if sym < 0 {
        assert forall i :: 1 <= i < |t| ==> t[i] == NatToString(-(sym as int))[i - 1];
      }
    }
    var line := EntryLine(code, sym);
    assert line == code + [':'] + t;
    assert line[|code|] == ':';
    FieldsSep(code, t, ':');
    FieldsNoSep(t, ':');
    assert Split(line, ':') == [code, t];
    IntStringRoundTrip(sym);
  }

  /** What genMap leaves behind: the code table and the count it returns,
      or, if a line raised an exception, the table as far as it got and the
      exception. */
  datatype Loaded = Loaded(table: map<string, SByte>, outcome: Result<int>)

  /** The count on the first line (line 179); a missing first line makes
      Integer.parseInt(null) raise NumberFormatException. */
  function ParseHeader(lines: seq<string>): (r: Result<int>)
    ensures r.Ok? ==> lines != [] && ParseInt(lines[0]) == Some(r.value)
    ensures r.Err? ==> r.error == NumberFormat
  {
    if lines == [] then Err(NumberFormat)
    else match ParseInt(lines[0])
      case None => Err(NumberFormat)
      case Some(n) => Ok(n)
  }

  /** The loop of lines 181-184 over the table lines, adding each line's
      entry to `acc` (a later line with the same code wins). */
  function LoadEntries(lines: seq<string>, acc: map<string, SByte>, n: int): (r: Loaded)
    ensures r.outcome.Ok? ==> r.outcome.value == n
  {
    if lines == [] then Loaded(acc, Ok(n))
    else match ParseEntry(lines[0])
      case Err(e) => Loaded(acc, Err(e))
      case Ok(entry) => LoadEntries(lines[1..], acc[entry.0 := entry.1], n)
  }

  /** The table loop ends without an exception exactly when every table
      line parses. */
  lemma {:induction false} LoadEntriesOk(lines: seq<string>, acc: map<string, SByte>, n: int)
    ensures LoadEntries(lines, acc, n).outcome.Ok? <==> forall i :: 0 <= i < |lines| ==> ParseEntry(lines[i]).Ok?
  {
    if lines != [] {
      match ParseEntry(lines[0])
      case Err(_) =>
      case Ok(e) =>
        LoadEntriesOk(lines[1..], acc[e.0 := e.1], n);
        assert forall i :: 1 <= i < |lines| ==> lines[i] == lines[1..][i - 1];
    }
  }

  /** genMap (lines 177-187) on the file's lines, starting from the table
      `acc`: only a file whose first line is an int can load without error,
      and the count it returns is that int. */
  function ReadFreqFile(lines: seq<string>, acc: map<string, SByte>): (r: Loaded)
    ensures r.outcome.Ok? ==> lines != [] && ParseInt(lines[0]) == Some(r.outcome.value)
    ensures lines == [] ==> r == Loaded(acc, Err(NumberFormat))
  {
    match ParseHeader(lines)
    case Err(e) => Loaded(acc, Err(e))
    case Ok(n) => LoadEntries(lines[1..], acc, n)
  }

  /** The table lines for the codes of `m`, in the iteration order `order`. */
  function EntryLines(order: seq<string>, m: map<string, SByte>): (r: seq<string>)
    requires forall c :: c in order ==> c in m
    ensures |r| == |order|
    ensures forall i :: 0 <= i < |order| ==> r[i] == EntryLine(order[i], m[order[i]])
  {
    if order == [] then [] else [EntryLine(order[0], m[order[0]])] + EntryLines(order[1..], m)
  }

  /** The lines encode writes (lines 47-51): the count, then one line per
      entry of code_ch. */
  function FreqLines(n: int, m: map<string, SByte>, order: seq<string>): (lines: seq<string>)
    requires forall c :: c in order ==> c in m
    ensures |lines| == |order| + 1 && lines[0] == IntToString(n)
    ensures forall i :: 0 <= i < |order| ==> lines[i + 1] == EntryLine(order[i], m[order[i]])
  {
    [IntToString(n)] + EntryLines(order, m)
  }

  lemma {:induction false} EntryLinesSnoc(order: seq<string>, m: map<string, SByte>, c: string)
    requires forall k :: k in order ==> k in m
    requires c in m
    ensures EntryLines(order + [c], m) == EntryLines(order, m) + [EntryLine(c, m[c])]
  {
    if order != [] {
      assert (order + [c])[1..] == order[1..] + [c];
      EntryLinesSnoc(order[1..], m, c);
    }
  }

  /** Writing one more entry appends its line. */
  lemma FreqLinesSnoc(n: int, m: map<string, SByte>, order: seq<string>, c: string)
    requires forall k :: k in order ==> k in m
    requires c in m
    ensures FreqLines(n, m, order + [c]) == FreqLines(n, m, order) + [EntryLine(c, m[c])]
  {
    EntryLinesSnoc(order, m, c);
  }

  /** Loading the lines written for the codes in `order` adds their entries
      to `acc` and meets no error. */
  lemma {:induction false} LoadEntryLines(order: seq<string>, m: map<string, SByte>, acc: map<string, SByte>, n: int)
    requires forall c :: c in order ==> c in m && ':' !in c
    ensures LoadEntries(EntryLines(order, m), acc, n).outcome == Ok(n)
    ensures forall c :: c in LoadEntries(EntryLines(order, m), acc, n).table <==> c in acc || c in order
    ensures forall c :: c in LoadEntries(EntryLines(order, m), acc, n).table ==>
      LoadEntries(EntryLines(order, m), acc, n).table[c] == if c in order then m[c] else acc[c]
  {
    if order != [] {
      var c0 := order[0];
      var lines := EntryLines(order, m);
      EntryRoundTrip(c0, m[c0]);
      assert lines[1..] == EntryLines(order[1..], m);
      LoadEntryLines(order[1..], m, acc[c0 := m[c0]], n);
      assert forall c :: c in order <==> c == c0 || c in order[1..];
    }
  }

  /** The table lines written for all of `m` load back as `m`. */
  lemma TableRoundTrip(n: int, m: map<string, SByte>, order: seq<string>)
    requires ListsKeys(order, m)
    requires forall c :: c in m ==> ':' !in c
    ensures LoadEntries(EntryLines(order, m), map[], n) == Loaded(m, Ok(n))
  {
    LoadEntryLines(order, m, map[], n);
    var r := LoadEntries(EntryLines(order, m), map[], n);
    assert forall c :: c in r.table <==> c in m;
    MapExt(r.table, m);
  }

  /** genMap reads back exactly the count and the table encode wrote, in
      whatever order the entries were written. */
  lemma FreqFileRoundTrip(n: int, m: map<string, SByte>, order: seq<string>)
    requires INT_MIN <= n <= INT_MAX
    requires ListsKeys(order, m)
    requires forall c :: c in m ==> ':' !in c
    ensures ReadFreqFile(FreqLines(n, m, order), map[]) == Loaded(m, Ok(n))
  {
    var lines := FreqLines(n, m, order);
    IntStringRoundTrip(n);
    assert ParseHeader(lines) == Ok(n);
    assert lines[1..] == EntryLines(order, m);
    TableRoundTrip(n, m, order);
  }
}
