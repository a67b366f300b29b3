/**
 Writing the propagated displacements into the `<base>.frd` result file
 (post.py `splice`). The new block of node records is inserted five lines after
 the first line that mentions `DISP`, right before the line that opens the
 existing displacement records (a line whose stripped text starts with `-3`).

 Each record is the fixed-column FRD line ` -1`, the node number right-aligned
 in ten columns and the three components as formatted by `fmt` (Python's
 `: 11.5E` format, left abstract), ended by a newline. The lines of the file
 are the lines `readlines()` returns, newline included; the file itself is
 not modelled.
 */
module FrdSplice {
  import opened PyLib

  /** `'DISP' in ln`. */
  predicate IsDispLine(line: string) {
    Contains(line, "DISP")
  }

  /** The character of a decimal digit. */
  function DigitChar(d: nat): char
    requires d < 10
  {
    ('0' as int + d) as char
  }

  /** The value of a decimal digit character. */
  function DigitValue(c: char): nat {
    if '0' <= c <= '9' then c as int - '0' as int else 0
  }

  /** The decimal digits of a natural number, most significant first, without leading zeros. */
  function Digits(n: nat): (s: string)
    ensures |s| >= 1
    ensures forall i :: 0 <= i < |s| ==> '0' <= s[i] <= '9'
    ensures |s| > 1 ==> s[0] != '0'
  {
    if n < 10 then [DigitChar(n)] else Digits(n / 10) + [DigitChar(n % 10)]
  }

  /** Python's `format(n, 'd')`: the digits of `|n|`, after a `-` when `n` is negative. */
  function Decimal(n: int): string {
    if n < 0 then "-" + Digits(-n) else Digits(n)
  }

  /** The value of a string of decimal digits. */
  function ReadDigits(s: string): nat {
    if |s| == 0 then 0 else ReadDigits(s[..|s| - 1]) * 10 + DigitValue(s[|s| - 1])
  }

  /** The value of an optionally negated string of decimal digits, as `int(s)` reads it. */
  function ReadDecimal(s: string): int {
    if |s| > 0 && s[0] == '-' then -(ReadDigits(s[1..]) as int) else ReadDigits(s)
  }

  /** Reading back the digits of `n` gives `n`. */
  lemma {:induction false} DigitsRoundTrip(n: nat)
    ensures ReadDigits(Digits(n)) == n
  {
    if n >= 10 {
      DigitsRoundTrip(n / 10);
      var s := Digits(n);
      assert s[..|s| - 1] == Digits(n / 10);
    }
  }

  /** Reading back `format(n, 'd')` gives `n`, and it never starts with whitespace. */
  lemma DecimalRoundTrip(n: int)
    ensures ReadDecimal(Decimal(n)) == n
    ensures !IsSpace(Decimal(n)[0])
  {
    if n < 0 {
      DigitsRoundTrip(-n);
      assert Decimal(n)[1..] == Digits(-n);
    } else {
      DigitsRoundTrip(n);
    }
  }

  /** `10^k`. */
  function Pow10(k: nat): (p: nat)
    ensures p >= 1
  {
    if k == 0 then 1 else 10 * Pow10(k - 1)
  }

  /** A number below `10^k` has at most `k` digits. */
  lemma {:induction false} DigitsLength(n: nat, k: nat)
    requires k >= 1 && n < Pow10(k)
    ensures |Digits(n)| <= k
  {
    if n >= 10 {
      assert Pow10(1) == 10;
      assert n / 10 < Pow10(k - 1);
      DigitsLength(n / 10, k - 1);
    }
  }

  /** A node number from -999999999 to 9999999999, which the ten columns of the node field hold. */
  predicate NodeFits(node: int) {
    -1_000_000_000 < node < 10_000_000_000
  }

  /** Every node number that fits has at most ten characters. */
  lemma DecimalWidth(node: int)
    requires NodeFits(node)
    ensures |Decimal(node)| <= 10
  {
    assert Pow10(9) == 1_000_000_000 by {
      assert Pow10(3) == 1000;
      assert Pow10(6) == 1_000_000;
    }
    if node < 0 {
      DigitsLength(-node, 9);
    } else {
      DigitsLength(node, 10);
    }
  }

  /** `f'{s:>w}'`: `s` right-aligned in a field of `w` columns, padded with spaces, never cut. */
  function RightJustify(s: string, w: nat): (r: string)
    ensures |r| == if |s| >= w then |s| else w
    ensures r[|r| - |s|..] == s
    ensures forall k :: 0 <= k < |r| - |s| ==> r[k] == ' '
  {
    if |s| >= w then s else seq(w - |s|, _ => ' ') + s
  }

  /** Left-stripping a blank-padded field gives back what was padded. */
  lemma {:induction false} TrimPadding(p: string, s: string)
    requires forall k :: 0 <= k < |p| ==> p[k] == ' '
    requires s == [] || !IsSpace(s[0])
    ensures TrimStart(p + s) == s
    decreases |p|
  {
    if |p| > 0 {
      assert (p + s)[1..] == p[1..] + s;
      TrimPadding(p[1..], s);
    } else {
      assert p + s == s;
    }
  }

  /** The node field of a record: `f'{node:>10d}'`. */
  function NodeField(node: int): string {
    RightJustify(Decimal(node), 10)
  }

  /** The ten columns of the node field read back as the node number whenever it fits. */
  lemma NodeFieldRoundTrip(node: int)
    ensures |NodeField(node)| >= 10
    ensures NodeFits(node) ==> |NodeField(node)| == 10
    ensures ReadDecimal(TrimStart(NodeField(node))) == node
  {
    if NodeFits(node) {
      DecimalWidth(node);
    }
    var f, d := NodeField(node), Decimal(node);
    DecimalRoundTrip(node);
    assert f == f[..|f| - |d|] + d;
    TrimPadding(f[..|f| - |d|], d);
  }

  /** The text of a record line around its node field `f` and formatted components `a`, `b`, `c`. */
  function RecordText(f: string, a: string, b: string, c: string): string {
    " -1" + f + a + b + c + "\n"
  }

  /** One record line: `f' -1{node:>10d}{dx: 11.5E}{dy: 11.5E}{dz: 11.5E}\n'`, after unpacking the
      value into `(dx, dy, dz)`, which raises ValueError unless it has exactly three components. */
  function RecordLine<F>(entry: (int, seq<F>), fmt: F -> string): (r: Result<string>)
    ensures r.Ok? <==> |entry.1| == 3
    ensures r.Err? ==> r.error == UnpackMismatch(|entry.1|)
  {
    var v := entry.1;
    if |v| != 3 then Err(UnpackMismatch(|v|))
    else Ok(RecordText(NodeField(entry.0), fmt(v[0]), fmt(v[1]), fmt(v[2])))
  }

  /** Where each part of a record line lies when the node field has its ten columns. */
  lemma Columns(f: string, a: string, b: string, c: string)
    requires |f| == 10
    ensures var line := RecordText(f, a, b, c);
      |line| == 14 + |a| + |b| + |c| &&
      line[..3] == " -1" &&
      line[3..13] == f &&
      line[13..13 + |a|] == a &&
      line[13 + |a|..13 + |a| + |b|] == b &&
      line[13 + |a| + |b|..13 + |a| + |b| + |c|] == c &&
      line[|line| - 1] == '\n'
  {
    var line := RecordText(f, a, b, c);
    var k := " -1";
    assert line[..13 + |a| + |b| + |c|] == k + f + a + b + c;
    assert line[..13 + |a| + |b|] == k + f + a + b;
    assert line[..13 + |a|] == k + f + a;
    assert line[..13] == k + f;
  }

  /** `line` is a record of node `node` with formatted components `a`, `b`, `c`: the record key `-1`
      in columns 2-3, the node number in columns 4-13, then the three components in order and
      the newline. */
  predicate RecordColumns(line: string, node: int, a: string, b: string, c: string) {
    |line| == 14 + |a| + |b| + |c| &&
    line[..3] == " -1" &&
    ReadDecimal(TrimStart(line[3..13])) == node &&
    line[13..13 + |a|] == a &&
    line[13 + |a|..13 + |a| + |b|] == b &&
    line[13 + |a| + |b|..13 + |a| + |b| + |c|] == c &&
    line[|line| - 1] == '\n'
  }

  /** `Columns`, with the node field read back. */
  lemma FieldLayout(f: string, a: string, b: string, c: string, node: int, line: string)
    requires line == RecordText(f, a, b, c) && |f| == 10 && ReadDecimal(TrimStart(f)) == node
    ensures RecordColumns(line, node, a, b, c)
  {
    Columns(f, a, b, c);
  }

  /** A record whose node number fits is one fixed-column line. */
  lemma RecordLayout<F>(entry: (int, seq<F>), fmt: F -> string, line: string)
    requires RecordLine(entry, fmt) == Ok(line) && NodeFits(entry.0)
    ensures RecordColumns(line, entry.0, fmt(entry.1[0]), fmt(entry.1[1]), fmt(entry.1[2]))
  {
    NodeFieldRoundTrip(entry.0);
    FieldLayout(NodeField(entry.0), fmt(entry.1[0]), fmt(entry.1[1]), fmt(entry.1[2]), entry.0, line);
  }

  /** `RecordLine` as a function value, so that every mention of it denotes the same function. */
  function RecordFormatter<F>(fmt: F -> string): ((int, seq<F>)) -> Result<string> {
    entry => RecordLine(entry, fmt)
  }

  /** `idx = [n for n, ln in enumerate(lines) if 'DISP' in ln][0] + 5` and the check on `lines[idx]`:
      IndexError when no line mentions `DISP` or the file ends before `idx`, ValueError
      `wrong offset` when the stripped line there does not start with `-3`. */
  function SpliceIndex(lines: seq<string>): Result<nat> {
    var disp := IndicesWhere(lines, IsDispLine);
    if disp == [] then Err(MarkerNotFound("DISP"))
    else
      var idx := disp[0] + 5;
      if idx >= |lines| then Err(IndexOutOfRange)
      else if !StartsWith(Strip(lines[idx]), "-3") then Err(WrongOffset(idx))
      else Ok(idx)
  }

  /** The lines post.py `splice` writes to `<base>-post.frd`, or the exception it raises:
      `lines[:idx] + splice + lines[idx:]`. */
  function Spliced<F>(lines: seq<string>, newDisp: seq<(int, seq<F>)>, fmt: F -> string): Result<seq<string>> {
    var idx := SpliceIndex(lines);
    if idx.Err? then Err(idx.error)
    else
      var recs := MapResult(newDisp, RecordFormatter(fmt));
      if recs.Err? then Err(recs.error)
      else Ok(lines[..idx.value] + recs.value + lines[idx.value..])
  }

  /** The anchor is five lines after the first `DISP` line, provided the file reaches it and the line
      there opens the displacement records; and these are the only ways the anchor search fails. */
  lemma SpliceIndexMeaning(lines: seq<string>, d: nat)
    requires IsFirst(lines, IsDispLine, d)
    ensures d + 5 >= |lines| <==> SpliceIndex(lines) == Err(IndexOutOfRange)
    ensures d + 5 < |lines| && !StartsWith(Strip(lines[d + 5]), "-3") <==>
      SpliceIndex(lines) == Err(WrongOffset(d + 5))
    ensures SpliceIndex(lines).Ok? <==> d + 5 < |lines| && StartsWith(Strip(lines[d + 5]), "-3")
    ensures SpliceIndex(lines).Ok? ==> SpliceIndex(lines).value == d + 5
  {
    FirstIndex(lines, IsDispLine);
    var disp := IndicesWhere(lines, IsDispLine);
    assert disp[0] == d;
  }

  /** A file without a `DISP` line raises IndexError, and nothing else raises that error. */
  lemma SpliceMissingMarker<F>(lines: seq<string>, newDisp: seq<(int, seq<F>)>, fmt: F -> string)
    ensures Spliced(lines, newDisp, fmt) == Err(MarkerNotFound("DISP")) <==>
      forall n :: 0 <= n < |lines| ==> !IsDispLine(lines[n])
  {
    FirstIndex(lines, IsDispLine);
    var recs := MapResult(newDisp, RecordFormatter(fmt));
    MapResultMeaning(newDisp, RecordFormatter(fmt));
    if recs.Err? {
      var k :| 0 <= k < |newDisp| && RecordFormatter(fmt)(newDisp[k]) == Err(recs.error);
      assert recs.error == UnpackMismatch(|newDisp[k].1|);
    }
  }

  /** Once the anchor is found, the splice raises ValueError at the first value that does not have
      exactly three components, and succeeds when every one of them does. */
  lemma SpliceRecordsErr<F>(lines: seq<string>, newDisp: seq<(int, seq<F>)>, fmt: F -> string)
    requires SpliceIndex(lines).Ok?
    ensures Spliced(lines, newDisp, fmt).Ok? <==> forall k :: 0 <= k < |newDisp| ==> |newDisp[k].1| == 3
    ensures Spliced(lines, newDisp, fmt).Err? ==>
      exists k :: 0 <= k < |newDisp| && |newDisp[k].1| != 3 &&
        Spliced(lines, newDisp, fmt) == Err(UnpackMismatch(|newDisp[k].1|)) &&
        forall k' :: 0 <= k' < k ==> |newDisp[k'].1| == 3
  {
    var f := RecordFormatter(fmt);
    MapResultMeaning(newDisp, f);
    assert forall k :: 0 <= k < |newDisp| ==> (f(newDisp[k]).Ok? <==> |newDisp[k].1| == 3);
    var recs := MapResult(newDisp, f);
    if recs.Err? {
      var k :| 0 <= k < |newDisp| && f(newDisp[k]) == Err(recs.error) &&
               forall k' :: 0 <= k' < k ==> f(newDisp[k']).Ok?;
      assert |newDisp[k].1| != 3 && recs.error == UnpackMismatch(|newDisp[k].1|);
    }
  }

  /** `xs[:i] + ys + xs[i:]` keeps `xs` around the inserted block. */
  lemma InsertLayout<X>(xs: seq<X>, ys: seq<X>, i: nat, out: seq<X>)
    requires i <= |xs| && out == xs[..i] + ys + xs[i..]
    ensures |out| == |xs| + |ys|
    ensures forall j :: 0 <= j < i ==> out[j] == xs[j]
    ensures forall k :: 0 <= k < |ys| ==> out[i + k] == ys[k]
    ensures forall j :: i <= j < |xs| ==> out[j + |ys|] == xs[j]
    ensures out[..i] + out[i + |ys|..] == xs
  {
    assert out[..i] == xs[..i];
    assert out[i + |ys|..] == xs[i..];
    assert xs[..i] + xs[i..] == xs;
  }

  /** The new file is the old one with one record per value inserted at line `idx`: the lines before
      it are kept, record `k` is line `idx + k`, the old lines from `idx` on follow, shifted by the
      number of records, and taking the records out again gives back the old file. */
  lemma SpliceLayout<F>(lines: seq<string>, newDisp: seq<(int, seq<F>)>, fmt: F -> string, idx: nat, out: seq<string>)
    requires SpliceIndex(lines) == Ok(idx) && Spliced(lines, newDisp, fmt) == Ok(out)
    ensures |out| == |lines| + |newDisp|
    ensures forall i :: 0 <= i < idx ==> out[i] == lines[i]
    ensures forall k :: 0 <= k < |newDisp| ==> RecordLine(newDisp[k], fmt) == Ok(out[idx + k])
    ensures forall i :: idx <= i < |lines| ==> out[i + |newDisp|] == lines[i]
    ensures out[..idx] + out[idx + |newDisp|..] == lines
  {
    var f := RecordFormatter(fmt);
    var recs := MapResult(newDisp, f).value;
    assert out == lines[..idx] + recs + lines[idx..];
    MapResultOk(newDisp, f, recs);
    InsertLayout(lines, recs, idx, out);
    var n := |recs|;
    assert n == |newDisp|;
    forall k | 0 <= k < n ensures RecordLine(newDisp[k], fmt) == Ok(out[idx + k]) {
      assert f(newDisp[k]) == Ok(recs[k]);
    }
    forall i | idx <= i < |lines| ensures out[i + n] == lines[i] {
    }
  }

  /** post.py `splice` on the lines of the `.frd` file: the lines it writes, or the exception. */
  method Splice<F>(lines: seq<string>, newDisp: seq<(int, seq<F>)>, fmt: F -> string) returns (r: Result<seq<string>>)
    ensures r == Spliced(lines, newDisp, fmt)
  {
    var idx := SpliceIndex(lines);
    if idx.Err? {
      return Err(idx.error);
    }
    ghost var f := RecordFormatter(fmt);
    var splice: seq<string> := [];
    for k := 0 to |newDisp|
      invariant MapResult(newDisp[..k], f) == Ok(splice)
    {
      var line := RecordLine(newDisp[k], fmt);
      assert f(newDisp[k]) == line;
      MapResultStep(newDisp, k, f, splice);
      if line.Err? {
        MapResultPrefixErr(newDisp, k + 1, f);
        return Err(line.error);
      }
      splice := splice + [line.value];
    }
    assert newDisp[..|newDisp|] == newDisp;
    var before := lines[..idx.value];
    var after := lines[idx.value..];
    return Ok(before + splice + after);
  }
}
