/**
 Reading the original node displacements from the `<base>.dat` file
 (post.py `read_displacements`). The block of displacements starts two lines
 after the first line mentioning `displacements` and ends one line before the
 first line mentioning `energy`; every line of the block is a node number
 followed by the displacement components.

 Floating-point literals are parsed by `parseFloat`, which yields None where
 Python's `float` raises ValueError; a component is an opaque value `F`.
 */
module Displacements {
  import opened PyLib

  /** `'energy' in ln`. */
  predicate IsEnergyLine(line: string) {
    Contains(line, "energy")
  }

  /** `'displacements' in ln`. */
  predicate IsDisplacementLine(line: string) {
    Contains(line, "displacements")
  }

  /** `tuple(float(j) for j in ln.split()[1:])`. */
  function ParseRow<F>(line: string, parseFloat: string -> Option<F>): Result<seq<F>> {
    var toks := Split(line);
    ParseAll(PySlice(toks, 1, |toks|), parseFloat)
  }

  /** Every token of a row after the first (the node number) is a float literal. */
  predicate ComponentsParse<F>(toks: seq<string>, parseFloat: string -> Option<F>) {
    forall i :: 1 <= i < |toks| ==> parseFloat(toks[i]).Some?
  }

  /** Every token of a row after the first is parsed, in order: the row raises ValueError exactly
      when one of them does not parse, and otherwise holds their values. */
  lemma ParseRowMeaning<F>(line: string, parseFloat: string -> Option<F>)
    ensures var toks, r := Split(line), ParseRow(line, parseFloat);
      (r.Ok? <==> ComponentsParse(toks, parseFloat)) &&
      (r.Ok? ==> |r.value| == (if |toks| == 0 then 0 else |toks| - 1) &&
                 forall i :: 1 <= i < |toks| ==> parseFloat(toks[i]) == Some(r.value[i - 1])) &&
      (r.Err? ==> r.error.InvalidLiteral?)
  {
    var toks := Split(line);
    var rest := PySlice(toks, 1, |toks|);
    ParseAllMeaning(rest, parseFloat);
    assert |rest| == (if |toks| == 0 then 0 else |toks| - 1);
    assert forall i :: 1 <= i < |toks| ==> rest[i - 1] == toks[i];
    assert forall j :: 0 <= j < |rest| ==> rest[j] == toks[j + 1];
  }

  /** `ParseRow` as a function value, so that every mention of it denotes the same function. */
  function RowParser<F>(parseFloat: string -> Option<F>): string -> Result<seq<F>> {
    line => ParseRow(line, parseFloat)
  }

  /** `lines[start:end]` of post.py `read_displacements`: `end` is one line before the first line that
      mentions `energy`, `start` two lines after the first that mentions `displacements`; each search
      raises IndexError when nothing matches, the one for `energy` first. */
  function DisplacementLines(lines: seq<string>): Result<seq<string>> {
    var energy := IndicesWhere(lines, IsEnergyLine);
    if energy == [] then Err(MarkerNotFound("energy"))
    else
      var end := energy[0] as int + 2 - 3;
      var disp := IndicesWhere(lines, IsDisplacementLine);
      if disp == [] then Err(MarkerNotFound("displacements"))
      else
        var start := disp[0] + 2;
        Ok(PySlice(lines, start, end))
  }

  /** The rows of the displacement block of the stripped lines, or the exception reading them raises. */
  function ReadBlock<F>(lines: seq<string>, parseFloat: string -> Option<F>): Result<seq<seq<F>>> {
    var block := DisplacementLines(lines);
    if block.Err? then Err(block.error) else MapResult(block.value, RowParser(parseFloat))
  }

  /** What post.py `read_displacements` returns or raises, given the lines of the file. */
  function ReadDisplacements<F>(raw: seq<string>, parseFloat: string -> Option<F>): Result<seq<seq<F>>> {
    ReadBlock(StripAll(raw), parseFloat)
  }

  /** Reading the rows raises nothing but ValueError for a literal that does not parse. */
  lemma RowsRaiseInvalidLiteral<F>(rows: seq<string>, parseFloat: string -> Option<F>)
    ensures MapResult(rows, RowParser(parseFloat)).Err? ==> MapResult(rows, RowParser(parseFloat)).error.InvalidLiteral?
  {
    MapResultMeaning(rows, RowParser(parseFloat));
    var r := MapResult(rows, RowParser(parseFloat));
    if r.Err? {
      var i :| 0 <= i < |rows| && RowParser(parseFloat)(rows[i]) == Err(r.error);
      ParseRowMeaning(rows[i], parseFloat);
      assert ParseRow(rows[i], parseFloat) == Err(r.error);
    }
  }

  /** A marker search that raises makes the whole read raise it; parsing raises nothing else. */
  lemma ReadRaisesMarker<F>(raw: seq<string>, parseFloat: string -> Option<F>, marker: string)
    ensures ReadDisplacements(raw, parseFloat) == Err(MarkerNotFound(marker)) <==>
      DisplacementLines(StripAll(raw)) == Err(MarkerNotFound(marker))
  {
    var block := DisplacementLines(StripAll(raw));
    if block.Ok? {
      RowsRaiseInvalidLiteral(block.value, parseFloat);
    }
  }

  /** The search for `energy` comes first: it raises exactly when no line mentions `energy`. */
  lemma BlockMissingEnergy(lines: seq<string>)
    ensures DisplacementLines(lines) == Err(MarkerNotFound("energy")) <==>
      forall n :: 0 <= n < |lines| ==> !IsEnergyLine(lines[n])
  {
    FirstIndex(lines, IsEnergyLine);
  }

  /** With `energy` present, the search for `displacements` raises exactly when no line mentions it. */
  lemma BlockMissingDisplacements(lines: seq<string>)
    requires exists n :: 0 <= n < |lines| && IsEnergyLine(lines[n])
    ensures DisplacementLines(lines) == Err(MarkerNotFound("displacements")) <==>
      forall n :: 0 <= n < |lines| ==> !IsDisplacementLine(lines[n])
  {
    FirstIndex(lines, IsEnergyLine);
    FirstIndex(lines, IsDisplacementLine);
  }

  /** The read raises IndexError for `energy` exactly when no line, stripped, mentions `energy`. */
  lemma MissingEnergy<F>(raw: seq<string>, parseFloat: string -> Option<F>)
    ensures ReadDisplacements(raw, parseFloat) == Err(MarkerNotFound("energy")) <==>
      forall n :: 0 <= n < |raw| ==> !IsEnergyLine(Strip(raw[n]))
  {
    ReadRaisesMarker(raw, parseFloat, "energy");
    var lines := StripAll(raw);
    BlockMissingEnergy(lines);
    assert forall n :: 0 <= n < |raw| ==> lines[n] == Strip(raw[n]);
  }

  /** With a line mentioning `energy`, the read raises IndexError for `displacements` exactly when no
      line, stripped, mentions `displacements`. */
  lemma MissingDisplacements<F>(raw: seq<string>, parseFloat: string -> Option<F>)
    requires exists n :: 0 <= n < |raw| && IsEnergyLine(Strip(raw[n]))
    ensures ReadDisplacements(raw, parseFloat) == Err(MarkerNotFound("displacements")) <==>
      forall n :: 0 <= n < |raw| ==> !IsDisplacementLine(Strip(raw[n]))
  {
    var lines := StripAll(raw);
    assert forall n :: 0 <= n < |raw| ==> lines[n] == Strip(raw[n]);
    var n :| 0 <= n < |raw| && IsEnergyLine(Strip(raw[n]));
    assert IsEnergyLine(lines[n]);
    ReadRaisesMarker(raw, parseFloat, "displacements");
    BlockMissingDisplacements(lines);
  }

  /** The last line (exclusive) of the block when the first `energy` line is line `e`: the line before
      it, or, for `e == 0`, where Python reads index -1 as the last line, the last line. */
  function BlockEnd(e: nat, len: nat): int {
    if e >= 1 then e as int - 1 else len as int - 1
  }

  /** With `displacements` first on line `d` and `energy` first on line `e`, the block is the lines
      from `d + 2` up to, not including, `BlockEnd(e)`, and empty when that range is. */
  lemma BlockBounds(lines: seq<string>, d: nat, e: nat)
    requires IsFirst(lines, IsDisplacementLine, d) && IsFirst(lines, IsEnergyLine, e)
    ensures var hi := BlockEnd(e, |lines|);
      DisplacementLines(lines) == Ok(if d + 2 <= hi then lines[d + 2..hi] else [])
  {
    FirstIndex(lines, IsEnergyLine);
    FirstIndex(lines, IsDisplacementLine);
    assert IndicesWhere(lines, IsEnergyLine)[0] == e;
    assert IndicesWhere(lines, IsDisplacementLine)[0] == d;
    assert Clamp(e as int - 1, |lines|) == BlockEnd(e, |lines|);
  }

  /** Every line of `lines[lo:hi]` holds a row whose components all parse. */
  ghost predicate BlockParses<F>(lines: seq<string>, lo: int, hi: int, parseFloat: string -> Option<F>) {
    forall n :: lo <= n < hi && 0 <= n < |lines| ==> ParseRow(lines[n], parseFloat).Ok?
  }

  /** `rows` holds one row per line of `lines[lo:hi]`, in order: row `n - lo` is read from line `n`. */
  ghost predicate BlockRows<F>(lines: seq<string>, lo: int, hi: int, parseFloat: string -> Option<F>, rows: seq<seq<F>>) {
    |rows| == (if lo <= hi then hi - lo else 0) &&
    forall n :: lo <= n < hi && 0 <= n < |lines| ==> ParseRow(lines[n], parseFloat) == Ok(rows[n - lo])
  }

  /** Reading the rows of `lines[lo:hi]` raises exactly when one of them does not parse, and otherwise
      holds one row per line. */
  lemma RowsBlock<F>(lines: seq<string>, lo: nat, hi: int, parseFloat: string -> Option<F>, rows: seq<string>)
    requires hi <= |lines| && rows == (if lo <= hi then lines[lo..hi] else [])
    ensures MapResult(rows, RowParser(parseFloat)).Ok? <==> BlockParses(lines, lo, hi, parseFloat)
    ensures MapResult(rows, RowParser(parseFloat)).Ok? ==>
      BlockRows(lines, lo, hi, parseFloat, MapResult(rows, RowParser(parseFloat)).value)
  {
    var f := RowParser(parseFloat);
    var r := MapResult(rows, f);
    MapResultMeaning(rows, f);
    if lo <= hi {
      assert |rows| == hi - lo;
      forall n | lo <= n < hi ensures rows[n - lo] == lines[n] {
      }
    }
    if r.Ok? {
      forall n | lo <= n < hi && 0 <= n < |lines| ensures ParseRow(lines[n], parseFloat) == Ok(r.value[n - lo]) {
        assert f(rows[n - lo]) == Ok(r.value[n - lo]);
      }
    }
    if BlockParses(lines, lo, hi, parseFloat) {
      forall k | 0 <= k < |rows| ensures f(rows[k]).Ok? {
        assert rows[k] == lines[k + lo];
      }
    }
  }

  /** With `displacements` first on line `d` and `energy` first on line `e` of the stripped file, the
      read raises exactly when a line of the block holds a token after the first that does not parse,
      and otherwise holds one row per line of the block, the node number left out. */
  lemma DisplacementBlock<F>(lines: seq<string>, parseFloat: string -> Option<F>, d: nat, e: nat)
    requires IsFirst(lines, IsDisplacementLine, d) && IsFirst(lines, IsEnergyLine, e)
    ensures ReadBlock(lines, parseFloat).Ok? <==> BlockParses(lines, d + 2, BlockEnd(e, |lines|), parseFloat)
    ensures ReadBlock(lines, parseFloat).Ok? ==>
      BlockRows(lines, d + 2, BlockEnd(e, |lines|), parseFloat, ReadBlock(lines, parseFloat).value)
  {
    var lo, hi := d + 2, BlockEnd(e, |lines|);
    BlockBounds(lines, d, e);
    var rows := if lo <= hi then lines[lo..hi] else [];
    assert ReadBlock(lines, parseFloat) == MapResult(rows, RowParser(parseFloat));
    RowsBlock(lines, lo, hi, parseFloat, rows);
  }
}
