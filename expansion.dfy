/**
 Reading the element expansion log (`<base>.12d`, post.py `read_expansion`).
 Every line that starts with `ELEMENT` opens a block of five lines:
   line i     `ELEMENT <id> ...`
   line i+1   the original node ids of the element
   line i+2   (not read)
   line i+3   first part of the expanded node ids
   line i+4   second part of the expanded node ids
 */
module Expansions {
  import opened PyLib

  /** One expanded element: its id, its original nodes and its expanded nodes. */
  datatype Expansion = Expansion(element: int, orig: seq<int>, expanded: seq<int>)

  /** `ln.startswith('ELEMENT')`. */
  predicate IsElementLine(line: string) {
    StartsWith(line, "ELEMENT")
  }

  /** `tuple(int(t) for t in lines[j].split())`. */
  function ParseLine(lines: seq<string>, j: nat, parseInt: string -> Option<int>): Result<seq<int>> {
    if j >= |lines| then Err(IndexOutOfRange) else ParseAll(Split(lines[j]), parseInt)
  }

  /** `int(lines[i].split()[1])`. */
  function ParseElementId(lines: seq<string>, i: nat, parseInt: string -> Option<int>): Result<int> {
    if i >= |lines| || |Split(lines[i])| < 2 then Err(IndexOutOfRange)
    else Literal(parseInt, Split(lines[i])[1])
  }

  /** The record whose `ELEMENT` line is line `i` of the stripped log, evaluated in Python's
      order: the element id, then the tuple of line `i+1`, then those of lines `i+3` and `i+4`. */
  function ParseRecord(lines: seq<string>, i: nat, parseInt: string -> Option<int>): Result<Expansion> {
    var element := ParseElementId(lines, i, parseInt);
    if element.Err? then Err(element.error)
    else
      var orig := ParseLine(lines, i + 1, parseInt);
      if orig.Err? then Err(orig.error)
      else
        var first := ParseLine(lines, i + 3, parseInt);
        if first.Err? then Err(first.error)
        else
          var second := ParseLine(lines, i + 4, parseInt);
          if second.Err? then Err(second.error)
          else Ok(Expansion(element.value, orig.value, first.value + second.value))
  }

  /** The layout of one record: it exists exactly when lines `i`..`i+4` exist, line `i` has a second
      token and every token read parses; then the id is token 1 of line `i`, `orig` holds the tokens of
      line `i+1` and `expanded` (Python `new`) those of line `i+3` followed by those of line `i+4`. */
  lemma ParseRecordLayout(lines: seq<string>, i: nat, parseInt: string -> Option<int>)
    ensures var r := ParseRecord(lines, i, parseInt);
      r.Ok? <==>
        (i + 4 < |lines| && |Split(lines[i])| >= 2 && parseInt(Split(lines[i])[1]).Some? &&
         var a, b, c := Split(lines[i + 1]), Split(lines[i + 3]), Split(lines[i + 4]);
         (forall k :: 0 <= k < |a| ==> parseInt(a[k]).Some?) &&
         (forall k :: 0 <= k < |b| ==> parseInt(b[k]).Some?) &&
         (forall k :: 0 <= k < |c| ==> parseInt(c[k]).Some?))
    ensures var r := ParseRecord(lines, i, parseInt);
      r.Ok? ==>
        var a, b, c := Split(lines[i + 1]), Split(lines[i + 3]), Split(lines[i + 4]);
        Some(r.value.element) == parseInt(Split(lines[i])[1]) &&
        |r.value.orig| == |a| && (forall k :: 0 <= k < |a| ==> parseInt(a[k]) == Some(r.value.orig[k])) &&
        |r.value.expanded| == |b| + |c| &&
        (forall k :: 0 <= k < |b| ==> parseInt(b[k]) == Some(r.value.expanded[k])) &&
        (forall k :: 0 <= k < |c| ==> parseInt(c[k]) == Some(r.value.expanded[|b| + k]))
  {
    if i + 4 < |lines| && |Split(lines[i])| >= 2 {
      assert ParseElementId(lines, i, parseInt) == Literal(parseInt, Split(lines[i])[1]);
      assert ParseLine(lines, i + 1, parseInt) == ParseAll(Split(lines[i + 1]), parseInt);
      assert ParseLine(lines, i + 3, parseInt) == ParseAll(Split(lines[i + 3]), parseInt);
      assert ParseLine(lines, i + 4, parseInt) == ParseAll(Split(lines[i + 4]), parseInt);
      ParseAllMeaning(Split(lines[i + 1]), parseInt);
      ParseAllMeaning(Split(lines[i + 3]), parseInt);
      ParseAllMeaning(Split(lines[i + 4]), parseInt);
    }
  }

  /** Line `i+2` of a block is never read: changing it leaves the record as it was. */
  lemma ParseRecordSkipsThirdLine(lines: seq<string>, i: nat, s: string, parseInt: string -> Option<int>)
    requires i + 2 < |lines|
    ensures ParseRecord(lines[i + 2 := s], i, parseInt) == ParseRecord(lines, i, parseInt)
  {
  }

  /** Token 1 of line `i` exists and parses as the element id. */
  predicate IdParses(lines: seq<string>, i: nat, parseInt: string -> Option<int>) {
    i < |lines| && |Split(lines[i])| >= 2 && parseInt(Split(lines[i])[1]).Some?
  }

  /** Line `j` exists and every one of its tokens parses. */
  predicate LineParses(lines: seq<string>, j: nat, parseInt: string -> Option<int>) {
    j < |lines| && forall k :: 0 <= k < |Split(lines[j])| ==> parseInt(Split(lines[j])[k]).Some?
  }

  /** Reading line `j` as a tuple of integers raises `e`: IndexError when there is no line `j`,
      otherwise ValueError for its first token that does not parse. */
  ghost predicate LineRaises(lines: seq<string>, j: nat, parseInt: string -> Option<int>, e: Error) {
    if j >= |lines| then e == IndexOutOfRange
    else exists k :: FirstBad(Split(lines[j]), parseInt, k) && e == InvalidLiteral(Split(lines[j])[k])
  }

  /** Reading a line succeeds exactly when it exists and all its tokens parse, and otherwise raises
      the exception of `LineRaises`. */
  lemma ParseLineRaises(lines: seq<string>, j: nat, parseInt: string -> Option<int>)
    ensures ParseLine(lines, j, parseInt).Ok? <==> LineParses(lines, j, parseInt)
    ensures ParseLine(lines, j, parseInt).Err? ==> LineRaises(lines, j, parseInt, ParseLine(lines, j, parseInt).error)
  {
    if j < |lines| {
      var toks := Split(lines[j]);
      var r := ParseAll(toks, parseInt);
      ParseAllMeaning(toks, parseInt);
      if r.Err? {
        var k :| 0 <= k < |toks| && parseInt(toks[k]).None? && r.error == InvalidLiteral(toks[k]) &&
                 forall k' :: 0 <= k' < k ==> parseInt(toks[k']).Some?;
        assert FirstBad(toks, parseInt, k);
      }
    }
  }

  /** Which exception a record raises, in the order Python evaluates it: IndexError when line `i`
      has no second token; ValueError when that token is no integer; then the exception reading
      line `i+1`, then line `i+3`, then line `i+4` raises, the first of them that does. */
  lemma ParseRecordRaises(lines: seq<string>, i: nat, parseInt: string -> Option<int>)
    ensures i >= |lines| || |Split(lines[i])| < 2 ==> ParseRecord(lines, i, parseInt) == Err(IndexOutOfRange)
    ensures i < |lines| && |Split(lines[i])| >= 2 && parseInt(Split(lines[i])[1]).None? ==>
      ParseRecord(lines, i, parseInt) == Err(InvalidLiteral(Split(lines[i])[1]))
    ensures IdParses(lines, i, parseInt) && !LineParses(lines, i + 1, parseInt) ==>
      ParseRecord(lines, i, parseInt).Err? && LineRaises(lines, i + 1, parseInt, ParseRecord(lines, i, parseInt).error)
    ensures IdParses(lines, i, parseInt) && LineParses(lines, i + 1, parseInt) && !LineParses(lines, i + 3, parseInt) ==>
      ParseRecord(lines, i, parseInt).Err? && LineRaises(lines, i + 3, parseInt, ParseRecord(lines, i, parseInt).error)
    ensures IdParses(lines, i, parseInt) && LineParses(lines, i + 1, parseInt) && LineParses(lines, i + 3, parseInt) &&
            !LineParses(lines, i + 4, parseInt) ==>
      ParseRecord(lines, i, parseInt).Err? && LineRaises(lines, i + 4, parseInt, ParseRecord(lines, i, parseInt).error)
  {
    ParseLineRaises(lines, i + 1, parseInt);
    ParseLineRaises(lines, i + 3, parseInt);
    ParseLineRaises(lines, i + 4, parseInt);
  }

  /** `ParseRecord` as a function value, so that every mention of it denotes the same function. */
  function RecordParser(lines: seq<string>, parseInt: string -> Option<int>): nat -> Result<Expansion> {
    (i: nat) => ParseRecord(lines, i, parseInt)
  }

  /** What a run of the record loop means, record by record. */
  lemma RecordLoopMeaning(lines: seq<string>, idx: seq<nat>, parseInt: string -> Option<int>)
    ensures var r := MapResult(idx, RecordParser(lines, parseInt));
      (r.Ok? <==> forall k :: 0 <= k < |idx| ==> ParseRecord(lines, idx[k], parseInt).Ok?) &&
      (r.Ok? ==> |r.value| == |idx| &&
                 forall k :: 0 <= k < |idx| ==> ParseRecord(lines, idx[k], parseInt) == Ok(r.value[k])) &&
      (r.Err? ==> exists k :: 0 <= k < |idx| && ParseRecord(lines, idx[k], parseInt) == Err(r.error) &&
                              forall k' :: 0 <= k' < k ==> ParseRecord(lines, idx[k'], parseInt).Ok?)
  {
    MapResultMeaning(idx, RecordParser(lines, parseInt));
  }

  /** post.py `read_expansion` on the lines of the log: one record per `ELEMENT` line, in file order,
      raising the first exception any record raises. */
  method ReadExpansion(raw: seq<string>, parseInt: string -> Option<int>) returns (r: Result<seq<Expansion>>)
    ensures var lines := StripAll(raw);
      r == MapResult(IndicesWhere(lines, IsElementLine), RecordParser(lines, parseInt))
  {
    var lines := StripAll(raw);
    var indices := IndicesWhere(lines, IsElementLine);
    ghost var f := RecordParser(lines, parseInt);
    var rv: seq<Expansion> := [];
    for k := 0 to |indices|
      invariant MapResult(indices[..k], f) == Ok(rv)
    {
      var d := ParseRecord(lines, indices[k], parseInt);
      assert f(indices[k]) == d;
      MapResultStep(indices, k, f, rv);
      if d.Err? {
        MapResultPrefixErr(indices, k + 1, f);
        return Err(d.error);
      }
      rv := rv + [d.value];
    }
    assert indices[..|indices|] == indices;
    return Ok(rv);
  }
}
