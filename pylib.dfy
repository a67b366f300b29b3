/**
 The few Python built-ins the converter leans on, given the meaning CPython
 gives them: `str.strip`, `str.split()`, `in` on strings, `str.startswith`,
 list slicing and (negative) indexing, the list comprehension
 `[n for n, ln in enumerate(lines) if ...]`, and the way an exception raised
 inside a loop or a generator aborts the whole computation.
 */
module PyLib {

  datatype Option<T> = None | Some(value: T)

  /** The exceptions the converter can raise, by Python exception kind. */
  datatype Error =
    | MarkerNotFound(marker: string)  // IndexError: `[...][0]` on an empty marker search
    | IndexOutOfRange                 // IndexError: `lines[i]`, `split()[1]`, `orig[k]`
    | KeyNotFound(key: int)           // KeyError: `mapping[x]`
    | InvalidLiteral(token: string)   // ValueError: `int(token)` or `float(token)`
    | WrongOffset(index: int)         // ValueError: `wrong offset: {idx}`
    | UnpackMismatch(size: nat)       // ValueError: `(dx, dy, dz)` unpacking a tuple of another size

  /** Either the value a Python expression evaluates to, or the exception it raises. */
  datatype Result<T> = Ok(value: T) | Err(error: Error)

  /** `str.isspace()` for one character: the characters `str.split()` and `str.strip()` treat as whitespace. */
  predicate IsSpace(c: char) {
    var k := c as int;
    (9 <= k <= 13) || (28 <= k <= 32) || k == 0x85 || k == 0xA0 || k == 0x1680 ||
    (0x2000 <= k <= 0x200A) || k == 0x2028 || k == 0x2029 || k == 0x202F ||
    k == 0x205F || k == 0x3000
  }

  /** `s.lstrip()`. */
  function TrimStart(s: string): string {
    if |s| > 0 && IsSpace(s[0]) then TrimStart(s[1..]) else s
  }

  /** `r` is `s` without a leading run of whitespace, and `r` does not start with whitespace. */
  predicate LeftStripped(s: string, r: string) {
    |r| <= |s| && r == s[|s| - |r|..] &&
    (forall k :: 0 <= k < |s| - |r| ==> IsSpace(s[k])) &&
    (r == [] || !IsSpace(r[0]))
  }

  /** `s.lstrip()` removes the longest whitespace prefix: what it removes is whitespace, and what it
      keeps is a suffix of `s` that does not start with whitespace. */
  lemma {:induction false} TrimStartMeaning(s: string)
    ensures LeftStripped(s, TrimStart(s))
  {
    if |s| > 0 && IsSpace(s[0]) {
      var t := s[1..];
      var r := TrimStart(t);
      TrimStartMeaning(t);
      assert TrimStart(s) == r;
      assert t[|t| - |r|..] == s[|s| - |r|..];
      forall k | 0 <= k < |s| - |r| ensures IsSpace(s[k]) {
        if k > 0 {
          assert s[k] == t[k - 1];
        }
      }
    }
  }

  /** `s.rstrip()`. */
  function TrimEnd(s: string): string {
    if |s| > 0 && IsSpace(s[|s| - 1]) then TrimEnd(s[..|s| - 1]) else s
  }

  /** `r` is `s` without a trailing run of whitespace, and `r` does not end with whitespace. */
  predicate RightStripped(s: string, r: string) {
    |r| <= |s| && r == s[..|r|] &&
    (forall k :: |r| <= k < |s| ==> IsSpace(s[k])) &&
    (r == [] || !IsSpace(r[|r| - 1]))
  }

  /** `s.rstrip()` removes the longest whitespace suffix: what it removes is whitespace, and what it
      keeps is a prefix of `s` that does not end with whitespace. */
  lemma {:induction false} TrimEndMeaning(s: string)
    ensures RightStripped(s, TrimEnd(s))
  {
    if |s| > 0 && IsSpace(s[|s| - 1]) {
      var t := s[..|s| - 1];
      var r := TrimEnd(t);
      TrimEndMeaning(t);
      assert TrimEnd(s) == r;
      assert t[..|r|] == s[..|r|];
      forall k | |r| <= k < |s| ensures IsSpace(s[k]) {
        if k < |s| - 1 {
          assert s[k] == t[k];
        }
      }
    }
  }

  /** `s.strip()`. */
  function Strip(s: string): string {
    TrimEnd(TrimStart(s))
  }

  /** Length of the leading run of non-whitespace characters. */
  function WordEnd(s: string): (n: nat)
    ensures n <= |s|
    ensures forall k :: 0 <= k < n ==> !IsSpace(s[k])
    ensures n == |s| || IsSpace(s[n])
  {
    if |s| == 0 || IsSpace(s[0]) then 0 else 1 + WordEnd(s[1..])
  }

  /** `[ln.strip() for ln in dat.readlines()]`. */
  function StripAll(raw: seq<string>): seq<string> {
    seq(|raw|, i requires 0 <= i < |raw| => Strip(raw[i]))
  }

  /** `s.split()` with no separator: the maximal runs of non-whitespace characters, in order. */
  function Split(s: string): seq<string>
    decreases |s|
  {
    if |s| == 0 then []
    else if IsSpace(s[0]) then Split(s[1..])
    else
      var n := WordEnd(s);
      [s[..n]] + Split(s[n..])
  }

  /** Every token of `s.split()` is non-empty and free of whitespace. */
  lemma {:induction false} SplitTokens(s: string)
    ensures var r := Split(s);
      forall k :: 0 <= k < |r| ==> r[k] != [] && forall c :: c in r[k] ==> !IsSpace(c)
    decreases |s|
  {
    if |s| == 0 {
    } else if IsSpace(s[0]) {
      SplitTokens(s[1..]);
      assert Split(s) == Split(s[1..]);
    } else {
      var n := WordEnd(s);
      SplitTokens(s[n..]);
      var r := Split(s);
      assert r == [s[..n]] + Split(s[n..]);
      forall k | 0 <= k < |r| ensures r[k] != [] && forall c :: c in r[k] ==> !IsSpace(c) {
        if k > 0 {
          assert r[k] == Split(s[n..])[k - 1];
        }
      }
    }
  }

  /** The characters of `s` that are not whitespace, in order. */
  function NonSpace(s: string): string {
    if |s| == 0 then []
    else if IsSpace(s[0]) then NonSpace(s[1..])
    else [s[0]] + NonSpace(s[1..])
  }

  /** `''.join(ws)`. */
  function Concat(ws: seq<string>): string {
    if |ws| == 0 then [] else ws[0] + Concat(ws[1..])
  }

  /** Dropping whitespace distributes over concatenation. */
  lemma {:induction false} NonSpaceAppend(a: string, b: string)
    ensures NonSpace(a + b) == NonSpace(a) + NonSpace(b)
  {
    if |a| > 0 {
      assert (a + b)[1..] == a[1..] + b;
      NonSpaceAppend(a[1..], b);
    } else {
      assert a + b == b;
    }
  }

  /** A word without whitespace keeps every character. */
  lemma {:induction false} NonSpaceOfWord(w: string)
    requires forall k :: 0 <= k < |w| ==> !IsSpace(w[k])
    ensures NonSpace(w) == w
  {
    if |w| > 0 {
      NonSpaceOfWord(w[1..]);
    }
  }

  /** Splitting loses exactly the whitespace: the tokens, put back together, are the non-whitespace characters. */
  lemma {:induction false} SplitKeepsText(s: string)
    ensures Concat(Split(s)) == NonSpace(s)
    decreases |s|
  {
    if |s| == 0 {
    } else if IsSpace(s[0]) {
      SplitKeepsText(s[1..]);
    } else {
      var n := WordEnd(s);
      assert s == s[..n] + s[n..];
      SplitKeepsText(s[n..]);
      NonSpaceAppend(s[..n], s[n..]);
      NonSpaceOfWord(s[..n]);
      assert Split(s) == [s[..n]] + Split(s[n..]);
      assert ([s[..n]] + Split(s[n..]))[1..] == Split(s[n..]);
    }
  }

  /** A word is not extended by what follows it once it has ended. */
  lemma {:induction false} WordEndAppend(a: string, t: string)
    requires WordEnd(a) < |a| || (|t| > 0 && IsSpace(t[0]))
    ensures WordEnd(a + t) == WordEnd(a)
  {
    if |a| > 0 && !IsSpace(a[0]) {
      assert (a + t)[1..] == a[1..] + t;
      WordEndAppend(a[1..], t);
    }
  }

  /** A whitespace character separates tokens: splitting around it splits each side on its own. */
  lemma {:induction false} SplitAtSpace(a: string, c: char, b: string)
    requires IsSpace(c)
    ensures Split(a + [c] + b) == Split(a) + Split(b)
    decreases |a|
  {
    var s := a + [c] + b;
    if |a| == 0 {
      assert s[1..] == b;
      assert Split(s) == Split(b);
    } else if IsSpace(a[0]) {
      assert s[1..] == a[1..] + [c] + b;
      SplitAtSpace(a[1..], c, b);
      assert Split(s) == Split(s[1..]);
      assert Split(a) == Split(a[1..]);
    } else {
      var m := WordEnd(a);
      WordEndAppend(a, [c] + b);
      assert s == a + ([c] + b);
      assert WordEnd(s) == m;
      assert s[..m] == a[..m];
      assert s[m..] == a[m..] + [c] + b;
      SplitAtSpace(a[m..], c, b);
      assert Split(s) == [s[..m]] + Split(s[m..]);
      assert Split(a) == [a[..m]] + Split(a[m..]);
    }
  }

  /** A non-empty word without whitespace is one token. */
  lemma {:induction false} SplitWord(w: string)
    requires w != [] && forall k :: 0 <= k < |w| ==> !IsSpace(w[k])
    ensures Split(w) == [w]
  {
    var n := WordEnd(w);
    assert n == |w|;
    assert w[..n] == w && w[n..] == [];
  }

  /** `s.startswith(p)`. */
  predicate StartsWith(s: string, p: string) {
    |p| <= |s| && s[..|p|] == p
  }

  /** `p` occurs in `s` at offset `i`. */
  predicate OccursAt(s: string, p: string, i: int)
    requires 0 <= i <= |s| - |p|
  {
    s[i..i + |p|] == p
  }

  /** `p in s` for strings: `p` occurs in `s` at some offset. */
  predicate Contains(s: string, p: string) {
    exists i :: 0 <= i <= |s| - |p| && OccursAt(s, p, i)
  }

  /** `n` is the first index of `lines` whose line satisfies `p`. */
  predicate IsFirst(lines: seq<string>, p: string -> bool, n: int) {
    0 <= n < |lines| && p(lines[n]) && forall m :: 0 <= m < n ==> !p(lines[m])
  }

  /** `[n for n, ln in enumerate(lines) if p(ln)]`. */
  function IndicesWhere(lines: seq<string>, p: string -> bool): (r: seq<nat>)
    ensures forall k :: 0 <= k < |r| ==> r[k] < |lines| && p(lines[r[k]])
    ensures forall n :: 0 <= n < |lines| && p(lines[n]) ==> n in r
    ensures forall k, k' :: 0 <= k < k' < |r| ==> r[k] < r[k']
  {
    if |lines| == 0 then []
    else
      var r := IndicesWhere(lines[..|lines| - 1], p);
      assert forall n :: 0 <= n < |lines| - 1 ==> lines[..|lines| - 1][n] == lines[n];
      if p(lines[|lines| - 1]) then r + [|lines| - 1] else r
  }

  /** `[n for ... if p(ln)][0]`: the search raises IndexError when no line matches, and otherwise
      yields the first matching index. */
  lemma FirstIndex(lines: seq<string>, p: string -> bool)
    ensures IndicesWhere(lines, p) == [] <==> forall n :: 0 <= n < |lines| ==> !p(lines[n])
    ensures IndicesWhere(lines, p) != [] ==> IsFirst(lines, p, IndicesWhere(lines, p)[0])
  {
    var r := IndicesWhere(lines, p);
    if r != [] {
      assert p(lines[r[0]]);
      assert forall k :: 0 <= k < |r| ==> r[0] <= r[k];
    }
  }

  /** Python's normalisation of a slice bound against a sequence of length `len`. */
  function Clamp(i: int, len: nat): (r: nat)
    ensures r <= len
  {
    if i < 0 then (if i + len < 0 then 0 else i + len)
    else if i > len then len
    else i
  }

  /** `s[i:j]`. */
  function PySlice<X>(s: seq<X>, i: int, j: int): seq<X> {
    var lo, hi := Clamp(i, |s|), Clamp(j, |s|);
    if lo <= hi then s[lo..hi] else []
  }

  /** `s[i]`, negative indices counting from the end. */
  function PyIndex<X>(s: seq<X>, i: int): Result<X> {
    if 0 <= i < |s| then Ok(s[i])
    else if -|s| <= i < 0 then Ok(s[|s| + i])
    else Err(IndexOutOfRange)
  }

  /** Applies `f` to every element in order, stopping at the first exception, as a Python
      generator or a loop that appends does. Its meaning is `MapResultMeaning`. */
  function MapResult<A, B>(xs: seq<A>, f: A -> Result<B>): Result<seq<B>> {
    if |xs| == 0 then Ok([])
    else
      var r := MapResult(xs[..|xs| - 1], f);
      if r.Err? then r
      else
        var y := f(xs[|xs| - 1]);
        if y.Err? then Err(y.error) else Ok(r.value + [y.value])
  }

  /** The fold succeeds exactly when every element does, then holds every image in order;
      otherwise it raises the exception of the first element that raises. */
  lemma {:induction false} MapResultMeaning<A, B>(xs: seq<A>, f: A -> Result<B>)
    ensures var r := MapResult(xs, f);
      (r.Ok? <==> forall i :: 0 <= i < |xs| ==> f(xs[i]).Ok?) &&
      (r.Ok? ==> |r.value| == |xs| && forall i :: 0 <= i < |xs| ==> f(xs[i]) == Ok(r.value[i])) &&
      (r.Err? ==> exists i :: 0 <= i < |xs| && f(xs[i]) == Err(r.error) &&
                              forall i' :: 0 <= i' < i ==> f(xs[i']).Ok?)
  {
    if |xs| > 0 {
      var init := xs[..|xs| - 1];
      MapResultMeaning(init, f);
      assert forall i :: 0 <= i < |init| ==> init[i] == xs[i];
      var r := MapResult(init, f);
      if r.Err? {
        var i :| 0 <= i < |init| && f(init[i]) == Err(r.error) &&
                 forall i' :: 0 <= i' < i ==> f(init[i']).Ok?;
        assert f(xs[i]) == Err(r.error);
      } else if f(xs[|xs| - 1]).Err? {
        assert forall i' :: 0 <= i' < |xs| - 1 ==> f(xs[i']).Ok?;
      } else {
        var v := r.value + [f(xs[|xs| - 1]).value];
        assert forall i :: 0 <= i < |xs| ==> f(xs[i]) == Ok(v[i]);
      }
    }
  }

  /** A fold that succeeds holds the image of every element, in order. */
  lemma MapResultOk<A, B>(xs: seq<A>, f: A -> Result<B>, ys: seq<B>)
    requires MapResult(xs, f) == Ok(ys)
    ensures |ys| == |xs| && forall i :: 0 <= i < |xs| ==> f(xs[i]) == Ok(ys[i])
  {
    MapResultMeaning(xs, f);
  }

  /** One more pass of an appending loop: it appends the image of the next element, or raises
      that element's exception. */
  lemma MapResultStep<A, B>(xs: seq<A>, k: nat, f: A -> Result<B>, acc: seq<B>)
    requires k < |xs| && MapResult(xs[..k], f) == Ok(acc)
    ensures f(xs[k]).Ok? ==> MapResult(xs[..k + 1], f) == Ok(acc + [f(xs[k]).value])
    ensures f(xs[k]).Err? ==> MapResult(xs[..k + 1], f) == Err(f(xs[k]).error)
  {
    assert xs[..k + 1][..k] == xs[..k];
  }

  /** Once a prefix raises, the whole loop raises the same exception. */
  lemma {:induction false} MapResultPrefixErr<A, B>(xs: seq<A>, k: nat, f: A -> Result<B>)
    requires k <= |xs| && MapResult(xs[..k], f).Err?
    ensures MapResult(xs, f) == MapResult(xs[..k], f)
    decreases |xs|
  {
    if k < |xs| {
      var init := xs[..|xs| - 1];
      assert init[..k] == xs[..k];
      MapResultPrefixErr(init, k, f);
    } else {
      assert xs[..k] == xs;
    }
  }

  /** `int(t)` or `float(t)` for a parse function that yields None where Python raises ValueError. */
  function Literal<X>(parse: string -> Option<X>, t: string): Result<X> {
    match parse(t)
    case None => Err(InvalidLiteral(t))
    case Some(v) => Ok(v)
  }

  /** Token `k` is the first of `toks` that does not parse. */
  predicate FirstBad<X>(toks: seq<string>, parse: string -> Option<X>, k: int) {
    0 <= k < |toks| && parse(toks[k]).None? && forall k' :: 0 <= k' < k ==> parse(toks[k']).Some?
  }

  /** `tuple(parse(t) for t in toks)`. */
  function ParseAll<X>(toks: seq<string>, parse: string -> Option<X>): Result<seq<X>> {
    MapResult(toks, t => Literal(parse, t))
  }

  /** The tuple is built exactly when every token parses, and then holds their values in order;
      otherwise the first token that does not parse raises ValueError. */
  lemma ParseAllMeaning<X>(toks: seq<string>, parse: string -> Option<X>)
    ensures var r := ParseAll(toks, parse);
      (r.Ok? <==> forall i :: 0 <= i < |toks| ==> parse(toks[i]).Some?) &&
      (r.Ok? ==> |r.value| == |toks| && forall i :: 0 <= i < |toks| ==> parse(toks[i]) == Some(r.value[i])) &&
      (r.Err? ==> exists i :: 0 <= i < |toks| && parse(toks[i]).None? && r.error == InvalidLiteral(toks[i]) &&
                              forall i' :: 0 <= i' < i ==> parse(toks[i']).Some?)
  {
    MapResultMeaning(toks, t => Literal(parse, t));
    assert forall i :: 0 <= i < |toks| ==> (Literal(parse, toks[i]).Ok? <==> parse(toks[i]).Some?);
  }
}
