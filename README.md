# calculix-post `post.py` in Dafny

`post.py` post-processes CalculiX results for models written with
`*NODE FILE,OUTPUT=3D`, whose expanded 3D elements cannot carry their
displacements. It makes four passes:

- It reads the original node displacements from the `.dat` file (`read_displacements`).
- It reads the link between each original shell element and its expanded 3D element from the `.12d` log (`read_expansion`).
- It copies every original displacement to the expanded nodes (`new_displacements`). The first element that names an expanded node decides which value it gets.
- It inserts those values as FRD node records into a copy of the `.frd` file (`splice`).

The Dafny project models those four functions. It has one module per concern:

| file | module | models |
|---|---|---|
| `pylib.dfy` | `PyLib` | the Python built-ins the script relies on: `str.strip`, `str.split()`, `in` and `startswith` on strings, slicing and negative indexing, the `[n for n, ln in enumerate(lines) if …]` searches, and how an exception inside a loop or a generator aborts it |
| `displacements.dfy` | `Displacements` | `read_displacements`, a comprehension, as the function `ReadDisplacements` |
| `expansion.dfy` | `Expansions` | `read_expansion`, a loop that appends, as the method `ReadExpansion` |
| `propagation.dfy` | `Propagation` | `new_displacements`, two nested loops that fill a dictionary, as the methods `NewDisplacements` and `FillRecord` |
| `splice.dfy` | `FrdSplice` | `splice`, a loop building record lines, then list concatenation, as the method `Splice` |

A Python expression evaluates to `Result<T>`. This is either `Ok(value)` or `Err(error)`, where the error names the exception kind:
- `MarkerNotFound`: the `IndexError` of `[...][0]` on an empty search.
- `IndexOutOfRange`: any other `IndexError`.
- `KeyNotFound`: the `KeyError` of `mapping[x]`.
- `InvalidLiteral`: the `ValueError` of `int()`/`float()`.
- `WrongOffset`: the script's own `ValueError('wrong offset')`.
- `UnpackMismatch`: the `ValueError` of unpacking `(dx, dy, dz)`.

Six things are represented rather than implemented:
- **The files.** Each reader takes the list that `readlines()` returns.
- **`float()` and `int()`.** They are parameters `string -> Option<_>` that give `None` where Python raises.
- **Displacement components.** They are an opaque type `F`, and a node's displacement is the tuple `seq<F>`.
- **The `: 11.5E` format.** It is a parameter `fmt: F -> string`.
- **The Python dictionary `newdisp`.** It is a value `Dict(entries, order)`: the map plus its insertion order.
- **The `SimpleNamespace` records.** They are the datatype `Expansions.Expansion(element, orig, expanded)`, where `expanded` is the namespace's `new`.

Each method is proved equal to a function of its inputs:
- `ReadExpansion` to `MapResult(IndicesWhere(...), RecordParser(...))`.
- `FillRecord` to `FillSlots`.
- `NewDisplacements` to `Propagate`.
- `Splice` to `Spliced`.

The lemmas then state what those functions promise.

Three behaviours of the code are worth stating plainly:
- **Row length.** The docstring of `read_displacements` (post.py:40) promises 3-tuples. The code (post.py:50) keeps every token of a row after the first, however many there are. A value of another length raises `ValueError` only if it reaches `splice` (post.py:132), that is, only if some slot that first names a node copies it (`Propagation.PropagateValue`, `FrdSplice.SpliceRecordsErr`).
- **Number of slots.** `new_displacements` visits every entry of `new` (post.py:114). It looks up `mapping[x]` only when the slot's node has no value yet (post.py:115). So a slot beyond 14 raises `KeyError` only when its node has no value yet (`Propagation.SlotValue`, `Propagation.PropagateRaises`). Otherwise it is skipped.
- **No `ELEMENT` line.** A `.12d` log without an `ELEMENT` line gives an empty tuple.

## Model

| member | source | states |
|---|---|---|
| PyLib.TrimStartMeaning | post.py:44 | the left half of `ln.strip()` removes a run of whitespace only, and what it keeps does not start with whitespace (so the run removed is the longest) |
| PyLib.TrimEndMeaning | post.py:44 | the right half of `ln.strip()` removes a run of trailing whitespace only, and what it keeps does not end with whitespace |
| PyLib.WordEnd | post.py:50 | the first token of a line ends at the first whitespace character or at the end of the line |
| PyLib.SplitTokens | post.py:50 | every token of `ln.split()` is non-empty and holds no whitespace |
| PyLib.SplitKeepsText | post.py:50 | `ln.split()` loses exactly the whitespace: its tokens, joined, are the non-whitespace characters of the line in order |
| PyLib.NonSpaceAppend | post.py:50 | dropping whitespace from a concatenation drops it from each part |
| PyLib.NonSpaceOfWord | post.py:50 | a token without whitespace is kept whole |
| PyLib.WordEndAppend | post.py:50 | a token that has ended is not extended by what follows it |
| PyLib.SplitAtSpace | post.py:50 | a whitespace character separates tokens: `(a + c + b).split()` is `a.split() + b.split()` |
| PyLib.SplitWord | post.py:50 | a non-empty word without whitespace splits into itself alone |
| PyLib.IndicesWhere | post.py:46 | the search `[n for n, ln in enumerate(lines) if …]` lists, in ascending order, exactly the indices of the matching lines |
| PyLib.FirstIndex | post.py:46 | `[...][0]` raises exactly when no line matches, and otherwise is the first matching line |
| PyLib.Clamp | post.py:50 | a slice bound is normalised into the range of the list |
| PyLib.MapResultMeaning | post.py:50 | a generator or appending loop succeeds exactly when every element does, then holds every image in order; otherwise it raises the exception of the first element that raises |
| PyLib.MapResultOk | post.py:50 | a loop that succeeds holds one image per element, in order |
| PyLib.MapResultStep | post.py:75-81 | one more pass of an appending loop appends the next element's image, or raises that element's exception |
| PyLib.MapResultPrefixErr | post.py:75-81 | an exception raised on an element ends the whole loop with that exception |
| PyLib.ParseAllMeaning | post.py:78 | `tuple(int(i) for i in …split())` succeeds exactly when every token parses, holds their values in order, and otherwise raises ValueError for the first bad token |
| Displacements.ParseRowMeaning | post.py:50 | a row succeeds exactly when every token after the node number parses; it then holds those values in order (one fewer than the tokens), and it can only raise ValueError |
| Displacements.RowsRaiseInvalidLiteral | post.py:50 | reading the rows of the block raises nothing but ValueError |
| Displacements.ReadRaisesMarker | post.py:44-52 | the read raises IndexError for a marker exactly when that marker's search does |
| Displacements.BlockMissingEnergy | post.py:46 | the `energy` search runs first and raises exactly when no line mentions `energy` |
| Displacements.BlockMissingDisplacements | post.py:46-49 | with `energy` present, the read raises for `displacements` exactly when no line mentions it |
| Displacements.MissingEnergy | post.py:43-46 | `read_displacements` raises IndexError for `energy` exactly when no stripped line of the file mentions `energy` |
| Displacements.MissingDisplacements | post.py:43-49 | with an `energy` line present, it raises IndexError for `displacements` exactly when no stripped line mentions `displacements` |
| Displacements.BlockBounds | post.py:46-50 | the block is the lines from two after the first `displacements` line up to one before the first `energy` line (the last line when `energy` is on line 0), and is empty when that range is |
| Displacements.RowsBlock | post.py:50 | reading the lines `lines[lo:hi]` raises exactly when one of them does not parse, and otherwise yields row `n - lo` from line `n` |
| Displacements.DisplacementBlock | post.py:43-52 | `read_displacements` returns exactly when every line of the block parses, and then returns one row per block line, in file order, with the node number dropped |
| Expansions.ParseRecordLayout | post.py:76-81 | a record exists exactly when lines `i`..`i+4` exist, line `i` has a second token and every token read parses; its `element` is token 1 of line `i`, `orig` the integers of line `i+1`, `new` those of line `i+3` followed by those of line `i+4` |
| Expansions.ParseLineRaises | post.py:78-80 | reading line `j` as integers succeeds exactly when the line exists and all its tokens parse; otherwise IndexError for a missing line, else ValueError for its first bad token |
| Expansions.ParseRecordRaises | post.py:77-80 | the exception a record raises follows Python's evaluation order: IndexError without a second token on line `i`, ValueError for a bad id, then the exception of line `i+1`, then `i+3`, then `i+4`, the first that raises |
| Expansions.ParseRecordSkipsThirdLine | post.py:77-80 | line `i+2` of a block is never read: replacing it leaves the record unchanged |
| Expansions.RecordLoopMeaning | post.py:73-82 | one record per `ELEMENT` line, in file order, or the first exception a record raises |
| Expansions.ReadExpansion | post.py:71-82 | the loop over the `ELEMENT` lines returns exactly the records of `RecordLoopMeaning`, or the first exception |
| Propagation.SlotMapShape | post.py:107-110 | the `mapping` table has exactly the keys 0..14, and its values lie in 0..5 |
| Propagation.Insert | post.py:116 | storing a missing key adds exactly that entry and appends the key to the dictionary's order, keeping the keys distinct |
| Propagation.Visit | post.py:115-116 | one slot keeps the dictionary well formed |
| Propagation.FillSlots | post.py:114-116 | the inner loop keeps the dictionary well formed |
| Propagation.FillRecords | post.py:111-116 | the outer loop keeps the dictionary well formed |
| Propagation.InsertSorted | post.py:117 | inserting a new key into an ascending list keeps it ascending and adds exactly that key |
| Propagation.Sort | post.py:117 | `sorted(list(newdisp.keys()))` is strictly ascending and has exactly the keys, each once |
| Propagation.SortedPairs | post.py:117-118 | the result lists every dictionary entry exactly once, with its value, in strictly ascending order of node id |
| Propagation.NodesBeforeMeaning | post.py:112-114 | a node belongs to the first `j` records exactly when one of their `new` lists names it |
| Propagation.FillSlotsKeys | post.py:114-116 | the inner loop only adds keys, namely the visited nodes, and leaves existing entries untouched (`if n not in newdisp`) |
| Propagation.FillSlotsOk | post.py:114-116 | a visited slot whose node was new gives that node the value of its own lookup |
| Propagation.FillSlotsErr | post.py:114-116 | once a lookup raises, the record ends with that exception |
| Propagation.FillRecordsErr | post.py:112-116 | once a record raises, no later record is processed |
| Propagation.FillRecordsOk | post.py:111-116 | after `j` records the dictionary holds exactly their nodes, each with the value `orig[org[mapping[x]]-1]` of the first slot (first record, then first position) naming it |
| Propagation.FillSlotsSucceeds | post.py:114-116 | the inner loop succeeds when every slot that first names its node can be looked up |
| Propagation.LookupsSucceed | post.py:112-116 | the outer loop succeeds when every slot that first names its node can be looked up |
| Propagation.FillRecordsSucceeds | post.py:111-116 | the loops succeed exactly when every first-naming slot can be looked up; a slot whose node already has a value is never evaluated |
| Propagation.FirstSeenExists | post.py:112-116 | every expanded node has a first slot that names it |
| Propagation.FirstPositionExists | post.py:114 | a value in a list has a first position |
| Propagation.PropagateSucceeds | post.py:107-118 | `new_displacements` raises exactly when some first-naming slot lies beyond the table, reads an original slot missing from `org`, or names a node out of range of `orig` |
| Propagation.RecordsKeys | post.py:111-116 | after `j` records the dictionary's keys are exactly their nodes |
| Propagation.SlotsBeforeFailing | post.py:114-116 | in the record of the first failing slot, the slots before it succeed and leave its node without a value |
| Propagation.PropagateRaises | post.py:112-116 | `new_displacements` raises exactly the exception of the first slot, in record-then-slot order, that first names its node and whose `orig[org[mapping[x]]-1]` raises |
| Propagation.LastSlotFails | post.py:114-116 | when the inner loop first raises at slot `x`, slot `x` is new and is the first new slot whose lookup raises |
| Propagation.FillSlotsFailing | post.py:114-116 | an inner loop that raises has a first new slot whose lookup raises |
| Propagation.RecordFailing | post.py:112-116 | a record that raises after successful earlier records holds the first failing slot |
| Propagation.FillRecordsFailing | post.py:112-116 | an outer loop that raises has a first failing slot among the records processed |
| Propagation.PropagateErrorSlot | post.py:111-118 | whenever `new_displacements` raises, a first failing slot exists and its exception is the one raised |
| Propagation.PropagateNodes | post.py:111-118 | the result's node ids are strictly ascending (so without duplicates), and they are exactly the nodes of all the records' `new` lists |
| Propagation.PropagateValue | post.py:112-118 | the value listed for a node is the lookup of the slot that names it first: first-seen wins |
| Propagation.WellFormedSucceeds | post.py:107-118 | with at least six original nodes and at most fifteen expanded ones per record, and original ids between 1 and the number of displacements, `new_displacements` does not raise |
| Propagation.FillRecord | post.py:114-116 | the inner loop computes `FillSlots` over all slots of the record |
| Propagation.NewDisplacements | post.py:85-118 | the method computes `Propagate`, whose properties are the lemmas above |
| FrdSplice.Digits | post.py:133 | the digits of a node number are decimal digits, without a leading zero |
| FrdSplice.DigitsRoundTrip | post.py:133 | reading back the digits of a natural number gives the number |
| FrdSplice.DecimalRoundTrip | post.py:133 | reading back `format(node, 'd')` gives `node`, negative ones included, and the text never starts with whitespace |
| FrdSplice.DigitsLength | post.py:133 | a number below `10^k` has at most `k` digits |
| FrdSplice.DecimalWidth | post.py:133 | every node number from -999999999 to 9999999999 prints in at most ten characters |
| FrdSplice.RightJustify | post.py:133 | `{s:>w}` is `s` after blanks, exactly `w` long when `s` is shorter, never cut |
| FrdSplice.TrimPadding | post.py:133 | left-stripping a blank padding gives back the padded text |
| FrdSplice.NodeFieldRoundTrip | post.py:133 | the `{node:>10d}` field is at least ten columns wide, exactly ten for a node that fits, and reads back as the node |
| FrdSplice.RecordLine | post.py:132-133 | a record line exists exactly when the value has three components, and otherwise the unpacking raises ValueError naming its size |
| FrdSplice.Columns | post.py:133 | where `-1`, the node field, the three components and the newline lie on a record line |
| FrdSplice.FieldLayout | post.py:133 | a record line with a ten-column node field has the fixed FRD column layout |
| FrdSplice.RecordLayout | post.py:133 | a record of a node that fits is the FRD line ` -1`, then the node read back from columns 4-13, then the three formatted components in order, then a newline |
| FrdSplice.SpliceIndexMeaning | post.py:127-130 | the anchor is five lines after the first `DISP` line; the splice raises IndexError when the file ends before it, and ValueError `wrong offset` naming it when the stripped line there does not start with `-3` |
| FrdSplice.SpliceMissingMarker | post.py:127 | the splice raises IndexError for `DISP` exactly when no line mentions `DISP` |
| FrdSplice.SpliceRecordsErr | post.py:131-133 | after the anchor check, the splice succeeds exactly when every value has three components, and otherwise raises for the first one that does not |
| FrdSplice.InsertLayout | post.py:134-136 | `xs[:i] + ys + xs[i:]` keeps `xs` before and after the inserted block |
| FrdSplice.SpliceLayout | post.py:127-136 | the output has one line more per record; the lines before the anchor are kept, record `k` is line `anchor + k`, the old lines from the anchor on follow shifted, and removing the records gives back the input |
| FrdSplice.Splice | post.py:121-138 | the method computes `Spliced`: `lines[:idx] + records + lines[idx:]`, or the first exception |

## Left out

- File I/O: `open`, `readlines` and `writelines` are not modelled. The readers take the list of lines, and `Splice` returns the lines that `splice` would write to `<base>-post.frd`.
- `float()`, `int()` and the `: 11.5E` format are left abstract, as parameters. Floating-point arithmetic is never done, because the script only copies values.
- FrdSplice.RecordLayout: it states the column layout only for node numbers that fit in ten columns (greater than -1000000000 and less than 10000000000). For larger ones the field grows, which `FrdSplice.NodeFieldRoundTrip` also states.
- FrdSplice.RecordLayout: it does not state the widths of the formatted components, since the format is abstract.
- `main`, the `argv` check, the usage text and `sys.exit` are not modelled. They are the command-line wrapper around the four passes.
- The text of exception messages and tracebacks is not modelled: an error is identified by its kind and its key data, such as the marker, the key, the literal, the index or the size.
- `types.SimpleNamespace` is replaced by the datatype `Expansion`, because no attribute other than the three fields is ever used.
- A `TypeError` cannot occur in the model, because its types rule out values of the wrong type. In Python, a non-tuple value would raise it.
