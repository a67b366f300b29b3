/**
 Copying displacements from the original nodes to the expanded nodes
 (post.py `new_displacements`). Every expanded node takes the displacement
 of one original node of the element it belongs to, chosen through a fixed
 table of local slots; the first element (and, in it, the first slot) that
 names a node decides its value, later ones are ignored. The result lists
 the nodes in ascending order.

 A displacement is an opaque value `T`: the code only copies it.
 */
module Propagation {
  import opened PyLib
  import opened Expansions

  /** `mapping`: local slot of an expanded 15-node element to the local slot of the original 6-node element. */
  const SlotMap: map<int, int> :=
    map[0 := 0, 1 := 1, 2 := 2, 3 := 0, 4 := 1, 5 := 2, 6 := 3, 7 := 4,
        8 := 5, 9 := 3, 10 := 4, 11 := 5, 12 := 0, 13 := 1, 14 := 2]

  /** The table's keys are exactly the slots 0..14 and its values are slots 0..5. */
  lemma SlotMapShape()
    ensures forall x :: x in SlotMap <==> 0 <= x < 15
    ensures forall x :: x in SlotMap ==> 0 <= SlotMap[x] < 6
  {
  }

  /** `orig[org[mapping[x]] - 1]`: the displacement that slot `x` of `e` copies, or the exception
      evaluating it raises; node ids index the displacements from 1, and Python's negative
      indexing applies to an id of 0 or below. */
  function SlotValue<T>(orig: seq<T>, e: Expansion, x: int): Result<T> {
    if x !in SlotMap then Err(KeyNotFound(x))
    else
      var node := PyIndex(e.orig, SlotMap[x]);
      if node.Err? then Err(node.error) else PyIndex(orig, node.value - 1)
  }

  /** A Python dictionary keyed by node id: its entries, and its keys in the order they were
      inserted, which is the order `keys()` lists them in. */
  datatype Dict<T> = Dict(entries: map<int, T>, order: seq<int>)

  predicate Distinct(s: seq<int>) {
    forall i, j :: 0 <= i < j < |s| ==> s[i] != s[j]
  }

  /** The listed keys are those of the entries, each once. */
  predicate DictValid<T>(d: Dict<T>) {
    Distinct(d.order) && (forall n :: n in d.entries ==> n in d.order) && (forall n :: n in d.order ==> n in d.entries)
  }

  /** `d[n] = v` for a key `n` that `d` lacks: the key goes to the end of the order. */
  function Insert<T>(d: Dict<T>, n: int, v: T): (r: Dict<T>)
    requires DictValid(d) && n !in d.entries
    ensures DictValid(r)
    ensures r.entries == d.entries[n := v]
    ensures r.order == d.order + [n]
  {
    var r := Dict(d.entries[n := v], d.order + [n]);
    assert forall i :: 0 <= i < |d.order| ==> r.order[i] == d.order[i];
    r
  }

  /** One pass of the inner loop: insert slot `x`'s value unless its node already has one. */
  function Visit<T>(orig: seq<T>, e: Expansion, x: nat, acc: Dict<T>): (r: Result<Dict<T>>)
    requires x < |e.expanded| && DictValid(acc)
    ensures r.Ok? ==> DictValid(r.value)
  {
    var n := e.expanded[x];
    if n in acc.entries then Ok(acc)
    else
      var v := SlotValue(orig, e, x);
      if v.Err? then Err(v.error) else Ok(Insert(acc, n, v.value))
  }

  /** The dictionary after the inner loop has visited slots `0..k-1` of `e`, starting from `acc`. */
  function FillSlots<T>(orig: seq<T>, e: Expansion, k: nat, acc: Dict<T>): (r: Result<Dict<T>>)
    requires k <= |e.expanded| && DictValid(acc)
    ensures r.Ok? ==> DictValid(r.value)
  {
    if k == 0 then Ok(acc)
    else
      var m := FillSlots(orig, e, k - 1, acc);
      if m.Err? then m else Visit(orig, e, k - 1, m.value)
  }

  /** The dictionary `newdisp` after the outer loop has handled records `0..j-1`. */
  function FillRecords<T>(orig: seq<T>, recs: seq<Expansion>, j: nat): (r: Result<Dict<T>>)
    requires j <= |recs|
    ensures r.Ok? ==> DictValid(r.value)
  {
    if j == 0 then Ok(Dict(map[], []))
    else
      var m := FillRecords(orig, recs, j - 1);
      if m.Err? then m else FillSlots(orig, recs[j - 1], |recs[j - 1].expanded|, m.value)
  }

  predicate StrictlyIncreasing(s: seq<int>) {
    forall i, j :: 0 <= i < j < |s| ==> s[i] < s[j]
  }

  /** Putting a smaller element in front keeps a sequence increasing. */
  lemma ConsIncreasing(m: int, t: seq<int>)
    requires StrictlyIncreasing(t) && (|t| > 0 ==> m < t[0])
    ensures StrictlyIncreasing([m] + t)
  {
    var r := [m] + t;
    forall i, j | 0 <= i < j < |r| ensures r[i] < r[j] {
      assert r[j] == t[j - 1];
      if i > 0 {
        assert r[i] == t[i - 1];
      }
    }
  }

  /** Puts `x` into its place in an ascending sequence that lacks it. */
  function InsertSorted(x: int, s: seq<int>): (r: seq<int>)
    requires StrictlyIncreasing(s) && x !in s
    ensures StrictlyIncreasing(r)
    ensures forall y :: y in r <==> y == x || y in s
    ensures |r| == |s| + 1
  {
    if s == [] || x < s[0] then
      ConsIncreasing(x, s);
      [x] + s
    else
      var t := InsertSorted(x, s[1..]);
      assert t[0] in t;
      ConsIncreasing(s[0], t);
      [s[0]] + t
  }

  /** `sorted(keys)` on a list of distinct keys: the same keys, ascending. */
  function Sort(s: seq<int>): (r: seq<int>)
    requires Distinct(s)
    ensures StrictlyIncreasing(r)
    ensures forall y :: y in r <==> y in s
    ensures |r| == |s|
  {
    if s == [] then []
    else
      assert forall k :: 0 <= k < |s| - 1 ==> s[1..][k] == s[k + 1];
      InsertSorted(s[0], Sort(s[1..]))
  }

  /** `tuple((i, newdisp[i]) for i in sorted(list(newdisp.keys())))`: every entry of the dictionary,
      once, in ascending order of node id. */
  function SortedPairs<T>(d: Dict<T>): (r: seq<(int, T)>)
    requires DictValid(d)
    ensures |r| == |d.order|
    ensures forall i, j :: 0 <= i < j < |r| ==> r[i].0 < r[j].0
    ensures forall i :: 0 <= i < |r| ==> r[i].0 in d.entries && r[i].1 == d.entries[r[i].0]
    ensures forall n :: n in d.entries ==> exists i :: 0 <= i < |r| && r[i].0 == n
  {
    var ks := Sort(d.order);
    assert forall i :: 0 <= i < |ks| ==> ks[i] in ks;
    var r := seq(|ks|, i requires 0 <= i < |ks| => (ks[i], d.entries[ks[i]]));
    forall n | n in d.entries ensures exists i :: 0 <= i < |r| && r[i].0 == n {
      var i :| 0 <= i < |ks| && ks[i] == n;
      assert r[i].0 == n;
    }
    r
  }

  /** What post.py `new_displacements` returns or raises. */
  function Propagate<T>(orig: seq<T>, recs: seq<Expansion>): Result<seq<(int, T)>> {
    var m := FillRecords(orig, recs, |recs|);
    if m.Err? then Err(m.error) else Ok(SortedPairs(m.value))
  }

  /** The elements of a sequence, as a set. */
  function Elements(s: seq<int>): set<int> {
    set n | n in s
  }

  /** The expanded node ids of records `0..j-1`. */
  function NodesBefore(recs: seq<Expansion>, j: nat): set<int>
    requires j <= |recs|
  {
    if j == 0 then {} else NodesBefore(recs, j - 1) + Elements(recs[j - 1].expanded)
  }

  /** A node belongs to the first `j` records exactly when one of them names it. */
  lemma {:induction false} NodesBeforeMeaning(recs: seq<Expansion>, j: nat, n: int)
    requires j <= |recs|
    ensures n in NodesBefore(recs, j) <==> exists i :: 0 <= i < j && n in recs[i].expanded
  {
    if j > 0 {
      NodesBeforeMeaning(recs, j - 1, n);
    }
  }

  /** Slot `x` of record `j` is the first place, in record order and then slot order, that names its node. */
  predicate FirstSeen(recs: seq<Expansion>, j: nat, x: nat)
    requires j < |recs| && x < |recs[j].expanded|
  {
    recs[j].expanded[x] !in NodesBefore(recs, j) && recs[j].expanded[x] !in recs[j].expanded[..x]
  }

  /** `m` is `acc` with entries added for the nodes of `nodes` (and no others), the entries of `acc`
      untouched. */
  ghost predicate Extends<T>(m: map<int, T>, acc: map<int, T>, nodes: seq<int>) {
    (forall n :: n in m <==> n in acc || n in nodes) && (forall n :: n in acc ==> m[n] == acc[n])
  }

  /** The inner loop only adds entries: the keys are those of `acc` plus the nodes of the visited
      slots, and entries already present keep their value. */
  lemma {:induction false} FillSlotsKeys<T>(orig: seq<T>, e: Expansion, k: nat, acc: Dict<T>)
    requires k <= |e.expanded| && DictValid(acc) && FillSlots(orig, e, k, acc).Ok?
    ensures Extends(FillSlots(orig, e, k, acc).value.entries, acc.entries, e.expanded[..k])
  {
    if k == 0 {
      assert e.expanded[..0] == [];
    } else {
      var d0 := FillSlots(orig, e, k - 1, acc).value;
      FillSlotsKeys(orig, e, k - 1, acc);
      var m0 := d0.entries;
      var n := e.expanded[k - 1];
      var m := FillSlots(orig, e, k, acc).value.entries;
      assert FillSlots(orig, e, k, acc) == Visit(orig, e, k - 1, d0);
      assert e.expanded[..k] == e.expanded[..k - 1] + [n];
      if n in m0 {
        assert m == m0;
      } else {
        assert n !in acc.entries;
        assert m == m0[n := SlotValue(orig, e, k - 1).value];
      }
    }
  }

  /** Every visited slot whose node is new, in `acc` and in the earlier slots, gave the node its value in `m`. */
  ghost predicate FirstSlotsHold<T>(orig: seq<T>, e: Expansion, k: nat, acc: map<int, T>, m: map<int, T>)
    requires k <= |e.expanded|
  {
    forall x {:trigger SlotValue(orig, e, x)} :: 0 <= x < k && e.expanded[x] !in acc && e.expanded[x] !in e.expanded[..x] ==>
      e.expanded[x] in m && SlotValue(orig, e, x) == Ok(m[e.expanded[x]])
  }

  /** Besides `FillSlotsKeys`: a visited slot whose node is new, in `acc` and in the earlier slots,
      gives the node its value. */
  lemma {:induction false} FillSlotsOk<T>(orig: seq<T>, e: Expansion, k: nat, acc: Dict<T>)
    requires k <= |e.expanded| && DictValid(acc) && FillSlots(orig, e, k, acc).Ok?
    ensures Extends(FillSlots(orig, e, k, acc).value.entries, acc.entries, e.expanded[..k])
    ensures FirstSlotsHold(orig, e, k, acc.entries, FillSlots(orig, e, k, acc).value.entries)
  {
    FillSlotsKeys(orig, e, k, acc);
    if k > 0 {
      FillSlotsOk(orig, e, k - 1, acc);
      var d0 := FillSlots(orig, e, k - 1, acc).value;
      var m0 := d0.entries;
      var m := FillSlots(orig, e, k, acc).value.entries;
      var n := e.expanded[k - 1];
      assert FillSlots(orig, e, k, acc) == Visit(orig, e, k - 1, d0);
      assert Extends(m0, acc.entries, e.expanded[..k - 1]);
      assert FirstSlotsHold(orig, e, k - 1, acc.entries, m0);
      forall x | 0 <= x < k && e.expanded[x] !in acc.entries && e.expanded[x] !in e.expanded[..x]
        ensures e.expanded[x] in m && SlotValue(orig, e, x) == Ok(m[e.expanded[x]])
      {
        if x < k - 1 {
          var v := SlotValue(orig, e, x);
          assert e.expanded[x] in e.expanded[..k - 1];
          assert e.expanded[x] in m0 && v == Ok(m0[e.expanded[x]]);
        } else {
          assert e.expanded[..x] == e.expanded[..k - 1];
          assert n !in m0;
        }
      }
    }
  }

  /** Once the inner loop raises, it raises that exception to the end of the record. */
  lemma {:induction false} FillSlotsErr<T>(orig: seq<T>, e: Expansion, k: nat, k': nat, acc: Dict<T>)
    requires k <= k' <= |e.expanded| && DictValid(acc) && FillSlots(orig, e, k, acc).Err?
    ensures FillSlots(orig, e, k', acc) == FillSlots(orig, e, k, acc)
    decreases k' - k
  {
    if k < k' {
      FillSlotsErr(orig, e, k, k' - 1, acc);
    }
  }

  /** Once the outer loop raises, no later record is processed. */
  lemma {:induction false} FillRecordsErr<T>(orig: seq<T>, recs: seq<Expansion>, j: nat, j': nat)
    requires j <= j' <= |recs| && FillRecords(orig, recs, j).Err?
    ensures FillRecords(orig, recs, j') == FillRecords(orig, recs, j)
    decreases j' - j
  {
    if j < j' {
      FillRecordsErr(orig, recs, j, j' - 1);
    }
  }

  /** After records `0..j-1`, the dictionary holds exactly their nodes, and each node holds the value
      of the slot that named it first. */
  lemma {:induction false} FillRecordsOk<T>(orig: seq<T>, recs: seq<Expansion>, j: nat)
    requires j <= |recs| && FillRecords(orig, recs, j).Ok?
    ensures var m := FillRecords(orig, recs, j).value.entries;
      (forall n :: n in m <==> n in NodesBefore(recs, j)) &&
      forall i, x {:trigger SlotValue(orig, recs[i], x)} :: 0 <= i < j && 0 <= x < |recs[i].expanded| && FirstSeen(recs, i, x) ==>
        recs[i].expanded[x] in m && SlotValue(orig, recs[i], x) == Ok(m[recs[i].expanded[x]])
  {
    if j > 0 {
      FillRecordsOk(orig, recs, j - 1);
      var d0 := FillRecords(orig, recs, j - 1).value;
      var m0 := d0.entries;
      var e := recs[j - 1];
      var m := FillRecords(orig, recs, j).value.entries;
      assert FillRecords(orig, recs, j) == FillSlots(orig, e, |e.expanded|, d0);
      FillSlotsOk(orig, e, |e.expanded|, d0);
      assert e.expanded[..|e.expanded|] == e.expanded;
      forall i, x | 0 <= i < j && 0 <= x < |recs[i].expanded| && FirstSeen(recs, i, x)
        ensures recs[i].expanded[x] in m && SlotValue(orig, recs[i], x) == Ok(m[recs[i].expanded[x]])
      {
        var n := recs[i].expanded[x];
        if i == j - 1 {
          assert n !in m0 && n !in e.expanded[..x];
          assert SlotValue(orig, e, x) == Ok(m[n]);
        } else {
          assert 0 <= i < j - 1;
          var v := SlotValue(orig, recs[i], x);
          assert FirstSeen(recs, i, x);
          assert n in m0 && v == Ok(m0[n]);
        }
      }
    }
  }

  /** The inner loop succeeds when every slot that is first to name its node can be looked up. */
  lemma {:induction false} FillSlotsSucceeds<T>(orig: seq<T>, e: Expansion, k: nat, acc: Dict<T>)
    requires k <= |e.expanded| && DictValid(acc)
    requires forall x {:trigger SlotValue(orig, e, x)} :: 0 <= x < k && e.expanded[x] !in acc.entries && e.expanded[x] !in e.expanded[..x] ==>
               SlotValue(orig, e, x).Ok?
    ensures FillSlots(orig, e, k, acc).Ok?
  {
    if k > 0 {
      FillSlotsSucceeds(orig, e, k - 1, acc);
      var d0 := FillSlots(orig, e, k - 1, acc).value;
      FillSlotsKeys(orig, e, k - 1, acc);
      var n := e.expanded[k - 1];
      assert FillSlots(orig, e, k, acc) == Visit(orig, e, k - 1, d0);
      if n !in d0.entries {
        assert Extends(d0.entries, acc.entries, e.expanded[..k - 1]);
        assert n !in acc.entries && n !in e.expanded[..k - 1];
        assert SlotValue(orig, e, k - 1).Ok?;
      }
    }
  }

  /** The outer loop gets through records `0..j-1` when every slot that is first to name its node
      can be looked up. */
  lemma {:induction false} LookupsSucceed<T>(orig: seq<T>, recs: seq<Expansion>, j: nat)
    requires j <= |recs|
    requires forall i, x {:trigger SlotValue(orig, recs[i], x)} ::
      0 <= i < j && 0 <= x < |recs[i].expanded| && FirstSeen(recs, i, x) ==> SlotValue(orig, recs[i], x).Ok?
    ensures FillRecords(orig, recs, j).Ok?
  {
    if j > 0 {
      LookupsSucceed(orig, recs, j - 1);
      var prev := FillRecords(orig, recs, j - 1).value;
      var e := recs[j - 1];
      FillRecordsOk(orig, recs, j - 1);
      forall x | 0 <= x < |e.expanded| && e.expanded[x] !in prev.entries && e.expanded[x] !in e.expanded[..x]
        ensures SlotValue(orig, e, x).Ok?
      {
        var n := e.expanded[x];
        assert n in prev.entries <==> n in NodesBefore(recs, j - 1);
        assert FirstSeen(recs, j - 1, x);
      }
      FillSlotsSucceeds(orig, e, |e.expanded|, prev);
    }
  }

  /** `new_displacements` gets through records `0..j-1` exactly when every slot that is first to name
      its node can be looked up (a slot beyond the table, an original slot missing from `orig` and a
      node id out of range all raise); a slot whose node already has a value is never looked up. */
  lemma FillRecordsSucceeds<T>(orig: seq<T>, recs: seq<Expansion>, j: nat)
    requires j <= |recs|
    ensures FillRecords(orig, recs, j).Ok? <==>
      forall i, x {:trigger SlotValue(orig, recs[i], x)} :: 0 <= i < j && 0 <= x < |recs[i].expanded| && FirstSeen(recs, i, x) ==>
        SlotValue(orig, recs[i], x).Ok?
  {
    if FillRecords(orig, recs, j).Ok? {
      FillRecordsOk(orig, recs, j);
    }
    if forall i, x {:trigger SlotValue(orig, recs[i], x)} ::
         0 <= i < j && 0 <= x < |recs[i].expanded| && FirstSeen(recs, i, x) ==> SlotValue(orig, recs[i], x).Ok?
    {
      LookupsSucceed(orig, recs, j);
    }
  }

  /** Every expanded node of records `0..j-1` has a first slot that names it. */
  lemma {:induction false} FirstSeenExists(recs: seq<Expansion>, j: nat, n: int)
    requires j <= |recs| && n in NodesBefore(recs, j)
    ensures exists i, x :: 0 <= i < j && 0 <= x < |recs[i].expanded| && recs[i].expanded[x] == n && FirstSeen(recs, i, x)
  {
    if n in NodesBefore(recs, j - 1) {
      FirstSeenExists(recs, j - 1, n);
      var i, x :| 0 <= i < j - 1 && 0 <= x < |recs[i].expanded| && recs[i].expanded[x] == n && FirstSeen(recs, i, x);
    } else {
      var e := recs[j - 1];
      FirstPositionExists(e.expanded, n);
      var x :| 0 <= x < |e.expanded| && e.expanded[x] == n && n !in e.expanded[..x];
      assert FirstSeen(recs, j - 1, x);
    }
  }

  /** The least position of `n` in `s`. */
  lemma {:induction false} FirstPositionExists(s: seq<int>, n: int)
    requires n in s
    ensures exists x :: 0 <= x < |s| && s[x] == n && n !in s[..x]
  {
    if s[0] == n {
      assert s[..0] == [];
    } else {
      FirstPositionExists(s[1..], n);
      var x :| 0 <= x < |s| - 1 && s[1..][x] == n && n !in s[1..][..x];
      assert s[..x + 1] == [s[0]] + s[1..][..x];
    }
  }


  /** `new_displacements` raises exactly when some slot that is first to name its node cannot be
      looked up. */
  lemma PropagateSucceeds<T>(orig: seq<T>, recs: seq<Expansion>)
    ensures Propagate(orig, recs).Ok? <==>
      forall i, x {:trigger SlotValue(orig, recs[i], x)} :: 0 <= i < |recs| && 0 <= x < |recs[i].expanded| && FirstSeen(recs, i, x) ==>
        SlotValue(orig, recs[i], x).Ok?
  {
    FillRecordsSucceeds(orig, recs, |recs|);
  }

  /** Slot `x` of record `i` is the first slot, in record order and then slot order, that is first to
      name its node and whose lookup raises. */
  ghost predicate FirstFailing<T>(orig: seq<T>, recs: seq<Expansion>, i: nat, x: nat) {
    i < |recs| && x < |recs[i].expanded| && FirstSeen(recs, i, x) && SlotValue(orig, recs[i], x).Err? &&
    (forall i', x' {:trigger SlotValue(orig, recs[i'], x')} ::
       0 <= i' < i && 0 <= x' < |recs[i'].expanded| && FirstSeen(recs, i', x') ==> SlotValue(orig, recs[i'], x').Ok?) &&
    (forall x' {:trigger SlotValue(orig, recs[i], x')} ::
       0 <= x' < x && FirstSeen(recs, i, x') ==> SlotValue(orig, recs[i], x').Ok?)
  }

  /** The keys after records `0..j-1` are exactly their nodes (the first half of `FillRecordsOk`). */
  lemma RecordsKeys<T>(orig: seq<T>, recs: seq<Expansion>, j: nat)
    requires j <= |recs| && FillRecords(orig, recs, j).Ok?
    ensures forall n :: n in FillRecords(orig, recs, j).value.entries <==> n in NodesBefore(recs, j)
  {
    FillRecordsOk(orig, recs, j);
  }

  /** Starting record `i` from a dictionary holding exactly the nodes of the earlier records, the
      slots before the first failing one succeed and leave its node without a value. */
  lemma SlotsBeforeFailing<T>(orig: seq<T>, recs: seq<Expansion>, i: nat, x: nat, d0: Dict<T>)
    requires DictValid(d0) && FirstFailing(orig, recs, i, x)
    requires forall n :: n in d0.entries <==> n in NodesBefore(recs, i)
    ensures FillSlots(orig, recs[i], x, d0).Ok?
    ensures recs[i].expanded[x] !in FillSlots(orig, recs[i], x, d0).value.entries
  {
    var e := recs[i];
    forall x' | 0 <= x' < x && e.expanded[x'] !in d0.entries && e.expanded[x'] !in e.expanded[..x']
      ensures SlotValue(orig, e, x').Ok?
    {
      var n := e.expanded[x'];
      assert n in d0.entries <==> n in NodesBefore(recs, i);
      assert FirstSeen(recs, i, x');
    }
    FillSlotsSucceeds(orig, e, x, d0);
    FillSlotsKeys(orig, e, x, d0);
    assert Extends(FillSlots(orig, e, x, d0).value.entries, d0.entries, e.expanded[..x]);
    var n := e.expanded[x];
    assert n in d0.entries <==> n in NodesBefore(recs, i);
    assert n !in d0.entries;
  }

  /** The first failing first-naming slot decides the exception `new_displacements` raises. */
  lemma PropagateRaises<T>(orig: seq<T>, recs: seq<Expansion>, i: nat, x: nat)
    requires FirstFailing(orig, recs, i, x)
    ensures Propagate(orig, recs) == Err(SlotValue(orig, recs[i], x).error)
  {
    var e := recs[i];
    LookupsSucceed(orig, recs, i);
    var d0 := FillRecords(orig, recs, i).value;
    RecordsKeys(orig, recs, i);
    SlotsBeforeFailing(orig, recs, i, x, d0);
    var dx := FillSlots(orig, e, x, d0).value;
    assert FillSlots(orig, e, x + 1, d0) == Visit(orig, e, x, dx);
    FillSlotsErr(orig, e, x + 1, |e.expanded|, d0);
    assert FillRecords(orig, recs, i + 1) == FillSlots(orig, e, |e.expanded|, d0);
    FillRecordsErr(orig, recs, i + 1, |recs|);
  }

  /** Slot `x` of `e` is the first slot new to `acc` and to the earlier slots whose lookup raises. */
  ghost predicate FirstFailingSlot<T>(orig: seq<T>, e: Expansion, acc: map<int, T>, x: nat) {
    x < |e.expanded| && e.expanded[x] !in acc && e.expanded[x] !in e.expanded[..x] &&
    SlotValue(orig, e, x).Err? &&
    forall x' {:trigger SlotValue(orig, e, x')} ::
      (0 <= x' < x && e.expanded[x'] !in acc && e.expanded[x'] !in e.expanded[..x']) ==> SlotValue(orig, e, x').Ok?
  }

  /** An inner loop that succeeds up to slot `x` and raises there fails first at slot `x`. */
  lemma LastSlotFails<T>(orig: seq<T>, e: Expansion, x: nat, acc: Dict<T>)
    requires x < |e.expanded| && DictValid(acc) && FillSlots(orig, e, x, acc).Ok? && FillSlots(orig, e, x + 1, acc).Err?
    ensures FirstFailingSlot(orig, e, acc.entries, x)
  {
    var dx := FillSlots(orig, e, x, acc).value;
    FillSlotsOk(orig, e, x, acc);
    var n := e.expanded[x];
    assert FillSlots(orig, e, x + 1, acc) == Visit(orig, e, x, dx);
    assert n in dx.entries <==> n in acc.entries || n in e.expanded[..x];
    assert n !in dx.entries;
    forall x' | 0 <= x' < x && e.expanded[x'] !in acc.entries && e.expanded[x'] !in e.expanded[..x']
      ensures SlotValue(orig, e, x').Ok?
    {
      var v := SlotValue(orig, e, x');
      assert e.expanded[x'] in dx.entries && v == Ok(dx.entries[e.expanded[x']]);
    }
  }

  /** An inner loop that raises has a first slot new to `acc` and to the earlier slots whose lookup raises. */
  lemma {:induction false} FillSlotsFailing<T>(orig: seq<T>, e: Expansion, k: nat, acc: Dict<T>)
    requires k <= |e.expanded| && DictValid(acc) && FillSlots(orig, e, k, acc).Err?
    ensures exists x: nat :: x < k && FirstFailingSlot(orig, e, acc.entries, x)
  {
    if FillSlots(orig, e, k - 1, acc).Err? {
      FillSlotsFailing(orig, e, k - 1, acc);
      var x: nat :| x < k - 1 && FirstFailingSlot(orig, e, acc.entries, x);
    } else {
      LastSlotFails(orig, e, k - 1, acc);
    }
  }

  /** Record `j` raising after records `0..j-1` succeeded holds the first failing slot. */
  lemma RecordFailing<T>(orig: seq<T>, recs: seq<Expansion>, j: nat, d0: Dict<T>)
    requires j < |recs| && FillRecords(orig, recs, j) == Ok(d0)
    requires FillSlots(orig, recs[j], |recs[j].expanded|, d0).Err?
    ensures exists x: nat :: FirstFailing(orig, recs, j, x)
  {
    var e := recs[j];
    RecordsKeys(orig, recs, j);
    FillRecordsSucceeds(orig, recs, j);
    FillSlotsFailing(orig, e, |e.expanded|, d0);
    var x: nat :| x < |e.expanded| && FirstFailingSlot(orig, e, d0.entries, x);
    var n := e.expanded[x];
    assert n in d0.entries <==> n in NodesBefore(recs, j);
    assert FirstSeen(recs, j, x);
    forall x' | 0 <= x' < x && FirstSeen(recs, j, x') ensures SlotValue(orig, e, x').Ok? {
      var n' := e.expanded[x'];
      assert n' in d0.entries <==> n' in NodesBefore(recs, j);
    }
    assert FirstFailing(orig, recs, j, x);
  }

  /** An outer loop that raises after records `0..j-1` has a first failing slot among them. */
  lemma {:induction false} FillRecordsFailing<T>(orig: seq<T>, recs: seq<Expansion>, j: nat)
    requires j <= |recs| && FillRecords(orig, recs, j).Err?
    ensures exists i: nat, x: nat :: i < j && FirstFailing(orig, recs, i, x)
  {
    if FillRecords(orig, recs, j - 1).Err? {
      FillRecordsFailing(orig, recs, j - 1);
      var i: nat, x: nat :| i < j - 1 && FirstFailing(orig, recs, i, x);
    } else {
      var d0 := FillRecords(orig, recs, j - 1).value;
      assert FillRecords(orig, recs, j) == FillSlots(orig, recs[j - 1], |recs[j - 1].expanded|, d0);
      RecordFailing(orig, recs, j - 1, d0);
    }
  }

  /** When `new_displacements` raises, it raises the exception of the first failing first-naming slot. */
  lemma PropagateErrorSlot<T>(orig: seq<T>, recs: seq<Expansion>)
    requires Propagate(orig, recs).Err?
    ensures exists i: nat, x: nat :: FirstFailing(orig, recs, i, x) && Propagate(orig, recs) == Err(SlotValue(orig, recs[i], x).error)
  {
    FillRecordsFailing(orig, recs, |recs|);
    var i: nat, x: nat :| i < |recs| && FirstFailing(orig, recs, i, x);
    PropagateRaises(orig, recs, i, x);
  }

  /** When it returns, `new_displacements` lists the node ids in strictly ascending order, and they
      are exactly the expanded nodes of all records. */
  lemma PropagateNodes<T>(orig: seq<T>, recs: seq<Expansion>, ps: seq<(int, T)>)
    requires Propagate(orig, recs) == Ok(ps)
    ensures forall k, l :: 0 <= k < l < |ps| ==> ps[k].0 < ps[l].0
    ensures forall k :: 0 <= k < |ps| ==> exists i :: 0 <= i < |recs| && ps[k].0 in recs[i].expanded
    ensures forall i, x :: 0 <= i < |recs| && 0 <= x < |recs[i].expanded| ==>
      exists k :: 0 <= k < |ps| && ps[k].0 == recs[i].expanded[x]
  {
    var d := FillRecords(orig, recs, |recs|).value;
    FillRecordsOk(orig, recs, |recs|);
    assert ps == SortedPairs(d);
    forall k | 0 <= k < |ps| ensures exists i :: 0 <= i < |recs| && ps[k].0 in recs[i].expanded {
      assert ps[k].0 in d.entries;
      NodesBeforeMeaning(recs, |recs|, ps[k].0);
    }
    forall i, x | 0 <= i < |recs| && 0 <= x < |recs[i].expanded|
      ensures exists k :: 0 <= k < |ps| && ps[k].0 == recs[i].expanded[x]
    {
      var n := recs[i].expanded[x];
      NodesBeforeMeaning(recs, |recs|, n);
      assert n in recs[i].expanded;
      assert n in d.entries;
    }
  }

  /** When it returns, the displacement listed for a node is the one copied through the slot that
      names the node first. */
  lemma PropagateValue<T>(orig: seq<T>, recs: seq<Expansion>, k: nat, i: nat, x: nat)
    requires Propagate(orig, recs).Ok? && k < |Propagate(orig, recs).value|
    requires i < |recs| && x < |recs[i].expanded| && FirstSeen(recs, i, x)
    requires recs[i].expanded[x] == Propagate(orig, recs).value[k].0
    ensures SlotValue(orig, recs[i], x) == Ok(Propagate(orig, recs).value[k].1)
  {
    FillRecordsOk(orig, recs, |recs|);
    var v := SlotValue(orig, recs[i], x);
  }

  /** With every record holding at least the six original slots that the table uses, at most the
      fifteen expanded slots it covers, and original node ids between 1 and the number of
      displacements, `new_displacements` does not raise. */
  lemma WellFormedSucceeds<T>(orig: seq<T>, recs: seq<Expansion>)
    requires forall i :: 0 <= i < |recs| ==>
      6 <= |recs[i].orig| && |recs[i].expanded| <= 15 &&
      forall k :: 0 <= k < |recs[i].orig| ==> 1 <= recs[i].orig[k] <= |orig|
    ensures Propagate(orig, recs).Ok?
  {
    SlotMapShape();
    PropagateSucceeds(orig, recs);
    forall i, x | 0 <= i < |recs| && 0 <= x < |recs[i].expanded|
      ensures SlotValue(orig, recs[i], x).Ok?
    {
      assert x in SlotMap && 0 <= SlotMap[x] < 6;
    }
  }

  /** The inner loop of post.py `new_displacements`: the slots of one record, in order, each
      inserting its node's value unless the node already has one. */
  method FillRecord<T>(orig: seq<T>, e: Expansion, newdisp: Dict<T>) returns (r: Result<Dict<T>>)
    requires DictValid(newdisp)
    ensures r == FillSlots(orig, e, |e.expanded|, newdisp)
  {
    var d := newdisp;
    for x := 0 to |e.expanded|
      invariant FillSlots(orig, e, x, newdisp) == Ok(d)
    {
      var n := e.expanded[x];
      assert FillSlots(orig, e, x + 1, newdisp) == Visit(orig, e, x, d);
      if n !in d.entries {
        var v := SlotValue(orig, e, x);
        if v.Err? {
          FillSlotsErr(orig, e, x + 1, |e.expanded|, newdisp);
          return Err(v.error);
        }
        d := Insert(d, n, v.value);
      }
    }
    return Ok(d);
  }

  /** post.py `new_displacements`: the dictionary `newdisp` filled record by record, first value
      wins, then its entries in ascending order of node id. */
  method NewDisplacements<T>(orig: seq<T>, recs: seq<Expansion>) returns (r: Result<seq<(int, T)>>)
    ensures r == Propagate(orig, recs)
  {
    var newdisp: Dict<T> := Dict(map[], []);
    for j := 0 to |recs|
      invariant FillRecords(orig, recs, j) == Ok(newdisp)
    {
      var next := FillRecord(orig, recs[j], newdisp);
      if next.Err? {
        FillRecordsErr(orig, recs, j + 1, |recs|);
        return Err(next.error);
      }
      newdisp := next.value;
    }
    return Ok(SortedPairs(newdisp));
  }
}
