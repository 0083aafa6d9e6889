/**
 * Conversion of the AVM execution trace into full rows. A full row holds every column at row
 * `r` together with the shifted columns, which hold the values of their source column at row
 * `r + 1`. Two generated parallel arrays define the shifts: `toBeShifted[i]` is the column whose
 * next-row value `shifted[i]` holds. Columns are their indices.
 */
module TraceConversion {
  import opened Wrappers
  import opened Types
  import opened Tables

  type Column = nat

  /** C++ `uint32_t`. */
  const UINT32_LIMIT: nat := 0x1_0000_0000
  type U32 = x: nat | x < UINT32_LIMIT

  /** The pairs `(keys[i], vals[i])` for every position of `keys`. */
  function Pairs(keys: seq<Column>, vals: seq<Column>): (ps: seq<(Column, Column)>)
    requires |keys| <= |vals|
    ensures |ps| == |keys|
    ensures forall i :: 0 <= i < |keys| ==> ps[i] == (keys[i], vals[i])
  {
    seq(|keys|, i requires 0 <= i < |keys| => (keys[i], vals[i]))
  }

  function PairKey(p: (Column, Column)): Column { p.0 }
  function PairValue(p: (Column, Column)): Column { p.1 }

  /** The lookup of `c` in the map filled by `map[keys[i]] = vals[i]` for each `i` in order. */
  function Lookup(keys: seq<Column>, vals: seq<Column>, c: Column): Option<Column>
    requires |keys| <= |vals|
  {
    var table := BuildTable(Pairs(keys, vals), PairKey, PairValue);
    if c in table then Some(table[c]) else None
  }

  /** Position `i` is the last occurrence of `c` in `s`. */
  ghost predicate LastIndexOf(s: seq<Column>, c: Column, i: int) {
    0 <= i < |s| && s[i] == c && forall j :: i < j < |s| ==> s[j] != c
  }

  ghost predicate NoDuplicates(s: seq<Column>) {
    forall i, j :: 0 <= i < j < |s| ==> s[i] != s[j]
  }

  /** A value that occurs in a sequence has a last occurrence. */
  lemma {:induction false} HasLastIndex(s: seq<Column>, c: Column)
    requires c in s
    ensures exists i :: LastIndexOf(s, c, i)
    decreases |s|
  {
    var n := |s| - 1;
    if s[n] == c {
      assert LastIndexOf(s, c, n);
    } else {
      assert c in s[..n] by {
        var k :| 0 <= k < |s| && s[k] == c;
        assert s[..n][k] == c;
      }
      HasLastIndex(s[..n], c);
      var i :| LastIndexOf(s[..n], c, i);
      assert LastIndexOf(s, c, i);
    }
  }

  /** A lookup finds nothing exactly for an absent key, and otherwise the value paired with its last occurrence. */
  lemma LookupSpec(keys: seq<Column>, vals: seq<Column>, c: Column)
    requires |keys| <= |vals|
    ensures Lookup(keys, vals, c).None? <==> c !in keys
    ensures forall i :: LastIndexOf(keys, c, i) ==> Lookup(keys, vals, c) == Some(vals[i])
  {
    var ps := Pairs(keys, vals);
    BuildTableKeys(ps, PairKey, PairValue, c);
    if c in keys {
      var i :| 0 <= i < |keys| && keys[i] == c;
      assert PairKey(ps[i]) == c;
    }
    forall i | LastIndexOf(keys, c, i)
      ensures Lookup(keys, vals, c) == Some(vals[i])
    {
      assert IsLastWithKey(ps, PairKey, c, i);
      BuildTableLastWins(ps, PairKey, PairValue, c, i);
    }
  }

  /** A lookup finds something exactly for a present key, and what it finds is one of the paired values. */
  lemma LookupFound(keys: seq<Column>, vals: seq<Column>, c: Column)
    requires |keys| <= |vals|
    ensures Lookup(keys, vals, c).None? <==> c !in keys
    ensures Lookup(keys, vals, c).Some? ==>
      exists i :: 0 <= i < |keys| && vals[i] == Lookup(keys, vals, c).value
  {
    LookupSpec(keys, vals, c);
    if c in keys {
      HasLastIndex(keys, c);
      var i :| LastIndexOf(keys, c, i);
    }
  }

  /**
   * Looking a key up and then looking its value up in the reverse map gives the key back,
   * provided the values are distinct.
   */
  lemma LookupInverse(keys: seq<Column>, vals: seq<Column>, c: Column)
    requires |keys| <= |vals| && NoDuplicates(vals[..|keys|]) && c in keys
    ensures Lookup(keys, vals, c).Some?
    ensures Lookup(vals[..|keys|], keys, Lookup(keys, vals, c).value) == Some(c)
  {
    HasLastIndex(keys, c);
    var i :| LastIndexOf(keys, c, i);
    LookupSpec(keys, vals, c);
    var vs := vals[..|keys|];
    assert LastIndexOf(vs, vals[i], i);
    LookupSpec(vs, keys, vals[i]);
  }

  // ---------------------------------------------------------------------------------------
  // The three lookups over the generated arrays

  /** Membership in the set filled from the shifted columns. */
  function IsShift(shifted: seq<Column>, c: Column): (r: bool)
    ensures r <==> exists i :: 0 <= i < |shifted| && shifted[i] == c
  {
    c in (set i | 0 <= i < |shifted| :: shifted[i])
  }

  /** The column holding `c`'s next-row value, if `c` is shifted. */
  function ShiftColumn(toBeShifted: seq<Column>, shifted: seq<Column>, c: Column): (r: Option<Column>)
    requires |toBeShifted| <= |shifted|
    ensures r.None? <==> c !in toBeShifted
    ensures r.Some? ==> IsShift(shifted, r.value)
  {
    LookupFound(toBeShifted, shifted, c);
    Lookup(toBeShifted, shifted, c)
  }

  /** The column whose next-row value `c` holds, if `c` is a shifted column. */
  function UnshiftColumn(toBeShifted: seq<Column>, shifted: seq<Column>, c: Column): (r: Option<Column>)
    requires |toBeShifted| <= |shifted|
    ensures r.None? <==> c !in shifted[..|toBeShifted|]
    ensures r.Some? ==> r.value in toBeShifted
  {
    LookupFound(shifted[..|toBeShifted|], toBeShifted, c);
    Lookup(shifted[..|toBeShifted|], toBeShifted, c)
  }

  lemma ShiftColumnSpec(toBeShifted: seq<Column>, shifted: seq<Column>, c: Column)
    requires |toBeShifted| <= |shifted|
    ensures ShiftColumn(toBeShifted, shifted, c).None? <==> c !in toBeShifted
    ensures forall i :: LastIndexOf(toBeShifted, c, i) ==> ShiftColumn(toBeShifted, shifted, c) == Some(shifted[i])
  {
    LookupSpec(toBeShifted, shifted, c);
  }

  lemma UnshiftColumnSpec(toBeShifted: seq<Column>, shifted: seq<Column>, c: Column)
    requires |toBeShifted| <= |shifted|
    ensures UnshiftColumn(toBeShifted, shifted, c).None? <==> c !in shifted[..|toBeShifted|]
    ensures forall i :: LastIndexOf(shifted[..|toBeShifted|], c, i) ==>
      UnshiftColumn(toBeShifted, shifted, c) == Some(toBeShifted[i])
  {
    LookupSpec(shifted[..|toBeShifted|], toBeShifted, c);
  }

  /** With distinct shifted columns, unshifting undoes shifting. */
  lemma UnshiftShift(toBeShifted: seq<Column>, shifted: seq<Column>, c: Column)
    requires |toBeShifted| <= |shifted| && NoDuplicates(shifted[..|toBeShifted|]) && c in toBeShifted
    ensures ShiftColumn(toBeShifted, shifted, c).Some?
    ensures UnshiftColumn(toBeShifted, shifted, ShiftColumn(toBeShifted, shifted, c).value) == Some(c)
  {
    LookupInverse(toBeShifted, shifted, c);
  }

  /** With distinct to-be-shifted columns, shifting undoes unshifting. */
  lemma ShiftUnshift(toBeShifted: seq<Column>, shifted: seq<Column>, c: Column)
    requires |toBeShifted| <= |shifted| && NoDuplicates(toBeShifted) && c in shifted[..|toBeShifted|]
    ensures UnshiftColumn(toBeShifted, shifted, c).Some?
    ensures ShiftColumn(toBeShifted, shifted, UnshiftColumn(toBeShifted, shifted, c).value) == Some(c)
  {
    var n := |toBeShifted|;
    var vs := shifted[..n];
    assert toBeShifted[..n] == toBeShifted;
    LookupInverse(vs, toBeShifted, c);
    assert Pairs(toBeShifted, shifted) == Pairs(toBeShifted, vs);
  }

  // ---------------------------------------------------------------------------------------
  // Full rows

  /** The trace as a table of field values indexed by column and row. */
  datatype TraceContainer = TraceContainer(numColumns: nat, get: (Column, nat) -> Fr)

  /** `row + 1` in `uint32_t` arithmetic. */
  function NextRow(row: U32): (r: U32)
    ensures row + 1 < UINT32_LIMIT ==> r == row + 1
    ensures row + 1 == UINT32_LIMIT ==> r == 0
  {
    (row + 1) % UINT32_LIMIT
  }

  /** The column that receives the next-row value of `toBeShifted[i]`. */
  function ShiftTarget(toBeShifted: seq<Column>, shifted: seq<Column>, i: nat): (r: Column)
    requires |toBeShifted| <= |shifted| && i < |toBeShifted|
    ensures exists j :: LastIndexOf(toBeShifted, toBeShifted[i], j) && r == shifted[j]
  {
    LookupSpec(toBeShifted, shifted, toBeShifted[i]);
    HasLastIndex(toBeShifted, toBeShifted[i]);
    ShiftColumn(toBeShifted, shifted, toBeShifted[i]).value
  }

  /** No column after position `i` that writes to the same target is a different column. */
  ghost predicate LastWriterAgrees(toBeShifted: seq<Column>, shifted: seq<Column>, i: nat, upTo: nat)
    requires |toBeShifted| <= |shifted| && i < |toBeShifted| && upTo <= |toBeShifted|
  {
    forall k {:trigger ShiftTarget(toBeShifted, shifted, k)} ::
      i < k < upTo && ShiftTarget(toBeShifted, shifted, k) == ShiftTarget(toBeShifted, shifted, i) ==>
      toBeShifted[k] == toBeShifted[i]
  }

  /** No column among the first `upTo` of `toBeShifted` writes its next-row value to `col`. */
  ghost predicate Unwritten(toBeShifted: seq<Column>, shifted: seq<Column>, col: Column, upTo: nat)
    requires |toBeShifted| <= |shifted| && upTo <= |toBeShifted|
  {
    forall j {:trigger ShiftTarget(toBeShifted, shifted, j)} :: 0 <= j < upTo ==> ShiftTarget(toBeShifted, shifted, j) != col
  }

  /**
   * In `r`, the target of every column among the first `upTo` whose value no later column
   * overwrote holds that column's value at `next`.
   */
  ghost predicate ShiftsWritten(toBeShifted: seq<Column>, shifted: seq<Column>, trace: TraceContainer, next: nat,
                                r: seq<Fr>, upTo: nat)
    requires |toBeShifted| <= |shifted| && upTo <= |toBeShifted|
  {
    forall j {:trigger ShiftTarget(toBeShifted, shifted, j)} ::
      0 <= j < upTo && LastWriterAgrees(toBeShifted, shifted, j, upTo) ==>
      ShiftTarget(toBeShifted, shifted, j) < |r| && r[ShiftTarget(toBeShifted, shifted, j)] == trace.get(toBeShifted[j], next)
  }

  /** A write to `t` keeps the value at `tj`, unless it writes the same value there. */
  lemma KeptByWrite(before: seq<Fr>, tj: nat, t: nat, kept: Fr, written: Fr)
    requires tj < |before| && t < |before| && before[tj] == kept
    requires tj == t ==> written == kept
    ensures before[t := written][tj] == kept
  {
  }

  /** Writing the value of column `i` to its target keeps every earlier write whose writer was not overwritten. */
  lemma ShiftWriteStep(toBeShifted: seq<Column>, shifted: seq<Column>, trace: TraceContainer, next: nat,
                       before: seq<Fr>, i: nat)
    requires |toBeShifted| <= |shifted| && i < |toBeShifted|
    requires ShiftTarget(toBeShifted, shifted, i) < |before|
    requires ShiftsWritten(toBeShifted, shifted, trace, next, before, i)
    ensures ShiftsWritten(toBeShifted, shifted, trace, next,
                          before[ShiftTarget(toBeShifted, shifted, i) := trace.get(toBeShifted[i], next)], i + 1)
  {
    var t := ShiftTarget(toBeShifted, shifted, i);
    var after := before[t := trace.get(toBeShifted[i], next)];
    forall j | 0 <= j < i + 1 && LastWriterAgrees(toBeShifted, shifted, j, i + 1)
      ensures ShiftTarget(toBeShifted, shifted, j) < |after|
      ensures after[ShiftTarget(toBeShifted, shifted, j)] == trace.get(toBeShifted[j], next)
    {
      if j < i {
        var tj := ShiftTarget(toBeShifted, shifted, j);
        assert LastWriterAgrees(toBeShifted, shifted, j, i);
        assert tj == t ==> toBeShifted[i] == toBeShifted[j];
        KeptByWrite(before, tj, t, trace.get(toBeShifted[j], next), trace.get(toBeShifted[i], next));
      }
    }
  }

  /** Distinct shifted columns make distinct columns write to distinct targets. */
  lemma DistinctTargets(toBeShifted: seq<Column>, shifted: seq<Column>, i: nat, k: nat)
    requires |toBeShifted| <= |shifted| && NoDuplicates(shifted[..|toBeShifted|])
    requires i < |toBeShifted| && k < |toBeShifted|
    requires ShiftTarget(toBeShifted, shifted, k) == ShiftTarget(toBeShifted, shifted, i)
    ensures toBeShifted[k] == toBeShifted[i]
  {
    var li :| LastIndexOf(toBeShifted, toBeShifted[i], li) && ShiftTarget(toBeShifted, shifted, i) == shifted[li];
    var lk :| LastIndexOf(toBeShifted, toBeShifted[k], lk) && ShiftTarget(toBeShifted, shifted, k) == shifted[lk];
    var vs := shifted[..|toBeShifted|];
    assert vs[li] == vs[lk];
  }

  /**
   * A row of `width` entries: every ordinary column at `row`, and every shifted column the
   * value of its source column at `row + 1`. The row's entries before the writes are not
   * known here, so they are the parameter `init`; an entry neither loop writes keeps its
   * `init` value.
   */
  method GetFullRow(toBeShifted: seq<Column>, shifted: seq<Column>, width: nat, init: seq<Fr>,
                    trace: TraceContainer, row: U32)
    returns (fullRow: array<Fr>)
    requires |init| == width
    requires |toBeShifted| <= |shifted|
    requires trace.numColumns <= width
    requires forall i :: 0 <= i < |toBeShifted| ==> shifted[i] < width
    ensures fresh(fullRow) && fullRow.Length == width
    ensures forall col :: 0 <= col < width && Unwritten(toBeShifted, shifted, col, |toBeShifted|) ==>
      fullRow[col] == if col < trace.numColumns then trace.get(col, row) else init[col]
    ensures forall i :: 0 <= i < |toBeShifted| && LastWriterAgrees(toBeShifted, shifted, i, |toBeShifted|) ==>
      fullRow[ShiftTarget(toBeShifted, shifted, i)] == trace.get(toBeShifted[i], NextRow(row))
    ensures NoDuplicates(shifted[..|toBeShifted|]) ==>
      forall i :: 0 <= i < |toBeShifted| ==>
        fullRow[ShiftTarget(toBeShifted, shifted, i)] == trace.get(toBeShifted[i], NextRow(row))
  {
    fullRow := new Fr[width](c requires 0 <= c < |init| => init[c]);
    for col := 0 to trace.numColumns
      invariant forall c :: 0 <= c < width ==> fullRow[c] == if c < col then trace.get(c, row) else init[c]
    {
      fullRow[col] := trace.get(col, row);
    }
    ghost var plain := fullRow[..];
    var n := |toBeShifted|;
    var next := NextRow(row);
    for i := 0 to n
      invariant forall c :: 0 <= c < width && Unwritten(toBeShifted, shifted, c, i) ==> fullRow[c] == plain[c]
      invariant ShiftsWritten(toBeShifted, shifted, trace, next, fullRow[..], i)
    {
      var col := toBeShifted[i];
      var value := trace.get(col, next);
      var target := ShiftColumn(toBeShifted, shifted, col);
      LookupSpec(toBeShifted, shifted, col);
      HasLastIndex(toBeShifted, col);
      assert target.value == ShiftTarget(toBeShifted, shifted, i);
      assert IsShift(shifted, target.value);
      ShiftWriteStep(toBeShifted, shifted, trace, next, fullRow[..], i);
      fullRow[target.value] := value;
    }
    if NoDuplicates(shifted[..n]) {
      forall i | 0 <= i < n
        ensures LastWriterAgrees(toBeShifted, shifted, i, n)
      {
        forall k | i < k < n && ShiftTarget(toBeShifted, shifted, k) == ShiftTarget(toBeShifted, shifted, i)
          ensures toBeShifted[k] == toBeShifted[i]
        {
          DistinctTargets(toBeShifted, shifted, i, k);
        }
      }
    }
  }
}
