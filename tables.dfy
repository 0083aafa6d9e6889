/**
 * Lookup tables filled from a list of hints by `table[key(h)] = value(h)` in list order, as
 * the hint databases and the column-shift maps do: when two entries share a key, the later
 * one overwrites the earlier one.
 */
module Tables {

  /** The table after writing the entries of `hs` in order. */
  function BuildTable<H, K, V>(hs: seq<H>, key: H -> K, val: H -> V): map<K, V>
    decreases |hs|
  {
    if hs == [] then map[]
    else BuildTable(hs[..|hs| - 1], key, val)[key(hs[|hs| - 1]) := val(hs[|hs| - 1])]
  }

  /** Position `i` holds the last entry of `hs` whose key is `k`. */
  ghost predicate IsLastWithKey<H, K>(hs: seq<H>, key: H -> K, k: K, i: int) {
    0 <= i < |hs| && key(hs[i]) == k && forall j :: i < j < |hs| ==> key(hs[j]) != k
  }

  /** A key is in the table exactly when some entry has it. */
  lemma {:induction false} BuildTableKeys<H, K, V>(hs: seq<H>, key: H -> K, val: H -> V, k: K)
    ensures k in BuildTable(hs, key, val) <==> exists i :: 0 <= i < |hs| && key(hs[i]) == k
    decreases |hs|
  {
    if hs != [] {
      var init := hs[..|hs| - 1];
      BuildTableKeys(init, key, val, k);
      assert forall i :: 0 <= i < |init| ==> init[i] == hs[i];
      if k in BuildTable(init, key, val) {
        var i :| 0 <= i < |init| && key(init[i]) == k;
        assert key(hs[i]) == k;
      }
    }
  }

  /** The last entry with a given key is the one the table keeps. */
  lemma {:induction false} BuildTableLastWins<H, K, V>(hs: seq<H>, key: H -> K, val: H -> V, k: K, i: int)
    requires IsLastWithKey(hs, key, k, i)
    ensures k in BuildTable(hs, key, val) && BuildTable(hs, key, val)[k] == val(hs[i])
    decreases |hs|
  {
    if i < |hs| - 1 {
      var init := hs[..|hs| - 1];
      assert IsLastWithKey(init, key, k, i);
      BuildTableLastWins(init, key, val, k, i);
    }
  }

  /** Every key in the table has a last entry, and the table holds that entry's value. */
  lemma {:induction false} BuildTableLookup<H, K, V>(hs: seq<H>, key: H -> K, val: H -> V, k: K)
    requires k in BuildTable(hs, key, val)
    ensures exists i :: IsLastWithKey(hs, key, k, i) && BuildTable(hs, key, val)[k] == val(hs[i])
    decreases |hs|
  {
    var n := |hs| - 1;
    if key(hs[n]) == k {
      assert IsLastWithKey(hs, key, k, n);
    } else {
      var init := hs[..n];
      BuildTableLookup(init, key, val, k);
      var i :| IsLastWithKey(init, key, k, i) && BuildTable(init, key, val)[k] == val(init[i]);
      assert IsLastWithKey(hs, key, k, i);
    }
  }

  /** The loop that fills a table from a hint list. */
  method FillTable<H, K, V>(hs: seq<H>, key: H -> K, val: H -> V) returns (table: map<K, V>)
    ensures table == BuildTable(hs, key, val)
  {
    table := map[];
    for i := 0 to |hs|
      invariant table == BuildTable(hs[..i], key, val)
    {
      assert hs[..i + 1][..i] == hs[..i];
      table := table[key(hs[i]) := val(hs[i])];
    }
    assert hs[..|hs|] == hs;
  }
}
