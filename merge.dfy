/**
 * How result dictionaries are merged: each rank folds the dictionaries of its
 * runs into one with `dict.update`, and the root rank folds the gathered
 * per-rank dictionaries into `combined_results` key by key. Both are the same
 * right-biased union: a key that occurs in several parts keeps the value of the
 * last part that has it.
 */
module Merging {

  /** `d = {}; for part in parts: d.update(part)`. */
  function MergeAll<K, V>(parts: seq<map<K, V>>): map<K, V>
  {
    if |parts| == 0 then map[] else MergeAll(parts[..|parts| - 1]) + parts[|parts| - 1]
  }

  /** A key is in the merged dictionary exactly when some part has it. */
  lemma {:induction false} MergeAllKeys<K, V>(parts: seq<map<K, V>>, k: K)
    ensures k in MergeAll(parts) <==> exists i :: 0 <= i < |parts| && k in parts[i]
  {
    if |parts| > 0 {
      var n := |parts| - 1;
      MergeAllKeys(parts[..n], k);
      if k in MergeAll(parts[..n]) {
        var i :| 0 <= i < n && k in parts[..n][i];
        assert k in parts[i];
      }
      if exists i :: 0 <= i < |parts| && k in parts[i] {
        var i :| 0 <= i < |parts| && k in parts[i];
        if i < n {
          assert k in parts[..n][i];
        }
      }
    }
  }

  /** Last write wins: a key holds the value of the last part that has it. */
  lemma {:induction false} MergeAllLastWins<K, V>(parts: seq<map<K, V>>, i: nat, k: K)
    requires i < |parts| && k in parts[i]
    requires forall j :: i < j < |parts| ==> k !in parts[j]
    ensures k in MergeAll(parts) && MergeAll(parts)[k] == parts[i][k]
  {
    var n := |parts| - 1;
    if i < n {
      assert k !in parts[n];
      forall j | i < j < n ensures k !in parts[..n][j] {
        assert parts[..n][j] == parts[j];
      }
      MergeAllLastWins(parts[..n], i, k);
    }
  }

  /**
   * When no two parts share a key (the ranks processed disjoint targets), the
   * merge loses nothing: every part's entries are found unchanged.
   */
  lemma MergeAllDisjoint<K, V>(parts: seq<map<K, V>>, i: nat, k: K)
    requires forall a, b :: 0 <= a < b < |parts| ==> parts[a].Keys !! parts[b].Keys
    requires i < |parts| && k in parts[i]
    ensures k in MergeAll(parts) && MergeAll(parts)[k] == parts[i][k]
  {
    forall j | i < j < |parts| ensures k !in parts[j] {
      assert parts[i].Keys !! parts[j].Keys;
    }
    MergeAllLastWins(parts, i, k);
  }

  /** `for key, value in part.items(): combined[key] = value`. */
  method CopyEntries<K, V>(combined: map<K, V>, part: map<K, V>) returns (r: map<K, V>)
    ensures r == combined + part
  {
    r := combined;
    var todo := part.Keys;
    while todo != {}
      invariant todo <= part.Keys
      invariant r.Keys == combined.Keys + (part.Keys - todo)
      invariant forall k :: k in r ==> r[k] == if k in part && k !in todo then part[k] else combined[k]
      decreases todo
    {
      var k :| k in todo;
      r := r[k := part[k]];
      todo := todo - {k};
    }
  }

  /** The root rank's merge of the gathered per-rank results. */
  method Combine<K, V>(parts: seq<map<K, V>>) returns (combined: map<K, V>)
    ensures combined == MergeAll(parts)
  {
    combined := map[];
    var i := 0;
    while i < |parts|
      invariant 0 <= i <= |parts|
      invariant combined == MergeAll(parts[..i])
    {
      combined := CopyEntries(combined, parts[i]);
      assert parts[..i + 1][..i] == parts[..i];
      i := i + 1;
    }
    assert parts[..i] == parts;
  }
}
