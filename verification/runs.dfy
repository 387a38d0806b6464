/** Runs of equal keys in a sequence: the reference against which the
    session fold of enrich.py is measured. A run is a maximal block of
    consecutive equal keys; runs are numbered from 1 in stream order. */
module Runs {
  /** The 1-based number of the run of equal keys that row `j` belongs to:
      1 for the first row, one more at every change of key. */
  function RunOf<K(==)>(ks: seq<K>, j: nat): (r: nat)
    requires j < |ks|
    ensures 1 <= r <= j + 1
  {
    if j == 0 then 1
    else RunOf(ks, j - 1) + (if ks[j] != ks[j - 1] then 1 else 0)
  }

  /** The number of runs: none for no rows, otherwise the run number of the last row. */
  function RunCount<K(==)>(ks: seq<K>): nat {
    if |ks| == 0 then 0 else RunOf(ks, |ks| - 1)
  }

  /** The key changes between rows `k - 1` and `k`. */
  predicate ChangesAt<K(==)>(ks: seq<K>, k: nat)
    requires 0 < k < |ks|
  {
    ks[k] != ks[k - 1]
  }

  /** The rows where the key differs from the previous row's. */
  function ChangePoints<K(==)>(ks: seq<K>): set<nat> {
    set k: nat | 0 < k < |ks| && ChangesAt(ks, k)
  }

  /** How many times the key changes from one row to the next. */
  function Changes<K(==)>(ks: seq<K>): nat {
    |ChangePoints(ks)|
  }

  /** Row `j` is the first row of its run. */
  predicate Opens<K(==)>(ks: seq<K>, j: nat)
    requires j < |ks|
  {
    j == 0 || ks[j] != ks[j - 1]
  }

  /** Row `j` is the last row of its run. */
  predicate Closes<K(==)>(ks: seq<K>, j: nat)
    requires j < |ks|
  {
    j == |ks| - 1 || ks[j + 1] != ks[j]
  }

  /** Row `k` starts a new run whose key already appeared earlier: a flap. */
  predicate Regresses<K(==)>(ks: seq<K>, k: nat)
    requires k < |ks|
  {
    0 < k && ks[k] != ks[k - 1] && exists j :: 0 <= j < k && ks[j] == ks[k]
  }

  /** No row flaps: each key's rows form a single run. */
  predicate Contiguous<K(==)>(ks: seq<K>) {
    forall k :: 0 <= k < |ks| ==> !Regresses(ks, k)
  }

  lemma {:induction false} RunOfAppend<K>(ks: seq<K>, key: K, j: nat)
    requires j < |ks|
    ensures RunOf(ks + [key], j) == RunOf(ks, j)
  {
    if j > 0 {
      RunOfAppend(ks, key, j - 1);
    }
  }

  /** There is one run more than there are changes of key. */
  lemma {:induction false} RunCountIsChangesPlusOne<K>(ks: seq<K>)
    requires |ks| > 0
    ensures RunCount(ks) == Changes(ks) + 1
    decreases |ks|
  {
    var n := |ks|;
    if n > 1 {
      var pre := ks[..n - 1];
      RunCountIsChangesPlusOne(pre);
      RunOfAppend(pre, ks[n - 1], n - 2);
      assert pre + [ks[n - 1]] == ks;
      var cs, cs' := ChangePoints(ks), ChangePoints(pre);
      forall k | 0 < k < n - 1
        ensures ChangesAt(ks, k) == ChangesAt(pre, k)
      {
      }
      if ks[n - 1] != ks[n - 2] {
        assert ChangesAt(ks, n - 1);
        assert cs == cs' + {n - 1};
      } else {
        assert cs == cs';
      }
    } else {
      assert ChangePoints(ks) == {};
    }
  }

  /** Run numbers never decrease along the stream, and rows with the same
      run number have the same key, as do all rows between them. */
  lemma {:induction false} RunOfMonotone<K>(ks: seq<K>, i: nat, j: nat)
    requires i <= j < |ks|
    ensures RunOf(ks, i) <= RunOf(ks, j)
    ensures RunOf(ks, i) == RunOf(ks, j) ==> forall m :: i <= m <= j ==> ks[m] == ks[i]
    decreases j - i
  {
    if i < j {
      RunOfMonotone(ks, i, j - 1);
    }
  }

  lemma ClosedRunIsEarlier<K>(ks: seq<K>, j: nat, m: nat)
    requires j < m < |ks| && Closes(ks, j)
    ensures RunOf(ks, j) < RunOf(ks, m)
  {
    RunOfMonotone(ks, j + 1, m);
  }

  lemma OpenedRunIsLater<K>(ks: seq<K>, m: nat, j: nat)
    requires m < j < |ks| && Opens(ks, j)
    ensures RunOf(ks, m) < RunOf(ks, j)
  {
    RunOfMonotone(ks, m, j - 1);
  }

  /** The first row of the run that row `j` belongs to. */
  function RunStart<K(==)>(ks: seq<K>, j: nat): (s: nat)
    requires j < |ks|
    ensures s <= j && Opens(ks, s)
    ensures ks[s] == ks[j] && RunOf(ks, s) == RunOf(ks, j)
  {
    if Opens(ks, j) then j
    else RunStart(ks, j - 1)
  }

  /** The last row of the run that row `j` belongs to. */
  function RunEnd<K(==)>(ks: seq<K>, j: nat): (e: nat)
    requires j < |ks|
    ensures j <= e < |ks| && Closes(ks, e)
    ensures ks[e] == ks[j] && RunOf(ks, e) == RunOf(ks, j)
    decreases |ks| - j
  {
    if Closes(ks, j) then j
    else RunEnd(ks, j + 1)
  }

  /** Some row belongs to run `i + 1`. */
  predicate HasRow<K(==)>(ks: seq<K>, i: nat) {
    exists j :: 0 <= j < |ks| && RunOf(ks, j) == i + 1
  }

  /** Run numbers go up one at a time, so every run up to the last has a row. */
  lemma {:induction false} RunsCovered<K>(ks: seq<K>)
    ensures forall i :: 0 <= i < RunCount(ks) ==> HasRow(ks, i)
    decreases |ks|
  {
    var n := |ks|;
    if n > 0 {
      var pre := ks[..n - 1];
      assert pre + [ks[n - 1]] == ks;
      RunsCovered(pre);
      AppendFacts(pre, ks[n - 1]);
      forall i | 0 <= i < RunCount(ks)
        ensures HasRow(ks, i)
      {
        if i < RunCount(pre) {
          assert HasRow(pre, i);
          var j :| 0 <= j < |pre| && RunOf(pre, j) == i + 1;
          assert RunOf(ks, j) == i + 1;
        } else {
          assert RunOf(ks, n - 1) == i + 1;
        }
      }
    }
  }

  lemma AppendFacts<K>(ks: seq<K>, key: K)
    ensures forall j {:trigger RunOf(ks + [key], j)} :: 0 <= j < |ks| ==> RunOf(ks + [key], j) == RunOf(ks, j)
    ensures forall j {:trigger Opens(ks + [key], j)} :: 0 <= j < |ks| ==> Opens(ks + [key], j) == Opens(ks, j)
    ensures forall j {:trigger Closes(ks + [key], j)} :: 0 <= j < |ks| - 1 ==> Closes(ks + [key], j) == Closes(ks, j)
    ensures forall k {:trigger Regresses(ks + [key], k)} :: 0 <= k < |ks| ==> Regresses(ks + [key], k) == Regresses(ks, k)
    ensures RunCount(ks + [key]) == RunOf(ks + [key], |ks|)
    ensures RunOf(ks + [key], |ks|) ==
      if |ks| == 0 then 1 else RunCount(ks) + (if key != ks[|ks| - 1] then 1 else 0)
  {
    var ks' := ks + [key];
    forall j | 0 <= j < |ks|
      ensures RunOf(ks', j) == RunOf(ks, j)
    {
      RunOfAppend(ks, key, j);
    }
    forall k | 0 <= k < |ks|
      ensures Regresses(ks', k) == Regresses(ks, k)
    {
      if Regresses(ks, k) {
        var j :| 0 <= j < k && ks[j] == ks[k];
        assert ks'[j] == ks'[k];
      }
      if Regresses(ks', k) {
        var j :| 0 <= j < k && ks'[j] == ks'[k];
        assert ks[j] == ks[k];
      }
    }
  }

  /** Repeating the last key neither flaps nor opens a run. */
  lemma ContiguousRepeat<K>(ks: seq<K>)
    requires Contiguous(ks) && |ks| > 0
    ensures Contiguous(ks + [ks[|ks| - 1]])
    ensures RunCount(ks + [ks[|ks| - 1]]) == RunCount(ks)
  {
    var n, key := |ks|, ks[|ks| - 1];
    var ks' := ks + [key];
    AppendFacts(ks, key);
    forall k | 0 <= k < |ks'|
      ensures !Regresses(ks', k)
    {
      if k < n {
        assert !Regresses(ks, k);
      }
    }
  }

  /** No element occurs twice. */
  predicate Distinct<K(==)>(s: seq<K>) {
    forall i, i' :: 0 <= i < i' < |s| ==> s[i] != s[i']
  }

  /** Every row's run number is at most `n`. */
  ghost predicate RunsWithin<K>(ks: seq<K>, n: nat) {
    forall j {:trigger RunOf(ks, j)} :: 0 <= j < |ks| ==> RunOf(ks, j) <= n
  }

  /** `keys` lists the key of each run: row `j`'s key is the key of run `RunOf(ks, j)`. */
  ghost predicate RunKeys<K>(ks: seq<K>, keys: seq<K>) {
    forall j {:trigger RunOf(ks, j)} :: 0 <= j < |ks| ==>
      RunOf(ks, j) <= |keys| && keys[RunOf(ks, j) - 1] == ks[j]
  }

  /** A key missing from the run keys is new, and appending it opens a run with that key. */
  lemma RunKeysNew<K>(ks: seq<K>, keys: seq<K>, key: K)
    requires RunKeys(ks, keys) && |keys| == RunCount(ks) && key !in keys
    ensures forall j :: 0 <= j < |ks| ==> ks[j] != key
    ensures RunOf(ks + [key], |ks|) == |keys| + 1
    ensures RunKeys(ks + [key], keys + [key])
  {
    var ks', keys', n := ks + [key], keys + [key], |ks|;
    forall j | 0 <= j < n
      ensures ks[j] != key
    {
      assert RunOf(ks, j) <= |keys|;
      assert keys[RunOf(ks, j) - 1] == ks[j];
    }
    AppendFacts(ks, key);
    forall j | 0 <= j < |ks'|
      ensures RunOf(ks', j) <= |keys'| && keys'[RunOf(ks', j) - 1] == ks'[j]
    {
      if j < n {
        assert RunOf(ks', j) == RunOf(ks, j) <= |keys|;
      }
    }
  }

  /** The last row belongs to the last run, whose key it carries; repeating
      its key stays in that run. */
  lemma RunKeysLast<K>(ks: seq<K>, keys: seq<K>)
    requires RunKeys(ks, keys) && |keys| == RunCount(ks) && |ks| > 0
    ensures RunOf(ks, |ks| - 1) == |keys|
    ensures RunOf(ks + [ks[|ks| - 1]], |ks|) == |keys|
    ensures keys[|keys| - 1] == ks[|ks| - 1]
  {
    var n, key := |ks|, ks[|ks| - 1];
    assert RunOf(ks, n - 1) == |keys|;
    RunOfAppend(ks, key, n - 1);
  }

  /** Repeating the last key stays in the last run. */
  lemma RunKeysSame<K>(ks: seq<K>, keys: seq<K>)
    requires RunKeys(ks, keys) && |keys| == RunCount(ks) && |ks| > 0
    ensures RunOf(ks, |ks| - 1) == |keys|
    ensures RunOf(ks + [ks[|ks| - 1]], |ks|) == |keys|
    ensures keys[|keys| - 1] == ks[|ks| - 1]
    ensures RunKeys(ks + [ks[|ks| - 1]], keys)
  {
    var n, key := |ks|, ks[|ks| - 1];
    var ks' := ks + [key];
    RunKeysLast(ks, keys);
    forall j | 0 <= j < |ks'|
      ensures RunOf(ks', j) <= |keys| && keys[RunOf(ks', j) - 1] == ks'[j]
    {
      if j < n {
        RunOfAppend(ks, key, j);
        assert RunOf(ks, j) <= |keys|;
        assert ks'[j] == ks[j];
      }
    }
  }

  /** With distinct run keys and no flap so far, a key already in the run
      keys but not the last one is a flap, the first one, and all its
      earlier rows belong to the run it labels. */
  lemma RunKeysRegress<K>(ks: seq<K>, keys: seq<K>, f: nat)
    requires RunKeys(ks, keys) && |keys| == RunCount(ks) && Distinct(keys) && Contiguous(ks)
    requires f < |keys| && (|ks| > 0 ==> keys[f] != ks[|ks| - 1])
    ensures Regresses(ks + [keys[f]], |ks|)
    ensures forall m :: 0 <= m < |ks| ==> !Regresses(ks + [keys[f]], m)
    ensures forall j :: 0 <= j < |ks| && ks[j] == keys[f] ==> RunOf(ks + [keys[f]], j) == f + 1
  {
    var key := keys[f];
    var ks', n := ks + [key], |ks|;
    AppendFacts(ks, key);
    RunsCovered(ks);
    assert HasRow(ks, f);
    var j0 :| 0 <= j0 < n && RunOf(ks, j0) == f + 1;
    assert keys[RunOf(ks, j0) - 1] == ks[j0];
    assert ks'[j0] == ks'[n];
    assert Regresses(ks', n);
    forall j | 0 <= j < n && ks[j] == key
      ensures RunOf(ks', j) == f + 1
    {
      assert RunOf(ks, j) <= |keys|;
      assert keys[RunOf(ks, j) - 1] == key;
    }
    forall m | 0 <= m < n
      ensures !Regresses(ks', m)
    {
      assert !Regresses(ks, m);
    }
  }

  /** Every run is labelled by some row's key. */
  lemma RunKeysCovered<K>(ks: seq<K>, keys: seq<K>, i: nat)
    requires RunKeys(ks, keys) && |keys| == RunCount(ks) && i < |keys|
    ensures exists j :: 0 <= j < |ks| && RunOf(ks, j) == i + 1 && ks[j] == keys[i]
  {
    RunsCovered(ks);
    assert HasRow(ks, i);
    var j :| 0 <= j < |ks| && RunOf(ks, j) == i + 1;
    assert keys[RunOf(ks, j) - 1] == ks[j];
  }

  lemma DistinctAppend<K>(s: seq<K>, x: K)
    requires Distinct(s) && x !in s
    ensures Distinct(s + [x])
  {
    var s' := s + [x];
    forall i, i' | 0 <= i < i' < |s'|
      ensures s'[i] != s'[i']
    {
      assert s'[i] == s[i];
      if i' == |s| {
        assert s[i] in s;
      }
    }
  }
}
