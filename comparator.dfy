/**
 * `compare`: walk the sorted union of both maps' keys, reading a key a map
 * lacks as "MISSING", and collect every key whose two values differ.
 */
module Comparator {
  import opened Order

  const Missing: string := "MISSING"

  /** `m.get(k, "MISSING")`. */
  function Get(m: map<string, string>, k: string): string {
    if k in m then m[k] else Missing
  }

  /** One recorded difference: the key and the A-side and B-side values. */
  datatype Diff = Diff(key: string, valueA: string, valueB: string)

  function DiffKeys(diffs: seq<Diff>): set<string> {
    set i | 0 <= i < |diffs| :: diffs[i].key
  }

  /** The keys of either map whose two values differ, with "MISSING" for an absent key. */
  function Mismatched(a: map<string, string>, b: map<string, string>): set<string> {
    set k | k in a.Keys + b.Keys && Get(a, k) != Get(b, k)
  }

  /**
   * `compare(a, b)`: `ok` holds exactly when nothing differs; the differences
   * come in increasing key order, one per differing key, each with both values.
   */
  method Compare(a: map<string, string>, b: map<string, string>) returns (diffs: seq<Diff>, ok: bool)
    ensures ok <==> diffs == []
    ensures forall i, j :: 0 <= i < j < |diffs| ==> Below(diffs[i].key, diffs[j].key)
    ensures DiffKeys(diffs) == Mismatched(a, b)
    ensures forall i :: 0 <= i < |diffs| ==> diffs[i].valueA == Get(a, diffs[i].key) && diffs[i].valueB == Get(b, diffs[i].key)
  {
    diffs := [];
    ok := true;
    var keys := SortKeys(a.Keys + b.Keys);
    for n := 0 to |keys|
      invariant diffs == DiffsAmong(a, b, keys[..n])
      invariant ok <==> diffs == []
    {
      var k := keys[n];
      var va, vb := Get(a, k), Get(b, k);
      DiffsAmongStep(a, b, keys, n);
      if va != vb {
        diffs := diffs + [Diff(k, va, vb)];
        ok := false;
      }
    }
    assert keys[..|keys|] == keys;
    DiffsAmongOfUnion(a, b, keys);
  }

  lemma DiffsAmongStep(a: map<string, string>, b: map<string, string>, keys: seq<string>, n: nat)
    requires n < |keys|
    ensures var k := keys[n];
      DiffsAmong(a, b, keys[..n + 1])
        == DiffsAmong(a, b, keys[..n]) + if Get(a, k) != Get(b, k) then [Diff(k, Get(a, k), Get(b, k))] else []
  {
    assert keys[..n + 1][..n] == keys[..n];
  }

  /** Walking the sorted union of both key sets yields exactly what `Compare` promises. */
  lemma DiffsAmongOfUnion(a: map<string, string>, b: map<string, string>, keys: seq<string>)
    requires StrictlySorted(keys)
    requires forall k :: k in keys <==> k in a.Keys + b.Keys
    ensures var diffs := DiffsAmong(a, b, keys);
      (forall i, j :: 0 <= i < j < |diffs| ==> Below(diffs[i].key, diffs[j].key)) &&
      DiffKeys(diffs) == Mismatched(a, b) &&
      (forall i :: 0 <= i < |diffs| ==> diffs[i].valueA == Get(a, diffs[i].key) && diffs[i].valueB == Get(b, diffs[i].key))
  {
    DiffsAmongSorted(a, b, keys);
    DiffsAmongKeys(a, b, keys);
    DiffsAmongValues(a, b, keys);
    assert MismatchedAmong(a, b, keys) == Mismatched(a, b);
  }

  /** The differences found by walking `keys` in order: the value `compare` builds. */
  function DiffsAmong(a: map<string, string>, b: map<string, string>, keys: seq<string>): seq<Diff> {
    if keys == [] then []
    else
      var k := keys[|keys| - 1];
      DiffsAmong(a, b, keys[..|keys| - 1]) + if Get(a, k) != Get(b, k) then [Diff(k, Get(a, k), Get(b, k))] else []
  }

  /** `DiffsAmong` unfolded once: the last key is recorded exactly when its values differ. */
  lemma LastStep(a: map<string, string>, b: map<string, string>, keys: seq<string>)
    requires keys != []
    ensures var k := keys[|keys| - 1];
      DiffsAmong(a, b, keys)
        == DiffsAmong(a, b, keys[..|keys| - 1]) + if Get(a, k) != Get(b, k) then [Diff(k, Get(a, k), Get(b, k))] else []
  {
  }

  /** Every recorded key is one of the keys walked. */
  lemma {:induction false} DiffsAmongKeysWalked(a: map<string, string>, b: map<string, string>, keys: seq<string>)
    ensures forall i :: 0 <= i < |DiffsAmong(a, b, keys)| ==> DiffsAmong(a, b, keys)[i].key in keys
  {
    if keys != [] {
      var init := keys[..|keys| - 1];
      DiffsAmongKeysWalked(a, b, init);
      LastStep(a, b, keys);
      var before, diffs := DiffsAmong(a, b, init), DiffsAmong(a, b, keys);
      forall i | 0 <= i < |diffs| ensures diffs[i].key in keys {
        if i < |before| {
          assert diffs[i] == before[i];
          var p :| 0 <= p < |init| && init[p] == before[i].key;
          assert keys[p] == init[p];
        }
      }
    }
  }

  /** Over strictly sorted keys, the recorded keys come in increasing order. */
  lemma {:induction false} DiffsAmongSorted(a: map<string, string>, b: map<string, string>, keys: seq<string>)
    requires StrictlySorted(keys)
    ensures var diffs := DiffsAmong(a, b, keys);
      forall i, j :: 0 <= i < j < |diffs| ==> Below(diffs[i].key, diffs[j].key)
  {
    if keys != [] {
      var n := |keys| - 1;
      var init, k := keys[..n], keys[n];
      assert StrictlySorted(init) by {
        forall i, j | 0 <= i < j < |init| ensures Below(init[i], init[j]) {
          assert init[i] == keys[i] && init[j] == keys[j];
        }
      }
      DiffsAmongSorted(a, b, init);
      DiffsAmongKeysWalked(a, b, init);
      LastStep(a, b, keys);
      var before, diffs := DiffsAmong(a, b, init), DiffsAmong(a, b, keys);
      if |diffs| > |before| {
        assert diffs[|before|].key == k;
        forall i | 0 <= i < |before| ensures Below(before[i].key, k) {
          var p :| 0 <= p < |init| && init[p] == before[i].key;
          assert keys[p] == init[p];
        }
      }
    }
  }

  /** The recorded keys are exactly the walked keys whose values differ. */
  lemma {:induction false} DiffsAmongKeys(a: map<string, string>, b: map<string, string>, keys: seq<string>)
    ensures DiffKeys(DiffsAmong(a, b, keys)) == MismatchedAmong(a, b, keys)
  {
    if keys != [] {
      var n := |keys| - 1;
      var init, k := keys[..n], keys[n];
      DiffsAmongKeys(a, b, init);
      LastStep(a, b, keys);
      assert keys[..n + 1] == keys;
      MismatchedAmongStep(a, b, keys, n);
      var before := DiffsAmong(a, b, init);
      if Get(a, k) != Get(b, k) {
        var d := Diff(k, Get(a, k), Get(b, k));
        assert DiffsAmong(a, b, keys) == before + [d];
        DiffKeysAppend(before, d);
        assert MismatchedAmong(a, b, keys) == MismatchedAmong(a, b, init) + {k};
      } else {
        assert DiffsAmong(a, b, keys) == before;
        assert MismatchedAmong(a, b, keys) == MismatchedAmong(a, b, init);
      }
    }
  }

  /** Each record carries the A-side and B-side values of its key. */
  lemma {:induction false} DiffsAmongValues(a: map<string, string>, b: map<string, string>, keys: seq<string>)
    ensures var diffs := DiffsAmong(a, b, keys);
      forall i :: 0 <= i < |diffs| ==> diffs[i].valueA == Get(a, diffs[i].key) && diffs[i].valueB == Get(b, diffs[i].key)
  {
    if keys != [] {
      DiffsAmongValues(a, b, keys[..|keys| - 1]);
      LastStep(a, b, keys);
    }
  }

  lemma MismatchedAmongStep(a: map<string, string>, b: map<string, string>, keys: seq<string>, n: nat)
    requires n < |keys|
    ensures MismatchedAmong(a, b, keys[..n + 1])
      == MismatchedAmong(a, b, keys[..n]) + if Get(a, keys[n]) != Get(b, keys[n]) then {keys[n]} else {}
  {
    assert keys[..n + 1] == keys[..n] + [keys[n]];
  }

  /** The keys among `keys` whose two values differ. */
  function MismatchedAmong(a: map<string, string>, b: map<string, string>, keys: seq<string>): set<string> {
    set k | k in keys && Get(a, k) != Get(b, k)
  }

  lemma DiffKeysAppend(diffs: seq<Diff>, d: Diff)
    ensures DiffKeys(diffs + [d]) == DiffKeys(diffs) + {d.key}
  {
    var longer := diffs + [d];
    assert forall i :: 0 <= i < |diffs| ==> longer[i] == diffs[i];
    assert longer[|diffs|] == d;
  }

  /**
   * A key both maps lack reads as "MISSING" on both sides, so walking only the
   * union of the two key sets loses no difference.
   */
  lemma MissingEverywhereMatches(a: map<string, string>, b: map<string, string>, k: string)
    requires k !in a && k !in b
    ensures Get(a, k) == Get(b, k) == Missing
  {
  }

  /** Every recorded difference pairs two unequal values, and a key never repeats. */
  lemma DiffsAreUnequal(a: map<string, string>, b: map<string, string>, diffs: seq<Diff>)
    requires forall i, j :: 0 <= i < j < |diffs| ==> Below(diffs[i].key, diffs[j].key)
    requires DiffKeys(diffs) == Mismatched(a, b)
    requires forall i :: 0 <= i < |diffs| ==> diffs[i].valueA == Get(a, diffs[i].key) && diffs[i].valueB == Get(b, diffs[i].key)
    ensures forall i :: 0 <= i < |diffs| ==> diffs[i].valueA != diffs[i].valueB
    ensures forall i, j :: 0 <= i < j < |diffs| ==> diffs[i].key != diffs[j].key
  {
    forall i | 0 <= i < |diffs| ensures diffs[i].valueA != diffs[i].valueB {
      assert diffs[i].key in DiffKeys(diffs);
    }
    forall i, j | 0 <= i < j < |diffs| ensures diffs[i].key != diffs[j].key {
      BelowIrreflexive(diffs[i].key);
    }
  }
}
