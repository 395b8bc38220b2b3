/**
 * Concrete runs derived from the contracts alone: the comparator on two
 * small maps, and one `--slot 0x0` run against endpoints that agree or
 * disagree on slot 0.
 */
module Scenarios {
  import opened Wrappers
  import opened Order
  import opened Hex
  import opened Slots
  import opened Reader
  import opened Comparator
  import opened Report

  /** A diff list with a single key holds one entry. */
  lemma SingleDiff(diffs: seq<Diff>, k: string)
    requires forall i, j :: 0 <= i < j < |diffs| ==> Below(diffs[i].key, diffs[j].key)
    requires DiffKeys(diffs) == {k}
    ensures |diffs| == 1 && diffs[0].key == k
  {
    assert diffs[0].key in DiffKeys(diffs);
    if |diffs| > 1 {
      assert diffs[1].key in DiffKeys(diffs);
      BelowIrreflexive(k);
    }
  }

  method CompareOneDifferentValue() {
    var a := map["x" := "0x1", "y" := "0x2"];
    var b := map["x" := "0x1", "y" := "0x3"];
    var diffs, ok := Compare(a, b);
    assert Get(a, "x") == Get(b, "x");
    assert Mismatched(a, b) == {"y"};
    SingleDiff(diffs, "y");
    assert diffs == [Diff("y", "0x2", "0x3")] && !ok;
  }

  method CompareOneMissingKey() {
    var a := map["x" := "0x1"];
    var b: map<string, string> := map[];
    var diffs, ok := Compare(a, b);
    assert Mismatched(a, b) == {"x"};
    SingleDiff(diffs, "x");
    assert diffs == [Diff("x", "0x1", "MISSING")] && !ok;
  }

  lemma ParseZero()
    ensures ParsedSlots(["0x0"], None, Ok([Slot("0x0", 0)]))
  {
    ParseSlotHexOfToHex(0);
    assert ToHex(0) == "0x0";
    assert ':' !in "0x0";
    assert FlagEntry("0x0") == Ok(Slot("0x0", 0));
  }

  /** `--slot 0x0` read as `word` from A and `wordB` from B: exit code 0 exactly when the two agree. */
  method SingleSlotRun(word: string, wordB: string) {
    ParseZero();
    var inv := Invocation("http://a", "https://b", true, ["0x0"], None, true, true);
    var outcome, code := Run(inv, (n: nat) => Read(word), (n: nat) => Read(wordB));
    ParsedSlotsIsUnique(inv.slotArgs, inv.manifest, Ok(outcome.slots), Ok([Slot("0x0", 0)]));
    assert outcome.slots == [Slot("0x0", 0)];
    assert Labels(outcome.slots) == {"0x0"};
    assert IsLastWithLabel(outcome.slots, 0);
    assert outcome.valuesA["0x0"] == word && outcome.valuesB["0x0"] == wordB;
    assert code == if word == wordB then 0 else 2;
    assert outcome.lines == [Line("0x0", word, wordB, word == wordB)];
  }
}
