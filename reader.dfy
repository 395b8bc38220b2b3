/**
 * `read_slots`: one storage read per slot, recorded under the slot's label.
 * The read itself (`get_storage_at` over JSON-RPC, at a fixed address and
 * block) is a parameter: a function from slot index to what the call gives.
 */
module Reader {
  import opened Slots

  /** One `get_storage_at` call: the hex text of the storage word, or the text of the exception it raised. */
  datatype ReadResult = Read(hex: string) | Failed(message: string)

  const ErrorPrefix: string := "ERROR:"

  /** The value `read_slots` records for one read: the word, or `ERROR:` and the exception text. */
  function Cell(r: ReadResult): (v: string)
    ensures r.Failed? ==> ErrorPrefix <= v
  {
    match r
    case Read(hex) => hex
    case Failed(message) => ErrorPrefix + message
  }

  function Labels(slots: seq<Slot>): set<string> {
    set i | 0 <= i < |slots| :: slots[i].name
  }

  /** No later slot carries the label of slot `i`. */
  ghost predicate IsLastWithLabel(slots: seq<Slot>, i: int)
    requires 0 <= i < |slots|
  {
    forall j :: i < j < |slots| ==> slots[j].name != slots[i].name
  }

  /**
   * `out` is what `read_slots` builds: one key per label, holding the cell of
   * the last slot with that label (a later duplicate overwrites an earlier one).
   */
  ghost predicate ReadInto(slots: seq<Slot>, read: nat -> ReadResult, out: map<string, string>) {
    && out.Keys == Labels(slots)
    && forall i :: 0 <= i < |slots| && IsLastWithLabel(slots, i) ==> out[slots[i].name] == Cell(read(slots[i].index))
  }

  /** `read_slots`: a failed read is recorded and the loop goes on. */
  method ReadSlots(slots: seq<Slot>, read: nat -> ReadResult) returns (out: map<string, string>)
    ensures ReadInto(slots, read, out)
  {
    out := map[];
    for n := 0 to |slots|
      invariant ReadInto(slots[..n], read, out)
    {
      assert slots[..n + 1] == slots[..n] + [slots[n]];
      ReadIntoAppend(slots[..n], slots[n], read, out);
      out := out[slots[n].name := Cell(read(slots[n].index))];
    }
    assert slots[..|slots|] == slots;
  }

  /** Reading one more slot overwrites, or adds, the entry for its label. */
  lemma ReadIntoAppend(slots: seq<Slot>, slot: Slot, read: nat -> ReadResult, out: map<string, string>)
    requires ReadInto(slots, read, out)
    ensures ReadInto(slots + [slot], read, out[slot.name := Cell(read(slot.index))])
  {
    var longer, out' := slots + [slot], out[slot.name := Cell(read(slot.index))];
    assert Labels(longer) == Labels(slots) + {slot.name} by {
      assert forall i :: 0 <= i < |slots| ==> longer[i] == slots[i];
      assert longer[|slots|] == slot;
    }
    forall i | 0 <= i < |longer| && IsLastWithLabel(longer, i)
      ensures out'[longer[i].name] == Cell(read(longer[i].index))
    {
      if i < |slots| {
        assert longer[i] == slots[i] && longer[|slots|] == slot;
        forall j | i < j < |slots| ensures slots[j].name != slots[i].name {
          assert longer[j] == slots[j];
        }
      }
    }
  }

  /** The position of the last slot with a given label. */
  function LastWithLabel(slots: seq<Slot>, name: string): (i: nat)
    requires name in Labels(slots)
    ensures i < |slots| && slots[i].name == name && IsLastWithLabel(slots, i)
  {
    var n := |slots| - 1;
    if slots[n].name == name then n
    else
      assert name in Labels(slots[..n]) by {
        var k :| 0 <= k < |slots| && slots[k].name == name;
        assert slots[..n][k] == slots[k];
      }
      var i := LastWithLabel(slots[..n], name);
      assert slots[..n][i] == slots[i];
      i
  }

  /**
   * Every label of the input is a key, and its value is the word read for the
   * last slot with that label, or `ERROR:` and a message when that read failed.
   */
  lemma ReadValues(slots: seq<Slot>, read: nat -> ReadResult, out: map<string, string>)
    requires ReadInto(slots, read, out)
    ensures forall i :: 0 <= i < |slots| ==> slots[i].name in out
    ensures forall name :: name in out ==>
      var last := slots[LastWithLabel(slots, name)];
      match read(last.index)
      case Read(hex) => out[name] == hex
      case Failed(_) => ErrorPrefix <= out[name]
  {
    forall name | name in out
      ensures var last := slots[LastWithLabel(slots, name)];
        match read(last.index)
        case Read(hex) => out[name] == hex
        case Failed(_) => ErrorPrefix <= out[name]
    {
      var i := LastWithLabel(slots, name);
      assert out[name] == Cell(read(slots[i].index));
    }
  }

  /** The same slots read through the same reader always give the same map. */
  lemma ReadIntoIsUnique(slots: seq<Slot>, read: nat -> ReadResult, out1: map<string, string>, out2: map<string, string>)
    requires ReadInto(slots, read, out1) && ReadInto(slots, read, out2)
    ensures out1 == out2
  {
    forall name | name in out1 ensures out1[name] == out2[name] {
      var i := LastWithLabel(slots, name);
    }
  }
}
