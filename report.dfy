/**
 * The checking and reporting logic of `main`: the URL scheme check, the
 * per-slot MATCH/DIFF lines with their mismatch count, the exit code, and
 * the order in which the stages run. Printing is left out; the lines and
 * the count are returned instead.
 */
module Report {
  import opened Wrappers
  import opened Slots
  import opened Reader
  import opened Comparator

  /** `str(url).startswith(("http://", "https://"))`. */
  predicate ValidUrl(url: string) {
    "http://" <= url || "https://" <= url
  }

  /** One per-slot line of the report: the label, both values, and MATCH (`true`) or DIFF (`false`). */
  datatype Line = Line(name: string, valueA: string, valueB: string, matches: bool)

  /** The positions in the slot list whose A and B values differ, "MISSING" standing in for an absent label. */
  function MismatchPositions(slots: seq<Slot>, a: map<string, string>, b: map<string, string>): set<int> {
    set i | 0 <= i < |slots| && Get(a, slots[i].name) != Get(b, slots[i].name)
  }

  /** The line `main` prints for one slot. */
  function LineFor(slot: Slot, a: map<string, string>, b: map<string, string>): Line {
    Line(slot.name, Get(a, slot.name), Get(b, slot.name), Get(a, slot.name) == Get(b, slot.name))
  }

  /** One more slot adds one to the count exactly when its values differ. */
  lemma MismatchCountStep(slots: seq<Slot>, n: nat, a: map<string, string>, b: map<string, string>)
    requires n < |slots|
    ensures |MismatchPositions(slots[..n + 1], a, b)|
      == |MismatchPositions(slots[..n], a, b)| + if LineFor(slots[n], a, b).matches then 0 else 1
  {
    var before, after := MismatchPositions(slots[..n], a, b), MismatchPositions(slots[..n + 1], a, b);
    var added := if LineFor(slots[n], a, b).matches then {} else {n};
    assert after == before + added by {
      forall i ensures i in after <==> i in before + added {
        if 0 <= i < n {
          assert slots[..n + 1][i] == slots[..n][i];
        } else if i == n {
          assert slots[..n + 1][n] == slots[n];
        }
      }
    }
    assert n !in before;
  }

  /**
   * The comparison loop of `main`: one line per slot in input order, a label
   * that occurs twice is reported and counted twice, and the count is the
   * number of positions whose values differ.
   */
  method CompareSlots(slots: seq<Slot>, a: map<string, string>, b: map<string, string>) returns (lines: seq<Line>, mismatches: nat)
    ensures |lines| == |slots|
    ensures forall i :: 0 <= i < |slots| ==>
      var name := slots[i].name;
      lines[i] == Line(name, Get(a, name), Get(b, name), Get(a, name) == Get(b, name))
    ensures mismatches == |MismatchPositions(slots, a, b)| && mismatches <= |slots|
    ensures mismatches == 0 <==> forall i :: 0 <= i < |lines| ==> lines[i].matches
  {
    lines := [];
    mismatches := 0;
    for n := 0 to |slots|
      invariant |lines| == n
      invariant forall i :: 0 <= i < n ==> lines[i] == LineFor(slots[i], a, b)
      invariant mismatches == |MismatchPositions(slots[..n], a, b)| && mismatches <= n
    {
      var line := LineFor(slots[n], a, b);
      lines := lines + [line];
      MismatchCountStep(slots, n, a, b);
      if !line.matches {
        mismatches := mismatches + 1;
      }
    }
    assert slots[..|slots|] == slots;
    NoMismatchPositions(slots, a, b);
  }

  lemma NoMismatchPositions(slots: seq<Slot>, a: map<string, string>, b: map<string, string>)
    ensures |MismatchPositions(slots, a, b)| == 0 <==>
      forall i :: 0 <= i < |slots| ==> Get(a, slots[i].name) == Get(b, slots[i].name)
  {
    var positions := MismatchPositions(slots, a, b);
    if |positions| != 0 {
      var i :| i in positions;
    } else {
      assert positions == {};
      forall i | 0 <= i < |slots| ensures Get(a, slots[i].name) == Get(b, slots[i].name) {
        assert i !in positions;
      }
    }
  }

  datatype Endpoint = EndpointA | EndpointB

  /**
   * What a run of the tool depends on. `addressValid` is the verdict of the
   * checksum library on `--address`; `connectedA` and `connectedB` are what
   * `is_connected()` answers; an empty `slotArgs` and a `None` manifest stand
   * for absent options.
   */
  datatype Invocation = Invocation(
    rpcA: string,
    rpcB: string,
    addressValid: bool,
    slotArgs: seq<string>,
    manifest: Option<Json>,
    connectedA: bool,
    connectedB: bool)

  /** How a run ends. */
  datatype Outcome =
    | InvalidUrl(endpoint: Endpoint)
    | InvalidAddress
    | InvalidSlots(error: SlotError)
    | ConnectionFailed(endpoint: Endpoint)
    | Compared(slots: seq<Slot>, valuesA: map<string, string>, valuesB: map<string, string>, lines: seq<Line>, mismatches: nat)

  /** The process exit status: 0 when every slot matches, 2 on a mismatch, 1 when the run stopped early. */
  function ExitCode(outcome: Outcome): int {
    match outcome
    case Compared(_, _, _, _, mismatches) => if mismatches == 0 then 0 else 2
    case _ => 1
  }

  ghost predicate InputsValid(inv: Invocation) {
    ValidUrl(inv.rpcA) && ValidUrl(inv.rpcB) && inv.addressValid
  }

  /**
   * `main` without its printing: check both URLs, then the address and the
   * slots, then both connections, then read A, read B and compare slot by slot.
   */
  method Run(inv: Invocation, readA: nat -> ReadResult, readB: nat -> ReadResult) returns (outcome: Outcome, code: int)
    ensures code == ExitCode(outcome)
    ensures !ValidUrl(inv.rpcA) ==> outcome == InvalidUrl(EndpointA)
    ensures ValidUrl(inv.rpcA) && !ValidUrl(inv.rpcB) ==> outcome == InvalidUrl(EndpointB)
    ensures ValidUrl(inv.rpcA) && ValidUrl(inv.rpcB) && !inv.addressValid ==> outcome == InvalidAddress
    ensures outcome.InvalidUrl? ==>
      (outcome.endpoint == EndpointA <==> !ValidUrl(inv.rpcA)) && !(ValidUrl(inv.rpcA) && ValidUrl(inv.rpcB))
    ensures outcome == InvalidAddress ==> ValidUrl(inv.rpcA) && ValidUrl(inv.rpcB) && !inv.addressValid
    ensures InputsValid(inv) && (forall slots :: !ParsedSlots(inv.slotArgs, inv.manifest, Ok(slots)))
      ==> outcome.InvalidSlots?
    ensures InputsValid(inv) && (exists slots :: ParsedSlots(inv.slotArgs, inv.manifest, Ok(slots))) && !inv.connectedA
      ==> outcome == ConnectionFailed(EndpointA)
    ensures InputsValid(inv) && (exists slots :: ParsedSlots(inv.slotArgs, inv.manifest, Ok(slots))) && inv.connectedA && !inv.connectedB
      ==> outcome == ConnectionFailed(EndpointB)
    ensures outcome.InvalidSlots? ==> InputsValid(inv) && ParsedSlots(inv.slotArgs, inv.manifest, Err(outcome.error))
    ensures outcome.ConnectionFailed? ==>
      && InputsValid(inv)
      && (exists slots :: ParsedSlots(inv.slotArgs, inv.manifest, Ok(slots)))
      && (outcome.endpoint == EndpointA <==> !inv.connectedA)
      && (outcome.endpoint == EndpointB ==> !inv.connectedB)
    ensures outcome.Compared? ==>
      && InputsValid(inv) && inv.connectedA && inv.connectedB
      && ParsedSlots(inv.slotArgs, inv.manifest, Ok(outcome.slots))
      && ReadInto(outcome.slots, readA, outcome.valuesA)
      && ReadInto(outcome.slots, readB, outcome.valuesB)
      && |outcome.lines| == |outcome.slots|
      && (forall i :: 0 <= i < |outcome.slots| ==> outcome.lines[i] == LineFor(outcome.slots[i], outcome.valuesA, outcome.valuesB))
      && outcome.mismatches == |MismatchPositions(outcome.slots, outcome.valuesA, outcome.valuesB)|
    ensures InputsValid(inv) && inv.connectedA && inv.connectedB && (exists slots :: ParsedSlots(inv.slotArgs, inv.manifest, Ok(slots)))
      ==> outcome.Compared?
    ensures code == 0 <==> (outcome.Compared? &&
      forall i :: 0 <= i < |outcome.slots| ==> Get(outcome.valuesA, outcome.slots[i].name) == Get(outcome.valuesB, outcome.slots[i].name))
    ensures code == 2 <==> (outcome.Compared? &&
      exists i :: 0 <= i < |outcome.slots| && Get(outcome.valuesA, outcome.slots[i].name) != Get(outcome.valuesB, outcome.slots[i].name))
    ensures code == 1 <==> !outcome.Compared?
  {
    if !ValidUrl(inv.rpcA) {
      outcome := InvalidUrl(EndpointA);
    } else if !ValidUrl(inv.rpcB) {
      outcome := InvalidUrl(EndpointB);
    } else if !inv.addressValid {
      outcome := InvalidAddress;
    } else {
      var parsed := ParseSlots(inv.slotArgs, inv.manifest);
      if parsed.Err? {
        outcome := InvalidSlots(parsed.error);
        forall slots | ParsedSlots(inv.slotArgs, inv.manifest, Ok(slots)) ensures false {
          ParsedSlotsIsUnique(inv.slotArgs, inv.manifest, parsed, Ok(slots));
        }
      } else if !inv.connectedA {
        assert ParsedSlots(inv.slotArgs, inv.manifest, Ok(parsed.value));
        outcome := ConnectionFailed(EndpointA);
      } else if !inv.connectedB {
        assert ParsedSlots(inv.slotArgs, inv.manifest, Ok(parsed.value));
        outcome := ConnectionFailed(EndpointB);
      } else {
        var slots := parsed.value;
        assert ParsedSlots(inv.slotArgs, inv.manifest, Ok(slots));
        var valuesA := ReadSlots(slots, readA);
        var valuesB := ReadSlots(slots, readB);
        var lines, mismatches := CompareSlots(slots, valuesA, valuesB);
        outcome := Compared(slots, valuesA, valuesB, lines, mismatches);
        if mismatches != 0 {
          var i :| i in MismatchPositions(slots, valuesA, valuesB);
        }
      }
    }
    code := ExitCode(outcome);
  }

  /**
   * On maps that `read_slots` built from one slot list, `main`'s count and
   * `compare` see the same differences: the keys `compare` reports are the
   * labels at the positions `main` counts, so the count is zero exactly when
   * `compare` answers `ok`.
   */
  lemma CountAgreesWithCompare(slots: seq<Slot>, readA: nat -> ReadResult, readB: nat -> ReadResult,
                               a: map<string, string>, b: map<string, string>)
    requires ReadInto(slots, readA, a) && ReadInto(slots, readB, b)
    ensures Mismatched(a, b) == set i | 0 <= i < |slots| && i in MismatchPositions(slots, a, b) :: slots[i].name
    ensures |MismatchPositions(slots, a, b)| == 0 <==> Mismatched(a, b) == {}
  {
    var named := set i | 0 <= i < |slots| && i in MismatchPositions(slots, a, b) :: slots[i].name;
    forall k | k in Mismatched(a, b) ensures k in named {
      var i := LastWithLabel(slots, k);
      assert i in MismatchPositions(slots, a, b);
    }
    if MismatchPositions(slots, a, b) != {} {
      var i :| i in MismatchPositions(slots, a, b);
      assert slots[i].name in Mismatched(a, b);
    }
  }

  /**
   * Two endpoints that answer every slot of the list alike produce no
   * mismatch. This includes reads that fail on both sides with the same
   * message: such a slot is reported as a MATCH.
   */
  lemma AgreeingReadsMatch(slots: seq<Slot>, readA: nat -> ReadResult, readB: nat -> ReadResult,
                           a: map<string, string>, b: map<string, string>)
    requires ReadInto(slots, readA, a) && ReadInto(slots, readB, b)
    requires forall i :: 0 <= i < |slots| ==> readA(slots[i].index) == readB(slots[i].index)
    ensures a == b
    ensures MismatchPositions(slots, a, b) == {}
  {
    forall name | name in a ensures a[name] == b[name] {
      var i := LastWithLabel(slots, name);
    }
    assert a == b;
  }
}
