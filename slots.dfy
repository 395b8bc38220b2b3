/**
 * The slot-spec parser: `parse_slot_hex` turns one `0x`-hex string into a slot
 * index, and `parse_slots` turns the repeated `--slot` items, or else an
 * already-decoded manifest, into the ordered list of (label, index) pairs.
 */
module Slots {
  import opened Wrappers
  import opened Text
  import opened Hex

  /** One storage slot to compare: its label `name`, which it is reported under and its index. */
  datatype Slot = Slot(name: string, index: nat)

  /** The exceptions the parser raises; `main` turns each into exit code 1. */
  datatype SlotError =
    | NotHexPrefixed(raw: string)  // "Slot must be 0x-prefixed hex"
    | InvalidHex(raw: string)      // "Invalid slot hex": `int(s, 16)` refused the text
    | NotAString                   // a manifest entry that is not a string has no `strip()`
    | BadManifestShape             // the manifest is neither a list nor a mapping
    | NoSlotsProvided              // neither `--slot` nor `--manifest` was given

  /**
   * A decoded JSON manifest. An object's members are in the order `dict.items()`
   * gives. A decoded dict never repeats a key, but this type allows repeats, so
   * it is wider than what `json.load` produces; `DistinctKeys` marks the objects
   * a decoder can actually return.
   */
  datatype Json =
    | JNull
    | JBool(b: bool)
    | JNumber(literal: string)
    | JString(s: string)
    | JArray(items: seq<Json>)
    | JObject(members: seq<(string, Json)>)

  /** The text `parse_slot_hex` examines: `raw.strip().lower()`. */
  function Normalized(raw: string): string {
    Lower(Strip(raw))
  }

  /** `0x` followed by one or more hex digits. */
  predicate IsSlotHexText(s: string) {
    |s| > 2 && s[0] == '0' && s[1] == 'x' && AllHexDigits(s[2..])
  }

  /** `parse_slot_hex`: the base-16 value after the `0x` prefix of the stripped, lower-cased text. */
  function ParseSlotHex(raw: string): (r: Result<nat, SlotError>)
    ensures r.Ok? <==> IsSlotHexText(Normalized(raw))
    ensures r.Ok? ==> r.value == HexValue(Normalized(raw)[2..])
    ensures r.Err? ==> r.error == if "0x" <= Normalized(raw) then InvalidHex(raw) else NotHexPrefixed(raw)
  {
    var s := Lower(Strip(raw));
    if !("0x" <= s) then Err(NotHexPrefixed(raw))
    else match ParseDigits(s[2..])
      case None => Err(InvalidHex(raw))
      case Some(n) => Ok(n)
  }

  /** Two parses agree on success, on the value and on the kind of error. */
  predicate SameOutcome(r1: Result<nat, SlotError>, r2: Result<nat, SlotError>) {
    && r1.Ok? == r2.Ok?
    && (r1.Ok? ==> r1.value == r2.value)
    && (r1.Err? ==> r1.error.NotHexPrefixed? == r2.error.NotHexPrefixed?)
  }

  /** Changing the case of letters never changes what `parse_slot_hex` decides. */
  lemma ParseSlotHexIgnoresCase(raw1: string, raw2: string)
    requires Lower(raw1) == Lower(raw2)
    ensures SameOutcome(ParseSlotHex(raw1), ParseSlotHex(raw2))
  {
    LowerStrip(raw1);
    LowerStrip(raw2);
    assert Normalized(raw1) == Normalized(raw2);
  }

  /** Whitespace around the text never changes what `parse_slot_hex` decides. */
  lemma ParseSlotHexIgnoresPadding(pre: string, raw: string, post: string)
    requires AllSpace(pre) && AllSpace(post)
    ensures SameOutcome(ParseSlotHex(pre + raw + post), ParseSlotHex(raw))
  {
    StripPadded(pre, raw, post);
  }

  /** `hex(n)` has no surrounding whitespace and no upper-case letter. */
  lemma ToHexIsNormalized(n: nat)
    ensures Normalized(ToHex(n)) == ToHex(n)
  {
    var h, d := ToHex(n), Digits(n);
    assert h[0] == '0' && h[|h| - 1] == d[|d| - 1];
    StripUnpadded(h);
    forall i | 0 <= i < |h| ensures !('A' <= h[i] <= 'Z') {
      if i >= 2 { assert h[i] == d[i - 2]; }
    }
    LowerNoUpper(h);
  }

  /** `parse_slot_hex(hex(n)) == n`: the JSON report's `hex(index)` reads back as the index. */
  lemma ParseSlotHexOfToHex(n: nat)
    ensures ParseSlotHex(ToHex(n)) == Ok(n)
  {
    ToHexIsNormalized(n);
    assert ToHex(n)[2..] == Digits(n);
    DigitsValue(n);
  }

  /** An accepted slot text of k characters after stripping has a value below 16^(k-2). */
  lemma ParsedIndexBound(raw: string)
    requires ParseSlotHex(raw).Ok?
    ensures ParseSlotHex(raw).value < Pow16(|Strip(raw)| - 2)
  {
    HexValueBound(Normalized(raw)[2..]);
  }

  /** The index of the first colon. */
  function FirstColon(s: string): (i: nat)
    requires ':' in s
    ensures i < |s| && s[i] == ':' && ':' !in s[..i]
  {
    if s[0] == ':' then 0 else 1 + FirstColon(s[1..])
  }

  /**
   * The (label, raw) pair of a `--slot` item: `item.split(":", 1)` when it has
   * a colon, so the label is the colon-free text before the first colon;
   * otherwise the item is both the label and the raw text.
   */
  function SplitLabel(item: string): (parts: (string, string))
    ensures ':' in item ==> ':' !in parts.0 && item == parts.0 + ":" + parts.1
    ensures ':' !in item ==> parts == (item, item)
  {
    if ':' in item then
      var i := FirstColon(item);
      assert item == item[..i] + ":" + item[i + 1..];
      (item[..i], item[i + 1..])
    else (item, item)
  }

  /** The entry `(label, parse_slot_hex(raw))`. */
  function SlotOf(name: string, raw: string): Result<Slot, SlotError> {
    match ParseSlotHex(raw)
    case Ok(n) => Ok(Slot(name, n))
    case Err(e) => Err(e)
  }

  /** The entry of one `--slot` item. */
  function FlagEntry(item: string): Result<Slot, SlotError> {
    var (name, raw) := SplitLabel(item);
    SlotOf(name, raw)
  }

  /** The entry of one element of a list manifest: the raw string is its own label. */
  function ListEntry(raw: Json): Result<Slot, SlotError> {
    if raw.JString? then SlotOf(raw.s, raw.s) else Err(NotAString)
  }

  /** The entry of one member of a mapping manifest: its key is the label. */
  function MemberEntry(member: (string, Json)): Result<Slot, SlotError> {
    if member.1.JString? then SlotOf(member.0, member.1.s) else Err(NotAString)
  }

  /**
   * `r` is what appending `entry(x)` for each item in order gives: the list of
   * all entries, or the error of the first item that fails.
   */
  ghost predicate Collected<T>(items: seq<T>, entry: T -> Result<Slot, SlotError>, r: Result<seq<Slot>, SlotError>) {
    match r
    case Ok(slots) =>
      |slots| == |items| && forall i :: 0 <= i < |items| ==> entry(items[i]) == Ok(slots[i])
    case Err(e) =>
      exists i :: 0 <= i < |items| && entry(items[i]) == Err(e) && forall j :: 0 <= j < i ==> entry(items[j]).Ok?
  }

  /** One of the loops of `parse_slots`: append each item's entry; a failing item raises. */
  method CollectSlots<T>(items: seq<T>, entry: T -> Result<Slot, SlotError>) returns (r: Result<seq<Slot>, SlotError>)
    ensures Collected(items, entry, r)
  {
    var slots: seq<Slot> := [];
    for i := 0 to |items|
      invariant |slots| == i
      invariant forall j :: 0 <= j < i ==> entry(items[j]) == Ok(slots[j])
    {
      var e := entry(items[i]);
      if e.Err? {
        return Err(e.error);
      }
      slots := slots + [e.value];
    }
    return Ok(slots);
  }

  /**
   * What `parse_slots` returns: non-empty `--slot` items come first; then the
   * manifest, a list or a mapping; with neither there is no slot to read.
   */
  ghost predicate ParsedSlots(slotArgs: seq<string>, manifest: Option<Json>, r: Result<seq<Slot>, SlotError>) {
    if slotArgs != [] then Collected(slotArgs, FlagEntry, r)
    else match manifest
      case None => r == Err(NoSlotsProvided)
      case Some(JArray(items)) => Collected(items, ListEntry, r)
      case Some(JObject(members)) => Collected(members, MemberEntry, r)
      case Some(_) => r == Err(BadManifestShape)
  }

  /** `parse_slots`; an empty `slotArgs` stands for an absent `--slot`, `None` for an absent `--manifest`. */
  method ParseSlots(slotArgs: seq<string>, manifest: Option<Json>) returns (r: Result<seq<Slot>, SlotError>)
    ensures ParsedSlots(slotArgs, manifest, r)
  {
    if slotArgs != [] {
      r := CollectSlots(slotArgs, FlagEntry);
      return;
    }
    match manifest {
      case None =>
        r := Err(NoSlotsProvided);
      case Some(JArray(items)) =>
        r := CollectSlots(items, ListEntry);
      case Some(JObject(members)) =>
        r := CollectSlots(members, MemberEntry);
      case Some(_) =>
        r := Err(BadManifestShape);
    }
  }

  /** There is one outcome of collecting: the first failing item decides the error. */
  lemma CollectedIsUnique<T>(items: seq<T>, entry: T -> Result<Slot, SlotError>, r1: Result<seq<Slot>, SlotError>, r2: Result<seq<Slot>, SlotError>)
    requires Collected(items, entry, r1) && Collected(items, entry, r2)
    ensures r1 == r2
  {
    if r1.Ok? && r2.Ok? {
      forall i | 0 <= i < |r1.value| ensures r1.value[i] == r2.value[i] {
        assert entry(items[i]) == Ok(r1.value[i]);
      }
      assert r1.value == r2.value;
    } else if r1.Err? && r2.Err? {
      var i1 :| 0 <= i1 < |items| && entry(items[i1]) == Err(r1.error) && forall j :: 0 <= j < i1 ==> entry(items[j]).Ok?;
      var i2 :| 0 <= i2 < |items| && entry(items[i2]) == Err(r2.error) && forall j :: 0 <= j < i2 ==> entry(items[j]).Ok?;
      assert !(i1 < i2) && !(i2 < i1);
    }
  }

  /** `parse_slots` has one outcome for given arguments. */
  lemma ParsedSlotsIsUnique(slotArgs: seq<string>, manifest: Option<Json>, r1: Result<seq<Slot>, SlotError>, r2: Result<seq<Slot>, SlotError>)
    requires ParsedSlots(slotArgs, manifest, r1) && ParsedSlots(slotArgs, manifest, r2)
    ensures r1 == r2
  {
    if slotArgs != [] {
      CollectedIsUnique(slotArgs, FlagEntry, r1, r2);
    } else if manifest.Some? && manifest.value.JArray? {
      CollectedIsUnique(manifest.value.items, ListEntry, r1, r2);
    } else if manifest.Some? && manifest.value.JObject? {
      CollectedIsUnique(manifest.value.members, MemberEntry, r1, r2);
    }
  }

  /** With `--slot` items the manifest is never consulted. */
  lemma FlagsTakePriority(slotArgs: seq<string>, m1: Option<Json>, m2: Option<Json>, r: Result<seq<Slot>, SlotError>)
    requires slotArgs != [] && ParsedSlots(slotArgs, m1, r)
    ensures ParsedSlots(slotArgs, m2, r)
  {
  }

  /**
   * With `--slot` items there is one entry per item, in order: the label is the
   * text before the first colon and the index parses from the rest; an item
   * without a colon is its own label. Any bad item fails the whole call.
   */
  lemma FlagSlots(slotArgs: seq<string>, manifest: Option<Json>, r: Result<seq<Slot>, SlotError>)
    requires slotArgs != [] && ParsedSlots(slotArgs, manifest, r)
    ensures r.Ok? <==> forall i :: 0 <= i < |slotArgs| ==> ParseSlotHex(SplitLabel(slotArgs[i]).1).Ok?
    ensures r.Ok? ==> |r.value| == |slotArgs|
    ensures r.Ok? ==> forall i :: 0 <= i < |slotArgs| ==>
      var item, slot := slotArgs[i], r.value[i];
      && (':' in item ==> ':' !in slot.name && exists raw :: item == slot.name + ":" + raw && ParseSlotHex(raw) == Ok(slot.index))
      && (':' !in item ==> slot.name == item && ParseSlotHex(item) == Ok(slot.index))
  {
    if r.Ok? {
      forall i | 0 <= i < |slotArgs|
        ensures var item, slot := slotArgs[i], r.value[i];
          && (':' in item ==> ':' !in slot.name && exists raw :: item == slot.name + ":" + raw && ParseSlotHex(raw) == Ok(slot.index))
          && (':' !in item ==> slot.name == item && ParseSlotHex(item) == Ok(slot.index))
      {
        assert FlagEntry(slotArgs[i]) == Ok(r.value[i]);
      }
    } else {
      var i :| 0 <= i < |slotArgs| && FlagEntry(slotArgs[i]) == Err(r.error);
    }
  }

  predicate DistinctKeys(members: seq<(string, Json)>) {
    forall i, j :: 0 <= i < j < |members| ==> members[i].0 != members[j].0
  }

  /**
   * Without `--slot` items the manifest's shape decides: a list gives one entry
   * per element, labelled by the element's own text; a mapping gives one entry
   * per key, labelled by the key; anything else is refused.
   */
  lemma ManifestSlots(manifest: Json, r: Result<seq<Slot>, SlotError>)
    requires ParsedSlots([], Some(manifest), r)
    ensures !manifest.JArray? && !manifest.JObject? ==> r == Err(BadManifestShape)
    ensures manifest.JArray? ==>
      var items := manifest.items;
      && (r.Ok? <==> forall i :: 0 <= i < |items| ==> items[i].JString? && ParseSlotHex(items[i].s).Ok?)
      && (r.Ok? ==> |r.value| == |items| && forall i :: 0 <= i < |items| ==>
            items[i] == JString(r.value[i].name) && ParseSlotHex(r.value[i].name) == Ok(r.value[i].index))
    ensures manifest.JObject? ==>
      var members := manifest.members;
      && (r.Ok? <==> forall i :: 0 <= i < |members| ==> members[i].1.JString? && ParseSlotHex(members[i].1.s).Ok?)
      && (r.Ok? ==> |r.value| == |members| && forall i :: 0 <= i < |members| ==>
            r.value[i].name == members[i].0 && members[i].1.JString? && ParseSlotHex(members[i].1.s) == Ok(r.value[i].index))
      && (r.Ok? && DistinctKeys(members) ==> forall i, j :: 0 <= i < j < |r.value| ==> r.value[i].name != r.value[j].name)
  {
    match manifest {
      case JArray(items) =>
        if r.Ok? {
          forall i | 0 <= i < |items|
            ensures items[i] == JString(r.value[i].name) && ParseSlotHex(r.value[i].name) == Ok(r.value[i].index)
          {
            assert ListEntry(items[i]) == Ok(r.value[i]);
          }
        } else {
          var i :| 0 <= i < |items| && ListEntry(items[i]) == Err(r.error);
        }
      case JObject(members) =>
        if r.Ok? {
          forall i | 0 <= i < |members|
            ensures r.value[i].name == members[i].0 && members[i].1.JString? && ParseSlotHex(members[i].1.s) == Ok(r.value[i].index)
          {
            assert MemberEntry(members[i]) == Ok(r.value[i]);
          }
        } else {
          var i :| 0 <= i < |members| && MemberEntry(members[i]) == Err(r.error);
        }
      case _ =>
    }
  }

  /** With neither `--slot` nor `--manifest` the parser refuses. */
  lemma NoSlotSource(r: Result<seq<Slot>, SlotError>)
    ensures ParsedSlots([], None, r) <==> r == Err(NoSlotsProvided)
  {
  }
}
