# zk-slot-soundness, modelled in Dafny

`zk-slot-soundness` is a command-line tool. It reads raw contract-storage words for a list of slots from two JSON-RPC endpoints (two chains or two blocks), compares them label by label, and exits with 0 when every slot matches, 2 on a mismatch and 1 when input validation or a connection fails.

This project models the logic of `application.py` and proves properties of it:

- the slot-hex parser `parse_slot_hex`;
- the slot-spec builder `parse_slots`, from repeated `--slot` items or from an already-decoded manifest;
- the reader loop `read_slots`, with the storage read given as a function;
- the comparator `compare`, over the sorted union of both maps' keys;
- from `main`: the URL scheme check, the per-slot MATCH/DIFF loop with its mismatch count, the exit code, and the order of the stages.

Files and modules, in dependency order:

| file | module | models |
|---|---|---|
| `wrappers.dfy` | `Wrappers` | `Option` and `Result`: absent values and raised exceptions |
| `text.dfy` | `Text` | `str.strip()`, `str.lower()`; `startswith` is Dafny's prefix test `<=` |
| `hex.dfy` | `Hex` | the digit loop of `int(s, 16)`, the positional value of a digit string, `hex(n)` |
| `slots.dfy` | `Slots` | `parse_slot_hex`, the `label:0xHEX` split, the decoded manifest, `parse_slots` |
| `reader.dfy` | `Reader` | `read_slots` and its `ERROR:` marker |
| `order.dfy` | `Order` | Python's `<` on `str`, and `sorted()` of a set of keys |
| `comparator.dfy` | `Comparator` | `compare` and the `"MISSING"` default |
| `report.dfy` | `Report` | the URL check, the per-slot loop and count, the exit code, `main` as `Run` |
| `scenarios.dfy` | `Scenarios` | concrete runs checked against the contracts: two small comparator cases, one `--slot 0x0` run |

The imperative parts of the source are methods. `CollectSlots` (the three append loops of `parse_slots`), `ReadSlots`, `SortKeys`, `Compare` and `CompareSlots` have loops. `Run` has none: it runs the stages in order and calls `ParseSlots`, `ReadSlots` and `CompareSlots`. Each method is proved against a postcondition that says what its result means. The pure parts are functions, and the properties that relate several calls are lemmas.

Points about `application.py` that the model makes explicit:

- **`--slot` and `--manifest` together.** The code accepts both and ignores the manifest when `--slot` is given (`FlagsTakePriority`).
- **Slot index width.** The code accepts an index of any size, so the index is a `nat`. `ParsedIndexBound` bounds it by the number of digits: 64 digits give a value below 2^256.
- **Whitespace.** `parse_slot_hex` strips surrounding whitespace before it checks the prefix.
- **`compare` is unused.** `main` never calls `compare`; it runs its own loop over the slot list. Both are modelled. `CountAgreesWithCompare` shows that they agree on maps built by `read_slots`.

## Model

| member | source | states |
|---|---|---|
| `Text.TrimStart` | application.py:54 | the leading part of `strip()`: the result is a suffix of the input, everything dropped is Python whitespace, and the result does not start with whitespace |
| `Text.TrimEnd` | application.py:54 | the trailing part of `strip()`: the result is a prefix of the input, everything dropped is whitespace, and the result does not end with whitespace |
| `Text.Strip` | application.py:54 | `str.strip()`: `TrimEnd` after `TrimStart`, which drops the leading and the trailing Python whitespace |
| `Text.Lower` | application.py:54 | `str.lower()`: each ASCII upper-case letter is replaced by its lower-case letter and every other character is kept, at the same position |
| `Text.LowerStrip` | application.py:54 | lower-casing and stripping commute, so `raw.strip().lower()` equals `raw.lower().strip()` |
| `Text.StripPadded` | application.py:54 | whitespace added before and after a string never changes what `strip()` returns |
| `Hex.ReadDigits` | application.py:58 | the digit loop of `int(s, 16)` succeeds exactly when every character is a hex digit |
| `Hex.ReadDigitsValue` | application.py:58 | the left-to-right accumulating loop computes the positional base-16 value of the digits |
| `Hex.ParseDigits` | application.py:57-60 | `int(digits, 16)` succeeds exactly when there is at least one digit and only digits; its value is the positional value, below 16^(number of digits) |
| `Hex.HexValueBound` | application.py:58 | a string of k hex digits has a value below 16^k |
| `Hex.Digits` | application.py:185 | the digits of `hex(n)` are non-empty, lower-case hex digits, with no leading zero unless n is 0 |
| `Hex.ToHex` | application.py:185 | `hex(n)` for a non-negative n: `0x` followed by the digits of n |
| `Hex.DigitsValue` | application.py:185 | reading back the digits of `hex(n)` gives n |
| `Slots.ParseSlotHex` | application.py:53-60 | accepted exactly when the stripped, lower-cased text is `0x` followed by one or more hex digits; the value is the base-16 value of those digits; without the `0x` prefix the error is the "0x-prefixed" one, otherwise "Invalid slot hex" |
| `Slots.ParseSlotHexIgnoresCase` | application.py:54 | changing the case of letters never changes acceptance, value or kind of error |
| `Slots.ParseSlotHexIgnoresPadding` | application.py:54 | surrounding whitespace never changes acceptance, value or kind of error |
| `Slots.ParseSlotHexOfToHex` | application.py:53-60 | `parse_slot_hex(hex(n)) == n` for every n, so the JSON report's `hex(index)` reads back as the index |
| `Slots.ParsedIndexBound` | application.py:53-60 | an accepted text of k characters after stripping has a value below 16^(k-2) |
| `Slots.SplitLabel` | application.py:27-30 | with a colon, the label is colon-free and item == label + ":" + rest, which is `split(":", 1)`; without one, the item is both label and raw text |
| `Slots.CollectSlots` | application.py:26-31 | each append loop yields one entry per item, in order, or the error of the first item that fails |
| `Slots.ParseSlots` | application.py:21-50 | `--slot` items first; else a list manifest, a mapping manifest, or the shape error; with neither source, "No slots provided" |
| `Slots.ParsedSlotsIsUnique` | application.py:21-50 | the arguments determine the result of `parse_slots` |
| `Slots.FlagsTakePriority` | application.py:25-32 | with `--slot` items present, the result is the same whatever the manifest is |
| `Slots.FlagSlots` | application.py:25-32 | with `--slot` items: success exactly when every raw part parses; one entry per item in input order; for `label:raw` items the label is colon-free text before the first colon and the index parses from the rest; a bare item is its own label |
| `Slots.ManifestSlots` | application.py:38-47 | a list gives one entry per element in list order, labelled by the element's own string; a mapping gives one entry per key in order, labelled by the key, with distinct labels for distinct keys; a non-string entry fails; any other shape is refused |
| `Slots.NoSlotSource` | application.py:50 | with neither `--slot` nor `--manifest` the result is exactly the "No slots provided" error |
| `Reader.Cell` | application.py:76-79 | a failed read is recorded as a value starting with `ERROR:` |
| `Reader.ReadSlots` | application.py:68-80 | the keys are exactly the input labels (no failure aborts the loop); each key holds the value read for the last slot with that label |
| `Reader.LastWithLabel` | application.py:75-77 | every input label has a last slot carrying it, the one whose write survives |
| `Reader.ReadValues` | application.py:74-80 | every label of the input is a key; its value is the word read for its last slot, or starts with `ERROR:` when that read failed |
| `Reader.ReadIntoIsUnique` | application.py:68-80 | reading the same slots through the same reader gives the same map |
| `Order.Below` | application.py:86 | Python's `<` on `str`: the first differing code point decides, and a proper prefix comes first |
| `Order.BelowIrreflexive` | application.py:86 | no string sorts before itself |
| `Order.BelowTransitive` | application.py:86 | the string order is transitive |
| `Order.BelowTotal` | application.py:86 | of two different strings, one sorts before the other |
| `Order.LeastExists` | application.py:86 | every non-empty set of keys has a least key |
| `Order.SortKeys` | application.py:86 | `sorted(set)`: strictly increasing, with exactly the set's elements, each once |
| `Order.SortedIsUnique` | application.py:86 | two strictly increasing sequences with the same elements are equal, so `SortKeys` yields exactly Python's `sorted` order |
| `Comparator.Get` | application.py:88 | `m.get(k, "MISSING")`: the value stored under k, or "MISSING" when k is absent |
| `Comparator.Compare` | application.py:83-92 | `ok` holds exactly when the diff list is empty; diff keys strictly increase; a key is in the diff list exactly when its two values differ under the "MISSING" default (hence it comes from one of the maps); each entry carries exactly those two values |
| `Comparator.DiffsAmongKeysWalked` | application.py:87-90 | every key the loop records is one of the keys it walked |
| `Comparator.DiffsAmongSorted` | application.py:86-90 | walking strictly sorted keys records the differing keys in strictly increasing order |
| `Comparator.DiffsAmongKeys` | application.py:87-90 | the recorded keys are exactly the walked keys whose two values differ under the "MISSING" default |
| `Comparator.DiffsAmongValues` | application.py:88-90 | each record carries the A-side and B-side values of its key |
| `Comparator.DiffsAmongOfUnion` | application.py:86-90 | walking the sorted union of both key sets records exactly the keys of either map whose values differ, in key order, with their values |
| `Comparator.MissingEverywhereMatches` | application.py:86-88 | a key absent from both maps reads as "MISSING" on both sides, so walking only the union of the key sets loses no difference |
| `Comparator.DiffsAreUnequal` | application.py:87-91 | every recorded pair is unequal and no key is recorded twice |
| `Report.ValidUrl` | application.py:115-118 | a URL passes exactly when it starts with `http://` or `https://` |
| `Report.LineFor` | application.py:165-167 | the line for one slot: its label, both values with "MISSING" for an absent label, and MATCH exactly when the two values are equal |
| `Report.CompareSlots` | application.py:163-170 | one line per slot in input order with both values and MATCH exactly when they are equal; the count is the number of positions that differ (duplicates counted each time), at most the number of slots, and zero exactly when every line is a MATCH |
| `Report.NoMismatchPositions` | application.py:173 | the count is zero exactly when every slot's A and B values are equal |
| `Report.ExitCode` | application.py:193 | the exit status: 0 when the comparison ran with no mismatch, 2 when it ran with a mismatch, 1 when the run stopped at an earlier stage |
| `Report.Run` | application.py:111-193 | the stages are decided in order and each outcome comes only from its own stage: a non-http(s) URL for A, else for B, gives `InvalidUrl` for that endpoint; with both URLs valid, a bad address gives `InvalidAddress`; then slots that do not parse give `InvalidSlots` with their error; then a refused connection gives `ConnectionFailed` for A, else for B; otherwise both sides are read and compared, with one line per slot in input order carrying the label, both values and MATCH exactly when they are equal. Exit code 1 means the run stopped early, 0 that every slot matches and 2 that some slot differs |
| `Report.CountAgreesWithCompare` | application.py:163-170 | on maps from `read_slots`, the keys `compare` reports are the labels of the positions `main` counts, so the count is zero exactly when `compare` returns `ok` |
| `Report.AgreeingReadsMatch` | application.py:158-170 | endpoints that answer every slot alike give equal maps and no mismatch, including when both reads fail with the same message |

## Left out

- Address checksumming (`to_checksum`, application.py:15-18) calls a foreign library whose code is not part of this model. Its verdict is the input `addressValid`. The checksummed address only feeds the reads, which are parameters.
- Network I/O is left out: `get_storage_at`, the HTTP providers, `is_connected` and the chain-ID lookups (application.py:63-65, 129-147). Reads are the functions `readA` and `readB` from slot index to a word or an exception text. Connectivity is the inputs `connectedA` and `connectedB`.
- Reader.ReadSlots: a read is a function of the slot index, so a real endpoint whose state changes between calls, or a call that times out, is not modelled.
- Opening and decoding the manifest file (application.py:36-37) is left out. The model starts from the decoded `Json` value. A missing file or bad JSON, which `main` turns into exit code 1, is not modelled. An empty `--manifest` path is falsy in Python; it stands as `None`, the same as an absent option.
- Presentation and configuration are left out: `argparse`, the environment-variable defaults, `--timeout`, every `print`, the UTC timestamp and the `--json` blob (application.py:9-10, 95-108, 139-156, 172-191). The one exception is `hex(index)` from the blob, modelled as `Hex.ToHex`.
- Exception texts are left out. Error values carry no messages, and the text after `ERROR:` is an opaque string.
- Slots.ParseSlotHex: only ASCII hex digits are accepted after `0x`. Python's `int(s, 16)` also accepts `_` separators (`0x_ff`) and non-ASCII decimal digits.
- Text.Lower: only ASCII letters are lower-cased. No non-ASCII character lower-cases to `x` or to a hex digit, so `parse_slot_hex` accepts and rejects the same strings either way.
- Report.Run: `sys.exit` is not modelled. `Run` returns the exit code, along with the outcome and the report lines.
