# litelocale in Dafny

A model of litelocale, a small Rust library for word-by-word localisation.

- A `LocaleMessage` is one unit of localisation. It holds an identifying string (`locstr`), the localised message and an optional phonetic spelling.
- A `Locale` is the ordered list of such units.
- `localize` splits a message on single spaces, replaces every segment by its localised message and joins the answers again with single spaces. `phoneticize` does the same with phonetic spellings.
- The first segment gates the whole message. If its localised message is empty, both functions return the message unchanged.

Files and modules:

- `text.dfy`, module `Text`: the literal split on one separator character, as Rust's `str::split(" ")` does it. Also the join with one separator between neighbours, as `[String]::join(" ")` does it. Both are proved to invert each other.
- `locale.dfy`, module `Locales`: the `LocaleMessage` and `Locale` datatypes, `NewLocale`, `AddMessage` and the two lookups.
  - Both lookups are one forward scan, `Scan`, with an accumulator. `Lookup(l, key, f)` runs it over the whole table starting from `""`. The field `f` is `Message` for `get_message_str` and `Phonetic` for `get_phonetic_str`. Each unit whose key matches overwrites the answer, as the `for` loops in the source do.
  - `ScanFindsLastMatch` proves the scan equal to an independent description, `IsLastMatch`: the answer is the field of the last unit with an equal key, or `""` when there is none.
- `localize.dfy`, module `Localization`: `Localize` and `Phoneticize`, both thin instances of `Transform`. `Transform` is the shared algorithm, parameterised by which field it returns.
- `fixtures.dfy`, module `SpanishFixture`: the Spanish table from the library's unit tests, with the answers those tests expect. It also has concrete cases of the first-segment gate.

Strings are `seq<char>`. The separator is the ASCII space, so a split on characters gives the same segments as Rust's split on UTF-8 bytes.

## Model

| member | source | states |
|---|---|---|
| Locales.NewLocale | src/lib.rs:62-66 | a new table has no units, and every lookup in it, of either field and for any key, answers `""` |
| Locales.AddMessage | src/lib.rs:72-74 | adding a unit grows the table by exactly one unit, at the end; the earlier units are kept unchanged and in order |
| Locales.ScanFindsLastMatch | src/lib.rs:76-82 | the forward overwrite-on-match loop (`Scan`) answers the field of the last unit whose key equals the argument; with no matching unit it answers its starting value |
| Locales.GetMessageStr | src/lib.rs:75-83 | `get_message_str` answers the message of the last unit keyed by the argument, or `""` when none is |
| Locales.GetPhoneticStr | src/lib.rs:84-92 | `get_phonetic_str` answers the phonetic spelling of the last unit keyed by the argument, or `""` when none is |
| Locales.LastMatchExists | src/lib.rs:77-81 | when some unit has the key, exactly one unit is the last with that key, so the two cases of the lookup contract cover every input |
| Locales.LookupSource | src/lib.rs:75-92 | every lookup answer is `""` or the selected field of some unit with that key; a lookup never invents a string |
| Locales.ScanAppend | src/lib.rs:77-81 | scanning one more unit at the end changes the answer to that unit's field exactly when its key matches, and otherwise keeps it |
| Locales.AddThenLookup | src/lib.rs:72-92 | after adding a unit, looking up its own key answers the new unit's field; looking up any other key answers what it did before |
| Locales.LastWins | src/lib.rs:75-92 | after adding `(k, m1, p1)` and then `(k, m2, p2)`, looking up `k` gives `m2` for the message and `p2` for the phonetic spelling |
| Locales.AddOtherKeyUnchanged | src/lib.rs:77-90 | adding a unit whose key differs from `k` changes neither the message nor the phonetic lookup of `k` |
| Locales.SingleUnitFound | src/lib.rs:72-92 | a unit added to an empty table is found by its key: its message and its phonetic spelling come back |
| Text.Split | src/lib.rs:106-107 | splitting on the space gives one more segment than there are spaces, so always at least one (`[""]` for `""`), and no segment contains a space; this is why `locstrs[0]` never panics |
| Text.Join | src/lib.rs:115 | the joined string starts with the first segment, and with two or more segments a separator follows it directly |
| Text.JoinSplit | src/lib.rs:106-107 | joining the segments of a split with the separator gives back the original string exactly |
| Text.SplitJoin | src/lib.rs:115 | splitting a join of separator-free segments gives back those segments, in order and with their count |
| Text.JoinSeparators | src/lib.rs:115 | joining n separator-free segments puts exactly n - 1 separators into the result |
| Localization.Translate | src/lib.rs:109-111 | the mapped list has one entry per token, and entry i is the lookup of token i |
| Localization.Transform | src/lib.rs:104-116 | if the first segment's message lookup is empty the input comes back unchanged; otherwise the answer starts with the first segment's lookup in the requested field |
| Localization.Localize | src/lib.rs:104-116 | `localize` returns the message as it was when the first segment's message lookup is empty; otherwise the result is non-empty and starts with the first segment's message |
| Localization.Phoneticize | src/lib.rs:128-140 | `phoneticize` is gated by the MESSAGE lookup of the first segment; when that is empty the message comes back unchanged, and otherwise the result starts with the first segment's phonetic spelling |
| Localization.TransformWords | src/lib.rs:104-116 | for a message made of space-free words, the answer is the space-join of the words' lookups, in order, when the first word passes the gate; otherwise it is the message itself |
| Localization.TransformSegments | src/lib.rs:106-115 | when the gate passes and no segment of the message looks up to a value containing a space, the output has exactly as many space-separated segments as the input, and segment i is the lookup of input segment i |
| Localization.LocalizeSegments | src/lib.rs:106-115 | the segment-by-segment statement for `localize`, under the same per-segment condition on messages: output segment i is the message of input segment i, and an untranslated later segment becomes `""` |
| Localization.PhoneticizeSegments | src/lib.rs:130-139 | the segment-by-segment statement for `phoneticize`, under the same per-segment condition on phonetic spellings: output segment i is the phonetic spelling of input segment i |
| Localization.TransformKeepsSpaces | src/lib.rs:106-115 | when the gate passes and no segment of the message looks up to a value containing a space, the output holds exactly as many spaces as the input |
| Localization.EmptyMessageFallsBack | src/lib.rs:108-113 | when the last unit keyed by the first segment, wherever it sits in the table, has an empty message, the gate fails as for a missing key; both functions return the message unchanged, whatever that unit's phonetic spelling |
| SpanishFixture.Spanish | src/lib.rs:143-149 | the test table holds the three units hello/hola/ola, and/y/ee and goodbye/adiós/adeeos, in that order |
| SpanishFixture.SpanishLookups | src/lib.rs:143-149 | in the test table, each of the three keys looks up to its own message and phonetic spelling |
| SpanishFixture.SpanishWords | src/lib.rs:150-163 | the single words hello, and, goodbye localise to hola, y, adiós and phoneticise to ola, ee, adeeos |
| SpanishFixture.SpanishMessage | src/lib.rs:164-173 | "hello and goodbye" localises to "hola y adiós" and phoneticises to "ola ee adeeos" |
| SpanishFixture.SpanishFallback | src/lib.rs:112-114 | "unknown" and the empty message have no unit, so both come back unchanged |
| SpanishFixture.SpanishLaterUnknown | src/lib.rs:108-115 | "hello xyz goodbye" localises to "hola  adiós": the untranslated middle word becomes an empty segment between two spaces |
| SpanishFixture.PhraseUnitsElsewhere | src/lib.rs:75-83 | a multi-word unit under a key the message does not use, or one shadowed by a later unit with the same key, does not stop the per-segment condition from holding |
| SpanishFixture.PhoneticGateReadsMessage | src/lib.rs:132-135 | with the single unit hi/""/ola, `phoneticize("hi")` returns "hi" even though a phonetic spelling exists; with hi/hola/"" it returns "" |

## Left out

- The `#[derive(Deserialize)]` attribute and the `serde` crates (src/lib.rs:12-16). They are library glue with no logic of their own.
- Ownership and copying (`to_owned`, `clone`, `&str` against `String`, src/lib.rs:36-48). The model uses plain immutable values.
  - `LocaleMessage::new` is the datatype constructor `LocaleMessage(locstr, message, phonetic)`.
  - `get_str`, `get_message` and `get_phonetic` are its destructors `.locstr`, `.message` and `.phonetic`. `Select` chooses between the last two.
- `add_message(&mut self, …)` is modelled as a function from the old table to the new one. Nothing else holds the table, so no mutation is observable.
- UTF-8 bytes. Strings are sequences of characters. The separator is ASCII, so the segments are the same.
- The `#[cfg(test)]` harness (src/lib.rs:142-173). Its table and expected answers are kept as the concrete lemmas of `SpanishFixture`.
- TransformSegments: requires that no segment of the message looks up to a string holding a space. A translation such as "buenos días" splits into two segments, so then the output has more segments than the input; the source promises nothing about segment counts. Without the condition, `Translate` and `TransformWords` still state the output as the join of one lookup per input segment.
- LocalizeSegments: same per-segment condition on the localised messages of the message's own segments, for the same reason ("buenos días" adds a segment). Units no segment looks up, and units shadowed by a later unit with the same key, are unconstrained.
- PhoneticizeSegments: same per-segment condition on the phonetic spellings of the message's own segments, for the same reason.
- TransformKeepsSpaces: same per-segment condition; a looked-up value holding a space adds that space to the output.
