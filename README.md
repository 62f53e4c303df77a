# yapcc races: ability scores and race layering

This is a model of the race data of yapcc, a character generator for a
tabletop role-playing game. The model covers `src/races.rs` and three of its parts.

- **Ability scores.** A record holds six `u8` scores: strength, dexterity,
  constitution, intelligence, wisdom and charisma.
  - Two records add field by field.
  - A record is written in the data file as a compact token such as
    `"dex+2;int+1"`. The decoder reads the token and the encoder writes it.
- **Races in layers.** A base race and a sub-race are both `PartialRace`s.
  `solidify` flattens them into one `Race`:
  - speed, hit-point bonus and page come from the sub-race when it has them;
  - the ability bonuses add up;
  - the trait and proficiency lists are the base's followed by the sub-race's.

## Modules

- `Wrappers`: `Option`, with Rust's `Option::or`, and `Result`, which supports `:-` in the style of `try!`.
- `Abilities`: the `AbilityScores` record and `Add`.
  - `Score` is a `u8`, written out as the integers 0 to 255.
  - `Add` requires that no field sum overflows. Rust's `u8` addition panics on overflow.
- `Text`: the pieces of Rust's standard library that the codec depends on.
  - `Split` models `str::split`, which always gives at least one piece. `Join` is its inverse.
  - `Decimal` models the `Display` of a `u8`.
  - `ParseU8` models `u8::from_str`, which adds up digits left to right and checks for overflow.
- `AbilityCodec`: the token format.
  - The functions `Decode` and `Encode` define the format.
  - The methods `DecodeToken` and `EncodeToken` follow the source step by step and are proved equal to those functions:
    - the decoder builds the `HashMap`, then takes each of the six keys out of it with `remove`;
    - the encoder extends a mutable `val` string field by field.
- `CodecProperties`: what the format promises.
  - Unknown and malformed entries with unknown names are ignored.
  - Known keys with a missing or bad value fail.
  - When a key repeats, the last entry wins.
  - Distinct keys can be reordered, and segments after the second `+` are ignored.
  - The encoder's output shape, and the round trip `Decode(Encode(a)) == Ok(a)`.
- `Races`: `Trait`, `PartialRace` and `Race`.
  - The function `Solidify`, and the method `SolidifyRace`, which does the clone-and-`append` of `merge!` and is proved equal to it.

Decoding errors are two tags:
- `MissingValue`: an entry has no `+value` part. The source's message is "Unable to parse abilities".
- `InvalidNumber`: the value is not a `u8`. The source's message is "unable to parse".

When several fields fail, the first of str, dex, con, int, wis, cha is reported. This is the order of the `try!`s.

Two consequences of the code:
- **Missing speed.** `solidify` calls `expect` when neither layer has a speed (src/races.rs:142), and `expect` panics. The model makes "some layer has a speed" a precondition of `Solidify`.
- **Round trip.** `RoundTrip` holds for every `u8` record.

## Model

| member | source | states |
|---|---|---|
| Abilities.AbilityScores.With | src/races.rs:14-21 | the updated record has `v` in field `k` and every other field unchanged |
| Abilities.OrderListsEveryAbility | src/races.rs:59-64 | the six-key order used by decode and encode lists every ability |
| Abilities.ScoresExtensional | src/races.rs:14-21 | two records with equal fields are equal |
| Abilities.Add | src/races.rs:26-35 | when no field sum exceeds 255, every field of the sum is the sum of the two fields |
| Abilities.AddCommutes | src/races.rs:26-35 | the sum does not depend on the operand order, and neither does its overflow condition |
| Abilities.AddZero | src/races.rs:26-35 | adding the all-zero record on either side changes nothing |
| Text.Join | src/races.rs:76-80 | joining pieces with a separator between neighbours, as `val + ";" + &stat` builds up; `Split` inverts it (`Text.Split`, `Text.SplitJoin`) and `Text.JoinSnoc` gives one step of the build-up |
| Text.Split | src/races.rs:42-44 | `str::split` gives at least one piece, no piece contains the separator, and joining the pieces gives back the input |
| Text.SplitWithoutSep | src/races.rs:42-44 | a string without the separator splits into itself alone, so `""` splits into `[""]` |
| Text.SplitAtSep | src/races.rs:42-44 | splitting at a separator splits each side independently |
| Text.JoinSnoc | src/races.rs:76-80 | appending a piece to a non-empty list adds one separator and the piece at the end of the joined string |
| Text.JoinStartsWithFirst | src/races.rs:44-45 | the joined string starts with the first piece, followed by a separator when more pieces follow |
| Text.JoinEndsWithLast | src/races.rs:76-80 | the joined string ends with the last piece |
| Text.SplitJoin | src/races.rs:42-44 | splitting a join of separator-free pieces gives back exactly those pieces |
| Text.DigitChar | src/races.rs:75 | the character written for a value below ten is a decimal digit |
| Text.DigitValue | src/races.rs:48 | a digit character's value is below ten and maps back to that character |
| Text.Decimal | src/races.rs:75 | the decimal text of `n` is a non-empty digit run whose value is `n`, with no leading zero when `n > 0`, and exactly `"0"` for 0 |
| Text.ParseU8 | src/races.rs:48 | parsing succeeds exactly on non-empty digit runs whose value is at most 255, and gives that value |
| Text.AccumulateDigits | src/races.rs:48 | the digit loop of `u8::from_str`; `Text.AccumulateIsHorner` and `Text.AccumulateFromZero` tie it to the independent value `DigitsValue`, and `Text.ParseU8` states what it accepts |
| Text.HornerIsDigitsValue | src/races.rs:48 | left-to-right accumulation computes the value of a digit run |
| Text.AccumulateIsHorner | src/races.rs:48 | the checked accumulation fails exactly when a non-digit appears or a partial value exceeds 255, and otherwise gives the accumulated value |
| Text.AccumulateFromZero | src/races.rs:48 | from zero, the checked accumulation gives the value of a digit run of at most 255, and nothing otherwise |
| Text.ParseDecimal | src/races.rs:48 | the decimal text of a `u8` parses back to the same value |
| AbilityCodec.Abbr | src/races.rs:59-64 | each abbreviation is three characters long, with no `+` and no `;` |
| AbilityCodec.DistinctAbbrs | src/races.rs:59-64 | the six abbreviations are pairwise distinct |
| AbilityCodec.ParseValue | src/races.rs:46-48 | a value segment is accepted exactly when it is a `u8` digit run, and every failure is `InvalidNumber` |
| AbilityCodec.ParseEntry | src/races.rs:43-50 | the name is the text before the first `+`, and the value is `MissingValue` exactly when the entry has no `+` |
| AbilityCodec.ParseEntries | src/races.rs:43-50 | the `map` closure applied to every `;`-piece; `CodecProperties.ParseEntriesAppend` states that it works entry by entry, and `AbilityCodec.ParseEntry` states each entry |
| AbilityCodec.Collect | src/races.rs:41-51 | `.collect()` into the `HashMap`; `AbilityCodec.CollectSpec` states that its keys are exactly the entry names, each holding its last entry's value |
| AbilityCodec.CollectSpec | src/races.rs:41-51 | the collected map has exactly the entry names as keys, and each key holds the value of its last entry |
| AbilityCodec.CollectStep | src/races.rs:51 | inserting one more entry keeps every name a key, every key a name, and each key bound to its last entry |
| AbilityCodec.CollectNext | src/races.rs:43-51 | collecting one more entry inserts its name and value, replacing an earlier binding |
| AbilityCodec.Lookup | src/races.rs:52-57 | `get_score!`: the bound result, or 0 when the key is absent; `AbilityCodec.TakeScore` proves `remove` gives it |
| AbilityCodec.Resolve | src/races.rs:58-65 | the six `get_score!`s under `try!`; `CodecProperties.ResolveSpec` states success exactly when all six lookups succeed, and otherwise the first failing field's error |
| AbilityCodec.Decode | src/races.rs:39-66 | the decoder; `CodecProperties.DecodeFieldSpec` and `CodecProperties.DecodeFailsOnKnownField` describe every field and every failure, `CodecProperties.RoundTrip` inverts `Encode`, and `AbilityCodec.DecodeToken` is proved equal to it |
| AbilityCodec.Stat | src/races.rs:75 | `format!("{}+{}", abbr, value)`; `CodecProperties.ParseWrittenStat` reads it back as its key and value, and `AbilityCodec.StatShape` states it is non-empty and `;`-free |
| AbilityCodec.Stats | src/races.rs:72-92 | the entries `write_scores!` writes; `CodecProperties.StatsMembers` states one entry exactly per non-zero field and `CodecProperties.StatsEmptyIffZero` states when there is none |
| AbilityCodec.Encode | src/races.rs:70-96 | the encoder; `CodecProperties.EncodeEntries` and `CodecProperties.EncodeEmptyIffZero` state the output shape, `CodecProperties.RoundTrip` states that `Decode` inverts it, and `AbilityCodec.EncodeToken` is proved equal to it |
| AbilityCodec.TakeScore | src/races.rs:52-57 | `remove` of a key gives its collected result, or 0 when absent, and leaves the other five lookups unchanged |
| AbilityCodec.TakeScores | src/races.rs:58-65 | reading str, dex, con, int, wis, cha in turn with `try!` is the resolution of the map |
| AbilityCodec.DecodeToken | src/races.rs:39-66 | the step-by-step decoder computes `Decode` |
| AbilityCodec.EncodeToken | src/races.rs:70-96 | the step-by-step encoder computes `Encode` |
| AbilityCodec.StatsStep | src/races.rs:74-81 | visiting one more field appends its entry exactly when that field is non-zero |
| AbilityCodec.StatShape | src/races.rs:75 | a written entry is non-empty and holds no `;` |
| AbilityCodec.StatsAreEntries | src/races.rs:74-81 | every written entry is non-empty and free of `;`, and the output is empty exactly when no entry is written |
| CodecProperties.ResolveSpec | src/races.rs:52-65 | resolution succeeds exactly when all six lookups do, takes each field from its lookup, and otherwise fails with the error of the first failing field in order str..cha |
| CodecProperties.ResolveToRecord | src/races.rs:58-65 | when every lookup gives a record's field, resolution gives that record |
| CodecProperties.ResolveSameFields | src/races.rs:52-65 | two maps that agree on the six lookups resolve alike |
| CodecProperties.ParseEntriesAppend | src/races.rs:42-50 | entries are parsed one by one, independently of their neighbours |
| CodecProperties.CollectSnoc | src/races.rs:51 | collecting a final entry overwrites that entry's key |
| CodecProperties.CollectAppendSameFields | src/races.rs:51-57 | maps that agree on the six lookups keep agreeing after the same further entries |
| CodecProperties.DecodeJoin | src/races.rs:41-42 | decoding a `;`-join of `;`-free entries decodes exactly those entries |
| CodecProperties.SeparableAround | src/races.rs:42 | concatenated `;`-free entry lists stay `;`-free |
| CodecProperties.UnknownEntryIgnored | src/races.rs:52-57 | removing an entry whose name is not one of the six does not change the decoded result, even when that entry is malformed |
| CodecProperties.CollectSwap | src/races.rs:51 | swapping two adjacent entries with different names does not change the collected map |
| CodecProperties.DistinctEntriesCommute | src/races.rs:41-57 | swapping two adjacent entries with different names does not change the decoded result |
| CodecProperties.DecodeReorder | src/races.rs:39-66 | the same holds at the level of the token string |
| CodecProperties.ParseStat | src/races.rs:44-48 | an entry `name+v` parses to the name and the parse of `v` |
| CodecProperties.ExtraSegmentsIgnored | src/races.rs:44-48 | segments after the second `+` do not change the parsed entry |
| CodecProperties.DecodeIgnoresExtraSegments | src/races.rs:39-66 | the same holds for a whole one-entry token |
| CodecProperties.DecodeFieldSpec | src/races.rs:52-57 | a field that no entry names decodes as 0; the last entry naming a field decides it, as its value or as a failure |
| CodecProperties.DecodeFailsOnKnownField | src/races.rs:52-56 | every decoding failure is the failure of the last entry of one of the six keys |
| CodecProperties.LastWithName | src/races.rs:51 | among the entries with a given name, there is a last one |
| CodecProperties.ParseWrittenStat | src/races.rs:75 | an entry written by the encoder parses back to its key and value |
| CodecProperties.StatsMembers | src/races.rs:74-81 | the encoder writes an entry exactly for each non-zero field, as `abbr+decimal` |
| CodecProperties.StatsEmptyIffZero | src/races.rs:74 | no entry is written exactly when all the fields visited are 0 |
| CodecProperties.EncodeEmptyIffZero | src/races.rs:70-96 | the encoding is `""` exactly for the all-zero record |
| CodecProperties.EncodeEntries | src/races.rs:76-80 | a non-zero record encodes to its written entries joined by single `;`, with no empty entry and no `;` at either end |
| CodecProperties.CollectStats | src/races.rs:41-51 | the map collected from the encoder's entries binds exactly the non-zero fields, to their values |
| CodecProperties.LookupStats | src/races.rs:52-57 | the map collected from the encoder's entries gives every field its value, 0 included |
| CodecProperties.DecodeEmpty | src/races.rs:41-65 | `decode("")` is the all-zero record |
| CodecProperties.RoundTrip | src/races.rs:39-97 | decoding the encoding of any record gives that record back |
| CodecProperties.DecodeUnknownEntry | src/races.rs:52-57 | a one-entry token with an unknown name decodes as all-zero, whatever its value part |
| CodecProperties.DecodeKeyWithoutValue | src/races.rs:46-47 | a known key with no `+value` fails with `MissingValue` |
| CodecProperties.DecodeKeyWithBadValue | src/races.rs:48 | a known key with a value that is not a `u8` fails with `InvalidNumber` |
| CodecProperties.MalformedKnownTokens | src/races.rs:44-48 | `"str"` fails with `MissingValue`; `"str+x"` and `"str+"` fail with `InvalidNumber` |
| CodecProperties.OutOfRangeToken | src/races.rs:48 | `"str+256"` fails with `InvalidNumber` |
| CodecProperties.MalformedUnknownTokens | src/races.rs:52-57 | `"foo"` and `"foo+x"` decode as all-zero |
| CodecProperties.LaterEntryOverrides | src/races.rs:41-57 | appending `;abbr+v` to a decodable token sets that one field to `v` and leaves the others |
| CodecProperties.DecodeSingleStat | src/races.rs:39-66 | a single written entry decodes to the record with only that field set |
| CodecProperties.RepeatedKeyLastWins | src/races.rs:41-51 | when a key repeats, the last entry's value is the one decoded |
| CodecProperties.RepeatedKeyToken | src/races.rs:41-51 | `"str+1;str+2"` decodes to strength 2 |
| CodecProperties.ExtraSegmentToken | src/races.rs:44-48 | `"str+1+9"` decodes to strength 1 |
| CodecProperties.TwoStatsCommute | src/races.rs:41-57 | two entries with different keys decode alike in either order, to the record with both fields set |
| CodecProperties.ReorderedToken | src/races.rs:41-57 | `"dex+1;str+2"` and `"str+2;dex+1"` both decode to strength 2, dexterity 1 |
| Wrappers.Option.Or | src/races.rs:142-145 | `Option::or`: this value if present, else the fallback; `Races.Solidify`'s ensures state the resulting override-with-fallback for speed, hit-point bonus and page |
| Races.Solidify | src/races.rs:133-151 | the speed is the sub-race's if present, else the base's; each ability is the sum of the two layers; hit-point bonus and page are the sub-race's if present, else the base's; each list is the base list followed by the sub-race list |
| Races.Merge | src/races.rs:134-140 | cloning the base list and appending the sub-race list gives the base followed by the sub-race |
| Races.SolidifyRace | src/races.rs:133-151 | the step-by-step merge computes `Solidify` |
| Races.StackedIsConcat | src/races.rs:136-138 | a list that is the base followed by the sub-race is their concatenation |
| Races.SolidifyAlone | src/races.rs:133-151 | solidifying with the default, empty sub-race gives back the base race |
| Races.SolidifyAddsAbilities | src/races.rs:143 | the resolved abilities are `base + sub`, whichever order is used for the sum |
| Races.SolidifyKeepsEveryItem | src/races.rs:146-149 | each trait and each proficiency occurs in the result as often as in the two layers together |
| Races.SolidifyIgnoresSubraces | src/races.rs:141-150 | the nested sub-race tables of either layer do not affect the result |
| Races.HighElf | src/races.rs:133-151 | an elf of speed 30 with `"dex+2"` and the high-elf sub-race with `"int+1"` resolve to speed 30, dexterity 2 and intelligence 1 |

## Left out

- `PartialRaces::new` (src/races.rs:160-174) is left out. It reads a file, runs the external `toml` parser and decoder, and prints diagnostics, so it is I/O and foreign code.
- `src/spells.rs`, `src/error.rs` and `src/main.rs` are not part of this model. They hold CSV loading, error wrapping and program flow. `choose()` is not part of this model either.
- The `rustc_serialize` `Decoder`/`Encoder` machinery is left out. The token goes in and out as a plain string. The failure of `read_str` (the input is not a string) and the failure of `emit_str` belong to that foreign code.
- The error messages are reduced to the two tags `MissingValue` and `InvalidNumber`.
- `u8::from_str` accepts a leading `+`. The model leaves that branch out: a value segment comes from splitting on `+`, so it can never start with one.
- Races.Solidify: the two panics are preconditions, not an error result. One is `expect` when neither layer has a speed. The other is `u8` overflow when an ability sum exceeds 255; it panics in debug builds and wraps in release builds, and the wrapping is not modelled.
- Abilities.Add: a field sum above 255 is excluded by the precondition. The model does not give the release-build wrap-around.
- Races.Merge: `merge!` grows `tmp` in place, and `append` empties the temporary clone of the sub-race list. The model builds the result as a new sequence value, so neither the in-place growth nor the emptied temporary is represented.
