# Canonical CBOR and its schema layer: a Dafny model

This project models two stacked layers of the Murmur oracle and proves the laws that make
their bytes content-addressable.

**The codec (`cbor/`).** An encoder that sorts and deduplicates, and a decoder that rejects
instead of re-encoding: two independent algorithms for one language of byte strings. The
functions `Encoding.Encode` and `Decoding.Decode` say what each computes, refusals and
positions included; the classes `EncoderMachine.Encoder` (an append-only buffer) and
`DecoderMachine.Decoder` (a cursor and an item count) do it step by step as the source does and
are proved to compute those functions. The theorems are then about the functions: exact
inverse and round trip, one byte form, prefix-freedom, what the limits decide, what every
refusal means, and uniqueness of decimals and rationals.

**The schema layer (`schema/`).** Interpretation of a value under a field table with refs
resolved through a registry, the parser that reads a table from its own artifact, and the
self-referring floor tables. The theorems: interpretation succeeds exactly on a separately
defined conformance relation, and loses no byte; which of its verdicts survive registry growth, and when two
nodes agree, is settled exactly; parsing is the inverse of a printer, with an exact verdict on every artifact;
the floor is closed, and is what its literal bytes load as.

Conventions of the model:

- Bytes are integers below 256; integers are unbounded and every width the source relies on is
  written out. Go's `int` is taken as 64 bits wide, so a length or count of `2^63` and above is
  the one that does not survive conversion, and `INT_LIMIT` premises say no more than that a Go
  slice has a length.
- `MaxDepth`, `MaxItems` and the NFC predicate are the fields of a `Profile`, so that decoders
  with different bounds can be compared; `Values.DeclaredProfile` holds the declared 64 and 2^20.
- An encoder refusal is one constructor for each message of the source; a decoder refusal is the
  reason and the byte position.
- What a constant of the wire is worth is stated in digits: `WireForm` for first bytes and heads, `KindCodes` for
  the kinds, `FloorBytes` for the floor tables. The last assumes of the NFC predicate that ASCII is in NFC.
- A registry is a class around a map. Theorems about runs of additions use `Tables.AddAll`, which
  `Registry.Add` is proved to follow.

Where the code and its own comments differ, the model follows the code:

- `cbor/errors.go:32-34` calls size-exceeded a declared bound's refusal. The code also gives it
  for an array or map count that no native int holds (`cbor/decode.go:169-171` and `185-187`).
  That refusal stands under every larger bound (`HugeCounts.HugeCountIsFinal`), and
  `HugeCounts.NeverLiftedExactly` says exactly when no larger bounds lift a limit refusal: when
  under bounds past the input the decoder reaches such a count.
- `schema/interpret.go:49-55` lists presence and unit codes outside the version's enum under
  unresolved-ref. The code compares neither with an enum (`TablePrinting.UnlistedCodesAreRead`).
  When parsing does give unresolved-ref, `TablePrinting.PrintedTableVerdict` says exactly, for tables
  whose kinds own their fields: when some code does not fit an int.
- `schema/interpret.go:20-33` makes malformed-type-descriptor a property of a floor artifact.
  Interpretation also gives it for a held table whose array has no element type
  (`schema/interpret.go:187-189`, `FloorClosure.UnloadedTableCanBeMalformed`).
  `FloorClosure.NeverMalformedExactlyWhenComplete` says for which registries that cannot happen.
- Parsing is not injective: an absent unit or ref and a written 0 read alike in a descriptor of an
  unknown kind (`TableInverse.UnknownKindsCollapse`). `TableInverse.ReadExactlyFromSpellings` gives
  all the artifacts of a table, its spellings with each such zero written or not, and
  `TableInverse.LoadedFromOneExactly` the boundary: a table is loaded from one byte string exactly
  when each of its descriptors, at every level, is of a known kind or has a ref code and a unit
  code other than 0.

Files follow the source: `Heads`, `Encoding`/`Encoder`, `Decoding`/`Decoder`, `Magnitudes`,
`TextRules` for `cbor/`; `Tables`, `Floor`, `Interpretation`/`Interpreter`, `FieldTables` for
`schema/`. The other files hold one group of theorems each. `dafny verify dfyconfig.toml` checks
the project.

## Model

| member | source | states |
|---|---|---|
| Inverse.DecodeThenEncode | cbor/decode.go:13-236 | whatever bytes are accepted, encoding the decoded value succeeds and gives exactly those bytes |
| Inverse.OneByteForm | cbor/decode.go:8-23 | two accepted byte strings decode to the same value exactly when they are the same bytes |
| Inverse.EntriesInverse | cbor/decode.go:183-236 | an accepted map body is the concatenation of its entries' canonical pairs, already in strictly ascending key order |
| RoundTrip.EncodeThenDecode | cbor/encode.go:42-209 | decoding the bytes of an encodable value gives its normal form exactly when the item budget covers the value, and a size refusal otherwise |
| RoundTrip.EqualBytesEqualForms | cbor/encode.go:153-201 | two encodable values have the same bytes exactly when their normal forms are equal |
| RoundTrip.UnchangedExactlyWhenNormal | cbor/value.go:47-60 | a value comes back from its bytes unchanged exactly when its maps are in key order and it holds no magnitude |
| RoundTrip.ReadBack | cbor/decode.go:31-91 | a normal value is read back from its bytes wherever they stand in a longer input, with the cursor right behind them and the count raised by its items |
| NormalForm.NormEncodes | cbor/encode.go:153-201 | sorting every map and erasing magnitudes leaves the bytes alone, at every depth |
| NormalForm.NormalExactlyWhenFixed | cbor/value.go:47-60 | among encodable values, being in normal form is being a fixed point of normalization |
| Reordering.AuthoredOrderIsInvisible | cbor/encode.go:186-201 | reordering map entries at any depth does not change the bytes |
| SameUpToOrder.EqualBytesReordered | cbor/encode.go:153-201 | without magnitudes, two encodable values have the same bytes exactly when one is the other with its map entries in some order, at every depth |
| SameUpToOrder.EqualBytesSameUpToOrder | cbor/encode.go:126-201 | with magnitudes, exactly when that holds once each is read as its two-integer array |
| CanonicalDomain.EncodeSucceedsOnDomain | cbor/encode.go:42-201 | encoding succeeds exactly on values within depth, integer range, text and magnitude rules, whose maps have one key type and pairwise different key values |
| CanonicalDomain.DistinctValuesDistinctBytes | cbor/encode.go:190-194 | the neighbour test on sorted key bytes refuses exactly when two keys are the same value |
| CanonicalDomain.DecodeReturnsCanonical | cbor/decode.go:13-23 | a decoded value is in that domain, in normal form, and counts no more items than the bound |
| CanonicalDomain.OneLanguage | cbor/decode.go:8-23 | a byte string is accepted exactly when it is the encoding of some value the item bound covers |
| CanonicalDomain.LimitsDecideExactly | cbor/encode.go:12-19 | an input accepted under larger bounds is accepted under smaller ones exactly when its value nests and counts within them |
| Limits.BoundsDoNotDecide | cbor/errors.go:11-38 | under larger bounds an acceptance keeps its value and a byte-determined refusal its reason and position |
| Limits.DecodersAgree | cbor/errors.go:11-38 | decoders with any two pairs of bounds agree unless one of them names a limit |
| Limits.EachBoundDecidesItsOwn | cbor/decode.go:32-38 | a result that changes with the item bound alone was size-exceeded, with the depth bound alone depth-exceeded |
| Limits.EncodeKeeps | cbor/encode.go:42-84 | the encoder has no item cap, and a larger depth bound changes nothing but a depth refusal |
| DecodeRefusals.RefusalsAreDeserved | cbor/decode.go:13-272 | the decoder refuses with a reason at a position exactly when an item start it reaches shows that reason there: by its depth, its item count, its own bytes, or its place among the keys of one map |
| Reach.ReachedRefusalStands | cbor/decode.go:167-236 | a refusal at any reached start is the decoder's own refusal, with the same reason and position |
| Reach.StartIsBounded | cbor/decode.go:31-41 | a reached start is at least as many bytes in as it is deep and as there are items before it |
| Reach.StartKeeps | cbor/decode.go:31-41 | what is reached under some bounds is reached at the same place under larger ones |
| HugeCounts.HugeCountIsFinal | cbor/decode.go:167-187 | an array or map head counting 2^63 or more, once looked at, is the verdict under these bounds and all larger ones |
| HugeCounts.GenerousBoundsAreFinal | cbor/errors.go:32-38 | bounds as large as the input decide for good: no larger bounds change the value, or the reason and position |
| HugeCounts.NeverLiftedExactly | cbor/errors.go:32-38 | a limit refusal is lifted by no larger bounds exactly when the decoder reaches such a head under one given profile, past what the input comes up to |
| HugeCounts.NineBytesAreRefused | cbor/decode.go:167-187 | nine bytes that open an array or a map of 2^63 are refused for size under every item bound |
| EncodeRefusals.EncodeRefusesFaults | cbor/encode.go:42-209 | the encoder refuses with a reason exactly when it is the fault of the first faulty node in visiting order: the node itself, then items and entries in turn (key type, key agreement, key, value), a repeated key only behind a map without another fault |
| WireForm.FirstByteTellsType | cbor/encode.go:42-151 | the first byte of an encoding lies in the range of the value's type; a magnitude opens an array of two; the booleans are f4 and f5 |
| WireForm.BooleanBytes | cbor/decode.go:238-258 | f4 and f5 decode to false and true |
| WireForm.HeadBytes | cbor/encode.go:86-105 | the bytes of a head for every major type and uint64 argument, digit by digit |
| WireForm.IntegerBytes | cbor/encode.go:107-124 | the head an integer is written with, and the first integers past either end that are refused |
| WireForm.IntegerRead | cbor/decode.go:60-68 | every integer in range is what its own head decodes to |
| WireForm.StringBytes | cbor/encode.go:49-52 | a byte string travels as its head and its bytes as they are |
| WireForm.ArrayBytes | cbor/encode.go:67-74 | an array's bytes are its head and the bytes of its items joined from first to last |
| WireForm.MapBytes | cbor/encode.go:153-201 | the bytes of a map whose encoded keys ascend are its head and each key followed by its value, joined from first to last |
| PrefixFree.PrefixIsTruncated | cbor/decode.go:39-41 | every strict prefix of an accepted input is refused as truncated |
| PrefixFree.ExtensionIsTrailing | cbor/decode.go:19-21 | every strict extension of an accepted input is refused as trailing bytes at the accepted length |
| PrefixFree.AcceptedIsPrefixFree | cbor/decode.go:13-23 | no accepted input is a strict prefix of another |
| Heads.ReadWrittenHead | cbor/decode.go:93-142 | reading at a written head gives back its argument, for every uint64 |
| Heads.AcceptedHeadIsWritten | cbor/encode.go:86-105 | every accepted head is byte for byte the one the encoder writes for its argument |
| Heads.LongerFormsAreRefused | cbor/decode.go:93-142 | of the heads that carry an argument in 1, 2, 4 or 8 bytes, exactly the ones wider than needed are refused as non-minimal |
| Heads.HeadOrderWithTails | cbor/encode.go:86-105 | heads of one major type order bytewise as their arguments do, whatever follows them |
| Shifts.BigEndianAt | cbor/encode.go:96-103 | the byte at each place of the big-endian form is the argument shifted down to that place |
| KeyOrder.BytewiseOrderIsKeyOrder | cbor/encode.go:186-189 | encoded keys order bytewise exactly as: integers from 0 up, then from -1 down, then texts by length and bytes |
| KeyOrder.CanonicalMapOrder | cbor/encode.go:186-189 | a map is in canonical order exactly when its keys ascend that way, and for text keys exactly when they ascend by length first |
| KeyOrder.TextOrdersCoincide | cbor/encode.go:186-189 | for text keys the orders of sections 4.2.1 and 4.2.3 of RFC 8949 are the same |
| KeyOrder.IntegerOrdersDiffer | cbor/encode.go:186-189 | for integer keys they differ, exactly on two keys of opposite sign of which the non-negative one is encoded longer |
| KeyOrder.TwentyFourBeforeMinusOne | cbor/encode.go:186-189 | 24 sorts before -1 bytewise and after it by length |
| Sorting.SortStable | cbor/encode.go:186-189 | the in-place sort of the pairs computes the sorting function |
| Sorting.AnySortAgrees | cbor/encode.go:186-189 | on distinct keys every sorted arrangement of the pairs is the same sequence, so the choice of sorting algorithm is invisible |
| Sorting.AnySortIsTestedAlike | cbor/encode.go:186-194 | on any keys, the neighbour test of every sorted arrangement refuses exactly the pairs with a repeated key |
| Sorting.DuplicateTestIsExact | cbor/encode.go:190-194 | after sorting, neighbours differ exactly when all keys differ, and then the order is strict |
| Magnitudes.DecimalFormIsUnique | cbor/canonical.go:13-27 | two accepted decimals denote the same number exactly when they are the same pair, at all signs and scales |
| Magnitudes.DecimalFormExists | cbor/canonical.go:5-12 | every mantissa and scale has an accepted form of the same value |
| Magnitudes.RationalFormIsUnique | cbor/canonical.go:34-51 | two accepted rationals denote the same number exactly when they are the same pair |
| Magnitudes.CrossProductDecides | cbor/canonical.go:34-51 | accepted pairs have equal cross products exactly when they are the same pair, by Euclid's lemma |
| Magnitudes.RationalFormExists | cbor/canonical.go:29-33 | every ratio with a nonzero denominator has an accepted form of the same value |
| Magnitudes.GcdIsGreatest | cbor/canonical.go:34-51 | the common divisor behind the coprimality test divides both numbers and is divided by every common divisor |
| Magnitudes.AcceptedExactlyWhenCoprime | cbor/canonical.go:34-51 | a rational is accepted exactly when its denominator is positive and no number above 1 divides both parts |
| MagnitudeBytes.DecimalBytesDecideTheNumber | cbor/encode.go:126-151 | encodable decimals have equal bytes exactly when they are numerically equal |
| MagnitudeBytes.RationalBytesDecideTheNumber | cbor/encode.go:133-151 | encodable rationals have equal bytes exactly when they are numerically equal |
| MagnitudeBytes.MagnitudesShareAShape | cbor/value.go:54-59 | a decimal, a rational and a two-integer array with the same components have the same bytes |
| Utf8.ValidExactlyWhenEncoded | cbor/encode.go:217-228 | the UTF-8 rule accepts exactly the encodings of sequences of Unicode scalar values |
| Verdicts.TextOfScalars | cbor/encode.go:217-228 | a text of given scalar values is refused for a byte order mark exactly when the first of them is U+FEFF, then for normalization, and is else its head and UTF-8 bytes |
| Verdicts.BytesOfScalars | cbor/decode.go:76-85 | the decoder gives those bytes the same verdict at position 0, or that text |
| Verdicts.NotScalarsIsRefused | cbor/decode.go:76-85 | a text that encodes no scalar sequence is refused as not UTF-8 by both |
| Verdicts.TextVerdictsAgree | cbor/decode.go:76-85 | the decoder refuses the bytes of a text exactly when the encoder refuses the text, under the same rule and at its head |
| Verdicts.DepthLineIsShared | cbor/encode.go:42-45 | for every value: a smaller depth bound makes the encoder refuse it for nesting exactly when it makes the decoder refuse its bytes for depth, and otherwise changes neither |
| Verdicts.NestedDepthLine | cbor/decode.go:32-34 | nested arrays up to the bound round-trip, and one level more is refused by both, by the decoder at the first byte beyond |
| Verdicts.DeclaredDepth | cbor/encode.go:12-19 | at the declared bounds 64 levels decode and 65 are refused at position 65 |
| Verdicts.FlatItemLine | cbor/decode.go:35-38 | an array of n zeros decodes exactly when n + 1 items are within the bound, and is else refused for size at the first item past it |
| Verdicts.FlatMapLine | cbor/decode.go:35-38 | in a map the keys count like the values, and the first item past the bound is where it is refused |
| Verdicts.DeclaredItems | cbor/encode.go:12-19 | at the declared bounds an array of 1048575 items decodes and one of 1048576 is refused for size at position 1048580 |
| EncoderMachine.Encoder.Value | cbor/encode.go:42-84 | one call appends exactly the canonical bytes to the buffer, or leaves what was there and returns the specified refusal |
| EncoderMachine.Encoder.WriteHead | cbor/encode.go:86-105 | the shifted bytes appended are the head in its shortest form |
| EncoderMachine.Encoder.MapValue | cbor/encode.go:153-201 | the pair loop, the sort, the duplicate scan and the writing together append the specified map or refuse with the first refusal met |
| EncoderMachine.FindDuplicate | cbor/encode.go:190-194 | the scan reports a duplicate exactly when two neighbours share a key |
| EncoderMachine.EncodeSub | cbor/encode.go:203-209 | a nested value in a buffer of its own has the same bytes or refusal |
| EncoderMachine.EncodeBytes | cbor/encode.go:27-36 | the whole encoder computes the encoding function |
| DecoderMachine.Decoder.Item | cbor/decode.go:31-91 | one call returns the specified value, cursor and item count, or the specified reason and position; the cursor never goes back |
| DecoderMachine.Decoder.Uint | cbor/decode.go:144-154 | the accumulating loop reads the number the bytes denote and moves past them |
| DecoderMachine.Decoder.MapValue | cbor/decode.go:183-236 | the loop with its previous key and key type computes the specified entries, and stops at the first refusal |
| DecoderMachine.JudgeKey | cbor/decode.go:199-226 | the key switch and comparison name the specified refusal: type, then agreement, then duplicate, then order |
| DecoderMachine.DecodeBytes | cbor/decode.go:13-23 | the whole decoder computes the decoding function |
| Tables.EntryByKey | schema/table.go:99-108 | the entry found has the key and belongs to the table, and nothing is found exactly when no entry has it |
| Tables.FindEntry | schema/table.go:99-108 | the linear search finds that entry |
| Tables.DenseLookup | schema/fieldtable.go:69-93 | with dense keys the search is an index into the entries |
| Tables.Registry.Add | schema/table.go:141-149 | a table is added exactly when its slot is free; otherwise nothing changes, and no held table is ever replaced |
| Tables.AddingOnlyGrows | schema/table.go:141-149 | any run of successful additions keeps every held table, adds one slot each, and files each table under its own type and version |
| Floor.DefaultRegistry | schema/floor.go:66-75 | three additions give a registry holding exactly the floor |
| FloorBytes.FloorLoadsFromItsBytes | schema/floor.go:27-75 | three literal byte strings load as exactly what lookups of (0, 1), (1, 1) and (2, 1) return, under any registry holding the floor, where ASCII names are in NFC |
| InterpreterMachine.InterpretArtifact | schema/interpret.go:101-136 | the loops over fields and elements compute the interpretation function for every registry, self-referring tables included, and terminate by the value alone |
| InterpreterMachine.ValueView | schema/interpret.go:138-211 | the kind switch computes the specified field or refusal |
| KindCodes.ScalarCodes | schema/interpret.go:138-163 | kinds 0, 1, 2 and 3 read exactly integers, byte strings, texts and booleans, as they are |
| KindCodes.DecimalCode | schema/interpret.go:164-172 | kind 4 reads exactly the pairs s, m with m % 10 not 0, or both 0, as the decimal s, m |
| KindCodes.RationalCode | schema/interpret.go:173-181 | kind 5 reads exactly the coprime pairs with a positive denominator, as that rational |
| KindCodes.ArrayCode | schema/interpret.go:182-198 | kind 6 reads exactly arrays, each element under the element type |
| KindCodes.RefCode | schema/interpret.go:199-204 | kind 7 reads under the table registered for the target at the root's version, and is unresolved without one |
| KindCodes.OtherCodes | schema/interpret.go:205-211 | every other code is unresolved, whatever the value |
| InterpreterMachine.Require | schema/interpret.go:245-260 | the presence gate refuses exactly when one of its keys is absent |
| Conformance.InterpretSucceedsOnConforming | schema/interpret.go:101-226 | an instance is returned exactly for values that conform to the table, it is well typed at every level, and has exactly the artifact's keys |
| Conformance.MapStaysWithin | schema/interpret.go:182-204 | whatever the tables refer to, an instance nests no deeper than the value |
| InterpretRefusals.InterpretRefusesFaults | schema/interpret.go:101-226 | interpreting refuses with a reason exactly when it is the fault of the first field or element that does not conform, with the kinds as wire codes |
| InterpretRefusals.NothingUnresolvedNothingChanges | schema/interpret.go:49-58 | an artifact with nothing unresolved has one verdict under every registry grown from this one |
| InterpretRefusals.AdditionCanResolve | schema/interpret.go:49-58 | an unresolved ref can become an instance by adding the table it names |
| Resolution.UnresolvableExactly | schema/interpret.go:49-58 | no further tables resolve an artifact exactly when it is unresolved even with every named table supplied, empty |
| Resolution.VerdictIsFinalExactly | schema/interpret.go:20-58 | a verdict is the same under every grown registry exactly when it is not unresolved-ref or is one that cannot be resolved |
| Growth.GrowthKeepsVerdicts | schema/interpret.go:20-58 | after any successful additions an instance is the same instance and a refusal other than unresolved-ref the same refusal |
| Growth.NodesAgree | schema/interpret.go:20-58 | two nodes agree on every table and value, but for unresolved-ref, exactly when they hold the same table wherever both hold one |
| Growth.IncompatibleNodesMayDisagree | schema/interpret.go:20-58 | different tables for one type and version can set an acceptance against an artifact-determined refusal |
| Lossless.InstanceKeepsTheBytes | schema/interpret.go:110-211 | erasing an instance to a value, fields in any order, and encoding it gives the artifact's bytes back |
| Lossless.EqualInstancesEqualBytes | schema/interpret.go:110-211 | artifacts with equal instances of a table are the same bytes, under whatever registries they were read |
| InstanceInverse.InstanceSurvivesTheWire | schema/interpret.go:101-211 | writing an instance and interpreting the decoded bytes under a table gives it back exactly when it is a well-typed instance of that table |
| Lossless.FieldOfEntry | schema/interpret.go:116-134 | with distinct keys no entry is overwritten in the field map |
| FieldTables.LoadFieldTable | schema/fieldtable.go:20-67 | the procedure computes the parsing function, refusals in the same order |
| FieldTables.ValidateEntryKeys | schema/fieldtable.go:69-93 | the check passes exactly on nonempty entries with keys 0, 1, up to n-1 in order |
| FieldTables.LoadDescriptor | schema/fieldtable.go:134-218 | filling a descriptor field by field computes the specified descriptor or refusal |
| FloorClosure.ParseRefusals | schema/fieldtable.go:25-57 | under any registry holding the floor, parsing never refuses for a missing field, a magnitude or a type mismatch of its own |
| ParseVerdicts.ParseVerdict | schema/fieldtable.go:20-218 | an artifact is refused with a reason exactly when the meta-table refuses it so, or else when the fields it carries and the codes under them show that reason first: missing fields, codes too wide for an int, a kind lacking its own field or carrying another's, keys that are not dense |
| FloorClosure.MetaShape | schema/fieldtable.go:38-57 | every accessor result taken unchecked from a table instance is present and of the right type |
| FloorClosure.EntryShape | schema/fieldtable.go:111-131 | the same for an entry instance |
| FloorClosure.DescriptorShape | schema/fieldtable.go:134-172 | the same for a type-descriptor instance |
| FloorClosure.FloorDecidesAlone | schema/floor.go:3-8 | every registry holding the floor parses a table as the default registry does |
| FloorClosure.AdditionsDoNotChangeReading | schema/floor.go:66-75 | so does every registry reached from the default one by successful additions |
| FloorClosure.NeverMalformedExactlyWhenComplete | schema/interpret.go:183-189 | interpreting with held tables never meets an array without an element type exactly when every entry in reach has a complete type |
| FloorClosure.IncompleteTableIsMalformed | schema/interpret.go:187-189 | a table with an incomplete type in reach refuses some artifact that way, under any registry |
| FloorClosure.LoadedTablesNeverMalformed | schema/fieldtable.go:185-217 | if every table added to the default registry was parsed from an artifact, under whatever registry, that never happens |
| FloorClosure.UnloadedTableCanBeMalformed | schema/interpret.go:187-189 | with a table built by hand it does |
| TablePrinting.PrintThenParse | schema/fieldtable.go:10-67 | every well-formed table is recovered exactly from its artifact, in every spelling |
| TablePrinting.PrintedTableVerdict | schema/fieldtable.go:20-234 | of a printed table whose kinds own their fields, parsing is unresolved exactly if a code does not fit an int, else malformed exactly if the keys are not dense, else the table |
| TableInverse.ParsedIsWellFormed | schema/fieldtable.go:69-93 | every parsed table is nonempty and densely keyed, its known kinds own exactly their fields, and looking a key up is indexing |
| TableInverse.ReadableIsWellFormed | schema/fieldtable.go:134-218 | the tables that can be parsed from something are exactly the well-formed ones |
| TableInverse.ParseThenPrint | schema/fieldtable.go:20-67 | every decoder output that parses is the parsed table printed, in some spelling |
| TableInverse.ReadExactlyFromSpellings | schema/fieldtable.go:134-218 | the normal values that parse to a table are exactly its spellings: each zero code of an unknown kind written or not, at every level |
| TableInverse.BytesOfTable | schema/fieldtable.go:10-67 | the byte strings that load as a table are exactly the encodings of its spellings the item bound covers |
| TableInverse.LoadedFromOneExactly | schema/fieldtable.go:134-218 | a table whose plainest and fullest spellings travel is loaded from one byte string only, exactly when each descriptor at every level has a known kind or two codes other than 0 |
| TableInverse.RecoveredExactlyWhenWellFormed | schema/fieldtable.go:10-67 | a table is recovered from its artifact exactly when it is well formed |
| TablePrinting.PresenceAndUnitAreNotJudged | schema/fieldtable.go:111-121 | a presence and a unit code are read as they are if they fit an int, and unresolved if not |
| TablePrinting.UnlistedCodesAreRead | schema/fieldtable.go:111-121 | presence 99 and unit 12345 are read under every registry holding the floor |
| TableInverse.ReadableArtifactsArePrinted | schema/fieldtable.go:20-67 | the normal values that parse at all are exactly the spellings of the well-formed tables |
| TableInverse.TableDeterminesItsBytes | schema/fieldtable.go:10-15 | a table that shows its fields determines the bytes it was loaded from |
| TableInverse.TableSurvivesTheWire | schema/fieldtable.go:10-19 | a well-formed table written to bytes, in any spelling, is loaded back unchanged |
| TableInverse.UnknownKindsCollapse | schema/fieldtable.go:210-217 | of an unknown kind, two different artifacts parse to one table |
| TableInverse.FloorIsAFixedPoint | schema/floor.go:10-64 | each floor table is parsed from its own artifact, under any registry holding the floor |

## Left out

- Unicode normalization tables: NFC is the parameter `isNfc` of a profile, shared by both halves, so nothing is proved about which strings are in NFC.
- `contentid/`, `envelope/` and `conformance/`: hashes, signatures, files and JSON are calls into code outside this repository.
- Error message text and `Path`; a refusal is its reason, and for the decoder its position.
- Nil `*big.Int` components, nil interface values and the unknown-value-type branch (`cbor/encode.go:81-82`): values and magnitudes are total.
- The sum `d.pos+n` in the string length check (`cbor/decode.go:158`) is taken without wrap-around, so a length near `2^63` is truncated as the rule intends.
- Slice capacity hints, `NewInt`, `RequiredKeys`, `NewRegistry` apart from `Registry.constructor`, and the accessors no modelled code calls (`Bool`, `Bytes`, `Decimal`, `Rational` of an instance).
- The standard library's stable sort and greatest common divisor: insertion sort and Euclid's algorithm stand in for them. `Sorting.AnySortAgrees`, `Sorting.AnySortIsTestedAlike` and `Magnitudes.GcdIsGreatest` are why the choice does not show.
- The panic of adding a second table to a slot: `Tables.Registry.Add` returns false and changes nothing instead.
- Sharing of byte slices between input and output: sequences are values, so copies and views are the same.
- `Encoder.decimal` and `Encoder.rational` are branches of one method, and the bodies of the map loops are methods of their own (`EncodeEntry`, `Entry`, `EntryView`, `ItemsView`), because their proofs are separate.
- The cursor and item count a decoder is left with after a refusal: nobody can read them.
