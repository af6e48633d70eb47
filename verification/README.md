# CloudEvents codecs and allocation accounting, modelled and proved in Dafny

This project models the logic of a header-only CloudEvents SDK for C++ and of the instrumented allocator
of its benchmarks, and proves what that logic keeps. Run `dafny verify dfyconfig.toml` (Dafny 4.11).

Texts are sequences of octets, so a text and its bytes are one value. Results carry the error code of
the library; its messages are not modelled. An event is the value its validated strings guarantee
(`ValidEvent`). Methods follow the loops and objects of the source; each is proved against a function,
and the lemmas are about that function.

## What the modules are

* `Wrappers`, `Arithmetic`, `Decimal`, `Order`: shared values, decimal digits, and the order of a map's keys.
* `BlockSizes`, `HeapLedger`, `HeapReference`, `AllocationProbe`: the open-addressing table with
  backward-shift deletion, the allocation calls as a state machine, what a program holds told from its
  calls alone, and the object that ties table and counters together.
* `Utf8`, `Base64`, `Percent`: section 3 and 4 of RFC 3629, sections 3.5 and 4 of RFC 4648, section 2.1 of RFC 3986;
  `Alphabets` and `TextChecks`: the sets of characters, and what the checks on texts accept.
* `Calendar`, `Timestamp`, `TimestampLaws`, `TimestampReads`: section 5.6 of RFC 3339 over a 64-bit nanosecond clock.
* `Attributes`: names, media types, validated strings, attribute values and events.
* `Wire`, `WireReader`, `ProtobufDecode`, `ProtobufEncode`, `ProtobufLaws`, `ProtobufRoundTrip`,
  `ProtobufImage`, `ProtobufBatch`, `WireReads`, `ProtobufReads`, `ProtobufWrites`: the Protocol Buffers wire format and the event format over it.
* `JsonDom`, `JsonFormat`, `JsonLaws`, `JsonReads`, `DescribeJson`, `DescribeReads`: the JSON event format and described structs, over
  the ordered member list of `examples/custom_codec.cpp`.
* `Headers`, `Bindings`, `BindingOrder`, `BindingReads`, `BindingLaws`, `RenderedText`, `BindingRoundTrip`,
  `BindingNames`:
  binary mode over HTTP (escaped and literal values), Kafka, NATS and MQTT (plain and prefixed names).
* `Extensions`, `ExtensionLaws`, `ExtensionReads`: the event object and the structs stored on it.

The modules whose names end in Reads, and `BindingNames`, say of every input, whoever wrote it, whether it is
accepted, what it says and which error it gives otherwise. They tell this from places, names and numbers on
the wire, without the functions that do the reading.

## Where the code falls short of a plain round trip

Each of these is proved as an exact condition; the lemmas in brackets give an input where the code misses it.
The rows of the table below that say "Main result" are the theorems the others lead up to.

* A timestamp near either end of the clock is accepted but cannot be rendered. At the late end adding its
  offset leaves int64; at the early end the midnight of 1677-09-21, which rendering subtracts, lies before
  int64 begins: `CanRenderExactly` (`AcceptedPastTheClock`, `AcceptedBeforeTheClock`, and as documents
  `AcceptedButNotWritten`). Writers therefore ask for `RenderableOptions`.
* A timestamp made by hand comes back from its text exactly when it has an offset below a day, no offset
  with the UTC designator and no digit beyond those it counts: `RenderParsesExactly` (`HiddenNanosAreLost`).
  The JSON and binary-mode round trips turn on the same condition.
* An optional that holds an empty optional collapses to the outer empty one: `TypeRoundTrip`; the function
  `Lost` gives a value for every such type.
* NATS writes extension values without checking that they are UTF-8 and then refuses to read them:
  `BinaryRoundTrip` (`NatsWritesWhatItRefuses`). The other bindings check first (`ValueReturns`).
* A message whose media type starts with application/cloudevents is read as a structured one:
  `ModeOfWritten`, `OwnMediaTypeIsNotBinary` (`WrittenBinaryReadStructured`). NATS takes even a batch for
  one (`BatchIsRefused`).
* A text sent as a body comes back as octets or as JSON, and JSON in the form the receiver keeps: `BodyReturns`.
* A document that was received is sent on as its dump, and comes back only if the codec parses its dump to it:
  `ForwardedIsEqual`.
* Of fields that an annotation renames to one name only the last is written, and the others come back as it:
  `StructRoundTrip` (`SharedNameIsLost`), `SurvivesBinary`, `SurvivesJson`.
* Decoding a Protobuf event under a limit of n attributes may give n + 2: `DecodedIsNormal`
  (`TwoMoreAreReached`).
* `operator new` lays its payload inside the raw block exactly when the padded size does not wrap:
  `PayloadFitsExactly` (`OversizedNewOverruns`).
* The live count goes wrong exactly when a block is tracked at an address the table still holds with a
  size: `TrackCountsExactly` (`TrackedTwiceMiscounts`).

## Model

| member | source | states |
|---|---|---|
| `BlockSizes.HomeInRange` | bench/perf/raw_malloc_wrapped.cpp:108-112 | the hash of any address is a slot of a table of 2^bits slots, for every width the shift allows |
| `BlockSizes.FreeSlot` | bench/perf/raw_malloc_wrapped.cpp:52-60 | a table that holds fewer entries than slots has an empty one, so every probe meets an end |
| `BlockSizes.BitsOf` | bench/perf/raw_malloc_wrapped.cpp:127-129 | the doubling loop finds the exponent of a capacity that is a power of two |
| `BlockSizes.StoredKeepsTable` | bench/perf/raw_malloc_wrapped.cpp:57-64 | an entry stored where its probe stopped leaves a table: each key once, and every entry reachable from its home with no gap |
| `BlockSizes.CopyStep` | bench/perf/raw_malloc_wrapped.cpp:131-135 | while growing, after i old slots the new table holds exactly the entries of those slots, and has room for the next |
| `BlockSizes.CopyDone` | bench/perf/raw_malloc_wrapped.cpp:131-135 | once all old slots are copied nothing is lost and nothing is doubled |
| `BlockSizes.StartShifting` | bench/perf/raw_malloc_wrapped.cpp:83-86 | emptying a slot leaves every entry reachable except those whose probe crosses that one hole |
| `BlockSizes.WantedAfterHoleIsReachability` | bench/perf/raw_malloc_wrapped.cpp:87-90 | the comparison of lines 88 to 89 holds exactly when the probe from the wanted slot to the entry does not cross the hole, wrapped round the end or not |
| `BlockSizes.KeepEntry` | bench/perf/raw_malloc_wrapped.cpp:85-94 | an entry that is left in place is still reachable, so the invariant of the shifting loop moves on past it |
| `BlockSizes.MoveEntry` | bench/perf/raw_malloc_wrapped.cpp:90-93 | an entry that is pulled back is reachable in the hole, and the only gap is now where it stood |
| `BlockSizes.ShiftedIsTable` | bench/perf/raw_malloc_wrapped.cpp:85-96 | when the run ends, every remaining entry is reachable without a gap: no tombstone is needed |
| `BlockSizes.BlockSizes.constructor` | bench/perf/raw_malloc_wrapped.cpp:139-143 | a new table is valid and empty |
| `BlockSizes.BlockSizes.Probe` | bench/perf/raw_malloc_wrapped.cpp:57-60 | finds the slot of a present address, and for an absent one an empty slot that its whole probe leads to |
| `BlockSizes.BlockSizes.Insert` | bench/perf/raw_malloc_wrapped.cpp:52-65 | **Main result:** the table as a map gains or replaces exactly one entry; it aborts exactly when one entry more would fill over half of the slots and the grown table does not fit or is not granted |
| `BlockSizes.BlockSizes.Grow` | bench/perf/raw_malloc_wrapped.cpp:114-137 | doubles the capacity and keeps the map; the insertions it makes never grow again; aborts exactly when the grown table does not fit or is not granted |
| `BlockSizes.BlockSizes.Erase` | bench/perf/raw_malloc_wrapped.cpp:69-98 | **Main result:** returns the size of a present address and removes that entry alone; returns nothing and changes nothing for an absent one |
| `BlockSizes.BlockSizes.PullBack` | bench/perf/raw_malloc_wrapped.cpp:83-96 | **Main result:** backward-shift deletion over the array: the slots hold the map less the erased entry, every entry reachable |
| `HeapLedger.PlacementFits` | bench/perf/counting_allocator.cpp:19-31 | the header and the payload of a `new` lie inside its raw block and the payload is aligned |
| `HeapLedger.PayloadFitsExactly` | bench/perf/counting_allocator.cpp:19-26 | the payload ends inside the raw block exactly when the padded size does not wrap round the width of size_t |
| `HeapLedger.OversizedNewOverruns` | bench/perf/counting_allocator.cpp:19-26 | a size for which the raw request wraps to sixteen octets and the payload runs past them |
| `HeapLedger.HeaderRecovered` | bench/perf/counting_allocator.cpp:34-42 | `release` reads from the header exactly the raw pointer and the size that `allocate` was given |
| `HeapLedger.TrackCountsExactly` | bench/perf/raw_malloc_wrapped.cpp:147-150 | tracking keeps the live count right exactly when the address is not in the table already, or is there with size 0 |
| `HeapLedger.TrackedTwiceMiscounts` | bench/perf/raw_malloc_wrapped.cpp:147-150 | two trackings of one address with no release between miscount |
| `HeapLedger.StepKeeps` | bench/perf/raw_malloc_wrapped.cpp:147-222 | every wrapped call, every `new` and every `delete` keeps the live counter equal to the sizes in the table and the headers, and keeps all headers in place |
| `HeapLedger.EveryRunCounts` | bench/perf/raw_malloc_wrapped.cpp:147-222 | **Main result:** the same after any run of calls whose allocator hands out no live address: moved, in-place and zero-size realloc, aligned forms and foreign pointers included |
| `HeapReference.TracksBlock` | bench/perf/raw_malloc_wrapped.cpp:160-222 | each call changes the table by exactly the block it took back and the block it handed out |
| `HeapReference.TracksNew` | bench/perf/counting_allocator.cpp:19-42 | each `new` and `delete` changes the headers by exactly its block |
| `HeapReference.RunHolds` | bench/perf/raw_malloc_wrapped.cpp:160-222 | after every run the table and the headers hold exactly the blocks the calls say the program holds |
| `HeapReference.RunCounts` | bench/perf/heap_counters.cpp:27-31 | after every run the allocation count and the byte count are the number and the total of the blocks handed out, modulo 2^64 |
| `HeapReference.EveryRunAgrees` | bench/perf/heap_counters.cpp:16-35 | **Main result:** from a fresh start all three counters agree with a definition of what the program holds that never looks at the table |
| `AllocationProbe.Probe.Track` | bench/perf/raw_malloc_wrapped.cpp:147-150 | the object made of the table and the counters takes the step of the ledger, or aborts, which it does exactly when one entry more would fill over half of the table and it is refused memory |
| `AllocationProbe.Probe.Forget` | bench/perf/raw_malloc_wrapped.cpp:152-156 | a foreign pointer is passed over; a known one leaves the table and the count |
| `AllocationProbe.Probe.WrapMalloc` | bench/perf/raw_malloc_wrapped.cpp:162-168 | takes the step of the ledger for malloc; aborts exactly when a block is to be tracked and the table is refused memory |
| `AllocationProbe.Probe.WrapCalloc` | bench/perf/raw_malloc_wrapped.cpp:170-177 | takes the step of the ledger for calloc; aborts exactly when a block is to be tracked and the table is refused memory |
| `AllocationProbe.Probe.WrapRealloc` | bench/perf/raw_malloc_wrapped.cpp:179-191 | takes the step of the ledger for realloc, in its four cases; aborts exactly when the block it tracks finds no room after the old one has left |
| `AllocationProbe.Probe.WrapFree` | bench/perf/raw_malloc_wrapped.cpp:193-198 | takes the step of the ledger for free |
| `AllocationProbe.Probe.WrapAlignedAlloc` | bench/perf/raw_malloc_wrapped.cpp:200-206 | takes the step of the ledger for aligned_alloc; aborts exactly when a block is to be tracked and the table is refused memory |
| `AllocationProbe.Probe.WrapPosixMemalign` | bench/perf/raw_malloc_wrapped.cpp:208-214 | takes the step of the ledger for posix_memalign, which stores nothing on a failure; aborts exactly when a block is to be tracked and the table is refused memory |
| `AllocationProbe.Probe.WrapMemalign` | bench/perf/raw_malloc_wrapped.cpp:216-222 | takes the step of the ledger for memalign; aborts exactly when a block is to be tracked and the table is refused memory |
| `AllocationProbe.Probe.Allocate` | bench/perf/counting_allocator.cpp:19-32 | writes the two header slots below an aligned pointer and takes the step of the ledger for `new` |
| `AllocationProbe.Probe.Release` | bench/perf/counting_allocator.cpp:34-42 | gives back the raw pointer the block was made from and takes the step of the ledger for `delete` |
| `AllocationProbe.Probe.RecordAllocation` | bench/perf/heap_counters.cpp:27-31 | adds to all three counters, each at its own width |
| `AllocationProbe.Probe.RecordRelease` | bench/perf/heap_counters.cpp:33-35 | takes from the live counter alone |
| `Utf8.FirstIsEncoding` | include/cloudevents/attributes.hpp:151-206 | what the check accepts at the head of a text is the shortest encoding of a Unicode scalar value |
| `Utf8.EncodingIsFirst` | include/cloudevents/attributes.hpp:151-206 | the check accepts the shortest encoding of every scalar value, whatever follows it |
| `Utf8.EncodeAllInjective` | include/cloudevents/attributes.hpp:184-206 | a text is the concatenation of encodings of at most one sequence of scalar values |
| `Utf8.IsValid` | include/cloudevents/attributes.hpp:184-206 | **Main result:** the loop answers true exactly for the concatenations of shortest-form encodings of scalar values |
| `Utf8.MasksAreDivisions` | include/cloudevents/attributes.hpp:151-165 | the masks of the source select the same octets and bits as the divisions of the model |
| `Base64.EncodeStream` | include/cloudevents/format/base64.hpp:75-114 | the loop over groups of three octets writes the encoding of RFC 4648, section 4, with its padding |
| `Base64.ShiftInDrops` | include/cloudevents/format/base64.hpp:144-156 | shifting six bits into the 32-bit accumulator loses its high bits and keeps the rest |
| `Base64.OctetGivenUp` | include/cloudevents/format/base64.hpp:152-157 | the octet given up is made of the last two sextets alone, whatever the wrap has lost |
| `Base64.DecodeStep` | include/cloudevents/format/base64.hpp:146-158 | one more character keeps the octets given up those of all characters so far |
| `Base64.TrailingIsHeld` | include/cloudevents/format/base64.hpp:160-162 | the test of the bits left in the wrapped accumulator is the test that the unused bits of the text are zero |
| `Base64.DecodeExactly` | include/cloudevents/format/base64.hpp:119-165 | a text decodes to some octets exactly when it is their encoding or that encoding with all its padding taken off |
| `Base64.DecodeStream` | include/cloudevents/format/base64.hpp:119-165 | **Main result:** the loop accepts exactly that language and returns those octets; a text it refuses is the encoding of nothing |
| `Base64.RoundTrip` | include/cloudevents/format/base64.hpp:75-165 | decoding undoes encoding for all octets |
| `Alphabets.Base64Exactly` | include/cloudevents/format/base64.hpp:19-46 | a character stands for its place in the alphabet of RFC 4648, and no other octet for anything |
| `Alphabets.TestVectors` | include/cloudevents/format/base64.hpp:75-112 | three test vectors of section 10 of RFC 4648, one for each amount of padding |
| `Percent.RoundTrip` | include/cloudevents/binding/detail/percent.hpp:44-89 | decoding what was encoded gives the text back exactly when it is well-formed UTF-8 |
| `Percent.DecodesExactly` | include/cloudevents/binding/detail/percent.hpp:60-89 | **Main result:** a text decodes to the well-formed octets that it spells out one by one, and to nothing else |
| `Percent.EncodedIsPrintable` | include/cloudevents/binding/detail/percent.hpp:44-58 | an encoding has only the octets 0x21 to 0x7E, without a double quote |
| `Percent.Canonical` | include/cloudevents/binding/detail/percent.hpp:44-89 | texts that decode alike have one canonical encoding, and it decodes alike |
| `Percent.PercentEncode` | include/cloudevents/binding/detail/percent.hpp:44-58 | the loop computes the encoding these laws are about |
| `Percent.PercentDecode` | include/cloudevents/binding/detail/percent.hpp:60-89 | the loop computes the decoding these laws are about, with the same errors |
| `Alphabets.EscapedExactly` | include/cloudevents/binding/detail/percent.hpp:44-58 | one octet: itself from 0x21 to 0x7E but for quote and percent sign, and else a percent sign and two upper-case digits |
| `Alphabets.EscapedInParts` | include/cloudevents/binding/detail/percent.hpp:44-58 | a text is encoded octet by octet |
| `Alphabets.HexValueExactly` | include/cloudevents/binding/detail/percent.hpp:60-89 | a hexadecimal digit counts alike in either case, and nothing else is one |
| `Alphabets.DecodingFailsExactly` | include/cloudevents/binding/detail/percent.hpp:60-89 | a text that spells no octets is a parse error, one that spells octets that are not UTF-8 is invalid UTF-8 |
| `Calendar.CountsDays` | include/cloudevents/detail/timestamp.hpp:112-116 | the day number of 1970-01-01 is 0 and of the day after a date one more, so the closed form is the proleptic Gregorian calendar |
| `Calendar.DateOfIsValid` | include/cloudevents/detail/timestamp.hpp:210-211 | every day number, before the epoch too, is the number of a valid date |
| `Calendar.DateOfDays` | include/cloudevents/detail/timestamp.hpp:178-181 | the date of a date's day number is that date |
| `Decimal.ToInt` | include/cloudevents/detail/timestamp.hpp:103-110 | the loop over the digits computes their number |
| `Order.LessEqExactly` | include/cloudevents/format/protobuf_format.hpp:823-844 | the order of the keys of a map: the first octets that differ decide, and the start of a text comes before it |
| `Timestamp.MatchExactly` | include/cloudevents/detail/timestamp.hpp:83-126 | the grammar accepts a text as some fields exactly when it is the layout of those fields, so no text is read in two ways |
| `Timestamp.ReadFraction` | include/cloudevents/detail/timestamp.hpp:156-160 | the loop over the places of the fraction gives its nanoseconds |
| `Timestamp.ParseTimestamp` | include/cloudevents/detail/timestamp.hpp:123-205 | the method computes the reading these laws are about, with its errors in order |
| `Timestamp.ToString` | include/cloudevents/detail/timestamp.hpp:208-249 | the method, with its loop over a digit buffer, computes the rendering these laws are about, wherever the offset, the local time and its midnight are on the clock |
| `Timestamp.YearHasFourDigits` | include/cloudevents/detail/timestamp.hpp:209-211 | every local time on the 64-bit clock has a year of four digits |
| `TimestampReads.MatchedByPlace` | include/cloudevents/detail/timestamp.hpp:86-103 | a text is a date-time exactly when its digits and signs stand at their places, with one place where the zone can start |
| `TimestampReads.ParsedByPlace` | include/cloudevents/detail/timestamp.hpp:123-205 | **Main result:** which texts are timestamps, by their places and by month lengths, leap years, hours, minutes, seconds to 60, offsets and the ends of the clock; what each says; and which of two errors any other text gives |
| `TimestampReads.LeapSecondIsAccepted` | include/cloudevents/detail/timestamp.hpp:143-145 | 2016-12-31T23:59:60Z is the first second of 2017 |
| `TimestampReads.RenderedByPlace` | include/cloudevents/detail/timestamp.hpp:209-249 | **Main result:** what a rendering says, by its places: the date of the local day, the time since midnight, the nanoseconds cut to the digits shown, and the zone; for every value that can be rendered with an offset below 100 hours |
| `TimestampLaws.ReadIsExact` | include/cloudevents/detail/timestamp.hpp:147-204 | a reading is the written time less the offset in nanoseconds, with leap second and fraction, and fits int64 |
| `TimestampLaws.ParsedIsExact` | include/cloudevents/detail/timestamp.hpp:178-204 | every accepted value has an offset below a day, and no digit beyond those it counts |
| `TimestampLaws.RenderParses` | include/cloudevents/detail/timestamp.hpp:123-249 | parsing the rendering of such a value gives it back: instant, offset, form and digit count |
| `TimestampLaws.RenderParsesExactly` | include/cloudevents/detail/timestamp.hpp:123-249 | the values that come back from their rendering are exactly those a text can give |
| `TimestampLaws.HiddenNanosAreLost` | include/cloudevents/detail/timestamp.hpp:221-233 | a value with nanoseconds that its digits do not show does not come back |
| `TimestampLaws.RoundTrip` | include/cloudevents/detail/timestamp.hpp:123-249 | **Main result:** for every accepted text whose value can be rendered, parse after render after parse is parse |
| `TimestampLaws.CanRenderExactly` | include/cloudevents/detail/timestamp.hpp:208-212 | **Main result:** the accepted texts whose rendering stays in int64 are exactly those written from 1677-09-22T00:00:00, the first midnight on the clock, to 2262-04-11T23:47:16.854775807 |
| `TimestampLaws.AcceptedPastTheClock` | include/cloudevents/detail/timestamp.hpp:189-209 | 2262-04-12T00:47:15+01:00 is accepted and cannot be rendered: adding the offset leaves int64 |
| `TimestampLaws.AcceptedBeforeTheClock` | include/cloudevents/detail/timestamp.hpp:189-212 | 1677-09-21T00:12:45Z is accepted and cannot be rendered: its midnight, which is subtracted, is before int64 begins |
| `Timestamp.MidnightFits` | include/cloudevents/detail/timestamp.hpp:210-212 | the midnight of a local time on the clock is on the clock exactly from 1677-09-22 on |
| `TimestampLaws.RenderIsTextExactly` | include/cloudevents/detail/timestamp.hpp:123-249 | **Main result:** the rendering is the text itself exactly when it is upper-case, has no leap second and no offset -00:00 |
| `Wire.VarintOfPut` | include/cloudevents/format/detail/protobuf_wire.hpp:65-80 | a varint written is read back, and nothing behind it is touched, for every 64-bit value |
| `Wire.HeaderOfTag` | include/cloudevents/format/detail/protobuf_wire.hpp:82-99 | a tag written is read back as its field number and wire type |
| `Wire.FieldOfPutVarint` | include/cloudevents/format/detail/protobuf_wire.hpp:163-166 | a varint field written is the first field read |
| `Wire.FieldOfPut` | include/cloudevents/format/detail/protobuf_wire.hpp:168-176 | a length-delimited field written is the first field read |
| `Wire.PutVarintLoop` | include/cloudevents/format/detail/protobuf_wire.hpp:151-157 | the loop writes the varint these laws are about |
| `WireReads.VarintExactly` | include/cloudevents/format/detail/protobuf_wire.hpp:65-80 | a varint is read exactly where one to ten octets are one, all but the last at 128 or above, and is the sum of their groups |
| `WireReads.WrittenIsShortest` | include/cloudevents/format/detail/protobuf_wire.hpp:151-157 | the varint written has no octet too many |
| `WireReads.FieldExactly` | include/cloudevents/format/protobuf_format.hpp:145-171 | **Main result:** octets start with a field exactly when they start with a tag of a number from 1 to 2^29 - 1 and one of four kinds and with a whole value of it; a fixed width is passed over |
| `WireReads.FieldsJoin` | include/cloudevents/format/protobuf_format.hpp:174-189 | behind a whole message another one goes on, and the fields are those of both |
| `WireReader.Reader.ReadVarint` | include/cloudevents/format/detail/protobuf_wire.hpp:65-80 | the loop reads the varint and takes exactly its octets; the tenth octet may carry one bit only |
| `WireReader.Reader.ReadHead` | include/cloudevents/format/detail/protobuf_wire.hpp:82-99 | reads a header or refuses a field number or wire type that is not allowed |
| `WireReader.Reader.ReadLengthDelimited` | include/cloudevents/format/detail/protobuf_wire.hpp:101-112 | takes the length and as many octets, or refuses a length past the end |
| `WireReader.Reader.Skip` | include/cloudevents/format/detail/protobuf_wire.hpp:114-129 | passes over a value of any kind and ends where it ends, or refuses one that is cut short |
| `WireReader.SkippedIsRead` | include/cloudevents/format/detail/protobuf_wire.hpp:114-129 | passing over a value and reading it as a field succeed on the same octets and end at the same one |
| `WireReader.Reader.Read` | include/cloudevents/format/protobuf_format.hpp:145-171 | reads one field, or passes over one whose type the format does not use |
| `WireReader.ForEachField` | include/cloudevents/format/protobuf_format.hpp:174-189 | the loop visits the fields in wire order and stops at the first refusal of the reader or the visitor |
| `ProtobufDecode.ScanEvent` | include/cloudevents/format/protobuf_format.hpp:513-523 | the walk over an event's fields gives the record these laws are about |
| `ProtobufDecode.DecodeEvents` | include/cloudevents/format/protobuf_format.hpp:734-749 | the loop over the bodies of a batch stops at the first that is refused |
| `ProtobufDecode.CheckUriReference` | include/cloudevents/format/protobuf_format.hpp:395-411 | the loop accepts exactly the texts in which every percent sign is followed by two hexadecimal digits and every other octet is one a URI may have |
| `Alphabets.UriReferenceExactly` | include/cloudevents/format/protobuf_format.hpp:395-411 | the same by places: a percent sign stands before two hexadecimal digits, every other octet is a letter, a digit or one of 22 marks, and at most one is a number sign |
| `ProtobufReads.TimestampExactly` | include/cloudevents/format/protobuf_format.hpp:236-251 | of any octets: an instant is its last varint 1 and its last varint 2, and all other fields are passed over |
| `ProtobufReads.InstantExactly` | include/cloudevents/format/protobuf_format.hpp:219-234 | which seconds and nanoseconds are an instant, and with how many digits |
| `ProtobufReads.ValueExactly` | include/cloudevents/format/protobuf_format.hpp:311-328 | of any octets: a value is the last of its fields 1 to 7 that is one of the right kind, and is refused if any of them is bad |
| `ProtobufReads.EntryExactly` | include/cloudevents/format/protobuf_format.hpp:333-360 | of any octets: an entry is its last name and its last value, and all other fields are passed over |
| `ProtobufReads.AnyExactly` | include/cloudevents/format/protobuf_format.hpp:446-473 | of any octets: an `Any` is its last type URL and its last value |
| `ProtobufReads.ScanExactly` | include/cloudevents/format/protobuf_format.hpp:493-523 | **Main result:** of any octets: they are scanned exactly when they are whole fields and none is refused; the id, source, version and type are the last fields 1 to 4, each name has its last entry, the data is the last of fields 6 to 8; and otherwise the first refusal is the error |
| `ProtobufReads.UnknownFieldsAreSkipped` | include/cloudevents/format/protobuf_format.hpp:493-511 | **Main result:** varint fields, fixed-width fields and fields of a number above 8 change neither the answer nor the error, wherever they stand |
| `ProtobufReads.UnknownFieldIsSkipped` | include/cloudevents/format/protobuf_format.hpp:493-511 | so does one length-delimited field of such a number in front of anything |
| `ProtobufReads.AppliedExactly` | include/cloudevents/format/protobuf_format.hpp:581-611 | the attributes are applied exactly when there is no reason against any, and the first in the order of names decides the error |
| `ProtobufReads.BuiltExactly` | include/cloudevents/format/protobuf_format.hpp:651-673 | when a record is an event, and which error it gives otherwise |
| `ProtobufReads.BuiltByName` | include/cloudevents/format/protobuf_format.hpp:581-673 | what the event holds: each attribute as the entry of its name, the other entries as extensions, and the data; an `Any` gives a media type and a schema where there was none |
| `ProtobufReads.MediaTypeIs` | include/cloudevents/format/protobuf_format.hpp:615-620 | that media type is application/protobuf |
| `ProtobufReads.DecodedExactly` | include/cloudevents/format/protobuf_format.hpp:676-691 | decoding is the size limit, the scan and the building, in this order |
| `ProtobufReads.DetailedExactly` | include/cloudevents/format/protobuf_format.hpp:694-709 | the type URL told besides is that of data that came last and as an `Any`, if it is not empty |
| `ProtobufReads.BatchExactly` | include/cloudevents/format/protobuf_format.hpp:714-731 | of any octets: the events of a batch are the bodies of its fields 1 in their order; too many are refused whatever else there is |
| `ProtobufReads.EventsExactly` | include/cloudevents/format/protobuf_format.hpp:734-749 | they are decoded one by one, and the first refused gives the error |
| `ProtobufEncode.EncodeEvent` | include/cloudevents/format/protobuf_format.hpp:904-916 | the writer puts the required fields, the attributes in order of their names and the data |
| `ProtobufEncode.EncodeEvents` | include/cloudevents/format/protobuf_format.hpp:931-937 | a batch is the encodings one after the other, each as field 1 |
| `ProtobufWrites.EventWritten` | include/cloudevents/format/protobuf_format.hpp:904-916 | the fields of an encoding: 1 to 4, a field 5 for each attribute in the order of names, and the data |
| `ProtobufWrites.ValueWritten` | include/cloudevents/format/protobuf_format.hpp:775-821 | the one field a value is written as |
| `ProtobufWrites.InstantWritten` | include/cloudevents/format/protobuf_format.hpp:802-815 | an instant is its whole seconds and the nanoseconds left, zeros not written |
| `ProtobufWrites.EntryWritten` | include/cloudevents/format/protobuf_format.hpp:847-852 | an entry is its name in field 1 and its value in field 2 |
| `ProtobufWrites.AnyWritten` | include/cloudevents/format/protobuf_format.hpp:866-873 | an `Any` is its type URL, if there is one, and its value |
| `ProtobufWrites.DataGoesTo` | include/cloudevents/format/protobuf_format.hpp:855-901 | octets go to field 8 exactly when the event is declared application/protobuf, in whatever case, and has a URI reference for a schema; else to field 6, and texts to field 7 |
| `ProtobufWrites.AsAnyExactly` | include/cloudevents/format/protobuf_format.hpp:919-928 | a caller's own type URL is taken for octets alone, and only if it is a URI reference |
| `ProtobufLaws.ReadInstantBody` | include/cloudevents/format/protobuf_format.hpp:219-251 | the seconds and nanoseconds of an instant, floored below the epoch, are read back |
| `ProtobufLaws.InstantReadExactly` | include/cloudevents/format/protobuf_format.hpp:203-234 | an instant has its seconds and nanoseconds as floor and remainder, and shows no group of three digits that it could drop without loss |
| `ProtobufLaws.FloorFitsExactly` | include/cloudevents/format/protobuf_format.hpp:803-806 | flooring an instant to seconds stays in int64 exactly from -9223372036 s on, and for every instant that can be encoded |
| `ProtobufLaws.IntegerReadExactly` | include/cloudevents/format/protobuf_format.hpp:253-260 | an integer is read from its sign-extended varint and from no other |
| `ProtobufLaws.ReadEncodedValue` | include/cloudevents/format/protobuf_format.hpp:311-328 | a value written reads back as its normal form exactly when its text is UTF-8 and its instant is in range |
| `ProtobufLaws.ReadEncodedEntry` | include/cloudevents/format/protobuf_format.hpp:333-360 | a map entry written reads back as its name and value |
| `ProtobufLaws.WalkEntries` | include/cloudevents/format/protobuf_format.hpp:435-442 | all entries are read back in turn, exactly when each is encodable and their number is within the limit |
| `ProtobufLaws.WalkData` | include/cloudevents/format/protobuf_format.hpp:475-491 | of the three data fields the one written is read back, an `Any` with its URL |
| `ProtobufLaws.ScanOfEncoding` | include/cloudevents/format/protobuf_format.hpp:676-682 | scanning an encoding succeeds exactly when the event is encodable and within the limits, and gives its record |
| `ProtobufRoundTrip.ApplyExactly` | include/cloudevents/format/protobuf_format.hpp:581-611 | the attributes are applied exactly when each alone is acceptable, and each lands in its own place |
| `ProtobufRoundTrip.BuildOfScan` | include/cloudevents/format/protobuf_format.hpp:651-673 | building the record of an encoding gives the normal form of the event |
| `ProtobufRoundTrip.DecodeOfEncodeWith` | include/cloudevents/format/protobuf_format.hpp:676-691 | decoding an encoding, with or without a type URL, succeeds exactly when the event is encodable and within the limits, and then gives its normal form |
| `ProtobufRoundTrip.DecodeOfEncode` | include/cloudevents/format/protobuf_format.hpp:955-963 | **Main result:** the same for the encoder's own choice of type URL |
| `ProtobufImage.LimitsOnlyRestrict` | include/cloudevents/format/protobuf_format.hpp:513-523 | **Main result:** an event decoded under tighter limits is the one decoded under looser limits, by simulation of the two walks |
| `ProtobufImage.BatchLimitsOnlyRestrict` | include/cloudevents/format/protobuf_format.hpp:714-749 | **Main result:** the same for batches |
| `ProtobufImage.NoBodyPastTheLimit` | include/cloudevents/format/protobuf_format.hpp:714-731 | no body beyond the count limit is recorded |
| `ProtobufImage.ScanIsNormal` | include/cloudevents/format/protobuf_format.hpp:513-523 | every scanned record holds normal values, well-formed data and no more attributes than the limit |
| `ProtobufImage.DecodedIsNormal` | include/cloudevents/format/protobuf_format.hpp:599-673 | whatever decodes is a valid event in normal form that encodes, with at most two attributes more than the limit |
| `ProtobufImage.DecodedRoundTrip` | include/cloudevents/format/protobuf_format.hpp:827-916 | **Main result:** whatever decodes encodes and, under limits with room for two attributes more, decodes to an equal event |
| `ProtobufBatch.BodiesOfBatch` | include/cloudevents/format/protobuf_format.hpp:714-731 | the bodies recorded of an encoded batch are the encodings of its events |
| `ProtobufBatch.TooManyBodies` | include/cloudevents/format/protobuf_format.hpp:714-731 | an encoded batch of more events than the limit is refused |
| `ProtobufBatch.BatchRoundTrip` | include/cloudevents/format/protobuf_format.hpp:931-937 | a batch decodes exactly when its events are no more than the limit and each can be read back, and then to their normal forms, in order |
| `ProtobufBatch.DecodedBatchRoundTrip` | include/cloudevents/format/protobuf_format.hpp:734-749 | **Main result:** a batch that decodes encodes and decodes to equal events |
| `ProtobufBatch.DetailedAgrees` | include/cloudevents/format/protobuf_format.hpp:694-709 | the detailed decoder accepts and refuses as the plain one does and gives the same event |
| `ProtobufBatch.TypeUrlRoundTrip` | include/cloudevents/format/protobuf_format.hpp:919-928 | a type URL written beside binary data is the one the detailed decoder returns, an empty one as none |
| `ProtobufBatch.TwoMoreAreReached` | include/cloudevents/format/protobuf_format.hpp:615-630 | the two attributes more are reached: an event of no attributes that decodes to one of two |
| `Attributes.NamesDiffer` | include/cloudevents/attributes.hpp:211-218 | no two reserved names are the same text |
| `Attributes.JsonMediaType` | include/cloudevents/attributes.hpp:221-228 | a media type is a JSON one exactly when its subtype is json or ends in +json, ignoring case |
| `Attributes.MadeIsItself` | include/cloudevents/attributes.hpp:233-313 | a check gives back the text it accepts, and that text is well-formed UTF-8 |
| `TextChecks.ReservedNamesAre` | include/cloudevents/attributes.hpp:83-88 | the ten reserved names, spelled out |
| `TextChecks.ChecksExactly` | include/cloudevents/attributes.hpp:233-313 | each check gives the text back or the reason against it: empty, not UTF-8, no media type, not version 1.0 |
| `TextChecks.NamesExactly` | include/cloudevents/attributes.hpp:211-218 | a name is an extension's exactly when it is made of lower-case letters and digits and is not reserved |
| `TextChecks.SubtypeExactly` | include/cloudevents/attributes.hpp:80-81 | a media type is spaces, a token, a slash, a token, spaces, and nothing or a semicolon and anything |
| `TextChecks.JsonExactly` | include/cloudevents/attributes.hpp:221-228 | of every text: it is a JSON media type exactly when it is one whose subtype is json or ends in +json in whatever case |
| `Alphabets.TokenExactly` | include/cloudevents/attributes.hpp:80-81 | the characters of a token |
| `Alphabets.NameCharacterExactly` | include/cloudevents/attributes.hpp:78 | the characters of a name |
| `Alphabets.LowerExactly` | include/cloudevents/attributes.hpp:88-92 | case is that of the 26 ASCII letters |
| `JsonFormat.ReadEvent` | include/cloudevents/format/json_format.hpp:259-290 | the walk over the members computes the reading these laws are about |
| `JsonFormat.WriteEvent` | include/cloudevents/format/json_format.hpp:106-141 | setting one member after the other never replaces one, and gives the document these laws are about |
| `JsonFormat.WriteExtensions` | include/cloudevents/format/json_format.hpp:128-134 | the loop sets every extension, in the order of the names |
| `JsonFormat.WriteData` | include/cloudevents/format/json_format.hpp:532-567 | sets `data` or `data_base64` or nothing, or fails on text that is not JSON |
| `JsonLaws.FirstMemberIsRead` | include/cloudevents/format/json_format.hpp:325-336 | of the members of a reserved name the first is read, the one `find` gives |
| `JsonLaws.LastMemberIsRead` | include/cloudevents/format/json_format.hpp:437-452 | of the members of an extension's name the last that is not null is read |
| `JsonLaws.NullExtensionIsAbsent` | include/cloudevents/format/json_format.hpp:437-441 | a null member of an extension's name, valid or not, is as good as absent |
| `JsonLaws.ReadIsFound` | include/cloudevents/format/json_format.hpp:259-290 | the attributes of an accepted document are the members of their names, its time the member parsed; its version is 1.0, and it has not both forms of data |
| `JsonReads.AcceptedExactly` | include/cloudevents/format/json_format.hpp:259-619 | **Main result:** which documents are events, told from the members found by name: there must be no reason against the version, the required and optional texts, the time, the data or an extension; the first reason in this order is the error |
| `JsonReads.ReadByName` | include/cloudevents/format/json_format.hpp:351-435 | an attribute is the text of its member, and is unset where the member is missing or null |
| `JsonReads.ExtensionsByName` | include/cloudevents/format/json_format.hpp:437-527 | an extension is the last member of its name that is not null, with its type |
| `JsonReads.NullOptionalIsAbsent` | include/cloudevents/format/json_format.hpp:351-363 | an optional attribute that is null changes nothing, wherever the member stands |
| `JsonLaws.PayloadIsFound` | include/cloudevents/format/json_format.hpp:573-619 | the data of an accepted document is its decoded `data_base64` or its `data`, a text exactly under a media type that is not JSON |
| `JsonLaws.ExtensionsAreMembers` | include/cloudevents/format/json_format.hpp:437-527 | **Main result:** the extensions of an accepted document are exactly its other members that are not null, the last of a name winning, no number truncated and no text changed |
| `JsonLaws.ReadContextMembers` | include/cloudevents/format/json_format.hpp:402-432 | reading the context members that were written claims each for its own attribute |
| `JsonLaws.ReadExtensionMembers` | include/cloudevents/format/json_format.hpp:437-527 | reading the extension members that were written gives every extension in the form JSON keeps |
| `JsonLaws.DataReads` | include/cloudevents/format/json_format.hpp:573-619 | the data written is read back as octets, as text under a media type that is not JSON, or as a document |
| `JsonLaws.JsonRoundTrip` | include/cloudevents/format/json_format.hpp:106-290 | **Main result:** an event written and read is its normal form exactly when its time is one that a text can give |
| `JsonLaws.ReadIsValid` | include/cloudevents/format/json_format.hpp:259-290 | every accepted document gives a valid event whose extensions are booleans, integers and texts |
| `JsonLaws.ReadIsNormal` | include/cloudevents/format/json_format.hpp:259-290 | what was read is already normal and can be written, unless its time is one that cannot be rendered |
| `JsonLaws.WritableExactly` | include/cloudevents/format/json_format.hpp:106-290 | an accepted document can be written again exactly when the text of its time is written between the ends of the clock |
| `JsonLaws.ReadIsFixedPoint` | include/cloudevents/format/json_format.hpp:106-290 | **Main result:** every accepted document whose own time is on the clock is written again, and what was written is read as the event of the first reading |
| `JsonLaws.AcceptedButNotWritten` | include/cloudevents/format/json_format.hpp:386-400 | a document that is accepted and whose event cannot be written, because of its time |
| `DescribeJson.FieldReadsBack` | include/cloudevents/format/describe_json.hpp:36-176 | the JSON of a well-typed value reads back as the value, except that an optional around something written as null comes back empty |
| `DescribeJson.FieldRoundTrip` | include/cloudevents/format/describe_json.hpp:36-176 | a value reads back as itself exactly when no optional in it holds an empty optional |
| `DescribeJson.TypeRoundTrip` | include/cloudevents/format/describe_json.hpp:36-176 | **Main result:** every value of a type reads back exactly when the type has no optional directly inside another |
| `DescribeJson.ReadHasType` | include/cloudevents/format/describe_json.hpp:69-176 | whatever is read is well-typed and holds no empty optional in another |
| `DescribeJson.ReadIsFixedPoint` | include/cloudevents/format/describe_json.hpp:36-176 | whatever was read, of any type, reads back from its own JSON |
| `DescribeJson.IntegersAreNotTruncated` | include/cloudevents/format/describe_json.hpp:69-176 | **Main result:** of every type, what was read, written again, is the document, in a map the last member of each name, and where a double is read an integer as that double: at no depth is a number read as an integer truncated or a text changed |
| `DescribeJson.ReadAsExactly` | include/cloudevents/format/describe_json.hpp:36-176 | a document as the writer writes them is read as a value of any type exactly when that value would be written as it, integers taken as doubles where the type has them, and no optional holds an empty one |
| `DescribeJson.OutOfRangeIsRefused` | include/cloudevents/format/describe_json.hpp:69-176 | a number outside int32 where the type has an int32 is refused through any nesting of optionals, vectors and maps |
| `DescribeJson.StructRoundTrip` | include/cloudevents/format/describe_json.hpp:181-221 | **Main result:** a described value reads back exactly when each field says the same JSON as the last field of its name, up to integers it reads as doubles, and no optional in it holds an empty one |
| `DescribeJson.SaysTheSame` | include/cloudevents/format/describe_json.hpp:181-221 | of a field whose type has no double, that is the very same JSON |
| `DescribeJson.DistinctStructRoundTrip` | include/cloudevents/format/describe_json.hpp:181-221 | where no two fields share a name, a described value reads back exactly when no optional in a field holds an empty one |
| `DescribeJson.SharedNameIsLost` | include/cloudevents/detail/describe_reflection.hpp:46-58 | two fields renamed to one name: the first comes back as the second |
| `DescribeJson.WriteField` | include/cloudevents/format/describe_json.hpp:37-61 | the type recursion writes the JSON these laws are about |
| `DescribeJson.WriteVector` | include/cloudevents/format/describe_json.hpp:40-45 | the loop pushes the elements in order |
| `DescribeJson.WriteMap` | include/cloudevents/format/describe_json.hpp:46-51 | the loop sets the entries in the order of their keys, replacing none |
| `DescribeJson.ReadField` | include/cloudevents/format/describe_json.hpp:155-176 | the type recursion reads the value these laws are about |
| `DescribeJson.ReadVector` | include/cloudevents/format/describe_json.hpp:69-89 | the loop reads the elements and stops at the first that fails |
| `DescribeJson.ReadMap` | include/cloudevents/format/describe_json.hpp:92-112 | the loop reads the members, the last of a name staying, and stops at the first that fails |
| `DescribeJson.WriteStruct` | include/cloudevents/format/describe_json.hpp:181-191 | sets every field under its name, a later one of a name replacing an earlier one |
| `DescribeJson.ReadStruct` | include/cloudevents/format/describe_json.hpp:194-221 | reads every field that is there, leaves the others as they were and stops at the first that fails |
| `DescribeReads.AcceptedExactly` | include/cloudevents/format/describe_json.hpp:69-176 | of any JSON: which is read at a type, and which error any other gives |
| `DescribeReads.StructAcceptedExactly` | include/cloudevents/format/describe_json.hpp:194-221 | **Main result:** a document is read as a struct exactly when it is an object and the first member of the name of each field, if there is one, fits the field's type; the first field that does not decides the error |
| `DescribeReads.StructHolds` | include/cloudevents/format/describe_json.hpp:194-221 | a field that no member names keeps its initial value, and every other one is read from the first member of its name |
| `DescribeReads.AbsentFieldChangesNothing` | include/cloudevents/format/describe_json.hpp:207-213 | a field that no member names can be put anywhere into the struct without changing what is accepted, the error or the other fields |
| `Headers.PutIsUpdate` | include/cloudevents/message.hpp:30-61 | after a set the name has the new value and every other name the value it had |
| `Headers.PutHasNoRepeats` | include/cloudevents/message.hpp:30-42 | a set repeats no name that was not repeated |
| `Headers.RepeatsOfPermutation` | include/cloudevents/binding/common.hpp:82-92 | whether a name is repeated does not depend on the order |
| `Headers.LookupOfPermutation` | include/cloudevents/message.hpp:44-61 | without a repeated name the field found does not depend on the order |
| `Headers.RawHeaders.Add` | include/cloudevents/message.hpp:26-28 | appends, and changes nothing before |
| `Headers.RawHeaders.Set` | include/cloudevents/message.hpp:30-36 | takes every field of the name in any case away, keeps the others in order and appends the new one |
| `Headers.RawHeaders.SetExact` | include/cloudevents/message.hpp:38-42 | the same for the name in its exact case |
| `Headers.RawHeaders.FindBy` | include/cloudevents/message.hpp:44-61 | the value of the first field of the name |
| `Headers.RawHeaders.FirstRepeatedName` | include/cloudevents/binding/common.hpp:82-92 | finds a name exactly when one is repeated, and then that of the first field to repeat one |
| `Headers.RawHeaders.Adopt` | include/cloudevents/message.hpp:95-110 | takes a list over unchanged exactly when no name is repeated under the rule |
| `Bindings.WriteAttributesInto` | include/cloudevents/binding/common.hpp:194-243 | the fields are put one by one up to the first value that is refused, the media type last |
| `Bindings.ToMessage` | include/cloudevents/binding/http.hpp:133-150 | a fresh message with those fields and the octets of the data as body |
| `Bindings.ReadAttributesFrom` | include/cloudevents/binding/common.hpp:246-272 | refuses a repeated name, then applies the fields in order up to the first that is refused |
| `Bindings.AttributeFieldsOf` | include/cloudevents/binding/mqtt.hpp:144-180 | keeps the properties that are attributes, in order, and checks a copy of the media type |
| `Bindings.FromMessage` | include/cloudevents/binding/http.hpp:174-212 | the copying receiver gives the answer these laws are about, for every binding |
| `Bindings.ReadBodyMoving` | include/cloudevents/binding/common.hpp:384-391 | reads what the copying reader reads; the body is emptied exactly when it becomes the payload octet for octet |
| `Bindings.BuildTakingBody` | include/cloudevents/binding/common.hpp:361-373 | builds what the copying receiver builds and leaves the body in place whenever a step refuses |
| `Bindings.FromMessageMoving` | include/cloudevents/binding/http.hpp:224-256 | **Main result:** the moving receiver gives the answer of the copying one for every message; the body is emptied exactly when the call succeeds on a binary-mode message with a body that is not empty and not JSON |
| `BindingOrder.FieldsAreApart` | include/cloudevents/binding/common.hpp:121-168 | fields with different names under the rule change different parts of the event |
| `BindingOrder.AcceptedOneByOne` | include/cloudevents/binding/common.hpp:255-270 | whether a list is accepted depends on each field alone |
| `BindingOrder.OrderDoesNotMatter` | include/cloudevents/binding/common.hpp:246-272 | reading accepts every permutation of a list or none, and gives the same attributes |
| `BindingOrder.RepeatIsRefused` | include/cloudevents/binding/common.hpp:246-252 | a list with a name repeated under the case rule is refused |
| `BindingOrder.MqttFieldsOfPermutation` | include/cloudevents/binding/mqtt.hpp:144-180 | the MQTT filter keeps a permutation of the same fields, or refuses both lists |
| `BindingOrder.MessageOrderDoesNotMatter` | include/cloudevents/binding/common.hpp:246-272 | **Main result:** without a repeated name, the event received does not depend on the order of the fields, for every binding |
| `BindingReads.EveryFieldIsKept` | include/cloudevents/binding/common.hpp:255-270 | what any field of an accepted list says is in the event at the end |
| `BindingReads.FieldIsAttribute` | include/cloudevents/binding/common.hpp:121-168 | each attribute field of an accepted list is the attribute of its name, the version is 1.0, and a name that is neither an attribute nor an extension is refused |
| `BindingReads.StructuredIsReceived` | include/cloudevents/binding/common.hpp:393-404 | every binding hands the body of a structured message to the reader of structured bodies |
| `BindingReads.BatchIsRefused` | include/cloudevents/binding/nats.hpp:76-83 | a batch is refused as a single event, except by NATS, which takes it for a structured message |
| `BindingReads.NoVersionIsNoEvent` | include/cloudevents/binding/http.hpp:185-187 | a binary-mode message without a version field is no event |
| `BindingReads.TwoContentTypesAreRefused` | include/cloudevents/binding/mqtt.hpp:272-280 | MQTT refuses two content type properties, wherever they stand |
| `BindingReads.DocumentsAreKeptExactly` | include/cloudevents/binding/common.hpp:298-321 | which bodies are kept as documents and which are refused, exactly |
| `BindingReads.WrittenIsCarried` | include/cloudevents/binding/http.hpp:73-108 | a binding writes only values its transport can carry, and one that writes them as they are refuses no other |
| `BindingNames.ValueReadExactly` | include/cloudevents/binding/common.hpp:257-264 | what any value is read as: percent-decoded by HTTP and NATS, and checked by the others |
| `BindingNames.ValueWrittenExactly` | include/cloudevents/binding/common.hpp:194-215 | what any text is written as, and which texts are refused |
| `BindingNames.PrefixesAre` | include/cloudevents/binding/http.hpp:27 | the prefixes of the bindings |
| `BindingNames.ContentTypeIs` | include/cloudevents/binding/mqtt.hpp:33-51 | the content type's field, and which bindings heed case |
| `BindingNames.NamedExactly` | include/cloudevents/binding/common.hpp:63-103 | a field carries the prefix exactly when it is the prefix and some name, in any case where case is ignored, and that name is the attribute |
| `BindingNames.CaseDoesNotMatter` | include/cloudevents/binding/common.hpp:95-103 | **Main result:** HTTP and NATS receive a message alike however its field names are cased |
| `BindingNames.ReservedFieldExactly` | include/cloudevents/binding/common.hpp:119-168 | what the field of a reserved name does with its value, and why it is refused |
| `BindingNames.ExtensionFieldExactly` | include/cloudevents/binding/common.hpp:162-168 | the field of any other name stores an extension text, unless the name is none |
| `BindingNames.ForeignFieldExactly` | include/cloudevents/binding/common.hpp:255-258 | a field of no attribute's name does nothing |
| `BindingNames.AttributesAcceptedExactly` | include/cloudevents/binding/common.hpp:246-272 | a list is accepted exactly when no name comes twice and each field alone is accepted; which error it gives otherwise |
| `BindingNames.AttributesByName` | include/cloudevents/binding/common.hpp:246-272 | an attribute is what the field of its name was decoded to, and is unset without one |
| `BindingNames.ExtensionsByName` | include/cloudevents/binding/common.hpp:246-272 | the extensions are the fields of all other names |
| `BindingNames.ModeExactly` | include/cloudevents/binding/http.hpp:114-126 | how a message is read, by the start of its content type |
| `BindingNames.MediaTypesAre` | include/cloudevents/binding/mqtt.hpp:35-36 | the two starts are application/cloudevents and application/cloudevents-batch |
| `BindingNames.KindExactly` | include/cloudevents/binding/mqtt.hpp:127-138 | what a property of MQTT is by its name |
| `BindingNames.PropertiesExactly` | include/cloudevents/binding/mqtt.hpp:161-181 | the properties read are those of attributes, in order; one copy of the content type may stand beside it and must agree |
| `BindingNames.MessageAcceptedExactly` | include/cloudevents/binding/common.hpp:246-321 | **Main result:** which binary-mode messages are events, over every binding, what they say and in which order the errors come: version, copies of the content type, fields, media type, body, required attributes |
| `BindingLaws.ValueReturns` | include/cloudevents/binding/kafka.hpp:36-45 | a value written is read back exactly when it is UTF-8, and only NATS writes one that is not |
| `BindingLaws.NatsWritesWhatItRefuses` | include/cloudevents/binding/nats.hpp:63-69 | an octet that is no UTF-8 is written by NATS and refused by its reader |
| `BindingLaws.NameReturns` | include/cloudevents/binding/common.hpp:64-103 | the prefixed name of an attribute carries the prefix and gives the attribute back |
| `BindingLaws.NamesStayApart` | include/cloudevents/binding/common.hpp:72-80 | different attributes have different field names under the rule |
| `BindingLaws.ContentTypeStandsApart` | include/cloudevents/binding/common.hpp:239-240 | the content type field has the name of no attribute field |
| `BindingLaws.WrittenIs` | include/cloudevents/binding/common.hpp:194-243 | a successful writer leaves one field for each attribute, in order, and the media type |
| `BindingRoundTrip.FieldsReturn` | include/cloudevents/binding/common.hpp:255-270 | reading the fields written is applying the attributes, exactly when all texts are UTF-8 |
| `BindingRoundTrip.ApplyPairs` | include/cloudevents/binding/common.hpp:121-168 | applying all attributes gives every one its value, and each extension the text it was rendered as |
| `BindingRoundTrip.ModeOfWritten` | include/cloudevents/binding/http.hpp:114-126 | what is written in binary mode is detected as binary exactly when its media type does not start with application/cloudevents, which NATS need not ask |
| `BindingRoundTrip.BinaryRoundTrip` | include/cloudevents/binding/common.hpp:194-272 | **Main result:** over every binding, an event written and received is its normal form exactly when its time is one a text can give and its extensions are UTF-8 |
| `BindingRoundTrip.CheckedBindingsRoundTrip` | include/cloudevents/binding/common.hpp:194-272 | for HTTP, Kafka and MQTT the time alone decides |
| `BindingRoundTrip.ReceivedIsNormal` | include/cloudevents/binding/common.hpp:246-272 | every event received in binary mode is valid, and its extensions are well-formed texts |
| `BindingRoundTrip.ForwardedIsEqual` | include/cloudevents/binding/common.hpp:194-272 | **Main result:** an event received over one binding and written by another, attributes and its own body, is received there as an equal event exactly when its data survives there; under the same options, unless the data is a document that the codec does not read back from its own dump |
| `BindingRoundTrip.BodyIsForwarded` | include/cloudevents/binding/common.hpp:274-321 | the octets written for a body that was read are that body, unless it was kept as a document |
| `BindingRoundTrip.BodyReturns` | include/cloudevents/binding/common.hpp:274-321 | which data is read back from the body it is written as, exactly: octets not declared JSON, and JSON in the form the receiver keeps |
| `BindingRoundTrip.MessageRoundTrip` | include/cloudevents/binding/common.hpp:194-321 | **Main result:** a whole message: an event written with its own body is received as itself, extensions as texts, exactly when its time, its extensions and its data each survive |
| `BindingRoundTrip.ReadDataSurvives` | include/cloudevents/binding/common.hpp:274-321 | of the data a body is read as, only a document can fail to come back from the body it is written as: when its dump is empty, too long to be kept, or parses to another |
| `BindingRoundTrip.OwnMediaTypeIsNotBinary` | include/cloudevents/binding/http.hpp:114-126 | an event of one of CloudEvents' own media types is written in binary mode and read as a structured message, or refused as a batch |
| `BindingRoundTrip.WrittenBinaryReadStructured` | include/cloudevents/binding/http.hpp:114-150 | a valid event for which that happens, over every binding but NATS |
| `RenderedText.RenderedIsWellFormed` | include/cloudevents/binding/common.hpp:172-191 | only a text that was set ill-formed is rendered ill-formed |
| `Extensions.CloudEvent.SetData` | include/cloudevents/core.hpp:170-173 | replaces the data and the media type and nothing else, and keeps the event valid |
| `Extensions.CloudEvent.SetExtension` | include/cloudevents/core.hpp:178-180 | stores one extension and keeps the event valid |
| `Extensions.CloudEvent.RemoveExtension` | include/cloudevents/core.hpp:182-189 | removes one extension and says whether it was there |
| `Extensions.CloudEvent.Set` | include/cloudevents/core.hpp:234-263 | stores the present fields and removes the empty ones up to the first name that is refused, and keeps the event valid |
| `Extensions.CloudEvent.Get` | include/cloudevents/core.hpp:198-231 | reads every field, or gives the error of the first that cannot be read |
| `ExtensionLaws.StoredExactly` | include/cloudevents/core.hpp:234-263 | a struct is stored exactly when each present field has a name an extension may have |
| `ExtensionLaws.FieldsAreHeld` | include/cloudevents/core.hpp:234-263 | after a struct is stored the extensions hold of each name what the last field of the name says: its value, or nothing when it is empty |
| `ExtensionLaws.DistinctIsRecoverable` | include/cloudevents/core.hpp:197-263 | where no two fields share a name, a struct is got back exactly when each field, alone, is |
| `ExtensionLaws.IntegerReturns` | include/cloudevents/attributes.hpp:456-464 | every int32 is read back from its decimal text |
| `ExtensionLaws.IntegerReadExactly` | include/cloudevents/attributes.hpp:456-464 | a text is read as an int32 exactly when it is digits, after a minus or not, that say a number in range |
| `ExtensionLaws.BooleanReadExactly` | include/cloudevents/attributes.hpp:449-455 | a text is read as a boolean exactly when it is the text of that boolean |
| `ExtensionReads.ReadExactly` | include/cloudevents/attributes.hpp:484-500 | what any stored value is read as at a type: itself, or what its text says; anything else is a mismatch |
| `ExtensionReads.WrittenDenotes` | include/cloudevents/binding/common.hpp:172-192 | what binary mode writes says the value: booleans as true and false, integers without a digit too many, octets in Base64 |
| `ExtensionReads.StructReadExactly` | include/cloudevents/core.hpp:205-232 | of any extensions: a struct is read exactly when each field is, an absent optional field as it starts out; the first that is not decides the error |
| `ExtensionReads.StoringFailsExactly` | include/cloudevents/core.hpp:240-263 | storing fails on the first present field whose name is none, with what is wrong with it |
| `ExtensionLaws.TextReturns` | include/cloudevents/attributes.hpp:437-497 | a value is read back with its type from its text exactly when it is no time, or one a text can give |
| `ExtensionLaws.SurvivesBinary` | include/cloudevents/core.hpp:197-263 | **Main result:** a struct set on an event, sent over any binding in binary mode and received, is got back exactly when its times are ones a text can give, its empty fields start out empty, and a field whose name a later one takes reads its value from the text of that one |
| `ExtensionLaws.SurvivesJson` | include/cloudevents/core.hpp:197-263 | **Main result:** the same through the JSON format, from what JSON keeps of the later field |

## Left out

- HeapLedger.EveryRunCounts: the live counter is a wrapping 64-bit number here, where a signed overflow has no defined result in C++; the equality is stated where the total fits.
- HeapLedger.HeaderRecovered: memory is the header words of live blocks; a program that writes over a header is not modelled.
- BlockSizes.BlockSizes.Insert: an abort is the result `aborted`, and whether the real calloc gives memory is a parameter.
- HeapReference.EveryRunAgrees: the addresses the real allocator returns are parameters, promised to be apart from live blocks; the alignment of a raw block is not used.
- BindingRoundTrip.MessageRoundTrip: the reader of structured bodies is a parameter, so nothing is said of what a structured body decodes to here; the JSON and Protobuf modules say it of values and octets.
- ProtobufRoundTrip.DecodeOfEncode: for encodings shorter than 2^64 octets, the longest a size_t can count; and for a time made by hand before -9223372036 s the writer's floor leaves int64 (`FloorFitsExactly`), where the claim that decoding refuses it is the model's.
- Slicing the `data` member out of the JSON text, and the text a codec dumps: a document read from text is modelled as one read from its parsed value.
- JSON libraries: a codec is a parser, a printer and an int64-to-double cast, all parameters; doubles are carried as bit patterns and compared, so a NaN equals itself.
- Batches of JSON events, the structured mode of Protobuf messages over the bindings, Kafka keys: loops and wrappers over what is modelled.
- Regular expressions are predicates over the same grammars; a dot in them is taken to match any octet.
- The civil calendar of the C++ library is stated by its own definition (leap years, month lengths, day numbers) and proved consistent.
- Shifts and masks are written as divisions and remainders; `MasksAreDivisions` ties the UTF-8 ones to bit vectors.
- The storage behind validated strings, moved-from values and capacities: a moved body is one that is empty.
- Shared ownership of JSON documents and their equality across codecs: a document is its value.
- The frozen generations v1 to v3 and their conversions, which repeat the same logic.
- Compile-time literals, the describe macros and reflection, linting, and the `where` field and text of errors.
- Scripts, benchmarks' drivers, fuzz harnesses, interop generators and examples other than the DOM.
