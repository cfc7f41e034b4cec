# A verification model of binlogdump

binlogdump reads change events of a MySQL server from a Kafka topic, decodes them and prints them
with statistics. This project models, in Dafny 4, the code that decides what comes out of it, and
proves what that code is for. `dafny verify dfyconfig.toml` checks everything.

## What is modelled

**The codec of the binlog messages** (`RowChange -> RowData -> Column -> Pair` and
`Entry -> Header -> Pair`). Every message has a module with three layers:

* a *value* with its meaning: which record a field becomes (`Records`), what one record does to a
  message (`Step`), the parse as the fold of `Step` over the records of the input, `Size`, `Merge`,
  and `Valid`, the messages a parser can produce;
* the *laws*, for all messages and all byte strings: parser and serialiser undo each other,
  concatenating serialisations is merging messages, unknown records survive in order, the size is
  the length, the parser accepts exactly the inputs its grammar describes;
* a *class* with the fields of the generated C++ class, its cached size included, and its methods
  as loops and updates in place. Each method is proved against the value layer: the parse loop
  against `ParseFrom`, the serialisers against `Encode`, `ByteSizeLong` against `Size` and the
  cached sizes of the whole tree, `MergeFrom` against `Merge`.

The wire primitives the generated code calls are in `Wire` (varints, tags, payloads, records, as in
the Protocol Buffers Encoding specification; UTF-8 as in section 4 of RFC 3629, tied to the
definition of UTF-8 by `Utf8`). What all parsers share is proved once, for any update function, in
`Codec`; what a single field contributes is in `Fields`; the streams are in `CodedStream`.

`WireBytes` and `MessageBytes` say the same of bytes alone, with the numbers of the format and of the
schema written out: a varint by its continuation bits and the sum of its groups, a record by its tag
and payload, an input by the ways it can be cut into records, a message by the bytes of its fields.
What is written and what is read is proved to be exactly that.

**Two messages of the admin protocol** whose shapes the binlog messages do not have: `MsgVal`, a
oneof of four members kept as a case tag and a union, and `PairIntDbl`, with a double that is
dropped when it is -0.0.

**The reader of the topic.** `KafkaReader` is a state machine over partition positions and a
snapshot of high watermarks. The Kafka client is an environment: a log per partition, a next
offset in each, and scripts of what its calls return. A script may end anywhere, so the theorems
hold of every finite beginning of every execution. `BinlogKafka` has the reader as an object whose
methods are proved to be that state machine. `Executions` says what executions do in terms of the
logs, the scripts and the options alone.

**The program**: `BinlogDump` has the main loop, `PrintSql` with its two-layer decoding and its
statistics; `StrSplit` splits the table option that becomes the reader's filter.

## Where the code does less than one might expect

* Concatenating bytes and merging messages agree on serialiser output, but not on all bytes: a record
  that spells out a default overwrites on parsing and is ignored by a merge. `FoldsLikeMerged` of
  each message has the exact condition, on the message and the last records of its fields; for
  `Entry` it reaches into the headers. `RowData` and `MsgVal` have no such field, and the law holds
  of all bytes. `PairMessage.AnEmptyKeyErases` has an example of two bytes.
* Invalid UTF-8 stops the parser and not the serialiser (`PairMessage.InvalidUtf8IsWritten`); the
  round trips hold exactly for valid messages.
* A double of -0.0 is lost by serialising and by `CopyFrom`, and kept by the parser and by the copy
  constructor (`PairIntDblMessage`).
* A read may time out although messages are waiting: in a partition nothing was fetched from yet
  (`KafkaReader.UntouchedPartitionIsSkipped`), or after a failed watermark query, because the
  snapshot is not taken again (`KafkaReader.FailedQueryEndsEarly`). The exact condition for both is
  `KafkaReader.DrainedExactlyIf`.
* A message without a key ends the program with an error, and a commit is made all the same, so that
  it is skipped for good (`KafkaReader.KeylessIsSkipped`); `KafkaReader.SkipsExactlyIf` has the
  exact condition for an execution, `KafkaReader.NeverSkipsExactlyIf` that for all of them.
* `PrintSql` ignores whether parsing succeeded. For input that does not parse only the bounds on
  the counters are claimed.

## Conventions

* Groups (wire types 3 and 4), wire types 6 and 7, field number 0, and lengths over the window or
  over an int are malformed. A tag is a 32-bit varint. An explicit zero tag ends the loop but is
  not a legitimate end, so that a parse that meets one fails.
* Preserving unknown fields in proto3 is taken as switched on.
* Enums are open: any int32 is kept. Integers are bounded types; sign extension, truncation to 32
  bits, the cached size as an int and the 64-bit counters are written out.
* The library does not serialise a message over 2^31 - 1 bytes; `Serialize` is `None` there.
* The state of a message after a failed parse depends on the library and is not specified.
* A position is -1001 until something was consumed from the partition, and that is also what an
  assignment gives. The two assignment calls of one fill see the same partitions.
* The interrupt is a number of calls after which it is seen; a commit stores the next offsets
  unless commitSync returns an error code.

## Model

| member | source | states |
|---|---|---|
| MessageBytes.RowChangeIsWritten | binlogdump/BinlogEntry.pb.cc:3092-3159 | The bytes of a message: its fields in ascending order (tags 8, 16, 80, 90, 98, 106, 114), numbers in two's complement of 64 bits, flags as 0 or 1, lengths before what they count, then the unknown records; it is serialised if and only if these are fewer than 2^31 bytes. |
| MessageBytes.RowChangeIsRead | binlogdump/BinlogEntry.pb.cc:2895-3023 | What a record in front of any input does to the message it is parsed into, case by case of the field numbers and wire types as numbers; every record of another number or wire type is kept as unknown. |
| MessageBytes.RowDataIsWritten | binlogdump/BinlogEntry.pb.cc:2602-2639 | The bytes of a message: its fields in ascending order (tags 10, 18, 26), numbers in two's complement of 64 bits, flags as 0 or 1, lengths before what they count, then the unknown records; it is serialised if and only if these are fewer than 2^31 bytes. |
| MessageBytes.RowDataIsRead | binlogdump/BinlogEntry.pb.cc:2496-2560 | What a record in front of any input does to the message it is parsed into, case by case of the field numbers and wire types as numbers; every record of another number or wire type is kept as unknown. |
| MessageBytes.ColumnIsWritten | binlogdump/BinlogEntry.pb.cc:2151-2235 | The bytes of a message: its fields in ascending order (tags 8, 16, 26, 32, 40, 48, 58, 66, 72, 82), numbers in two's complement of 64 bits, flags as 0 or 1, lengths before what they count, then the unknown records; it is serialised if and only if these are fewer than 2^31 bytes. |
| MessageBytes.ColumnIsRead | binlogdump/BinlogEntry.pb.cc:1894-2067 | What a record in front of any input does to the message it is parsed into, case by case of the field numbers and wire types as numbers; every record of another number or wire type is kept as unknown. |
| MessageBytes.PairIsWritten | binlogdump/BinlogEntry.pb.cc:4198-4233 | The bytes of a message: its fields in ascending order (tags 10 and 18), numbers in two's complement of 64 bits, flags as 0 or 1, lengths before what they count, then the unknown records; it is serialised if and only if these are fewer than 2^31 bytes. |
| MessageBytes.PairIsRead | binlogdump/BinlogEntry.pb.cc:4103-4163 | What a record in front of any input does to the message it is parsed into, case by case of the field numbers and wire types as numbers; every record of another number or wire type is kept as unknown. |
| MessageBytes.EntryIsWritten | binlogdump/BinlogEntry.pb.cc:702-735 | The bytes of a message: its fields in ascending order (tags 10, 16, 26), numbers in two's complement of 64 bits, flags as 0 or 1, lengths before what they count, then the unknown records; it is serialised if and only if these are fewer than 2^31 bytes. |
| MessageBytes.EntryIsRead | binlogdump/BinlogEntry.pb.cc:602-669 | What a record in front of any input does to the message it is parsed into, case by case of the field numbers and wire types as numbers; every record of another number or wire type is kept as unknown. |
| MessageBytes.HeaderIsWritten | binlogdump/BinlogEntry.pb.cc:1391-1504 | The bytes of a message: its fields in ascending order (tags 8, 18, 24, 32, 42, 48, 56, 66, 74, 80, 88, 98, 106), numbers in two's complement of 64 bits, flags as 0 or 1, lengths before what they count, then the unknown records; it is serialised if and only if these are fewer than 2^31 bytes. |
| MessageBytes.HeaderIsRead | binlogdump/BinlogEntry.pb.cc:1059-1280 | What a record in front of any input does to the message it is parsed into, case by case of the field numbers and wire types as numbers; every record of another number or wire type is kept as unknown. |
| MessageBytes.MsgValIsWritten | qdcadm/AdminMsg.pb.cc:1112-1151 | The bytes of a message: its fields in ascending order (tags 8, 16, 25, 34; the member that is set, even if it is 0 or empty), numbers in two's complement of 64 bits, flags as 0 or 1, lengths before what they count, then the unknown records; it is serialised if and only if these are fewer than 2^31 bytes. |
| MessageBytes.MsgValIsRead | qdcadm/AdminMsg.pb.cc:983-1072 | What a record in front of any input does to the message it is parsed into, case by case of the field numbers and wire types as numbers; every record of another number or wire type is kept as unknown. |
| MessageBytes.PairIntDblIsWritten | qdcadm/AdminMsg.pb.cc:1704-1727 | The bytes of a message: its fields in ascending order (tags 8 and 17; nothing for a double that is +0.0 or -0.0), numbers in two's complement of 64 bits, flags as 0 or 1, lengths before what they count, then the unknown records; it is serialised if and only if these are fewer than 2^31 bytes. |
| MessageBytes.PairIntDblIsRead | qdcadm/AdminMsg.pb.cc:1623-1679 | What a record in front of any input does to the message it is parsed into, case by case of the field numbers and wire types as numbers; every record of another number or wire type is kept as unknown. |
| WireBytes.VarintExactlyIf | binlogdump/BinlogEntry.pb.cc:3092-3159 | Base 128 Varints: what is written for v is the one byte string whose bytes but the last are at least 128, whose last is below 128 and not a superfluous 0, and whose groups sum to v. |
| WireBytes.ReadVarintExactlyIf | binlogdump/BinlogEntry.pb.cc:2895-3023 | What is read is the sum of the groups up to the first byte below 128; it fails exactly if none of the bytes it may look at is below 128. |
| WireBytes.NumbersAreCongruent | binlogdump/BinlogEntry.pb.cc:2895-3023 | Signed numbers are congruent to their varints modulo 2^64, and 32-bit ones to the low half modulo 2^32. |
| WireBytes.ReadsExactlyIf | binlogdump/BinlogEntry.pb.cc:2895-3023 | The record at the start of an input is r, in n bytes, if and only if these bytes are a tag varint of its number and wire type (0, 1, 2 or 5) and a payload of that type. |
| WireBytes.SplitsExactlyIf | binlogdump/BinlogEntry.pb.cc:2895-3023 | An input splits into given records if and only if it can be cut into them one after another; there is no other way to cut it. |
| WireBytes.RecordIsWritten | binlogdump/BinlogEntry.pb.cc:3092-3159 | The bytes of a record: its tag, eight times the number plus 0, 1, 2 or 5, and its payload, both as short as they can be. |
| WireBytes.LengthsThatDecode | binlogdump/BinlogEntry.pb.cc:640-644 | A string of fewer than 2^31 bytes under any field number from 1 to 2^29 - 1 decodes to itself. |
| WireBytes.LengthsThatDoNot | binlogdump/BinlogEntry.pb.cc:640-644 | A declared length of 2^31 or more, or of more bytes than follow, makes the input malformed, whatever follows. |
| MessageBytes.NoRecordParsed | binlogdump/BinlogEntry.pb.cc:2895-3023 | An input in front of which no record stands parses if and only if it is empty. |
| RowChangeMessage.ParsesExactlyIf | binlogdump/BinlogEntry.pb.cc:2895-3023 | Parsing succeeds exactly if the input splits into well-formed records whose sql and ddlSchemaName are UTF-8 and the rowDatas and props parse. |
| RowChangeMessage.ParseIsValid | binlogdump/BinlogEntry.pb.cc:2895-3023 | What a parse adds keeps the message valid, and the unknown or wrong-wire-type records of the input are appended in order, no others. |
| RowChangeMessage.SizeIsLength | binlogdump/BinlogEntry.pb.cc:3161-3237 | The size, summed in an order that is not the order of emission, is the length of the serialisation. |
| RowChangeMessage.ParseEncoded | binlogdump/BinlogEntry.pb.cc:2895-3159 | Parsing the serialisation of y into x gives x with y merged into it. |
| RowChangeMessage.RoundTrip | binlogdump/BinlogEntry.pb.cc:2895-3159 | A serialised message parses back to exactly itself if and only if it is valid: UTF-8 strings, valid sub-messages, unknown records that are well formed and not of a known tag. Presence with value 0 or false survives. |
| RowChangeMessage.MergeLaw | binlogdump/BinlogEntry.pb.cc:2895-3292 | Parsing two serialisations in a row gives the in-memory merge: repeated fields appended, oneofs last-wins, implicit defaults not overwriting. |
| RowChangeMessage.MergeLaws | binlogdump/BinlogEntry.pb.cc:3254-3292 | Merging is associative with the empty message as two-sided identity. |
| RowChangeMessage.ForwardCompatible | binlogdump/BinlogEntry.pb.cc:2895-3159 | Whatever parses re-serialises to bytes that parse to the same message (hence serialise alike), whose records are those of the fields followed by the unrecognised ones, in order. |
| RowChangeMessage.LastOneWins | binlogdump/BinlogEntry.pb.cc:2895-3023 | Last One Wins, for any records and any message they are folded into: every singular field is that of its last record, or as before if there is none, and each list is extended by the parses of the sub-messages of its records, one for one; unrecognised records are appended. |
| RowChangeMessage.FoldsLikeMerged | binlogdump/BinlogEntry.pb.cc:2895-3292 | Folding records into x is merging what they fold to, if and only if x keeps the defaults they spell out: every implicit-presence field whose last record holds the default is at its default in x. |
| RowChangeMessage.MergesLikeParsed | binlogdump/BinlogEntry.pb.cc:2895-3292 | The same for the parse of any bytes into any x. |
| RowChangeMessage.ConcatMerges | binlogdump/BinlogEntry.pb.cc:2895-3292 | For any two byte strings that parse, the parse of the concatenation is the merge of the parses if and only if the first keeps the defaults the second spells out. |
| RowChangeMessage.RowChange.MergePartialFromCodedStream | binlogdump/BinlogEntry.pb.cc:2895-3023 | The parse loop computes the fold of one-record updates over the records of the window, terminates because every turn takes bytes, and ends legitimately only at the end of the window. |
| RowChangeMessage.RowChange.MergeRecord | binlogdump/BinlogEntry.pb.cc:2895-3023 | The switch on a tag: which records go to which field, and that all others, wrong wire types included, are kept as unknown. |
| RowChangeMessage.RowChange.ByteSizeLong | binlogdump/BinlogEntry.pb.cc:3161-3237 | Returns the length of the serialisation, leaves the value as it is and every cached size in the tree right. |
| RowChangeMessage.RowChange.InternalSerializeWithCachedSizesToArray | binlogdump/BinlogEntry.pb.cc:3092-3159 | Given right cached sizes, advances the target by exactly the size and writes exactly the serialisation. |
| RowChangeMessage.RowChange.SerializeWithCachedSizes | binlogdump/BinlogEntry.pb.cc:3025-3090 | Writes the same bytes to a stream, whether or not its buffer has room for a nested message. |
| RowChangeMessage.RowChange.Clear | binlogdump/BinlogEntry.pb.cc:2879-2893 | The message becomes the empty one. |
| RowChangeMessage.RowChange.MergeFrom | binlogdump/BinlogEntry.pb.cc:3254-3292 | The new value is the merge of the two old ones. |
| RowChangeMessage.RowChange.Copy | binlogdump/BinlogEntry.pb.cc:2774-2810 | The copy constructor gives an equal message. |
| RowChangeMessage.RowChange.CopyFrom | binlogdump/BinlogEntry.pb.cc:3301-3306 | Clearing and merging gives a message equal to the source, as the copy constructor does; copying from itself changes nothing. |
| RowChangeMessage.RowChange.ParseFromString | binlogdump/BinlogEntry.pb.cc:2895-3023 | Parsing a string clears the message first and succeeds only if all of the input is used. |
| RowChangeMessage.RowChange.SerializeToString | binlogdump/BinlogEntry.pb.cc:3092-3237 | Sizing and then writing gives the serialisation, unless it is over the limit of an int. |
| RowDataMessage.ParsesExactlyIf | binlogdump/BinlogEntry.pb.cc:2496-2560 | Parsing succeeds exactly if the input splits into well-formed records whose columns and props parse. |
| RowDataMessage.ParseIsValid | binlogdump/BinlogEntry.pb.cc:2496-2560 | What a parse adds keeps the message valid, and the unknown or wrong-wire-type records of the input are appended in order, no others. |
| RowDataMessage.SizeIsLength | binlogdump/BinlogEntry.pb.cc:2641-2686 | The size, summed in an order that is not the order of emission, is the length of the serialisation. |
| RowDataMessage.ParseEncoded | binlogdump/BinlogEntry.pb.cc:2496-2639 | Parsing the serialisation of y into x gives x with y merged into it. |
| RowDataMessage.RoundTrip | binlogdump/BinlogEntry.pb.cc:2496-2639 | A serialised message parses back to exactly itself if and only if it is valid: UTF-8 strings, valid sub-messages, unknown records that are well formed and not of a known tag.  |
| RowDataMessage.MergeLaw | binlogdump/BinlogEntry.pb.cc:2496-2713 | Parsing two serialisations in a row gives the in-memory merge: all three lists appended. |
| RowDataMessage.MergeLaws | binlogdump/BinlogEntry.pb.cc:2703-2713 | Merging is associative with the empty message as two-sided identity. |
| RowDataMessage.ForwardCompatible | binlogdump/BinlogEntry.pb.cc:2496-2639 | Whatever parses re-serialises to bytes that parse to the same message (hence serialise alike), whose records are those of the fields followed by the unrecognised ones, in order. |
| RowDataMessage.LastOneWins | binlogdump/BinlogEntry.pb.cc:2496-2560 | Last One Wins, for any records and any message they are folded into: each of the three lists is extended by the parses of the sub-messages of its records, one for one; unrecognised records are appended. |
| RowDataMessage.MergesLikeParsed | binlogdump/BinlogEntry.pb.cc:2496-2713 | Parsing any bytes into any message is merging their parse. |
| RowDataMessage.ConcatMerges | binlogdump/BinlogEntry.pb.cc:2496-2713 | For any two byte strings that parse, the parse of the concatenation is the merge of the parses. |
| RowDataMessage.RowData.MergePartialFromCodedStream | binlogdump/BinlogEntry.pb.cc:2496-2560 | The parse loop computes the fold of one-record updates over the records of the window, terminates because every turn takes bytes, and ends legitimately only at the end of the window. |
| RowDataMessage.RowData.MergeRecord | binlogdump/BinlogEntry.pb.cc:2496-2560 | The switch on a tag: which records go to which field, and that all others, wrong wire types included, are kept as unknown. |
| RowDataMessage.RowData.ByteSizeLong | binlogdump/BinlogEntry.pb.cc:2641-2686 | Returns the length of the serialisation, leaves the value as it is and every cached size in the tree right. |
| RowDataMessage.RowData.InternalSerializeWithCachedSizesToArray | binlogdump/BinlogEntry.pb.cc:2602-2639 | Given right cached sizes, advances the target by exactly the size and writes exactly the serialisation. |
| RowDataMessage.RowData.SerializeWithCachedSizes | binlogdump/BinlogEntry.pb.cc:2562-2600 | Writes the same bytes to a stream, whether or not its buffer has room for a nested message. |
| RowDataMessage.RowData.Clear | binlogdump/BinlogEntry.pb.cc:2484-2494 | The message becomes the empty one. |
| RowDataMessage.RowData.MergeFrom | binlogdump/BinlogEntry.pb.cc:2703-2713 | The new value is the merge of the two old ones. |
| RowDataMessage.RowData.Copy | binlogdump/BinlogEntry.pb.cc:2449-2457 | The copy constructor gives an equal message. |
| RowDataMessage.RowData.CopyFrom | binlogdump/BinlogEntry.pb.cc:2722-2727 | Clearing and merging gives a message equal to the source, as the copy constructor does; copying from itself changes nothing. |
| RowDataMessage.ByteSizeOfAll | binlogdump/BinlogEntry.pb.cc:3161-3237 | The size loop over a repeated RowData: the sum, and the cached size of every element right. |
| RowDataMessage.WriteOneToArray | binlogdump/BinlogEntry.pb.cc:3092-3159 | An element is written as one length-delimited record whose prefix, taken from the cached size, is the number of bytes that follow. |
| RowDataMessage.WriteOne | binlogdump/BinlogEntry.pb.cc:3025-3090 | The same on a stream, through its buffer or piecewise. |
| RowDataMessage.MergeAll | binlogdump/BinlogEntry.pb.cc:3254-3292 | Merging a repeated field appends copies of the elements, in order. |
| RowDataMessage.RowData.ReadMessage | binlogdump/BinlogEntry.pb.cc:2496-2560 | A nested message is parsed in the window its length prefix gives, and fails unless it uses all of it. |
| ColumnMessage.ParsesExactlyIf | binlogdump/BinlogEntry.pb.cc:1894-2067 | Parsing succeeds exactly if the input splits into well-formed records whose strings are UTF-8 and props parse. |
| ColumnMessage.ParseIsValid | binlogdump/BinlogEntry.pb.cc:1894-2067 | What a parse adds keeps the message valid, and the unknown or wrong-wire-type records of the input are appended in order, no others. |
| ColumnMessage.SizeIsLength | binlogdump/BinlogEntry.pb.cc:2237-2322 | The size, summed in an order that is not the order of emission, is the length of the serialisation. |
| ColumnMessage.ParseEncoded | binlogdump/BinlogEntry.pb.cc:1894-2235 | Parsing the serialisation of y into x gives x with y merged into it. |
| ColumnMessage.RoundTrip | binlogdump/BinlogEntry.pb.cc:1894-2235 | A serialised message parses back to exactly itself if and only if it is valid: UTF-8 strings, valid sub-messages, unknown records that are well formed and not of a known tag. Presence with value 0 or false survives. |
| ColumnMessage.MergeLaw | binlogdump/BinlogEntry.pb.cc:1894-2383 | Parsing two serialisations in a row gives the in-memory merge: props appended, isNull last-wins, implicit defaults not overwriting. |
| ColumnMessage.MergeLaws | binlogdump/BinlogEntry.pb.cc:2339-2383 | Merging is associative with the empty message as two-sided identity. |
| ColumnMessage.ForwardCompatible | binlogdump/BinlogEntry.pb.cc:1894-2235 | Whatever parses re-serialises to bytes that parse to the same message (hence serialise alike), whose records are those of the fields followed by the unrecognised ones, in order. |
| ColumnMessage.LastOneWins | binlogdump/BinlogEntry.pb.cc:1894-2067 | Last One Wins, for any records and any message they are folded into: every singular field is that of its last record, or as before if there is none, and each list is extended by the parses of the sub-messages of its records, one for one; unrecognised records are appended. |
| ColumnMessage.FoldsLikeMerged | binlogdump/BinlogEntry.pb.cc:1894-2383 | Folding records into x is merging what they fold to, if and only if x keeps the defaults they spell out: every implicit-presence field whose last record holds the default is at its default in x. |
| ColumnMessage.MergesLikeParsed | binlogdump/BinlogEntry.pb.cc:1894-2383 | The same for the parse of any bytes into any x. |
| ColumnMessage.ConcatMerges | binlogdump/BinlogEntry.pb.cc:1894-2383 | For any two byte strings that parse, the parse of the concatenation is the merge of the parses if and only if the first keeps the defaults the second spells out. |
| ColumnMessage.Column.MergePartialFromCodedStream | binlogdump/BinlogEntry.pb.cc:1894-2067 | The parse loop computes the fold of one-record updates over the records of the window, terminates because every turn takes bytes, and ends legitimately only at the end of the window. |
| ColumnMessage.Column.MergeRecord | binlogdump/BinlogEntry.pb.cc:1894-2067 | The switch on a tag: which records go to which field, and that all others, wrong wire types included, are kept as unknown. |
| ColumnMessage.Column.ByteSizeLong | binlogdump/BinlogEntry.pb.cc:2237-2322 | Returns the length of the serialisation, leaves the value as it is and every cached size in the tree right. |
| ColumnMessage.Column.InternalSerializeWithCachedSizesToArray | binlogdump/BinlogEntry.pb.cc:2151-2235 | Given right cached sizes, advances the target by exactly the size and writes exactly the serialisation. |
| ColumnMessage.Column.SerializeWithCachedSizes | binlogdump/BinlogEntry.pb.cc:2069-2149 | Writes the same bytes to a stream, whether or not its buffer has room for a nested message. |
| ColumnMessage.Column.Clear | binlogdump/BinlogEntry.pb.cc:1877-1892 | The message becomes the empty one. |
| ColumnMessage.Column.MergeFrom | binlogdump/BinlogEntry.pb.cc:2339-2383 | The new value is the merge of the two old ones. |
| ColumnMessage.Column.Copy | binlogdump/BinlogEntry.pb.cc:1791-1822 | The copy constructor gives an equal message. |
| ColumnMessage.Column.CopyFrom | binlogdump/BinlogEntry.pb.cc:2392-2397 | Clearing and merging gives a message equal to the source, as the copy constructor does; copying from itself changes nothing. |
| ColumnMessage.ByteSizeOfAll | binlogdump/BinlogEntry.pb.cc:2641-2686 | The size loop over a repeated Column: the sum, and the cached size of every element right. |
| ColumnMessage.WriteOneToArray | binlogdump/BinlogEntry.pb.cc:2602-2639 | An element is written as one length-delimited record whose prefix, taken from the cached size, is the number of bytes that follow. |
| ColumnMessage.WriteOne | binlogdump/BinlogEntry.pb.cc:2562-2600 | The same on a stream, through its buffer or piecewise. |
| ColumnMessage.MergeAll | binlogdump/BinlogEntry.pb.cc:2703-2713 | Merging a repeated field appends copies of the elements, in order. |
| ColumnMessage.Column.ReadMessage | binlogdump/BinlogEntry.pb.cc:1894-2067 | A nested message is parsed in the window its length prefix gives, and fails unless it uses all of it. |
| PairMessage.ParsesExactlyIf | binlogdump/BinlogEntry.pb.cc:4103-4163 | Parsing succeeds exactly if the input splits into well-formed records whose key and value are UTF-8. |
| PairMessage.ParseIsValid | binlogdump/BinlogEntry.pb.cc:4103-4163 | What a parse adds keeps the message valid, and the unknown or wrong-wire-type records of the input are appended in order, no others. |
| PairMessage.SizeIsLength | binlogdump/BinlogEntry.pb.cc:4235-4261 | The size, summed in an order that is not the order of emission, is the length of the serialisation. |
| PairMessage.ParseEncoded | binlogdump/BinlogEntry.pb.cc:4103-4233 | Parsing the serialisation of y into x gives x with y merged into it. |
| PairMessage.RoundTrip | binlogdump/BinlogEntry.pb.cc:4103-4233 | A serialised message parses back to exactly itself if and only if it is valid: UTF-8 strings, valid sub-messages, unknown records that are well formed and not of a known tag.  |
| PairMessage.MergeLaw | binlogdump/BinlogEntry.pb.cc:4103-4293 | Parsing two serialisations in a row gives the in-memory merge: an empty string does not overwrite. |
| PairMessage.MergeLaws | binlogdump/BinlogEntry.pb.cc:4278-4293 | Merging is associative with the empty message as two-sided identity. |
| PairMessage.ForwardCompatible | binlogdump/BinlogEntry.pb.cc:4103-4233 | Whatever parses re-serialises to bytes that parse to the same message (hence serialise alike), whose records are those of the fields followed by the unrecognised ones, in order. |
| PairMessage.LastOneWins | binlogdump/BinlogEntry.pb.cc:4103-4163 | Last One Wins, for any records and any message they are folded into: key and value are those of their last records, or as before; unrecognised records are appended. |
| PairMessage.FoldsLikeMerged | binlogdump/BinlogEntry.pb.cc:4103-4293 | Folding records into x is merging what they fold to, if and only if x keeps the defaults they spell out: key and value are empty in x where the last one is. |
| PairMessage.MergesLikeParsed | binlogdump/BinlogEntry.pb.cc:4103-4293 | The same for the parse of any bytes into any x. |
| PairMessage.ConcatMerges | binlogdump/BinlogEntry.pb.cc:4103-4293 | For any two byte strings that parse, the parse of the concatenation is the merge of the parses if and only if the first keeps the defaults the second spells out. |
| PairMessage.Pair.MergePartialFromCodedStream | binlogdump/BinlogEntry.pb.cc:4103-4163 | The parse loop computes the fold of one-record updates over the records of the window, terminates because every turn takes bytes, and ends legitimately only at the end of the window. |
| PairMessage.Pair.MergeRecord | binlogdump/BinlogEntry.pb.cc:4103-4163 | The switch on a tag: which records go to which field, and that all others, wrong wire types included, are kept as unknown. |
| PairMessage.Pair.ByteSizeLong | binlogdump/BinlogEntry.pb.cc:4235-4261 | Returns the length of the serialisation, leaves the value as it is and every cached size in the tree right. |
| PairMessage.Pair.InternalSerializeWithCachedSizesToArray | binlogdump/BinlogEntry.pb.cc:4198-4233 | Given right cached sizes, advances the target by exactly the size and writes exactly the serialisation. |
| PairMessage.Pair.SerializeWithCachedSizes | binlogdump/BinlogEntry.pb.cc:4165-4196 | Writes the same bytes to a stream, whether or not its buffer has room for a nested message. |
| PairMessage.Pair.Clear | binlogdump/BinlogEntry.pb.cc:4092-4101 | The message becomes the empty one. |
| PairMessage.Pair.MergeFrom | binlogdump/BinlogEntry.pb.cc:4278-4293 | The new value is the merge of the two old ones. |
| PairMessage.Pair.Copy | binlogdump/BinlogEntry.pb.cc:4048-4061 | The copy constructor gives an equal message. |
| PairMessage.Pair.CopyFrom | binlogdump/BinlogEntry.pb.cc:4302-4307 | Clearing and merging gives a message equal to the source, as the copy constructor does; copying from itself changes nothing. |
| PairMessage.ByteSizeOfAll | binlogdump/BinlogEntry.pb.cc:2237-2322 | The size loop over a repeated Pair: the sum, and the cached size of every element right. |
| PairMessage.WriteOneToArray | binlogdump/BinlogEntry.pb.cc:2151-2235 | An element is written as one length-delimited record whose prefix, taken from the cached size, is the number of bytes that follow. |
| PairMessage.WriteOne | binlogdump/BinlogEntry.pb.cc:2069-2149 | The same on a stream, through its buffer or piecewise. |
| PairMessage.MergeAll | binlogdump/BinlogEntry.pb.cc:2339-2383 | Merging a repeated field appends copies of the elements, in order. |
| PairMessage.Pair.ReadMessage | binlogdump/BinlogEntry.pb.cc:4103-4163 | A nested message is parsed in the window its length prefix gives, and fails unless it uses all of it. |
| EntryMessage.ParsesExactlyIf | binlogdump/BinlogEntry.pb.cc:602-669 | Parsing succeeds exactly if the input splits into well-formed records whose header parses. |
| EntryMessage.ParseIsValid | binlogdump/BinlogEntry.pb.cc:602-669 | What a parse adds keeps the message valid, and the unknown or wrong-wire-type records of the input are appended in order, no others. |
| EntryMessage.SizeIsLength | binlogdump/BinlogEntry.pb.cc:737-774 | The size, summed in an order that is not the order of emission, is the length of the serialisation. |
| EntryMessage.ParseEncoded | binlogdump/BinlogEntry.pb.cc:602-735 | Parsing the serialisation of y into x gives x with y merged into it. |
| EntryMessage.RoundTrip | binlogdump/BinlogEntry.pb.cc:602-735 | A serialised message parses back to exactly itself if and only if it is valid: UTF-8 strings, valid sub-messages, unknown records that are well formed and not of a known tag. Presence with value 0 or false survives. |
| EntryMessage.MergeLaw | binlogdump/BinlogEntry.pb.cc:602-814 | Parsing two serialisations in a row gives the in-memory merge: the type last-wins, an empty storeValue does not overwrite. The nested header is merged recursively. |
| EntryMessage.MergeLaws | binlogdump/BinlogEntry.pb.cc:791-814 | Merging is associative with the empty message as two-sided identity. |
| EntryMessage.ForwardCompatible | binlogdump/BinlogEntry.pb.cc:602-735 | Whatever parses re-serialises to bytes that parse to the same message (hence serialise alike), whose records are those of the fields followed by the unrecognised ones, in order. |
| EntryMessage.LastOneWins | binlogdump/BinlogEntry.pb.cc:602-669 | Last One Wins, for any records and any message they are folded into: the type and storeValue are those of their last records, or as before; all header records are folded into one header; unrecognised records are appended. |
| EntryMessage.FoldsLikeMerged | binlogdump/BinlogEntry.pb.cc:602-814 | Folding records into x is merging what they fold to, if and only if x keeps the defaults they spell out: storeValue is empty in x if the last one is, and the header of x keeps what the records of all headers taken together spell out. |
| EntryMessage.MergesLikeParsed | binlogdump/BinlogEntry.pb.cc:602-814 | The same for the parse of any bytes into any x. |
| EntryMessage.ConcatMerges | binlogdump/BinlogEntry.pb.cc:602-814 | For any two byte strings that parse, the parse of the concatenation is the merge of the parses if and only if the first keeps the defaults the second spells out. |
| EntryMessage.Entry.MergePartialFromCodedStream | binlogdump/BinlogEntry.pb.cc:602-669 | The parse loop computes the fold of one-record updates over the records of the window, terminates because every turn takes bytes, and ends legitimately only at the end of the window. |
| EntryMessage.Entry.MergeRecord | binlogdump/BinlogEntry.pb.cc:602-669 | The switch on a tag: which records go to which field, and that all others, wrong wire types included, are kept as unknown. |
| EntryMessage.Entry.ByteSizeLong | binlogdump/BinlogEntry.pb.cc:737-774 | Returns the length of the serialisation, leaves the value as it is and every cached size in the tree right. |
| EntryMessage.Entry.InternalSerializeWithCachedSizesToArray | binlogdump/BinlogEntry.pb.cc:702-735 | Given right cached sizes, advances the target by exactly the size and writes exactly the serialisation. |
| EntryMessage.Entry.SerializeWithCachedSizes | binlogdump/BinlogEntry.pb.cc:671-700 | Writes the same bytes to a stream, whether or not its buffer has room for a nested message. |
| EntryMessage.Entry.Clear | binlogdump/BinlogEntry.pb.cc:587-600 | The message becomes the empty one. |
| EntryMessage.Entry.MergeFrom | binlogdump/BinlogEntry.pb.cc:791-814 | The new value is the merge of the two old ones. |
| EntryMessage.Entry.Copy | binlogdump/BinlogEntry.pb.cc:513-537 | The copy constructor gives an equal message. |
| EntryMessage.Entry.CopyFrom | binlogdump/BinlogEntry.pb.cc:823-828 | Clearing and merging gives a message equal to the source, as the copy constructor does; copying from itself changes nothing. |
| EntryMessage.Entry.ParseFromString | binlogdump/BinlogEntry.pb.cc:602-669 | Parsing a string clears the message first and succeeds only if all of the input is used. |
| EntryMessage.Entry.SerializeToString | binlogdump/BinlogEntry.pb.cc:702-774 | Sizing and then writing gives the serialisation, unless it is over the limit of an int. |
| EntryMessage.Entry.MergeHeader | binlogdump/BinlogEntry.pb.cc:602-669 | A header record is merged into the header already there, or into an empty one. |
| HeaderMessage.ParsesExactlyIf | binlogdump/BinlogEntry.pb.cc:1059-1280 | Parsing succeeds exactly if the input splits into well-formed records whose strings are UTF-8 and props parse. |
| HeaderMessage.ParseIsValid | binlogdump/BinlogEntry.pb.cc:1059-1280 | What a parse adds keeps the message valid, and the unknown or wrong-wire-type records of the input are appended in order, no others. |
| HeaderMessage.SizeIsLength | binlogdump/BinlogEntry.pb.cc:1506-1626 | The size, summed in an order that is not the order of emission, is the length of the serialisation. |
| HeaderMessage.ParseEncoded | binlogdump/BinlogEntry.pb.cc:1059-1504 | Parsing the serialisation of y into x gives x with y merged into it. |
| HeaderMessage.RoundTrip | binlogdump/BinlogEntry.pb.cc:1059-1504 | A serialised message parses back to exactly itself if and only if it is valid: UTF-8 strings, valid sub-messages, unknown records that are well formed and not of a known tag. Presence with value 0 or false survives. |
| HeaderMessage.MergeLaw | binlogdump/BinlogEntry.pb.cc:1059-1710 | Parsing two serialisations in a row gives the in-memory merge: props appended, oneofs last-wins, implicit defaults not overwriting. |
| HeaderMessage.MergeLaws | binlogdump/BinlogEntry.pb.cc:1643-1710 | Merging is associative with the empty message as two-sided identity. |
| HeaderMessage.ForwardCompatible | binlogdump/BinlogEntry.pb.cc:1059-1504 | Whatever parses re-serialises to bytes that parse to the same message (hence serialise alike), whose records are those of the fields followed by the unrecognised ones, in order. |
| HeaderMessage.LastOneWins | binlogdump/BinlogEntry.pb.cc:1059-1280 | Last One Wins, for any records and any message they are folded into: every singular field is that of its last record, or as before if there is none, and each list is extended by the parses of the sub-messages of its records, one for one; unrecognised records are appended. |
| HeaderMessage.FoldsLikeMerged | binlogdump/BinlogEntry.pb.cc:1059-1710 | Folding records into x is merging what they fold to, if and only if x keeps the defaults they spell out: every implicit-presence field whose last record holds the default is at its default in x. |
| HeaderMessage.MergesLikeParsed | binlogdump/BinlogEntry.pb.cc:1059-1710 | The same for the parse of any bytes into any x. |
| HeaderMessage.ConcatMerges | binlogdump/BinlogEntry.pb.cc:1059-1710 | For any two byte strings that parse, the parse of the concatenation is the merge of the parses if and only if the first keeps the defaults the second spells out. |
| HeaderMessage.Header.MergePartialFromCodedStream | binlogdump/BinlogEntry.pb.cc:1059-1280 | The parse loop computes the fold of one-record updates over the records of the window, terminates because every turn takes bytes, and ends legitimately only at the end of the window. |
| HeaderMessage.Header.MergeRecord | binlogdump/BinlogEntry.pb.cc:1059-1280 | The switch on a tag: which records go to which field, and that all others, wrong wire types included, are kept as unknown. |
| HeaderMessage.Header.ByteSizeLong | binlogdump/BinlogEntry.pb.cc:1506-1626 | Returns the length of the serialisation, leaves the value as it is and every cached size in the tree right. |
| HeaderMessage.Header.InternalSerializeWithCachedSizesToArray | binlogdump/BinlogEntry.pb.cc:1391-1504 | Given right cached sizes, advances the target by exactly the size and writes exactly the serialisation. |
| HeaderMessage.Header.SerializeWithCachedSizes | binlogdump/BinlogEntry.pb.cc:1282-1389 | Writes the same bytes to a stream, whether or not its buffer has room for a nested message. |
| HeaderMessage.Header.Clear | binlogdump/BinlogEntry.pb.cc:1038-1057 | The message becomes the empty one. |
| HeaderMessage.Header.MergeFrom | binlogdump/BinlogEntry.pb.cc:1643-1710 | The new value is the merge of the two old ones. |
| HeaderMessage.Header.Copy | binlogdump/BinlogEntry.pb.cc:884-943 | The copy constructor gives an equal message. |
| HeaderMessage.Header.CopyFrom | binlogdump/BinlogEntry.pb.cc:1719-1724 | Clearing and merging gives a message equal to the source, as the copy constructor does; copying from itself changes nothing. |
| HeaderMessage.MergeIntoMember | binlogdump/BinlogEntry.pb.cc:791-814 | Merging into a header that may be absent; it comes into being only if the other has one. |
| HeaderMessage.ByteSizeOfMember | binlogdump/BinlogEntry.pb.cc:737-774 | The size of a header that may be absent, with its cached size left right. |
| HeaderMessage.WriteMemberToArray | binlogdump/BinlogEntry.pb.cc:702-735 | A header that may be absent is written as one record, or not at all. |
| HeaderMessage.Header.ReadMessage | binlogdump/BinlogEntry.pb.cc:1059-1280 | A nested message is parsed in the window its length prefix gives, and fails unless it uses all of it. |
| HeaderOrder.StepsCommute | binlogdump/BinlogEntry.pb.cc:1059-1280 | Updates by records of different fields commute, a failing one included. |
| HeaderOrder.OrderDoesNotMatter | binlogdump/BinlogEntry.pb.cc:1059-1280 | Two inputs that have the same records, in the same order, in each of the thirteen fields and among the unknown ones parse to the same Header, or both fail, however the records of different fields are mixed. |
| PairMessage.AnEmptyKeyErases | binlogdump/BinlogEntry.pb.cc:4103-4293 | Two bytes on which parsing and merging differ; on every shorter input that parses they agree for every message. |
| PairMessage.InvalidUtf8IsWritten | binlogdump/BinlogEntry.pb.cc:4103-4233 | A message whose key is not UTF-8 is serialised, and its serialisation does not parse: an input on which the condition of RoundTrip fails. |
| Wire.ReadVarint64Inverts | binlogdump/BinlogEntry.pb.cc:2895-3023 | A 64-bit varint is read back from its bytes, whatever follows. |
| Wire.Int32Inverts | binlogdump/BinlogEntry.pb.cc:1059-1280 | An int32 or open enum survives its sign extension to 64 bits. |
| Wire.NegativeIntsTakeTenBytes | binlogdump/BinlogEntry.pb.cc:1506-1626 | A negative int32, int64 or enum takes ten bytes. |
| Wire.DecodeConcat | binlogdump/BinlogEntry.pb.cc:2895-3023 | The records of a concatenation are those of the first part and then those of the second. |
| Wire.DecodeInverts | binlogdump/BinlogEntry.pb.cc:2895-3159 | Encoded records are split back into the same records. |
| Wire.SplitIsBounded | binlogdump/BinlogEntry.pb.cc:2895-3023 | Every record takes at least two bytes and a payload is at least two bytes shorter than its window, so that nesting is bounded and every parse ends. |
| Utf8.ValidExactlyIfEncoded | binlogdump/BinlogEntry.pb.cc:4103-4163 | The check of a string field accepts exactly the UTF-8 encodings of sequences of Unicode scalar values. |
| Codec.FoldKeeps | binlogdump/BinlogEntry.pb.cc:2895-3023 | Over any input a validity that every update keeps is kept, and the unknown records collect in order. |
| Codec.OrderIndependence | binlogdump/BinlogEntry.pb.cc:1059-1280 | If updates of different slots commute, inputs that agree slot by slot fold to the same message. |
| CodedStream.CodedInputStream.ReadTagWithCutoffNoLastTag | binlogdump/BinlogEntry.pb.cc:2895-3023 | Tag 0 stands for the end of the window, for an unreadable tag and for an explicit zero; only the first is a legitimate end. |
| CodedStream.CodedOutputStream.SerializeUnknownFields | binlogdump/BinlogEntry.pb.cc:3025-3090 | The unknown records are written one after another. |
| CodedStream.SerializeUnknownFieldsToArray | binlogdump/BinlogEntry.pb.cc:3092-3159 | The unknown records are written one after another, over exactly their size. |
| MsgValMessage.LastMemberWins | qdcadm/AdminMsg.pb.cc:983-1072 | A parse succeeds exactly if the input splits and its strings are UTF-8; the message then holds the member of the last recognised record and no other, and the unrecognised records in order. |
| MsgValMessage.RoundTrip | qdcadm/AdminMsg.pb.cc:983-1151 | A serialised message parses back to itself if and only if it is valid; an empty string that is present stays present. |
| MsgValMessage.ParseEncoded | qdcadm/AdminMsg.pb.cc:983-1241 | MergeFrom agrees with replaying the serialisation of the other message. |
| MsgValMessage.MergeLaw | qdcadm/AdminMsg.pb.cc:983-1241 | Parsing two serialisations in a row gives the merge. |
| MsgValMessage.MergeLaws | qdcadm/AdminMsg.pb.cc:1213-1241 | Merging is associative with the empty message as two-sided identity. |
| MsgValMessage.MergesLikeParsed | qdcadm/AdminMsg.pb.cc:983-1241 | Parsing any bytes into any message is merging their parse. |
| MsgValMessage.SizeIsLength | qdcadm/AdminMsg.pb.cc:1153-1196 | The size is the length of the serialisation. |
| MsgValMessage.MsgVal.ClearMsgVal | qdcadm/AdminMsg.pb.cc:946-970 | No member is set afterwards; the unknown records stay. |
| MsgValMessage.MsgVal.SetI32 | qdcadm/AdminMsg.pb.h:1378-1385 | The member becomes this one with this value, whatever was set before; the case tag never names a member the union does not hold. |
| MsgValMessage.MsgVal.SetI64 | qdcadm/AdminMsg.pb.h:1407-1414 | The same for the 64-bit member. |
| MsgValMessage.MsgVal.SetF64 | qdcadm/AdminMsg.pb.h:1436-1443 | The same for the double. |
| MsgValMessage.MsgVal.SetStr | qdcadm/AdminMsg.pb.h:1465-1474 | The same for the string. |
| MsgValMessage.MsgVal.MutableStr | qdcadm/AdminMsg.pb.h:1508-1516 | The string is made the set member, empty if it was not. |
| MsgValMessage.MsgVal.GetI32 | qdcadm/AdminMsg.pb.h:1371-1377 | A member that is not set reads as its default. |
| MsgValMessage.MsgVal.GetI64 | qdcadm/AdminMsg.pb.h:1400-1406 | The same for the 64-bit member. |
| MsgValMessage.MsgVal.GetF64 | qdcadm/AdminMsg.pb.h:1429-1435 | The same for the double. |
| MsgValMessage.MsgVal.GetStr | qdcadm/AdminMsg.pb.h:1458-1464 | The same for the string. |
| MsgValMessage.MsgVal.SetFrom | qdcadm/AdminMsg.pb.cc:1213-1241 | The switch over the case of the other message: its member replaces ours if it has one. |
| MsgValMessage.MsgVal.MergeFrom | qdcadm/AdminMsg.pb.cc:1213-1241 | The new value is the merge of the two old ones. |
| MsgValMessage.MsgVal.CopyFrom | qdcadm/AdminMsg.pb.cc:1250-1255 | The message becomes equal to the source. |
| MsgValMessage.MsgVal.Copy | qdcadm/AdminMsg.pb.cc:888-915 | The copy constructor gives an equal message. |
| MsgValMessage.MsgVal.Clear | qdcadm/AdminMsg.pb.cc:973-981 | The message becomes the empty one. |
| MsgValMessage.MsgVal.MergePartialFromCodedStream | qdcadm/AdminMsg.pb.cc:983-1072 | The parse loop computes the fold of one-record updates and keeps case tag and union in step. |
| MsgValMessage.MsgVal.MergeRecord | qdcadm/AdminMsg.pb.cc:983-1072 | One turn: clear, read and set for a number; set, read and check for a string; all other records kept as unknown. |
| MsgValMessage.MsgVal.ByteSizeLong | qdcadm/AdminMsg.pb.cc:1153-1196 | Returns the length of the serialisation. |
| MsgValMessage.MsgVal.InternalSerializeWithCachedSizesToArray | qdcadm/AdminMsg.pb.cc:1112-1151 | Writes exactly the serialisation, over exactly its size. |
| MsgValMessage.MsgVal.SerializeWithCachedSizes | qdcadm/AdminMsg.pb.cc:1074-1110 | Writes the same bytes to a stream. |
| PairIntDblMessage.ParsesExactlyIf | qdcadm/AdminMsg.pb.cc:1623-1679 | Parsing succeeds exactly if the input splits into well-formed records; nothing else is checked. |
| PairIntDblMessage.ParseIsValid | qdcadm/AdminMsg.pb.cc:1623-1679 | What a parse adds keeps the message valid, and the unknown or wrong-wire-type records of the input are appended in order, no others. |
| PairIntDblMessage.SizeIsLength | qdcadm/AdminMsg.pb.cc:1729-1753 | The size, summed in an order that is not the order of emission, is the length of the serialisation. |
| PairIntDblMessage.ParseEncoded | qdcadm/AdminMsg.pb.cc:1623-1727 | Parsing the serialisation of y into x gives x with y merged into it. |
| PairIntDblMessage.RoundTrip | qdcadm/AdminMsg.pb.cc:1623-1727 | A serialised message parses back to itself exactly if it is valid and its double is not -0.0; a valid one parses back with -0.0 turned into +0.0. |
| PairIntDblMessage.NegativeZeroIsLost | qdcadm/AdminMsg.pb.cc:1704-1727 | The message whose only content is -0.0 serialises to nothing and reads back as the empty message. |
| PairIntDblMessage.NegativeZeroIsRead | qdcadm/AdminMsg.pb.cc:1623-1679 | A -0.0 on the wire is kept by the parser. |
| PairIntDblMessage.MergeLaw | qdcadm/AdminMsg.pb.cc:1623-1783 | Parsing two serialisations in a row gives the merge of the messages exactly if the first has no -0.0 or the second overwrites it. |
| PairIntDblMessage.MergeLaws | qdcadm/AdminMsg.pb.cc:1770-1783 | Merging is associative and the empty message is a right identity; as a left identity it loses a -0.0. |
| PairIntDblMessage.ForwardCompatible | qdcadm/AdminMsg.pb.cc:1623-1727 | Re-serialising what was parsed gives the records of the fields and then the unrecognised ones; it parses back to the same message but for a -0.0, and serialises to the same bytes again. |
| PairIntDblMessage.LastOneWins | qdcadm/AdminMsg.pb.cc:1623-1679 | Last One Wins, for any records and any message they are folded into: key and val are those of their last records, or as before; unrecognised records are appended. |
| PairIntDblMessage.FoldsLikeMerged | qdcadm/AdminMsg.pb.cc:1623-1783 | Folding records into x is merging what they fold to, if and only if x keeps the defaults they spell out: key is 0 in x if the last one is, and val has the bits of the last one if that is a zero. |
| PairIntDblMessage.MergesLikeParsed | qdcadm/AdminMsg.pb.cc:1623-1783 | The same for the parse of any bytes into any x. |
| PairIntDblMessage.ConcatMerges | qdcadm/AdminMsg.pb.cc:1623-1783 | For any two byte strings that parse, the parse of the concatenation is the merge of the parses if and only if the first keeps the defaults the second spells out. |
| PairIntDblMessage.PairIntDbl.MergePartialFromCodedStream | qdcadm/AdminMsg.pb.cc:1623-1679 | The parse loop computes the fold of one-record updates over the records of the window, terminates because every turn takes bytes, and ends legitimately only at the end of the window. |
| PairIntDblMessage.PairIntDbl.MergeRecord | qdcadm/AdminMsg.pb.cc:1623-1679 | The switch on a tag: which records go to which field, and that all others, wrong wire types included, are kept as unknown. |
| PairIntDblMessage.PairIntDbl.ByteSizeLong | qdcadm/AdminMsg.pb.cc:1729-1753 | Returns the length of the serialisation, leaves the value as it is and every cached size in the tree right. |
| PairIntDblMessage.PairIntDbl.InternalSerializeWithCachedSizesToArray | qdcadm/AdminMsg.pb.cc:1704-1727 | Given right cached sizes, advances the target by exactly the size and writes exactly the serialisation. |
| PairIntDblMessage.PairIntDbl.SerializeWithCachedSizes | qdcadm/AdminMsg.pb.cc:1681-1702 | Writes the same bytes to a stream, whether or not its buffer has room for a nested message. |
| PairIntDblMessage.PairIntDbl.Clear | qdcadm/AdminMsg.pb.cc:1611-1621 | The message becomes the empty one. |
| PairIntDblMessage.PairIntDbl.MergeFrom | qdcadm/AdminMsg.pb.cc:1770-1783 | The new value is the merge of the two old ones. |
| PairIntDblMessage.PairIntDbl.Copy | qdcadm/AdminMsg.pb.cc:1573-1581 | The copy constructor gives an equal message. |
| PairIntDblMessage.PairIntDbl.CopyFrom | qdcadm/AdminMsg.pb.cc:1792-1797 | Clearing and merging gives a message equal to the source, but for a -0.0, which the copy constructor keeps. |
| KafkaReader.TimesOutExactlyIf | binlogdump/CBinlogKafka.cpp:156-189 | A turn returns ERR__TIMED_OUT exactly if the client timed out, the position is known, the snapshot is taken, and every partition something was consumed from is at or past its mark. |
| KafkaReader.TurnKeeps | binlogdump/CBinlogKafka.cpp:151-241 | One turn of the loop uses up an event, keeps what was consumed a path through the logs, and keeps a snapshot once taken. |
| KafkaReader.CallExplained | binlogdump/CBinlogKafka.cpp:139-245 | A call hands over a message exactly when it returns ERR_NO_ERROR: the only one it consumed that passes the filter; only the last message consumed may lack a key, and then the call fails. |
| KafkaReader.ConsumedIsSlice | binlogdump/CBinlogKafka.cpp:151-221 | What was consumed from a partition is a stretch of its log, in order, each message once. |
| KafkaReader.RunDelivers | binlogdump/binlogdumpK.cpp:95-118 | Over any run of the main loop the payloads are those of the consumed messages that pass the filter, in order, each once. |
| KafkaReader.DeliverySafety | binlogdump/CBinlogKafka.cpp:191-221 | From every partition a run hands over exactly the consumed stretch of its log, filtered by the keys. |
| KafkaReader.ExecuteDelivers | binlogdump/binlogdumpK.cpp:95-118 | The same for a whole execution from its start. |
| KafkaReader.DrainComplete | binlogdump/CBinlogKafka.cpp:156-189 | If an execution ends with a timeout, a partition it consumed from and whose watermark query was answered is consumed up to that watermark, and every matching message below it was handed over. |
| KafkaReader.DrainedExactlyIf | binlogdump/CBinlogKafka.cpp:124-187 | If an execution ends with a timeout, every partition is consumed up to the watermark the broker answered if and only if all queries were answered and the partitions never consumed from had nothing below theirs. |
| KafkaReader.UntouchedPartitionIsSkipped | binlogdump/CBinlogKafka.cpp:174-176 | An execution that times out with a message waiting, because nothing was fetched yet: an input on which the condition of DrainedExactlyIf fails. |
| KafkaReader.SnapshotAnswers | binlogdump/CBinlogKafka.cpp:124-134 | A mark is the answer of its query exactly if no query up to it failed; from the first failure on the marks stay unset. |
| KafkaReader.SnapshotIsTheFirst | binlogdump/CBinlogKafka.cpp:109-137 | The marks of an execution are those of the first fill that finds the partitions assigned, whether or not its queries were answered; they are not taken again. |
| KafkaReader.FailedQueryEndsEarly | binlogdump/CBinlogKafka.cpp:124-134 | An execution that times out with a wanted message next in the log, because the watermark query failed: an input on which the condition of DrainedExactlyIf fails. |
| KafkaReader.Committed | binlogdump/CBinlogKafka.cpp:247-250 | The group starts again from the next offset of every partition if the broker takes the commit, and from where it was otherwise. |
| KafkaReader.Resume | binlogdump/binlogdumpK.cpp:95-125 | A second execution from the committed offsets hands over, per partition, exactly what a single one that gets as far hands over after the share of the first: nothing twice, nothing lost; if the commit was refused, the share of the first again as well. |
| KafkaReader.KeyedExactlyIf | binlogdump/CBinlogKafka.cpp:196-200 | All messages consumed have keys if and only if all messages between the first and the last offsets have. |
| KafkaReader.SkipsExactlyIf | binlogdump/CBinlogKafka.cpp:196-200 | No message below the offsets an execution leaves is skipped for want of a key if and only if every message there has one; if one has none it is the last consumed, and the execution stopped on it with ERR__FAIL. |
| KafkaReader.NeverSkipsExactlyIf | binlogdump/CBinlogKafka.cpp:196-200 | No execution whatever skips a message for want of a key if and only if no message from the start on lacks one. |
| KafkaReader.KeylessIsSkipped | binlogdump/CBinlogKafka.cpp:196-200 | An execution that stops on a message without a key and whose commit is past it: an input on which the condition of SkipsExactlyIf fails. |
| Executions.HandedOverExactlyIf | binlogdump/CBinlogKafka.cpp:191-221 | The payloads of an execution are, in order and each once, those of the consumed messages that have a key which is some entry of the filter, or any key if the filter is empty; consumed is every message between the start and the next offset of its partition, once, in the order of the log. |
| Executions.FilterIsASet | binlogdump/CBinlogKafka.cpp:203-213 | Two filters with the same keys give the same execution: neither order nor repetition matters. |
| Executions.RunIsCalls | binlogdump/binlogdumpK.cpp:95-118 | A run is its calls of Read: it goes on after a message, and after a timeout in wait mode, and ends with the first other code, or interrupted after the given number. |
| Executions.InterruptedExactlyIf | binlogdump/binlogdumpK.cpp:95-118 | The interrupt ends a run if and only if each of its calls returned a message, or timed out in wait mode. |
| Executions.WaitsForMessages | binlogdump/binlogdumpK.cpp:102-104 | In wait mode and with calls to spare, a run uses up all events or stops with another code than ERR__TIMED_OUT. |
| Executions.TurnExplains | binlogdump/CBinlogKafka.cpp:151-241 | Which event ends a read, with which code and in what situation; it goes on only past a message with a key that the filter does not let through, and past a timeout without a snapshot or with a known position short of a mark. |
| Executions.RunExplains | binlogdump/CBinlogKafka.cpp:151-241 | Over a whole run: every event but the last is a delivery or a timeout; an event of another kind, an unknown position with the snapshot taken, or a message without a key stops it with its code, and a timeout stops it only when every partition something was consumed from is at its mark. |
| Executions.SnapshotExactlyIf | binlogdump/CBinlogKafka.cpp:146-163 | A run takes the snapshot if and only if one of its fills assigns, counting one for each call, each delivery and each timeout: every one of these tries again as long as there is no snapshot. |
| BinlogKafka.CBinlogKafkaReader.FillOffset | binlogdump/CBinlogKafka.cpp:109-137 | Takes the snapshot if there is none and says whether a client call failed. |
| BinlogKafka.CBinlogKafkaReader.QueryMarks | binlogdump/CBinlogKafka.cpp:124-134 | The loop over the watermark queries, up to the first that fails. |
| BinlogKafka.CBinlogKafkaReader.Read | binlogdump/CBinlogKafka.cpp:139-245 | State, code and message after a call are those of the state machine. |
| BinlogKafka.CBinlogKafkaReader.OneTurn | binlogdump/CBinlogKafka.cpp:151-241 | The body of the loop is one turn of the state machine. |
| BinlogKafka.CBinlogKafkaReader.OnTimedOut | binlogdump/CBinlogKafka.cpp:156-189 | The check whether reading is over, partition by partition. |
| BinlogKafka.CBinlogKafkaReader.CommitOffset | binlogdump/CBinlogKafka.cpp:247-250 | Returns the code of commitSync; the committed offsets become the next ones if it is 0 and stay otherwise. |
| BinlogKafka.Contains | binlogdump/CBinlogKafka.cpp:203-213 | The search of the key among the filters finds it exactly if it is there. |
| BinlogDump.TwoLayers | binlogdump/binlogdumpK.cpp:193-222 | From the bytes of a produced entry the entry comes back, and from its storeValue the row change that was put in. |
| BinlogDump.ParsedCounts | binlogdump/binlogdumpK.cpp:218-236 | Whatever bytes parse count as what they parse to: entries of type 2 once in the total and as insert, update or delete for event types 1, 2 and 3; no other type, 1 and 3 included, moves a counter. |
| BinlogDump.EntryCounts | binlogdump/binlogdumpK.cpp:218-236 | The same of every produced entry, in terms of what it was produced from. |
| BinlogDump.AnInsertIsCounted | binlogdump/binlogdumpK.cpp:218-227 | The six bytes 10 02 1A 02 10 01 count as one row and one insert. |
| BinlogDump.CountIsCardinality | binlogdump/binlogdumpK.cpp:223-236 | A count is the number of places where an entry of type 2 with the event type stands. |
| BinlogDump.StatisticsAreCounts | binlogdump/binlogdumpK.cpp:223-236 | Over produced entries the four counters show the numbers of row entries and of inserts, updates and deletes among them, modulo 2^64. |
| BinlogDump.StatisticsOfRun | binlogdump/binlogdumpK.cpp:223-236 | Below 2^64 entries the counters are these numbers, and inserts, updates and deletes together are at most the total. |
| BinlogDump.StatisticsOfExecution | binlogdump/binlogdumpK.cpp:95-118 | After an execution over logs whose messages carry produced entries, each counter is the number of the entries of its kind in the consumed stretches that pass the filter, summed over the partitions, modulo 2^64. |
| BinlogDump.CountedKeepsConsistent | binlogdump/binlogdumpK.cpp:223-236 | Whatever an entry holds, it keeps the sum of the three counters at most the total. |
| BinlogDump.Dump.PrintSql | binlogdump/binlogdumpK.cpp:185-244 | Returns -1 for no data; otherwise counts a well-formed entry as its two layers say, and any entry at most once. |
| BinlogDump.Dump.CountRow | binlogdump/binlogdumpK.cpp:223-236 | The total moves by one, and the counter of the event type if it has one. |
| BinlogDump.Dump.ReadAndPrint | binlogdump/binlogdumpK.cpp:95-125 | The main loop is the run of the state machine; the statistics are those of the payloads it printed, and a commit that is taken stores the next offsets; a run cut inside a read has not come to it. |
| StrSplit.StrSplit | binlogdump/binlogdumpK.cpp:262-296 | Appends exactly the non-empty pieces of the leftmost non-overlapping split; nothing for an empty string, the whole string for an empty separator. |
| StrSplit.SplitOnce | binlogdump/binlogdumpK.cpp:276-294 | One turn of the loop: the piece up to the next separator is appended unless it is empty, and the rest is left to do. |
| StrSplit.PiecesAreLeftmost | binlogdump/binlogdumpK.cpp:276-294 | The pieces joined give back the string, each cut is at the leftmost separator, and no piece holds the separator. |
| StrSplit.SplitOfJoin | binlogdump/binlogdumpK.cpp:276-294 | There is no other list of parts with these properties. |
| StrSplit.TokensAre | binlogdump/binlogdumpK.cpp:262-296 | No token for an empty string, the string itself for an empty separator, and otherwise the non-empty parts of the leftmost cuts, all and in order. |
| StrSplit.TokensAreFree | binlogdump/binlogdumpK.cpp:276-294 | No token is empty or holds the separator. |
| StrSplit.TokensOfJoin | binlogdump/binlogdumpK.cpp:262-296 | With a one-character separator, splitting the join of non-empty separator-free tokens gives back the tokens. |
| StrSplit.Strstr | binlogdump/binlogdumpK.cpp:277 | The leftmost occurrence, if there is one. |

## Left out

- Sub-messages are held by value in their parent (members and cached size), not as separate heap objects: sharing and the ownership accessors (`release_`, `set_allocated_`, `Swap`, arenas) are not captured. A method on a nested message works on an object made from that value and put back.
- The payload of a record is read before the switch on its tag and not inside each case; all cases but sub-messages read the payload their wire type calls for, so that the order of reads is the same.
- A oneof with a single member is an optional value; the case tag and the union are modelled in `MsgVal`, where there is more than one member.
- BinlogEntry.TransactionBegin, TransactionEnd and the messages of binlogdump/BinlogPackage.pb.cc and of the rest of qdcadm/AdminMsg.pb.cc: their shapes repeat those modelled, so they would add only copies.
- BinlogDump.Dump.PrintSql: does not model the printing itself nor the parse of TransactionBegin and TransactionEnd, which only feeds the printing.
- BinlogDump.Dump.ReadAndPrint: does not model the printed statistics or the error output.
- BinlogDump.TwoLayers: does not model the inner TransactionBegin and TransactionEnd, which only feed the printing.
- KafkaReader.UntouchedPartitionIsSkipped: one execution, the example for the general DrainedExactlyIf.
- KafkaReader.FailedQueryEndsEarly: one execution, the other example for DrainedExactlyIf.
- KafkaReader.KeylessIsSkipped: one execution, the example for the general SkipsExactlyIf.
- Kafka itself: rebalancing, fetching, callbacks, brokers, compaction and transactional gaps in offsets; they are represented by the scripts and by logs without gaps.
- CBinlogKafkaReader::Init, argument parsing, usage text, signal registration and text-format printing: user interface and set-up.
- Groups in unknown fields and the recursion limit of the library: deprecated, or decided by code that is not part of this model.
- Descriptors, reflection, default instances and their initialisation: library plumbing.
- The bytes of the target array beyond what a serialiser returns: its contract leaves them open.
- Arithmetic of `size_t` beyond 2^64 bytes: no message is that long.
- The admin client and its sockets (qdcadm/CAdmClient.cpp, qdcadm/CAdmMsg.cpp): network input and output.
