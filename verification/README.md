# A verified model of the codec, the credential refresh and the multipart encoder

The application vendors three pieces of code whose correctness does not show from reading any single
function. This project models them in Dafny and proves what they promise.

**nanopb** (`DuplicatedApps/Pods/nanopb`) prints and parses the Protocol Buffers wire format from
descriptor tables. `Wire`, `Descriptor`, `Decoding` and `Encoding` say what is computed, as functions on
byte strings, descriptor trees and messages. `InputStream`, `FieldIterator`, `RequiredFields`, `Decoder`,
`OutputStream` and `Encoder` are the code itself: streams, iterator, bitmap and destination struct change
in place, in the loops and with the error branches of the C code, and every method is proved to compute its
function. `WireFormat`, `Scalars`, `Written` and `Layout` say what these functions are in the numbers of the wire
format and of the C struct: the value of a string of seven-bit groups, what each scalar decoder accepts and
returns, what each encoder writes, leaves out and refuses, and where the compiler put the fields. `Records`,
`Reordering`, `RoundTrip`, `ForeignReader`, `Filling`, `NormalForm` and `Injectivity` prove the laws of the format
about them, and `TypeSafety` the memory discipline of the decoder. `Counterexamples` holds inputs for which a
plain law fails.

**`AuthenticationInterceptor`** (Alamofire) is a concurrent protocol. The class `AuthenticationInterceptor`
is the state under the lock; `Step` runs threads, the serial dispatch queue, the authenticator and a
monotone clock around its lock regions, one lock region or one callback at a time, in any order. `retry`
reads the credential in one lock region and acts in a later one, so it is two steps. The invariants are
proved over all runs. `Refreshing` says of every run which credentials reach the authenticator and why, which
credential is current, and in which order callers wait and are served.

**`MultipartFormData`** (Alamofire) encodes a form in memory and also by streaming. `Multipart` holds both,
over input streams that hand out pieces of any size and output streams that take pieces of any size;
`Framing` and `Receiving` are the receiver's side: the grammar of section 5.1.1 of RFC 2046 as a splitter, and a
parser of header lines and bodies, both with octets of their own.

`dafny verify dfyconfig.toml` checks everything.

## Conventions

- A message is the content of a struct: a map from the address of a field's data, relative to the struct, to
  a slot that holds the value together with its has-flag, count or which-tag. Members of a union share an
  address and so a slot.
- A decoder is a function from the bytes left to `Ok(value, used)` or `Fail`. A method refines it when it
  succeeds on the same inputs, returns the same value and moves the stream by `used`. After a failure the
  contracts still say that the stream has stayed inside its limit.
- Byte and word widths are explicit: shifts are cut at 32 or 64 bits, casts to narrower integers are written
  out, and `PB_SIZE_MAX` is a constant of which nothing is known but its three possible values.
- The decoder's `|=` is an `Or` on bits, proved to be addition where the bits are disjoint.

## What turned out to need a condition

Each condition is exact: the law is proved to hold if and only if it is met, in the member named first. The
members of `Counterexamples` are inputs that do not meet it.

- Concatenating two encodings merges them, except when the second starts the fixed-count field that the
  first has just completed: then the concatenation is refused (`Records.ConcatenationMerges`,
  `Counterexamples.ConcatenationRefused`).
- A normal message comes back from its encoding if and only if each submessage and each packed array in it
  is shorter than 4 GiB; a longer one is encoded but cannot be decoded (`RoundTrip.RoundTrip`,
  `Counterexamples.LongArrayIsLost`).
- What `pb_decode` accepts is in normal form if and only if the input holds a record for every fixed-count array
  of each struct that is present, and none for a struct without fields (`NormalForm.AcceptedIsNormal`,
  `Counterexamples.UnfilledArray`, `Counterexamples.EmptyStructWritten`). For a descriptor tree that has neither,
  everything that is accepted is in normal form (`NormalForm.PlainAcceptedIsNormal`).
- The 32-bit varint decoder accepts some values of 2^32 and above: those whose bit 31 is set, whose four
  groups from bit 35 are each all zeros or all ones, and whose tenth group is one (`Wire.Varint32Accepts`).
- Two records with different tags, not both of fixed-count fields, lead to the same state in either order if
  and only if the fields do not share a union (`Records.RecordsCommuteExactly`,
  `Counterexamples.UnionOrderMatters`). Two records of different fixed-count fields have the same outcome in
  either order if and only if they are whole arrays: neither field was being received before, and the second
  record carries as many entries as its array has (`Records.FixedRecordsCommuteExactly`,
  `Counterexamples.SplitArrayOrderMatters`, `Counterexamples.ReceivedBeforeOrderMatters`).
- Setting a struct to its defaults stays inside its fields if and only if every fixed-count array has room for a
  count (`Descriptor.DefaultsInside`, `Counterexamples.ShortArrayOverrun`).
- Fields that do not share a union do not overlap, if and only if each field behind a union starts past all its
  members (`Descriptor.NoOverlap`, `Counterexamples.UnionOverlap`); the messages of this model tell fields apart
  by address alone.
- The iterator's addresses are the offsets of the C struct if and only if no gap between two unions is as large as
  `PB_SIZE_MAX`, the mark of a member of the same union (`Layout.AddressesAreOffsets`,
  `Counterexamples.DistantUnions`).
- A received form has the headers and bodies that were put in if and only if, besides what splitting needs, every
  header is one line and its name holds no colon with a space behind it (`Receiving.FormReceived`,
  `Counterexamples.BreakInHeader`). Nothing in the code checks this.
- Splitting an encoded form gives its parts back if and only if no part holds a delimiter and no part but the
  last carries a final boundary. A form that is written, appended to and written again breaks the second
  half, since the flags that were set the first time stay (`Framing.SplitRecovers`,
  `Counterexamples.DelimiterInBody`, `Counterexamples.StaleFinalBoundary`).
- `writeEncodedData` ignores the declared lengths that `encode` insists on, and it ignores an output stream
  that runs out of space. A run that is reported as successful wrote the encoding if and only if no query for
  space was refused; otherwise bytes are missing, possibly in the middle
  (`Multipart.MultipartFormData.WriteEncodedData`, `Multipart.OfferAllExact`, `Multipart.HoleInTheMiddle`).

On an empty descriptor tag 0 is found, at the terminator (`Decoding.FindField`, `FieldIterator.FieldIter.Find`).

## Model

| member | source | states |
|---|---|---|
| `Wire.Varint64Inverts` | DuplicatedApps/Pods/nanopb/pb_decode.c:255-275 | reading back the varint of any 64-bit value gives the value and uses exactly its bytes, whatever follows |
| `Wire.VarintLength` | DuplicatedApps/Pods/nanopb/pb_encode.c:608-628 | a varint has one byte for each started group of seven bits, and at least one |
| `Wire.VarintAtMost` | DuplicatedApps/Pods/nanopb/pb_encode.c:608-628 | ten bytes are enough for a 64-bit value, five for a 32-bit value, so the local buffer of ten bytes suffices |
| `Wire.Varint32Refines` | DuplicatedApps/Pods/nanopb/pb_decode.c:187-247 | on at most ten bytes the fast decoder, when it accepts, uses the bytes the 64-bit decoder uses and returns its value modulo 2^32 |
| `Wire.Varint32Accepts` | DuplicatedApps/Pods/nanopb/pb_decode.c:187-247 | exactly which encoded 64-bit values the fast decoder accepts |
| `Wire.Varint32Inverts` | DuplicatedApps/Pods/nanopb/pb_decode.c:187-247 | every value below 2^32 is read back |
| `Wire.Varint32ReadsNegatives` | DuplicatedApps/Pods/nanopb/pb_decode.c:187-247 | every negative int32, sign-extended to ten bytes, is read back modulo 2^32 |
| `Wire.ZigZagInverts` | DuplicatedApps/Pods/nanopb/pb_decode.c:1285-1297 | zigzag decoding undoes zigzag encoding on all signed 64-bit values |
| `Wire.LittleEndianInverts` | DuplicatedApps/Pods/nanopb/pb_decode.c:1299-1331 | little-endian fixed-width encoding is undone |
| `Wire.ReadHeaderInverts` | DuplicatedApps/Pods/nanopb/pb_decode.c:298-319 | the header written for a field number and wire type is read back, using exactly its bytes |
| `Wire.SkipFieldExact` | DuplicatedApps/Pods/nanopb/pb_decode.c:321-334 | skipping uses exactly n bytes if and only if the next n bytes are a payload of that wire type |
| `WireFormat.VarintIsGroups` | DuplicatedApps/Pods/nanopb/pb_encode.c:608-628 | a varint is one payload of wire type 0, and the number that its groups of seven bits stand for is the value |
| `WireFormat.Varint64Exact` | DuplicatedApps/Pods/nanopb/pb_decode.c:255-275 | of every string of groups: up to ten bytes the value of the groups modulo 2^64, and an error beyond |
| `WireFormat.Varint32Exact` | DuplicatedApps/Pods/nanopb/pb_decode.c:187-247 | of every string of at most 37 groups: which are accepted, by bits 4 to 6 of the fifth group and the sign groups behind it, and then the value modulo 2^32 |
| `WireFormat.HeaderIsGroups` | DuplicatedApps/Pods/nanopb/pb_encode.c:669-673 | the groups of a header are eight times the tag plus the wire type |
| `WireFormat.HeaderExact` | DuplicatedApps/Pods/nanopb/pb_decode.c:298-319 | a header that is accepted is its number modulo 2^32: zero ends the message, otherwise tag and wire type |
| `Wire.ZigZagValue` | DuplicatedApps/Pods/nanopb/pb_encode.c:630-639 | zigzag maps 0, -1, 1, -2 and so on to 0, 1, 2, 3 and so on |
| `Scalars.BoolExact` | DuplicatedApps/Pods/nanopb/pb_decode.c:1334-1343 | true exactly for the accepted numbers that are not a multiple of 2^32 |
| `Scalars.SignedExact` | DuplicatedApps/Pods/nanopb/pb_decode.c:1345-1380 | of any input: the two's complement value of the varint, of its low 32 bits in fields narrower than 64 bits, exactly when it is in the range of the field; otherwise an error |
| `Scalars.UnsignedExact` | DuplicatedApps/Pods/nanopb/pb_decode.c:1382-1404 | of any input: the value of the varint, exactly when it is in the range of the field; otherwise an error |
| `Scalars.ZigZagExact` | DuplicatedApps/Pods/nanopb/pb_decode.c:1406-1428 | of any input: the zigzag value of the varint, exactly when it is in the range of the field; otherwise an error |
| `Scalars.CastFits` | DuplicatedApps/Pods/nanopb/pb_decode.c:1345-1380 | a cast to a narrower signed type changes a value exactly when it is out of range |
| `Scalars.Fixed32Exact` | DuplicatedApps/Pods/nanopb/pb_decode.c:1299-1312 | four bytes, the low one first, or an error when there are fewer |
| `Scalars.Fixed64Exact` | DuplicatedApps/Pods/nanopb/pb_decode.c:1314-1331 | eight bytes, the low one first, or an error when there are fewer |
| `Scalars.BytesExact` | DuplicatedApps/Pods/nanopb/pb_decode.c:1447-1485 | bytes are taken exactly when they fit behind the size in the buffer |
| `Scalars.StringExact` | DuplicatedApps/Pods/nanopb/pb_decode.c:1487-1523 | a string is taken exactly when it leaves room for the NUL, and is what precedes its first NUL |
| `Scalars.FixedLengthExact` | DuplicatedApps/Pods/nanopb/pb_decode.c:1549-1570 | exactly the declared length is taken, or nothing, which stands for zeros |
| `Written.IntegerWritten` | DuplicatedApps/Pods/nanopb/pb_encode.c:769-833 | the shortest varint of the number: of its two's complement in 64 bits whatever the width of the field, or of its zigzag number |
| `Written.Fixed32Written` | DuplicatedApps/Pods/nanopb/pb_encode.c:846-850 | the four bytes of the number, the low one first |
| `Written.Fixed64Written` | DuplicatedApps/Pods/nanopb/pb_encode.c:835-844 | the eight bytes of the number, the low one first |
| `Written.BlobWritten` | DuplicatedApps/Pods/nanopb/pb_encode.c:852-911 | the shortest varint of the length, and the bytes |
| `Written.FieldLeftOut` | DuplicatedApps/Pods/nanopb/pb_encode.c:240-426 | a field of a normal message is left out exactly when its flag is clear, it has no entries, another member is stored, or it is a proto3 zero |
| `Written.MessageLeftOut` | DuplicatedApps/Pods/nanopb/pb_encode.c:240-337 | the zero check of a proto3 submessage holds exactly when its encoding would be empty |
| `Written.MessageWritable` | DuplicatedApps/Pods/nanopb/pb_encode.c:528-550 | pb_encode refuses a message exactly when, at some depth, a present value has not the kind or the size of its field or an array is longer than its room |
| `Descriptor.AddressOrder` | DuplicatedApps/Pods/nanopb/pb_common.c:29-85 | the walk gives two fields one address if and only if they belong to one union, and otherwise ascending addresses |
| `Descriptor.SharedAddress` | DuplicatedApps/Pods/nanopb/pb_common.c:54-72 | different fields with one address are members of a oneof |
| `Descriptor.NoOverlap` | DuplicatedApps/Pods/nanopb/pb_common.c:54-82 | fields that share no union do not overlap, exactly when each field behind a union starts past all its members |
| `Counterexamples.UnionOverlap` | DuplicatedApps/Pods/nanopb/pb_common.c:53-82 | a field behind a union with an offset of zero lies inside the union's first member |
| `Descriptor.DefaultsAt` | DuplicatedApps/Pods/nanopb/pb_decode.c:917-932 | after setting to defaults every field holds its default and nothing else is in the struct |
| `Descriptor.DefaultsInside` | DuplicatedApps/Pods/nanopb/pb_decode.c:871-878 | what setting defaults writes stays inside the fields, exactly when every fixed-count array has room for the count that is zeroed at its data |
| `Counterexamples.ShortArrayOverrun` | DuplicatedApps/Pods/nanopb/pb_decode.c:871-878 | with 32-bit counts, the default of a fixed-count array of one byte is written past its end |
| `Descriptor.DefaultsAreDeclared` | DuplicatedApps/Pods/nanopb/pb_decode.c:845-932 | the default of each field is the declared one, or zero of its size; flags are clear, arrays empty and unions without member |
| `Layout.AddressesAreOffsets` | DuplicatedApps/Pods/nanopb/pb.h:391-450 | for a descriptor that the macros build for a struct, the iterator's two addresses are the offsets of the member and of its flag, count or which-tag, exactly when no gap between unions is the mark of a union |
| `Counterexamples.DistantUnions` | DuplicatedApps/Pods/nanopb/pb_common.c:53-72 | two unions that are PB_SIZE_MAX apart are taken for one |
| `FieldIterator.FieldIter.constructor` | DuplicatedApps/Pods/nanopb/pb_common.c:8-27 | the iterator starts where a walk from the start is at field 0 |
| `FieldIterator.FieldIter.Begin` | DuplicatedApps/Pods/nanopb/pb_common.c:8-27 | back to the first field; true exactly when there is one |
| `FieldIterator.FieldIter.Next` | DuplicatedApps/Pods/nanopb/pb_common.c:29-85 | moves to the next field, or wraps at the end and says so; address, size pointer and required index are those of a fresh walk, which `Layout.AddressesAreOffsets` and `RequiredFields.RequiredIndexCounts` identify |
| `FieldIterator.FieldIter.Find` | DuplicatedApps/Pods/nanopb/pb_common.c:87-104 | from any position: stops within one lap, succeeds exactly when a field has the tag, then is where a fresh walk would be, and on failure is back at its start |
| `Decoding.FindField` | DuplicatedApps/Pods/nanopb/pb_common.c:87-104 | the result is a field with the tag, and there is none if nothing is found |
| `Decoding.DecodeRecord` | DuplicatedApps/Pods/nanopb/pb_decode.c:952-1030 | each turn of the field loop that does not fail uses at least one byte and never more than there are |
| `Decoding.Substream` | DuplicatedApps/Pods/nanopb/pb_decode.c:372-385 | the content of a substream lies inside the stream and is shorter than what the record uses, the measure that bounds nesting |
| `Records.ThroughConcat` | DuplicatedApps/Pods/nanopb/pb_decode.c:952-1030 | decoding records a then b from one stream is decoding b in the state that a left |
| `Records.UnknownTransparent` | DuplicatedApps/Pods/nanopb/pb_decode.c:966-995 | inserting a well-formed record with an unknown non-zero tag between two records changes neither message nor result |
| `Records.ZeroEndsMessage` | DuplicatedApps/Pods/nanopb/pb_decode.c:955-963 | a zero byte behind records ends the message there, and what follows is not looked at |
| `ForeignReader.ElementPayload` | DuplicatedApps/Pods/nanopb/pb_encode.c:675-707 | what is written for a value is a payload of the wire type in its header, by the numbers 0, 1, 2 and 5 |
| `ForeignReader.PackedIsOneRecord` | DuplicatedApps/Pods/nanopb/pb_encode.c:163-205 | a packable array is one record of wire type 2, with its entries as content |
| `ForeignReader.ForeignMessageSkipped` | DuplicatedApps/Pods/nanopb/pb_decode.c:966-995 | a receiver that has none of the tags skips the whole encoding of any normal message, and refuses it exactly when it requires a field of its own |
| `Records.ConcatenationMerges` | DuplicatedApps/Pods/nanopb/pb_decode.c:934-1082 | decoding a ++ b is decoding a and then b into the result, with the exact exception for fixed-count fields |
| `Records.DifferentFieldsIndependent` | DuplicatedApps/Pods/nanopb/pb_decode.c:997-1019 | records with different tags that share no oneof, and are not both fixed-count, are independent |
| `Records.RecordsCommute` | DuplicatedApps/Pods/nanopb/pb_decode.c:952-1030 | two independent records lead to the same loop state in either order, and both succeed |
| `Records.RecordsCommuteExactly` | DuplicatedApps/Pods/nanopb/pb_decode.c:952-1030 | records with different tags, not both fixed-count, reach the same state in either order exactly when they share no oneof |
| `Records.FixedRecordsCommuteExactly` | DuplicatedApps/Pods/nanopb/pb_decode.c:997-1019 | records of two fixed-count fields have the same outcome in either order exactly when neither field was being received before and the second record carries as many entries as its array has |
| `Records.OrderIndependent` | DuplicatedApps/Pods/nanopb/pb_decode.c:934-1082 | swapping two adjacent independent records changes neither the message nor the result |
| `Reordering.ReorderedRun` | DuplicatedApps/Pods/nanopb/pb_decode.c:952-1030 | any reordering of records in which only independent ones change places leads to the same loop state |
| `Reordering.ReorderingIsHarmless` | DuplicatedApps/Pods/nanopb/pb_decode.c:934-1082 | so any reordering that keeps the order within each field, each oneof and among fixed-count fields leaves message and result unchanged |
| `Records.PackedIsUnpacked` | DuplicatedApps/Pods/nanopb/pb_decode.c:424-464 | packed, split into packed records and one record per element give the same message; all are refused when they pass array_size |
| `Records.PiecesAppend` | DuplicatedApps/Pods/nanopb/pb_decode.c:424-464 | the elements, however packed, are appended to the array in order |
| `Records.PiecesOverwrite` | DuplicatedApps/Pods/nanopb/pb_decode.c:997-1019 | an array with a fixed count that is received again is overwritten from its first entry on, or from where its reception stands; too many elements are refused |
| `Records.EntryAppends` | DuplicatedApps/Pods/nanopb/pb_decode.c:454-464 | a record for one entry appends it, or is refused when the array is full |
| `Records.LastOneWins` | DuplicatedApps/Pods/nanopb/pb_decode.c:414-422 | of two records of a singular scalar the last wins |
| `Records.SubmessageMerges` | DuplicatedApps/Pods/nanopb/pb_decode.c:1525-1547 | a record of a singular submessage merges its content into what is there; another oneof member is replaced by defaults first |
| `Records.SubmessagesMerge` | DuplicatedApps/Pods/nanopb/pb_decode.c:1525-1547 | two records of a singular submessage are worth one record with both contents |
| `Counterexamples.UnionOrderMatters` | DuplicatedApps/Pods/nanopb/pb_decode.c:466-478 | two members of one oneof: the order decides which is left |
| `Counterexamples.SplitArrayOrderMatters` | DuplicatedApps/Pods/nanopb/pb_decode.c:997-1019 | an incomplete fixed-count array before another one is refused, behind it it is not |
| `Counterexamples.ReceivedBeforeOrderMatters` | DuplicatedApps/Pods/nanopb/pb_decode.c:997-1019 | an array that was begun before must be completed before another one |
| `Counterexamples.ConcatenationRefused` | DuplicatedApps/Pods/nanopb/pb_decode.c:997-1019 | a fixed-count array received whole, twice: each encoding is accepted, their concatenation is not |
| `RoundTrip.IntegerRoundTrip` | DuplicatedApps/Pods/nanopb/pb_decode.c:1334-1428 | every bool, int, uint and sint of every width comes back, using exactly its 1 to 10 bytes |
| `RoundTrip.FixedRoundTrip` | DuplicatedApps/Pods/nanopb/pb_decode.c:1430-1445 | fixed32 and fixed64 values come back |
| `RoundTrip.BlobRoundTrip` | DuplicatedApps/Pods/nanopb/pb_decode.c:1447-1523 | bytes, strings and fixed-length bytes that fit their field come back |
| `RoundTrip.ScalarRoundTrip` | DuplicatedApps/Pods/nanopb/pb_encode.c:769-910 | every typed scalar can be encoded and comes back |
| `RoundTrip.ZeroIsDefault` | DuplicatedApps/Pods/nanopb/pb_encode.c:240-337 | a field of a normal message that the zero check skips holds its default |
| `RoundTrip.FromEncodable` | DuplicatedApps/Pods/nanopb/pb_encode.c:528-550 | every normal message can be encoded |
| `RoundTrip.LongRefused` | DuplicatedApps/Pods/nanopb/pb_decode.c:372-385 | a length prefix from 2^32 on, below 2^63, opens no substream |
| `RoundTrip.MessageRoundTrip` | DuplicatedApps/Pods/nanopb/pb_decode.c:934-1082 | decoding the encoding into defaults gives the message if all lengths fit, and fails otherwise |
| `RoundTrip.RoundTrip` | DuplicatedApps/Pods/nanopb/pb_decode.c:1084-1096 | pb_decode of what pb_encode writes uses all bytes and gives back every normal message, into any struct, exactly when its lengths fit |
| `RoundTrip.SmallFits` | DuplicatedApps/Pods/nanopb/pb_encode.c:528-550 | a message of less than 4 GiB as a whole has lengths that fit |
| `Counterexamples.LongArrayIsLost` | DuplicatedApps/Pods/nanopb/pb_decode.c:372-385 | with 32-bit counts, a normal message that is encoded but not decoded: 2^29 packed eight-byte zeros |
| `TypeSafety.ScalarTyped` | DuplicatedApps/Pods/nanopb/pb_decode.c:1334-1570 | whatever the input, a decoded scalar is in the range of its field and inside its buffer |
| `TypeSafety.PackedTyped` | DuplicatedApps/Pods/nanopb/pb_decode.c:424-446 | a packed array never holds more than array_size entries |
| `TypeSafety.DefaultsTyped` | DuplicatedApps/Pods/nanopb/pb_decode.c:845-932 | defaults are well typed |
| `TypeSafety.NoInitTyped` | DuplicatedApps/Pods/nanopb/pb_decode.c:934-1082 | a successful decoding of any bytes into a well-typed struct leaves it well typed: ranges, counts, buffers and which-tags |
| `NormalForm.NoInitSettled` | DuplicatedApps/Pods/nanopb/pb_decode.c:934-1082 | decoding keeps absent optional fields at their defaults, at every depth |
| `Filling.RecordSplits` | DuplicatedApps/Pods/nanopb/pb_decode.c:952-1030 | the field loop takes the records of the input one by one, whatever was decoded before |
| `Filling.NoInitFrom` | DuplicatedApps/Pods/nanopb/pb_decode.c:934-1082 | merging an input into a struct adds its records to those the struct came from: entries, counts, presence and submessages are what the records deliver |
| `Filling.AcceptedFilled` | DuplicatedApps/Pods/nanopb/pb_decode.c:1032-1037 | the arrays of an accepted message are filled, at every depth, exactly when the records in the input do it |
| `Filling.FixedArrayExact` | DuplicatedApps/Pods/nanopb/pb_decode.c:997-1019 | after an accepted input a fixed-count array is full if a record of its field is in the input, and has no entries otherwise |
| `Filling.PlainIsFilled` | DuplicatedApps/Pods/nanopb/pb_decode.c:1000-1019 | a descriptor tree without fixed-count arrays and empty structs is filled by any input |
| `NormalForm.AcceptedIsNormal` | DuplicatedApps/Pods/nanopb/pb_decode.c:1084-1096 | whatever pb_decode accepts is in normal form, exactly when the input holds a record for every fixed-count array of each struct that is present, and none for a struct without fields |
| `NormalForm.PlainAcceptedIsNormal` | DuplicatedApps/Pods/nanopb/pb_decode.c:1084-1096 | for a descriptor tree without fixed-count arrays and empty structs, everything accepted is in normal form |
| `NormalForm.DecodingIsStable` | DuplicatedApps/Pods/nanopb/pb_decode.c:1084-1096 | if the input fills the struct, what was decoded is encoded; when that takes less than 2^63 bytes, decoding it gives the same message exactly when its lengths fit |
| `NormalForm.PlainDecodingIsStable` | DuplicatedApps/Pods/nanopb/pb_decode.c:1084-1096 | the same for every accepted input of a plain descriptor tree, when the lengths fit and the encoding takes less than 2^63 bytes |
| `Counterexamples.UnfilledArray` | DuplicatedApps/Pods/nanopb/pb_decode.c:1032-1037 | no input at all is accepted for a fixed-count array, and leaves it unfilled |
| `Counterexamples.EmptyStructWritten` | DuplicatedApps/Pods/nanopb/pb_decode.c:1084-1096 | a record with tag 0 is accepted for a struct without fields and leaves a byte in it |
| `Injectivity.VarintPrefixFree` | DuplicatedApps/Pods/nanopb/pb_encode.c:608-628 | no varint is the beginning of another |
| `Injectivity.FieldPrefixFree` | DuplicatedApps/Pods/nanopb/pb_encode.c:341-426 | from what a field writes, whatever later fields follow, it is known what it stores or that it is absent |
| `Injectivity.EncodingIsInjective` | DuplicatedApps/Pods/nanopb/pb_encode.c:528-550 | two normal messages with the same bytes are equal, whatever their size |
| `RequiredFields.SetSeen` | DuplicatedApps/Pods/nanopb/pb_decode.c:1021-1026 | sets the bit of one required field and no other |
| `RequiredFields.WordFull` | DuplicatedApps/Pods/nanopb/pb_decode.c:1061-1077 | a word equals the mask of n ones exactly when its n fields were seen |
| `RequiredFields.CountRequired` | DuplicatedApps/Pods/nanopb/pb_decode.c:1045-1055 | the number of required fields, from whatever position the iterator is in |
| `RequiredFields.AllSeen` | DuplicatedApps/Pods/nanopb/pb_decode.c:1057-1079 | the word-and-remainder test passes exactly when every tracked required field was seen |
| `RequiredFields.RequiredCheckExact` | DuplicatedApps/Pods/nanopb/pb_decode.c:1021-1079 | that is: exactly when the tag of every required field among the first 64 was found in the input |
| `RequiredFields.RequiredIndexCounts` | DuplicatedApps/Pods/nanopb/pb_common.c:74-79 | the index of a required field is the number of required fields before it |
| `RequiredFields.AcceptedExact` | DuplicatedApps/Pods/nanopb/pb_decode.c:1032-1081 | pb_decode_noinit accepts exactly when its records are accepted, the fixed-count array received last is full and each of the first 64 required fields was found |
| `InputStream.IStream.FromBuffer` | DuplicatedApps/Pods/nanopb/pb_decode.c:159-180 | the stream covers the whole buffer |
| `InputStream.IStream.Read` | DuplicatedApps/Pods/nanopb/pb_decode.c:102-137 | reads exactly count bytes, or fails without moving when fewer are left |
| `InputStream.IStream.ReadByte` | DuplicatedApps/Pods/nanopb/pb_decode.c:141-157 | reads one byte, or fails at the end |
| `InputStream.IStream.DecodeVarint32Eof` | DuplicatedApps/Pods/nanopb/pb_decode.c:187-247 | refines the 32-bit varint function; eof exactly on an empty stream |
| `InputStream.IStream.DecodeVarint32` | DuplicatedApps/Pods/nanopb/pb_decode.c:249-253 | refines the 32-bit varint function |
| `InputStream.IStream.DecodeVarint` | DuplicatedApps/Pods/nanopb/pb_decode.c:255-275 | refines the 64-bit varint function, with the tenth byte cut at 64 bits |
| `InputStream.IStream.DecodeTag` | DuplicatedApps/Pods/nanopb/pb_decode.c:298-319 | tag and wire type of a header; a zero ends the message |
| `InputStream.IStream.SkipVarint` | DuplicatedApps/Pods/nanopb/pb_decode.c:278-287 | moves past one varint of any length |
| `InputStream.IStream.SkipField` | DuplicatedApps/Pods/nanopb/pb_decode.c:321-334 | moves past one payload of the wire type |
| `InputStream.IStream.MakeSubstream` | DuplicatedApps/Pods/nanopb/pb_decode.c:372-385 | opens the length-delimited region; offset plus bytes left is conserved between parent and substream |
| `InputStream.IStream.CloseSubstream` | DuplicatedApps/Pods/nanopb/pb_decode.c:387-400 | the parent ends exactly past the region, however little the body read |
| `Decoder.DecInteger` | DuplicatedApps/Pods/nanopb/pb_decode.c:1334-1428 | refines the integer decoders, range errors included; what they accept and return is in `Scalars.UnsignedExact`, `SignedExact`, `ZigZagExact` and `BoolExact` |
| `Decoder.DecFixed32` | DuplicatedApps/Pods/nanopb/pb_decode.c:1299-1312 | joining four shifted bytes by | reads a little-endian number |
| `Decoder.DecFixed64` | DuplicatedApps/Pods/nanopb/pb_decode.c:1314-1331 | joining eight shifted bytes by | reads a little-endian number |
| `Decoder.DecBlob` | DuplicatedApps/Pods/nanopb/pb_decode.c:1447-1570 | refines the decoders of bytes, strings and fixed-length bytes, size errors included |
| `Decoder.SetFieldToDefault` | DuplicatedApps/Pods/nanopb/pb_decode.c:845-915 | puts the default of the field in its slot and touches no other slot |
| `Decoder.SetToDefaults` | DuplicatedApps/Pods/nanopb/pb_decode.c:917-932 | overwrites exactly the described slots with their defaults |
| `Decoder.DecElement` | DuplicatedApps/Pods/nanopb/pb_decode.c:1525-1547 | refines decoding of one element; a submessage is decoded in its substream and the parent moves past it |
| `Decoder.DecPacked` | DuplicatedApps/Pods/nanopb/pb_decode.c:424-446 | the loop over a packed record stores its entries in order, within the array |
| `Decoder.DecodeStaticField` | DuplicatedApps/Pods/nanopb/pb_decode.c:406-483 | refines the repetition rules: required, optional, repeated and oneof |
| `Decoder.DecodeFound` | DuplicatedApps/Pods/nanopb/pb_decode.c:997-1030 | refines the treatment of a found field: fixed-count bookkeeping, bitmap, payload |
| `Decoder.DecodeTurn` | DuplicatedApps/Pods/nanopb/pb_decode.c:952-1030 | refines one turn of the field loop from any iterator position |
| `Decoder.CheckComplete` | DuplicatedApps/Pods/nanopb/pb_decode.c:1032-1081 | passes exactly when the last fixed-count field is full and no tracked required field is missing |
| `Decoder.MergeInto` | DuplicatedApps/Pods/nanopb/pb_decode.c:934-1082 | pb_decode_noinit computes the merge function on stream and struct |
| `Decoder.DecodeInto` | DuplicatedApps/Pods/nanopb/pb_decode.c:1084-1096 | pb_decode computes the decoding function on stream and struct |
| `OutputStream.OStream.FromBuffer` | DuplicatedApps/Pods/nanopb/pb_encode.c:86-101 | an empty stream limited to the buffer |
| `OutputStream.OStream.Limited` | DuplicatedApps/Pods/nanopb/pb_encode.c:743-751 | a substream at the place of its parent that cannot write more than its size |
| `OutputStream.OStream.BufWrite` | DuplicatedApps/Pods/nanopb/pb_encode.c:74-84 | copies the bytes to the current place and nowhere else |
| `OutputStream.OStream.Write` | DuplicatedApps/Pods/nanopb/pb_encode.c:103-124 | all the bytes or none, exactly when they fit; a sizing stream only counts |
| `Encoder.EncodeVarint` | DuplicatedApps/Pods/nanopb/pb_encode.c:608-628 | writes the varint |
| `Encoder.GroupsOf` | DuplicatedApps/Pods/nanopb/pb_encode.c:619-627 | the loop over groups fills the local buffer with the varint and clears the last mark |
| `Encoder.EncodeSvarint` | DuplicatedApps/Pods/nanopb/pb_encode.c:630-639 | writes the varint of the zigzag form |
| `Encoder.EncodeFixed32` | DuplicatedApps/Pods/nanopb/pb_encode.c:641-651 | writes four bytes, low byte first |
| `Encoder.EncodeFixed64` | DuplicatedApps/Pods/nanopb/pb_encode.c:653-667 | writes eight bytes, low byte first |
| `Encoder.EncodeTag` | DuplicatedApps/Pods/nanopb/pb_encode.c:669-673 | writes the header |
| `Encoder.EncodeString` | DuplicatedApps/Pods/nanopb/pb_encode.c:709-715 | writes length and bytes |
| `Encoder.NormalInMemory` | DuplicatedApps/Pods/nanopb/pb_encode.c:528-550 | every normal message whose encoding is below 2^63 bytes meets the precondition of the encoder |
| `Encoder.EncScalar` | DuplicatedApps/Pods/nanopb/pb_encode.c:769-910 | refines the scalar encoders, size errors included |
| `Encoder.EncScalars` | DuplicatedApps/Pods/nanopb/pb_encode.c:178-204 | the loop over packed entries, for sizing and for writing |
| `Encoder.EncPacked` | DuplicatedApps/Pods/nanopb/pb_encode.c:163-205 | the computed size of a packed array is the number of bytes then written |
| `Encoder.FixedSize` | DuplicatedApps/Pods/nanopb/pb_encode.c:170-177 | count times width is the size of a packed fixed-width array |
| `Encoder.EncElement` | DuplicatedApps/Pods/nanopb/pb_encode.c:899-905 | refines the encoding of one element |
| `Encoder.EncodeSubmessage` | DuplicatedApps/Pods/nanopb/pb_encode.c:717-765 | sizing pass and writing pass agree at every depth; the size-changed error is never reached |
| `Encoder.EncRecord` | DuplicatedApps/Pods/nanopb/pb_encode.c:675-707 | header and value of one record; that the header announces the shape of the value is `ForeignReader.ElementPayload` |
| `Encoder.EncRecords` | DuplicatedApps/Pods/nanopb/pb_encode.c:208-233 | one record for each entry |
| `Encoder.EncArray` | DuplicatedApps/Pods/nanopb/pb_encode.c:147-236 | refines the encoding of arrays: empty, too long, packed, unpacked |
| `Encoder.EncField` | DuplicatedApps/Pods/nanopb/pb_encode.c:341-426 | refines the repetition rules of the encoder |
| `Encoder.EncodeInto` | DuplicatedApps/Pods/nanopb/pb_encode.c:528-550 | pb_encode writes the encoding if there is one and it fits; otherwise it fails and nothing beyond the limit is touched |
| `Encoder.EncodedSize` | DuplicatedApps/Pods/nanopb/pb_encode.c:567-576 | the size is the length of the encoding |
| `Encoder.EncodeToBuffer` | DuplicatedApps/Pods/nanopb/pb_encode.c:528-550 | succeeds exactly when sizing succeeds and the size fits the buffer; the buffer then starts with the encoding and the rest is unchanged |
| `Authentication.AuthenticationInterceptor.constructor` | DuplicatedApps/Pods/Alamofire/Source/AuthenticationInterceptor.swift:241-246 | the initial state |
| `Authentication.AuthenticationInterceptor.AdaptRegion` | DuplicatedApps/Pods/Alamofire/Source/AuthenticationInterceptor.swift:250-274 | queue the operation, refuse it, start a refresh or hand out the credential; a deferred operation is added to the calls that wait or are dispatched, and no other call moves in or out |
| `Authentication.AuthenticationInterceptor.RetryRegion` | DuplicatedApps/Pods/Alamofire/Source/AuthenticationInterceptor.swift:319-325 | queue the completion and start a refresh, with the credential read earlier, unless one is outstanding; exactly this call is added to those that wait or are dispatched |
| `Authentication.AuthenticationInterceptor.Refresh` | DuplicatedApps/Pods/Alamofire/Source/AuthenticationInterceptor.swift:330-353 | start a refresh of this credential with a timestamp, or drain the queues with an error when there were too many; no call is lost either way, and over runs `Refreshing.RefreshesAreAskedFor` says whose refresh it is |
| `Authentication.AuthenticationInterceptor.IsRefreshExcessive` | DuplicatedApps/Pods/Alamofire/Source/AuthenticationInterceptor.swift:355-368 | the count of timestamps inside the window has reached the limit |
| `Authentication.AuthenticationInterceptor.HandleRefreshSuccess` | DuplicatedApps/Pods/Alamofire/Source/AuthenticationInterceptor.swift:370-386 | the credential is replaced, refreshing ends, and exactly the waiters, in order, go into one new block; nobody waits any more |
| `Authentication.AuthenticationInterceptor.HandleRefreshFailure` | DuplicatedApps/Pods/Alamofire/Source/AuthenticationInterceptor.swift:388-402 | refreshing ends, and exactly the waiters, in order, go into one new block with the error; nobody waits any more |
| `Authentication.StepKeeps` | DuplicatedApps/Pods/Alamofire/Source/AuthenticationInterceptor.swift:250-402 | every step keeps: each call in one place, one outstanding refresh exactly when isRefreshing, waiters only then |
| `Authentication.RunKeeps` | DuplicatedApps/Pods/Alamofire/Source/AuthenticationInterceptor.swift:250-402 | so does every run |
| `Authentication.ExactlyOnePlace` | DuplicatedApps/Pods/Alamofire/Source/AuthenticationInterceptor.swift:250-402 | in every reachable state each call is in exactly one of the queues, a dispatched block, a thread's hands, or delivered |
| `Authentication.AllDelivered` | DuplicatedApps/Pods/Alamofire/Source/AuthenticationInterceptor.swift:250-402 | when nothing is under way every call has been completed exactly once |
| `Authentication.WaitersAreServed` | DuplicatedApps/Pods/Alamofire/Source/AuthenticationInterceptor.swift:330-353 | while somebody waits, a refresh is dispatched or its outcome is awaited |
| `Authentication.OutcomeReleasesAll` | DuplicatedApps/Pods/Alamofire/Source/AuthenticationInterceptor.swift:370-402 | the outcome of a refresh moves every waiter, in order, into one block, and nobody waits any more |
| `Authentication.Progress` | DuplicatedApps/Pods/Alamofire/Source/AuthenticationInterceptor.swift:250-402 | in every state that is not at rest something can happen that brings it closer to rest |
| `Authentication.EveryCallCanComplete` | DuplicatedApps/Pods/Alamofire/Source/AuthenticationInterceptor.swift:250-402 | every run can be continued, without new calls, until every call that was made is completed exactly once |
| `Authentication.CalmLowers` | DuplicatedApps/Pods/Alamofire/Source/AuthenticationInterceptor.swift:250-402 | every event other than a new call, a change of the credential or an operation that asks for another refresh when it is adapted again leaves fewer refreshes to come, or as many and less work |
| `Authentication.ScheduleEnds` | DuplicatedApps/Pods/Alamofire/Source/AuthenticationInterceptor.swift:250-402 | no schedule of such events goes on for ever, in whatever order threads, queue and authenticator act |
| `Authentication.EndOfScheduleDelivers` | DuplicatedApps/Pods/Alamofire/Source/AuthenticationInterceptor.swift:250-402 | where such a schedule ends because nothing more can happen, every call was completed exactly once |
| `Authentication.SlidingWindow` | DuplicatedApps/Pods/Alamofire/Source/AuthenticationInterceptor.swift:355-368 | over a whole run any closed interval as long as the window holds at most max(0, maximumAttempts) started refreshes |
| `Authentication.OutcomesHaveReasons` | DuplicatedApps/Pods/Alamofire/Source/AuthenticationInterceptor.swift:250-402 | each delivered outcome has its reason at an event of the run, for that very call: the credential was current, its own request was outdated or it waited when a refresh succeeded, this call found no credential, this call's refresh was refused with the window full, it waited when the refresh failed |
| `Refreshing.RefreshesAreAskedFor` | DuplicatedApps/Pods/Alamofire/Source/AuthenticationInterceptor.swift:330-353 | over any run, the credentials handed to the authenticator or on their way there, with their timestamps, are one by one those for which an event asked with room in the window: the current one when an operation that requires a refresh is adapted, the one that was compared when a retry finds its request authenticated with it |
| `Refreshing.HandedHasReason` | DuplicatedApps/Pods/Alamofire/Source/AuthenticationInterceptor.swift:341-342 | each credential that reached the authenticator has such an event, at whose time its timestamp was taken |
| `Refreshing.ComparedWasCurrent` | DuplicatedApps/Pods/Alamofire/Source/AuthenticationInterceptor.swift:306-316 | a retry compares with, and refreshes, the credential that was current when it was called after an authentication failure |
| `Refreshing.CurrentIsLatest` | DuplicatedApps/Pods/Alamofire/Source/AuthenticationInterceptor.swift:370-371 | the current credential is the last one that was set or came out of a refresh, and otherwise the first one |
| `Refreshing.WaitersInOrder` | DuplicatedApps/Pods/Alamofire/Source/AuthenticationInterceptor.swift:250-402 | every step keeps the order of those who wait, adds at the end, and releases all of them in that order into one block: with a retry after a refresh, and otherwise with the error of the refresh or the refusal |
| `Refreshing.BlockTells` | DuplicatedApps/Pods/Alamofire/Source/AuthenticationInterceptor.swift:383-402 | a block tells operations before completions, in order, each exactly once, and is gone |
| `Multipart.Pieces` | DuplicatedApps/Pods/Alamofire/Source/MultipartFormData.swift:409-422 | the pieces that a stream hands out, none empty and none above 1024 bytes, make up the body |
| `Authentication.RefreshesCounted` | DuplicatedApps/Pods/Alamofire/Source/AuthenticationInterceptor.swift:330-353 | there is one timestamp for each started refresh: outcomes so far, and one more while one is outstanding |
| `Multipart.EncodeBodyStream` | DuplicatedApps/Pods/Alamofire/Source/MultipartFormData.swift:402-431 | all the bytes of the stream whatever the sizes of the reads, or an error: the stream's own, or the wrong length with both lengths, exactly when a reliable stream does not deliver the declared one |
| `Multipart.EncodePart` | DuplicatedApps/Pods/Alamofire/Source/MultipartFormData.swift:375-392 | boundary, headers, body and final boundary of one part, from which `Receiving.PartExact` reads the headers and the body; or the error of reading the body |
| `Multipart.OfferExact` | DuplicatedApps/Pods/Alamofire/Source/MultipartFormData.swift:493-509 | a buffer is written whole exactly when no query for space is refused, and otherwise a prefix of it |
| `Multipart.OfferAllExact` | DuplicatedApps/Pods/Alamofire/Source/MultipartFormData.swift:435-509 | a sequence of buffers is written whole exactly when no query is refused, and otherwise less is written |
| `Multipart.PartBuffersEncode` | DuplicatedApps/Pods/Alamofire/Source/MultipartFormData.swift:375-450 | the buffers that writing a part offers make up the encoding of the part |
| `Multipart.FormBuffersEncode` | DuplicatedApps/Pods/Alamofire/Source/MultipartFormData.swift:322-371 | the buffers that writing the form offers make up what encode returns |
| `Multipart.WriteBuffer` | DuplicatedApps/Pods/Alamofire/Source/MultipartFormData.swift:493-509 | whole exactly when no query for space was refused, a prefix in any case, and no error for a refusal; this is what the stream's answers make of the buffer |
| `Multipart.WriteBodyStream` | DuplicatedApps/Pods/Alamofire/Source/MultipartFormData.swift:452-476 | every piece is offered, whatever happened to the one before; the body is copied exactly when no query was refused |
| `Multipart.WritePart` | DuplicatedApps/Pods/Alamofire/Source/MultipartFormData.swift:435-440 | the bytes that encoding the part in memory gives, exactly when no query was refused; otherwise what the stream's answers leave of its buffers |
| `Multipart.HoleInTheMiddle` | DuplicatedApps/Pods/Alamofire/Source/MultipartFormData.swift:452-509 | a run that succeeds having written the first and the third byte of three |
| `Multipart.MultipartFormData.Append` | DuplicatedApps/Pods/Alamofire/Source/MultipartFormData.swift:307-310 | adds a part without flags and changes no other; a stream that is already in the form has nothing left for it |
| `Multipart.MultipartFormData.SetBodyPartError` | DuplicatedApps/Pods/Alamofire/Source/MultipartFormData.swift:539-542 | only the first error is kept |
| `Multipart.MultipartFormData.MarkEnds` | DuplicatedApps/Pods/Alamofire/Source/MultipartFormData.swift:329-330 | flags the first and the last part and keeps the flags that are set |
| `Multipart.MultipartFormData.Encode` | DuplicatedApps/Pods/Alamofire/Source/MultipartFormData.swift:322-338 | the encoding of the marked parts; with reliable streams it succeeds exactly when there is no stored error and every length is the declared one; otherwise the error is the stored one, a failed read, or the lengths of the first part that does not deliver what was declared |
| `Multipart.MultipartFormData.WriteEncodedData` | DuplicatedApps/Pods/Alamofire/Source/MultipartFormData.swift:347-371 | a successful run wrote exactly the bytes that encode returns, whatever the sizes of reads and writes, if and only if no query for space was refused; reliable streams cannot make it fail, and an error names the stream that failed |
| `Framing.FirstIndex` | DuplicatedApps/Pods/Alamofire/Source/MultipartFormData.swift:64-77 | the first occurrence of a pattern, and none if there is none |
| `Framing.FirstAfterClean` | DuplicatedApps/Pods/Alamofire/Source/MultipartFormData.swift:64-77 | with a CR-free boundary no delimiter is found across the end of text that holds none |
| `Framing.EncodingIsFramed` | DuplicatedApps/Pods/Alamofire/Source/MultipartFormData.swift:322-338 | the encoding is the sequence of its parts, each behind a delimiter line |
| `Framing.SplitRecovers` | DuplicatedApps/Pods/Alamofire/Source/MultipartFormData.swift:322-338 | splitting the encoding gives back the octets of the parts exactly when no part holds a delimiter and only the last is final |
| `Framing.FreshSplitRecovers` | DuplicatedApps/Pods/Alamofire/Source/MultipartFormData.swift:322-338 | for a form that was not encoded before, exactly when no part holds a delimiter |
| `Framing.BoundaryForms` | DuplicatedApps/Pods/Alamofire/Source/MultipartFormData.swift:64-77 | the three forms of a boundary, octet by octet |
| `Receiving.PartExact` | DuplicatedApps/Pods/Alamofire/Source/MultipartFormData.swift:394-400 | reading the lines up to the first empty one, each split at its first colon and space, gives these headers and this body exactly when the text is what is written for them and every header is one line with such a name |
| `Receiving.FormReceived` | DuplicatedApps/Pods/Alamofire/Source/MultipartFormData.swift:322-400 | a receiver that splits the form and reads each part gets back the headers and bodies, exactly when no part holds a delimiter, only the last is final, and every header can be read |
| `Receiving.FreshFormReceived` | DuplicatedApps/Pods/Alamofire/Source/MultipartFormData.swift:322-400 | for a form that was not encoded before, exactly when no part holds a delimiter and every header can be read |
| `Counterexamples.BreakInHeader` | DuplicatedApps/Pods/Alamofire/Source/MultipartFormData.swift:394-400 | a line break in the value of a header is not received as it was put in |
| `Counterexamples.DelimiterInBody` | DuplicatedApps/Pods/Alamofire/Source/MultipartFormData.swift:375-392 | a form whose body is a delimiter is not split into its part |
| `Counterexamples.StaleFinalBoundary` | DuplicatedApps/Pods/Alamofire/Source/MultipartFormData.swift:329-330 | a form of one part that is written, appended to and written again is not split into its two parts |

## Left out

- Callbacks, extensions, pointer fields and the malloc and release paths: they run user code or manage raw memory.
- Streams with a callback of the user: input is a buffer, so reading with no destination, in steps of 16 bytes, is a skip.
- The build variants without 64-bit integers, with buffers only or with unpacked arrays, and the error messages.
- The content of the struct after a failed decoding, of a union that holds no member, and of the entries of a
  fixed-count array before they arrive: indeterminate in the code, absent here.
- SetFieldToDefault: the count that is zeroed at the data of a fixed-count array is not represented, since the
  entries are indeterminate then anyway; where it does not fit the array, it is written past the array's end.
- Nested structs are copied out of their parent and back, not decoded through a pointer into it.
- `size_t` overflow: lengths are natural numbers. `EncodeInto` requires that no computed length reaches 2^64.
- RoundTrip: states the outcome for encodings below 2^63 bytes, more than any buffer can hold.
- What lies behind the NUL of a C string; the value of a string field is what precedes the NUL.
- Descriptors with a zero data size or array size, repeated tags or tags from 2^29 on: the generator makes none.
- PackedIsUnpacked: packed pieces are shorter than 4 GiB, since longer ones cannot carry a length.
- `uint_fast8_t` is taken to be eight bits wide.
- Varint32Exact: strings of more than 37 bytes are not characterised; there the eight-bit position of the code
  wraps around. No encoder writes more than ten.
- HeaderExact: the same, for headers.
- The byte that tag 0 on an empty descriptor makes the decoder write is a slot at address 0.
- Whether a credential requires a refresh, whether a request was authenticated with it and what the
  authenticator answers are nondeterministic; each refresh completes once. The `Request` pipeline, which takes
  its lock twice in one logical step, is not part of this model.
- The credential being refreshed may be stale: `retry` reads it before it takes the lock again.
- Applying a credential to a request: an adapt operation is completed with the credential that was current.
- Opening an input stream that was read before does not rewind it.
- Files, MIME types, random boundaries and the checks of file URLs; headers are byte strings.
- Output streams that accept an offer of bytes but take none of them: the loop would not end.
- The application's own views, its Firebase calls and the remaining helpers of the libraries: no state worth a model.
