# ardb key codec, modelled in Dafny

This project models the storage-key codec of ardb (`src/codec.cpp`). It
covers two classes.

- `Data` is a tagged scalar. It holds nothing, a 64-bit integer, or text
  that is either borrowed (`E_CSTR`) or owned (`E_SDS`). It has setters,
  `Clone`, `Compare`, `ToString`, and a wire form of its own. That form is
  a 32-bit header word `(len << 3) + encoding`, then a varint for an
  integer or `len` raw bytes for text.
- `KeyObject` is a key made of a record kind (`type`), a database id and
  three `Data` slots. Its wire form is a header word `(db << 8) + type`,
  then the one, two or three slots that the kind calls for.

The model has three layers.

- **Values and pure semantics**:
  - `Scalars`, with the `Scalar` datatype and the queries `StringLength`,
    `GetInt64`, `CStr`, `ToString` and `StringValue`;
  - `ScalarOrder`, with `Compare`;
  - `ScalarWire` and `KeyCodec`, the wire forms. Here `Wire` and
    `KeyWire` say what the encoders append, and `ParseScalar`,
    `ParseKeyBody` and `ParseKey` say what the decoders consume, as a
    value or an error plus the number of bytes used.
- **Objects updated in place**: `DataObjects.Data` and
  `KeyObjects.KeyObject` are classes whose fields mirror the source.
  - Each method is proved against the pure layer. For example,
    `Data.Decode` leaves exactly the bytes after
    `ParseScalar(old bytes).used`, succeeds exactly when `ParseScalar`
    does, and holds the parsed value.
  - The round-trip lemmas are then proved about the pure layer.
- **Support**:
  - `Bytes`: little-endian words, with round trips.
  - `Decimal`: `digits10`, `ll2string` and `string2ll`. Each int64 is
    proved to render to text that parses back to it. Every accepted
    string is proved to be the canonical rendering of its value.
  - `VarInt`: the varint primitive.
  - `Buffers`: the buffer.

Modelling choices:

- The buffer is modelled as the sequence of bytes written and not yet
  read. A read drops bytes from its front, and the read cursor is what
  has been dropped.
- Header words are written in native byte order; the model fixes little
  endian.
- The varint helper is not part of this model. The model fixes a
  self-terminating layout: zigzag, then 7 bits per byte.
- The decode chain `elements[0].Decode(buf) && elements[1].Decode(buf) && …`
  is rendered as the recursive `DecodeSlots`/`DecodeAfter` pair.
- Encoding's switch over the kinds is rendered as the recursive
  `EncodeSlots`.
- Record kind numbers are defined in a header that is not part of this
  model. The model fixes `KEY_STRING = 1` … `KEY_TTL_SORT = 8`; only
  which kinds carry one, two or three slots matters.

At eight places the code departs from its evident intent. Wherever the
model covers such a place, it follows the intent and says so in a comment
at that site. For five of them, the behaviour as written is also
modelled, in module `AsWritten`, each with a counterexample (see
"## Findings"). The other three are described under "## Left out": the
copy in `Clone` (src/codec.cpp:178), the length tie in `Compare`
(src/codec.cpp:225), and `operator=` (src/codec.cpp:63-66), which copies
nothing.

## Model

| member | source | states |
|---|---|---|
| Scalars.Encoding | src/codec.cpp:37-40 | the tag is below 8, never E_FLOAT64, and 0 exactly for an unset value |
| Scalars.IsInteger | src/codec.cpp:228-231 | true exactly for a value holding an integer |
| Scalars.StringLength | src/codec.cpp:232-235 | `len` is the byte count of text, at least 1 for an integer, 0 when unset |
| Scalars.LengthIsRendering | src/codec.cpp:150-158 | `len` is always the length of what ToString renders |
| Scalars.GetInt64 | src/codec.cpp:159-167 | the integer held, whose decimal form is what ToString renders; 0 for any other value |
| Scalars.CStr | src/codec.cpp:245-264 | bytes exactly for CSTR/SDS values, and they are the text that ToString renders, `len` long; none for an integer or unset value |
| Scalars.ToString | src/codec.cpp:265-287 | an integer renders to text that string2ll parses back to it, of length `len`; text renders to its bytes; unset leaves the output unchanged |
| Scalars.StringValue | src/codec.cpp:137-149 | an integer exactly when the parse is asked for and s is the decimal form of an int64, holding that value; otherwise s as borrowed text; either way it renders back to s |
| Decimal.Digits10 | src/codec.cpp:155 | at least one digit, and exactly one for n below 10 |
| Decimal.Digits10Exact | src/codec.cpp:155 | n has Digits10(n) digits: it lies below 10^Digits10(n), and at or above the power of ten one lower when it has more than one digit |
| Decimal.DecimalLength | src/codec.cpp:155-157 | the length of the decimal form of v: 1 exactly for 0 to 9, and at least 2 for a negative v; Ll2String has this length, and LengthIsRendering ties it to `len` |
| Decimal.Ll2String | src/codec.cpp:272 | the decimal form of v is DecimalLength(v) long and starts with '-' exactly when v is negative; String2llRendered parses it back to v |
| Decimal.String2ll | src/codec.cpp:140 | an accepted string is non-empty and its value is negative exactly when it starts with '-'; String2llCanonical and String2llShort say which strings it accepts |
| Decimal.DigitsOf | src/codec.cpp:155 | digits10(n) digits, all decimal, with a leading zero only for 0 |
| Decimal.DigitsValueOfDigits | src/codec.cpp:155 | reading back the digits of n gives n |
| Decimal.DigitsOfValue | src/codec.cpp:140 | a digit string without a leading zero is the rendering of its value |
| Decimal.String2llRendered | src/codec.cpp:272 | string2ll accepts ll2string(v) and returns v |
| Decimal.String2llCanonical | src/codec.cpp:140 | every string string2ll accepts is ll2string of the value it returns |
| Decimal.String2llShort | src/codec.cpp:140 | string2ll accepts nothing longer than 20 bytes, so the 21-byte guard never decides |
| Decimal.Digits10Bound | src/codec.cpp:155 | a number below 10^k has at most k digits |
| VarInt.VarUintRoundTrip | src/codec.cpp:77 | a varint is read back whole, and reading stops at its last byte |
| VarInt.VarInt64RoundTrip | src/codec.cpp:109 | ReadVarInt64 returns what WriteVarInt64 wrote, using exactly its bytes |
| VarInt.VarUintTruncated | src/codec.cpp:109-112 | every proper prefix of a varint is rejected |
| VarInt.VarInt64Truncated | src/codec.cpp:109-112 | every proper prefix of an int64 varint is rejected |
| VarInt.VarInt64Length | src/codec.cpp:77 | an int64 varint takes 1 to 10 bytes |
| Bytes.LeRoundTrip | src/codec.cpp:72 | a word written as n bytes reads back unchanged |
| Bytes.U32RoundTrip | src/codec.cpp:96 | a 32-bit header word read back is the word written |
| Bytes.U32BytesOf | src/codec.cpp:96 | every 4 bytes are the encoding of the word they read as |
| ScalarOrder.MemCmp | src/codec.cpp:216 | memcmp's sign over n bytes is 0 exactly when those bytes agree |
| ScalarOrder.MemCmpIsLex | src/codec.cpp:216-225 | a nonzero memcmp is the lexicographic order; a zero one defers to what follows |
| ScalarOrder.CompareBytes | src/codec.cpp:201-225 | memcmp over the shorter length and then the shorter value first is exactly the lexicographic order |
| ScalarOrder.Compare | src/codec.cpp:182-226 | the result is -1, 0 or 1, and with alpha_cmp or two non-integers it is the lexicographic order of the renderings |
| ScalarOrder.NumericMode | src/codec.cpp:185-199 | without alpha_cmp two integers compare by value (below and equal, both ways), and an integer sorts before any non-integer |
| ScalarOrder.LexCompareEqual | src/codec.cpp:216-225 | only equal byte strings compare equal |
| ScalarOrder.LexCompareTransitive | src/codec.cpp:216-225 | the byte order is transitive |
| ScalarOrder.CompareReflexive | src/codec.cpp:182-226 | every value compares equal to itself, in both modes |
| ScalarOrder.CompareAntisymmetric | src/codec.cpp:182-226 | swapping the operands negates the result, in both modes |
| ScalarOrder.CompareTransitive | src/codec.cpp:182-226 | Compare is transitive in both modes |
| ScalarOrder.CompareEqualMeansSameText | src/codec.cpp:201-225 | in text mode Compare gives 0 exactly when the renderings are equal |
| ScalarWire.PackDataHeader | src/codec.cpp:70-71 | the 32-bit header keeps the length modulo 2^29 above the 3 tag bits |
| ScalarWire.Wire | src/codec.cpp:68-92 | four header bytes, then the varint of an integer, the bytes of text, or nothing for an unset value; WireHeader and ScalarRoundTrip tie it to ParseScalar |
| ScalarWire.DataHeaderFields | src/codec.cpp:70-71 | unpacking the header gives back the tag and the length modulo 2^29, so every length below 2^29 unchanged |
| ScalarWire.Decoded | src/codec.cpp:116-128 | decoding keeps the bytes and length of text and retags it as borrowed; other values are unchanged |
| ScalarWire.ParseScalar | src/codec.cpp:93-135 | decoding never reads past the end; it fails as truncated having consumed nothing exactly when fewer than 4 bytes are given; a success is set and not owned, and for text it consumes the header and exactly `len` bytes |
| ScalarWire.WireHeader | src/codec.cpp:100-101 | the first word of a value's wire form unpacks to its tag and length |
| ScalarWire.ScalarRoundTrip | src/codec.cpp:68-135 | decoding what Encode wrote, whatever follows it, gives the value back (text as borrowed) and consumes exactly its bytes |
| ScalarWire.UnsetNotDecodable | src/codec.cpp:87-90 | an unset value writes a bare header that Decode rejects after the header |
| ScalarWire.ScalarTruncated | src/codec.cpp:96-121 | an encoding cut short at any byte is rejected as truncated |
| Buffers.Buffer.ReadableBytes | src/codec.cpp:119 | the number of bytes left to read |
| Buffers.Buffer.Write | src/codec.cpp:72 | the bytes are appended after those not yet read |
| Buffers.Buffer.Read | src/codec.cpp:96 | either exactly the next n bytes are taken, or none when fewer are left |
| Buffers.Buffer.WriteVarInt64 | src/codec.cpp:77 | the varint of v is appended |
| Buffers.Buffer.ReadVarInt64 | src/codec.cpp:109 | one varint is taken and its value returned; on failure nothing is consumed |
| DataObjects.Data.constructor | src/codec.cpp:42-46 | a new Data is unset |
| DataObjects.Data.FromString | src/codec.cpp:47-51 | a Data built from a string holds StringValue of it |
| DataObjects.Data.Copy | src/codec.cpp:57-61 | the copy holds the same value as the original |
| DataObjects.Data.Clear | src/codec.cpp:236-244 | tag and length are reset, so the value is unset; the payload fields are untouched |
| DataObjects.Data.SetInt64 | src/codec.cpp:150-158 | holds the integer v, with `len` the digit count plus one for a minus sign, which is the length of its decimal form |
| DataObjects.Data.SetString | src/codec.cpp:137-149 | holds StringValue(s, flag), and text keeps the length of s |
| DataObjects.Data.Clone | src/codec.cpp:169-181 | holds the other's value; cloning from itself leaves it unset, because Clear runs first |
| DataObjects.Data.Encode | src/codec.cpp:68-92 | appends exactly the wire form of the value held |
| DataObjects.Data.Decode | src/codec.cpp:93-135 | consumes what ParseScalar consumes, succeeds exactly when it does and then holds its value, and otherwise keeps the old value |
| KeyCodec.SlotCount | src/codec.cpp:294-323 | one slot for KEY_STRING; two for the hash, list, set, zset and ttl-data kinds; three for KEY_TTL_SORT; none otherwise |
| KeyCodec.PackKeyHeader | src/codec.cpp:291-292 | the 32-bit header keeps the id modulo 2^24 above the 8 kind bits |
| KeyCodec.KeyWire | src/codec.cpp:289-325 | a header word plus at least 4 bytes per slot the kind calls for, and the header alone for an unknown kind; KeyWireSplit and KeyRoundTrip tie it to ParseKey |
| KeyCodec.KeyHeaderFields | src/codec.cpp:291-292 | unpacking the key header gives back the kind and the id modulo 2^24, so every id below 2^24 unchanged |
| KeyCodec.ParseSlots | src/codec.cpp:339-364 | reading n values in a row never reads past the end, and a success yields n values |
| KeyCodec.ParseKeyBody | src/codec.cpp:335-370 | after the header, a success has the kind and id read and as many elements as the kind calls for; an unknown kind fails |
| KeyCodec.KeyBodySlots | src/codec.cpp:335-365 | for a known kind the switch is exactly the read of that many values |
| KeyCodec.ParseKey | src/codec.cpp:326-374 | decoding never reads past the end; it fails as truncated having consumed nothing exactly when fewer than 4 bytes are given; a success has an 8-bit kind, an id below 2^24 and the slots of its kind |
| KeyCodec.KeyWireHeader | src/codec.cpp:333-334 | the first word of a key's wire form unpacks to its kind and id |
| KeyCodec.SlotsFirstFails | src/codec.cpp:352 | when the first value fails, the whole read fails at the same point |
| KeyCodec.SlotsFirstDone | src/codec.cpp:352 | when the first value decodes, the read continues with the rest, one value longer and that many bytes further on |
| KeyCodec.SlotsStep | src/codec.cpp:352 | a read of n values ends where the n - 1 values after the first end, and succeeds as they do |
| KeyCodec.SlotsRoundTrip | src/codec.cpp:298-316 | encoded values written one after another decode back in order, using exactly their bytes |
| KeyCodec.KeyWireSplit | src/codec.cpp:289-325 | a key's wire form is its header word followed by its elements' wire forms |
| KeyCodec.KeyRoundTrip | src/codec.cpp:289-374 | decoding what KeyObject::Encode wrote gives back the kind, the id and each element the kind calls for, and consumes exactly its bytes |
| KeyCodec.SlotsTruncated | src/codec.cpp:339-364 | encoded values written one after another and cut short at any byte fail as truncated |
| KeyCodec.KeyTruncated | src/codec.cpp:326-374 | a key's wire form cut short at any byte fails as truncated |
| KeyCodec.UnknownKindRejected | src/codec.cpp:319-322 | a key of unknown kind is written as a bare header that Decode rejects |
| KeyObjects.KeyObject.Encode | src/codec.cpp:289-325 | appends exactly KeyWire of the kind, the id and the slots |
| KeyObjects.KeyObject.EncodeSlots | src/codec.cpp:294-323 | appends the wire forms of slots i to n - 1, in order |
| KeyObjects.KeyObject.DecodeSlots | src/codec.cpp:339-364 | consumes what ParseSlots consumes, succeeds exactly when it does, and the slots then hold its values; only slots i to n - 1 may change |
| KeyObjects.KeyObject.DecodeAfter | src/codec.cpp:352-360 | once slot i holds the first value, the remaining slots complete the read as ParseSlots does; only slots i + 1 to n - 1 may change |
| KeyObjects.KeyObject.DecodeBody | src/codec.cpp:335-373 | for the kind read: consumes what ParseKeyBody consumes, succeeds exactly when it does, then sets type and db and holds its elements; on failure type and db are kept; the slots past the kind's count, all of them for an unknown kind, keep their values |
| KeyObjects.KeyObject.DecodeKnown | src/codec.cpp:337-373 | for a kind with elements: consumes what ParseSlots consumes, succeeds exactly when it does, then sets type and db and the slots hold its values; on failure type and db are kept; the slots past the kind's count keep their values |
| KeyObjects.KeyObject.Decode | src/codec.cpp:326-374 | consumes what ParseKey consumes, succeeds exactly when it does, then holds its kind, id and elements; on failure type and db are kept; the slots past the count of the kind in the header, all of them without a header, keep their values |
| AsWritten.StringValueAsWritten | src/codec.cpp:140 | as written, the integer parse ignores try_int_encoding |
| AsWritten.IgnoredFlagCounterexample | src/codec.cpp:140 | for every int64, its decimal form with the flag off becomes an integer as written but stays text as intended |
| AsWritten.CompareIntegersAsWritten | src/codec.cpp:189 | as written, the int64 difference is narrowed to a 32-bit int, and equals the difference when that fits |
| AsWritten.IntegerDifferenceCounterexample | src/codec.cpp:189 | 2^32 against 0 gives 0, and 2^31 against 0 gives a negative result |
| AsWritten.ParseScalarAsWritten | src/codec.cpp:123-128 | as written, a text decode yields the right value but consumes only the 4 header bytes |
| AsWritten.CursorCounterexample | src/codec.cpp:123-128 | for any non-empty text, the as-written decode consumes 4 bytes where the intended one consumes the whole wire form |
| AsWritten.HeaderReadAsWritten | src/codec.cpp:96-103 | after the header read as written, the readable bytes are the rest followed by a 4-byte word |
| AsWritten.JunkWriteCounterexample | src/codec.cpp:102-113 | for any integer payload, the as-written decode leaves the rest, followed by 4 never-encoded bytes at the end of the buffer |
| AsWritten.ParseKeyAsWritten | src/codec.cpp:326-374 | as written, the number of slots read follows the object's previous kind |
| AsWritten.StaleKindCounterexample | src/codec.cpp:335 | any hash key decoded into a string-key object takes the hash kind with one element, and leaves the second unread |

## Left out

- `malloc`/`free` of owned text, the destructor, and `alloca` in Compare. These do not change values.
- Borrowed text shares memory. `SetString` points at the caller's string (src/codec.cpp:146), and a text `Decode` points into the buffer (src/codec.cpp:123-125), which the write at src/codec.cpp:103 may reallocate. A later change to or release of that memory changes or invalidates what the Data holds. The model stores its own copy of the bytes, so it does not capture this aliasing.
- `Data::operator=` (src/codec.cpp:63-66) returns without copying anything. Assignment is not modelled.
- `E_FLOAT64` is declared but never produced or handled; the model carries the constant only.
- The `assert(type == V_TYPE_STRING …)` in Compare refers to a member declared elsewhere and is not modelled.
- The Buffer class and the varint helper belong to other files that are not part of this model. The model fixes a zigzag + 7-bit layout and little-endian header words.
- KeyObjects.KeyObject.DecodeSlots: slots decoded before a failing one keep their new values; on failure the contract states only the bytes consumed and which slots may change, not their new values.
- KeyObjects.KeyObject.DecodeAfter: on failure slots i + 1 up to the failing one hold new values that the contract does not state.
- KeyObjects.KeyObject.DecodeKnown: on failure the slots before the failing one hold new values that the contract does not state.
- KeyObjects.KeyObject.DecodeBody: on failure the slots before the failing one hold new values that the contract does not state.
- KeyObjects.KeyObject.Decode: on failure the slots before the failing one hold new values that the contract does not state.
- DataObjects.Data.Decode: the header word written back into the buffer (src/codec.cpp:102-103) is not performed. It is modelled only as AsWritten.HeaderReadAsWritten.
- DataObjects.Data.Clone: for owned text the source copies from the wrong address (src/codec.cpp:178). The model copies the text itself, which is the evident intent.
- Scalars.StringLength: `len` is a `uint32` in the source. The model uses an unbounded length, and round trips are proved for lengths below 2^29, the most the header carries.
- Decimal.DecimalLength: `std::abs(INT64_MIN)` overflows in the source. The model takes the mathematical absolute value, giving 20 for INT64_MIN.
- ScalarOrder.CompareBytes: the length tie at src/codec.cpp:225 returns a `uint32` difference as `int`. The model returns its sign, which differs only for lengths at least 2^31 apart.
- Record kind numbers are fixed as 1 to 8, because their header is not part of this model.
- KeyObject's constructor is defined in that header too. The model's constructor takes a kind below 256 and an id below 2^32, and creates three unset slots.

## Findings

| source | as written | input that shows it | evidently intended | confidence | as-written member | corrected member |
|---|---|---|---|---|---|---|
| src/codec.cpp:140 | SetString tries the integer parse whatever `try_int_encoding` says | `SetString("42", false)` stores the integer 42 | parse only when asked; otherwise keep the text | not executed | AsWritten.IgnoredFlagCounterexample | Scalars.StringValue |
| src/codec.cpp:189 | Compare returns the int64 difference as a 32-bit `int` | 2^32 against 0 gives 0; 2^31 against 0 gives a negative number | the sign of the difference | not executed | AsWritten.IntegerDifferenceCounterexample | ScalarOrder.NumericMode |
| src/codec.cpp:123-128 | text decode points at the bytes but does not move the read cursor past them | the wire form of text "a" (5 bytes): only 4 are consumed, and the next read starts at "a" | consume the header and `len` bytes | not executed | AsWritten.CursorCounterexample | ScalarWire.ScalarRoundTrip |
| src/codec.cpp:102-103 | Decode writes a scrambled header word back into the buffer it reads | decoding the integer 0 (5 bytes) leaves 4 bytes that were never encoded | no write during decode | not executed | AsWritten.JunkWriteCounterexample | ScalarWire.ScalarRoundTrip |
| src/codec.cpp:335 | KeyObject::Decode switches on the old `type`, not on the kind just read | a hash key decoded into a string-key object reads one element of two and takes the hash kind | switch on the kind just read | not executed | AsWritten.StaleKindCounterexample | KeyCodec.KeyRoundTrip |
