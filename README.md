# Thrift schema-less decoder, modelled in Dafny

`thrift_decoder.py` decodes an Apache Thrift message without a schema. It opens
the outer struct and reads field headers until a STOP header. Each field's value
is read by dispatching on the header's `TType` tag:

- a scalar tag performs one primitive read;
- a string tag reads raw bytes and decodes them as UTF-8, falling back to a hex
  diagnostic when they are not UTF-8;
- struct, map, set and list tags call nested decoders. These read a declared
  count of elements of one declared type.

The result is a generic tree: fields carry their id, the display name from
`typeNameMap` and the value.

The model keeps that shape:

- `Protocol.TokenReader` is the protocol object. It is a class holding the
  answers the wire codec would give (`Token`s) and a cursor that every read
  advances. A read of the wrong kind, or past the end, fails with `CodecError`.
- `Decoder.ThriftDecoder` is the decoder class. It holds its reader in the field
  `protocol`. Its methods are the Python methods, with the same loops, the same
  order of reads and lookups, and the same failure points.
- `DecodeSpec` defines the same decoder as pure functions of the item stream and
  a cursor. Every method is proved to agree with it: the same result or the
  same error, and on success the same final cursor. After an error nothing
  reads the cursor again, so the model leaves it unconstrained there.
- `Properties` proves what the decoder promises about those functions:
  - STOP handling and wire order of fields;
  - one read per scalar;
  - the local UTF-8 fallback;
  - unknown tags abort the decode;
  - lists keep order and duplicates;
  - sets collapse equal members;
  - maps keep the last value per key;
  - type names are looked up after the end marker.
- `RoundTrip` adds an independent encoder. It proves that every decoded tree is
  well formed, and that decoding an encoded well-formed message gives it back.
- `Scenarios` decodes concrete messages.

`Utf8` is strict UTF-8 per RFC 3629, section 4. `Hex` is `bytes.hex`. Both come
with their inverses.

Python exceptions become `Err` values of `DecodeError`:

- `CodecError`: the protocol raised;
- `UnknownType`: `raise Exception('unknown type')`;
- `NoTypeName`: a `typeNameMap` KeyError;
- `Unhashable`: the TypeError raised when a struct or container result is used
  as a set member or dict key.

## Model

| member | source | states |
|---|---|---|
| TType.CodesAreTypeNames | thrift_decoder.py:7-22 | the code and name sequences the lookup walks list exactly the entries of `TypeNames`, the model of `typeNameMap` |
| TType.NamedCodes | thrift_decoder.py:7-22 | `TypeNames` names exactly the codes 0 to 16 other than 5, 7 and 9 |
| TType.TagNamedInverse | thrift_decoder.py:7-22 | no two codes in `typeNameMap` share a name: the name of a code leads back to that code |
| TType.TagNamedNamed | thrift_decoder.py:7-22 | a name found in the table is the display name of the code found for it |
| TType.DispatchedAreNamed | thrift_decoder.py:7-22 | every tag `readFieldValue` dispatches on has a name; the named but undispatched tags are exactly stop, void and enum |
| Protocol.TokenReader.constructor | thrift_decoder.py:30-31 | a fresh protocol object over the message, cursor at its start |
| Protocol.TokenReader.ReadStructBegin | thrift_decoder.py:32 | consumes a struct-begin item and advances by one, or fails with the cursor unmoved |
| Protocol.TokenReader.ReadStructEnd | thrift_decoder.py:78 | consumes a struct-end item, or fails with the cursor unmoved |
| Protocol.TokenReader.ReadFieldBegin | thrift_decoder.py:38 | returns the header's type tag and field id and advances by one, or fails with the cursor unmoved |
| Protocol.TokenReader.ReadFieldEnd | thrift_decoder.py:42 | consumes a field-end item, or fails with the cursor unmoved |
| Protocol.TokenReader.ReadBool | thrift_decoder.py:47 | returns the bool payload of the next item and advances by one, or fails with the cursor unmoved |
| Protocol.TokenReader.ReadByte | thrift_decoder.py:49 | returns the signed 8-bit payload of the next item, or fails with the cursor unmoved |
| Protocol.TokenReader.ReadDouble | thrift_decoder.py:51 | returns the 64-bit double pattern of the next item, or fails with the cursor unmoved |
| Protocol.TokenReader.ReadI16 | thrift_decoder.py:53 | returns the i16 payload of the next item, or fails with the cursor unmoved |
| Protocol.TokenReader.ReadI32 | thrift_decoder.py:55 | returns the i32 payload of the next item, or fails with the cursor unmoved |
| Protocol.TokenReader.ReadI64 | thrift_decoder.py:57 | returns the i64 payload of the next item, or fails with the cursor unmoved |
| Protocol.TokenReader.ReadBinary | thrift_decoder.py:59 | returns the raw bytes of the next item, or fails with the cursor unmoved |
| Protocol.TokenReader.ReadMapBegin | thrift_decoder.py:83 | returns key type, value type and declared size, or fails with the cursor unmoved |
| Protocol.TokenReader.ReadMapEnd | thrift_decoder.py:88 | consumes a map-end item, or fails with the cursor unmoved |
| Protocol.TokenReader.ReadSetBegin | thrift_decoder.py:93 | returns element type and declared size, or fails with the cursor unmoved |
| Protocol.TokenReader.ReadSetEnd | thrift_decoder.py:96 | consumes a set-end item, or fails with the cursor unmoved |
| Protocol.TokenReader.ReadListBegin | thrift_decoder.py:101 | returns element type and declared size, or fails with the cursor unmoved |
| Protocol.TokenReader.ReadListEnd | thrift_decoder.py:104 | consumes a list-end item, or fails with the cursor unmoved |
| Decoder.ThriftDecoder.constructor | thrift_decoder.py:26-27 | a decoder holding a protocol object over no input |
| Decoder.ThriftDecoder.Decode | thrift_decoder.py:29-33 | installs a new protocol object over the input and returns exactly `DecodeSpec.Decode` of the input |
| Decoder.ThriftDecoder.ReadFields | thrift_decoder.py:35-43 | the loop returns what `DecodeFields` from the starting cursor gives, errors included, and on success ends at its cursor |
| Decoder.ThriftDecoder.ReadFieldValue | thrift_decoder.py:45-73 | returns what `DecodeValue` gives for the tag, errors included, and on success ends at its cursor |
| Decoder.ThriftDecoder.ReadStruct | thrift_decoder.py:75-79 | returns what `DecodeStruct` gives, errors included, and on success ends at its cursor |
| Decoder.ThriftDecoder.ReadMap | thrift_decoder.py:81-89 | returns what `DecodeMap` gives, errors included, and on success ends at its cursor: the loop keeps `DecodeMapEntries` invariant over the remaining count and the map built so far |
| Decoder.ThriftDecoder.ReadSet | thrift_decoder.py:91-97 | returns what `DecodeSet` gives, errors included, and on success ends at its cursor |
| Decoder.ThriftDecoder.ReadList | thrift_decoder.py:99-105 | returns what `DecodeList` gives, errors included, and on success ends at its cursor |
| DecodeSpec.DecodeValue | thrift_decoder.py:45-73 | a successful value read consumes at least one item and stays inside the stream |
| DecodeSpec.DecodeContainer | thrift_decoder.py:64-71 | a successful nested decode consumes at least one item and stays inside the stream |
| DecodeSpec.DecodeFields | thrift_decoder.py:35-43 | a successful field loop consumes at least its STOP header and stays inside the stream |
| DecodeSpec.DecodeStruct | thrift_decoder.py:75-79 | a successful struct read consumes at least one item and stays inside the stream |
| DecodeSpec.DecodeMapEntries | thrift_decoder.py:84-87 | the map loop never moves the cursor backwards or past the end |
| DecodeSpec.DecodeMap | thrift_decoder.py:81-89 | a successful map read consumes at least one item and stays inside the stream |
| DecodeSpec.DecodeSetItems | thrift_decoder.py:94-95 | the set loop never moves the cursor backwards or past the end |
| DecodeSpec.DecodeSet | thrift_decoder.py:91-97 | a successful set read consumes at least one item and stays inside the stream |
| DecodeSpec.DecodeListItems | thrift_decoder.py:102-103 | the list loop never moves the cursor backwards or past the end |
| DecodeSpec.DecodeList | thrift_decoder.py:99-105 | a successful list read consumes at least one item and stays inside the stream |
| Properties.StopEndsFields | thrift_decoder.py:38-40 | a STOP header ends the field loop at once, without reading a value |
| Properties.EmptyStruct | thrift_decoder.py:75-79 | a struct whose first header is STOP decodes to no fields and ends after its end marker |
| Properties.EmptyMessage | thrift_decoder.py:29-33 | a message whose first header is STOP decodes to no fields, whatever follows, since the outer end marker is never read |
| Properties.FieldsKeepPrefix | thrift_decoder.py:36-42 | the field loop only appends: fields read earlier stay in front |
| Properties.FieldsInWireOrder | thrift_decoder.py:35-43 | the loop yields `fs` iff the stream holds exactly those fields in that order: header id, `typeNameMap` name, value decoded with the header's tag, field end; then STOP |
| DecodeSpec.Decode | thrift_decoder.py:29-33 | no contract of its own: what it returns is stated by `Properties.DecodeInWireOrder` (iff) and `RoundTrip.MessageRoundTrip` |
| Properties.DecodeInWireOrder | thrift_decoder.py:29-43 | `decode` returns `fs` iff the stream opens a struct and then holds `fs` in wire order up to STOP |
| Properties.ScalarReadsOneItem | thrift_decoder.py:46-59 | a scalar or string tag reads exactly one item of the matching kind, else fails; a scalar payload is returned unchanged, and for a string the result is the text or the diagnostic made from its bytes |
| DecodeSpec.StringValue | thrift_decoder.py:58-63 | the string branch always yields a string, never an error; `Properties.StringFallback` states which one |
| DecodeSpec.Diagnostic | thrift_decoder.py:63 | no contract of its own: `Properties.StringFallback` states its layout and that the bytes can be recovered from it |
| Properties.StringFallback | thrift_decoder.py:58-63 | a string read never fails. Valid UTF-8 gives the text that encodes back to the bytes; other bytes give `"UnicodeDecodeError. binary(" + hex + ")"`, from which the bytes are recovered |
| Properties.StringFieldContinues | thrift_decoder.py:58-63 | after a string field, the loop continues with the next header, whatever the bytes |
| Properties.UnknownTagFails | thrift_decoder.py:72-73 | any tag outside the dispatch set, void and enum included, fails with "unknown type" before reading anything |
| Properties.BadFieldTagAborts | thrift_decoder.py:41 | an undispatched field tag aborts the field loop: at the name lookup if the tag is unnamed, otherwise in dispatch |
| Properties.FieldErrorAborts | thrift_decoder.py:41 | an error in a field's value aborts the field loop with that same error |
| Properties.ListItemsKeepPrefix | thrift_decoder.py:102-103 | the list loop only appends, once per declared slot |
| Properties.ListItemsInOrder | thrift_decoder.py:102-103 | the list loop yields `es` iff `es` has one element per declared slot, read in order with the declared tag |
| Properties.ListDecodesDeclaredItems | thrift_decoder.py:99-105 | `readList` returns `List(name, es)` iff there is a list header, exactly `size` elements of its type in the order of `es`, the end marker, and a name for the type |
| Properties.ListItemsFromAcc | thrift_decoder.py:102-103 | the list loop started from a partial list is the loop started empty, with the partial list in front |
| Values.Hashable | thrift_decoder.py:87 | no contract of its own: `Properties.HashableIffScalarTag` states that exactly the values of the struct, map, set and list tags are unhashable |
| Properties.HashableIffScalarTag | thrift_decoder.py:64-71 | a value decoded with a struct, map, set or list tag is unhashable, and any other decoded value is hashable |
| Properties.SetItemsCollapseList | thrift_decoder.py:94-95 | with a hashable element type, the set loop is the list loop with equal elements collapsed; with a container type, the first element read raises Unhashable |
| Properties.ElementsBound | thrift_decoder.py:95 | collapsing equal elements never adds members |
| Properties.SetCollapsesDeclaredItems | thrift_decoder.py:91-97 | `readSet` reads exactly `size` elements of the declared type and keeps each distinct one once: at most `size` members |
| Properties.InsertedKeys | thrift_decoder.py:87 | after the insertions, the keys are the old keys plus the inserted ones |
| Properties.InsertedLastWins | thrift_decoder.py:87 | each key maps to the value of its last insertion |
| Properties.InsertedUntouched | thrift_decoder.py:87 | a key never inserted keeps its old value |
| Properties.InsertedSize | thrift_decoder.py:87 | the insertions add at most one entry each |
| Properties.MapEntriesFromPairs | thrift_decoder.py:84-87 | given the pairs on the wire, each key read before its value, the loop inserts them in order |
| Properties.MapEntriesReadPairs | thrift_decoder.py:84-87 | a successful map loop read exactly `size` pairs, all keys hashable, and inserted them in order |
| Properties.CompoundKeyFails | thrift_decoder.py:84-87 | with a struct or container key type, the first pair whose key and value both decode raises Unhashable; a failed key or value read wins over it |
| Properties.MapEntriesLastWriteWins | thrift_decoder.py:84-87 | the map loop yields `m` iff the stream holds `size` pairs with hashable keys whose in-order insertion gives `m` |
| Properties.MapUnfolds | thrift_decoder.py:81-89 | a successful `readMap` is a header, a successful loop, the end marker and two named declared types |
| Properties.MapKeepsLastValues | thrift_decoder.py:81-89 | `readMap` reads `size` pairs of the declared types, holds the last value for each key, and has at most `size` entries |
| Properties.EmptyContainersLookUpNames | thrift_decoder.py:81-105 | an empty map, set or list still fails on an unnamed declared type, because the names are looked up after the end marker; stop, void and enum are accepted there |
| Utf8.DecodeEncode | thrift_decoder.py:61 | the UTF-8 decoder reads back every text's encoding |
| Utf8.Decode | thrift_decoder.py:61 | no contract of its own: `Utf8.DecodeIffEncode` pins it down as the exact inverse of UTF-8 encoding |
| Utf8.DecodeIffEncode | thrift_decoder.py:61 | bytes decode to a text exactly when they are its encoding |
| Utf8.EncodeCharIsHead | thrift_decoder.py:61 | one character's encoding is recognised as one well-formed head carrying its code point |
| Hex.Hex | thrift_decoder.py:63 | the dump has two lower-case hex digits per byte |
| Hex.DigitValue | thrift_decoder.py:63 | a digit's value is the position of that digit in the digit alphabet |
| Hex.UnhexHex | thrift_decoder.py:63 | the dump determines the bytes it was made from |
| RoundTrip.TagOf | thrift_decoder.py:46-71 | the tag a value is decoded from is a dispatched tag, and is a container tag iff the value is unhashable |
| RoundTrip.ValueWellFormed | thrift_decoder.py:45-73 | a value decoded with tag `t` has tag `t` and is well formed |
| RoundTrip.FieldsWellFormed | thrift_decoder.py:35-43 | every field read carries the name of its value's tag, and a well-formed value |
| RoundTrip.StructWellFormed | thrift_decoder.py:75-79 | a decoded struct is well formed |
| RoundTrip.MapEntriesWellFormed | thrift_decoder.py:84-87 | every decoded map entry has a hashable key of the key type and a well-formed value of the value type |
| RoundTrip.MapWellFormed | thrift_decoder.py:81-89 | a decoded map is well formed under its declared type names |
| RoundTrip.SetItemsWellFormed | thrift_decoder.py:94-95 | every decoded set member is hashable and of the element type |
| RoundTrip.SetWellFormed | thrift_decoder.py:91-97 | a decoded set is well formed under its declared type name |
| RoundTrip.ListItemsWellFormed | thrift_decoder.py:102-103 | every decoded list element has the element type and is well formed |
| RoundTrip.ListWellFormed | thrift_decoder.py:99-105 | a decoded list is well formed under its declared type name |
| RoundTrip.DecodedMessageWellFormed | thrift_decoder.py:29-43 | every message `decode` accepts is a list of well-formed fields |
| RoundTrip.ValueRoundTrip | thrift_decoder.py:45-73 | decoding the encoding of a well-formed value with its tag gives the value and ends right after it |
| RoundTrip.StructRoundTrip | thrift_decoder.py:75-79 | an encoded struct decodes to itself |
| RoundTrip.FieldsRoundTrip | thrift_decoder.py:35-43 | encoded fields decode to themselves, in order, ending after STOP |
| RoundTrip.ListRoundTrip | thrift_decoder.py:99-105 | an encoded list decodes to itself, order and duplicates kept |
| RoundTrip.ItemsRoundTrip | thrift_decoder.py:102-103 | encoded list elements decode to themselves, in order |
| RoundTrip.SetRoundTrip | thrift_decoder.py:91-97 | an encoded set decodes to itself |
| RoundTrip.ElemsRoundTrip | thrift_decoder.py:94-95 | encoded set members decode to the same set |
| RoundTrip.MapRoundTrip | thrift_decoder.py:81-89 | an encoded map decodes to itself |
| RoundTrip.EntriesRoundTrip | thrift_decoder.py:84-87 | encoded map entries are read back as exactly the map's entries |
| RoundTrip.MessageRoundTrip | thrift_decoder.py:29-43 | decoding an encoded well-formed message, whatever follows it, gives back its fields: same ids, type names and values, same order |
| Scenarios.TwoFields | thrift_decoder.py:35-43 | `{1: i32 42, 2: string "ok"}` decodes to its two fields in order |
| Scenarios.BadUtf8ThenInt | thrift_decoder.py:58-63 | the string byte 0xff becomes `UnicodeDecodeError. binary(ff)`, and the next field still decodes |
| Scenarios.SetDropsDuplicates | thrift_decoder.py:91-97 | the i32 set 1, 1, 2 has two members |
| Scenarios.MapLaterKeyWins | thrift_decoder.py:81-89 | a repeated map key keeps the later value |
| Scenarios.UnknownTagAbortsDecode | thrift_decoder.py:41 | a field of unnamed type 7 aborts the decode after a valid field |
| Scenarios.NestedFirstItem | thrift_decoder.py:75-79 | a one-field struct nested in a list decodes where it sits |
| Scenarios.NestedList | thrift_decoder.py:99-105 | a list of two structs decodes to both, in order |
| Scenarios.NestedStructs | thrift_decoder.py:64-65 | a struct holding a list of structs decodes to the whole tree |

## Left out

- The wire codec (`TCompactProtocol`, `TBinaryProtocol`, `TTransport.TMemoryBuffer`) is not part of this model. The reader is given the protocol's answers as a sequence of `Token`s. Varint, zig-zag and field-delta encodings, and truncated input, all become "the next item is missing or of the wrong kind".
- `main`: command-line handling, `bytes.fromhex` on the argument and `json.dumps` printing are I/O and presentation. The decoder is fixed to the compact protocol there; here the protocol is the token reader.
- The protocol factory passed to `__init__` is replaced by building the token reader directly in `Decode`.
- Doubles are kept as their 64-bit pattern and compared bit for bit. IEEE 754 equality (NaN, signed zero) inside sets and map keys is not modelled.
- Python's hash is not modelled. Using a struct, map, set or list result as a set member or map key is the `Unhashable` error, raised after the offending element (or key and value) has been read, where Python raises TypeError.
- Dict and set iteration order, and so the order of entries in the printed output, are not modelled: maps and sets are Dafny `map` and `set`.
- The output dictionaries are the `Value` datatype. Their key spellings, such as the `"keyType:"` key of the map result, are not modelled.
- Python's recursion limit on deeply nested values is not modelled. Nesting is bounded only by the length of the stream.
- The kind of exception the protocol object raises is not modelled. All of them are `CodecError`.
- `RoundTrip.EncodeElems`, `RoundTrip.EncodeEntries`: the encoder writes set members and map entries in one arbitrary but fixed order. The round trip is proved for that order, not for every order an encoder might use.
