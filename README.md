# godat codec core in Dafny

This project models the engine of godat, a Go package that serialises Go
values into a self-describing binary format and reads that format back
into Go values.

**Record layout.** Every record starts with one tag byte, an ASCII letter
naming the wire category plus an offset naming the width tier (0x00 for 8 bits, 0x1A for 16, 0x34 for 32 and 0x4E for 64).
After the tag comes a big-endian header, which is the number itself, a
payload length or an item count. Then come the payload bytes or the nested
records.

**Encoder and decoder.** The `Encoder` appends to a byte sequence. The
`Decoder` is a cursor over fixed input bytes that takes the current value
of a destination and returns the value it leaves there. `Marshal`
and `Unmarshal` run one encoder or one decoder over several values back
to back.

Reflection is replaced by explicit data in module `Reflect`:
- a `Type` for Bool, Int(bits), Uint(bits), String, Slice, Array, Map,
  Struct (its fields and hook flags), Ptr, Interface (size of the method
  set) and Other;
- a `Val` for the values of those types;
- `Hooks`: the user's `MarshalBinary` and `UnmarshalBinary`, given as
  functions.

**Layers.** Each operation appears at two levels:
- **Specification functions.** Modules `Encoding` and `Decoding` state what
  each operation computes, as pure functions of the value or of the input
  bytes, the cursor and the destination.
- **Classes.** `Encoders.Encoder` has a writer field `w` and `Decoders.Decoder`
  has a cursor `pos`. They do the work step by step, with the loops of the
  source, and each method is proved to compute exactly its specification
  function.

**Proved properties.**
- The facts listed in the table below: tier minimality, record layout,
  the decoder's coercion rules and error cases, map clear-then-fill,
  strict struct field matching.
- The round trip: a portable value, encoded and then decoded into a pointer
  to a zero value, comes back unchanged and uses exactly its bytes. This
  holds for one value (`RoundTrip.RoundTrip`) and for a `Marshal` batch
  decoded by `Unmarshal` (`Batch.MarshalRoundTrip`).

**Read modes.** `next` is modelled in two modes:
- `SingleRead` is the code as written: one `bytes.Reader.Read` call.
- `FullRead` reads exactly n bytes or fails.

See "Findings" below.

**Behaviour of the code worth knowing:**
- Decoding Nil into a pointer sets the pointer to nil. It does not follow
  the pointer.
- An object record decoded into a struct builds a fresh zero struct, so
  fields absent from the input become zero. Only exported fields can be
  matched.
- Text parsed into a bool accepts every spelling `strconv.ParseBool`
  accepts: `1`, `t`, `T`, `TRUE`, `true`, `True` and the false
  counterparts.
- An integer decoded across signedness reinterprets its 64 bits before the
  width check.

**Module order** follows the program: `Tags` (godat.go's constants),
`BigEndian`, `Strconv`, `Reflect`, then for each direction a specification
module, the class that implements it and a module of facts about it
(`Encoding`, `Encoders`, `EncodingFacts`; `Decoding`, `Decoders`,
`DecodingFacts`), and finally `RoundTrip` and `Batch`
(`Marshal`/`Unmarshal`).

## Model

| member | source | states |
|---|---|---|
| Tags.TagValues | godat.go:11-58 | every tag constant is its letter plus its tier's offset, with the hexadecimal values of the source's comments (Int16 = 0x63, Object32 = 0x83, …) |
| Tags.Classify | decode.go:391-539 | the tag switch of `DecodeValue`, one case per named constant and unknown otherwise; it has no contract of its own, and Tags.ClassifyTag and Tags.ClassifyInverse prove it the exact inverse of the tag constants |
| Tags.ClassifyTag | decode.go:391-538 | the dispatch recognises each named tag as its own kind; the unnamed `_` constants are not recognised |
| Tags.TagsDistinct | godat.go:18-58 | the named tag constants are pairwise distinct, so dispatch is unambiguous |
| Tags.ClassifyInverse | decode.go:391-538 | a byte the dispatch recognises is exactly the tag of the kind it yields |
| BigEndian.ToBE | encode.go:37 | `binary.Write` of an n-byte value writes exactly n bytes |
| BigEndian.FromBE | decode.go:42 | the value `binary.Read` reads from n bytes is below 256^n |
| BigEndian.FromToBE | encode.go:58-64 | reading back n written bytes gives the value modulo 256^n (the narrowing conversion `intN(v)`) |
| BigEndian.FromToBEInRange | decode.go:40-47 | a value that fits n bytes is read back unchanged |
| BigEndian.ToFromBE | decode.go:40-47 | writing back the value of a byte string gives the same bytes |
| BigEndian.SignedUnsigned | encode.go:56-66 | two's complement: the signed reading of a value's n-byte pattern is the value |
| BigEndian.SignedRange | decode.go:400-423 | the signed reading of an n-byte pattern lies in the n-byte signed range |
| Strconv.ParseUint | decode.go:184-185 | a value `strconv.ParseUint(s, 10, 64)` accepts is below 2^64 |
| Strconv.ParseInt | decode.go:174-175 | a value `strconv.ParseInt(s, 10, 64)` accepts lies in the int64 range |
| Strconv.ParseBool | decode.go:164 | `strconv.ParseBool`'s twelve spellings; no contract of its own, Strconv.ParseFormatBool and DecodingFacts.TextParsed use it |
| Strconv.ParseFormatUint | decode.go:184 | ParseUint reads back the decimal spelling of every uint64 |
| Strconv.ParseFormatInt | decode.go:174 | ParseInt reads back the decimal spelling of every int64 |
| Strconv.ParseFormatBool | decode.go:164 | ParseBool reads back `true` and `false` |
| Strconv.ParseIntRejects | decode.go:174 | a bare sign, an empty string, a sign before an unsigned number are syntax errors |
| Strconv.ParseIntLimits | decode.go:174 | -2^63 parses as an int64; 2^63 does not |
| Reflect.ZeroHasType | decode.go:272 | `reflect.Zero(t)` is a value of type t |
| Reflect.BytesValRoundTrip | decode.go:158 | a `[]byte` built from bytes gives back exactly those bytes |
| Encoding.IntTier | encode.go:56-66 | the tier `encodeInt` picks; no contract of its own, EncodingFacts.IntTierMinimal proves it the smallest tier that holds the value |
| Encoding.UintTier | encode.go:68-78 | the tier `encodeUint` picks; no contract of its own, EncodingFacts.UintTierMinimal proves it the smallest that holds the value |
| Encoding.LenTier | encode.go:91-142 | the prefix tier of `encodeString`, `encodeBinary`, `writeArrayType` and `writeObjectType`; no contract of its own, EncodingFacts.LenTierMinimal and TextLengthTruncated pin it |
| Encoding.SkipValue | encode.go:225-255 | `skipValue`; no contract of its own, EncodingFacts.ZeroIsSkipped, SkipIsZeroForScalars and EmptyNotZero relate it to the zero value |
| Encoding.EncodeValue | encode.go:189-219 | the record of a value, kind by kind; no contract of its own, pinned by EncodingFacts (SimpleRecords, the record layouts, ArrayEncoding, ObjectKeys, UnexportedFieldPanics) and inverted by RoundTrip.RoundTripValue |
| Encoding.EncodeObject | encode.go:160-187 | `encodeObject`; no contract of its own, EncodingFacts.MarshalerHook, ObjectKeys and PairLayout pin it |
| Encoding.Encode | encode.go:221-223 | `Encode`; no contract of its own, EncodingFacts.SimpleRecords gives the nil case and RoundTrip.RoundTrip inverts it |
| Encoding.Kept | encode.go:169-174 | the fields kept for an object are field indices from i on |
| Encoding.KeptSpec | encode.go:169-174 | the fields kept are exactly those whose value `skipValue` does not call empty, in increasing declaration order |
| Encoders.KeepFields | encode.go:169-174 | the first loop of `encodeObject` computes exactly the kept fields |
| Encoders.Encoder.constructor | encode.go:28-30 | a new Encoder has written nothing |
| Encoders.Encoder.Write | encode.go:32-42 | `write` appends the tag byte, then each value's big-endian bytes in turn |
| Encoders.Encoder.EncodeNil | encode.go:44-46 | appends the one-byte Nil record and succeeds |
| Encoders.Encoder.EncodeBool | encode.go:48-54 | appends the True or False record and succeeds |
| Encoders.Encoder.EncodeInt | encode.go:56-66 | appends the signed record of its tier and succeeds |
| Encoders.Encoder.EncodeUint | encode.go:68-78 | appends the unsigned record of its tier and succeeds |
| Encoders.Encoder.EncodeString | encode.go:91-99 | appends the Text record: tag of the length's tier, the length, the raw bytes |
| Encoders.Encoder.EncodeBinary | encode.go:101-109 | appends the Binary record with the same layout |
| Encoders.Encoder.WriteArrayType | encode.go:111-119 | appends the array count header |
| Encoders.Encoder.WriteObjectType | encode.go:134-142 | appends the object count header |
| Encoders.Encoder.EncodeArray | encode.go:121-132 | appends the count header, then the element records in index order up to the first error, and returns that error |
| Encoders.Encoder.EncodeMap | encode.go:144-158 | appends the count header, then key and element records entry by entry up to the first error |
| Encoders.Encoder.EncodeObject | encode.go:160-187 | appends exactly what `encodeObject` specifies: the hook's Binary record or its error, or the object header and pairs of the kept fields |
| Encoders.Encoder.WritePairs | encode.go:178-186 | appends each kept field's name as a Text record followed by its value's record, up to the first error |
| Encoders.Encoder.EncodeValue | encode.go:189-219 | appends the record of v and returns the error of the specification, for every kind |
| Encoders.Encoder.Encode | encode.go:221-223 | `Encode` appends the record of the dynamic value (Nil for a nil interface) |
| EncodingFacts.IntTierMinimal | encode.go:56-66 | a signed value uses the smallest tier whose two's-complement range holds it: it fits that tier and no smaller one |
| EncodingFacts.UintTierMinimal | encode.go:68-78 | an unsigned value uses the smallest tier that holds it |
| EncodingFacts.LenTierMinimal | encode.go:92-98 | a length below 2^32 takes the smallest of the 1, 2 and 4 byte prefixes that holds it |
| EncodingFacts.IntRecordLayout | encode.go:56-66 | a signed record is its tier's tag then exactly that many big-endian two's-complement bytes that read back as the value |
| EncodingFacts.UintRecordLayout | encode.go:68-78 | an unsigned record is its tier's tag then the value in exactly that many big-endian bytes |
| EncodingFacts.TextRecordLayout | encode.go:91-99 | a Text record is its tier's tag, the prefix holding n, then exactly the n raw bytes |
| EncodingFacts.BinaryRecordLayout | encode.go:101-109 | a Binary record has the same layout under the Binary tags |
| EncodingFacts.TextLengthTruncated | encode.go:96-97 | from 2^32 bytes on, the prefix records the length modulo 2^32 while every byte is still written |
| EncodingFacts.SimpleRecords | encode.go:189-223 | true is 0x54, false is 0x46; nil pointers, nil interfaces, other kinds and a nil argument are the single byte 0x5A, without error |
| EncodingFacts.ByteSliceVersusByteArray | encode.go:201-207 | only `[]byte` takes the Binary path; a byte array is a count header and one record per element |
| EncodingFacts.ItemsAreRecords | encode.go:126-131 | the element loop succeeds exactly when every element encodes, and then writes the element records in index order and nothing else |
| EncodingFacts.ArrayEncoding | encode.go:121-132 | an array or slice of n elements (not `[]byte`) is a count header for n followed by exactly the n element records |
| EncodingFacts.ObjectKeys | encode.go:169-177 | a struct without a hook writes an object header counting the non-empty fields, and its keys are exactly those fields |
| EncodingFacts.PairLayout | encode.go:178-185 | each pair is a Text key with the field name, then the field's record |
| EncodingFacts.MarshalerHook | encode.go:161-167 | a struct with `MarshalBinary` becomes a Binary record of the hook's bytes; a failing hook's error is returned with nothing written |
| EncodingFacts.UnexportedFieldPanics | encode.go:201-211 | reached through an unexported field, arrays, slices and structs make `v.Interface()` panic |
| EncodingFacts.ZeroIsSkipped | encode.go:225-255 | `skipValue` calls every zero value empty |
| EncodingFacts.SkipIsZeroForScalars | encode.go:236-245 | for bools, numbers, strings, pointers, interfaces and other kinds, empty means zero |
| EncodingFacts.EmptyNotZero | encode.go:234-235 | an empty non-nil slice or map is empty without being the zero value |
| Decoding.DecodeNil | decode.go:57-63 | `decodeNil`; no contract of its own, DecodingFacts.NilClearsSomeShapes states it |
| Decoding.DecodeBool | decode.go:65-80 | `decodeBool`; no contract of its own, pinned by DecodingFacts.EmptyInterfaceScalars, NonEmptyInterfaceRejects, IndirectAllocates and RoundTrip.RoundTripBool |
| Decoding.DecodeNumber | decode.go:82-140 | `decodeNumber` on its integer paths; no contract of its own, DecodingFacts.NumberIntoSigned, NumberIntoUnsigned, Reinterpret, CrossSignExamples, EmptyInterfaceScalars and IndirectAllocates pin it |
| Decoding.MapInsert | decode.go:316 | `SetMapIndex` with keys compared as values; no contract of its own, DecodingFacts.MapInsertLookup, MapInsertKeys and MapInsertDistinct pin it (see Left out) |
| Decoding.Zeros | decode.go:50 | a fresh buffer of n bytes has length n |
| Decoding.ReadFull | decode.go:40-47 | `binary.Read` gets all n bytes and advances by n, or fails with EOF when none was left and unexpected EOF when some were |
| Decoding.ReadOnce | decode.go:49-55 | one `Read` call fails exactly at the end of input, whatever n is, and otherwise fills an n-byte buffer |
| Decoding.Next | decode.go:49-55 | `next(n)` returns exactly n bytes when it succeeds and never moves the cursor backwards or past the input |
| Decoding.ReadHeader | decode.go:402-404 | a header read that succeeds advances the cursor by exactly the tier's width |
| Decoding.ArrayItems | decode.go:264-268 | the elements of an array destination number its length |
| Decoding.ZeroFill | decode.go:271-276 | the zero-fill loop keeps elements before n and sets every later element to zero |
| Decoding.Resize | decode.go:277-285 | after `SetLen(n)` a slice has exactly n elements: the old ones first, then zero values |
| Decoding.DecodeString | decode.go:142-214 | the cursor stays within the input (behaviour: DecodingFacts rows) |
| Decoding.DecodeBinary | decode.go:216-251 | the cursor stays within the input |
| Decoding.DecodeRecord | decode.go:385-540 | the cursor stays within the input and moves forward on success |
| Decoding.DecodeTagged | decode.go:391-538 | the cursor moves past the tag and stays within the input |
| Decoding.DecodeArray | decode.go:262-304 | the cursor stays within the input |
| Decoding.DecodeItems | decode.go:253-260 | the element loop keeps the number of elements |
| Decoding.DecodeObject | decode.go:321-375 | the cursor stays within the input |
| Decoding.DecodeEntries | decode.go:306-319 | the cursor stays within the input |
| Decoding.EntryPair | decode.go:307-317 | the cursor stays within the input |
| Decoding.EntriesUnfold | decode.go:306-319 | `decodeObjectItems` is the one-pair step repeated until the first error |
| Decoding.DecodeFields | decode.go:339-358 | the key loop keeps the number of struct fields |
| Decoding.FieldPair | decode.go:340-357 | one pair of the key loop keeps the number of struct fields |
| Decoding.FieldsUnfold | decode.go:339-358 | the key loop is the one-pair step repeated until the first error |
| Decoding.FieldLoop | decode.go:345-354 | the field loop keeps the number of struct fields |
| Decoding.DecodeValue | decode.go:377-383 | a non-pointer destination fails with NonPointer and a nil pointer with NilPointer, reading nothing |
| Decoding.Decode | decode.go:542-544 | `Decode` keeps the cursor within the input |
| Decoders.MapDelete | decode.go:330 | deleting key k keeps exactly the entries whose key is not k |
| Decoders.MapKeys | decode.go:329 | `MapKeys` lists the key of every entry, in entry order |
| Decoders.Strip | decode.go:329-331 | stripping no keys leaves the entries unchanged |
| Decoders.StripDelete | decode.go:329-331 | deleting one more key strips it as well |
| Decoders.StripAll | decode.go:329-331 | stripping every key of a map leaves no entry |
| Decoders.ClearMap | decode.go:327-331 | the delete loop over `MapKeys` leaves the map empty |
| Decoders.Decoder.constructor | decode.go:36-38 | a new Decoder starts at the first byte of its input |
| Decoders.Decoder.Read | decode.go:40-47 | `read` of one header computes exactly `ReadHeader`: value, new cursor and error |
| Decoders.Decoder.Next | decode.go:49-55 | `next(n)` computes exactly `Next` in the decoder's read mode |
| Decoders.Decoder.DecodeString | decode.go:142-214 | computes exactly the destination, cursor and error of `DecodeString` |
| Decoders.Decoder.DecodeBinary | decode.go:216-251 | computes exactly `DecodeBinary` |
| Decoders.Decoder.DecodeRecord | decode.go:385-540 | the tag read and the dispatch compute exactly `DecodeRecord` |
| Decoders.Decoder.DecodeTagged | decode.go:391-538 | the switch on a known tag computes exactly `DecodeTagged` |
| Decoders.Decoder.DecodeNumeric | decode.go:400-461 | the numeric cases compute exactly `DecodeTagged` |
| Decoders.Decoder.DecodeText | decode.go:463-499 | the string and binary cases compute exactly `DecodeTagged` |
| Decoders.Decoder.DecodeContainer | decode.go:501-537 | the array and object cases compute exactly `DecodeTagged` |
| Decoders.Decoder.DecodeArrayItems | decode.go:253-260 | the element loop computes exactly `DecodeItems` |
| Decoders.Decoder.DecodeArray | decode.go:262-304 | computes exactly `DecodeArray`, including the zero-fill loop |
| Decoders.Decoder.DecodeObjectItems | decode.go:306-319 | the pair loop computes exactly `DecodeEntries` |
| Decoders.Decoder.DecodeEntry | decode.go:307-317 | one pair computes exactly `EntryPair` |
| Decoders.Decoder.DecodeFields | decode.go:339-358 | the key loop computes exactly `DecodeFields` |
| Decoders.Decoder.DecodeField | decode.go:340-357 | one key computes exactly `FieldPair` |
| Decoders.Decoder.FieldLoop | decode.go:345-354 | the field loop computes exactly `FieldLoop` and its `decoded` flag |
| Decoders.Decoder.DecodeObject | decode.go:321-375 | computes exactly `DecodeObject`, including the map-clear loop |
| Decoders.Decoder.DecodeValue | decode.go:377-540 | computes exactly `DecodeValue` |
| Decoders.Decoder.Decode | decode.go:542-544 | computes exactly `Decode` |
| DecodingFacts.DestinationChecks | decode.go:377-383 | a non-pointer or nil-pointer destination is refused before any byte is read; a nil argument panics |
| DecodingFacts.EmptyInput | decode.go:385-388 | with no byte left, reading the tag fails with EOF and the pointee is untouched |
| DecodingFacts.UnknownTag | decode.go:391-539 | a byte that is no tag is consumed alone, changes nothing and is no error |
| DecodingFacts.ZeroByteIsNoTag | decode.go:539 | the byte 0x00 is such an unknown tag |
| DecodingFacts.TruncatedHeader | decode.go:400-537 | a known tag whose header is cut short fails with EOF or unexpected EOF, destination untouched |
| DecodingFacts.TruncatedNumber | decode.go:400-461 | a numeric record whose header read fails returns that read's error and leaves the destination |
| DecodingFacts.TruncatedSized | decode.go:463-537 | a sized record whose header read fails returns that read's error and leaves the destination |
| DecodingFacts.TagAt | decode.go:391 | a named tag at the cursor is dispatched as its own kind |
| DecodingFacts.NilClearsSomeShapes | decode.go:57-63 | Nil zeroes interface, pointer, map and slice destinations and leaves every other kind as it is |
| DecodingFacts.NilRecordDecodes | decode.go:392-393 | a Nil record is one byte and applies `decodeNil` |
| DecodingFacts.Reinterpret | decode.go:85-106 | the int64 and uint64 conversions are inverse on their ranges and do no sign check (MaxUint64 is -1) |
| DecodingFacts.NumberIntoSigned | decode.go:84-98 | an integer into a signed destination succeeds exactly when its int64 reading fits the width, storing it; otherwise a type error with the destination unchanged |
| DecodingFacts.NumberIntoUnsigned | decode.go:99-113 | the same for unsigned destinations through uint64 |
| DecodingFacts.CrossSignExamples | decode.go:84-113 | MaxUint64 into int64 is -1, -1 into uint64 is MaxUint64, 256 overflows uint8, -129 overflows int8 |
| DecodingFacts.TextIntoOtherSlice | decode.go:150-153 | text into a `[]T`, T not uint8, is a type error before the payload is read |
| DecodingFacts.TextIntoStringOrBytes | decode.go:143-158 | text into a string or `[]byte` stores exactly the payload bytes |
| DecodingFacts.TextParsed | decode.go:159-188 | text into bool, int or uint succeeds exactly when it parses (base 10) and fits the width, storing the parsed value; otherwise a type error, destination unchanged |
| DecodingFacts.NonEmptyInterfaceRejects | decode.go:65-375 | an interface with methods rejects bool, number, text, binary, array and object records with a type error, reading no payload |
| DecodingFacts.EmptyInterfaceScalars | decode.go:65-214 | `interface{}` receives a bool, an int64, a uint64 or a string |
| DecodingFacts.EmptyInterfaceBinary | decode.go:227-235 | `interface{}` receives a Binary record as a `[]byte` |
| DecodingFacts.EmptyInterfaceContainers | decode.go:289-368 | `interface{}` receives a fresh `[]interface{}` of the count's length or a fresh `map[interface{}]interface{}`; on failure it keeps its value |
| DecodingFacts.ItemsFrame | decode.go:253-260 | the element loop changes only the elements it decodes |
| DecodingFacts.ArrayTooShort | decode.go:265-267 | a fixed array shorter than the count is a type error before any element is read |
| DecodingFacts.ArrayZeroFill | decode.go:262-276 | a fixed array keeps its length; on success the slots from n on are zero, on failure they keep their old values |
| DecodingFacts.SliceExactLength | decode.go:277-288 | a slice ends with exactly n elements, even when an element fails; it is nil only for a nil slice and n = 0 |
| DecodingFacts.MapInsertLookup | decode.go:316 | `SetMapIndex` stores x under k and keeps every other key's element (keys compared as values: see Decoding.MapInsert under Left out) |
| DecodingFacts.MapInsertKeys | decode.go:316 | after `SetMapIndex` the keys are the old keys and k (keys compared as values: see Decoding.MapInsert under Left out) |
| DecodingFacts.MapInsertDistinct | decode.go:316 | `SetMapIndex` keeps keys distinct (keys compared as values: see Decoding.MapInsert under Left out) |
| DecodingFacts.EntriesDistinct | decode.go:306-319 | the pair loop keeps keys distinct and adds at most one entry per pair (keys compared as values: see Decoding.MapInsert under Left out) |
| DecodingFacts.MapClearedThenFilled | decode.go:321-335 | a map destination is emptied or allocated before it is filled: the result does not depend on the old entries, is never nil, holds distinct keys and at most n entries (keys compared as values: see Decoding.MapInsert under Left out) |
| DecodingFacts.FieldLoopFrame | decode.go:345-354 | the field loop changes only exported fields carrying the key's name |
| DecodingFacts.FieldLoopMatched | decode.go:345-354 | after a field loop without error, `decoded` is set exactly when some settable field carries the key's name |
| DecodingFacts.FieldLoopNoMatch | decode.go:345-354 | a key naming no settable field reads nothing and matches nothing |
| DecodingFacts.FieldsFrame | decode.go:339-358 | unexported fields are never set by the key loop |
| DecodingFacts.UnknownKeyRejected | decode.go:355-357 | a key naming no settable field is a type error right after the key |
| DecodingFacts.StructFresh | decode.go:336-359 | an object into a struct decodes into a fresh zero struct: on success it replaces the destination whatever it held, with unexported fields zero; on failure the destination is unchanged |
| DecodingFacts.EmptyObjectIntoStruct | decode.go:336-359 | an empty object into a struct gives its zero value |
| DecodingFacts.IndirectAllocates | decode.go:546-557 | through a nil pointer, decoding works on a fresh zero pointee and the pointer ends up non-nil |
| DecodingFacts.ReadModes | decode.go:49-55 | a full read fails on a payload cut short; both read modes agree on a non-empty payload that is fully present |
| DecodingFacts.EmptyTextAtEnd | decode.go:49-55 | as written, an empty string as the last record fails with EOF; read fully it decodes |
| DecodingFacts.TruncatedTextPadded | decode.go:49-55 | as written, a payload cut short is zero-padded without error; read fully it is unexpected EOF |
| DecodingFacts.TextAtEnd | decode.go:49-55 | the string "abc" as the last record, with nothing after it, decodes the same in both read modes: the single `Read` fails at the end only for an empty payload |
| RoundTrip.FirstTag | encode.go:189-219 | every record of a portable value that is not nil-like starts with a known tag other than Nil |
| RoundTrip.PtrTransparent | decode.go:546-557 | under a known tag other than Nil, decoding into a pointer is decoding into its pointee, allocated if nil |
| RoundTrip.RoundTripNil | decode.go:392-394 | the Nil record decodes into a zero pointer, interface or other-kind destination as that zero value, consuming one byte |
| RoundTrip.RoundTripBool | decode.go:395-399 | a True or False record decodes into a zero bool as that bool, consuming one byte |
| RoundTrip.RoundTripInt | decode.go:400-424 | the record of a signed value that fits the destination's width decodes back as that value, consuming exactly the record |
| RoundTrip.RoundTripUint | decode.go:425-449 | the record of an unsigned value that fits the destination's width decodes back as that value, consuming exactly the record |
| RoundTrip.RoundTripString | decode.go:463-481 | a Text record below 2^32 bytes decodes into a zero string as its payload, consuming exactly the record |
| RoundTrip.RoundTripBytes | decode.go:482-500 | a Binary record decodes into a nil `[]byte` as a non-nil slice of exactly the payload bytes |
| RoundTrip.RoundTripIface | encode.go:212-216 | an empty interface holding a bool, an int64, a uint64, a string or a `[]byte` is written as its dynamic value and decodes back into a nil `interface{}` with the same dynamic type and value |
| RoundTrip.IfaceBool | decode.go:69-73 | a True or False record decodes into a nil `interface{}` as a dynamic bool |
| RoundTrip.IfaceInt | decode.go:129-133 | the record of an int64 decodes into a nil `interface{}` as a dynamic int64 of the same value |
| RoundTrip.IfaceUint | decode.go:129-133 | the record of a uint64 decodes into a nil `interface{}` as a dynamic uint64 of the same value |
| RoundTrip.IfaceString | decode.go:199-207 | a Text record decodes into a nil `interface{}` as a dynamic string of its payload |
| RoundTrip.IfaceBytes | decode.go:227-235 | a Binary record decodes into a nil `interface{}` as a dynamic non-nil `[]byte` of its payload |
| RoundTrip.RoundTripHook | decode.go:216-251 | a struct with hooks that invert each other comes back through its Binary record and `UnmarshalBinary` |
| RoundTrip.RoundTripArray | decode.go:253-304 | an array, or a slice other than `[]byte`, of portable elements decodes back element by element into a zero destination of its type |
| RoundTrip.RoundTripMap | decode.go:306-335 | a non-nil map with distinct portable keys decodes back into a nil map with the same entries in the same order |
| RoundTrip.RoundTripStruct | decode.go:336-359 | a struct without hooks whose empty fields are zero and whose other fields are exported, distinctly named and portable decodes back from its key/value pairs |
| RoundTrip.RoundTripPtr | decode.go:546-557 | a non-nil pointer to a portable value that is not nil-like decodes back through `indirect`'s fresh pointee |
| RoundTrip.RoundTripValue | decode.go:377-540 | every portable value's record decodes back into a zero destination as that value, ending right after the record |
| RoundTrip.RoundTrip | encode.go:221-223 | `Decode` of the bytes of `Encode(v)` into a pointer to a zero value yields v and consumes exactly those bytes (read fully, or with more input after them) |
| RoundTrip.RoundTripAt | decode.go:542-544 | the same round trip for a record found anywhere on the stream |
| Batch.EncodeAll | godat.go:60-67 | the `encode` loop; no contract of its own, Batch.EncodeAllOk and EncodeAllFails state it |
| Batch.Marshaled | godat.go:69-78 | what `Marshal` returns; no contract of its own, Batch.MarshalOk, MarshalFails and MarshalRoundTrip state it |
| Batch.Marshal | godat.go:60-78 | `Marshal` returns exactly the batch's encoding or its first error |
| Batch.EncodeAllOk | godat.go:60-67 | when every value encodes, the batch is the records concatenated in argument order |
| Batch.EncodeAllFails | godat.go:61-64 | the first value that fails to encode names the batch's error |
| Batch.MarshalOk | godat.go:69-78 | `Marshal` succeeds with the records back to back exactly when every value encodes |
| Batch.MarshalFails | godat.go:73-75 | `Marshal` fails with the error of the first value that fails, returning no bytes |
| Batch.DecodeAll | godat.go:92-99 | every argument comes out of the decode loop, and the cursor stays in the input |
| Batch.DecodeAllStep | godat.go:93-96 | one round of the decode loop: stop with the argument's error, or continue from its end |
| Batch.Unmarshal | godat.go:92-103 | `Unmarshal` returns exactly the arguments and the error that the decode loop `DecodeAll` gives from the start of the input: each argument decoded in turn, stopping at the first error |
| Batch.DecodeAllRound | godat.go:92-99 | a batch of portable values on the stream decodes back in order |
| Batch.MarshalRoundTrip | godat.go:69-103 | portable values marshalled together and unmarshalled into pointers to zero values of their types come back, in order, without error |

## Left out

- Floating point: `encodeFloat`, the float paths of `decodeNumber` and `ParseFloat` are absent. There is no float type. A float record's payload is consumed, and decoding it into an integer or an empty interface gives the error kind `FloatUnmodelled`. Go's float conversions are platform-dependent.
- `Dump` and `Load`: these only add file creation, opening and closing around `encode`/`decode`.
- I/O errors of the writer: `Marshal` writes to a `bytes.Buffer`, which does not fail, so `write` cannot fail in the model.
- Error messages: only the error kinds are modelled, not the `fmt.Sprintf` text.
- Encoders.Encoder.EncodeMap: Go's random map iteration order is not modelled; a map's pairs come out in the model's entry order.
- Encoders.Encoder.EncodeObject: the pairs come out in field declaration order, not in the random order of the map `x`.
- The bodies of `MarshalBinary` and `UnmarshalBinary`: they are given functions in `Hooks`.
- Slice capacity: a slice's capacity equals its length, so the `MakeSlice`/`Copy` growth in `decodeArray` shows only through the resulting elements.
- Aliasing: destinations are passed and returned as values, so memory shared between pointers is not modelled; `indirect`'s allocation shows only as a fresh pointee.
- The width of `int`, `uint` and `uintptr` is fixed at 64 bits.
- RoundTrip.RoundTrip: assumes lengths and counts below 2^32. Longer ones are truncated by `uint32(n)`, which EncodingFacts.TextLengthTruncated states for text, and they do not round-trip.
- RoundTrip.RoundTrip: holds for portable values only: an empty non-`[]byte` slice must be nil, a `[]byte` non-nil, a map non-nil with distinct keys, a struct field that `skipValue` calls empty must be zero and every other field exported with a distinct name, a hooked struct's two hooks must invert each other, a pointer must not point at a nil pointer, a nil interface or a value of another kind, and an interface must be nil or an empty interface holding a bool, an int64, a uint64, a string or a non-nil `[]byte` (`RoundTrip.KeepsType`). Outside these, decoding gives a different value by design: an omitted field comes back as its zero value, a Nil record clears the pointer, and an interface holding any other dynamic type comes back with the type the decoder picks for its record: an int8 as an int64, a uint32 as a uint64, a named string or bool type as plain string or bool, an array or slice as `[]interface{}`, a map or a struct without hooks as `map[interface{}]interface{}`, a struct with hooks as `[]byte`, a pointer as its pointee's value. A non-empty interface destination is a type error.
- RoundTrip.RoundTrip: in the as-written `SingleRead` mode it is proved only when more input follows the encoding. The mode actually fails at the end of input only when the encoding's last read is an empty payload (`DecodingFacts.EmptyTextAtEnd`, `DecodingFacts.TextAtEnd`), and the lemma does not state that finer condition.
- Decoding.MapInsert: map keys are compared as values. Go's `SetMapIndex` compares pointer keys by address, and `decodeObjectItems` makes every key with `reflect.New`, so decoded pointer keys never collide in Go. This also covers pointers inside interface and struct keys. The model merges two such keys when their pointees are equal: in Go, two pairs with key 1 decoded into a `map[*int]string` give two entries, and in the model they give one. DecodingFacts.MapInsertLookup, MapInsertDistinct, EntriesDistinct and MapClearedThenFilled state key distinctness by value, which is Go's equality only for key types without pointers.
- Panics: a Go panic is modelled as the error kind `Panic`, returned like any other error. The model returns this error but does not model the stack unwinding. The panicking cases are `v.Interface()` reached through an unexported field, `SetMapIndex` with an unhashable key, and `Decode(nil)`. So `Batch.Marshal` returns `Failure(Panic)`, and `Batch.Unmarshal` returns the arguments decoded so far with that error, where Go returns nothing to its caller.
- An io.Reader other than the `bytes.Reader` behind `Unmarshal` (a file, for `Load`) is not part of this model.

## Findings

| source | as written | input that shows it | evidently intended | confidence | as-written member | corrected member |
|---|---|---|---|---|---|---|
| decode.go:49-55 | `next` makes one `Read` call, which returns EOF at the end of input even for n = 0 | the empty string as the last record, bytes 0x53 0x00, fails with EOF | an empty payload needs no byte and decodes to "" | not executed | DecodingFacts.EmptyTextAtEnd | Decoding.ReadFull |
| decode.go:49-55 | one `Read` call returns fewer than n bytes without error and the buffer stays zero-padded | bytes 0x53 0x03 0x61 decode to "a\0\0" without error | a payload cut short is an unexpected EOF | not executed | DecodingFacts.TruncatedTextPadded | DecodingFacts.ReadModes |

The corrected behaviour is the `FullRead` mode of `Decoding.Next`, an
`io.ReadFull` read. `RoundTrip.RoundTrip` proves the round trip in that mode
with nothing after the encoding. For the as-written mode it assumes that more
input follows. That assumption is stronger than needed: on a well-formed
encoding, the two modes differ only where a record's last read is an empty
payload at the very end of the input (`DecodingFacts.EmptyTextAtEnd`). The
encoding of "abc", bytes 0x53 0x03 0x61 0x62 0x63 with nothing after them,
decodes in both modes (`DecodingFacts.TextAtEnd`).
