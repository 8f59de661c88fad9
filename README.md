# swift-systemd in Dafny

A model of the core of swift-systemd, a Swift client for systemd's D-Bus API.
It also covers the package's journal log handler and helpers. The byte
layout of D-Bus messages belongs to libsystemd (`sd_bus_message_*`), so a
message is modelled as a tree of typed elements:

- a body of basic values and containers;
- a stack of open containers while the message is written;
- a stack of read cursors once it is sealed.

libsystemd's calls become functions on that tree. They return the same
results as the C calls: 1, 0 at the end of an array, or a negative errno.
The layers above libsystemd are modelled as the source writes them:

- the D-Bus type catalogue (`SystemdBusType`) and the registry of
  representable Swift types;
- the type context that counts the container level;
- the `Codable` encoder and decoder with their keyed, unkeyed and
  single-value containers;
- the older dynamic codec (`SystemdTypeContext`, `AnyVariant`);
- the bus's table of pending calls;
- the journal handler, the iovec helper and `trimmingCharacters(while:)`.

Classes whose fields the source updates are Dafny classes. Each of their
methods is proved to follow a function on values, usually named like the
method with `Spec` appended. That function states the operation, and the
lemmas are about it.

`Sources/Systemd/SystemdBus.swift` is an older single-file copy of the
package. Its `SystemdBusError`, `throwingSystemdBusError`, legacy
`SystemdTypeContext`, type maps, `AnyVariant` and `SystemdBus` (lines
13-62, 151-728, 804-924 and 927-930) are the code of the split files up to access
modifiers and formatting,
so one module serves both copies. The model table cites the split files.

A Swift `throws` becomes `Outcome`:

- `Ok` for a value;
- `Fail` for a thrown error;
- `Trap` for a `fatalError`, a failed force unwrap or a failed integer
  conversion.

The files are:

| file | models |
|---|---|
| wrappers.dfy | `Option`, and `Outcome` for a throwing call |
| ctypes.dfy | the word size and the bit-pattern conversions |
| bus_type.dfy | `SystemdBusType` |
| bus_error.dfy | `SystemdBusError` and `throwingSystemdBusError` |
| message.dfy | the libsystemd message calls |
| type_representable.dfy | the representable types and the type maps |
| type_context.dfy | `SystemdBusTypeContext` |
| encoder.dfy, encoding_containers.dfy | the encoder |
| decoder.dfy, decoding_containers.dfy | the decoder |
| dict_representable.dfy | `SystemdBusDictEntry` and the dictionary conformance |
| dictionaries.dfy | a Swift dictionary as the decoders fill it |
| legacy_types.dfy, legacy_context.dfy | `SystemdTypeContext` |
| bus.dfy | `SystemdBus` |
| journal.dfy, log_level.dfy | `SystemdJournalLogHandler` and `syslogPriority` |
| utility.dfy, trimming.dfy | `withArrayOfIovecs`, `scan` and `trimmingCharacters(while:)` |

## Model

| member | source | states |
|---|---|---|
| CTypes.UInt8BitPattern | Sources/Systemd/Bus/Encoder/Container/KeyedSystemdBusEncodingContainer.swift:56-58 | `Int8` is written as the `UInt8` with the same bits: equal modulo 256 |
| CTypes.Int8BitPattern | Sources/Systemd/Bus/Decoder/Container/KeyedSystemdBusDecodingContainer.swift:76-78 | the decoder reads an `Int8` back from the `UInt8` with the same bits |
| CTypes.BitPatternRoundTrip | Sources/Systemd/Bus/Decoder/Container/KeyedSystemdBusDecodingContainer.swift:76-78 | the two bit-pattern conversions invert each other, so `Int8` survives the byte round trip |
| BusType.RawValue | Sources/Systemd/Bus/SystemdBusType.swift:3-25 | every tag's raw value is a 7-bit character code, 0 only for `_invalid` |
| BusType.FromRawValue | Sources/Systemd/Bus/SystemdBusType.swift:3-25 | `init(rawValue:)` gives back a tag only with that raw value |
| BusType.RawValueRoundTrip | Sources/Systemd/Bus/SystemdBusType.swift:3-25 | each tag is found again from its raw value |
| BusType.RawValueInjective | Sources/Systemd/Bus/SystemdBusType.swift:3-25 | raw values are pairwise distinct |
| BusType.FromRawValueComplete | Sources/Systemd/Bus/SystemdBusType.swift:3-25 | `init(rawValue:)` succeeds exactly on raw values of tags |
| BusType.RawValuesAreSignatureCharacters | Sources/Systemd/Bus/SystemdBusType.swift:3-25 | the raw values are the D-Bus signature characters (`y`, `b`, `a`, `{`, `}`, `v` ...) |
| BusType.TrivialIsBasic | Sources/Systemd/Bus/SystemdBusType.swift:37-60 | every trivial tag is basic |
| BusType.BasicCharacterisation | Sources/Systemd/Bus/SystemdBusType.swift:37-60 | basic tags are exactly the trivial ones plus string, object path, signature and unix fd |
| BusType.ContainerCharacterisation | Sources/Systemd/Bus/SystemdBusType.swift:27-35 | containers are exactly array, variant, struct and dict entry |
| BusType.BasicAndContainerDisjoint | Sources/Systemd/Bus/SystemdBusType.swift:27-60 | no tag is both basic and a container; `_invalid` and the four markers are neither |
| BusError.MakeError | Sources/Systemd/Bus/SystemdBusError.swift:19-23 | the stored errno is the magnitude of the code; name and message are kept |
| BusError.ErrorOf | Sources/Systemd/Bus/SystemdBusError.swift:19-23 | `SystemdBusError(code:)` carries the code's magnitude and no name or message |
| BusError.MagnitudeIgnoresSign | Sources/Systemd/SystemdBus.swift:18-22 | a code and its negation give the same non-negative errno |
| BusError.FromErrorStruct | Sources/Systemd/Bus/SystemdBusError.swift:25-35 | name and message are copied exactly when the error pointer and that field are present |
| BusError.Throwing | Sources/Systemd/Bus/SystemdBusError.swift:45-52 | a negative return throws the error of that code; any other return is passed back unchanged |
| BusError.ThrowingWithError | Sources/Systemd/Bus/SystemdBusError.swift:54-63 | a negative return throws, carrying the filled-in `sd_bus_error`'s name and message |
| Message.New | Sources/Systemd/Bus/SystemdBusTypeContext.swift:27-33 | a fresh message is unsealed and empty |
| Message.CString | Sources/Systemd/Bus/SystemdBusTypeContext.swift:172-178 | a C string is the prefix before the first NUL |
| Message.CStringOfTerminated | Sources/Systemd/Bus/SystemdBusTypeContext.swift:172-178 | a NUL-terminated signature string reads back as the tags before the NUL |
| Message.AppendBasic | Sources/Systemd/Bus/SystemdBusTypeRepresentable.swift:31-36 | `sd_bus_message_append_basic` adds one basic element to the innermost open container, or fails with EPERM on a sealed message |
| Message.OpenContainer | Sources/Systemd/Bus/SystemdBusTypeContext.swift:129-132 | `sd_bus_message_open_container` pushes an empty frame exactly when the message is unsealed and the contents are a signature libsystemd accepts for that container; else EPERM (sealed) or EINVAL, and nothing changes |
| Message.ElementLength | Sources/Systemd/Bus/SystemdBusTypeContext.swift:129-132 | the length of the one complete type at the head of a signature, within the depth limits; a found length is positive and within the signature |
| Message.MembersLength | Sources/Systemd/Bus/SystemdBusTypeContext.swift:129-132 | the members of a struct or dict entry run up to a closing bracket inside the signature |
| Message.SingleCode | Sources/Systemd/Bus/SystemdBusTypeContext.swift:129-132 | a one-code signature is a single complete type exactly when the code is basic or `v` |
| Message.DictArrayContents | Sources/Systemd/Bus/SystemdBusTypeContext.swift:129-132 | an array declared `{kv}` is accepted exactly when k is basic and v is basic or `v` |
| Message.ClosingStartsNothing | Sources/Systemd/Bus/SystemdBusTypeContext.swift:129-132 | a dict entry's closing code on its own starts no complete type |
| Message.NoMemberBeforeClosing | Sources/Systemd/Bus/SystemdBusTypeContext.swift:129-132 | inside a dict entry, a code that is neither basic nor `v`, followed by the closing code, is no complete member |
| Message.EntryMembers | Sources/Systemd/Bus/SystemdBusTypeContext.swift:129-132 | after a basic key, the members of a dict entry `kv}` are exactly two when v is basic or `v` |
| Message.DictEntryContents | Sources/Systemd/Bus/SystemdBusTypeContext.swift:129-132 | a dict entry declared `kv` is accepted exactly when k is basic and v is basic or `v` |
| Message.CloseContainer | Sources/Systemd/Bus/SystemdBusTypeContext.swift:137-140 | `sd_bus_message_close_container` needs an open frame on an unsealed message |
| Message.CloseOpenFrame | Sources/Systemd/Bus/SystemdBusTypeContext.swift:137-140 | closing turns the innermost frame into one container element of its parent |
| Message.FillAndClose | Sources/Systemd/Bus/SystemdBusTypeContext.swift:129-140 | opening an empty frame, adding a run of elements and closing it adds exactly one container holding that run to the parent |
| Message.AddItemsToOpenFrame | Sources/Systemd/Bus/SystemdBusTypeContext.swift:129-143 | elements added while a container is open go into it, in order |
| Message.AddItemsConcat | Sources/Systemd/Bus/SystemdBusTypeContext.swift:129-143 | adding two runs of elements is adding their concatenation |
| Message.Advance | Sources/Systemd/Bus/SystemdBusTypeContext.swift:92-96 | moving past an element keeps the message valid and its depth |
| Message.PeekType | Sources/Systemd/Bus/SystemdBusTypeContext.swift:67-90 | `sd_bus_message_peek_type` fails on an unsealed message, gives 0 at the end of a container, else the next element's code and, for a container, its signature |
| Message.ReadBasic | Sources/Systemd/Bus/SystemdBusTypeRepresentable.swift:23-29 | `sd_bus_message_read_basic` reads and passes the next basic element of that code; 0 at the end of an array |
| Message.EnterContainer | Sources/Systemd/Bus/SystemdBusTypeContext.swift:101-118 | `sd_bus_message_enter_container` enters the next container of that code; 0 at the end of an array |
| Message.ExitContainer | Sources/Systemd/Bus/SystemdBusTypeContext.swift:120-125 | `sd_bus_message_exit_container` pops the innermost cursor: an array at any point, another container only at its end |
| Message.AtEnd | Sources/Systemd/Bus/SystemdBusTypeContext.swift:56-65 | `sd_bus_message_at_end` is positive exactly at the end of the current container |
| Message.Skip | Sources/Systemd/Bus/SystemdBusTypeContext.swift:92-96 | `sd_bus_message_skip` passes one element, or returns 0 at the end |
| Message.Rewind | Sources/Systemd/Bus/SystemdBusTypeContext.swift:44-54 | a complete rewind puts a sealed message back at the start of its body |
| Message.Seal | Sources/Systemd/Bus/SystemdBus.swift:123-132 | sending seals a message with no open container; it is then read from the start |
| Message.Copy | Sources/Systemd/Bus/SystemdBusTypeContext.swift:147-153 | `sd_bus_message_copy` needs an unsealed destination and a sealed source |
| Message.AdvanceWeight | Sources/Systemd/Bus/SystemdBusTypeContext.swift:92-96 | passing an element removes exactly its size from what is left to read |
| Message.EnterWeight | Sources/Systemd/Bus/SystemdBusTypeContext.swift:101-118 | entering a container never adds to what is left to read, and strictly lessens it when it succeeds |
| Message.ExitWeight | Sources/Systemd/Bus/SystemdBusTypeContext.swift:120-125 | leaving a container never adds to what is left to read |
| Message.ReadBasicWeight | Sources/Systemd/Bus/SystemdBusTypeRepresentable.swift:23-29 | a successful basic read strictly lessens what is left to read |
| Message.SkipWeight | Sources/Systemd/Bus/SystemdBusTypeContext.swift:92-96 | a successful skip strictly lessens what is left to read |
| Message.ArrayConformance | Sources/Systemd/Bus/Encoder/SystemdBusEncoderImpl.swift:86-93 | an array conforms exactly when each item conforms and has the element signature |
| Message.VariantConformance | Sources/Systemd/Bus/SystemdBusTypeRepresentable.swift:287-293 | a variant conforms exactly when its one item conforms and has the declared signature |
| TypeRepresentable.KindOf | Sources/Systemd/Bus/SystemdBusTypeRepresentable.swift:22-256 | each scalar Swift value has a kind other than variant |
| TypeRepresentable.KindTag | Sources/Systemd/Bus/SystemdBusTypeRepresentable.swift:328-361 | the registry maps each representable kind to a basic tag or to variant |
| TypeRepresentable.TagKind | Sources/Systemd/Bus/SystemdBusTypeRepresentable.swift:363-396 | the reverse map only gives kinds whose forward tag is the given tag |
| TypeRepresentable.KindTagRoundTrip | Sources/Systemd/Bus/SystemdBusTypeRepresentable.swift:328-396 | reverse(forward(k)) == k for every kind |
| TypeRepresentable.KindTagInjective | Sources/Systemd/Bus/SystemdBusTypeRepresentable.swift:328-361 | the 14 kinds have 14 distinct tags |
| TypeRepresentable.TagKindDomain | Sources/Systemd/Bus/SystemdBusTypeRepresentable.swift:363-396 | the reverse map is defined exactly on the basic tags and variant, nil for containers, markers and `_invalid` |
| TypeRepresentable.TagKindRoundTrip | Sources/Systemd/Bus/SystemdBusTypeRepresentable.swift:328-396 | forward(reverse(t)) == t wherever reverse is defined |
| TypeRepresentable.CodableTypeTag | Sources/Systemd/Bus/SystemdBusTypeRepresentable.swift:318-326 | the generic map gives the registry tag for representable types, array for array types, struct otherwise |
| TypeRepresentable.KindOfValue | Sources/Systemd/Bus/SystemdBusTypeRepresentable.swift:306-316 | a value has a kind exactly when it is itself representable |
| TypeRepresentable.TypeOfAnyValue | Sources/Systemd/Bus/SystemdBusTypeRepresentable.swift:306-312 | `_typeOfAnyValue` is the registry tag for a representable instance, struct for anything else |
| TypeRepresentable.KindCode | Sources/Systemd/Bus/SystemdBusTypeRepresentable.swift:22-256 | the code passed to libsystemd is the raw value of the kind's registry tag |
| TypeRepresentable.ScalarElem | Sources/Systemd/Bus/SystemdBusTypeRepresentable.swift:22-256 | `append(context:)` writes a conforming basic element under the kind's own code |
| TypeRepresentable.ScalarFromWord | Sources/Systemd/Bus/SystemdBusTypeRepresentable.swift:22-256 | `init(context:)` builds a value of the requested kind from what `read_basic` filled in |
| TypeRepresentable.ScalarDefault | Sources/Systemd/Bus/SystemdBusTypeRepresentable.swift:22-190 | what an unfilled zeroed temporary gives: 0 for the numeric kinds, nothing for the string kinds |
| TypeRepresentable.ScalarRoundTrip | Sources/Systemd/Bus/SystemdBusTypeRepresentable.swift:22-256 | reading back what `append(context:)` wrote gives the same value |
| TypeRepresentable.BoolRoundTrip | Sources/Systemd/Bus/SystemdBusTypeRepresentable.swift:39-54 | a Bool is written as the 32-bit 1 or 0 under the boolean code and read back as value != 0 |
| TypeContext.NewContext | Sources/Systemd/Bus/SystemdBusTypeContext.swift:35-37 | a new context is at level 1 with nothing peeked |
| TypeContext.CurrentType | Sources/Systemd/Bus/SystemdBusTypeContext.swift:23 | `currentType` is nil exactly when the stored tag is `_invalid`, else that tag |
| TypeContext.MapTypesToString | Sources/Systemd/Bus/SystemdBusTypeContext.swift:172-178 | nil maps to nil; otherwise one character per tag, in order, then one NUL |
| TypeContext.SignatureArgOfTags | Sources/Systemd/Bus/SystemdBusTypeContext.swift:172-178 | a tag list reaches libsystemd as exactly its characters, the NUL ending the C string |
| TypeContext.TagsOf | Sources/Systemd/Bus/SystemdBusTypeContext.swift:76-89 | `SystemdBusType(rawValue:)!` over the peeked codes succeeds exactly when every code is a tag, and keeps them in order |
| TypeContext.PeekTypeSpec | Sources/Systemd/Bus/SystemdBusTypeContext.swift:67-90 | peeking fails exactly on an unsealed message; 0 means end with no type; otherwise the next element's tag and, for containers, the contents |
| TypeContext.PeekedContentsRoundTrip | Sources/Systemd/Bus/SystemdBusTypeContext.swift:67-90 | the contents a peek records, mapped back to a string, are the signature libsystemd reported with its NUL |
| TypeContext.PeekTrapsOnUnknownCode | Sources/Systemd/Bus/SystemdBusTypeContext.swift:76-89 | a code that is no tag makes the forced unwrap trap rather than throw |
| TypeContext.EnterSpec | Sources/Systemd/Bus/SystemdBusTypeContext.swift:100-118 | the level goes up exactly when libsystemd entered (result > 0); at the end of an array nothing changes; on error nothing changes |
| TypeContext.EnterPeeked | Sources/Systemd/Bus/SystemdBusTypeContext.swift:108-117 | the same, once the peeked type and contents are recorded |
| TypeContext.ExitSpec | Sources/Systemd/Bus/SystemdBusTypeContext.swift:120-125 | the level goes down exactly when the libsystemd exit succeeds; on failure the context is unchanged |
| TypeContext.OpenSpec | Sources/Systemd/Bus/SystemdBusTypeContext.swift:129-135 | opening succeeds exactly on an unsealed message with contents libsystemd accepts, then raises the level and records the contents; otherwise EPERM or EINVAL and nothing changes |
| TypeContext.BasicCodeOfTag | Sources/Systemd/Bus/SystemdBusType.swift:37-60 | a tag is basic exactly when its raw value is a basic D-Bus code, and is `variant` exactly when it is `v` |
| TypeContext.OneTagContents | Sources/Systemd/Bus/SystemdBusTypeContext.swift:129-135 | an array or variant declared with one tag opens exactly when that tag is basic or `variant` |
| TypeContext.OpenOneTag | Sources/Systemd/Bus/SystemdBusTypeContext.swift:129-135 | an array or variant on one basic or `variant` tag opens on an unsealed message, pushing an empty frame and raising the level by one |
| TypeContext.OneTagRefused | Sources/Systemd/Bus/SystemdBusTypeContext.swift:129-135 | on any other single tag the open fails with EINVAL and the state is unchanged |
| TypeContext.CloseSpec | Sources/Systemd/Bus/SystemdBusTypeContext.swift:137-143 | closing succeeds exactly with an open container on an unsealed message; it lowers the level and clears the contents |
| TypeContext.OpenCloseBalanced | Sources/Systemd/Bus/SystemdBusTypeContext.swift:129-143 | a successful open followed by close leaves the level where it was |
| TypeContext.IsAtEndSpec | Sources/Systemd/Bus/SystemdBusTypeContext.swift:56-65 | `isAtEnd` is true at the end of the current container and also when libsystemd fails |
| TypeContext.SkipSpec | Sources/Systemd/Bus/SystemdBusTypeContext.swift:92-96 | skipping passes exactly one element and keeps the level, type and contents |
| TypeContext.RewindSpec | Sources/Systemd/Bus/SystemdBusTypeContext.swift:44-54 | rewinding succeeds exactly on a sealed message; a complete rewind restarts the body |
| TypeContext.CopySpec | Sources/Systemd/Bus/SystemdBusTypeContext.swift:147-153 | the copy succeeds only into an unsealed message from a sealed one; a failure changes neither |
| TypeContext.MergeCollect | Sources/Systemd/Bus/SystemdBusTypeContext.swift:155-162 | the first pass of `merge` only extends the tag list it was given |
| TypeContext.MergeNeverSucceeds | Sources/Systemd/Bus/SystemdBusTypeContext.swift:155-169 | `merge` peeks the message it is writing: libsystemd refuses with EPERM, and a sealed one cannot take the struct, so `merge` never succeeds |
| TypeContext.AppendScalarSpec | Sources/Systemd/Bus/SystemdBusTypeRepresentable.swift:22-256 | `append(context:)` of a scalar adds exactly its basic element, succeeding exactly on an unsealed message |
| TypeContext.ReadScalarSpec | Sources/Systemd/Bus/SystemdBusTypeRepresentable.swift:22-256 | `init(context:)` reads the next basic element into a value of the requested kind |
| TypeContext.ScalarAppendReadRoundTrip | Sources/Systemd/Bus/SystemdBusTypeRepresentable.swift:22-256 | appending a scalar to a fresh message, sealing and reading it back gives the same scalar |
| TypeContext.SystemdBusTypeContext.constructor | Sources/Systemd/Bus/SystemdBusTypeContext.swift:35-37 | `init(message:)` starts at level 1 with nothing peeked |
| TypeContext.SystemdBusTypeContext.CurrentType | Sources/Systemd/Bus/SystemdBusTypeContext.swift:23 | as `TypeContext.CurrentType` on the object's fields |
| TypeContext.SystemdBusTypeContext.PeekType | Sources/Systemd/Bus/SystemdBusTypeContext.swift:67-90 | the method's result is PeekTypeSpec of its state, and it records the type and contents |
| TypeContext.SystemdBusTypeContext.Skip | Sources/Systemd/Bus/SystemdBusTypeContext.swift:92-96 | new state and result are SkipSpec of the old state |
| TypeContext.SystemdBusTypeContext.EnterContainer | Sources/Systemd/Bus/SystemdBusTypeContext.swift:100-118 | new state and result are EnterSpec of the old state |
| TypeContext.SystemdBusTypeContext.EnterPeekedContainer | Sources/Systemd/Bus/SystemdBusTypeContext.swift:108-117 | new state and result are EnterPeeked of the old state |
| TypeContext.SystemdBusTypeContext.ExitContainer | Sources/Systemd/Bus/SystemdBusTypeContext.swift:120-125 | new state and result are ExitSpec of the old state |
| TypeContext.SystemdBusTypeContext.OpenContainer | Sources/Systemd/Bus/SystemdBusTypeContext.swift:129-135 | new state and result are OpenSpec of the old state |
| TypeContext.SystemdBusTypeContext.CloseContainer | Sources/Systemd/Bus/SystemdBusTypeContext.swift:137-143 | new state and result are CloseSpec of the old state |
| TypeContext.SystemdBusTypeContext.IsAtEnd | Sources/Systemd/Bus/SystemdBusTypeContext.swift:56-65 | true exactly at the end of the current container or when libsystemd fails |
| TypeContext.SystemdBusTypeContext.Rewind | Sources/Systemd/Bus/SystemdBusTypeContext.swift:44-54 | new state and result are RewindSpec of the old state |
| TypeContext.SystemdBusTypeContext.Copy | Sources/Systemd/Bus/SystemdBusTypeContext.swift:147-153 | both contexts' new states and the result are CopySpec of the old ones |
| TypeContext.SystemdBusTypeContext.Merge | Sources/Systemd/Bus/SystemdBusTypeContext.swift:155-169 | both contexts' new states and the result are MergeSpec of the old ones, which never succeeds |
| TypeContext.SystemdBusTypeContext.AppendScalar | Sources/Systemd/Bus/SystemdBusTypeRepresentable.swift:22-256 | new state and result are AppendScalarSpec of the old state |
| TypeContext.SystemdBusTypeContext.ReadScalar | Sources/Systemd/Bus/SystemdBusTypeRepresentable.swift:22-256 | new state and result are ReadScalarSpec of the old state |
| Encoder.IntScalar | Sources/Systemd/Bus/Encoder/Container/KeyedSystemdBusEncodingContainer.swift:48-72 | `Int` and `UInt` become the 64-bit (or 32-bit) type holding the same number; `Int8` becomes the `UInt8` with its bits |
| Encoder.DictContents | Sources/Systemd/Bus/Encoder/SystemdBusEncoderImpl.swift:76-83 | a dictionary's array is declared as one dict entry of key and value tags |
| Encoder.DictContentsAreAlwaysStructs | Sources/Systemd/Bus/Encoder/SystemdBusEncoderImpl.swift:76-83 | `_typeOfAnyValue` of a metatype is always struct, so every dictionary declares `{rr}`, which libsystemd refuses for an array |
| Encoder.StructPairTags | Sources/Systemd/Bus/Encoder/SystemdBusEncoderImpl.swift:80-83 | the tags of a dict entry of two structs reach libsystemd as `{rr}` |
| Encoder.DictArrayRefused | Sources/Systemd/Bus/Encoder/SystemdBusEncoderImpl.swift:80-83 | libsystemd refuses every dictionary's array signature |
| Encoder.Encode | Sources/Systemd/Bus/Encoder/SystemdBusEncoderImpl.swift:67-102 | the static dispatch keeps the message well formed; what it writes and when it succeeds are EncodeOutcome and EncodeWrites |
| Encoder.EncodeAsDictionary | Sources/Systemd/Bus/Encoder/SystemdBusEncoderImpl.swift:75-85 | the dictionary branch keeps the message well formed (see DictionaryOutcome) |
| Encoder.EncodeAsArray | Sources/Systemd/Bus/Encoder/SystemdBusEncoderImpl.swift:86-93 | the array branch keeps the message well formed (see ArrayOutcome, ArrayWrites) |
| Encoder.EncodeAsStruct | Sources/Systemd/Bus/Encoder/SystemdBusEncoderImpl.swift:94-100 | the struct branch keeps the message well formed; it fails on a message being written (see FieldsOutcome, EncodeOutcome) |
| Encoder.MergeInto | Sources/Systemd/Bus/Encoder/SystemdBusEncoderImpl.swift:100 | merging a sub-context's outcome keeps the parent well formed |
| Encoder.VariantAppend | Sources/Systemd/Bus/SystemdBusTypeRepresentable.swift:287-293 | `Variant.append` keeps the message well formed (see VariantOutcome, VariantWrites) |
| Encoder.EncodeElements | Sources/Systemd/Bus/Encoder/SystemdBusEncoderImpl.swift:92 | the elements loop keeps the message well formed (see ElementsOutcome, ElementsWrite) |
| Encoder.ElementsStep | Sources/Systemd/Bus/Encoder/SystemdBusEncoderImpl.swift:92 | the elements loop stops at the first failure and otherwise goes on from the next element |
| Encoder.EncodeEntries | Sources/Systemd/Bus/Encoder/SystemdBusEncoderImpl.swift:84 | the entries loop keeps the message well formed |
| Encoder.EncodeEntry | Sources/Systemd/Bus/Encoder/SystemdBusEncoderImpl.swift:84 | one entry keeps the message well formed |
| Encoder.KeyedEntriesStep | Sources/Systemd/Bus/Encoder/SystemdBusEncoderImpl.swift:84 | with `String` or `Int` keys the entries loop writes each value and stops at the first failure |
| Encoder.EncodeFields | Sources/Systemd/Bus/Encoder/SystemdBusEncoderImpl.swift:96-99 | the fields loop keeps the message well formed (see FieldsOutcome) |
| Encoder.FieldsStep | Sources/Systemd/Bus/Encoder/SystemdBusEncoderImpl.swift:96-99 | the fields loop stops at the first failure and otherwise goes on from the next field |
| Encoder.EncodeField | Sources/Systemd/Bus/Encoder/Container/KeyedSystemdBusEncodingContainer.swift:36-84 | a field is encoded by the overload Swift picks and keeps the message well formed |
| Encoder.EncodeDict | Sources/Systemd/Bus/Encoder/SystemdBusEncoderImpl.swift:41-65 | `encodeDict` keeps the message well formed (see EncodeDictRefused) |
| Encoder.EncodeDictEntries | Sources/Systemd/Bus/Encoder/SystemdBusEncoderImpl.swift:57-62 | the `forEach` of `encodeDict` keeps the message well formed |
| Encoder.DictEntriesStep | Sources/Systemd/Bus/Encoder/SystemdBusEncoderImpl.swift:57-62 | that loop stops at the first failure and otherwise goes on from the next pair |
| Encoder.EncodeDictEntry | Sources/Systemd/Bus/Encoder/SystemdBusEncoderImpl.swift:58-61 | one pair of `encodeDict` keeps the message well formed |
| Encoder.Refusal | Sources/Systemd/Bus/Encoder/SystemdBusEncoderImpl.swift:67-102 | the errno an encode fails with is 0 exactly for the encodable values, and otherwise EPERM or EINVAL |
| Encoder.ElementsRefusal | Sources/Systemd/Bus/Encoder/SystemdBusEncoderImpl.swift:86-93 | the first refusal among the remaining elements is 0 exactly when they are all encodable |
| Encoder.FieldsRefusal | Sources/Systemd/Bus/Encoder/SystemdBusEncoderImpl.swift:94-100 | the first refusal among a struct's remaining fields, integer fields never refused, is 0, EPERM or EINVAL |
| Encoder.WireElements | Sources/Systemd/Bus/Encoder/SystemdBusEncoderImpl.swift:86-93 | the written items are the elements' own elements, one per element, in order |
| Encoder.WireElementAt | Sources/Systemd/Bus/Encoder/SystemdBusEncoderImpl.swift:86-93 | item j of the written run is the wire form of element j, and that element is itself encodable |
| Encoder.EncodeOutcome | Sources/Systemd/Bus/Encoder/SystemdBusEncoderImpl.swift:67-102 | on a message being written, encoding succeeds exactly for the encodable values and never traps; otherwise it fails with EINVAL where libsystemd refuses a container's contents (a dictionary, an array of non-representable elements, a variant of a container) and EPERM where `merge` is reached |
| Encoder.VariantOutcome | Sources/Systemd/Bus/SystemdBusTypeRepresentable.swift:287-293 | a variant succeeds exactly when its payload is a scalar or a variant and encodable; one holding a container is refused with EINVAL when opened |
| Encoder.ArrayOutcome | Sources/Systemd/Bus/Encoder/SystemdBusEncoderImpl.swift:86-93 | an array succeeds exactly when its element type is representable and every element is encodable; otherwise the first refusal |
| Encoder.DictionaryOutcome | Sources/Systemd/Bus/Encoder/SystemdBusEncoderImpl.swift:75-85 | a dictionary always fails with EINVAL when its `{rr}` array is opened, leaving the context unchanged |
| Encoder.ElementsEncodableStep | Sources/Systemd/Bus/Encoder/SystemdBusEncoderImpl.swift:86-93 | the elements from i on are encodable exactly when element i and the rest are |
| Encoder.ElementsOutcome | Sources/Systemd/Bus/Encoder/SystemdBusEncoderImpl.swift:92 | the elements loop succeeds exactly when the remaining elements are encodable, else fails with the first refusal |
| Encoder.EncodeWrites | Sources/Systemd/Bus/Encoder/SystemdBusEncoderImpl.swift:67-102 | a successful encode adds exactly one element, the value's wire form, to the innermost open container, at the same level |
| Encoder.VariantWrites | Sources/Systemd/Bus/SystemdBusTypeRepresentable.swift:287-293 | a successful variant is one variant element, declared with the payload's tag, holding the payload |
| Encoder.ArrayWrites | Sources/Systemd/Bus/Encoder/SystemdBusEncoderImpl.swift:86-93 | a successful array is one array element holding the elements in order |
| Encoder.ElementsWrite | Sources/Systemd/Bus/Encoder/SystemdBusEncoderImpl.swift:92 | the elements loop appends the remaining elements' wire forms in order |
| Encoder.FieldsOutcome | Sources/Systemd/Bus/Encoder/SystemdBusEncoderImpl.swift:94-100 | encoding a struct's fields never traps; it succeeds exactly when no field is refused, else fails with the first refusal |
| Encoder.EncodeOnSealedFails | Sources/Systemd/Bus/Encoder/SystemdBusEncoderImpl.swift:67-102 | no encode succeeds on a sealed message |
| Encoder.WrittenAsDeclared | Sources/Systemd/Bus/Encoder/SystemdBusEncoderImpl.swift:72-93 | every value the dispatch writes is written as its static type declares, its kind's code or `a` and the element kind's code, each element agreeing |
| Encoder.VariantWrittenAsDeclared | Sources/Systemd/Bus/SystemdBusTypeRepresentable.swift:287-293 | a written variant has signature `v` and agrees with its declared contents all the way down |
| Encoder.ArrayWrittenAsDeclared | Sources/Systemd/Bus/Encoder/SystemdBusEncoderImpl.swift:86-93 | a written array of a well-typed value has signature `a` followed by the element kind's code, and agrees with that signature all the way down |
| Encoder.EncodeDictRefused | Sources/Systemd/Bus/Encoder/SystemdBusEncoderImpl.swift:41-65 | `encodeDict` always fails with EINVAL when its `{rr}` array is opened, leaving the context unchanged |
| Encoder.StructPairRefused | Sources/Systemd/Bus/Encoder/SystemdBusEncoderImpl.swift:58 | a dict entry declared `rr` is refused with EINVAL |
| Encoder.EncodeDictEntryRefused | Sources/Systemd/Bus/Encoder/SystemdBusEncoderImpl.swift:58-61 | each pair's dict entry of `encodeDict` would be refused with EINVAL as well |
| EncodingContainers.DictionaryKey | Sources/Systemd/Bus/Encoder/Container/KeyedSystemdBusEncodingContainer.swift:82-84 | a `String` key becomes a named coding key and an `Int` key an integer one |
| EncodingContainers.EncoderImpl.constructor | Sources/Systemd/Bus/Encoder/SystemdBusEncoderImpl.swift:9-12 | the encoder keeps the context and coding path it was given |
| EncodingContainers.EncoderImpl.KeyedContainer | Sources/Systemd/Bus/Encoder/SystemdBusEncoderImpl.swift:14-18 | a fresh keyed container on the same context and path |
| EncodingContainers.EncoderImpl.UnkeyedContainer | Sources/Systemd/Bus/Encoder/SystemdBusEncoderImpl.swift:20-22 | a fresh unkeyed container on the same context and path, count 0 |
| EncodingContainers.EncoderImpl.SingleValueContainer | Sources/Systemd/Bus/Encoder/SystemdBusEncoderImpl.swift:24-26 | a fresh single-value container on the same context and path |
| EncodingContainers.KeyedEncodingContainer.constructor | Sources/Systemd/Bus/Encoder/Container/KeyedSystemdBusEncodingContainer.swift:8-11 | the container keeps its context and path |
| EncodingContainers.KeyedEncodingContainer.NestedContainer | Sources/Systemd/Bus/Encoder/Container/KeyedSystemdBusEncodingContainer.swift:13-22 | same context, key appended to the path |
| EncodingContainers.KeyedEncodingContainer.NestedUnkeyedContainer | Sources/Systemd/Bus/Encoder/Container/KeyedSystemdBusEncodingContainer.swift:24-26 | same context, key appended to the path, count 0 |
| EncodingContainers.KeyedEncodingContainer.SuperEncoder | Sources/Systemd/Bus/Encoder/Container/KeyedSystemdBusEncodingContainer.swift:28-34 | both super encoders keep context and path |
| EncodingContainers.KeyedEncodingContainer.EncodeNil | Sources/Systemd/Bus/Encoder/Container/KeyedSystemdBusEncodingContainer.swift:36 | `encodeNil(forKey:)` succeeds and writes nothing |
| EncodingContainers.KeyedEncodingContainer.EncodeInteger | Sources/Systemd/Bus/Encoder/Container/KeyedSystemdBusEncodingContainer.swift:48-72 | the `Int`, `Int8` and `UInt` overloads: new state and result are EncodeField of the old state |
| EncodingContainers.KeyedEncodingContainer.EncodeScalar | Sources/Systemd/Bus/Encoder/Container/KeyedSystemdBusEncodingContainer.swift:38-80 | the fixed-type overloads: new state and result are AppendScalarSpec of the old state |
| EncodingContainers.KeyedEncodingContainer.EncodeGeneric | Sources/Systemd/Bus/Encoder/Container/KeyedSystemdBusEncodingContainer.swift:82-84 | the generic overload: new state and result are Encoder.Encode of the old state |
| EncodingContainers.KeyedEncodingContainer.Encode | Sources/Systemd/Bus/Encoder/Container/KeyedSystemdBusEncodingContainer.swift:36-84 | whichever overload Swift picks: new state and result are EncodeField of the old state |
| EncodingContainers.KeyedEncodingContainer.EncodeIfPresent | Sources/Systemd/Bus/Encoder/Container/KeyedSystemdBusEncodingContainer.swift:86-204 | nil writes nothing and succeeds; a value is encoded as `encode(_:forKey:)` would |
| EncodingContainers.UnkeyedEncodingContainer.constructor | Sources/Systemd/Bus/Encoder/Container/UnkeyedSystemdBusEncodingContainer.swift:9-12 | the container keeps its context and path and starts at count 0 |
| EncodingContainers.UnkeyedEncodingContainer.NestedContainer | Sources/Systemd/Bus/Encoder/Container/UnkeyedSystemdBusEncodingContainer.swift:14-22 | same context and path |
| EncodingContainers.UnkeyedEncodingContainer.NestedUnkeyedContainer | Sources/Systemd/Bus/Encoder/Container/UnkeyedSystemdBusEncodingContainer.swift:24-26 | same context and path, its own count from 0 |
| EncodingContainers.UnkeyedEncodingContainer.SuperEncoder | Sources/Systemd/Bus/Encoder/Container/UnkeyedSystemdBusEncodingContainer.swift:28-30 | same context and path |
| EncodingContainers.UnkeyedEncodingContainer.EncodeNil | Sources/Systemd/Bus/Encoder/Container/UnkeyedSystemdBusEncodingContainer.swift:32-35 | writes nothing, yet the count goes up by one |
| EncodingContainers.UnkeyedEncodingContainer.EncodeInteger | Sources/Systemd/Bus/Encoder/Container/UnkeyedSystemdBusEncodingContainer.swift:53-63 | EncodeField of the old state; the count goes up exactly on success |
| EncodingContainers.UnkeyedEncodingContainer.EncodeScalar | Sources/Systemd/Bus/Encoder/Container/UnkeyedSystemdBusEncodingContainer.swift:37-99 | AppendScalarSpec of the old state; the count goes up exactly on success |
| EncodingContainers.UnkeyedEncodingContainer.EncodeGeneric | Sources/Systemd/Bus/Encoder/Container/UnkeyedSystemdBusEncodingContainer.swift:101-108 | Encoder.Encode of the old state; the count goes up exactly on success |
| EncodingContainers.UnkeyedEncodingContainer.Encode | Sources/Systemd/Bus/Encoder/Container/UnkeyedSystemdBusEncodingContainer.swift:37-108 | EncodeField of the old state; the count goes up exactly on success |
| EncodingContainers.SingleValueEncodingContainer.constructor | Sources/Systemd/Bus/Encoder/Container/SingleValueSystemdBusEncodingContainer.swift:8-11 | the container keeps its context and path |
| EncodingContainers.SingleValueEncodingContainer.EncodeNil | Sources/Systemd/Bus/Encoder/Container/SingleValueSystemdBusEncodingContainer.swift:13 | succeeds and writes nothing |
| EncodingContainers.SingleValueEncodingContainer.EncodeInteger | Sources/Systemd/Bus/Encoder/Container/SingleValueSystemdBusEncodingContainer.swift:23-33 | the `Int`, `Int8` and `UInt` overloads: EncodeField of the old state |
| EncodingContainers.SingleValueEncodingContainer.EncodeScalar | Sources/Systemd/Bus/Encoder/Container/SingleValueSystemdBusEncodingContainer.swift:15-55 | the fixed-type overloads: AppendScalarSpec of the old state |
| EncodingContainers.SingleValueEncodingContainer.EncodeGeneric | Sources/Systemd/Bus/Encoder/Container/SingleValueSystemdBusEncodingContainer.swift:57 | the generic overload: Encoder.Encode of the old state |
| EncodingContainers.EncodeValue | Sources/Systemd/Bus/Encoder/SystemdBusEncoderImpl.swift:67-102 | the static dispatch on a context object: new state and result are Encoder.Encode of the old state |
| EncodingContainers.EncodeDictionaryValue | Sources/Systemd/Bus/Encoder/SystemdBusEncoderImpl.swift:75-85 | the dictionary branch: EncodeAsDictionary of the old state |
| EncodingContainers.EncodeArrayValue | Sources/Systemd/Bus/Encoder/SystemdBusEncoderImpl.swift:86-93 | the array branch: EncodeAsArray of the old state |
| EncodingContainers.EncodeStructValue | Sources/Systemd/Bus/Encoder/SystemdBusEncoderImpl.swift:94-100 | the struct branch: EncodeAsStruct of the old state |
| EncodingContainers.EncodeIntegerValue | Sources/Systemd/Bus/Encoder/SystemdBusEncoderImpl.swift:94-100 | `Int`, `Int8` and `UInt` in a generic position take the struct branch: Encoder.Encode of the old state |
| EncodingContainers.AppendVariant | Sources/Systemd/Bus/SystemdBusTypeRepresentable.swift:287-293 | `Variant.append`: VariantAppend of the old state |
| EncodingContainers.ArrayEncode | Sources/Systemd/Bus/Encoder/SystemdBusEncoderImpl.swift:92 | the array's element loop through one unkeyed container: EncodeElements of the old state |
| EncodingContainers.DictionaryEncode | Sources/Systemd/Bus/Encoder/SystemdBusEncoderImpl.swift:84 | the dictionary's loop, keyed or unkeyed by key type: EncodeEntries of the old state |
| EncodingContainers.KeyedDictionaryEncode | Sources/Systemd/Bus/Encoder/SystemdBusEncoderImpl.swift:84 | the keyed loop, values only: EncodeEntries of the old state |
| EncodingContainers.UnkeyedDictionaryEncode | Sources/Systemd/Bus/Encoder/SystemdBusEncoderImpl.swift:84 | the unkeyed loop, key then value: EncodeEntries of the old state |
| EncodingContainers.UnkeyedEntryEncode | Sources/Systemd/Bus/Encoder/SystemdBusEncoderImpl.swift:84 | one unkeyed entry: EncodeEntry of the old state, and the count goes up by 2 on success |
| EncodingContainers.StructEncode | Sources/Systemd/Bus/Encoder/SystemdBusEncoderImpl.swift:96-99 | a struct's fields through one keyed container: EncodeFields of the old state |
| EncodingContainers.EncodeDictionary | Sources/Systemd/Bus/Encoder/SystemdBusEncoderImpl.swift:41-65 | `encodeDict`: EncodeDict of the old state |
| EncodingContainers.EncodeDictionaryEntry | Sources/Systemd/Bus/Encoder/SystemdBusEncoderImpl.swift:58-61 | one pair of `encodeDict`: EncodeDictEntry of the old state |
| Decoder.IntFromScalar | Sources/Systemd/Bus/Decoder/Container/KeyedSystemdBusDecodingContainer.swift:68-101 | `Int(_:)`, `UInt(_:)` and `Int8(bitPattern:)` give a value of the requested integer type |
| Decoder.IntTypeOf | Sources/Systemd/Bus/Decoder/Container/KeyedSystemdBusDecodingContainer.swift:68-101 | an integer value's static type is one of `Int`, `Int8`, `UInt`, and the value has it |
| Decoder.IntConversionRoundTrip | Sources/Systemd/Bus/Decoder/Container/KeyedSystemdBusDecodingContainer.swift:68-101 | the decoder's width conversions invert the encoder's: same kind read as written, same integer back |
| Decoder.ReadInteger | Sources/Systemd/Bus/Decoder/Container/KeyedSystemdBusDecodingContainer.swift:68-101 | a concrete integer overload reads one element of the fixed-width kind and yields a value of the requested type |
| Decoder.DecodeNil | Sources/Systemd/Bus/Decoder/SystemdBusDecoderImpl.swift:38-41 | `decodeNil` always answers false |
| Decoder.AssertType | Sources/Systemd/Bus/Decoder/SystemdBusDecoderImpl.swift:43-47 | `assertType` succeeds exactly when the peek succeeds with the expected tag, else EBADMSG; it traps exactly when the peek does |
| Decoder.AssignTyped | Sources/Systemd/Bus/Decoder/SystemdBusDecoderImpl.swift:71 | a dictionary built by assignment keeps every key and value of its declared types |
| Decoder.Decode | Sources/Systemd/Bus/Decoder/SystemdBusDecoderImpl.swift:57-77 | the static decode keeps the message valid, never adds to what is left to read, passes exactly one element when it succeeds on one, and gives a value of the requested type |
| Decoder.DecodeVariant | Sources/Systemd/Bus/SystemdBusTypeRepresentable.swift:272-285 | `Variant.init(context:)` keeps the message valid and gives a variant |
| Decoder.DecodeInContainer | Sources/Systemd/Bus/Decoder/SystemdBusDecoderImpl.swift:67-73 | the container branch keeps the message valid and gives a value of the requested type |
| Decoder.DecodeFrom | Sources/Systemd/Bus/Decoder/SystemdBusDecoderImpl.swift:71 | `init(from:)` of a non-representable type gives a value of that type |
| Decoder.DecodeElements | Sources/Systemd/Bus/Decoder/SystemdBusDecoderImpl.swift:71 | `Array.init(from:)` gives an array of the element type |
| Decoder.DecodePairs | Sources/Systemd/Bus/Decoder/SystemdBusDecoderImpl.swift:71 | `Dictionary.init(from:)` gives a dictionary of the key and value types |
| Decoder.DecodeFields | Sources/Systemd/Bus/Decoder/SystemdBusDecoderImpl.swift:71 | a struct's `init(from:)` gives fields of the declared types |
| Decoder.DecodeField | Sources/Systemd/Bus/Decoder/Container/KeyedSystemdBusDecodingContainer.swift:129-136 | `decode(_:forKey:)` gives a value of the requested type |
| Decoder.DecodeMessage | Sources/Systemd/Bus/Decoder/SystemdBusDecoder.swift:12-17 | `SystemdBusDecoder.decode(_:from:)` gives a value of the requested type |
| Decoder.TagsOfRawValues | Sources/Systemd/Bus/SystemdBusTypeContext.swift:76-89 | mapping the characters of tags, then NUL, back through `SystemdBusType(rawValue:)` gives the tags and `_invalid` |
| Decoder.PeekContainer | Sources/Systemd/Bus/SystemdBusTypeContext.swift:67-90 | peeking at a container reports its tag and the tags its signature spells |
| Decoder.EnterContainerNext | Sources/Systemd/Bus/SystemdBusTypeContext.swift:100-118 | `enterContainer()` with no arguments enters whatever container is next |
| Decoder.ExitEntered | Sources/Systemd/Bus/SystemdBusTypeContext.swift:120-125 | leaving a container once all of it is read returns to the element after it |
| Decoder.EncodableFitsWord | Sources/Systemd/Bus/Encoder/Container/KeyedSystemdBusEncodingContainer.swift:48-72 | an encodable value holds no `Int` or `UInt`, so it fits either word size |
| Decoder.DecodeWire | Sources/Systemd/Bus/Decoder/SystemdBusDecoderImpl.swift:57-77 | decoding, as its own type, a value the encoder wrote gives that value, moves past its element and keeps the level |
| Decoder.VariantWireShape | Sources/Systemd/Bus/SystemdBusTypeRepresentable.swift:287-293 | a written variant is a container whose signature spells its payload's tag |
| Decoder.ArrayWireShape | Sources/Systemd/Bus/Encoder/SystemdBusEncoderImpl.swift:86-93 | a written array is an array container whose signature spells its element tag |
| Decoder.VariantUnfold | Sources/Systemd/Bus/SystemdBusTypeRepresentable.swift:272-285 | the variant path once entered with a representable kind inside |
| Decoder.VariantNoKind | Sources/Systemd/Bus/SystemdBusTypeRepresentable.swift:272-285 | the variant path fails with EBADMSG when the content has no representable kind |
| Decoder.InContainerOnDict | Sources/Systemd/Bus/Decoder/SystemdBusDecoderImpl.swift:67-70 | the container branch traps when what it entered holds dict entries |
| Decoder.InContainerUnfold | Sources/Systemd/Bus/Decoder/SystemdBusDecoderImpl.swift:67-73 | the container branch when the contents decode and the exit succeeds |
| Decoder.PeekRepresentable | Sources/Systemd/Bus/SystemdBusTypeRepresentable.swift:258-263 | peeking at a written scalar or variant reports the registry tag of its kind |
| Decoder.PeekScalar | Sources/Systemd/Bus/SystemdBusTypeRepresentable.swift:258-263 | peeking at a written scalar reports the registry tag of its kind |
| Decoder.PeekVariant | Sources/Systemd/Bus/SystemdBusTypeRepresentable.swift:258-263 | peeking at a written variant reports the variant tag |
| Decoder.VariantEnters | Sources/Systemd/Bus/SystemdBusTypeRepresentable.swift:272-285 | entering a written variant shows its payload next, tagged with the payload's kind |
| Decoder.VariantPayload | Sources/Systemd/Bus/SystemdBusTypeRepresentable.swift:272-285 | the payload of an encodable variant is encodable and has a representable kind |
| Decoder.PayloadDecodes | Sources/Systemd/Bus/SystemdBusTypeRepresentable.swift:272-285 | inside a written variant the payload reads back and the variant is then left |
| Decoder.VariantDecodes | Sources/Systemd/Bus/SystemdBusTypeRepresentable.swift:272-285 | a written variant of a representable payload decodes back to itself |
| Decoder.ArrayEnters | Sources/Systemd/Bus/Decoder/SystemdBusDecoderImpl.swift:67-70 | entering a written array shows its first element, and it is not a dictionary's |
| Decoder.ArrayDecodes | Sources/Systemd/Bus/Decoder/SystemdBusDecoderImpl.swift:67-73 | a written array of encodable values decodes back to itself |
| Decoder.MovedToTop | Sources/Systemd/Bus/SystemdBusTypeContext.swift:92-96 | moving the cursor to where it is changes nothing |
| Decoder.MovedAgain | Sources/Systemd/Bus/SystemdBusTypeContext.swift:92-96 | moving the cursor twice is moving it once to the second place |
| Decoder.ElementReadsBack | Sources/Systemd/Bus/Decoder/SystemdBusDecoderImpl.swift:71 | the array loop reads a written element back and carries on with it appended |
| Decoder.NextElement | Sources/Systemd/Bus/Decoder/SystemdBusDecoderImpl.swift:71 | at position j of a written array, element j is next |
| Decoder.ElementTyped | Sources/Systemd/Bus/Decoder/SystemdBusDecoderImpl.swift:71 | the elements of an encodable array are encodable and have its element type |
| Decoder.ElementStep | Sources/Systemd/Bus/Decoder/SystemdBusDecoderImpl.swift:71 | one turn of the array loop reads the next element back and moves one position |
| Decoder.ElementsAtEnd | Sources/Systemd/Bus/Decoder/SystemdBusDecoderImpl.swift:71 | at the end of the container the array loop stops with what it has |
| Decoder.ElementsUnfold | Sources/Systemd/Bus/Decoder/SystemdBusDecoderImpl.swift:71 | before the end, the array loop decodes one element and goes on |
| Decoder.ElementsDone | Sources/Systemd/Bus/Decoder/SystemdBusDecoderImpl.swift:71 | once every element of a written array is read, the loop returns that array |
| Decoder.ElementsDecode | Sources/Systemd/Bus/Decoder/SystemdBusDecoderImpl.swift:71 | the array loop reads the remaining elements back in order |
| Decoder.EncodeIntoNew | Sources/Systemd/Bus/Encoder/SystemdBusEncoderImpl.swift:67-102 | writing an encodable value into a new message leaves exactly its element in the body |
| Decoder.DecodeReceived | Sources/Systemd/Bus/Decoder/SystemdBusDecoder.swift:12-17 | a received message holding one written value decodes to that value |
| Decoder.EncodeDecodeRoundTrip | Sources/Systemd/Bus/Decoder/SystemdBusDecoder.swift:12-17 | for every encodable value, encoding into a new message succeeds and decoding the sent message as the value's type gives the value back |
| Decoder.DictionaryTraps | Sources/Systemd/Bus/Decoder/SystemdBusDecoderImpl.swift:67-70 | a received array of dict entries makes the decoder trap, whatever container type it is decoded as |
| Decoder.VariantOfArrayFails | Sources/Systemd/Bus/SystemdBusTypeRepresentable.swift:272-285 | a received variant holding an array does not decode: the array has no representable kind, and EBADMSG follows |
| Decoder.EmptyAtArrayEndLeavesArray | Sources/Systemd/Bus/Decoder/SystemdBusDecoderImpl.swift:67-73 | at the end of an array, decoding an array or an empty struct still succeeds empty, and the exit leaves the enclosing array |
| DecodingContainers.OverloadIsField | Sources/Systemd/Bus/Decoder/Container/KeyedSystemdBusDecodingContainer.swift:45-127 | a container's overload for a representable kind reads exactly what DecodeField describes |
| DecodingContainers.OverloadIsDecode | Sources/Systemd/Bus/Decoder/Container/KeyedSystemdBusDecodingContainer.swift:134-136 | for a representable type the overload reads what the static decode reads |
| DecodingContainers.IntegerViaKind | Sources/Systemd/Bus/Decoder/Container/KeyedSystemdBusDecodingContainer.swift:68-101 | an integer overload is the static decode of its fixed-width kind, then the conversion |
| DecodingContainers.DecoderImpl.constructor | Sources/Systemd/Bus/Decoder/SystemdBusDecoderImpl.swift:13-17 | the decoder keeps context, path and count |
| DecodingContainers.DecoderImpl.KeyedContainer | Sources/Systemd/Bus/Decoder/SystemdBusDecoderImpl.swift:19-22 | a fresh keyed container on the same context and path |
| DecodingContainers.DecoderImpl.UnkeyedContainer | Sources/Systemd/Bus/Decoder/SystemdBusDecoderImpl.swift:24-26 | a fresh unkeyed container with the decoder's count and index 0 |
| DecodingContainers.DecoderImpl.SingleValueContainer | Sources/Systemd/Bus/Decoder/SystemdBusDecoderImpl.swift:28-30 | a fresh single-value container on the same context and path |
| DecodingContainers.KeyedDecodingContainer.constructor | Sources/Systemd/Bus/Decoder/Container/KeyedSystemdBusDecodingContainer.swift:10-13 | the container keeps context and path |
| DecodingContainers.KeyedDecodingContainer.AllKeys | Sources/Systemd/Bus/Decoder/Container/KeyedSystemdBusDecodingContainer.swift:8 | `allKeys` is empty |
| DecodingContainers.KeyedDecodingContainer.Contains | Sources/Systemd/Bus/Decoder/Container/KeyedSystemdBusDecodingContainer.swift:15-18 | every key is reported present |
| DecodingContainers.KeyedDecodingContainer.NestedContainer | Sources/Systemd/Bus/Decoder/Container/KeyedSystemdBusDecodingContainer.swift:20-29 | same context, the key appended to the path |
| DecodingContainers.KeyedDecodingContainer.NestedUnkeyedContainer | Sources/Systemd/Bus/Decoder/Container/KeyedSystemdBusDecodingContainer.swift:31-33 | same context and path, no count, index 0 |
| DecodingContainers.KeyedDecodingContainer.SuperDecoder | Sources/Systemd/Bus/Decoder/Container/KeyedSystemdBusDecodingContainer.swift:35-41 | both super decoders keep context and path, with no count |
| DecodingContainers.KeyedDecodingContainer.DecodeNil | Sources/Systemd/Bus/Decoder/Container/KeyedSystemdBusDecodingContainer.swift:43 | always false |
| DecodingContainers.KeyedDecodingContainer.DecodeInteger | Sources/Systemd/Bus/Decoder/Container/KeyedSystemdBusDecodingContainer.swift:68-101 | the `Int`, `Int8` and `UInt` overloads: DecodeField of the old state |
| DecodingContainers.KeyedDecodingContainer.DecodeScalar | Sources/Systemd/Bus/Decoder/Container/KeyedSystemdBusDecodingContainer.swift:45-127 | the fixed-type overloads: DecodeField of the old state |
| DecodingContainers.KeyedDecodingContainer.DecodeGeneric | Sources/Systemd/Bus/Decoder/Container/KeyedSystemdBusDecodingContainer.swift:129-136 | the generic overload: the static decode of the old state |
| DecodingContainers.KeyedDecodingContainer.Decode | Sources/Systemd/Bus/Decoder/Container/KeyedSystemdBusDecodingContainer.swift:45-136 | whichever overload Swift picks: DecodeField of the old state |
| DecodingContainers.UnkeyedDecodingContainer.constructor | Sources/Systemd/Bus/Decoder/Container/UnkeyedSystemdBusDecodingContainer.swift:18-22 | the container keeps context, path and count, index 0 |
| DecodingContainers.UnkeyedDecodingContainer.IsAtEnd | Sources/Systemd/Bus/Decoder/Container/UnkeyedSystemdBusDecodingContainer.swift:10-16 | with a count, whether the index reached it; without, the context's `isAtEnd` |
| DecodingContainers.UnkeyedDecodingContainer.NestedContainer | Sources/Systemd/Bus/Decoder/Container/UnkeyedSystemdBusDecodingContainer.swift:24-32 | same context and path |
| DecodingContainers.UnkeyedDecodingContainer.NestedUnkeyedContainer | Sources/Systemd/Bus/Decoder/Container/UnkeyedSystemdBusDecodingContainer.swift:34-36 | same context and path, no count, index 0 |
| DecodingContainers.UnkeyedDecodingContainer.SuperDecoder | Sources/Systemd/Bus/Decoder/Container/UnkeyedSystemdBusDecodingContainer.swift:38-40 | same context and path, no count |
| DecodingContainers.UnkeyedDecodingContainer.DecodeNil | Sources/Systemd/Bus/Decoder/Container/UnkeyedSystemdBusDecodingContainer.swift:42-44 | always false, index unchanged |
| DecodingContainers.UnkeyedDecodingContainer.DecodeKind | Sources/Systemd/Bus/Decoder/Container/UnkeyedSystemdBusDecodingContainer.swift:114-121 | `_decode`: the static decode of the kind; the index moves exactly on success |
| DecodingContainers.UnkeyedDecodingContainer.DecodeInteger | Sources/Systemd/Bus/Decoder/Container/UnkeyedSystemdBusDecodingContainer.swift:62-92 | DecodeField of the old state; the index moves only through `_decode` (`Int8`, `UInt`) |
| DecodingContainers.UnkeyedDecodingContainer.DecodeScalar | Sources/Systemd/Bus/Decoder/Container/UnkeyedSystemdBusDecodingContainer.swift:46-108 | DecodeField of the old state; the index moves for the types read through `_decode` |
| DecodingContainers.UnkeyedDecodingContainer.DecodeGeneric | Sources/Systemd/Bus/Decoder/Container/UnkeyedSystemdBusDecodingContainer.swift:110-112 | the static decode of the old state; the index stays |
| DecodingContainers.UnkeyedDecodingContainer.Decode | Sources/Systemd/Bus/Decoder/Container/UnkeyedSystemdBusDecodingContainer.swift:46-112 | DecodeField of the old state; the index moves exactly as the chosen overload moves it |
| DecodingContainers.SingleValueDecodingContainer.constructor | Sources/Systemd/Bus/Decoder/Container/SingleValueSystemdBusDecodingContainer.swift:7-10 | the container keeps context and path |
| DecodingContainers.SingleValueDecodingContainer.DecodeNil | Sources/Systemd/Bus/Decoder/Container/SingleValueSystemdBusDecodingContainer.swift:12 | always false |
| DecodingContainers.SingleValueDecodingContainer.DecodeInteger | Sources/Systemd/Bus/Decoder/Container/SingleValueSystemdBusDecodingContainer.swift:22-46 | the `Int`, `Int8` and `UInt` overloads: ReadInteger of the old state |
| DecodingContainers.SingleValueDecodingContainer.DecodeScalar | Sources/Systemd/Bus/Decoder/Container/SingleValueSystemdBusDecodingContainer.swift:14-54 | the fixed-type overloads: DecodeField of the old state |
| DecodingContainers.SingleValueDecodingContainer.DecodeGeneric | Sources/Systemd/Bus/Decoder/Container/SingleValueSystemdBusDecodingContainer.swift:56-57 | the static decode of the old state |
| DecodingContainers.DecodeValue | Sources/Systemd/Bus/Decoder/SystemdBusDecoderImpl.swift:57-77 | the static decode on a context object: new state and result are Decoder.Decode of the old state |
| DecodingContainers.DecodeContainerValue | Sources/Systemd/Bus/Decoder/SystemdBusDecoderImpl.swift:67-73 | the container branch: DecodeInContainer of the old state, trapping on a dictionary's entries |
| DecodingContainers.DecodeRepresentable | Sources/Systemd/Bus/Decoder/SystemdBusDecoderImpl.swift:64-65 | a representable type: one basic read, Decoder.Decode of the old state |
| DecodingContainers.VariantInit | Sources/Systemd/Bus/SystemdBusTypeRepresentable.swift:272-285 | `Variant.init(context:)`: DecodeVariant of the old state |
| DecodingContainers.InitFrom | Sources/Systemd/Bus/Decoder/SystemdBusDecoderImpl.swift:71 | `init(from:)`: DecodeFrom of the old state |
| DecodingContainers.ArrayInit | Sources/Systemd/Bus/Decoder/SystemdBusDecoderImpl.swift:71 | `Array.init(from:)`'s loop: DecodeElements of the old state |
| DecodingContainers.DictionaryInit | Sources/Systemd/Bus/Decoder/SystemdBusDecoderImpl.swift:71 | `Dictionary.init(from:)`: empty for String and Int keys, else the pairs loop; DecodeFrom of the old state |
| DecodingContainers.StructInit | Sources/Systemd/Bus/Decoder/SystemdBusDecoderImpl.swift:71 | a struct's fields loop: DecodeFields of the old state |
| DecodingContainers.ElementFails | Sources/Systemd/Bus/Decoder/SystemdBusDecoderImpl.swift:71 | a failing element read ends the array loop with that failure |
| DecodingContainers.PairValueFails | Sources/Systemd/Bus/Decoder/SystemdBusDecoderImpl.swift:71 | a failing value read ends the pairs loop with that failure |
| DecodingContainers.PairStep | Sources/Systemd/Bus/Decoder/SystemdBusDecoderImpl.swift:71 | one pair read goes on with the key assigned, keeping the declared types |
| DecodingContainers.FieldStep | Sources/Systemd/Bus/Decoder/SystemdBusDecoderImpl.swift:71 | one field read goes on with the field appended, keeping the declared types |
| LegacyTypes.LegacyTypeCode | Sources/Systemd/Bus/SystemdTypes.swift:248-279 | a legacy type code exists only for a representable value, and is never NUL |
| LegacyTypes.LegacyTypeCodeAgainstRegistry | Sources/Systemd/Bus/SystemdTypes.swift:248-279 | the forward map covers every representable value but `Int32`; it is the registry's code except that `Bool` gets INT32 instead of BOOLEAN |
| LegacyTypes.LegacyCodeClass | Sources/Systemd/Bus/SystemdTypes.swift:248-279 | a legacy code is basic exactly for a scalar and is `v` exactly for a variant |
| LegacyTypes.OneCodeOpens | Sources/Systemd/Bus/SystemdTypes.swift:164 | an array or variant declared with one value's legacy code is always accepted by libsystemd |
| LegacyTypes.LegacyKindIsRegistry | Sources/Systemd/Bus/SystemdTypes.swift:281-316 | the reverse map is defined exactly for the basic codes and the variant code, with the registry's kinds |
| LegacyTypes.LegacyMapsRoundTrip | Sources/Systemd/Bus/SystemdTypes.swift:248-316 | mapping a scalar to its code and back gives its own kind, except that a `Bool` comes back as `Int32` |
| LegacyTypes.LegacyKindOfKindCode | Sources/Systemd/Bus/SystemdTypes.swift:281-316 | every kind's own code maps back to it |
| LegacyTypes.NewState | Sources/Systemd/Bus/SystemdTypes.swift:6-14 | a new context is at level 1 with type code 0 and no contents |
| LegacyTypes.CStringArg | Sources/Systemd/Bus/SystemdTypes.swift:10 | an optional array handed over as a C string is present exactly when the array is |
| LegacyTypes.VariantContentsArg | Sources/Systemd/Bus/SystemdTypes.swift:27-47 | the contents peeked for a variant of one code are handed back as exactly that code |
| LegacyTypes.AdvanceSameContainer | Sources/Systemd/Bus/SystemdTypes.swift:101-130 | moving past an element keeps the reader in the same container |
| LegacyTypes.PeekSpec | Sources/Systemd/Bus/SystemdTypes.swift:27-47 | negative on an unsealed message, 0 exactly at the end of the container, else the next element's code; contents exactly for a container, its signature with the NUL kept |
| LegacyTypes.EnterSpec | Sources/Systemd/Bus/SystemdTypes.swift:132-139 | the level rises exactly when libsystemd returns a positive value; on error nothing changes; 0 leaves the message where it was |
| LegacyTypes.ExitSpec | Sources/Systemd/Bus/SystemdTypes.swift:141-146 | on success one cursor is popped and the level falls by one; on error nothing changes |
| LegacyTypes.OpenSpec | Sources/Systemd/Bus/SystemdTypes.swift:227-232 | succeeds exactly on an unsealed message with contents libsystemd accepts, then pushes a frame and raises the level; otherwise EPERM or EINVAL and nothing changes |
| LegacyTypes.CloseSpec | Sources/Systemd/Bus/SystemdTypes.swift:234-239 | succeeds exactly when a container is open on an unsealed message, then closes it and lowers the level |
| LegacyTypes.RewindSpec | Sources/Systemd/Bus/SystemdTypes.swift:21-25 | succeeds exactly on a sealed message, which is then read from the start |
| LegacyTypes.ReadScalarSpec | Sources/Systemd/Bus/SystemdTypes.swift:334-560 | a successful read gives a value of the requested kind, keeps the reader in its container and, away from the end, consumes input; only the message changes |
| LegacyTypes.ReadScalarAdvances | Sources/Systemd/Bus/SystemdTypes.swift:334-560 | reading the scalar `next()` has just peeked moves past it and gives its value |
| LegacyTypes.Unwrap | Sources/Systemd/Bus/SystemdTypes.swift:126-127 | a variant gives its payload, anything else itself |
| LegacyTypes.NextSpec | Sources/Systemd/Bus/SystemdTypes.swift:101-130 | `nil` exactly at the end of the container; a value read is decoded (no variants, hashable distinct keys) and consumes input; the level is balanced |
| LegacyTypes.ReadPeeked | Sources/Systemd/Bus/SystemdTypes.swift:110-124 | a peeked element is read wholly: input consumed and the result decoded once unwrapped |
| LegacyTypes.ReadArraySpec | Sources/Systemd/Bus/SystemdTypes.swift:57-70 | a successful read gives a decoded array and consumes input, the level balanced |
| LegacyTypes.ReadElements | Sources/Systemd/Bus/SystemdTypes.swift:62-65 | the loop's result extends the elements read so far |
| LegacyTypes.ReadDictionarySpec | Sources/Systemd/Bus/SystemdTypes.swift:72-99 | a successful read gives a decoded dictionary and consumes input, the level balanced |
| LegacyTypes.ReadEntries | Sources/Systemd/Bus/SystemdTypes.swift:79-94 | the dictionary read holds only decoded keys and values |
| LegacyTypes.ReadEntry | Sources/Systemd/Bus/SystemdTypes.swift:89-91 | a successful entry has a hashable key and a decoded value |
| LegacyTypes.AssignEntriesDecoded | Sources/Systemd/Bus/SystemdTypes.swift:93 | storing a decoded pair keeps the dictionary decoded |
| LegacyTypes.ReadVariantSpec | Sources/Systemd/Bus/SystemdTypes.swift:569-575 | a successful read gives a variant holding a decoded value and consumes input |
| LegacyTypes.AppendScalarSpec | Sources/Systemd/Bus/SystemdTypes.swift:334-560 | succeeds exactly on an unsealed message, then adds the scalar's element |
| LegacyTypes.AppendValueSpec | Sources/Systemd/Bus/SystemdTypes.swift:577-587 | succeeds exactly for a writable value on an unsealed message (a variant's payload needs a legacy code, else EBADMSG), and adds its element |
| LegacyTypes.CloseAfterItems | Sources/Systemd/Bus/SystemdTypes.swift:227-239 | open, add elements, close: one container holding those elements |
| LegacyTypes.CloseAfterTwo | Sources/Systemd/Bus/SystemdTypes.swift:203-209 | open, add two elements, close: one dict entry holding exactly the two |
| LegacyTypes.WiresFrom | Sources/Systemd/Bus/SystemdTypes.swift:155-169 | one element per array value |
| LegacyTypes.AddWiresStep | Sources/Systemd/Bus/SystemdTypes.swift:155-169 | adding the array's elements is adding the first, then the rest |
| LegacyTypes.AppendArraySpec | Sources/Systemd/Bus/SystemdTypes.swift:148-172 | EINVAL for an empty array with nothing written; succeeds exactly when the first element has a legacy code and every element is writable, adding one array of their elements |
| LegacyTypes.AppendElements | Sources/Systemd/Bus/SystemdTypes.swift:155-169 | the loop from element i: the first opens the array; on success exactly the remaining elements are added |
| LegacyTypes.EntryWiresFrom | Sources/Systemd/Bus/SystemdTypes.swift:181-210 | one dict entry per pair |
| LegacyTypes.AddEntryWiresStep | Sources/Systemd/Bus/SystemdTypes.swift:181-210 | adding the dict entries is adding the first, then the rest |
| LegacyTypes.AppendEntry | Sources/Systemd/Bus/SystemdTypes.swift:181-210 | one pass: succeeds exactly for an entry-writable pair (a scalar key) on an unsealed message; the first pair opens the array; adds one dict entry |
| LegacyTypes.AppendEntryItems | Sources/Systemd/Bus/SystemdTypes.swift:203-209 | succeeds exactly when the key is a scalar and key and value are writable, adding one dict entry of the two |
| LegacyTypes.AppendEntries | Sources/Systemd/Bus/SystemdTypes.swift:181-210 | the loop from pair i: on success exactly the remaining dict entries are added |
| LegacyTypes.AppendDictionarySpec | Sources/Systemd/Bus/SystemdTypes.swift:174-213 | EINVAL for an empty dictionary with nothing written; succeeds exactly when every pair is entry-writable, adding one array of dict entries |
| LegacyTypes.FieldWire | Sources/Systemd/Bus/SystemdTypes.swift:215-225 | at most one element per field, none exactly for a field of no representable type |
| LegacyTypes.FieldsWritableStep | Sources/Systemd/Bus/SystemdTypes.swift:215-225 | all fields are writable exactly when the first is and the rest are |
| LegacyTypes.FieldWires | Sources/Systemd/Bus/SystemdTypes.swift:215-225 | no more elements than fields |
| LegacyTypes.AppendField | Sources/Systemd/Bus/SystemdTypes.swift:216-224 | on an unsealed message, succeeds exactly for a writable field and adds its elements |
| LegacyTypes.AppendSpec | Sources/Systemd/Bus/SystemdTypes.swift:215-225 | on an unsealed message, succeeds exactly when every field is writable, adding their elements in order |
| LegacyTypes.Flatten | Sources/Systemd/Bus/SystemdTypes.swift:126-127 | removing every variant layer leaves a scalar |
| LegacyTypes.NextReadsWire | Sources/Systemd/Bus/SystemdTypes.swift:101-130 | reading back a written value gives the scalar inside, however many variants wrap it, and moves past it at the same level |
| LegacyTypes.VariantPeekedReads | Sources/Systemd/Bus/SystemdTypes.swift:119-123 | a peeked variant is read by `AnyVariant.read` |
| LegacyTypes.NextUnfold | Sources/Systemd/Bus/SystemdTypes.swift:101-130 | `next()` records the peek, then reads the element; its value is the read's, unwrapped |
| LegacyTypes.ScalarPeekedReads | Sources/Systemd/Bus/SystemdTypes.swift:119-123 | a written scalar, once peeked, is read as itself |
| LegacyTypes.VariantReadsWire | Sources/Systemd/Bus/SystemdTypes.swift:569-575 | reading a written variant gives a variant of the flattened payload, past it at the same level |
| LegacyTypes.ReadVariantSteps | Sources/Systemd/Bus/SystemdTypes.swift:569-575 | the variant read is enter, `next()`, exit |
| LegacyTypes.EnterWrittenVariant | Sources/Systemd/Bus/SystemdTypes.swift:132-139 | entering a peeked written variant returns 1, raises the level, and its payload is next |
| LegacyTypes.DictEntrySignature | Sources/Systemd/Bus/SystemdTypes.swift:73-74 | for contents `{kv}`, the entry signature derived from them reads exactly `kv` |
| LegacyTypes.NextUnmappedCode | Sources/Systemd/Bus/SystemdTypes.swift:119-121 | a peeked code with no reverse mapping throws EBADMSG and reads nothing |
| LegacyTypes.ScalarArrayConforms | Sources/Systemd/Bus/SystemdTypes.swift:148-172 | an array of scalars of one kind other than Bool and Int32 is appended and agrees with its signature |
| LegacyTypes.ScalarArrayConformsAt | Sources/Systemd/Bus/SystemdTypes.swift:155-169 | each element of such an array has the array's element signature |
| LegacyTypes.WritableScalars | Sources/Systemd/Bus/SystemdTypes.swift:334-560 | scalars can always be appended |
| LegacyTypes.BoolArrayMistyped | Sources/Systemd/Bus/SystemdTypes.swift:160-168 | the model appends an array of Bools under element code INT32; its elements are BOOLEAN and disagree with that signature, which libsystemd would refuse |
| LegacyContext.SystemdTypeContext.constructor | Sources/Systemd/Bus/SystemdTypes.swift:12-14 | the context starts in NewState |
| LegacyContext.SystemdTypeContext.Rewind | Sources/Systemd/Bus/SystemdTypes.swift:21-25 | state and result are RewindSpec of the old state |
| LegacyContext.SystemdTypeContext.PeekType | Sources/Systemd/Bus/SystemdTypes.swift:27-47 | the result is PeekSpec of the message |
| LegacyContext.SystemdTypeContext.EnterContainer | Sources/Systemd/Bus/SystemdTypes.swift:132-139 | state and result are EnterSpec of the old state |
| LegacyContext.SystemdTypeContext.ExitContainer | Sources/Systemd/Bus/SystemdTypes.swift:141-146 | state and result are ExitSpec of the old state |
| LegacyContext.SystemdTypeContext.OpenContainer | Sources/Systemd/Bus/SystemdTypes.swift:227-232 | state and result are OpenSpec of the old state |
| LegacyContext.SystemdTypeContext.CloseContainer | Sources/Systemd/Bus/SystemdTypes.swift:234-239 | state and result are CloseSpec of the old state |
| LegacyContext.SystemdTypeContext.Next | Sources/Systemd/Bus/SystemdTypes.swift:101-130 | state and result are NextSpec of the old state |
| LegacyContext.SystemdTypeContext.ReadScalar | Sources/Systemd/Bus/SystemdTypes.swift:334-560 | state and result are ReadScalarSpec of the old state |
| LegacyContext.SystemdTypeContext.ReadArray | Sources/Systemd/Bus/SystemdTypes.swift:57-70 | the `repeat` loop: state and result are ReadArraySpec of the old state |
| LegacyContext.SystemdTypeContext.ReadDictionary | Sources/Systemd/Bus/SystemdTypes.swift:72-99 | the entry loop with its `defer`: state and result are ReadDictionarySpec of the old state |
| LegacyContext.SystemdTypeContext.ReadEntryItems | Sources/Systemd/Bus/SystemdTypes.swift:89-91 | state and result are ReadEntry of the old state |
| LegacyContext.SystemdTypeContext.ReadAnyVariant | Sources/Systemd/Bus/SystemdTypes.swift:569-575 | state and result are ReadVariantSpec of the old state |
| LegacyContext.SystemdTypeContext.AppendScalar | Sources/Systemd/Bus/SystemdTypes.swift:334-560 | state and result are AppendScalarSpec of the old state |
| LegacyContext.SystemdTypeContext.AppendValue | Sources/Systemd/Bus/SystemdTypes.swift:221-222 | state and result are AppendValueSpec of the old state |
| LegacyContext.SystemdTypeContext.AppendAnyVariant | Sources/Systemd/Bus/SystemdTypes.swift:577-587 | state and result are AppendValueSpec of the old state for the variant |
| LegacyContext.SystemdTypeContext.AppendArray | Sources/Systemd/Bus/SystemdTypes.swift:148-172 | the element loop: state and result are AppendArraySpec of the old state |
| LegacyContext.SystemdTypeContext.AppendDictionary | Sources/Systemd/Bus/SystemdTypes.swift:174-213 | the pair loop: state and result are AppendDictionarySpec of the old state |
| LegacyContext.SystemdTypeContext.AppendDictEntry | Sources/Systemd/Bus/SystemdTypes.swift:203-209 | state and result are AppendEntryItems of the old state |
| LegacyContext.SystemdTypeContext.Append | Sources/Systemd/Bus/SystemdTypes.swift:215-225 | the field loop: state and result are AppendSpec of the old state |
| Bus.ReplyOutcome | Sources/Systemd/Bus/SystemdBus.swift:95-101 | a waiter is thrown to exactly for an error reply, with the error built from that reply's errno and error; any other reply is returned unchanged |
| Bus.ResumeSpec | Sources/Systemd/Bus/SystemdBus.swift:83-104 | true exactly when the reply cookie can be read; the cookie's waiter, if any, is removed and resumed once with the reply's outcome; otherwise nothing changes |
| Bus.CallSpec | Sources/Systemd/Bus/SystemdBus.swift:115-139 | a closed bus throws ENOTCONN, a failed dispatch throws its errno, a missing cookie stops the program; only success registers the waiter under the request's cookie, and nothing changes otherwise |
| Bus.ResumeKeepsResolvedOnce | Sources/Systemd/Bus/SystemdBus.swift:83-104 | a reply resolves at most one waiter and keeps every cookie resolved at most once |
| Bus.CallKeepsResolvedOnce | Sources/Systemd/Bus/SystemdBus.swift:134-138 | registering under a fresh cookie keeps every cookie resolved at most once |
| Bus.CancelKeepsResolvedOnce | Sources/Systemd/Bus/SystemdBus.swift:106-113 | cancelling everything keeps every cookie resolved at most once |
| Bus.ResumeTwice | Sources/Systemd/Bus/SystemdBus.swift:90-93 | a second delivery of the same reply resolves nothing |
| Bus.RepliesCorrelateByCookie | Sources/Systemd/Bus/SystemdBus.swift:83-104 | replies are matched by cookie, not by order: each reply resumes its own caller whatever order they arrive in |
| Bus.CallThenReply | Sources/Systemd/Bus/SystemdBus.swift:115-139 | a call followed by its reply resumes exactly the caller's waiter, with the reply or its error, and removes it |
| Bus.NothingAfterCancel | Sources/Systemd/Bus/SystemdBus.swift:106-113 | once everything is cancelled no reply resolves anything |
| Bus.SystemdBus.constructor | Sources/Systemd/Bus/SystemdBus.swift:53-77 | no call is pending at first |
| Bus.SystemdBus.Resume | Sources/Systemd/Bus/SystemdBus.swift:83-104 | the table and the answer are ResumeSpec of the old table |
| Bus.SystemdBus.CancelAll | Sources/Systemd/Bus/SystemdBus.swift:106-113 | every pending waiter is resumed once with a CancellationError, nothing else is, and the table ends empty |
| Bus.SystemdBus.Call | Sources/Systemd/Bus/SystemdBus.swift:115-139 | the table and the result are CallSpec of the old table |
| Bus.Drain | Sources/Systemd/Bus/SystemdBus.swift:62-64 | the loop stops at the first result that is not positive, having processed every message before it |
| Bus.MethodCallRequest | Sources/Systemd/Bus/SystemdBus.swift:141-169 | a failed creation throws its errno; otherwise it succeeds exactly when the fields can be appended, and the body holds their elements in order |
| Bus.ReplyValue | Sources/Systemd/Bus/SystemdBus.swift:171-175 | the reply is rewound and its first value read: a reply that is not sealed fails with EPERM |
| Bus.ReplyValueReadsFirst | Sources/Systemd/Bus/SystemdBus.swift:171-175 | a reply starting with a written value gives that value back with every variant layer around it removed |
| Bus.ReplyValueEmpty | Sources/Systemd/Bus/SystemdBus.swift:171-175 | an empty reply gives nil |
| Bus.GetPropertyRequest | Sources/Systemd/Bus/SystemdBus.swift:193-207 | Properties.Get on the destination and path, with the interface and the member or the empty string |
| Bus.GetPropertiesRequest | Sources/Systemd/Bus/SystemdBus.swift:178-191 | Properties.GetAll on the destination and path, with the interface |
| Message.Received | Sources/Systemd/Bus/SystemdBus.swift:83-104 | a received message is sealed, holds its body and is read from the start |
| DictRepresentable.EqualEntriesHashAlike | Sources/Systemd/Bus/SystemdBusDictRepresentable.swift:9-23 | entries with equal keys are equal and hash alike whatever their values; the equality is reflexive, symmetric and transitive |
| DictRepresentable.Insert | Sources/Systemd/Bus/SystemdBusDictRepresentable.swift:56-61 | inserting into a set of entries keeps it a set; an entry whose key is present is dropped, so the first value for a key stays; otherwise it is added |
| DictRepresentable.UniqueKeysWithValues | Sources/Systemd/Bus/SystemdBusDictRepresentable.swift:57-60 | never fails: a repeated key stops the program, otherwise the map has exactly the pairs' keys |
| DictRepresentable.Pairs | Sources/Systemd/Bus/SystemdBusDictRepresentable.swift:58-60 | one (key, value) pair per entry, in order |
| DictRepresentable.DistinctKeysBuildMap | Sources/Systemd/Bus/SystemdBusDictRepresentable.swift:57-60 | pairs with distinct keys never stop the program, and each key maps to its own pair's value |
| DictRepresentable.FromEntrySetBuildsMap | Sources/Systemd/Bus/SystemdBusDictRepresentable.swift:56-61 | a set of entries builds a dictionary without stopping, with one key per entry mapped to that entry's value |
| DictRepresentable.ForEach | Sources/Systemd/Bus/SystemdBusDictRepresentable.swift:68-72 | the block sees each pair of the dictionary at most once, with the stored value, until one call throws; if none throws it saw every pair |
| Dictionaries.Lookup | Sources/Systemd/Bus/SystemdTypes.swift:93 | a key has a value exactly when some pair holds it |
| Dictionaries.Assign | Sources/Systemd/Bus/SystemdTypes.swift:93 | the assignment adds one pair exactly for a new key, and holds only the new pair and pairs that were there |
| Dictionaries.AssignLookup | Sources/Systemd/Bus/Decoder/SystemdBusDecoderImpl.swift:71 | after `self[key] = value` the key reads the new value and every other key what it read before |
| Dictionaries.AssignDistinct | Sources/Systemd/Bus/SystemdTypes.swift:93 | assigning never makes a key occur twice |
| Journal.Digit | Sources/Systemd/SystemdJournal.swift:96 | a decimal digit |
| Journal.Decimal | Sources/Systemd/SystemdJournal.swift:96 | the interpolation of a number is a non-empty run of decimal digits |
| Journal.DecimalRoundTrip | Sources/Systemd/SystemdJournal.swift:101 | reading the digits back gives the number |
| Journal.ReservedKeysDistinct | Sources/Systemd/SystemdJournal.swift:92-105 | the seven reserved keys are pairwise distinct, so each assignment leaves the others in place |
| Journal.ReservedFields | Sources/Systemd/SystemdJournal.swift:92-105 | exactly the seven reserved keys |
| Journal.MergeMetadata | Sources/Systemd/SystemdJournal.swift:81-90 | the keys of the handler's, the provider's and the call's metadata; each value from the call if present, else the provider, else the handler |
| Journal.PrepareMetadata | Sources/Systemd/SystemdJournal.swift:69-108 | the merged keys plus the reserved ones; each reserved key holds its reserved field whatever the metadata held, and every other key its merged value |
| Journal.JournalLogHandler.constructor | Sources/Systemd/SystemdJournal.swift:8-27 | level `info`, no metadata, the given label |
| Journal.JournalLogHandler.MetadataValue | Sources/Systemd/SystemdJournal.swift:60-63 | a key has a value exactly when it is in the metadata, and it is the stored one |
| Journal.JournalLogHandler.SetMetadataValue | Sources/Systemd/SystemdJournal.swift:64-66 | nil removes the key, anything else sets it; the level stays |
| Journal.JournalLogHandler.Log | Sources/Systemd/SystemdJournal.swift:29-56 | the prepared metadata, then one "KEY=value" line per key, each line present, reserved keys holding their fields |
| Journal.NumericFieldsReadBack | Sources/Systemd/SystemdJournal.swift:95-101 | PRIORITY reads back as the level's syslog severity and CODE_LINE as the line number |
| LogLevel.Rank | Sources/Systemd/Extensions/LoggerLevel+syslogPriority.swift:7-24 | seven levels, ranked 0 to 6 |
| LogLevel.SyslogPriority | Sources/Systemd/Extensions/LoggerLevel+syslogPriority.swift:7-24 | a severity between `crit` and `debug`, `debug` exactly for `trace` and `debug` |
| LogLevel.PriorityReversesOrder | Sources/Systemd/Extensions/LoggerLevel+syslogPriority.swift:7-24 | a more severe level never gets a larger number; above `debug` distinct levels get distinct numbers |
| LogLevel.PriorityFromRank | Sources/Systemd/Extensions/LoggerLevel+syslogPriority.swift:12-21 | above `trace` the severity is 8 minus the rank, never `alert` or `emerg` |
| Trimming.FrontIndex | Sources/Systemd/Extensions/String+trimmingCharacters.swift:18-21 | the first index from i on whose character fails the predicate, every character before it matching |
| Trimming.BackIndex | Sources/Systemd/Extensions/String+trimmingCharacters.swift:33-37 | one past the last character before j failing the predicate, never below the bound, every character after it matching |
| Trimming.TrimmingCharacters | Sources/Systemd/Extensions/String+trimmingCharacters.swift:17-39 | the bounds of the result: every character outside matches the predicate, the first and last inside do not, and the result is empty exactly when every character matches |
| Trimming.FrontIndexOfTrimmed | Sources/Systemd/Extensions/String+trimmingCharacters.swift:18-21 | a string starting with a non-match is not scanned past its start |
| Trimming.TrimIdempotent | Sources/Systemd/Extensions/String+trimmingCharacters.swift:17-39 | trimming twice is trimming once |
| Utility.Scan | Sources/Systemd/Utility.swift:4-14 | the running result after each element: entry i is the fold of the first i + 1 elements |
| Utility.Offset | Sources/Systemd/Utility.swift:17-18 | argument i starts at least i bytes in |
| Utility.CountSumsAreOffsets | Sources/Systemd/Utility.swift:17-18 | the running sums of the counts are the argument offsets |
| Utility.ArgsOffsets | Sources/Systemd/Utility.swift:17-18 | one count per argument, its length plus one; offsets start at 0 and each is where its argument starts |
| Utility.FillBuffer | Sources/Systemd/Utility.swift:20-25 | the buffer is exactly as long as the last offset, each argument sits at its offset followed by a NUL |
| Utility.PlacedInPrefix | Sources/Systemd/Utility.swift:22-25 | appending keeps what the buffer holds in place |
| Utility.WithArrayOfIovecs | Sources/Systemd/Utility.swift:16-36 | offsets from 0 each one past the previous argument and its NUL; the buffer holds each argument at its offset; one iovec per argument with its offset and length without the NUL |

## Left out

- The byte layout of D-Bus messages (alignment, endianness): libsystemd's, modelled as a tree of typed elements.
- Message.AppendBasic, Message.OpenContainer: the ENXIO checks libsystemd makes when an element is appended or a container opened inside another (that its code matches the enclosing signature at that point, and that a dict entry is opened only inside an array) are not modelled; `Conforms` states the signature agreement separately, and Encoder.WrittenAsDeclared shows that what the static encoder writes agrees with it.
- Encoder.EncodeEntries, Encoder.EncodeEntry: `Dictionary.encode(to:)` below the dictionary's `{rr}` array is modelled but unreachable, since opening that array fails with EINVAL.
- The older single-file copy's `deinit` (Sources/Systemd/SystemdBus.swift:923-928) force-unwraps `_readSource` and `_writeSource`, which its `init` sets only when libsystemd asks for POLLIN or POLLOUT, so it can trap where the split file's `deinit` (Sources/Systemd/Bus/SystemdBus.swift:209-214) cancels optionally; the dispatch sources are left out with the other concurrency, so this difference is not modelled.
- The message wrappers' getters (`cookie`, `replyCookie`, `isMethodError`, the errno and `sd_bus_error` of a reply) are fields of `BusMessage`; the transport's `sd_bus_is_open`, `sd_bus_call_async`, `sd_bus_message_new_method_call` and `sd_bus_process` are represented by the values they return, passed in as parameters.
- Concurrency: the lock around the table of pending calls, the `DispatchSource` read and write sources, and the checked continuations are left out; the table is a sequential map and a resumption is an entry in a log. A reply handled before its caller registers is not modelled.
- Bus.SystemdBus.Call: the `async` suspension of `call` and `callMethod` is split into the request (`MethodCallRequest`), the registration (`Call`) and the value read from the reply (`ReplyValue`); the wait between them is not modelled.
- Bus.CallSpec: a cookie registered twice overwrites the earlier waiter, as the map assignment does; the lemmas assume a fresh cookie for each call.
- The `Unmanaged` retain of the bus in `call` and the C thunk that resolves it: manual memory management.
- Cookies are compared only; their 64-bit width plays no part.
- `Duration.usec` and the timeouts passed to libsystemd: floating point.
- `Double` and `Float` values are kept as their bit patterns; no floating-point arithmetic or equality is modelled, and `Float` coding is not modelled.
- Strings are sequences of characters (bytes for the iovec buffer); UTF-8 encoding and C-string conversion are not modelled.
- The order in which a Swift dictionary yields its pairs is unspecified; the model takes the pairs as a sequence in some order (`AppendDictionary`, `ForEach`, `Log`).
- `AnyHashable` is modelled only as the hashable scalars a dictionary key can be; its numeric bridging between integer types is left out.
- LegacyTypes.OpenSpec: the contents array is handed to libsystemd as it is; the source passes arrays without a terminating NUL, and what libsystemd reads past their end is not modelled.
- Journal.JournalLogHandler.Log: metadata values are modelled by their text, the "KEY=value" lines are the result, and the call of `sd_journal_sendv` (I/O) is left out.
- Journal.PrepareMetadata: the metadata provider is represented by what it returned.
- `SystemdNotifier`, `SystemdService`, `SystemdHelpers` (which reads `/proc`), the example programs and the host tools are not part of this model.
