# Voron page-header layout, slices, and index value helpers

This project models three small parts of RavenDB and its Voron storage engine, and proves properties of each model in Dafny:

- **The Set leaf page header** (`Sets`, SetLeafPageHeader.dfy). It is an explicitly laid-out struct overlaid on the first 64 bytes of a Set leaf page. It holds PageNumber (offset 0, 8 bytes), NumberOfCompressedPositions (8, 2), Ceiling (10, 2), Flags (12, 1), SetFlags (13, 1), Reserved (14, 2), Baseline (16, 8) and NumberOfEntries (24, 4). It also derives the quantity `Floor`.
  - `Decode` reads the header out of a page buffer.
  - `Encode` stores all eight declared fields, Reserved included, in layout order. It writes bytes 0-27 and nothing else.
  - `Store` writes one field, and `WriteField` is the same write done in place on an `array<byte>`.
  - All of these are little-endian, and signed fields use two's complement (`Bytes`, Bytes.dfy).
  - `Floor` is computed in C#'s unchecked 32-bit `int` arithmetic. `sizeof(SetLeafPage.CompressedHeader)` is a parameter.
- **Slice** (`Voron`, Slice.dfy). A slice is a value-type view over a byte string. Its role (`SliceOptions`: Key, BeforeAllKeys, AfterAllKeys) is kept in the user-defined bits of the byte string's flags.
  - The model covers the two constructors, `HasValue`, `Size`, `Options`, the indexer, `Clone`, the byte-array `From` overloads, the two byte-array `CopyTo` overloads and the three `Slices` sentinels.
- **Index value helpers** (`Persistence`, ConverterBase.dfy). The model covers:
  - `TryToTrimTrailingZeros`, kept as the source's backward scan and proved equal to a declarative definition;
  - `IsArrayOfTypeValueObject`;
  - the first-match-wins classification `GetValueType` with `IsNumber`;
  - the field dictionary built by the `ConverterBase` constructor.

The byte-string allocator is outside this model. A byte string is a value `ByteString(hasValue, bytes, flags)`, and the allocator's `From`/`Clone` are modelled as "a fresh byte string holding a copy of these bytes, with this type as its flags".

The model rests on these assumed values of the enums that are not part of this model:

- `ByteStringType.Mutable` = 0x01.
- `UserDefined1..3` = 0x10, 0x20, 0x40, so `UserDefinedMask` = 0x70.
- `SliceOptions.Key` = 0, `BeforeAllKeys` = `UserDefined1` and `AfterAllKeys` = `UserDefined2`.
- The flags word of a byte string (`ByteStringType`) is 8 bits wide, so it is modelled as `bv8`. Every statement about flag bits, `Voron.OptionsIgnoreOtherBits` included, covers those 8 bits only.
- The sentinels are built from the shared context's `From(string.Empty)` (src/Voron/Slice.cs:175-177), with that overload's default type. This is taken to be `Mutable` and gives an empty byte string with a value (`Voron.FromEmptyString`).

`SetUserDefinedFlags` is taken to replace the masked bits of the flags and keep all the other bits. This too is an assumption: its code is not part of this model.

In these places the code behaves in ways a reader might not expect, and the model follows the code:

- Indexing a slice does no bounds check. Only an uninitialised slice fails, with InvalidOperationException. An in-range index is therefore a precondition of `Voron.Slice.At`.
- `Options` returns the raw masked bits. These can be a value other than the three named options.
- `TryToTrimTrailingZeros` can return a text that ends in `.`. This happens when the input has two dots in a row before its fraction: `"1..0"` becomes `"1."`. `Persistence.TrimNeverEndsWithLastDot` states exactly when this happens.

## Model

| member | source | states |
|---|---|---|
| `Bytes.EncodeLE` | src/Voron/Data/Sets/SetLeafPageHeader.cs:13-38 | encoding a value that fits in n bytes gives n bytes, and decoding them gives the value back |
| `Bytes.EncodeDecodeLE` | src/Voron/Data/Sets/SetLeafPageHeader.cs:13-38 | every byte string is the encoding of the value it decodes to, so the little-endian layout loses nothing |
| `Sets.FieldsDisjoint` | src/Voron/Data/Sets/SetLeafPageHeader.cs:16-38 | no byte belongs to two fields, Reserved[2] included |
| `Sets.FieldsWithinHeader` | src/Voron/Data/Sets/SetLeafPageHeader.cs:13-38 | every field lies inside the 64-byte PageHeader.SizeOf region |
| `Sets.SetLeafPageHeader.With` | src/Voron/Data/Sets/SetLeafPageHeader.cs:16-38 | setting one field gives it the new value and leaves every other field as it was |
| `Sets.Store` | src/Voron/Data/Sets/SetLeafPageHeader.cs:16-38 | writing a field stores its bit pattern in its own bytes, reads back as that pattern, and leaves every byte outside the field unchanged |
| `Sets.StoreKeepsOtherFields` | src/Voron/Data/Sets/SetLeafPageHeader.cs:16-38 | writing one field (for example Ceiling at bytes 10-11) leaves the stored value of every other field unchanged |
| `Sets.Decode` | src/Voron/Data/Sets/SetLeafPageHeader.cs:13-38 | each field of the decoded header has as its bit pattern the bytes at that field's offset |
| `Sets.StoreThenDecode` | src/Voron/Data/Sets/SetLeafPageHeader.cs:16-38 | assigning a field through the overlay changes that field of the header and no other |
| `Sets.DecodeEncode` | src/Voron/Data/Sets/SetLeafPageHeader.cs:16-38 | decoding a freshly encoded header gives back every field, negative longs and ints and ushort values up to 65535 included |
| `Sets.EncodeDecode` | src/Voron/Data/Sets/SetLeafPageHeader.cs:16-38 | writing back the header a page holds leaves the page unchanged |
| `Sets.Encode` | src/Voron/Data/Sets/SetLeafPageHeader.cs:16-38 | assigning the eight declared fields in layout order keeps the buffer's length; DecodeEncode, EncodeDecode and EncodeKeepsTail state what it writes |
| `Sets.EncodeKeepsTail` | src/Voron/Data/Sets/SetLeafPageHeader.cs:16-38 | assigning the eight declared fields leaves bytes 28 and beyond unchanged |
| `Sets.WriteField` | src/Voron/Data/Sets/SetLeafPageHeader.cs:16-38 | an in-place assignment to a public field on the page array changes exactly that field's bytes and that field of the decoded header |
| `Sets.WrapInt32` | src/Voron/Data/Sets/SetLeafPageHeader.cs:40 | the unchecked int result is congruent to the exact result modulo 2^32 |
| `Sets.Floor` | src/Voron/Data/Sets/SetLeafPageHeader.cs:40 | the unchecked int result equals 64 plus NumberOfCompressedPositions times the compressed header size exactly when that sum fits in an int; FloorExact and FloorOverflows turn this into a bound on the size |
| `Sets.FloorExact` | src/Voron/Data/Sets/SetLeafPageHeader.cs:40 | for a compressed header of at most 32768 bytes, Floor is 64 plus NumberOfCompressedPositions times that size and never overflows, for every ushort count |
| `Sets.FloorOverflows` | src/Voron/Data/Sets/SetLeafPageHeader.cs:40 | for any larger compressed header, a count of 65535 overflows Floor, so 32768 is the exact bound |
| `Sets.FloorAtLeastHeader` | src/Voron/Data/Sets/SetLeafPageHeader.cs:40 | Floor is at least the header size, and is exactly 64 if and only if there are no compressed positions |
| `Sets.FloorStrictlyIncreasing` | src/Voron/Data/Sets/SetLeafPageHeader.cs:20-40 | Floor grows strictly with NumberOfCompressedPositions |
| `Voron.ByteString.SetUserDefinedFlags` | src/Voron/Slice.cs:19 | the masked bits become those given, and the bytes, the value flag and the unmasked bits are kept |
| `Voron.Slice.WithOptions` | src/Voron/Slice.cs:16-20 | the options constructor keeps the content's bytes, its value flag and its non-user-defined flag bits |
| `Voron.Slice.HasValue` | src/Voron/Slice.cs:28-31 | mirrors the content's value flag; At's contract makes it the exact condition for the indexer to fail, and PlainConstructorKeepsContent and SentinelsAreEmptyWithTheirRoles state it for the constructors and sentinels |
| `Voron.Slice.Size` | src/Voron/Slice.cs:33-39 | the size is never negative |
| `Voron.Slice.Options` | src/Voron/Slice.cs:42-48 | the options have no bit outside UserDefinedMask |
| `Voron.Slice.At` | src/Voron/Slice.cs:50-61 | the indexer fails with InvalidOperation exactly when the content has no value, and otherwise returns byte `index` of the content |
| `Voron.Slice.Clone` | src/Voron/Slice.cs:64-67 | a clone has a value, the same bytes, and the options of the type it was cloned with |
| `Voron.Slice.CopyTo` | src/Voron/Slice.cs:89-92 | `count` bytes from position `from` land in the destination at `offset`, and the rest of the destination is kept |
| `Voron.Slice.CopyAllTo` | src/Voron/Slice.cs:84-87 | the whole content lands at the start of the destination, and the rest is kept |
| `Voron.FromRange` | src/Voron/Slice.cs:106-110 | the slice has a value, size `count` and flags `type`, and byte i is `value[offset + i]` |
| `Voron.From` | src/Voron/Slice.cs:100-104 | the slice has a value, holds exactly the whole array and has flags `type` |
| `Voron.FromEmptyString` | src/Voron/Slice.cs:173-178 | the sentinels' content is an empty, initialised, mutable byte string |
| `Voron.UninitializedIndexFails` | src/Voron/Slice.cs:50-61 | indexing the default slice fails with InvalidOperation, whatever the index |
| `Voron.WithOptionsReportsOptions` | src/Voron/Slice.cs:16-20 | after `new Slice(options, content)`, Options reports `options` for any options inside the mask, and the size is the content's length |
| `Voron.OptionsIgnoreOtherBits` | src/Voron/Slice.cs:42-48 | flipping flag bits outside UserDefinedMask never changes Options |
| `Voron.PlainConstructorKeepsContent` | src/Voron/Slice.cs:22-31 | `new Slice(content)` keeps the content and its flags, HasValue mirrors the content's, and Options are the content's masked bits |
| `Voron.FromCoversWholeArray` | src/Voron/Slice.cs:100-110 | From over an array is From over the range 0 to value.Length, and its size is the array's length |
| `Voron.CloneReadsSameBytes` | src/Voron/Slice.cs:64-67 | a clone reads the same byte as the original at every index |
| `Voron.SentinelsAreEmptyWithTheirRoles` | src/Voron/Slice.cs:165-178 | Empty, BeforeAllKeys and AfterAllKeys are initialised, have size 0, and carry options Key, BeforeAllKeys and AfterAllKeys respectively |
| `Persistence.LastIndexOf` | src/Raven.Server/Documents/Indexes/Persistence/ConverterBase.cs:134 | the result is -1 or an index holding the character, and no later index holds it |
| `Persistence.ZeroRunStart` | src/Raven.Server/Documents/Indexes/Persistence/ConverterBase.cs:143-156 | every character from the result on is '0', and the character before it is not '0' |
| `Persistence.TrimTrailingZeros` | src/Raven.Server/Documents/Indexes/Persistence/ConverterBase.cs:132-166 | the declarative trim: any output is a proper prefix of an input that ends in '0'; TrimSucceedsIff, TrimIsProperPrefix, TrimRemovesOnlyZeros, TrimCut and TrimKeepsFractionValue state the rest |
| `Persistence.TryToTrimTrailingZeros` | src/Raven.Server/Documents/Indexes/Persistence/ConverterBase.cs:132-166 | the backward scan, with its termination at the last dot, returns exactly what TrimTrailingZeros defines |
| `Persistence.TrimSucceedsIff` | src/Raven.Server/Documents/Indexes/Persistence/ConverterBase.cs:134-162 | trimming succeeds if and only if there is a '.' after the first character and the last character is '0'; otherwise there is no output |
| `Persistence.TrimIsProperPrefix` | src/Raven.Server/Documents/Indexes/Persistence/ConverterBase.cs:141-164 | the output is a proper prefix of the input and at least as long as the last dot's index, so no integer digit is removed |
| `Persistence.TrimRemovesOnlyZeros` | src/Raven.Server/Documents/Indexes/Persistence/ConverterBase.cs:143-156 | the removed suffix is all '0', optionally preceded by the last dot when no fractional digit remains, and a kept fraction ends in neither '0' nor '.' |
| `Persistence.TrimCut` | src/Raven.Server/Documents/Indexes/Persistence/ConverterBase.cs:134-164 | a successful trim cuts at the last dot or at the start of the trailing zero run, which lies after that dot |
| `Persistence.TrimNeverEndsWithLastDot` | src/Raven.Server/Documents/Indexes/Persistence/ConverterBase.cs:148-149 | the output ends in '.' exactly when it stops at the last dot and the input has another '.' right before it |
| `Persistence.TrimKeepsFractionValue` | src/Raven.Server/Documents/Indexes/Persistence/ConverterBase.cs:143-164 | on a plain decimal, the text before the last '.' is kept and the fraction's numeric value is unchanged |
| `Persistence.TrimTrailingZerosCutsExponent` | src/Raven.Server/Documents/Indexes/Persistence/ConverterBase.cs:143-164 | as written, "1.0e10" is trimmed to "1.0e1", a text whose part after the '.' is not all digits |
| `Persistence.TrimFractionZeros` | src/Raven.Server/Documents/Indexes/Persistence/ConverterBase.cs:132-166 | the corrected trim agrees with the source wherever it changes the text |
| `Persistence.TrimFractionZerosKeepsValue` | src/Raven.Server/Documents/Indexes/Persistence/ConverterBase.cs:132-166 | every text the corrected trim changes is a plain decimal, whose integer part and value are kept |
| `Persistence.IsArrayOfTypeValueObject` | src/Raven.Server/Documents/Indexes/Persistence/ConverterBase.cs:32-43 | true exactly when every property name is non-empty and starts with '$', and vacuously true with no properties |
| `Persistence.FieldMap` | src/Raven.Server/Documents/Indexes/Persistence/ConverterBase.cs:25-29 | the keys are exactly the field names, and each key maps to a field of that name taken from the list |
| `Persistence.FieldMapLastWins` | src/Raven.Server/Documents/Indexes/Persistence/ConverterBase.cs:27-28 | of the fields sharing a name, the dictionary keeps the last one |
| `Persistence.NewConverter` | src/Raven.Server/Documents/Indexes/Persistence/ConverterBase.cs:20-30 | a null index fails with ArgumentNull, and otherwise the traverser follows storeValue and the fields are indexed by name |
| `Persistence.GetValueType` | src/Raven.Server/Documents/Indexes/Persistence/ConverterBase.cs:45-114 | the result is Null exactly for null, and Numeric only for a number type that is neither IEnumerable nor IConvertible; the lemmas below give the rest of the test order |
| `Persistence.IsNumber` | src/Raven.Server/Documents/Indexes/Persistence/ConverterBase.cs:117-130 | true exactly for the eleven built-in numeric types, which are the types the by-type table classes as Double or Convertible |
| `Persistence.GetValueTypeOfBaseTypes` | src/Raven.Server/Documents/Indexes/Persistence/ConverterBase.cs:45-114 | for well-typed base-library values, the test order gives the class fixed by the type: string goes to String and not Enumerable, char to String, double/decimal/float to Double, integers to Convertible |
| `Persistence.NumericUnreachable` | src/Raven.Server/Documents/Indexes/Persistence/ConverterBase.cs:101-130 | no well-typed value is classified Numeric, because every IsNumber type is IConvertible and that test comes first |
| `Persistence.NullAndEmptyStrings` | src/Raven.Server/Documents/Indexes/Persistence/ConverterBase.cs:47-63 | null goes to Null, and a zero-length string, lazy string or compressed string goes to EmptyString whatever its interfaces |
| `Persistence.OtherObjectsByInterface` | src/Raven.Server/Documents/Indexes/Persistence/ConverterBase.cs:89-113 | any other object goes to Enumerable, then Convertible, then ConvertToJson, by its interfaces in that order |
| `Persistence.LazyNumbersAreDouble` | src/Raven.Server/Documents/Indexes/Persistence/ConverterBase.cs:92-93 | a lazy number that is not IEnumerable is classified Double |

## Left out

- The byte-string allocator, its arenas and lifetimes, the Set container's compression and insertion, the page store, transactions and MVCC are not part of this model. Their code is not among the modelled files.
- `Slice.Skip`, `External`, `Release`, `ReleaseExternal`, `CreateReader`, the `byte*` overloads of `From` and `CopyTo`, `GetHashCode` and `ToString` (UTF-8 decoding) are left out. They are pointer or allocator operations whose code is not part of this model.
- `Slice.From(context, string)` (src/Voron/Slice.cs:95-98) is left out, because text encoding is not modelled. The sentinels do not use it: they call the context's own `From(string.Empty)`, which `Voron.FromEmptyString` models.
- Aliasing is not captured. In the source, the flags live in storage shared by every copy of a byte string, so `new Slice(options, content)` also changes the caller's `content`. The value model returns a changed copy instead.
- Voron.Slice.Size: the model gives the stored length even for a byte string with no value. The source would dereference a null pointer there.
- Voron.Slice.Options: like Size, the model reads the stored flags even for a byte string with no value, where the source would dereference a null pointer. `Voron.Slice.WithOptions` likewise writes the flags of such a byte string.
- Voron.Slice.Clone: the clone's flags are taken to be the requested type, because the allocator's `Clone` is not part of this model. For the same reason, cloning a slice without a value is modelled as succeeding: the model gives a valued copy of the stored bytes, where the source hands a byte string without storage to the allocator.
- Voron.Slice.CopyTo: requires an initialised slice and in-range positions, because the raw memory copy behind it is not part of this model.
- Voron.Slice.CopyAllTo: requires an initialised slice and a destination at least as long as the content, for the same reason.
- Persistence.LastIndexOf: this is an ordinal search for the character '.'. The source calls `LastIndexOf(".")` on a lazy string, whose comparison rules are not part of this model.
- Persistence.TryToTrimTrailingZeros: `AllocateStringValue` is taken to return the prefix of the given length. The number's text is a sequence of characters.
- Persistence.GetValueTypeOfBaseTypes: the .NET runtime's type tests are abstracted. Each value has one `Kind` plus two flags, "implements IEnumerable" and "implements IConvertible". `WellTyped` records which base-library types implement which interface. The interfaces of RavenDB's own types are left free.
- Persistence.NewConverter: the traversers are two named values. The index is reduced to its field list, read in the dictionary's enumeration order. Names are compared ordinally, as exact character sequences. `Dispose` is abstract in the source and has no model.
- Sets.Encode: the header value holds the eight declared fields only. The C# struct is 64 bytes long (`Size = PageHeader.SizeOf`), so copying a whole struct would also write bytes 28-63, whose contents the header value does not carry.
- Sets.Store, Sets.SetLeafPageHeader.With and Sets.Encode accept the private `Reserved` field, which the source never assigns. Encode stores it along with the seven public fields, so where it writes a header's Reserved bytes C# code could not. `Sets.WriteField`, the in-place assignment, excludes it.
- `PageFlags` and `ExtendedPageType` are kept as raw bytes. Their enum values are not part of this model.

## Findings

| source | as written | input that shows it | evidently intended | confidence | as-written member | corrected member |
|---|---|---|---|---|---|---|
| src/Raven.Server/Documents/Indexes/Persistence/ConverterBase.cs:143-164 | the backward scan removes trailing '0' characters from any text with a '.' before them, including digits of an exponent | "1.0e10" becomes "1.0e1", so 10^10 turns into 10; a double printed as "1.5E+20" would become "1.5E+2" | only zeros of the fractional digits are removed, and a number in exponent form is left unchanged | medium: depends on exponent-form text reaching this helper; not executed | `Persistence.TrimTrailingZerosCutsExponent` | `Persistence.TrimFractionZeros` |
