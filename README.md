# appinfo.vdf decoder, modelled in Dafny

This project models the binary `appinfo.vdf` decoder of the Wox Steam-games
plugin: class `SteamInfoDecoder` in `SteamInfoDecoder.py` (lines 23-175).
`main.py` repeats the same class as `appInfoDecoder` (lines 18-166, constants
at 11-15), so the model covers both. The copies differ in three names
(`_readInt32`, `_readInt64` and `_unknownValueType` lose their trailing
underscore) and in line wrapping: main.py has one more blank line after the
class line, and joins each of the line pairs 52-53, 69-70, 80-81, 97-98 and
121-122 of `SteamInfoDecoder.py` into one line. The table below cites
`SteamInfoDecoder.py`. Its line L is main.py line L - 4 for L in 24-53 (so
`decode` is main.py:39), L - 5 for 54-70, L - 6 for 71-81, L - 7 for 82-98,
L - 8 for 99-122 (`parseSubsectionList` is main.py:100) and L - 9 from 123
on (`makeCustomReader` is main.py:119, `readString` main.py:150).

The decoder keeps a cursor (`offset`) over an immutable byte buffer and works
in these steps:

- It reads an 8-byte file header of two little-endian u32s. The version must
  be `0x07564426` or `0x07564427`, and the universe must be 1.
- It then reads records until an application id of 0. Each record is a
  44-byte `<3IQ20sI` header followed by its sections.
- Sections are lists of entries. Each entry is a tag byte, a NUL-terminated
  key and a value. Tag `0x08` ends a section. Tag `0x00` introduces a nested
  section, `0x01` a string, `0x02` a u32 and `0x07` a u64. Any other tag is
  an error.
- Modern files (version `0x07564427`) hold one non-root section per record.
- Legacy files hold a loop of `(section id, skipped byte, name, root
  section)` entries, ended by a zero id. A root section skips one more byte
  after its `0x08`. Each legacy section receives its id under
  `b'__steamFiles_sectionId'`.
- Only records whose decimal id is in the caller's list are kept.

Modules:

- `OrderedDict` (ordered_dict.dfy): the Python `dict` the decoder fills. It is
  an insertion-ordered entry list, and `d[k] = v` overwrites an entry in place
  or appends a new one.
- `LittleEndian` (little_endian.dfy): the `struct` little-endian unsigned
  integer formats, written as byte arithmetic.
- `Decimal` (decimal.dfy): `str(appId)` for a non-negative integer.
- `AppInfoFormat` (format.dfy): the constants, values, record header, records
  and errors.
- `AppInfoParse` (parse.dfy): the decoder as pure functions of `(data, offset)`.
  Each returns the value read and the offset after it, or the error that a
  Python exception becomes.
- `AppInfoDecoder` (decoder.dfy): class `SteamInfoDecoder` with `const data`
  and `var offset`. Its methods use the source's loops and in-place dict
  updates. Each method is proved to return what the matching `AppInfoParse`
  function computes and to leave `offset` where that function says.
- `AppInfoEncode` and `AppInfoRoundTrip` (encode.dfy, roundtrip.dfy): an
  encoder for sections, headers, modern files and legacy section lists. It is
  proved to be inverted by the decoder.
- `AppInfoProperties` (properties.dfy): what `decode` promises as a whole.
  This covers its header errors, the zero-id sentinel, the id filter, the
  legacy section ids and the root-section skip.

## Model

| member | source | states |
|---|---|---|
| OrderedDict.Get | SteamInfoDecoder.py:124 | a lookup succeeds exactly for keys the dict holds, and returns the value of an entry with that key |
| OrderedDict.PutKeys | SteamInfoDecoder.py:124 | `d[k] = v` (`Put`) keeps the key order; a new key is appended at the end |
| OrderedDict.KeysLength | SteamInfoDecoder.py:124 | the key list has one key per entry, in entry order |
| OrderedDict.PutGet | SteamInfoDecoder.py:124 | after `d[k] = v` (`Put`), looking up `k` gives `v` (last write wins) |
| OrderedDict.PutGetOther | SteamInfoDecoder.py:124 | `d[k] = v` (`Put`) leaves every other key's value unchanged |
| OrderedDict.PutPut | SteamInfoDecoder.py:97-103 | two writes to one key equal the second write alone, which is how the legacy loop stores a section and then its id |
| OrderedDict.PutNewKey | SteamInfoDecoder.py:124 | writing an absent key appends `(k, v)` |
| OrderedDict.PutExistingKey | SteamInfoDecoder.py:124 | writing a present key replaces its entry where it stands |
| OrderedDict.PutUniqueKeys | SteamInfoDecoder.py:124 | writes keep every key unique |
| OrderedDict.LastValue | SteamInfoDecoder.py:124 | the last value written for `k` exists exactly when some entry has key `k` |
| OrderedDict.PutAllSnoc | SteamInfoDecoder.py:111-124 | writing one more entry is one more `Put` at the end |
| OrderedDict.PutAllGet | SteamInfoDecoder.py:111-124 | after a series of writes, a key holds the last value written for it, or its old value if none was |
| OrderedDict.PutAllFresh | SteamInfoDecoder.py:124 | writing distinct new keys appends them in order |
| OrderedDict.PutAllEntries | SteamInfoDecoder.py:124 | rewriting a dict's own entries into an empty dict rebuilds it |
| LittleEndian.FromLE | SteamInfoDecoder.py:136-139 | an n-byte little-endian number is below 256^n |
| LittleEndian.ToLE | SteamInfoDecoder.py:136-139 | encoding to n bytes gives exactly n bytes |
| LittleEndian.FromToLE | SteamInfoDecoder.py:136-139 | decoding an n-byte encoding gives the number modulo 256^n |
| LittleEndian.ToFromLE | SteamInfoDecoder.py:136-139 | encoding a decoded byte string gives the bytes back |
| LittleEndian.FromToLEFits | SteamInfoDecoder.py:136-139 | a number below 256^n survives encoding then decoding |
| LittleEndian.FromLEInjective | SteamInfoDecoder.py:136-139 | two byte strings of equal length with equal values are equal |
| Decimal.DigitChar | SteamInfoDecoder.py:104 | a digit below 10 becomes the ASCII character with that value |
| Decimal.DecimalString | SteamInfoDecoder.py:104 | `str(n)` is non-empty, all digits and has no leading zero |
| Decimal.DecimalRoundTrip | SteamInfoDecoder.py:104 | reading `str(n)` back as a decimal gives `n` |
| Decimal.DecimalStringInjective | SteamInfoDecoder.py:104 | distinct ids have distinct decimal strings, so the filter matches each listed string to at most one id |
| AppInfoParse.ReadByte | SteamInfoDecoder.py:154-157 | succeeds exactly when the offset is inside the buffer, returns the byte at the offset and advances by 1 |
| AppInfoParse.ReadBlock | SteamInfoDecoder.py:131-134 | a struct read succeeds exactly when `size` bytes remain, returns `size` bytes and advances by `size` |
| AppInfoParse.ReadBlockBytes | SteamInfoDecoder.py:131-134 | the bytes a struct read returns are exactly the `size` bytes at the offset |
| AppInfoParse.ReadUInt | SteamInfoDecoder.py:136-139 | a `<I`/`<Q` read succeeds exactly when the bytes remain, advances by the struct size and gives a number that fits in it |
| AppInfoParse.ReadUIntBytes | SteamInfoDecoder.py:136-139 | the number read is the little-endian value of exactly the bytes at the offset |
| AppInfoParse.ReadU32Bytes | SteamInfoDecoder.py:30 | `_readInt32_` (`ReadU32`) succeeds exactly when 4 bytes remain, advances 4 and gives the u32 whose little-endian encoding is those bytes |
| AppInfoParse.ReadU64Bytes | SteamInfoDecoder.py:31 | `_readInt64_` (`ReadU64`) succeeds exactly when 8 bytes remain, advances 8 and gives the u64 whose little-endian encoding is those bytes |
| AppInfoParse.NulIndex | SteamInfoDecoder.py:162-165 | a NUL index found lies between the offset and the end |
| AppInfoParse.NulIndexFirst | SteamInfoDecoder.py:162-165 | the index found holds NUL and no earlier byte from the offset does; no index means no NUL remains |
| AppInfoParse.NulIndexAt | SteamInfoDecoder.py:162-169 | the first NUL at or after the offset is the one found |
| AppInfoParse.NulIndexNone | SteamInfoDecoder.py:162-169 | with no NUL left, none is found |
| AppInfoParse.ReadString | SteamInfoDecoder.py:159-169 | the only error is a missing terminator; on success the offset moves past the string and its NUL |
| AppInfoParse.ReadStringContent | SteamInfoDecoder.py:159-169 | the string is exactly the bytes before the first NUL at the offset, terminator excluded |
| AppInfoParse.ReadStringFails | SteamInfoDecoder.py:162-169 | a string read fails exactly when no NUL byte remains at or after the offset |
| AppInfoParse.ValueAt | SteamInfoDecoder.py:119-124 | a value read moves the cursor forward and has the kind its tag selects; the unknown-type error arises exactly for tags other than 0x00, 0x01, 0x02 and 0x07 |
| AppInfoParse.EntryAt | SteamInfoDecoder.py:111-124 | one loop turn consumes at least one byte; a turn that ends the section has read exactly the byte 0x08 |
| AppInfoParse.SectionFrom | SteamInfoDecoder.py:108-126 | a section read ends past its start, at most one byte beyond the buffer for a root section, and fails only with a body error |
| AppInfoParse.SectionFromUniqueKeys | SteamInfoDecoder.py:124 | a section parsed by `SectionAt` never holds a key twice |
| AppInfoParse.LegacySectionsFrom | SteamInfoDecoder.py:88-103 | the legacy section loop ends past its start and fails only with a body error |
| AppInfoParse.RecordAt | SteamInfoDecoder.py:77-103 | a record consumes its 44-byte header and then at least one byte |
| AppInfoParse.RecordsFrom | SteamInfoDecoder.py:71-103 | the record loop consumes at least the 4-byte zero id and fails only with a body error |
| AppInfoParse.RecordsFromIds | SteamInfoDecoder.py:72-75 | every record read has a non-zero 32-bit id |
| AppInfoParse.DecodeAt | SteamInfoDecoder.py:43-106 | a header error means the 8 header bytes were there; success consumes the header and at least the zero id |
| AppInfoEncode.TagByte | SteamInfoDecoder.py:36-41 | no value's tag is the end marker 0x08 |
| AppInfoEncode.TagOfTagByte | SteamInfoDecoder.py:36-41 | on a well-formed value, the tag written is the `valueParserDic` key the parser dispatches to that value's reader |
| AppInfoEncode.EncodeValue | SteamInfoDecoder.py:119-124 | an encoded value has the size the decoder consumes for it |
| AppInfoEncode.EncodeEntry | SteamInfoDecoder.py:111-124 | an encoded entry is tag, key, NUL and value, with that size |
| AppInfoEncode.EncodeEntries | SteamInfoDecoder.py:111-124 | the encoded entries have the summed entry sizes |
| AppInfoEncode.StringRoundTrip | SteamInfoDecoder.py:159-169 | a NUL-free string followed by NUL reads back as that string, moving past the NUL |
| AppInfoEncode.UIntRoundTrip | SteamInfoDecoder.py:136-139 | a little-endian encoding of a fitting number reads back as that number |
| AppInfoEncode.SectionStep | SteamInfoDecoder.py:119-124 | after one entry the section loop continues with the entry stored |
| AppInfoEncode.SectionEnd | SteamInfoDecoder.py:112-118 | tag 0x08 ends the section after one byte, or two for a root section |
| AppInfoEncode.EntryLayout | SteamInfoDecoder.py:111-124 | an encoded entry has its tag, then its NUL-terminated key, then its value |
| AppInfoEncode.ValueRoundTrip | SteamInfoDecoder.py:119-124 | every encoded value reads back as itself under its tag, consuming its size |
| AppInfoEncode.SubsectionRoundTrip | SteamInfoDecoder.py:108-126 | an encoded nested section reads back as itself |
| AppInfoEncode.EntryRoundTrip | SteamInfoDecoder.py:111-124 | an encoded entry reads back as its key and value |
| AppInfoEncode.EntriesParseEncoding | SteamInfoDecoder.py:111-124 | encoded entries followed by 0x08 read back entry by entry |
| AppInfoEncode.StoreFromPutAll | SteamInfoDecoder.py:124 | storing entries by index equals writing them in order |
| AppInfoEncode.EntriesRoundTrip | SteamInfoDecoder.py:108-126 | the section loop over encoded entries stores them all and stops after the end marker, plus one byte for a root section |
| AppInfoRoundTrip.SectionRoundTrip | SteamInfoDecoder.py:108-126 | `parseSubsectionList` (`SectionAt`) reads an encoded section of distinct keys reads back as itself, consuming exactly its encoding, root or not |
| AppInfoRoundTrip.LastWriteWins | SteamInfoDecoder.py:124 | with repeated keys, each key holds the last value written for it |
| AppInfoRoundTrip.EncodeAppHeader | SteamInfoDecoder.py:33 | an app header with a 20-byte checksum encodes to 44 bytes |
| AppInfoRoundTrip.AppHeaderRoundTrip | SteamInfoDecoder.py:33 | the 44 bytes of an app header read back as the same six fields, in order |
| AppInfoRoundTrip.AppHeaderBytes | SteamInfoDecoder.py:33 | a `readAppHeader` (`ReadAppHeader`) read consumes exactly 44 bytes, and they are its fields' encoding |
| AppInfoRoundTrip.VdfHeaderRoundTrip | SteamInfoDecoder.py:47-49 | a file header reads back as its version and universe, consuming 8 bytes |
| AppInfoRoundTrip.RecordRoundTrip | SteamInfoDecoder.py:72-85 | an encoded modern record reads back as its id, header and section |
| AppInfoRoundTrip.EncodeRecordsLength | SteamInfoDecoder.py:71-85 | encoded records take their summed sizes plus the zero id |
| AppInfoRoundTrip.RecordsParseEncoding | SteamInfoDecoder.py:71-85 | encoded records read back record by record, up to the zero id |
| AppInfoRoundTrip.RecordsHeadLayout | SteamInfoDecoder.py:72-85 | the first of several encoded records reads back, and the rest follow it |
| AppInfoRoundTrip.RecordsParseCons | SteamInfoDecoder.py:72-85 | a non-zero id and a record, then the rest, read back record by record |
| AppInfoRoundTrip.RecordsParseEnd | SteamInfoDecoder.py:72-75 | the zero id on its own ends the reading |
| AppInfoRoundTrip.RecordStep | SteamInfoDecoder.py:71-85 | one record read then the rest gives that record in front of the rest |
| AppInfoRoundTrip.RecordsRoundTrip | SteamInfoDecoder.py:71-85 | the record loop reads the records in file order and stops just past the zero id |
| AppInfoRoundTrip.EncodedRecordsRead | SteamInfoDecoder.py:71-85 | encoded records read back whole |
| AppInfoRoundTrip.EncodeModernLength | SteamInfoDecoder.py:43-106 | a modern file is header, records and zero id |
| AppInfoRoundTrip.ModernDecodeStep | SteamInfoDecoder.py:58-85 | a modern header passes both checks and decoding keeps the listed records |
| AppInfoRoundTrip.ModernSplit | SteamInfoDecoder.py:43-85 | a modern file is its 8-byte header followed by its records |
| AppInfoRoundTrip.ModernHeaderLayout | SteamInfoDecoder.py:47-66 | a modern file's header reads back as the modern version and universe 1 |
| AppInfoRoundTrip.ModernRoundTrip | SteamInfoDecoder.py:43-106 | decoding an encoded modern file gives exactly the filter applied to its records, and stops at its end |
| AppInfoRoundTrip.ModernFileRoundTrip | SteamInfoDecoder.py:43-106 | `decode` (`Decode`, from offset 0 as the constructor leaves it) over a whole modern file returns the listed records it was built from, the last one per id winning, and ends at the file's last byte |
| AppInfoRoundTrip.LegacySectionRoundTrip | SteamInfoDecoder.py:89-98 | an encoded legacy section reads back as its id, name (after one skipped byte) and root section |
| AppInfoRoundTrip.LegacyParseEncoding | SteamInfoDecoder.py:88-103 | encoded legacy sections read back section by section, up to the zero id |
| AppInfoRoundTrip.LegacyRoundTrip | SteamInfoDecoder.py:88-103 | the legacy loop stores each section under its name with its id added, and stops just past the zero id |
| AppInfoRoundTrip.LegacyStep | SteamInfoDecoder.py:88-103 | one legacy section read continues the loop with that section stored, its id included |
| AppInfoDecoder.LegacySectionStep | SteamInfoDecoder.py:88-103 | one turn of the legacy loop, stated as the readers report it |
| AppInfoDecoder.SteamInfoDecoder.constructor | SteamInfoDecoder.py:24-27 | the decoder holds the data, with the offset at 0 |
| AppInfoDecoder.SteamInfoDecoder.ReadByte | SteamInfoDecoder.py:154-157 | returns the byte at the offset and moves past it, as `ReadByte` says; past the end it fails and leaves the offset where it was |
| AppInfoDecoder.SteamInfoDecoder.ReadBlock | SteamInfoDecoder.py:131-134 | returns the next `size` bytes and moves past them, as `ReadBlock` says; a short read fails and leaves the offset where it was |
| AppInfoDecoder.SteamInfoDecoder.ReadUInt32 | SteamInfoDecoder.py:136-139 | the `<I` reader, as `ReadU32` says; on failure the offset is unchanged |
| AppInfoDecoder.SteamInfoDecoder.ReadUInt64 | SteamInfoDecoder.py:136-139 | the `<Q` reader, as `ReadU64` says; on failure the offset is unchanged |
| AppInfoDecoder.SteamInfoDecoder.ReadVdfHeader | SteamInfoDecoder.py:131-134 | the `<2I` reader, as `ReadVdfHeader` says; on failure the offset is unchanged |
| AppInfoDecoder.SteamInfoDecoder.ReadAppHeader | SteamInfoDecoder.py:131-134 | the `<3IQ20sI` reader, as `ReadAppHeader` says; on failure the offset is unchanged |
| AppInfoDecoder.SteamInfoDecoder.ReadInt32 | SteamInfoDecoder.py:146-148 | `Integer(size=32)` around a u32, as `ValueAt` with tag 0x02 says; on failure the offset is unchanged |
| AppInfoDecoder.SteamInfoDecoder.ReadInt64 | SteamInfoDecoder.py:150-152 | `Integer(size=64)` around a u64, as `ValueAt` with tag 0x07 says; on failure the offset is unchanged |
| AppInfoDecoder.SteamInfoDecoder.ReadString | SteamInfoDecoder.py:159-169 | the scanning loop returns what `ReadString` computes and moves the offset past the NUL; without a NUL it fails with the offset unchanged |
| AppInfoDecoder.SteamInfoDecoder.ParseValue | SteamInfoDecoder.py:119-124 | tag dispatch returns what `ValueAt` computes, never moving the offset back |
| AppInfoDecoder.SteamInfoDecoder.ParseSubsectionList | SteamInfoDecoder.py:108-126 | the section loop, filling its dict in place, returns what `SectionAt` computes, never moving the offset back |
| AppInfoDecoder.SteamInfoDecoder.ParseLegacySections | SteamInfoDecoder.py:86-103 | the legacy loop, storing a section and then its id, returns what `LegacySectionsFrom` computes, never moving the offset back |
| AppInfoDecoder.SteamInfoDecoder.Decode | SteamInfoDecoder.py:43-106 | `decode` returns what `DecodeAt` computes from the offset it starts at, never moving the offset back |
| AppInfoProperties.HeaderFieldsRead | SteamInfoDecoder.py:32 | with 8 bytes present, `readVdfHeader` (`ReadVdfHeader`) gives the two u32s at the offset and moves 8 bytes |
| AppInfoProperties.ShortHeader | SteamInfoDecoder.py:47-49 | fewer than 8 bytes give a struct error before any check |
| AppInfoProperties.VersionCheck | SteamInfoDecoder.py:58-61 | the unknown-version error arises exactly when the version is not one of the two known ones |
| AppInfoProperties.UniverseCheck | SteamInfoDecoder.py:63-66 | the unknown-universe error arises exactly when the version is known and the universe is not 1 |
| AppInfoProperties.BodyErrors | SteamInfoDecoder.py:43-106 | any other error is a too-short file header, or comes from reading past the header; an unknown-type error there names a tag outside 0x00, 0x01, 0x02 and 0x07 |
| AppInfoProperties.ZeroIdEndsRecords | SteamInfoDecoder.py:71-75 | a valid header then a zero id decodes to an empty dict with the offset at 12, whatever follows |
| AppInfoProperties.CollectSnoc | SteamInfoDecoder.py:104-105 | `Collect` over one more record is one more turn of the filter `Keep` |
| AppInfoProperties.CollectGet | SteamInfoDecoder.py:104-105 | the filter (`Keep`, folded by `Collect`) keeps, for a listed id, the last record read with it, and leaves unlisted ids alone |
| AppInfoProperties.DecodeSelects | SteamInfoDecoder.py:104-105 | an id is in the result exactly when its decimal string is listed and a record with it was read; it holds the last such record |
| AppInfoProperties.DecodeKeys | SteamInfoDecoder.py:104-105 | every key of the result is a listed, non-zero 32-bit id |
| AppInfoProperties.FilterIndependent | SteamInfoDecoder.py:104-105 | every record is parsed whatever the list, so success, the error raised and the final offset do not depend on it |
| AppInfoProperties.LegacySectionsCarryIds | SteamInfoDecoder.py:97-103 | every section the legacy loop stores carries its non-zero id under the reserved key |
| AppInfoProperties.LegacyRecordCarriesIds | SteamInfoDecoder.py:84-103 | every section of a legacy record carries its id |
| AppInfoProperties.RootSkipsOne | SteamInfoDecoder.py:113-118 | a root section reads what a nested one reads and ends exactly one byte later, whatever that byte is |

## Left out

- AppInfoParse.ReadString: when no NUL byte remains, the source's loop falls
  through. It returns `None` and leaves the offset where it was. The model
  returns the error `NoTerminator` instead. Either way the decode cannot
  succeed. Every byte from that point on is non-zero, so no later read can
  see the four zero bytes of the ending application id. Every loop turn
  still consumes at least one byte, so the source eventually raises too. The
  model differs only in which error it reports and in never storing `None`
  as a key or value.
- AppInfoDecoder.SteamInfoDecoder.ParseValue: after an error the contract
  says only that the offset did not move back, not where the failing inner
  read left it. The errors of the pure functions carry no position.
- AppInfoDecoder.SteamInfoDecoder.ParseSubsectionList: the same; after an
  error the offset is only known not to have moved back.
- AppInfoDecoder.SteamInfoDecoder.ParseLegacySections: the same; after an
  error the offset is only known not to have moved back.
- AppInfoDecoder.SteamInfoDecoder.Decode: the same; after an error the
  offset is only known not to have moved back.
- Error message text is not modelled; each error is a constructor that
  carries the offending value. The universe message prints the version field
  (SteamInfoDecoder.py:65). `UnknownUniverse` carries the universe instead.
- The `wrapper` container parameter is fixed to the default `dict`, modelled
  as an insertion-ordered entry list.
- The length checks on the header tuples (SteamInfoDecoder.py:50-54, 78-82)
  cannot fire. `unpack_from` returns all fields or raises, so they are
  omitted.
- The `struct` module is replaced by explicit little-endian arithmetic, and
  its `struct.error` by `ShortRead`.
- `readByte` past the end (an `IndexError`) is the error `IndexOutOfRange`.
- `memoryview` over the input is modelled as a sequence of bytes. `tobytes()`
  is the identity on that sequence.
- The app header's `size` field is read and kept like the others. The source
  never uses it to skip a record, and neither does the model.
- The `steamLauncher` class (main.py:169-263), SteamLocal.py and RegexList.py
  are file, registry, network, browser and regex glue around the decoder.
  They are not part of this model.
- The encoder covers sections, app headers, whole modern-format files and
  legacy section lists. A whole legacy-format file is only covered section
  list by section list (`AppInfoRoundTrip.LegacyRoundTrip`), not as one
  decode.
