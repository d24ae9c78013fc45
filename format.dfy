/**
 * The entities of a binary `appinfo.vdf` file as the decoder builds them:
 * the constants it checks, the typed values of a section, the fixed
 * per-application header, and the errors that abort a decode.
 */
module AppInfoFormat {

  import opened LittleEndian
  import opened OrderedDict

  /** `vdfVersionList`: the two known magic numbers of the file header. */
  const VdfVersionList: seq<nat> := [0x07564426, 0x07564427]

  /** The newest format: its records hold one section tree and no section ids. */
  const ModernVersion: nat := 0x07564427

  /** `vdfUniverse`: the only universe a file may declare. */
  const VdfUniverse: nat := 0x00000001

  /** Byte widths of the `struct` formats `<I`, `<Q`, `<2I` and `<3IQ20sI`. */
  const Int32Size: nat := 4
  const Int64Size: nat := 8
  const VdfHeaderSize: nat := 8
  const AppHeaderSize: nat := 44
  const ChecksumSize: nat := 20

  /** Value-type tags of a section entry, and the end-of-section marker. */
  const TagSubsection: Byte := 0x00
  const TagString: Byte := 0x01
  const TagInt32: Byte := 0x02
  const TagInt64: Byte := 0x07
  const TagEnd: Byte := 0x08

  /** `b'__steamFiles_sectionId'`: where a legacy record keeps a section's id byte. */
  const SectionIdKey: Bytes := [
    0x5f, 0x5f, 0x73, 0x74, 0x65, 0x61, 0x6d, 0x46, 0x69, 0x6c, 0x65,
    0x73, 0x5f, 0x73, 0x65, 0x63, 0x74, 0x69, 0x6f, 0x6e, 0x49, 0x64]

  /**
   * A value in a section. `Subsection` is a nested dict, `Str` the raw bytes
   * of a NUL-terminated string, `Integer` the `Integer(size, data)` namedtuple,
   * and `SectionId` the plain int a legacy record stores under `SectionIdKey`.
   */
  datatype Value =
    | Subsection(section: Section)
    | Str(bytes: Bytes)
    | Integer(size: nat, data: nat)
    | SectionId(id: Byte)

  /** A section: a dict from raw byte-string keys to values. */
  type Section = Dict<Bytes, Value>

  /** The 44-byte `<3IQ20sI` record header, in file order. */
  datatype AppHeader = AppHeader(
    size: nat,
    state: nat,
    lastUpdate: nat,
    accessToken: nat,
    checksum: Bytes,
    changeNumber: nat)

  /** One application: its header fields and its `sections`. */
  datatype AppRecord = AppRecord(header: AppHeader, sections: Section)

  /** The decode result: a dict from integer application id to record. */
  type Apps = Dict<nat, AppRecord>

  /**
   * Why a decode stops. `ShortRead` is `struct.error` (fewer bytes than a
   * struct needs), `IndexOutOfRange` the `IndexError` of `readByte`,
   * `NoTerminator` a string without a NUL byte, and the rest the
   * `ValueError`s the decoder raises itself.
   */
  datatype Error =
    | ShortRead
    | IndexOutOfRange
    | NoTerminator
    | UnknownVersion(version: nat)
    | UnknownUniverse(universe: nat)
    | UnknownValueType(tag: Byte)
  {
    /** Raised while checking the 8-byte file header. */
    predicate IsHeaderError()
    {
      UnknownVersion? || UnknownUniverse?
    }
  }

  datatype Result<T> = Ok(value: T) | Err(error: Error)

  /** A value read at some offset, with the offset just past it. */
  datatype Parsed<T> = Parsed(item: T, next: nat)
}
