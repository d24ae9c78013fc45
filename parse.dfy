/**
 * What the decoder computes, as functions of the byte buffer and a cursor
 * position. Each function returns the value read and the position just
 * past it, or the error that aborts the decode. The class in decoder.dfy
 * is proved to follow these functions step for step.
 */
module AppInfoParse {

  import opened LittleEndian
  import opened OrderedDict
  import opened Decimal
  import opened AppInfoFormat

  /** `readByte`: the byte at `pos`; an `IndexError` past the end. */
  function ReadByte(data: Bytes, pos: nat): (r: Result<Parsed<Byte>>)
    ensures r.Ok? <==> pos < |data|
    ensures r.Ok? ==> r.value.item == data[pos] && r.value.next == pos + 1
  {
    if pos < |data| then Ok(Parsed(data[pos], pos + 1)) else Err(IndexOutOfRange)
  }

  /**
   * The reader `makeCustomReader` builds for a struct of `size` bytes:
   * `unpack_from` needs `size` bytes at `pos` (else `struct.error`), and the
   * offset then moves by exactly `size`.
   */
  function ReadBlock(data: Bytes, pos: nat, size: nat): (r: Result<Parsed<Bytes>>)
    ensures r.Ok? <==> pos + size <= |data|
    ensures r.Ok? ==> |r.value.item| == size && r.value.next == pos + size
  {
    if pos + size <= |data| then Ok(Parsed(data[pos..pos + size], pos + size)) else Err(ShortRead)
  }

  /** The bytes a struct read returns are exactly the `size` bytes at the offset. */
  lemma ReadBlockBytes(data: Bytes, pos: nat, size: nat)
    requires ReadBlock(data, pos, size).Ok?
    ensures ReadBlock(data, pos, size).value.item == data[pos..pos + size]
  {
  }

  /** An unsigned little-endian integer of `size` bytes (`<I` for 4, `<Q` for 8). */
  function ReadUInt(data: Bytes, pos: nat, size: nat): (r: Result<Parsed<nat>>)
    ensures r.Ok? <==> pos + size <= |data|
    ensures r.Ok? ==> r.value.next == pos + size && r.value.item < Pow256(size)
  {
    match ReadBlock(data, pos, size)
    case Err(e) => Err(e)
    case Ok(Parsed(b, next)) => Ok(Parsed(FromLE(b), next))
  }

  /** The integer read is the one whose `size`-byte encoding is the bytes read. */
  lemma ReadUIntBytes(data: Bytes, pos: nat, size: nat)
    requires ReadUInt(data, pos, size).Ok?
    ensures ToLE(ReadUInt(data, pos, size).value.item, size) == data[pos..pos + size]
  {
    ToFromLE(data[pos..pos + size]);
  }

  /** `_readInt32_`. */
  function ReadU32(data: Bytes, pos: nat): Result<Parsed<nat>>
  {
    ReadUInt(data, pos, Int32Size)
  }

  /** `_readInt64_`. */
  function ReadU64(data: Bytes, pos: nat): Result<Parsed<nat>>
  {
    ReadUInt(data, pos, Int64Size)
  }

  /** `_readInt32_` needs four bytes and reads the unsigned 32-bit integer they encode. */
  lemma ReadU32Bytes(data: Bytes, pos: nat)
    ensures ReadU32(data, pos).Ok? <==> pos + 4 <= |data|
    ensures ReadU32(data, pos).Ok? ==>
      var Parsed(n, next) := ReadU32(data, pos).value;
      && n < 0x1_0000_0000 && next == pos + 4
      && ToLE(n, 4) == data[pos..pos + 4]
  {
    if pos + 4 <= |data| {
      ReadUIntBytes(data, pos, Int32Size);
    }
  }

  /** `_readInt64_` needs eight bytes and reads the unsigned 64-bit integer they encode. */
  lemma ReadU64Bytes(data: Bytes, pos: nat)
    ensures ReadU64(data, pos).Ok? <==> pos + 8 <= |data|
    ensures ReadU64(data, pos).Ok? ==>
      var Parsed(n, next) := ReadU64(data, pos).value;
      && n < 0x1_0000_0000_0000_0000 && next == pos + 8
      && ToLE(n, 8) == data[pos..pos + 8]
  {
    if pos + 8 <= |data| {
      ReadUIntBytes(data, pos, Int64Size);
    }
  }

  /** `readVdfHeader`: the `<2I` struct, (version, universe). */
  function ReadVdfHeader(data: Bytes, pos: nat): Result<Parsed<(nat, nat)>>
  {
    match ReadBlock(data, pos, VdfHeaderSize)
    case Err(e) => Err(e)
    case Ok(Parsed(b, next)) => Ok(Parsed((FromLE(b[0..4]), FromLE(b[4..8])), next))
  }

  /** `readAppHeader`: the `<3IQ20sI` struct, fields in file order. */
  function ReadAppHeader(data: Bytes, pos: nat): Result<Parsed<AppHeader>>
  {
    match ReadBlock(data, pos, AppHeaderSize)
    case Err(e) => Err(e)
    case Ok(Parsed(b, next)) =>
      Ok(Parsed(AppHeader(FromLE(b[0..4]), FromLE(b[4..8]), FromLE(b[8..12]),
                          FromLE(b[12..20]), b[20..40], FromLE(b[40..44])), next))
  }

  /** The first position at or after `pos` that holds a NUL byte. */
  function NulIndex(data: Bytes, pos: nat): (r: Option<nat>)
    decreases |data| - pos
    ensures r.Some? ==> pos <= r.value < |data|
  {
    if pos >= |data| then None
    else if data[pos] == 0 then Some(pos)
    else NulIndex(data, pos + 1)
  }

  /** `NulIndex` finds the first NUL: none lies before it, and when it finds none there is none. */
  lemma {:induction false} NulIndexFirst(data: Bytes, pos: nat)
    ensures NulIndex(data, pos).Some? ==> data[NulIndex(data, pos).value] == 0
    ensures NulIndex(data, pos).Some? ==> forall j :: pos <= j < NulIndex(data, pos).value ==> data[j] != 0
    ensures NulIndex(data, pos).None? ==> forall j :: pos <= j < |data| ==> data[j] != 0
    decreases |data| - pos
  {
    if pos < |data| && data[pos] != 0 {
      NulIndexFirst(data, pos + 1);
    }
  }

  /** The first NUL at or after `pos` is the one at `i` when every byte before it is not NUL. */
  lemma {:induction false} NulIndexAt(data: Bytes, pos: nat, i: nat)
    requires pos <= i < |data| && data[i] == 0
    requires forall j :: pos <= j < i ==> data[j] != 0
    ensures NulIndex(data, pos) == Some(i)
    decreases i - pos
  {
    if pos < i {
      NulIndexAt(data, pos + 1, i);
    }
  }

  /** Without a NUL at or after `pos`, `NulIndex` finds none. */
  lemma {:induction false} NulIndexNone(data: Bytes, pos: nat)
    requires forall j :: pos <= j < |data| ==> data[j] != 0
    ensures NulIndex(data, pos) == None
    decreases |data| - pos
  {
    if pos < |data| {
      NulIndexNone(data, pos + 1);
    }
  }

  /** No byte of `s` is NUL. */
  predicate NulFree(s: Bytes)
  {
    forall i :: 0 <= i < |s| ==> s[i] != 0
  }

  /**
   * `readString`: the bytes strictly before the first NUL at or after `pos`;
   * the cursor moves past the NUL. Without a NUL this is an error.
   */
  function ReadString(data: Bytes, pos: nat): (r: Result<Parsed<Bytes>>)
    ensures r.Err? ==> r.error == NoTerminator
    ensures r.Ok? ==> r.value.next == pos + |r.value.item| + 1 <= |data|
  {
    match NulIndex(data, pos)
    case None => Err(NoTerminator)
    case Some(i) => Ok(Parsed(data[pos..i], i + 1))
  }

  /** What `readString` returns: the NUL-free bytes from `pos` up to the NUL it stops at. */
  lemma ReadStringContent(data: Bytes, pos: nat)
    requires ReadString(data, pos).Ok?
    ensures var s := ReadString(data, pos).value.item;
      data[pos..pos + |s|] == s && data[pos + |s|] == 0 && NulFree(s)
  {
    NulIndexFirst(data, pos);
    var i := NulIndex(data, pos).value;
    forall j | 0 <= j < i - pos ensures data[pos..i][j] != 0 {
      assert data[pos..i][j] == data[pos + j];
    }
  }

  /** `readString` fails exactly when no NUL byte lies at or after `pos`. */
  lemma ReadStringFails(data: Bytes, pos: nat)
    ensures ReadString(data, pos).Err? <==> forall j :: pos <= j < |data| ==> data[j] != 0
  {
    NulIndexFirst(data, pos);
  }

  /** The tags `valueParserDic` knows. */
  predicate KnownTag(tag: Byte)
  {
    tag == TagSubsection || tag == TagString || tag == TagInt32 || tag == TagInt64
  }

  /** The tag a value is written with (none for a legacy section id). */
  function TagOf(v: Value): Option<Byte>
  {
    match v
    case Subsection(_) => Some(TagSubsection)
    case Str(_) => Some(TagString)
    case Integer(size, _) =>
      if size == 32 then Some(TagInt32) else if size == 64 then Some(TagInt64) else None
    case SectionId(_) => None
  }

  /** An error raised while parsing a section names only tags outside `valueParserDic`. */
  predicate BodyError(e: Error)
  {
    !e.IsHeaderError() && (e.UnknownValueType? ==> !KnownTag(e.tag))
  }

  /**
   * `valueParserDic.get(tag, _unknownValueType_)()`: parse the value of an
   * entry whose key has been read, according to its tag.
   */
  function ValueAt(data: Bytes, pos: nat, tag: Byte): (r: Result<Parsed<Value>>)
    decreases |data| - pos, 2
    ensures r.Ok? ==> pos < r.value.next <= |data| && TagOf(r.value.item) == Some(tag)
    ensures r.Err? ==> BodyError(r.error)
    ensures r == Err(UnknownValueType(tag)) <==> !KnownTag(tag)
  {
    if tag == TagSubsection then
      match SectionFrom(data, pos, false, Empty())
      case Err(e) => Err(e)
      case Ok(Parsed(s, next)) => Ok(Parsed(Subsection(s), next))
    else if tag == TagString then
      match ReadString(data, pos)
      case Err(e) => Err(e)
      case Ok(Parsed(s, next)) => Ok(Parsed(Str(s), next))
    else if tag == TagInt32 then
      match ReadU32(data, pos)
      case Err(e) => Err(e)
      case Ok(Parsed(n, next)) => Ok(Parsed(Integer(32, n), next))
    else if tag == TagInt64 then
      match ReadU64(data, pos)
      case Err(e) => Err(e)
      case Ok(Parsed(n, next)) => Ok(Parsed(Integer(64, n), next))
    else
      Err(UnknownValueType(tag))
  }

  /**
   * One turn of the loop of `parseSubsectionList` at `pos`: read a tag;
   * `0x08` ends the section (`None`); otherwise read the key, then the
   * value the tag selects (`Some((key, value))`).
   */
  function EntryAt(data: Bytes, pos: nat): (r: Result<Parsed<Option<(Bytes, Value)>>>)
    decreases |data| - pos, 0
    ensures r.Ok? ==> pos < r.value.next <= |data|
    ensures r.Ok? && r.value.item.None? ==> r.value.next == pos + 1 && data[pos] == TagEnd
    ensures r.Err? ==> BodyError(r.error)
  {
    match ReadByte(data, pos)
    case Err(e) => Err(e)
    case Ok(Parsed(tag, p1)) =>
      if tag == TagEnd then
        Ok(Parsed(None, p1))
      else
        match ReadString(data, p1)
        case Err(e) => Err(e)
        case Ok(Parsed(key, p2)) =>
          match ValueAt(data, p2, tag)
          case Err(e) => Err(e)
          case Ok(Parsed(value, p3)) => Ok(Parsed(Some((key, value)), p3))
  }

  /**
   * `parseSubsectionList(rootSection)`, continuing a section whose entries
   * so far are `acc`: at the end tag the section is done (a root section
   * also skips the byte after it); otherwise the entry read is stored
   * under its key (last write wins) and the loop goes on.
   */
  function SectionFrom(data: Bytes, pos: nat, root: bool, acc: Section): (r: Result<Parsed<Section>>)
    decreases |data| - pos, 1
    ensures r.Ok? ==> pos < r.value.next <= |data| + (if root then 1 else 0)
    ensures r.Err? ==> BodyError(r.error)
  {
    match EntryAt(data, pos)
    case Err(e) => Err(e)
    case Ok(Parsed(None, p1)) => Ok(Parsed(acc, if root then p1 + 1 else p1))
    case Ok(Parsed(Some((key, value)), p3)) =>
      SectionFrom(data, p3, root, Put(acc, key, value))
  }

  /** A parsed section is a proper dict: no key occurs twice. */
  lemma {:induction false} SectionFromUniqueKeys(data: Bytes, pos: nat, root: bool, acc: Section)
    requires UniqueKeys(acc) && SectionFrom(data, pos, root, acc).Ok?
    ensures UniqueKeys(SectionFrom(data, pos, root, acc).value.item)
    decreases |data| - pos
  {
    match EntryAt(data, pos)
    case Ok(Parsed(Some((key, value)), p3)) =>
      PutUniqueKeys(acc, key, value);
      SectionFromUniqueKeys(data, p3, root, Put(acc, key, value));
    case _ =>
  }

  /** `parseSubsectionList(rootSection)` from a fresh, empty dict. */
  function SectionAt(data: Bytes, pos: nat, root: bool): Result<Parsed<Section>>
  {
    SectionFrom(data, pos, root, Empty())
  }

  /**
   * The legacy section loop of `decode`, with the sections read so far in
   * `acc`: a zero section id ends it; otherwise skip one byte, read the
   * section name, parse a root section and store the id in it.
   */
  function LegacySectionsFrom(data: Bytes, pos: nat, acc: Section): (r: Result<Parsed<Section>>)
    decreases |data| - pos
    ensures r.Ok? ==> pos < r.value.next <= |data|
    ensures r.Err? ==> BodyError(r.error)
  {
    match ReadByte(data, pos)
    case Err(e) => Err(e)
    case Ok(Parsed(id, p1)) =>
      if id == 0 then Ok(Parsed(acc, p1))
      else
        match ReadString(data, p1 + 1)
        case Err(e) => Err(e)
        case Ok(Parsed(name, p2)) =>
          match SectionAt(data, p2, true)
          case Err(e) => Err(e)
          case Ok(Parsed(s, p3)) =>
            LegacySectionsFrom(data, p3, Put(acc, name, Subsection(Put(s, SectionIdKey, SectionId(id)))))
  }

  /** One record after its application id: the fixed header, then its sections. */
  function RecordAt(data: Bytes, pos: nat, modern: bool): (r: Result<Parsed<AppRecord>>)
    ensures r.Ok? ==> pos + AppHeaderSize < r.value.next <= |data|
    ensures r.Err? ==> BodyError(r.error)
  {
    match ReadAppHeader(data, pos)
    case Err(e) => Err(e)
    case Ok(Parsed(header, p1)) =>
      var sections := if modern then SectionAt(data, p1, false) else LegacySectionsFrom(data, p1, Empty());
      match sections
      case Err(e) => Err(e)
      case Ok(Parsed(s, p2)) => Ok(Parsed(AppRecord(header, s), p2))
  }

  /**
   * The record loop of `decode`, before any filtering: every record up to
   * the zero application id, in file order, keyed by its id.
   */
  function RecordsFrom(data: Bytes, pos: nat, modern: bool): (r: Result<Parsed<seq<(nat, AppRecord)>>>)
    decreases |data| - pos
    ensures r.Ok? ==> pos + Int32Size <= r.value.next <= |data|
    ensures r.Err? ==> BodyError(r.error)
  {
    match ReadU32(data, pos)
    case Err(e) => Err(e)
    case Ok(Parsed(appId, p1)) =>
      if appId == 0 then Ok(Parsed([], p1))
      else
        match RecordAt(data, p1, modern)
        case Err(e) => Err(e)
        case Ok(Parsed(app, p2)) =>
          match RecordsFrom(data, p2, modern)
          case Err(e) => Err(e)
          case Ok(Parsed(rest, p3)) => Ok(Parsed([(appId, app)] + rest, p3))
  }

  /** Every record read has a non-zero 32-bit application id. */
  lemma {:induction false} RecordsFromIds(data: Bytes, pos: nat, modern: bool)
    requires RecordsFrom(data, pos, modern).Ok?
    ensures var rs := RecordsFrom(data, pos, modern).value.item;
      forall i :: 0 <= i < |rs| ==> 0 < rs[i].0 < Pow256(4)
    decreases |data| - pos
  {
    var appId := ReadU32(data, pos).value;
    if appId.item != 0 {
      var app := RecordAt(data, appId.next, modern).value;
      RecordsFromIds(data, app.next, modern);
    }
  }

  /** `if str(appId) in appIdList: parsed[appId] = app`. */
  function Keep(parsed: Apps, record: (nat, AppRecord), appIdList: seq<string>): Apps
  {
    if DecimalString(record.0) in appIdList then Put(parsed, record.0, record.1) else parsed
  }

  /** The records kept by the filter, stored one after another into `parsed`. */
  function Collect(parsed: Apps, records: seq<(nat, AppRecord)>, appIdList: seq<string>): Apps
    decreases |records|
  {
    if records == [] then parsed
    else Collect(Keep(parsed, records[0], appIdList), records[1..], appIdList)
  }

  /**
   * `decode(appIdList)` from cursor `pos`: check the header, read every
   * record, and keep those whose decimal id the caller listed.
   */
  function DecodeAt(data: Bytes, pos: nat, appIdList: seq<string>): (r: Result<Parsed<Apps>>)
    ensures r.Err? && r.error.IsHeaderError() ==> pos + VdfHeaderSize <= |data|
    ensures r.Ok? ==> pos + VdfHeaderSize + Int32Size <= r.value.next <= |data|
  {
    match ReadVdfHeader(data, pos)
    case Err(e) => Err(e)
    case Ok(Parsed((version, universe), p1)) =>
      if version !in VdfVersionList then Err(UnknownVersion(version))
      else if universe != VdfUniverse then Err(UnknownUniverse(universe))
      else
        match RecordsFrom(data, p1, version == ModernVersion)
        case Err(e) => Err(e)
        case Ok(Parsed(records, p2)) => Ok(Parsed(Collect(Empty(), records, appIdList), p2))
  }

  /** Decoding a whole buffer with a fresh decoder (offset 0). */
  function Decode(data: Bytes, appIdList: seq<string>): Result<Parsed<Apps>>
  {
    DecodeAt(data, 0, appIdList)
  }
}
