/**
 * The decoder object: an immutable byte buffer and a cursor that every
 * reader moves forward. Each method is proved to return what the matching
 * function of AppInfoParse computes from the cursor it started at, and to
 * leave the cursor where that function says. No method moves the cursor
 * back, and a reader that fails leaves it where it was.
 */
module AppInfoDecoder {

  import opened LittleEndian
  import opened OrderedDict
  import opened Decimal
  import opened AppInfoFormat
  import AppInfoParse

  /** A method's result together with the cursor it leaves, in the shape AppInfoParse returns. */
  function WithOffset<T>(r: Result<T>, offset: nat): Result<Parsed<T>>
  {
    match r
    case Ok(v) => Ok(Parsed(v, offset))
    case Err(e) => Err(e)
  }

  /** The records `records` stored into `parsed` by the filter, or the error that stopped the record loop. */
  function Collected(parsed: Apps, records: Result<Parsed<seq<(nat, AppRecord)>>>, appIdList: seq<string>): Result<Parsed<Apps>>
  {
    match records
    case Ok(Parsed(rs, next)) => Ok(Parsed(AppInfoParse.Collect(parsed, rs, appIdList), next))
    case Err(e) => Err(e)
  }

  /** One turn of the legacy section loop whose reads succeeded, stated as the readers report them. */
  lemma LegacySectionStep(data: Bytes, pos: nat, acc: Section,
                          id: Result<Byte>, p1: nat, name: Result<Bytes>, p2: nat, section: Result<Section>, p3: nat)
    requires WithOffset(id, p1) == AppInfoParse.ReadByte(data, pos) && id.Ok? && id.value != 0
    requires WithOffset(name, p2) == AppInfoParse.ReadString(data, p1 + 1) && name.Ok?
    requires WithOffset(section, p3) == AppInfoParse.SectionAt(data, p2, true) && section.Ok?
    ensures AppInfoParse.LegacySectionsFrom(data, pos, acc)
         == AppInfoParse.LegacySectionsFrom(data, p3,
              Put(acc, name.value, Subsection(Put(section.value, SectionIdKey, SectionId(id.value)))))
  {
  }

  /** One turn of the record loop whose reads succeeded: the record read goes through the filter, then the rest follow. */
  lemma RecordLoopStep(data: Bytes, pos: nat, modern: bool, parsed: Apps, appIdList: seq<string>,
                       id: nat, p1: nat, app: AppRecord, p2: nat)
    requires AppInfoParse.ReadU32(data, pos) == Ok(Parsed(id, p1)) && id != 0
    requires AppInfoParse.RecordAt(data, p1, modern) == Ok(Parsed(app, p2))
    ensures Collected(parsed, AppInfoParse.RecordsFrom(data, pos, modern), appIdList)
         == Collected(AppInfoParse.Keep(parsed, (id, app), appIdList),
                      AppInfoParse.RecordsFrom(data, p2, modern), appIdList)
  {
    match AppInfoParse.RecordsFrom(data, p2, modern)
    case Err(_) =>
    case Ok(Parsed(rest, _)) =>
      assert ([(id, app)] + rest)[1..] == rest;
  }

  class SteamInfoDecoder {
    /** The incoming bytes (`memoryview(data)`); never modified. */
    const data: Bytes
    /** The parsing offset. */
    var offset: nat

    constructor (data: Bytes)
      ensures this.data == data && offset == 0
    {
      this.data := data;
      offset := 0;
    }

    /** `readByte`. */
    method ReadByte() returns (r: Result<Byte>)
      modifies this
      ensures WithOffset(r, offset) == AppInfoParse.ReadByte(data, old(offset))
      ensures r.Err? ==> offset == old(offset)
      ensures old(offset) <= offset
    {
      if offset < |data| {
        r := Ok(data[offset]);
        offset := offset + 1;
      } else {
        r := Err(IndexOutOfRange);
      }
    }

    /** The `returnMany` reader `makeCustomReader` builds for a struct of `size` bytes. */
    method ReadBlock(size: nat) returns (r: Result<Bytes>)
      modifies this
      ensures WithOffset(r, offset) == AppInfoParse.ReadBlock(data, old(offset), size)
      ensures r.Err? ==> offset == old(offset)
      ensures old(offset) <= offset
    {
      if offset + size <= |data| {
        r := Ok(data[offset..offset + size]);
        offset := offset + size;
      } else {
        r := Err(ShortRead);
      }
    }

    /** `_readInt32_`: the `<I` reader. */
    method ReadUInt32() returns (r: Result<nat>)
      modifies this
      ensures WithOffset(r, offset) == AppInfoParse.ReadU32(data, old(offset))
      ensures r.Err? ==> offset == old(offset)
      ensures old(offset) <= offset
    {
      var block := ReadBlock(Int32Size);
      r := match block
        case Ok(b) => Ok(FromLE(b))
        case Err(e) => Err(e);
    }

    /** `_readInt64_`: the `<Q` reader. */
    method ReadUInt64() returns (r: Result<nat>)
      modifies this
      ensures WithOffset(r, offset) == AppInfoParse.ReadU64(data, old(offset))
      ensures r.Err? ==> offset == old(offset)
      ensures old(offset) <= offset
    {
      var block := ReadBlock(Int64Size);
      r := match block
        case Ok(b) => Ok(FromLE(b))
        case Err(e) => Err(e);
    }

    /** `readVdfHeader`: the `<2I` reader. */
    method ReadVdfHeader() returns (r: Result<(nat, nat)>)
      modifies this
      ensures WithOffset(r, offset) == AppInfoParse.ReadVdfHeader(data, old(offset))
      ensures r.Err? ==> offset == old(offset)
      ensures old(offset) <= offset
    {
      var block := ReadBlock(VdfHeaderSize);
      r := match block
        case Ok(b) => Ok((FromLE(b[0..4]), FromLE(b[4..8])))
        case Err(e) => Err(e);
    }

    /** `readAppHeader`: the `<3IQ20sI` reader. */
    method ReadAppHeader() returns (r: Result<AppHeader>)
      modifies this
      ensures WithOffset(r, offset) == AppInfoParse.ReadAppHeader(data, old(offset))
      ensures r.Err? ==> offset == old(offset)
      ensures old(offset) <= offset
    {
      var block := ReadBlock(AppHeaderSize);
      r := match block
        case Ok(b) =>
          Ok(AppHeader(FromLE(b[0..4]), FromLE(b[4..8]), FromLE(b[8..12]),
                       FromLE(b[12..20]), b[20..40], FromLE(b[40..44])))
        case Err(e) => Err(e);
    }

    /** `readInt32`: `Integer(size=32, data=…)`. */
    method ReadInt32() returns (r: Result<Value>)
      modifies this
      ensures WithOffset(r, offset) == AppInfoParse.ValueAt(data, old(offset), TagInt32)
      ensures r.Err? ==> offset == old(offset)
      ensures old(offset) <= offset
    {
      var n := ReadUInt32();
      r := match n
        case Ok(x) => Ok(Integer(32, x))
        case Err(e) => Err(e);
    }

    /** `readInt64`: `Integer(size=64, data=…)`. */
    method ReadInt64() returns (r: Result<Value>)
      modifies this
      ensures WithOffset(r, offset) == AppInfoParse.ValueAt(data, old(offset), TagInt64)
      ensures r.Err? ==> offset == old(offset)
      ensures old(offset) <= offset
    {
      var n := ReadUInt64();
      r := match n
        case Ok(x) => Ok(Integer(64, x))
        case Err(e) => Err(e);
    }

    /** `readString`: scan for the NUL byte, return what precedes it, move past it. */
    method ReadString() returns (r: Result<Bytes>)
      modifies this
      ensures WithOffset(r, offset) == AppInfoParse.ReadString(data, old(offset))
      ensures r.Err? ==> offset == old(offset)
      ensures old(offset) <= offset
    {
      var index := 0;
      while offset + index < |data|
        invariant offset + index <= |data| || index == 0
        invariant forall j :: offset <= j < offset + index ==> data[j] != 0
        decreases |data| - (offset + index)
      {
        if data[offset + index] == 0 {
          AppInfoParse.NulIndexAt(data, offset, offset + index);
          r := Ok(data[offset..offset + index]);
          offset := offset + index + 1;
          return;
        }
        index := index + 1;
      }
      AppInfoParse.NulIndexNone(data, offset);
      r := Err(NoTerminator);
    }

    /** `valueParserDic.get(valueType, _unknownValueType_)()`. */
    method ParseValue(tag: Byte) returns (r: Result<Value>)
      modifies this
      decreases |data| - offset, 1
      ensures WithOffset(r, offset) == AppInfoParse.ValueAt(data, old(offset), tag)
      ensures old(offset) <= offset
    {
      if tag == TagSubsection {
        var s := ParseSubsectionList(false);
        r := match s
          case Ok(section) => Ok(Subsection(section))
          case Err(e) => Err(e);
      } else if tag == TagString {
        var s := ReadString();
        r := match s
          case Ok(bytes) => Ok(Str(bytes))
          case Err(e) => Err(e);
      } else if tag == TagInt32 {
        r := ReadInt32();
      } else if tag == TagInt64 {
        r := ReadInt64();
      } else {
        r := Err(UnknownValueType(tag));
      }
    }

    /** `parseSubsectionList(rootSection)`. */
    method ParseSubsectionList(root: bool) returns (r: Result<Section>)
      modifies this
      decreases |data| - offset, 0
      ensures WithOffset(r, offset) == AppInfoParse.SectionAt(data, old(offset), root)
      ensures old(offset) <= offset
    {
      var subsection: Section := Empty();
      while true
        invariant old(offset) <= offset
        invariant AppInfoParse.SectionFrom(data, offset, root, subsection)
               == AppInfoParse.SectionAt(data, old(offset), root)
        decreases |data| - offset
      {
        var valueType := ReadByte();
        if valueType.Err? {
          return Err(valueType.error);
        }
        if valueType.value == TagEnd {
          if root {
            // the root section ends with one more byte
            offset := offset + 1;
          }
          return Ok(subsection);
        }
        var key := ReadString();
        if key.Err? {
          return Err(key.error);
        }
        var value := ParseValue(valueType.value);
        if value.Err? {
          return Err(value.error);
        }
        subsection := Put(subsection, key.value, value.value);
      }
    }

    /**
     * The legacy-format section loop of `decode`: read section ids until a
     * zero one; each names a root section that receives its id under
     * `SectionIdKey`.
     */
    method ParseLegacySections() returns (r: Result<Section>)
      modifies this
      ensures WithOffset(r, offset) == AppInfoParse.LegacySectionsFrom(data, old(offset), Empty())
      ensures old(offset) <= offset
    {
      var sections: Section := Empty();
      while true
        invariant old(offset) <= offset
        invariant AppInfoParse.LegacySectionsFrom(data, offset, sections)
               == AppInfoParse.LegacySectionsFrom(data, old(offset), Empty())
        decreases |data| - offset
      {
        ghost var start := offset;
        var sectionId := ReadByte();
        if sectionId.Err? {
          return Err(sectionId.error);
        }
        if sectionId.value == 0 {
          return Ok(sections);
        }
        ghost var afterId := offset;
        // skip the byte before the section name
        offset := offset + 1;
        var sectionName := ReadString();
        if sectionName.Err? {
          return Err(sectionName.error);
        }
        ghost var afterName := offset;
        var section := ParseSubsectionList(true);
        if section.Err? {
          return Err(section.error);
        }
        ghost var stored := Subsection(Put(section.value, SectionIdKey, SectionId(sectionId.value)));
        LegacySectionStep(data, start, sections, sectionId, afterId, sectionName, afterName, section, offset);
        PutPut(sections, sectionName.value, Subsection(section.value), stored);
        sections := Put(sections, sectionName.value, Subsection(section.value));
        // the dict just stored receives the section id under the reserved key
        sections := Put(sections, sectionName.value,
                        Subsection(Put(section.value, SectionIdKey, SectionId(sectionId.value))));
      }
    }

    /** `decode(appIdList)`. */
    method Decode(appIdList: seq<string>) returns (r: Result<Apps>)
      modifies this
      ensures WithOffset(r, offset) == AppInfoParse.DecodeAt(data, old(offset), appIdList)
      ensures old(offset) <= offset
    {
      var header := ReadVdfHeader();
      if header.Err? {
        return Err(header.error);
      }
      var (version, universe) := header.value;
      if version !in VdfVersionList {
        return Err(UnknownVersion(version));
      }
      if universe != VdfUniverse {
        return Err(UnknownUniverse(universe));
      }
      var modern := version == ModernVersion;
      var parsed: Apps := Empty();
      ghost var recordsStart := offset;
      while true
        invariant recordsStart <= offset
        invariant Collected(parsed, AppInfoParse.RecordsFrom(data, offset, modern), appIdList)
               == Collected(Empty(), AppInfoParse.RecordsFrom(data, recordsStart, modern), appIdList)
        decreases |data| - offset
      {
        ghost var recordStart := offset;
        var appId := ReadUInt32();
        if appId.Err? {
          return Err(appId.error);
        }
        if appId.value == 0 {
          return Ok(parsed);
        }
        ghost var afterId := offset;
        var appHeader := ReadAppHeader();
        if appHeader.Err? {
          return Err(appHeader.error);
        }
        var sections: Section;
        if modern {
          var s := ParseSubsectionList(false);
          if s.Err? {
            return Err(s.error);
          }
          sections := s.value;
        } else {
          var s := ParseLegacySections();
          if s.Err? {
            return Err(s.error);
          }
          sections := s.value;
        }
        var app := AppRecord(appHeader.value, sections);
        RecordLoopStep(data, recordStart, modern, parsed, appIdList, appId.value, afterId, app, offset);
        if DecimalString(appId.value) in appIdList {
          parsed := Put(parsed, appId.value, app);
        }
      }
    }
  }
}
