/**
 * What `decode` promises about its result as a whole: which header errors
 * it raises and when, that a file of no records decodes to an empty dict,
 * which records the id filter keeps, and that the filter never changes
 * whether or where decoding stops.
 */
module AppInfoProperties {

  import opened LittleEndian
  import opened OrderedDict
  import opened Decimal
  import opened AppInfoFormat
  import opened AppInfoParse
  import opened AppInfoEncode
  import opened AppInfoRoundTrip

  /** The version and universe fields of the file header at `pos`, when there are 8 bytes to read. */
  function HeaderFields(data: Bytes, pos: nat): (nat, nat)
    requires pos + VdfHeaderSize <= |data|
  {
    (FromLE(data[pos..pos + 4]), FromLE(data[pos + 4..pos + 8]))
  }

  /** With 8 bytes to read, the file header reader returns exactly those two fields. */
  lemma HeaderFieldsRead(data: Bytes, pos: nat)
    requires pos + VdfHeaderSize <= |data|
    ensures ReadVdfHeader(data, pos) == Ok(Parsed(HeaderFields(data, pos), pos + VdfHeaderSize))
  {
    var b := data[pos..pos + VdfHeaderSize];
    assert b[0..4] == data[pos..pos + 4];
    assert b[4..8] == data[pos + 4..pos + 8];
  }

  /** Fewer than 8 bytes for the file header: `struct.error`, before anything is checked. */
  lemma ShortHeader(data: Bytes, pos: nat, appIdList: seq<string>)
    requires |data| < pos + VdfHeaderSize
    ensures DecodeAt(data, pos, appIdList) == Err(ShortRead)
  {
  }

  /** `decode` raises the unknown-version error exactly when the version is not a known one. */
  lemma VersionCheck(data: Bytes, pos: nat, appIdList: seq<string>)
    requires pos + VdfHeaderSize <= |data|
    ensures var (version, _) := HeaderFields(data, pos);
      DecodeAt(data, pos, appIdList) == Err(UnknownVersion(version)) <==> version !in VdfVersionList
  {
    HeaderFieldsRead(data, pos);
  }

  /**
   * `decode` raises the unknown-universe error exactly when the version is
   * known and the universe is not 1; the version is checked first.
   */
  lemma UniverseCheck(data: Bytes, pos: nat, appIdList: seq<string>)
    requires pos + VdfHeaderSize <= |data|
    ensures var (version, universe) := HeaderFields(data, pos);
      DecodeAt(data, pos, appIdList) == Err(UnknownUniverse(universe))
      <==> version in VdfVersionList && universe != VdfUniverse
  {
    HeaderFieldsRead(data, pos);
  }

  /** Any error other than the two header checks comes from reading past the header. */
  lemma BodyErrors(data: Bytes, pos: nat, appIdList: seq<string>)
    requires DecodeAt(data, pos, appIdList).Err? && !DecodeAt(data, pos, appIdList).error.IsHeaderError()
    ensures DecodeAt(data, pos, appIdList).error == ShortRead
         || (pos + VdfHeaderSize <= |data| && BodyError(DecodeAt(data, pos, appIdList).error))
  {
  }

  /** The bytes of a file with no records: a header, then the zero application id. */
  function EmptyFile(version: nat, rest: Bytes): Bytes
  {
    ToLE(version, Int32Size) + ToLE(VdfUniverse, Int32Size) + ToLE(0, Int32Size) + rest
  }

  /** Application id 0 right after the header ends the records: the result is empty, whatever follows. */
  lemma ZeroIdEndsRecords(version: nat, rest: Bytes, appIdList: seq<string>)
    requires version in VdfVersionList
    ensures Decode(EmptyFile(version, rest), appIdList) == Ok(Parsed(Empty(), VdfHeaderSize + Int32Size))
  {
    var data := EmptyFile(version, rest);
    var header := ToLE(version, Int32Size) + ToLE(VdfUniverse, Int32Size);
    IsAtWhole(data);
    IsAtSplit(data, 0, header + ToLE(0, Int32Size), rest);
    IsAtSplit(data, 0, header, ToLE(0, Int32Size));
    VdfHeaderRoundTrip(version, VdfUniverse, data, 0);
    UIntRoundTrip(data, VdfHeaderSize, Int32Size, 0);
  }

  /** One more record at the end is one more turn of the filter. */
  lemma {:induction false} CollectSnoc(parsed: Apps, rs: seq<(nat, AppRecord)>, r: (nat, AppRecord), appIdList: seq<string>)
    ensures Collect(parsed, rs + [r], appIdList) == Keep(Collect(parsed, rs, appIdList), r, appIdList)
    decreases |rs|
  {
    if rs != [] {
      assert (rs + [r])[1..] == rs[1..] + [r];
      CollectSnoc(Keep(parsed, rs[0], appIdList), rs[1..], r, appIdList);
    }
  }

  /**
   * The filter keeps, for each listed id, the last record read with that id
   * (last write wins), and nothing for an id that is not listed.
   */
  lemma {:induction false} CollectGet(parsed: Apps, rs: seq<(nat, AppRecord)>, appIdList: seq<string>, k: nat)
    ensures Get(Collect(parsed, rs, appIdList), k)
         == if DecimalString(k) in appIdList && LastValue(rs, k).Some? then LastValue(rs, k) else Get(parsed, k)
    decreases |rs|
  {
    if rs != [] {
      var init, r := rs[..|rs| - 1], rs[|rs| - 1];
      assert rs == init + [r];
      CollectSnoc(parsed, init, r, appIdList);
      CollectGet(parsed, init, appIdList, k);
      var before := Collect(parsed, init, appIdList);
      if DecimalString(r.0) in appIdList {
        if r.0 == k {
          PutGet(before, k, r.1);
        } else {
          PutGetOther(before, r.0, r.1, k);
        }
      } else if r.0 == k {
        assert DecimalString(k) !in appIdList;
      }
    }
  }

  /** The records the record loop reads after a well-formed header. */
  function RecordsRead(data: Bytes, pos: nat): Result<Parsed<seq<(nat, AppRecord)>>>
    requires pos + VdfHeaderSize <= |data|
  {
    RecordsFrom(data, pos + VdfHeaderSize, HeaderFields(data, pos).0 == ModernVersion)
  }

  /**
   * What `decode` returns: for an id whose decimal form the caller listed,
   * the last record read with that id; for any other id, nothing.
   */
  lemma DecodeSelects(data: Bytes, pos: nat, appIdList: seq<string>, k: nat)
    requires DecodeAt(data, pos, appIdList).Ok?
    ensures pos + VdfHeaderSize <= |data| && RecordsRead(data, pos).Ok?
    ensures Get(DecodeAt(data, pos, appIdList).value.item, k)
         == if DecimalString(k) in appIdList then LastValue(RecordsRead(data, pos).value.item, k) else None
  {
    HeaderFieldsRead(data, pos);
    var rs := RecordsRead(data, pos).value.item;
    CollectGet(Empty(), rs, appIdList, k);
  }

  /** Every id in the result is listed, non-zero and fits in 32 bits. */
  lemma DecodeKeys(data: Bytes, pos: nat, appIdList: seq<string>, k: nat)
    requires DecodeAt(data, pos, appIdList).Ok?
    requires k in Keys(DecodeAt(data, pos, appIdList).value.item)
    ensures DecimalString(k) in appIdList && 0 < k < Pow256(4)
  {
    DecodeSelects(data, pos, appIdList, k);
    var rs := RecordsRead(data, pos).value.item;
    RecordsFromIds(data, pos + VdfHeaderSize, HeaderFields(data, pos).0 == ModernVersion);
    var i :| 0 <= i < |rs| && rs[i].0 == k;
  }

  /** The id list only filters: whether decoding fails, with which error, and where it stops do not depend on it. */
  lemma FilterIndependent(data: Bytes, pos: nat, ids1: seq<string>, ids2: seq<string>)
    ensures DecodeAt(data, pos, ids1).Ok? <==> DecodeAt(data, pos, ids2).Ok?
    ensures DecodeAt(data, pos, ids1).Err? ==> DecodeAt(data, pos, ids1) == DecodeAt(data, pos, ids2)
    ensures DecodeAt(data, pos, ids1).Ok? ==> DecodeAt(data, pos, ids1).value.next == DecodeAt(data, pos, ids2).value.next
  {
  }

  /** A legacy section as stored: a dict that holds its non-zero section id under `SectionIdKey`. */
  predicate HasSectionId(v: Value)
  {
    && v.Subsection?
    && Get(v.section, SectionIdKey).Some?
    && Get(v.section, SectionIdKey).value.SectionId?
    && Get(v.section, SectionIdKey).value.id != 0
  }

  /** Every section name of a legacy record maps to a section that carries its id. */
  ghost predicate CarriesIds(sections: Section)
  {
    forall k :: Get(sections, k).Some? ==> HasSectionId(Get(sections, k).value)
  }

  /**
   * The legacy section loop keeps `CarriesIds`: each section it stores gets
   * its id last, and a later section of the same name replaces it whole.
   */
  lemma {:induction false} LegacySectionsCarryIds(data: Bytes, pos: nat, acc: Section)
    requires CarriesIds(acc) && LegacySectionsFrom(data, pos, acc).Ok?
    ensures CarriesIds(LegacySectionsFrom(data, pos, acc).value.item)
    decreases |data| - pos
  {
    var id := ReadByte(data, pos).value;
    if id.item != 0 {
      var name := ReadString(data, id.next + 1).value;
      var section := SectionAt(data, name.next, true).value;
      var v := Subsection(Put(section.item, SectionIdKey, SectionId(id.item)));
      var acc' := Put(acc, name.item, v);
      forall k | Get(acc', k).Some?
        ensures HasSectionId(Get(acc', k).value)
      {
        if k == name.item {
          PutGet(acc, k, v);
          PutGet(section.item, SectionIdKey, SectionId(id.item));
        } else {
          PutGetOther(acc, name.item, v, k);
        }
      }
      LegacySectionsCarryIds(data, section.next, acc');
    }
  }

  /** Every section of a legacy-format record carries its section id. */
  lemma LegacyRecordCarriesIds(data: Bytes, pos: nat)
    requires RecordAt(data, pos, false).Ok?
    ensures CarriesIds(RecordAt(data, pos, false).value.item.sections)
  {
    LegacySectionsCarryIds(data, pos + AppHeaderSize, Empty());
  }

  /**
   * A root section reads the same entries as a nested one at the same
   * place, and then skips exactly one more byte, whatever it holds (or
   * even past the end of the data).
   */
  lemma {:induction false} RootSkipsOne(data: Bytes, pos: nat, acc: Section)
    ensures SectionFrom(data, pos, true, acc)
         == match SectionFrom(data, pos, false, acc)
            case Ok(Parsed(s, next)) => Ok(Parsed(s, next + 1))
            case Err(e) => Err(e)
    decreases |data| - pos
  {
    match EntryAt(data, pos)
    case Ok(Parsed(Some((key, value)), next)) =>
      RootSkipsOne(data, next, Put(acc, key, value));
    case _ =>
  }
}
