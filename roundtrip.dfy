/**
 * Round trips at the level of whole sections, record headers and files:
 * decoding what AppInfoEncode lays out gives the entities back, and a
 * record header the decoder accepts is exactly the encoding of what it
 * returns.
 */
module AppInfoRoundTrip {

  import opened LittleEndian
  import opened OrderedDict
  import opened AppInfoFormat
  import opened AppInfoParse
  import opened AppInfoEncode

  /** A section of distinct keys reads back as itself, root or not. */
  lemma SectionRoundTrip(s: Section, root: bool, data: Bytes, pos: nat)
    requires SectionWF(s)
    requires IsAt(data, pos, EncodeSection(s, root))
    ensures SectionAt(data, pos, root) == Ok(Parsed(s, pos + |EncodeSection(s, root)|))
  {
    var entries := EncodeEntries(s, 0);
    var tail: Bytes := if root then [TagEnd] else [];
    IsAtSplit(data, pos, entries + [TagEnd], tail);
    IsAtSplit(data, pos, entries, [TagEnd]);
    assert [TagEnd][0] == TagEnd;
    EntriesParseEncoding(s, 0, data, pos);
    EntriesRoundTrip(s, 0, data, pos, root, Empty());
    StoreFromPutAll(Empty(), s, 0);
    assert s.entries[0..] == s.entries;
    PutAllEntries(s);
  }

  /**
   * Last write wins: when a section repeats a key, the decoded dict holds
   * the value of its last occurrence.
   */
  lemma LastWriteWins(s: Section, data: Bytes, pos: nat, k: Bytes)
    requires EntriesWF(s, 0)
    requires IsAt(data, pos, EncodeSection(s, false))
    ensures SectionAt(data, pos, false).Ok?
    ensures Get(SectionAt(data, pos, false).value.item, k) == LastValue(s.entries, k)
  {
    var entries := EncodeEntries(s, 0);
    IsAtSplit(data, pos, entries + [TagEnd], []);
    assert entries + [TagEnd] + [] == entries + [TagEnd];
    IsAtSplit(data, pos, entries, [TagEnd]);
    assert [TagEnd][0] == TagEnd;
    EntriesParseEncoding(s, 0, data, pos);
    EntriesRoundTrip(s, 0, data, pos, false, Empty());
    StoreFromPutAll(Empty(), s, 0);
    assert s.entries[0..] == s.entries;
    PutAllGet(Empty(), s.entries, k);
  }

  /** A record header whose fields fit their `struct` widths. */
  predicate HeaderWF(h: AppHeader)
  {
    && h.size < Pow256(4) && h.state < Pow256(4) && h.lastUpdate < Pow256(4)
    && h.accessToken < Pow256(8) && |h.checksum| == ChecksumSize && h.changeNumber < Pow256(4)
  }

  /** The 44 bytes `struct.pack('<3IQ20sI', …)` writes for a header. */
  function EncodeAppHeader(h: AppHeader): (b: Bytes)
    ensures |h.checksum| == ChecksumSize ==> |b| == AppHeaderSize
  {
    ToLE(h.size, 4) + ToLE(h.state, 4) + ToLE(h.lastUpdate, 4) + ToLE(h.accessToken, 8)
    + h.checksum + ToLE(h.changeNumber, 4)
  }

  /** The header reader gives back every field of an encoded header. */
  lemma AppHeaderRoundTrip(h: AppHeader, data: Bytes, pos: nat)
    requires HeaderWF(h) && IsAt(data, pos, EncodeAppHeader(h))
    ensures ReadAppHeader(data, pos) == Ok(Parsed(h, pos + AppHeaderSize))
  {
    var b := EncodeAppHeader(h);
    IsAtSlice(data, pos, b);
    assert b[0..4] == ToLE(h.size, 4);
    assert b[4..8] == ToLE(h.state, 4);
    assert b[8..12] == ToLE(h.lastUpdate, 4);
    assert b[12..20] == ToLE(h.accessToken, 8);
    assert b[20..40] == h.checksum;
    assert b[40..44] == ToLE(h.changeNumber, 4);
    FromToLEFits(h.size, 4);
    FromToLEFits(h.state, 4);
    FromToLEFits(h.lastUpdate, 4);
    FromToLEFits(h.accessToken, 8);
    FromToLEFits(h.changeNumber, 4);
  }

  /** Conversely, a header the reader accepts fits its widths and is the encoding of the bytes read. */
  lemma AppHeaderBytes(data: Bytes, pos: nat)
    requires ReadAppHeader(data, pos).Ok?
    ensures var Parsed(h, next) := ReadAppHeader(data, pos).value;
      && HeaderWF(h) && next == pos + AppHeaderSize
      && EncodeAppHeader(h) == data[pos..pos + AppHeaderSize]
  {
    var b := data[pos..pos + AppHeaderSize];
    var h := ReadAppHeader(data, pos).value.item;
    ToFromLE(b[0..4]);
    ToFromLE(b[4..8]);
    ToFromLE(b[8..12]);
    ToFromLE(b[12..20]);
    ToFromLE(b[40..44]);
    assert EncodeAppHeader(h) == b[0..4] + b[4..8] + b[8..12] + b[12..20] + b[20..40] + b[40..44];
    SliceConcat(b, 4, 8);
    SliceConcat(b, 8, 12);
    SliceConcat(b, 12, 20);
    SliceConcat(b, 20, 40);
    SliceConcat(b, 40, 44);
    assert b[0..44] == b;
  }

  lemma SliceConcat(b: Bytes, j: nat, k: nat)
    requires j <= k <= |b|
    ensures b[0..j] + b[j..k] == b[0..k]
  {
  }

  /** The file header reader gives back the version and universe it was written with. */
  lemma VdfHeaderRoundTrip(version: nat, universe: nat, data: Bytes, pos: nat)
    requires version < Pow256(4) && universe < Pow256(4)
    requires IsAt(data, pos, ToLE(version, Int32Size) + ToLE(universe, Int32Size))
    ensures ReadVdfHeader(data, pos) == Ok(Parsed((version, universe), pos + VdfHeaderSize))
  {
    IsAtSlice(data, pos, ToLE(version, Int32Size) + ToLE(universe, Int32Size));
    var b := data[pos..pos + VdfHeaderSize];
    assert b[0..4] == ToLE(version, Int32Size) && b[4..8] == ToLE(universe, Int32Size);
    FromToLEFits(version, Int32Size);
    FromToLEFits(universe, Int32Size);
  }

  /** Bytes a modern-format record takes: its id, its header and its section tree. */
  function RecordSize(r: AppRecord): nat
  {
    Int32Size + AppHeaderSize + EntriesSize(r.sections, 0) + 1
  }

  /** A modern-format record: its id, its header, then its section tree. */
  function EncodeRecord(id: nat, r: AppRecord): Bytes
  {
    ToLE(id, Int32Size) + EncodeAppHeader(r.header) + EncodeSection(r.sections, false)
  }

  /** The records from index `i` on, then the zero application id that ends the list. */
  function EncodeRecords(rs: seq<(nat, AppRecord)>, i: nat): Bytes
    decreases |rs| - i
  {
    if i >= |rs| then ToLE(0, Int32Size) else EncodeRecord(rs[i].0, rs[i].1) + EncodeRecords(rs, i + 1)
  }

  /** A whole modern-format file: version, universe, records. */
  function EncodeModern(rs: seq<(nat, AppRecord)>): Bytes
  {
    ToLE(ModernVersion, Int32Size) + ToLE(VdfUniverse, Int32Size) + EncodeRecords(rs, 0)
  }

  /** Records a file can carry: non-zero 32-bit ids, headers that fit, sections of distinct keys. */
  predicate RecordsWF(rs: seq<(nat, AppRecord)>)
  {
    forall i :: 0 <= i < |rs| ==>
      0 < rs[i].0 < Pow256(4) && HeaderWF(rs[i].1.header) && SectionWF(rs[i].1.sections)
  }

  /** An encoded record reads back: its id, then its header and sections. */
  lemma RecordRoundTrip(id: nat, r: AppRecord, data: Bytes, pos: nat)
    requires id < Pow256(4) && HeaderWF(r.header) && SectionWF(r.sections)
    requires IsAt(data, pos, EncodeRecord(id, r))
    ensures ReadU32(data, pos) == Ok(Parsed(id, pos + Int32Size))
    ensures RecordAt(data, pos + Int32Size, true) == Ok(Parsed(r, pos + RecordSize(r)))
  {
    RecordLayout(id, r, data, pos);
    UIntRoundTrip(data, pos, Int32Size, id);
    AppHeaderRoundTrip(r.header, data, pos + Int32Size);
    SectionRoundTrip(r.sections, false, data, pos + Int32Size + AppHeaderSize);
    RecordAtParts(data, pos + Int32Size, r, pos + RecordSize(r));
  }

  /** An encoded record is its id, then its header, then its section tree. */
  lemma RecordLayout(id: nat, r: AppRecord, data: Bytes, pos: nat)
    requires HeaderWF(r.header)
    requires IsAt(data, pos, EncodeRecord(id, r))
    ensures IsAt(data, pos, ToLE(id, Int32Size))
    ensures IsAt(data, pos + Int32Size, EncodeAppHeader(r.header))
    ensures IsAt(data, pos + Int32Size + AppHeaderSize, EncodeSection(r.sections, false))
    ensures pos + Int32Size + AppHeaderSize + |EncodeSection(r.sections, false)| == pos + RecordSize(r)
  {
    var head := ToLE(id, Int32Size) + EncodeAppHeader(r.header);
    IsAtSplit(data, pos, head, EncodeSection(r.sections, false));
    IsAtSplit(data, pos, ToLE(id, Int32Size), EncodeAppHeader(r.header));
  }

  /** A header read followed by a section read is a record read. */
  lemma RecordAtParts(data: Bytes, pos: nat, r: AppRecord, end: nat)
    requires ReadAppHeader(data, pos) == Ok(Parsed(r.header, pos + AppHeaderSize))
    requires SectionAt(data, pos + AppHeaderSize, false) == Ok(Parsed(r.sections, end))
    ensures RecordAt(data, pos, true) == Ok(Parsed(r, end))
  {
  }

  /** What the record loop finds at `pos`: the records from index `i` on, then the zero id. */
  predicate RecordsParse(data: Bytes, pos: nat, rs: seq<(nat, AppRecord)>, i: nat)
    decreases |rs| - i
  {
    if i >= |rs| then ReadU32(data, pos) == Ok(Parsed(0, pos + Int32Size))
    else
      && ReadU32(data, pos) == Ok(Parsed(rs[i].0, pos + Int32Size))
      && rs[i].0 != 0
      && RecordAt(data, pos + Int32Size, true) == Ok(Parsed(rs[i].1, pos + RecordSize(rs[i].1)))
      && RecordsParse(data, pos + RecordSize(rs[i].1), rs, i + 1)
  }

  /** Bytes the records from index `i` on take, without the final zero id. */
  function RecordsSize(rs: seq<(nat, AppRecord)>, i: nat): nat
    decreases |rs| - i
  {
    if i >= |rs| then 0 else RecordSize(rs[i].1) + RecordsSize(rs, i + 1)
  }

  lemma {:induction false} EncodeRecordsLength(rs: seq<(nat, AppRecord)>, i: nat)
    requires RecordsWF(rs)
    ensures |EncodeRecords(rs, i)| == RecordsSize(rs, i) + Int32Size
    decreases |rs| - i
  {
    if i < |rs| {
      EncodeRecordsLength(rs, i + 1);
    }
  }

  lemma {:induction false} RecordsParseEncoding(rs: seq<(nat, AppRecord)>, i: nat, data: Bytes, pos: nat)
    requires RecordsWF(rs)
    requires IsAt(data, pos, EncodeRecords(rs, i))
    ensures RecordsParse(data, pos, rs, i)
    decreases |rs| - i
  {
    if i < |rs| {
      RecordsHeadLayout(rs, i, data, pos);
      RecordsParseEncoding(rs, i + 1, data, pos + RecordSize(rs[i].1));
      RecordsParseCons(rs, i, data, pos);
    } else {
      UIntRoundTrip(data, pos, Int32Size, 0);
      RecordsParseEnd(rs, i, data, pos);
    }
  }

  /** The first of the encoded records reads back, and the rest follow it. */
  lemma RecordsHeadLayout(rs: seq<(nat, AppRecord)>, i: nat, data: Bytes, pos: nat)
    requires RecordsWF(rs) && i < |rs|
    requires IsAt(data, pos, EncodeRecords(rs, i))
    ensures ReadU32(data, pos) == Ok(Parsed(rs[i].0, pos + Int32Size))
    ensures RecordAt(data, pos + Int32Size, true) == Ok(Parsed(rs[i].1, pos + RecordSize(rs[i].1)))
    ensures IsAt(data, pos + RecordSize(rs[i].1), EncodeRecords(rs, i + 1))
  {
    var (id, r) := rs[i];
    IsAtSplit(data, pos, EncodeRecord(id, r), EncodeRecords(rs, i + 1));
    RecordRoundTrip(id, r, data, pos);
    assert |EncodeRecord(id, r)| == RecordSize(r);
  }

  lemma RecordsParseCons(rs: seq<(nat, AppRecord)>, i: nat, data: Bytes, pos: nat)
    requires i < |rs| && rs[i].0 != 0
    requires ReadU32(data, pos) == Ok(Parsed(rs[i].0, pos + Int32Size))
    requires RecordAt(data, pos + Int32Size, true) == Ok(Parsed(rs[i].1, pos + RecordSize(rs[i].1)))
    requires RecordsParse(data, pos + RecordSize(rs[i].1), rs, i + 1)
    ensures RecordsParse(data, pos, rs, i)
  {
  }

  lemma RecordsParseEnd(rs: seq<(nat, AppRecord)>, i: nat, data: Bytes, pos: nat)
    requires i >= |rs| && ReadU32(data, pos) == Ok(Parsed(0, pos + Int32Size))
    ensures RecordsParse(data, pos, rs, i)
  {
  }

  /** One turn of the modern record loop: a non-zero id, a record, and the records after it. */
  lemma RecordStep(rs: seq<(nat, AppRecord)>, i: nat, data: Bytes, pos: nat)
    requires i < |rs| && RecordsParse(data, pos, rs, i)
    requires RecordsFrom(data, pos + RecordSize(rs[i].1), true)
          == Ok(Parsed(rs[i + 1..], pos + RecordsSize(rs, i) + Int32Size))
    ensures RecordsFrom(data, pos, true) == Ok(Parsed(rs[i..], pos + RecordsSize(rs, i) + Int32Size))
  {
    assert rs[i..] == [rs[i]] + rs[i + 1..];
  }

  /** The record loop reads the records back in file order and stops at the zero id. */
  lemma {:induction false} RecordsRoundTrip(rs: seq<(nat, AppRecord)>, i: nat, data: Bytes, pos: nat)
    requires i <= |rs| && RecordsParse(data, pos, rs, i)
    ensures RecordsFrom(data, pos, true) == Ok(Parsed(rs[i..], pos + RecordsSize(rs, i) + Int32Size))
    decreases |rs| - i
  {
    if i < |rs| {
      var next := pos + RecordSize(rs[i].1);
      RecordsRoundTrip(rs, i + 1, data, next);
      assert RecordsSize(rs, i) == RecordSize(rs[i].1) + RecordsSize(rs, i + 1);
      RecordStep(rs, i, data, pos);
    } else {
      assert rs[i..] == [];
    }
  }

  /** A modern-format header followed by records that read back is decoded to the kept records. */
  lemma ModernDecodeStep(data: Bytes, pos: nat, rs: seq<(nat, AppRecord)>, appIdList: seq<string>)
    requires ReadVdfHeader(data, pos) == Ok(Parsed((ModernVersion, VdfUniverse), pos + VdfHeaderSize))
    requires RecordsFrom(data, pos + VdfHeaderSize, true) == Ok(Parsed(rs, pos + |EncodeModern(rs)|))
    ensures DecodeAt(data, pos, appIdList) == Ok(Parsed(Collect(Empty(), rs, appIdList), pos + |EncodeModern(rs)|))
  {
  }

  /** Encoded records, read back by the modern record loop. */
  lemma EncodedRecordsRead(rs: seq<(nat, AppRecord)>, data: Bytes, pos: nat, end: nat)
    requires RecordsWF(rs)
    requires IsAt(data, pos, EncodeRecords(rs, 0))
    requires end == pos + RecordsSize(rs, 0) + Int32Size
    ensures RecordsFrom(data, pos, true) == Ok(Parsed(rs, end))
  {
    RecordsParseEncoding(rs, 0, data, pos);
    RecordsRoundTrip(rs, 0, data, pos);
    assert rs[0..] == rs;
  }

  lemma EncodeModernLength(rs: seq<(nat, AppRecord)>)
    requires RecordsWF(rs)
    ensures |EncodeModern(rs)| == VdfHeaderSize + RecordsSize(rs, 0) + Int32Size
  {
    EncodeRecordsLength(rs, 0);
  }

  /** A modern-format file is its header, then its records. */
  lemma ModernSplit(rs: seq<(nat, AppRecord)>, data: Bytes, pos: nat)
    requires IsAt(data, pos, EncodeModern(rs))
    ensures IsAt(data, pos, ToLE(ModernVersion, Int32Size) + ToLE(VdfUniverse, Int32Size))
    ensures IsAt(data, pos + VdfHeaderSize, EncodeRecords(rs, 0))
  {
    IsAtSplit(data, pos, ToLE(ModernVersion, Int32Size) + ToLE(VdfUniverse, Int32Size), EncodeRecords(rs, 0));
  }

  /** A modern-format file's header reads back and passes both checks. */
  lemma ModernHeaderLayout(rs: seq<(nat, AppRecord)>, data: Bytes, pos: nat)
    requires IsAt(data, pos, EncodeModern(rs))
    ensures ReadVdfHeader(data, pos) == Ok(Parsed((ModernVersion, VdfUniverse), pos + VdfHeaderSize))
  {
    ModernSplit(rs, data, pos);
    VdfHeaderRoundTrip(ModernVersion, VdfUniverse, data, pos);
  }

  /** A modern-format file's header and records read back, up to the end of the file. */
  lemma ModernReads(rs: seq<(nat, AppRecord)>, data: Bytes, pos: nat)
    requires RecordsWF(rs)
    requires IsAt(data, pos, EncodeModern(rs))
    ensures ReadVdfHeader(data, pos) == Ok(Parsed((ModernVersion, VdfUniverse), pos + VdfHeaderSize))
    ensures RecordsFrom(data, pos + VdfHeaderSize, true) == Ok(Parsed(rs, pos + |EncodeModern(rs)|))
  {
    ModernHeaderLayout(rs, data, pos);
    ModernSplit(rs, data, pos);
    EncodeModernLength(rs);
    EncodedRecordsRead(rs, data, pos + VdfHeaderSize, pos + |EncodeModern(rs)|);
  }

  /**
   * Decoding a modern-format file gives, for the listed ids, the records it
   * was built from: exactly what storing the kept records one after another
   * yields.
   */
  lemma ModernRoundTrip(rs: seq<(nat, AppRecord)>, data: Bytes, pos: nat, appIdList: seq<string>)
    requires RecordsWF(rs)
    requires IsAt(data, pos, EncodeModern(rs))
    ensures DecodeAt(data, pos, appIdList) == Ok(Parsed(Collect(Empty(), rs, appIdList), pos + |EncodeModern(rs)|))
  {
    ModernReads(rs, data, pos);
    ModernDecodeStep(data, pos, rs, appIdList);
  }

  /**
   * `decode` on a fresh decoder over a whole modern-format file returns the
   * listed records the file was built from, and stops at its last byte.
   */
  lemma ModernFileRoundTrip(rs: seq<(nat, AppRecord)>, appIdList: seq<string>)
    requires RecordsWF(rs)
    ensures Decode(EncodeModern(rs), appIdList) == Ok(Parsed(Collect(Empty(), rs, appIdList), |EncodeModern(rs)|))
  {
    IsAtWhole(EncodeModern(rs));
    ModernRoundTrip(rs, EncodeModern(rs), 0, appIdList);
  }

  /**
   * One section of a legacy-format record: its non-zero id byte, the byte
   * the decoder skips, its name, and its root section.
   */
  datatype LegacySection = LegacySection(id: Byte, pad: Byte, name: Bytes, section: Section)

  predicate LegacyWF(l: LegacySection)
  {
    l.id != 0 && NulFree(l.name) && SectionWF(l.section)
  }

  function EncodeLegacySection(l: LegacySection): Bytes
  {
    [l.id, l.pad] + (l.name + [0]) + EncodeSection(l.section, true)
  }

  function LegacySectionSize(l: LegacySection): nat
  {
    2 + |l.name| + 1 + EntriesSize(l.section, 0) + 2
  }

  /** The legacy sections from index `i` on, then the zero id that ends them. */
  function EncodeLegacySections(ls: seq<LegacySection>, i: nat): Bytes
    decreases |ls| - i
  {
    if i >= |ls| then [0] else EncodeLegacySection(ls[i]) + EncodeLegacySections(ls, i + 1)
  }

  function LegacySectionsSize(ls: seq<LegacySection>, i: nat): nat
    decreases |ls| - i
  {
    if i >= |ls| then 0 else LegacySectionSize(ls[i]) + LegacySectionsSize(ls, i + 1)
  }

  /** What the decoder stores for a legacy section: its name, and its dict with the id added. */
  function Stored(l: LegacySection): (Bytes, Value)
  {
    (l.name, Subsection(Put(l.section, SectionIdKey, SectionId(l.id))))
  }

  /** Storing the legacy sections from index `i` on into `acc`, one after another. */
  function StoreLegacyFrom(acc: Section, ls: seq<LegacySection>, i: nat): Section
    decreases |ls| - i
  {
    if i >= |ls| then acc else StoreLegacyFrom(Put(acc, Stored(ls[i]).0, Stored(ls[i]).1), ls, i + 1)
  }

  /** An encoded legacy section reads back: its id, its name, its root section. */
  lemma LegacySectionRoundTrip(l: LegacySection, data: Bytes, pos: nat)
    requires LegacyWF(l) && IsAt(data, pos, EncodeLegacySection(l))
    ensures ReadByte(data, pos) == Ok(Parsed(l.id, pos + 1))
    ensures ReadString(data, pos + 2) == Ok(Parsed(l.name, pos + 2 + |l.name| + 1))
    ensures SectionAt(data, pos + 2 + |l.name| + 1, true)
         == Ok(Parsed(l.section, pos + LegacySectionSize(l)))
  {
    var head := [l.id, l.pad];
    IsAtSplit(data, pos, head + (l.name + [0]), EncodeSection(l.section, true));
    IsAtSplit(data, pos, head, l.name + [0]);
    assert head[0] == l.id;
    StringRoundTrip(data, pos + 2, l.name);
    SectionRoundTrip(l.section, true, data, pos + 2 + |l.name| + 1);
  }

  /** What the legacy section loop finds at `pos`: the sections from index `i` on, then the zero id. */
  predicate LegacyParse(data: Bytes, pos: nat, ls: seq<LegacySection>, i: nat)
    decreases |ls| - i
  {
    if i >= |ls| then ReadByte(data, pos) == Ok(Parsed(0, pos + 1))
    else
      var l := ls[i];
      && l.id != 0
      && ReadByte(data, pos) == Ok(Parsed(l.id, pos + 1))
      && ReadString(data, pos + 2) == Ok(Parsed(l.name, pos + 2 + |l.name| + 1))
      && SectionAt(data, pos + 2 + |l.name| + 1, true) == Ok(Parsed(l.section, pos + LegacySectionSize(l)))
      && LegacyParse(data, pos + LegacySectionSize(l), ls, i + 1)
  }

  lemma {:induction false} LegacyParseEncoding(ls: seq<LegacySection>, i: nat, data: Bytes, pos: nat)
    requires forall j :: 0 <= j < |ls| ==> LegacyWF(ls[j])
    requires IsAt(data, pos, EncodeLegacySections(ls, i))
    ensures LegacyParse(data, pos, ls, i)
    decreases |ls| - i
  {
    if i < |ls| {
      var l := ls[i];
      IsAtSplit(data, pos, EncodeLegacySection(l), EncodeLegacySections(ls, i + 1));
      LegacySectionRoundTrip(l, data, pos);
      assert |EncodeLegacySection(l)| == LegacySectionSize(l);
      LegacyParseEncoding(ls, i + 1, data, pos + LegacySectionSize(l));
    } else {
      assert [0 as Byte][0] == 0;
    }
  }

  /** The legacy section loop reads encoded sections back, each with its id stored in it. */
  lemma {:induction false} LegacyRoundTrip(ls: seq<LegacySection>, i: nat, data: Bytes, pos: nat, acc: Section)
    requires LegacyParse(data, pos, ls, i)
    ensures LegacySectionsFrom(data, pos, acc)
         == Ok(Parsed(StoreLegacyFrom(acc, ls, i), pos + LegacySectionsSize(ls, i) + 1))
    decreases |ls| - i
  {
    if i < |ls| {
      var l := ls[i];
      var next := pos + LegacySectionSize(l);
      LegacyStep(data, pos, acc, l, next);
      LegacyRoundTrip(ls, i + 1, data, next, Put(acc, Stored(l).0, Stored(l).1));
    }
  }

  /** One turn of the legacy section loop that reads a section whole. */
  lemma LegacyStep(data: Bytes, pos: nat, acc: Section, l: LegacySection, next: nat)
    requires l.id != 0 && ReadByte(data, pos) == Ok(Parsed(l.id, pos + 1))
    requires ReadString(data, pos + 2) == Ok(Parsed(l.name, pos + 2 + |l.name| + 1))
    requires SectionAt(data, pos + 2 + |l.name| + 1, true) == Ok(Parsed(l.section, next))
    ensures LegacySectionsFrom(data, pos, acc) == LegacySectionsFrom(data, next, Put(acc, Stored(l).0, Stored(l).1))
  {
  }
}
