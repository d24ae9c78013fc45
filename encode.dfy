/**
 * The inverse of the decoder: how a section, a record header and a whole
 * file are laid out in bytes. Decoding what these functions produce gives
 * the value back, which pins down the layout the decoder reads.
 */
module AppInfoEncode {

  import opened LittleEndian
  import opened OrderedDict
  import opened AppInfoFormat
  import opened AppInfoParse

  /** `b` sits in `data` starting at `pos`. */
  predicate IsAt(data: Bytes, pos: nat, b: Bytes)
  {
    pos + |b| <= |data| && forall j {:trigger b[j]} :: 0 <= j < |b| ==> data[pos + j] == b[j]
  }

  lemma IsAtSlice(data: Bytes, pos: nat, b: Bytes)
    ensures IsAt(data, pos, b) <==> pos + |b| <= |data| && data[pos..pos + |b|] == b
  {
    if pos + |b| <= |data| {
      var x := data[pos..pos + |b|];
      if IsAt(data, pos, b) {
        forall j | 0 <= j < |b| ensures x[j] == b[j] {
          assert x[j] == data[pos + j];
        }
      }
      if x == b {
        forall j | 0 <= j < |b| ensures data[pos + j] == b[j] {
          assert x[j] == data[pos + j];
        }
      }
    }
  }

  /** A buffer holds itself at position 0. */
  lemma IsAtWhole(data: Bytes)
    ensures IsAt(data, 0, data)
  {
  }

  lemma IsAtSplit(data: Bytes, pos: nat, a: Bytes, b: Bytes)
    requires IsAt(data, pos, a + b)
    ensures IsAt(data, pos, a) && IsAt(data, pos + |a|, b)
  {
    forall j | 0 <= j < |a| ensures data[pos + j] == a[j] {
      assert (a + b)[j] == a[j];
    }
    forall j | 0 <= j < |b| ensures data[pos + |a| + j] == b[j] {
      assert (a + b)[|a| + j] == b[j];
    }
  }

  /**
   * The tag a value is written with. For the values a file cannot carry
   * (a legacy section id, an integer of another width) it picks a tag all
   * the same; `TagOfTagByte` shows it agrees with the parser's `TagOf` on
   * every well-formed value.
   */
  function TagByte(v: Value): (t: Byte)
    ensures t != TagEnd
  {
    match v
    case Subsection(_) => TagSubsection
    case Str(_) => TagString
    case Integer(size, _) => if size == 32 then TagInt32 else TagInt64
    case SectionId(_) => TagSubsection
  }

  /**
   * A value the file format can carry: strings and keys without NUL,
   * integers of 32 or 64 bits that fit, nested sections with distinct keys,
   * and no legacy section id (the decoder adds those itself).
   */
  predicate ValueWF(v: Value)
    decreases v, 1
  {
    match v
    case Subsection(s) => SectionWF(s)
    case Str(b) => NulFree(b)
    case Integer(size, n) => (size == 32 && n < Pow256(4)) || (size == 64 && n < Pow256(8))
    case SectionId(_) => false
  }

  /** On a well-formed value, the tag written is the tag the parser dispatches on. */
  lemma TagOfTagByte(v: Value)
    requires ValueWF(v)
    ensures TagOf(v) == Some(TagByte(v))
  {
  }

  predicate SectionWF(s: Section)
    decreases s, |s.entries| + 1
  {
    UniqueKeys(s) && EntriesWF(s, 0)
  }

  /** Every entry from index `i` on has a NUL-free key and a well-formed value. */
  predicate EntriesWF(s: Section, i: nat)
    decreases s, |s.entries| - i
  {
    i >= |s.entries| || (NulFree(s.entries[i].0) && ValueWF(s.entries[i].1) && EntriesWF(s, i + 1))
  }

  /** How many bytes a value takes after its tag and key. */
  function ValueSize(v: Value): nat
    decreases v, 1
  {
    match v
    case Subsection(s) => EntriesSize(s, 0) + 1
    case Str(b) => |b| + 1
    case Integer(size, _) => if size == 32 then Int32Size else Int64Size
    case SectionId(_) => 0
  }

  /** How many bytes one entry takes. */
  function EntrySize(key: Bytes, v: Value): nat
    decreases v, 2
  {
    1 + |key| + 1 + ValueSize(v)
  }

  /** How many bytes the entries of `s` from index `i` on take. */
  function EntriesSize(s: Section, i: nat): nat
    decreases s, |s.entries| - i
  {
    if i >= |s.entries| then 0 else EntrySize(s.entries[i].0, s.entries[i].1) + EntriesSize(s, i + 1)
  }

  /** A value's bytes after its tag and key. */
  function EncodeValue(v: Value): (b: Bytes)
    decreases v, 1
    ensures |b| == ValueSize(v)
  {
    match v
    case Subsection(s) => EncodeEntries(s, 0) + [TagEnd]
    case Str(b) => b + [0]
    case Integer(size, n) => if size == 32 then ToLE(n, Int32Size) else ToLE(n, Int64Size)
    case SectionId(_) => []
  }

  /** One entry: its tag, its NUL-terminated key, its value. */
  function EncodeEntry(key: Bytes, v: Value): (b: Bytes)
    decreases v, 2
    ensures |b| == EntrySize(key, v)
  {
    [TagByte(v)] + (key + [0]) + EncodeValue(v)
  }

  /** The entries of `s` from index `i` on. */
  function EncodeEntries(s: Section, i: nat): (b: Bytes)
    decreases s, |s.entries| - i
    ensures |b| == EntriesSize(s, i)
  {
    if i >= |s.entries| then [] else EncodeEntry(s.entries[i].0, s.entries[i].1) + EncodeEntries(s, i + 1)
  }

  /** A whole section: its entries, the end tag, and for a root section the extra byte after it. */
  function EncodeSection(s: Section, root: bool): Bytes
  {
    EncodeEntries(s, 0) + [TagEnd] + (if root then [TagEnd] else [])
  }

  /** `readString` reads back a NUL-free string and steps over its terminator. */
  lemma StringRoundTrip(data: Bytes, pos: nat, s: Bytes)
    requires NulFree(s) && IsAt(data, pos, s + [0])
    ensures ReadString(data, pos) == Ok(Parsed(s, pos + |s| + 1))
  {
    IsAtSlice(data, pos, s + [0]);
    var w := data[pos..pos + |s| + 1];
    assert data[pos..pos + |s|] == w[..|s|] == s;
    forall j | pos <= j < pos + |s| ensures data[j] != 0 {
      assert data[j] == s[j - pos];
    }
    assert data[pos + |s|] == w[|s|] == 0;
    NulIndexAt(data, pos, pos + |s|);
  }

  /** An unsigned integer that fits in `size` bytes reads back from its encoding. */
  lemma UIntRoundTrip(data: Bytes, pos: nat, size: nat, n: nat)
    requires n < Pow256(size) && IsAt(data, pos, ToLE(n, size))
    ensures ReadUInt(data, pos, size) == Ok(Parsed(n, pos + size))
  {
    IsAtSlice(data, pos, ToLE(n, size));
    var m := ReadUInt(data, pos, size).value.item;
    FromToLEFits(m, size);
    FromToLEFits(n, size);
  }

  /** One entry of a section, read by `EntryAt`, is stored and the loop goes on after it. */
  lemma SectionStep(data: Bytes, pos: nat, root: bool, acc: Section, key: Bytes, v: Value, next: nat)
    requires EntryAt(data, pos) == Ok(Parsed(Some((key, v)), next))
    ensures SectionFrom(data, pos, root, acc) == SectionFrom(data, next, root, Put(acc, key, v))
  {
  }

  /** The end tag closes a section; a root section also skips the byte after it, unread. */
  lemma SectionEnd(data: Bytes, pos: nat, root: bool, acc: Section)
    requires EntryAt(data, pos) == Ok(Parsed(None, pos + 1))
    ensures SectionFrom(data, pos, root, acc) == Ok(Parsed(acc, if root then pos + 2 else pos + 1))
  {
  }

  /** Where the parts of an encoded entry sit. */
  lemma EntryLayout(data: Bytes, pos: nat, key: Bytes, v: Value)
    requires IsAt(data, pos, EncodeEntry(key, v))
    ensures pos < |data| && data[pos] == TagByte(v)
    ensures IsAt(data, pos + 1, key + [0])
    ensures IsAt(data, pos + 1 + |key| + 1, EncodeValue(v))
  {
    var tag := [TagByte(v)];
    assert tag[0] == TagByte(v);
    IsAtSplit(data, pos, tag + (key + [0]), EncodeValue(v));
    IsAtSplit(data, pos, tag, key + [0]);
  }

  /** Parsing a well-formed value's encoding with its tag gives the value back. */
  lemma {:induction false} ValueRoundTrip(v: Value, data: Bytes, pos: nat)
    requires ValueWF(v) && IsAt(data, pos, EncodeValue(v))
    ensures ValueAt(data, pos, TagByte(v)) == Ok(Parsed(v, pos + ValueSize(v)))
    decreases v, 1
  {
    match v
    case Subsection(s) =>
      SubsectionRoundTrip(s, data, pos);
    case Str(b) =>
      StringRoundTrip(data, pos, b);
    case Integer(size, n) =>
      if size == 32 {
        UIntRoundTrip(data, pos, Int32Size, n);
      } else {
        UIntRoundTrip(data, pos, Int64Size, n);
      }
  }

  /** A nested section reads back from its entries and end tag. */
  lemma {:induction false} SubsectionRoundTrip(s: Section, data: Bytes, pos: nat)
    requires SectionWF(s) && IsAt(data, pos, EncodeEntries(s, 0) + [TagEnd])
    ensures SectionFrom(data, pos, false, Empty()) == Ok(Parsed(s, pos + EntriesSize(s, 0) + 1))
    decreases s, |s.entries| + 1
  {
    IsAtSplit(data, pos, EncodeEntries(s, 0), [TagEnd]);
    assert [TagEnd][0] == TagEnd;
    EntriesParseEncoding(s, 0, data, pos);
    EntriesRoundTrip(s, 0, data, pos, false, Empty());
    StoreFromPutAll(Empty(), s, 0);
    assert s.entries[0..] == s.entries;
    PutAllEntries(s);
  }

  /**
   * What reading the encoded entries of `s` from index `i` on finds at `pos`:
   * each entry in turn, then the end tag.
   */
  predicate EntriesParse(data: Bytes, pos: nat, s: Section, i: nat)
    decreases |s.entries| - i
  {
    if i >= |s.entries| then EntryAt(data, pos) == Ok(Parsed(None, pos + 1))
    else
      var key, v := s.entries[i].0, s.entries[i].1;
      && EntryAt(data, pos) == Ok(Parsed(Some((key, v)), pos + EntrySize(key, v)))
      && EntriesParse(data, pos + EntrySize(key, v), s, i + 1)
  }

  /** An encoded entry reads back as its key and value. */
  lemma {:induction false} EntryRoundTrip(key: Bytes, v: Value, data: Bytes, pos: nat)
    requires NulFree(key) && ValueWF(v)
    requires IsAt(data, pos, EncodeEntry(key, v))
    ensures EntryAt(data, pos) == Ok(Parsed(Some((key, v)), pos + EntrySize(key, v)))
    decreases v, 2
  {
    EntryLayout(data, pos, key, v);
    StringRoundTrip(data, pos + 1, key);
    ValueRoundTrip(v, data, pos + 1 + |key| + 1);
  }

  /** Encoded well-formed entries followed by the end tag read back entry by entry. */
  lemma {:induction false} EntriesParseEncoding(s: Section, i: nat, data: Bytes, pos: nat)
    requires EntriesWF(s, i)
    requires IsAt(data, pos, EncodeEntries(s, i))
    requires pos + EntriesSize(s, i) < |data| && data[pos + EntriesSize(s, i)] == TagEnd
    ensures EntriesParse(data, pos, s, i)
    decreases s, |s.entries| - i, 2
  {
    if i < |s.entries| {
      var key, v := s.entries[i].0, s.entries[i].1;
      EntriesHead(s, i, data, pos);
      EntryRoundTrip(key, v, data, pos);
      EntriesParseEncoding(s, i + 1, data, pos + EntrySize(key, v));
      EntriesParseCons(s, i, key, v, data, pos);
    } else {
      EntriesParseEnd(s, i, data, pos);
    }
  }

  /** Encoded entries are the first entry's encoding followed by the rest. */
  lemma EntriesHead(s: Section, i: nat, data: Bytes, pos: nat)
    requires i < |s.entries|
    requires IsAt(data, pos, EncodeEntries(s, i))
    ensures IsAt(data, pos, EncodeEntry(s.entries[i].0, s.entries[i].1))
    ensures IsAt(data, pos + EntrySize(s.entries[i].0, s.entries[i].1), EncodeEntries(s, i + 1))
    ensures EntriesSize(s, i) == EntrySize(s.entries[i].0, s.entries[i].1) + EntriesSize(s, i + 1)
  {
    IsAtSplit(data, pos, EncodeEntry(s.entries[i].0, s.entries[i].1), EncodeEntries(s, i + 1));
  }

  /** An entry that reads back, followed by entries that read back. */
  lemma EntriesParseCons(s: Section, i: nat, key: Bytes, v: Value, data: Bytes, pos: nat)
    requires i < |s.entries| && s.entries[i] == (key, v)
    requires EntryAt(data, pos) == Ok(Parsed(Some((key, v)), pos + EntrySize(key, v)))
    requires EntriesParse(data, pos + EntrySize(key, v), s, i + 1)
    ensures EntriesParse(data, pos, s, i)
  {
  }

  /** Past the last entry, the end tag reads as the end of the section. */
  lemma EntriesParseEnd(s: Section, i: nat, data: Bytes, pos: nat)
    requires i >= |s.entries|
    requires pos + EntriesSize(s, i) < |data| && data[pos + EntriesSize(s, i)] == TagEnd
    ensures EntriesParse(data, pos, s, i)
  {
  }

  /** Storing the entries of `s` from index `i` on into `acc`, one after another. */
  function StoreFrom(acc: Section, s: Section, i: nat): Section
    decreases |s.entries| - i
  {
    if i >= |s.entries| then acc else StoreFrom(Put(acc, s.entries[i].0, s.entries[i].1), s, i + 1)
  }

  lemma {:induction false} StoreFromPutAll(acc: Section, s: Section, i: nat)
    requires i <= |s.entries|
    ensures StoreFrom(acc, s, i) == PutAll(acc, s.entries[i..])
    decreases |s.entries| - i
  {
    if i < |s.entries| {
      assert s.entries[i..][1..] == s.entries[i + 1..];
      StoreFromPutAll(Put(acc, s.entries[i].0, s.entries[i].1), s, i + 1);
    }
  }

  /**
   * Parsing encoded entries stores them one after another into the dict
   * built so far, whether or not their keys repeat.
   */
  lemma {:induction false} EntriesRoundTrip(s: Section, i: nat, data: Bytes, pos: nat, root: bool, acc: Section)
    requires EntriesParse(data, pos, s, i)
    ensures SectionFrom(data, pos, root, acc)
         == Ok(Parsed(StoreFrom(acc, s, i), pos + EntriesSize(s, i) + 1 + (if root then 1 else 0)))
    decreases |s.entries| - i
  {
    if i >= |s.entries| {
      SectionEnd(data, pos, root, acc);
    } else {
      var key, v := s.entries[i].0, s.entries[i].1;
      SectionStep(data, pos, root, acc, key, v, pos + EntrySize(key, v));
      EntriesRoundTrip(s, i + 1, data, pos + EntrySize(key, v), root, Put(acc, key, v));
    }
  }
}
