/** The two archive writers: the in-memory one for log exports and the one that writes a
    crash bundle with checks, plus the size estimate that is meant to bound both. */
module ZipWriter {

  import opened Wrappers
  import opened ZipFormat

  /** Deflate and CRC-32 as black boxes; deflate may fail. */
  datatype Codec = Codec(deflate: Bytes -> Option<Bytes>, inflate: Bytes -> Bytes, crc: Bytes -> U32)

  /** Inflating what deflate produced gives the input back. */
  ghost predicate Lossless(codec: Codec) {
    forall d :: codec.deflate(d).Some? ==> codec.inflate(codec.deflate(d).value) == d
  }

  datatype DataEntry = DataEntry(name: Bytes, data: Bytes, dosTime: U16, dosDate: U16)

  /** A dump found on disk: the size seen when it was listed, and what opening it yields now. */
  datatype FileEntry = FileEntry(name: Bytes, size: nat, dosTime: U16, dosDate: U16, content: Option<Bytes>)

  const DEFLATED: U16 := 8
  const STORED: U16 := 0

  /** Deflate is used only when it makes the data strictly smaller. */
  function RecordOf(codec: Codec, e: DataEntry): Record {
    var packed := codec.deflate(e.data);
    if packed.Some? && |packed.value| < |e.data| then
      Record(e.name, DEFLATED, codec.crc(e.data), e.dosTime, e.dosDate, packed.value, |e.data|)
    else
      Record(e.name, STORED, codec.crc(e.data), e.dosTime, e.dosDate, e.data, |e.data|)
  }

  function RecordsOf(codec: Codec, es: seq<DataEntry>): (rs: seq<Record>)
    ensures |rs| == |es|
  {
    if es == [] then [] else RecordsOf(codec, es[..|es| - 1]) + [RecordOf(codec, es[|es| - 1])]
  }

  //////////////////// Appending ////////////////////

  lemma AppendRecord(rs: seq<Record>, r: Record)
    ensures Concat(LocalParts(rs + [r])) == Concat(LocalParts(rs)) + LocalPart(r)
    ensures Offset(rs + [r], |rs|) == |Concat(LocalParts(rs))|
    ensures forall i | 0 <= i <= |rs| :: Offset(rs + [r], i) == Offset(rs, i)
  {
    hide LocalPart;
    assert (rs + [r])[..|rs|] == rs;
    assert LocalParts(rs + [r])[..|rs|] == LocalParts(rs);
    forall i | 0 <= i <= |rs| ensures Offset(rs + [r], i) == Offset(rs, i) {
      assert (rs + [r])[..i] == rs[..i];
    }
  }

  lemma AppendEntry(codec: Codec, es: seq<DataEntry>, n: nat)
    requires n < |es|
    ensures RecordsOf(codec, es[..n + 1]) == RecordsOf(codec, es[..n]) + [RecordOf(codec, es[n])]
  {
    assert es[..n + 1][..n] == es[..n];
  }

  lemma AppendPiece(pieces: seq<Bytes>, n: nat)
    requires n < |pieces|
    ensures Concat(pieces[..n + 1]) == Concat(pieces[..n]) + pieces[n]
  {
    assert pieces[..n + 1][..n] == pieces[..n];
  }

  /** Truncating an offset before it is written changes nothing. */
  lemma TruncatedOffset(r: Record, offset: nat)
    ensures CentralPart(r, ToU32(offset)) == CentralPart(r, offset)
  {
    hide LE32, LE16, CommonFields;
  }

  lemma TruncatedSum(a: nat, b: nat)
    ensures ToU32(ToU32(a) + ToU32(b)) == ToU32(a + b)
  {
  }

  //////////////////// In memory ////////////////////

  /** What is remembered about a written member for the central directory. */
  datatype CdEntry = CdEntry(record: Record, offset: U32)

  /** The directory entries describe the records, with truncated offsets. */
  predicate Describes(cd: seq<CdEntry>, rs: seq<Record>) {
    |cd| == |rs| && forall i | 0 <= i < |rs| :: cd[i].record == rs[i] && cd[i].offset == ToU32(Offset(rs, i))
  }

  lemma DescribesMore(cd: seq<CdEntry>, rs: seq<Record>, r: Record, offset: U32)
    requires Describes(cd, rs) && offset == ToU32(|Concat(LocalParts(rs))|)
    ensures Describes(cd + [CdEntry(r, offset)], rs + [r])
  {
    hide LocalPart, ToU32, Concat, LocalParts;
    AppendRecord(rs, r);
    assert forall i | 0 <= i < |rs| :: (rs + [r])[i] == rs[i] && Offset(rs + [r], i) == Offset(rs, i);
  }

  lemma DescribedPart(cd: seq<CdEntry>, rs: seq<Record>, k: nat)
    requires Describes(cd, rs) && k < |rs|
    ensures CentralPart(cd[k].record, cd[k].offset) == CentralParts(rs)[k]
  {
    hide CentralPart, LocalPart;
    PartsByIndex(rs, k);
    TruncatedOffset(rs[k], Offset(rs, k));
  }

  method BuildZipFromEntries(entries: seq<DataEntry>, codec: Codec) returns (out: Bytes)
    ensures out == Archive(RecordsOf(codec, entries))
  {
    hide LocalPart, CentralPart, EndRecord, LocalParts, CentralParts, Concat, ToU32, ToU16;
    out := [];
    var cd: seq<CdEntry> := [];
    ghost var rs: seq<Record> := [];
    EmptyLayout();
    var n := 0;
    while n < |entries|
      invariant n <= |entries|
      invariant rs == RecordsOf(codec, entries[..n])
      invariant out == Concat(LocalParts(rs)) && Describes(cd, rs)
    {
      var e := entries[n];
      var compressed := codec.deflate(e.data);
      var useDeflate := compressed.Some? && |compressed.value| < |e.data|;
      var payload := if useDeflate then compressed.value else e.data;
      var compression := if useDeflate then DEFLATED else STORED;
      var record := Record(e.name, compression, codec.crc(e.data), e.dosTime, e.dosDate, payload, |e.data|);
      var offset := ToU32(|out|);
      DescribesMore(cd, rs, record, offset);
      AppendRecord(rs, record);
      AppendEntry(codec, entries, n);
      out := out + LocalPart(record);
      cd := cd + [CdEntry(record, offset)];
      rs := rs + [record];
      n := n + 1;
    }
    assert entries[..n] == entries;
    ghost var central := CentralParts(rs);
    var locals, cdStart := out, ToU32(|out|);
    var cdSize := ToU32(0);
    var k := 0;
    assert central[..0] == [];
    while k < |cd|
      invariant k <= |cd|
      invariant out == locals + Concat(central[..k])
      invariant cdSize == ToU32(|Concat(central[..k])|)
    {
      var rec := CentralPart(cd[k].record, cd[k].offset);
      DescribedPart(cd, rs, k);
      AppendPiece(central, k);
      TruncatedSum(|Concat(central[..k])|, |rec|);
      cdSize := ToU32(cdSize + ToU32(|rec|));
      out := out + rec;
      k := k + 1;
    }
    assert central[..k] == central;
    EndRecordTruncates(|rs|, |Concat(central)|, |locals|);
    out := out + EndRecord(ToU16(|cd|), cdSize, cdStart);
  }

  lemma EmptyLayout()
    ensures Concat(LocalParts([])) == [] && Concat([]) == [] && ToU32(0) == 0
  {
  }

  //////////////////// To a file, with checks ////////////////////

  const MAX_POSITION := 0xFFFF_FFFF

  datatype Failure = OffsetOverflow | DumpMissing | DumpTooLarge | DumpTooShort | DirectoryOverflow | SizeOverflow

  datatype WriteResult = Written(bytes: Bytes) | Failed(reason: Failure)

  /** A dump that can be opened, fits a 32-bit size and is still as long as when it was listed. */
  predicate Readable(f: FileEntry) {
    f.content.Some? && f.size <= MAX_POSITION && f.size <= |f.content.value|
  }

  /** What is archived of a dump: as many bytes as were listed, even if it has grown since. */
  function DumpEntry(f: FileEntry): DataEntry {
    DataEntry(f.name, if Readable(f) then f.content.value[..f.size] else [], f.dosTime, f.dosDate)
  }

  function DumpEntries(fs: seq<FileEntry>): (es: seq<DataEntry>)
    ensures |es| == |fs|
  {
    if fs == [] then [] else DumpEntries(fs[..|fs| - 1]) + [DumpEntry(fs[|fs| - 1])]
  }

  function BundleRecords(codec: Codec, logs: seq<DataEntry>, dumps: seq<FileEntry>): seq<Record> {
    RecordsOf(codec, logs + DumpEntries(dumps))
  }

  /** Bytes before the end record. */
  function BodySize(rs: seq<Record>): nat { |Concat(LocalParts(rs))| + |Concat(CentralParts(rs))| }

  /** Exactly the inputs for which the bundle writer succeeds. */
  predicate Bundleable(codec: Codec, logs: seq<DataEntry>, dumps: seq<FileEntry>) {
    && (forall i | 0 <= i < |dumps| :: Readable(dumps[i]))
    && BodySize(BundleRecords(codec, logs, dumps)) <= MAX_POSITION
  }

  lemma {:induction false} BodyGrows(codec: Codec, es: seq<DataEntry>, n: nat)
    requires n <= |es|
    ensures |Concat(LocalParts(RecordsOf(codec, es[..n])))| <= |Concat(LocalParts(RecordsOf(codec, es)))|
    decreases |es| - n
  {
    hide LocalPart, LocalParts, Concat;
    if n < |es| {
      AppendEntry(codec, es, n);
      AppendRecord(RecordsOf(codec, es[..n]), RecordOf(codec, es[n]));
      BodyGrows(codec, es, n + 1);
    } else {
      assert es[..n] == es;
    }
  }

  lemma {:induction false} DumpEntryAt(fs: seq<FileEntry>, i: nat)
    requires i < |fs|
    ensures DumpEntries(fs)[i] == DumpEntry(fs[i])
  {
    if i < |fs| - 1 { DumpEntryAt(fs[..|fs| - 1], i); }
  }

  /** One output file being filled: the bytes so far and the directory entries to come. */
  class BundleFile {
    var out: Bytes
    var cd: seq<CdEntry>
    ghost var rs: seq<Record>

    ghost predicate Valid()
      reads this
    {
      out == Concat(LocalParts(rs)) && Describes(cd, rs)
    }

    constructor ()
      ensures Valid() && rs == []
    {
      out, cd, rs := [], [], [];
      EmptyLayout();
    }

    /** Compresses one entry and appends its local part, unless its offset would not fit. */
    method AddEntry(e: DataEntry, codec: Codec) returns (ok: bool)
      requires Valid()
      modifies this
      ensures Valid()
      ensures ok == (|Concat(LocalParts(old(rs)))| <= MAX_POSITION)
      ensures rs == if ok then old(rs) + [RecordOf(codec, e)] else old(rs)
    {
      hide LocalPart, LocalParts, Concat, ToU32;
      var compressed := codec.deflate(e.data);
      var useDeflate := compressed.Some? && |compressed.value| < |e.data|;
      var payload := if useDeflate then compressed.value else e.data;
      var compression := if useDeflate then DEFLATED else STORED;
      if |out| > MAX_POSITION {
        return false;
      }
      var record := Record(e.name, compression, codec.crc(e.data), e.dosTime, e.dosDate, payload, |e.data|);
      var offset := ToU32(|out|);
      DescribesMore(cd, rs, record, offset);
      AppendRecord(rs, record);
      out := out + LocalPart(record);
      cd := cd + [CdEntry(record, offset)];
      rs := rs + [record];
      return true;
    }

    /** Writes the central directory and the end record, unless a position would not fit. */
    method Finish() returns (r: WriteResult)
      requires Valid()
      ensures r == if BodySize(rs) <= MAX_POSITION then Written(Archive(rs))
                   else Failed(if |Concat(LocalParts(rs))| > MAX_POSITION then DirectoryOverflow else SizeOverflow)
    {
      hide LocalPart, CentralPart, EndRecord, LocalParts, CentralParts, Concat, ToU32, ToU16;
      if |out| > MAX_POSITION {
        return Failed(DirectoryOverflow);
      }
      ghost var central := CentralParts(rs);
      var bytes, cdStart := out, ToU32(|out|);
      var k := 0;
      assert central[..0] == [];
      ConcatOfNone();
      while k < |cd|
        invariant k <= |cd|
        invariant bytes == out + Concat(central[..k])
      {
        DescribedPart(cd, rs, k);
        AppendPiece(central, k);
        bytes := bytes + CentralPart(cd[k].record, cd[k].offset);
        k := k + 1;
      }
      assert central[..k] == central;
      if |bytes| > MAX_POSITION {
        return Failed(SizeOverflow);
      }
      EndRecordTruncates(|rs|, |Concat(central)|, |out|);
      var cdSize := ToU32(|bytes| - |out|);
      return Written(bytes + EndRecord(ToU16(|cd|), cdSize, cdStart));
    }
  }

  method WriteZipBundle(logs: seq<DataEntry>, dumps: seq<FileEntry>, codec: Codec) returns (r: WriteResult)
    ensures r.Written? <==> Bundleable(codec, logs, dumps)
    ensures r.Written? ==> r.bytes == Archive(BundleRecords(codec, logs, dumps))
  {
    hide LocalPart, CentralPart, EndRecord, LocalParts, CentralParts, Concat, ToU32, ToU16, Archive;
    hide RecordOf, RecordsOf, DumpEntries, Describes;
    ghost var es := logs + DumpEntries(dumps);
    var file := new BundleFile();
    var n := 0;
    while n < |logs|
      invariant n <= |logs|
      invariant file.Valid() && fresh(file) && file.rs == RecordsOf(codec, es[..n])
    {
      assert es[n] == logs[n];
      AppendEntry(codec, es, n);
      BodyGrows(codec, es, n);
      var ok := file.AddEntry(logs[n], codec);
      if !ok {
        return Failed(OffsetOverflow);
      }
      n := n + 1;
    }
    n := 0;
    while n < |dumps|
      invariant n <= |dumps|
      invariant file.Valid() && fresh(file) && file.rs == RecordsOf(codec, es[..|logs| + n])
      invariant forall i | 0 <= i < n :: Readable(dumps[i])
    {
      var f := dumps[n];
      if f.content.None? {
        return Failed(DumpMissing);
      }
      if f.size > MAX_POSITION {
        return Failed(DumpTooLarge);
      }
      if |f.content.value| < f.size {
        return Failed(DumpTooShort);
      }
      var raw := f.content.value[..f.size];
      DumpEntryAt(dumps, n);
      assert es[|logs| + n] == DumpEntry(f);
      AppendEntry(codec, es, |logs| + n);
      BodyGrows(codec, es, |logs| + n);
      var ok := file.AddEntry(DataEntry(f.name, raw, f.dosTime, f.dosDate), codec);
      if !ok {
        return Failed(OffsetOverflow);
      }
      n := n + 1;
    }
    assert es[..|logs| + n] == es;
    r := file.Finish();
  }

  //////////////////// Getting the data back ////////////////////

  /** What an unarchiver hands out for a member. */
  function Extracted(codec: Codec, r: Record): (Bytes, Bytes) {
    (r.name, if r.compression == DEFLATED then codec.inflate(r.payload) else r.payload)
  }

  lemma {:induction false} RecordAt(codec: Codec, es: seq<DataEntry>, i: nat)
    requires i < |es|
    ensures RecordsOf(codec, es)[i] == RecordOf(codec, es[i])
  {
    if i < |es| - 1 { RecordAt(codec, es[..|es| - 1], i); }
  }

  /** Entries that the format can name and measure: names, count and data lengths within their fields. */
  predicate Archivable(es: seq<DataEntry>) {
    |es| < 0x1_0000 && forall i | 0 <= i < |es| :: |es[i].name| < 0x1_0000 && |es[i].data| < 0x1_0000_0000
  }

  lemma ArchivableIsCountable(codec: Codec, es: seq<DataEntry>)
    ensures Archivable(es) <==> Countable(RecordsOf(codec, es))
  {
    hide RecordOf, RecordsOf;
    forall i | 0 <= i < |es|
      ensures Nameable(RecordsOf(codec, es)[i]) <==> |es[i].name| < 0x1_0000 && |es[i].data| < 0x1_0000_0000
    {
      RecordAt(codec, es, i);
      RecordNamesEntry(codec, es[i]);
    }
    assert |RecordsOf(codec, es)| == |es|;
  }

  lemma RecordNamesEntry(codec: Codec, e: DataEntry)
    ensures RecordOf(codec, e).name == e.name && RecordOf(codec, e).size == |e.data|
  {
  }

  /** Reading an archive of `es` and inflating its members gives every name and every
      byte of data back, in order, with the right checksum and length. */
  lemma EntriesRoundTrip(codec: Codec, es: seq<DataEntry>, i: nat)
    requires Lossless(codec) && Archivable(es)
    requires |Concat(LocalParts(RecordsOf(codec, es)))| < 0x1_0000_0000 && |Concat(CentralParts(RecordsOf(codec, es)))| < 0x1_0000_0000
    requires i < |es|
    ensures var read := ReadArchive(Archive(RecordsOf(codec, es)));
            && read.Some? && |read.value| == |es|
            && Extracted(codec, read.value[i]) == (es[i].name, es[i].data)
            && read.value[i].crc == codec.crc(es[i].data) && read.value[i].size == |es[i].data|
            && read.value[i].dosTime == es[i].dosTime && read.value[i].dosDate == es[i].dosDate
  {
    hide ReadArchive, Archive, LocalParts, CentralParts;
    ArchivableIsCountable(codec, es);
    ArchiveRoundTrip(RecordsOf(codec, es));
    RecordAt(codec, es, i);
  }

  /** A bundle that was written reads back exactly if the number of members, their names and
      the lengths of the logs are within what the format can express: the writer checks
      positions, but none of these. */
  lemma BundleRoundTrip(codec: Codec, logs: seq<DataEntry>, dumps: seq<FileEntry>)
    requires Bundleable(codec, logs, dumps)
    ensures var rs := BundleRecords(codec, logs, dumps);
            ReadArchive(Archive(rs)) == Some(rs) <==>
            && |logs| + |dumps| < 0x1_0000
            && (forall i | 0 <= i < |logs| :: |logs[i].name| < 0x1_0000 && |logs[i].data| < 0x1_0000_0000)
            && (forall i | 0 <= i < |dumps| :: |dumps[i].name| < 0x1_0000)
  {
    hide ReadArchive, Archive, LocalParts, CentralParts, Concat;
    var es := logs + DumpEntries(dumps);
    assert forall i | 0 <= i < |logs| :: es[i] == logs[i];
    forall i | |logs| <= i < |es|
      ensures es[i].name == dumps[i - |logs|].name && |es[i].data| < 0x1_0000_0000
    {
      DumpEntryAt(dumps, i - |logs|);
    }
    assert forall i | 0 <= i < |dumps| :: es[|logs| + i].name == dumps[i].name;
    ArchivableIsCountable(codec, es);
    ArchiveRoundTrip(RecordsOf(codec, es));
  }

  /** So a bundle of too many members is written without complaint and cannot be read back. */
  lemma TooManyMembers(codec: Codec, logs: seq<DataEntry>, dumps: seq<FileEntry>)
    requires Bundleable(codec, logs, dumps) && |logs| + |dumps| >= 0x1_0000
    ensures var rs := BundleRecords(codec, logs, dumps); ReadArchive(Archive(rs)) != Some(rs)
  {
    hide *;
    BundleRoundTrip(codec, logs, dumps);
  }

  //////////////////// The size estimate ////////////////////

  function EstimateZipEntrySize(nameLength: nat, size: nat): nat {
    LOCAL_SIZE + CENTRAL_SIZE + nameLength * 2 + size
  }

  function DataTotal(es: seq<DataEntry>): nat {
    if es == [] then 0
    else DataTotal(es[..|es| - 1]) + EstimateZipEntrySize(|es[|es| - 1].name|, |es[|es| - 1].data|)
  }

  function FileTotal(fs: seq<FileEntry>): nat {
    if fs == [] then 0
    else FileTotal(fs[..|fs| - 1]) + EstimateZipEntrySize(|fs[|fs| - 1].name|, fs[|fs| - 1].size)
  }

  method EstimateZipSize(es: seq<DataEntry>, fs: seq<FileEntry>) returns (total: nat)
    ensures total == END_SIZE + DataTotal(es) + FileTotal(fs)
  {
    total := END_SIZE;
    var n := 0;
    while n < |es|
      invariant n <= |es| && total == END_SIZE + DataTotal(es[..n])
    {
      assert es[..n + 1][..n] == es[..n];
      total := total + EstimateZipEntrySize(|es[n].name|, |es[n].data|);
      n := n + 1;
    }
    assert es[..n] == es;
    n := 0;
    while n < |fs|
      invariant n <= |fs| && total == END_SIZE + DataTotal(es) + FileTotal(fs[..n])
    {
      assert fs[..n + 1][..n] == fs[..n];
      total := total + EstimateZipEntrySize(|fs[n].name|, fs[n].size);
      n := n + 1;
    }
    assert fs[..n] == fs;
  }

  /** Some member of the archive was worth deflating. */
  predicate Compresses(codec: Codec, es: seq<DataEntry>) {
    exists i :: 0 <= i < |es| && RecordOf(codec, es[i]).compression == DEFLATED
  }

  /** The archive is never larger than its estimate, and as large exactly when nothing was deflated. */
  lemma {:induction false} EstimateBounds(codec: Codec, es: seq<DataEntry>)
    ensures BodySize(RecordsOf(codec, es)) <= DataTotal(es)
    ensures BodySize(RecordsOf(codec, es)) == DataTotal(es) <==> !Compresses(codec, es)
  {
    hide LocalPart, CentralPart, Offset;
    if es == [] {
      EmptyLayout();
    } else {
      var init, e := es[..|es| - 1], es[|es| - 1];
      EstimateBounds(codec, init);
      assert es[..|es|] == es;
      AppendEntry(codec, es, |es| - 1);
      AppendSizes(RecordsOf(codec, init), RecordOf(codec, e));
      assert Compresses(codec, es) <==> Compresses(codec, init) || RecordOf(codec, e).compression == DEFLATED by {
        assert forall i | 0 <= i < |init| :: init[i] == es[i];
      }
    }
  }

  lemma AppendSizes(rs: seq<Record>, r: Record)
    ensures BodySize(rs + [r]) == BodySize(rs) + LOCAL_SIZE + CENTRAL_SIZE + 2 * |r.name| + |r.payload|
  {
  }

  lemma {:induction false} SplitTotal(logs: seq<DataEntry>, dumps: seq<FileEntry>)
    requires forall i | 0 <= i < |dumps| :: Readable(dumps[i])
    ensures DataTotal(logs + DumpEntries(dumps)) == DataTotal(logs) + FileTotal(dumps)
  {
    if dumps == [] {
      assert logs + DumpEntries(dumps) == logs;
    } else {
      var init, f := dumps[..|dumps| - 1], dumps[|dumps| - 1];
      SplitTotal(logs, init);
      var es := logs + DumpEntries(dumps);
      assert es[..|es| - 1] == logs + DumpEntries(init);
    }
  }

  /** A written bundle is at most as large as the estimate made from the listed sizes. */
  lemma BundleWithinEstimate(codec: Codec, logs: seq<DataEntry>, dumps: seq<FileEntry>)
    requires Bundleable(codec, logs, dumps)
    ensures var written, estimate := |Archive(BundleRecords(codec, logs, dumps))|, END_SIZE + DataTotal(logs) + FileTotal(dumps);
            written <= estimate && (written == estimate <==> !Compresses(codec, logs + DumpEntries(dumps)))
  {
    EstimateBounds(codec, logs + DumpEntries(dumps));
    SplitTotal(logs, dumps);
  }
}
