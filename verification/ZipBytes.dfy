/** The archives byte by byte, in the numbers of APPNOTE.TXT sections 4.3.7, 4.3.12 and 4.3.16:
    where every field is and what is in it, without reference to the writer's own pieces. */
module ZipBytes {

  import opened Wrappers
  import opened ZipFormat
  import opened ZipWriter

  //////////////////// Fields ////////////////////

  /** A 16-bit field at `p`, low byte first, of whatever part of `v` it can hold. */
  predicate Word(s: Bytes, p: nat, v: nat) { p + 2 <= |s| && s[p] == v % 256 && s[p + 1] == v / 256 % 256 }

  predicate Double(s: Bytes, p: nat, v: nat) {
    && p + 4 <= |s| && s[p] == v % 256 && s[p + 1] == v / 256 % 256
    && s[p + 2] == v / 65536 % 256 && s[p + 3] == v / 16777216 % 256
  }

  /** The data of an entry as it is stored: deflated if that makes it shorter. */
  function Stored(codec: Codec, e: DataEntry): (r: (bool, Bytes)) {
    match codec.deflate(e.data)
    case Some(packed) => if |packed| < |e.data| then (true, packed) else (false, e.data)
    case None => (false, e.data)
  }

  /** Method, times, checksum and lengths, as they stand in both headers of an entry. */
  predicate Described(s: Bytes, p: nat, codec: Codec, e: DataEntry) {
    && Word(s, p, if Stored(codec, e).0 then 8 else 0)
    && Word(s, p + 2, e.dosTime) && Word(s, p + 4, e.dosDate) && Double(s, p + 6, codec.crc(e.data))
    && Double(s, p + 10, |Stored(codec, e).1|) && Double(s, p + 14, |e.data|) && Word(s, p + 18, |e.name|)
  }

  predicate LocalBytes(b: Bytes, codec: Codec, e: DataEntry) {
    var payload := Stored(codec, e).1;
    && |b| == 30 + |e.name| + |payload|
    && b[..8] == [0x50, 0x4b, 3, 4, 20, 0, 0, 0]
    && Described(b, 8, codec, e)
    && b[28..30] == [0, 0]
    && b[30..30 + |e.name|] == e.name && b[30 + |e.name|..] == payload
  }

  predicate CentralBytes(b: Bytes, codec: Codec, e: DataEntry, offset: nat) {
    && |b| == 46 + |e.name|
    && b[..10] == [0x50, 0x4b, 1, 2, 20, 0, 20, 0, 0, 0]
    && Described(b, 10, codec, e)
    && b[30..42] == [0, 0, 0, 0, 0, 0, 0, 0, 0, 0, 0, 0]
    && Double(b, 42, offset)
    && b[46..] == e.name
  }

  predicate EndBytes(b: Bytes, count: nat, size: nat, start: nat) {
    && |b| == 22
    && b[..8] == [0x50, 0x4b, 5, 6, 0, 0, 0, 0]
    && Word(b, 8, count) && Word(b, 10, count) && Double(b, 12, size) && Double(b, 16, start)
    && b[20..] == [0, 0]
  }

  //////////////////// Positions ////////////////////

  /** Where the first `i` entries end, or the header of entry `i` starts. */
  function LocalStart(codec: Codec, es: seq<DataEntry>, i: nat): nat
    requires i <= |es|
  {
    if i == 0 then 0 else LocalStart(codec, es, i - 1) + 30 + |es[i - 1].name| + |Stored(codec, es[i - 1]).1|
  }

  /** How much of the directory comes before entry `i`. */
  function CentralLength(es: seq<DataEntry>, i: nat): nat
    requires i <= |es|
  {
    if i == 0 then 0 else CentralLength(es, i - 1) + 46 + |es[i - 1].name|
  }

  /** The whole archive. */
  predicate Wire(s: Bytes, codec: Codec, es: seq<DataEntry>) {
    var start, size := LocalStart(codec, es, |es|), CentralLength(es, |es|);
    && |s| == start + size + 22
    && (forall i | 0 <= i < |es| :: LocalWire(s, codec, es, i) && CentralWire(s, codec, es, i))
    && EndBytes(s[start + size..], |es|, size, start)
  }

  predicate LocalWire(s: Bytes, codec: Codec, es: seq<DataEntry>, i: nat)
    requires i < |es|
  {
    var p, n := LocalStart(codec, es, i), LocalStart(codec, es, i + 1);
    n <= |s| && LocalBytes(s[p..n], codec, es[i])
  }

  predicate CentralWire(s: Bytes, codec: Codec, es: seq<DataEntry>, i: nat)
    requires i < |es|
  {
    var start := LocalStart(codec, es, |es|);
    var p, n := start + CentralLength(es, i), start + CentralLength(es, i + 1);
    n <= |s| && CentralBytes(s[p..n], codec, es[i], LocalStart(codec, es, i))
  }

  //////////////////// The writer's pieces are those bytes ////////////////////

  /** Cutting a number to a field keeps its low bytes. */
  lemma LowBytes(v: nat, unit: nat, width: nat)
    requires unit > 0 && width % 256 == 0 && width > 0
    ensures v % (unit * width) / unit % 256 == v / unit % 256
  {
    var m := unit * width;
    var q, u := v / m, v % m;
    assert v == q * m + u == unit * (q * width) + u;
    DivShift(q * width, u, unit);
    var a, b := q * width, u / unit;
    assert v / unit == a + b;
    assert a == 256 * (q * (width / 256)) by { assert width == 256 * (width / 256); }
    ModShift(q * (width / 256), b);
  }

  lemma DivShift(a: nat, u: nat, unit: nat)
    requires unit > 0
    ensures (unit * a + u) / unit == a + u / unit
  {
    var d, r := u / unit, u % unit;
    assert unit * a + u == unit * (a + d) + r;
    DivUnique(unit * a + u, unit, a + d, r);
  }

  lemma DivUnique(n: nat, unit: nat, d: nat, r: nat)
    requires unit > 0 && n == unit * d + r && r < unit
    ensures n / unit == d
  {
    MoreIsMuch(n / unit, d, unit);
    MoreIsMuch(d, n / unit, unit);
  }

  lemma {:induction false} MoreIsMuch(a: nat, b: nat, unit: nat)
    ensures a < b ==> unit * a + unit <= unit * b
    decreases b
  {
    if a < b {
      MoreIsMuch(a, b - 1, unit);
      assert unit * b == unit * (b - 1) + unit;
    }
  }

  lemma ModShift(a: nat, b: nat)
    ensures (256 * a + b) % 256 == b % 256
  {
  }

  lemma TwoBytes(v: nat)
    ensures LE(v, 2) == [v % 256, v / 256 % 256]
  {
    assert LE(v / 256, 1) == [v / 256 % 256] + LE(v / 256 / 256, 0);
  }

  lemma FourBytes(v: nat)
    ensures LE(v, 4) == [v % 256, v / 256 % 256, v / 65536 % 256, v / 16777216 % 256]
  {
    TwoBytes(v / 65536);
    assert v / 256 / 256 == v / 65536 && v / 65536 / 256 == v / 16777216;
    assert LE(v, 4) == [v % 256] + ([v / 256 % 256] + LE(v / 256 / 256, 2));
  }

  lemma WordIs(s: Bytes, p: nat, v: nat)
    requires At(s, p, LE16(ToU16(v)))
    ensures Word(s, p, v)
  {
    hide LE;
    TwoBytes(ToU16(v));
    LowBytes(v, 1, 65536);
    LowBytes(v, 256, 256);
    assert s[p] == s[p..p + 2][0] && s[p + 1] == s[p..p + 2][1];
  }

  lemma DoubleIs(s: Bytes, p: nat, v: nat)
    requires At(s, p, LE32(ToU32(v)))
    ensures Double(s, p, v)
  {
    hide LE, ToU32;
    FourBytes(ToU32(v));
    LowBytesOfDouble(v);
    var b := s[p..p + 4];
    assert s[p] == b[0] && s[p + 1] == b[1] && s[p + 2] == b[2] && s[p + 3] == b[3];
  }

  lemma LowBytesOfDouble(v: nat)
    ensures var u := ToU32(v);
            && u % 256 == v % 256 && u / 256 % 256 == v / 256 % 256
            && u / 65536 % 256 == v / 65536 % 256 && u / 16777216 % 256 == v / 16777216 % 256
  {
    LowBytes(v, 1, 0x1_0000_0000);
    LowBytes(v, 256, 0x100_0000);
    LowBytes(v, 65536, 65536);
    LowBytes(v, 16777216, 256);
  }

  lemma RecordIsStored(codec: Codec, e: DataEntry)
    ensures var r := RecordOf(codec, e);
            && r.name == e.name && r.payload == Stored(codec, e).1 && r.size == |e.data|
            && r.compression == (if Stored(codec, e).0 then 8 else 0) && r.crc == codec.crc(e.data)
            && r.dosTime == e.dosTime && r.dosDate == e.dosDate
  {
  }

  lemma CommonIs(s: Bytes, p: nat, codec: Codec, e: DataEntry)
    requires At(s, p, CommonFields(RecordOf(codec, e)))
    ensures Described(s, p, codec, e)
  {
    hide LE16, LE32, ToU16, ToU32, Word, Double;
    var r := RecordOf(codec, e);
    RecordIsStored(codec, e);
    SmallStays(r.compression, r.dosTime, r.dosDate, r.crc);
    SevenFields(s, p, LE16(r.compression), LE16(r.dosTime), LE16(r.dosDate), LE32(r.crc), LE32(ToU32(|r.payload|)),
                LE32(ToU32(r.size)), LE16(ToU16(|r.name|)));
    WordIs(s, p, r.compression);
    WordIs(s, p + 2, r.dosTime);
    WordIs(s, p + 4, r.dosDate);
    DoubleIs(s, p + 6, r.crc);
    DoubleIs(s, p + 10, |r.payload|);
    DoubleIs(s, p + 14, r.size);
    WordIs(s, p + 18, |r.name|);
  }

  lemma SmallStays(a: U16, b: U16, c: U16, d: U32)
    ensures ToU16(a) == a && ToU16(b) == b && ToU16(c) == c && ToU32(d) == d
  {
  }

  /** A signature and the words behind it. */
  lemma Opening(s: Bytes, p: nat, signature: U32, version: U16)
    requires At(s, p, LE32(signature)) && At(s, p + 4, LE16(version)) && At(s, p + 6, LE16(0))
    ensures p + 8 <= |s|
    ensures s[p..p + 8] == [signature % 256, signature / 256 % 256, signature / 65536 % 256, signature / 16777216 % 256,
                            version % 256, version / 256 % 256, 0, 0]
  {
    hide LE16, LE32;
    SmallStays(version, 0, 0, signature);
    DoubleIs(s, p, signature);
    WordIs(s, p + 4, version);
    WordIs(s, p + 6, 0);
  }

  lemma LocalIs(codec: Codec, e: DataEntry)
    ensures LocalBytes(LocalPart(RecordOf(codec, e)), codec, e)
  {
    hide LE16, LE32, Described, LocalHeader;
    var r := RecordOf(codec, e);
    var b := LocalPart(r);
    RecordIsStored(codec, e);
    HeaderNameData(LocalHeader(r), r.name, r.payload);
    LocalHeaderBytes(b, codec, e);
  }

  lemma HeaderNameData(header: Bytes, name: Bytes, data: Bytes)
    ensures var b := header + name + data;
            At(b, 0, header) && b[|header|..|header| + |name|] == name && b[|header| + |name|..] == data
  {
  }

  lemma LocalHeaderBytes(b: Bytes, codec: Codec, e: DataEntry)
    requires At(b, 0, LocalHeader(RecordOf(codec, e)))
    ensures |b| >= 30 && b[..8] == [0x50, 0x4b, 3, 4, 20, 0, 0, 0] && Described(b, 8, codec, e) && b[28..30] == [0, 0]
  {
    hide LE16, LE32, Described, CommonFields, RecordOf;
    var r := RecordOf(codec, e);
    SixFields(b, 0, LE32(LOCAL_SIGNATURE), LE16(20), LE16(0), CommonFields(r), LE16(0), []);
    Opening(b, 0, LOCAL_SIGNATURE, 20);
    CommonIs(b, 8, codec, e);
    Zeros(b, 28);
  }

  lemma Zeros(s: Bytes, p: nat)
    requires At(s, p, LE16(0))
    ensures s[p..p + 2] == [0, 0]
  {
    hide LE16;
    SmallStays(0, 0, 0, 0);
    WordIs(s, p, 0);
  }

  lemma CentralIs(codec: Codec, e: DataEntry, offset: nat)
    ensures CentralBytes(CentralPart(RecordOf(codec, e), offset), codec, e, offset)
  {
    hide LE16, LE32, Described, Word, Double, CommonFields, CentralTail;
    var r := RecordOf(codec, e);
    var b := CentralPart(r, offset);
    RecordIsStored(codec, e);
    assert At(b, 0, CentralHeader(r, offset));
    SixFields(b, 0, LE32(CENTRAL_SIGNATURE), LE16(20), LE16(20), LE16(0), CommonFields(r), CentralTail(offset));
    CentralOpening(b);
    CommonIs(b, 10, codec, e);
    CentralTailIs(b, offset);
    assert b[46..] == r.name;
  }

  lemma CentralOpening(b: Bytes)
    requires At(b, 0, LE32(CENTRAL_SIGNATURE)) && At(b, 4, LE16(20)) && At(b, 6, LE16(20)) && At(b, 8, LE16(0))
    ensures |b| >= 10 && b[..10] == [0x50, 0x4b, 1, 2, 20, 0, 20, 0, 0, 0]
  {
    hide LE16, LE32;
    SmallStays(20, 20, 0, CENTRAL_SIGNATURE);
    DoubleIs(b, 0, CENTRAL_SIGNATURE);
    WordIs(b, 4, 20);
    WordIs(b, 6, 20);
    WordIs(b, 8, 0);
  }

  lemma CentralTailIs(b: Bytes, offset: nat)
    requires At(b, 30, CentralTail(offset))
    ensures |b| >= 46 && b[30..42] == [0, 0, 0, 0, 0, 0, 0, 0, 0, 0, 0, 0] && Double(b, 42, offset)
  {
    hide LE16, LE32, ToU32;
    SmallStays(0, 0, 0, 0);
    SixFields(b, 30, LE16(0), LE16(0), LE16(0), LE16(0), LE32(0), LE32(ToU32(offset)));
    WordIs(b, 30, 0);
    WordIs(b, 32, 0);
    WordIs(b, 34, 0);
    WordIs(b, 36, 0);
    DoubleIs(b, 38, 0);
    DoubleIs(b, 42, offset);
  }

  lemma EndIs(count: nat, size: nat, start: nat)
    ensures EndBytes(EndRecord(count, size, start), count, size, start)
  {
    hide LE16, LE32, ToU16, ToU32, Word, Double;
    var s, tail := EndRecord(count, size, start), EndTail(size, start);
    SixFields(s, 0, LE32(END_SIGNATURE), LE16(0), LE16(0), LE16(ToU16(count)), LE16(ToU16(count)), tail);
    AtParts(s, 12, LE32(ToU32(size)), LE32(ToU32(start)) + LE16(0));
    AtParts(s, 16, LE32(ToU32(start)), LE16(0));
    Opening(s, 0, END_SIGNATURE, 0);
    WordIs(s, 8, count);
    WordIs(s, 10, count);
    DoubleIs(s, 12, size);
    DoubleIs(s, 16, start);
    Zeros(s, 20);
  }

  //////////////////// The whole archive ////////////////////

  lemma {:induction false} LocalStartIs(codec: Codec, es: seq<DataEntry>, i: nat)
    requires i <= |es|
    ensures LocalStart(codec, es, i) == |Concat(LocalParts(RecordsOf(codec, es))[..i])| == Offset(RecordsOf(codec, es), i)
  {
    hide LocalPart, RecordOf, Stored, Concat, Offset, RecordsOf;
    var rs := RecordsOf(codec, es);
    OffsetIs(rs, i);
    if i == 0 {
      ConcatOfNone();
      assert LocalParts(rs)[..0] == [];
    } else {
      LocalStartIs(codec, es, i - 1);
      ConcatAt(LocalParts(rs), i - 1);
      PartsByIndex(rs, i - 1);
      RecordAt(codec, es, i - 1);
      RecordIsStored(codec, es[i - 1]);
    }
  }

  lemma OffsetIs(rs: seq<Record>, i: nat)
    requires i <= |rs|
    ensures Offset(rs, i) == |Concat(LocalParts(rs)[..i])|
  {
    hide Concat;
    if i < |rs| { PartsByIndex(rs, i); } else { assert rs[..i] == rs && LocalParts(rs)[..i] == LocalParts(rs); }
  }

  lemma {:induction false} CentralLengthIs(codec: Codec, es: seq<DataEntry>, i: nat)
    requires i <= |es|
    ensures CentralLength(es, i) == |Concat(CentralParts(RecordsOf(codec, es))[..i])|
  {
    hide CentralPart, RecordOf, Concat, Offset, RecordsOf;
    var rs := RecordsOf(codec, es);
    if i == 0 {
      ConcatOfNone();
      assert CentralParts(rs)[..0] == [];
    } else {
      CentralLengthIs(codec, es, i - 1);
      ConcatAt(CentralParts(rs), i - 1);
      PartsByIndex(rs, i - 1);
      RecordAt(codec, es, i - 1);
      RecordIsStored(codec, es[i - 1]);
    }
  }

  lemma LocalIsWired(codec: Codec, es: seq<DataEntry>, i: nat)
    requires i < |es|
    ensures LocalWire(Archive(RecordsOf(codec, es)), codec, es, i)
  {
    hide LocalPart, RecordOf, RecordsOf, LocalParts, CentralParts, Concat, EndRecord, LocalBytes, LocalStart;
    var rs := RecordsOf(codec, es);
    var locals := Concat(LocalParts(rs));
    LocalStartIs(codec, es, i);
    LocalStartIs(codec, es, i + 1);
    ConcatAt(LocalParts(rs), i);
    PartsByIndex(rs, i);
    RecordAt(codec, es, i);
    LocalIs(codec, es[i]);
    InFront(locals, Concat(CentralParts(rs)) + EndRecord(|rs|, |Concat(CentralParts(rs))|, |locals|),
            LocalStart(codec, es, i), LocalStart(codec, es, i + 1));
    ArchiveIs(rs);
  }

  lemma ArchiveIs(rs: seq<Record>)
    ensures var locals, central := Concat(LocalParts(rs)), Concat(CentralParts(rs));
            Archive(rs) == locals + (central + EndRecord(|rs|, |central|, |locals|))
  {
    hide Concat, LocalParts, CentralParts, EndRecord;
  }

  lemma InFront(a: Bytes, b: Bytes, p: nat, n: nat)
    requires p <= n <= |a|
    ensures (a + b)[p..n] == a[p..n]
  {
  }

  lemma Behind(a: Bytes, b: Bytes, c: Bytes, p: nat, n: nat)
    requires p <= n <= |b|
    ensures (a + (b + c))[|a| + p..|a| + n] == b[p..n] && (a + (b + c))[|a| + |b|..] == c
  {
  }

  lemma CentralIsWired(codec: Codec, es: seq<DataEntry>, i: nat)
    requires i < |es|
    ensures CentralWire(Archive(RecordsOf(codec, es)), codec, es, i)
  {
    hide CentralPart, RecordOf, RecordsOf, LocalParts, CentralParts, Concat, EndRecord, CentralBytes, LocalStart, CentralLength;
    var rs := RecordsOf(codec, es);
    var locals, central := Concat(LocalParts(rs)), Concat(CentralParts(rs));
    LocalStartIs(codec, es, |es|);
    LocalStartIs(codec, es, i);
    CentralLengthIs(codec, es, i);
    CentralLengthIs(codec, es, i + 1);
    ConcatAt(CentralParts(rs), i);
    PartsByIndex(rs, i);
    RecordAt(codec, es, i);
    CentralIs(codec, es[i], LocalStart(codec, es, i));
    AllLocals(rs);
    Behind(locals, central, EndRecord(|rs|, |central|, |locals|), CentralLength(es, i), CentralLength(es, i + 1));
    ArchiveIs(rs);
  }

  lemma AllLocals(rs: seq<Record>)
    ensures LocalParts(rs)[..|rs|] == LocalParts(rs) && CentralParts(rs)[..|rs|] == CentralParts(rs)
  {
    hide LocalParts, CentralParts;
  }

  /** What the two writers write is, byte for byte, the archive of the standard. */
  lemma ArchiveOnTheWire(codec: Codec, es: seq<DataEntry>)
    ensures Wire(Archive(RecordsOf(codec, es)), codec, es)
  {
    hide RecordOf, RecordsOf, LocalParts, CentralParts, Concat, EndRecord, EndBytes, LocalStart, CentralLength, LocalWire, CentralWire;
    var rs := RecordsOf(codec, es);
    var locals, central := Concat(LocalParts(rs)), Concat(CentralParts(rs));
    forall i | 0 <= i < |es| ensures LocalWire(Archive(rs), codec, es, i) && CentralWire(Archive(rs), codec, es, i) {
      LocalIsWired(codec, es, i);
      CentralIsWired(codec, es, i);
    }
    LocalStartIs(codec, es, |es|);
    CentralLengthIs(codec, es, |es|);
    AllLocals(rs);
    ArchiveIs(rs);
    Behind(locals, central, EndRecord(|rs|, |central|, |locals|), 0, 0);
    EndIs(|es|, |central|, |locals|);
  }

  /** When a bundle can be written: every dump can be opened, was listed with at most 4 GiB less
      one byte, still has that many bytes, and nothing before the end record lies beyond that. */
  lemma BundleableExactly(codec: Codec, logs: seq<DataEntry>, dumps: seq<FileEntry>)
    ensures var es := logs + DumpEntries(dumps);
            Bundleable(codec, logs, dumps) <==>
            && (forall i | 0 <= i < |dumps| ::
                  dumps[i].content.Some? && dumps[i].size <= 4_294_967_295 && dumps[i].size <= |dumps[i].content.value|)
            && LocalStart(codec, es, |es|) + CentralLength(es, |es|) <= 4_294_967_295
  {
    hide LocalParts, CentralParts, Concat, RecordsOf, LocalStart, CentralLength, DumpEntries;
    var es := logs + DumpEntries(dumps);
    LocalStartIs(codec, es, |es|);
    CentralLengthIs(codec, es, |es|);
    AllLocals(RecordsOf(codec, es));
  }

  /** What is archived of a dump: the bytes it was listed with. */
  lemma DumpIsCut(dumps: seq<FileEntry>, i: nat)
    requires i < |dumps| && dumps[i].content.Some? && dumps[i].size <= 4_294_967_295 && dumps[i].size <= |dumps[i].content.value|
    ensures var f := dumps[i]; DumpEntries(dumps)[i] == DataEntry(f.name, f.content.value[..f.size], f.dosTime, f.dosDate)
  {
    DumpEntryAt(dumps, i);
  }
}
