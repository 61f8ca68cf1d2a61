/** The archive layout of PKWARE's APPNOTE.TXT that the log and crash-dump exports
    write: local headers (section 4.3.7), the central directory (4.3.12) and the end
    record (4.3.16), and a reader that goes the other way, from the end record to the
    central directory to the local headers. */
module ZipFormat {

  import opened Wrappers

  type Byte = b: int | 0 <= b < 0x100
  type U16 = n: int | 0 <= n < 0x1_0000
  type U32 = n: int | 0 <= n < 0x1_0000_0000
  type Bytes = seq<Byte>

  //////////////////// Little-endian fields ////////////////////

  /** The truncating casts that are applied to lengths and positions. */
  function ToU16(n: nat): U16 { n % 0x1_0000 }

  function ToU32(n: nat): U32 { n % 0x1_0000_0000 }

  /** The `n` low bytes of `v`, least significant first. */
  function LE(v: nat, n: nat): (s: Bytes)
    ensures |s| == n
    decreases n, v
  {
    if n == 0 then [] else [v % 0x100] + LE(v / 0x100, n - 1)
  }

  function LE16(v: U16): (s: Bytes)
    ensures |s| == 2
  {
    LE(v, 2)
  }

  function LE32(v: U32): (s: Bytes)
    ensures |s| == 4
  {
    LE(v, 4)
  }

  /** The number a little-endian byte string stands for. */
  function Value(s: Bytes): (v: nat)
    ensures |s| == 1 ==> v < 0x100
    ensures |s| == 2 ==> v < 0x1_0000
    ensures |s| == 3 ==> v < 0x100_0000
    ensures |s| == 4 ==> v < 0x1_0000_0000
  {
    if s == [] then 0 else (s[0] as int) + 0x100 * Value(s[1..])
  }

  function Get16(s: Bytes, i: nat): U16
    requires i + 2 <= |s|
  {
    Value(s[i..i + 2])
  }

  function Get32(s: Bytes, i: nat): U32
    requires i + 4 <= |s|
  {
    Value(s[i..i + 4])
  }

  function Power256(n: nat): (p: nat)
    ensures p > 0
  {
    if n == 0 then 1 else 0x100 * Power256(n - 1)
  }

  lemma {:induction false} ValueOfLE(v: nat, n: nat)
    requires v < Power256(n)
    ensures Value(LE(v, n)) == v
    decreases n
  {
    if n > 0 {
      ValueOfLE(v / 0x100, n - 1);
      assert LE(v, n)[1..] == LE(v / 0x100, n - 1);
    }
  }

  //////////////////// Layout ////////////////////

  const LOCAL_SIGNATURE: U32 := 0x04034b50
  const CENTRAL_SIGNATURE: U32 := 0x02014b50
  const END_SIGNATURE: U32 := 0x06054b50
  const LOCAL_SIZE := 30
  const CENTRAL_SIZE := 46
  const END_SIZE := 22

  /** One member of an archive: `payload` is what is stored, `size` the length before compression. */
  datatype Record = Record(
    name: Bytes,
    compression: U16,
    crc: U32,
    dosTime: U16,
    dosDate: U16,
    payload: Bytes,
    size: nat)

  function Lengths(r: Record): (s: Bytes)
    ensures |s| == 10
  {
    LE32(ToU32(|r.payload|)) + (LE32(ToU32(r.size)) + LE16(ToU16(|r.name|)))
  }

  /** The fields a local and a central header share, in their common order. */
  function CommonFields(r: Record): (s: Bytes)
    ensures |s| == 20
  {
    LE16(r.compression) + (LE16(r.dosTime) + (LE16(r.dosDate) + (LE32(r.crc) + Lengths(r))))
  }

  function LocalHeader(r: Record): (s: Bytes)
    ensures |s| == LOCAL_SIZE
  {
    LE32(LOCAL_SIGNATURE) + (LE16(20) + (LE16(0) + (CommonFields(r) + LE16(0))))
  }

  function LocalPart(r: Record): (s: Bytes)
    ensures |s| == LOCAL_SIZE + |r.name| + |r.payload|
  {
    LocalHeader(r) + r.name + r.payload
  }

  /** Extra and comment lengths, disk number, attributes, and the offset of the local header. */
  function CentralTail(offset: nat): (s: Bytes)
    ensures |s| == 16
  {
    LE16(0) + (LE16(0) + (LE16(0) + (LE16(0) + (LE32(0) + LE32(ToU32(offset))))))
  }

  function CentralHeader(r: Record, offset: nat): (s: Bytes)
    ensures |s| == CENTRAL_SIZE
  {
    LE32(CENTRAL_SIGNATURE) + (LE16(20) + (LE16(20) + (LE16(0) + (CommonFields(r) + CentralTail(offset)))))
  }

  function CentralPart(r: Record, offset: nat): (s: Bytes)
    ensures |s| == CENTRAL_SIZE + |r.name|
  {
    CentralHeader(r, offset) + r.name
  }

  function EndTail(cdSize: nat, cdStart: nat): (s: Bytes)
    ensures |s| == 10
  {
    LE32(ToU32(cdSize)) + (LE32(ToU32(cdStart)) + LE16(0))
  }

  function EndRecord(count: nat, cdSize: nat, cdStart: nat): (s: Bytes)
    ensures |s| == END_SIZE
  {
    LE32(END_SIGNATURE) + (LE16(0) + (LE16(0) + (LE16(ToU16(count)) + (LE16(ToU16(count)) + EndTail(cdSize, cdStart)))))
  }

  /** Pieces appended one after the other. */
  function Concat(pieces: seq<Bytes>): Bytes {
    if pieces == [] then [] else Concat(pieces[..|pieces| - 1]) + pieces[|pieces| - 1]
  }

  function LocalParts(rs: seq<Record>): (parts: seq<Bytes>)
    ensures |parts| == |rs|
  {
    if rs == [] then [] else LocalParts(rs[..|rs| - 1]) + [LocalPart(rs[|rs| - 1])]
  }

  /** Where the local header of record `i` starts. */
  function Offset(rs: seq<Record>, i: nat): nat
    requires i <= |rs|
  {
    |Concat(LocalParts(rs[..i]))|
  }

  function CentralParts(rs: seq<Record>): (parts: seq<Bytes>)
    ensures |parts| == |rs|
  {
    if rs == [] then []
    else CentralParts(rs[..|rs| - 1]) + [CentralPart(rs[|rs| - 1], Offset(rs, |rs| - 1))]
  }

  function Archive(rs: seq<Record>): Bytes {
    var locals, central := Concat(LocalParts(rs)), Concat(CentralParts(rs));
    locals + central + EndRecord(|rs|, |central|, |locals|)
  }

  //////////////////// Reading ////////////////////

  /** The fields a local and a central header share, as read. */
  datatype Common = Common(
    compression: U16,
    dosTime: U16,
    dosDate: U16,
    crc: U32,
    stored: U32,
    size: U32,
    nameLength: U16)

  function ReadCommon(s: Bytes, p: nat): Common
    requires p + 20 <= |s|
  {
    Common(Get16(s, p), Get16(s, p + 2), Get16(s, p + 4), Get32(s, p + 6), Get32(s, p + 10), Get32(s, p + 14),
           Get16(s, p + 18))
  }

  /** The member whose central header is at `pos`, if the local header it points to agrees with it. */
  function ReadMember(s: Bytes, pos: nat): (r: Option<Record>)
    ensures r.Some? ==> pos + CENTRAL_SIZE <= |s|
  {
    if pos + CENTRAL_SIZE > |s| || Get32(s, pos) != CENTRAL_SIGNATURE then None
    else
      var c := ReadCommon(s, pos + 10);
      var nameEnd := pos + CENTRAL_SIZE + c.nameLength;
      var offset := Get32(s, pos + 42);
      if nameEnd > |s| || offset + LOCAL_SIZE > |s| || Get32(s, offset) != LOCAL_SIGNATURE
        || ReadCommon(s, offset + 8) != c
      then None
      else
        var name := s[pos + CENTRAL_SIZE..nameEnd];
        var dataAt := offset + LOCAL_SIZE + c.nameLength + Get16(s, offset + 28);
        if dataAt + c.stored > |s| || s[offset + LOCAL_SIZE..offset + LOCAL_SIZE + c.nameLength] != name then None
        else Some(Record(name, c.compression, c.crc, c.dosTime, c.dosDate, s[dataAt..dataAt + c.stored], c.size))
  }

  /** Where the central header after the one at `pos` starts. */
  function NextHeader(s: Bytes, pos: nat): nat
    requires pos + CENTRAL_SIZE <= |s|
  {
    pos + CENTRAL_SIZE + ReadCommon(s, pos + 10).nameLength + Get16(s, pos + 30) + Get16(s, pos + 32)
  }

  /** Reads the member at a position and says where the next one is. */
  type HeaderReader = nat -> Option<(Record, nat)>

  function HeadersOf(s: Bytes): HeaderReader {
    (pos: nat) =>
      var member := ReadMember(s, pos);
      if member.None? then None else Some((member.value, NextHeader(s, pos)))
  }

  /** Reads `count` members from `pos` on; they have to end at `end`. */
  function ReadDirectory(read: HeaderReader, pos: nat, count: nat, end: nat): Option<seq<Record>>
    decreases count
  {
    if count == 0 then (if pos == end then Some([]) else None)
    else
      var first := read(pos);
      if first.None? then None
      else
        var rest := ReadDirectory(read, first.value.1, count - 1, end);
        if rest.None? then None else Some([first.value.0] + rest.value)
  }

  /** Reads an archive without comment: its end record is the last 22 bytes. */
  function ReadArchive(s: Bytes): Option<seq<Record>> {
    if |s| < END_SIZE then None
    else
      var end := |s| - END_SIZE;
      if Get32(s, end) != END_SIGNATURE || Get16(s, end + 8) != Get16(s, end + 10)
        || Get32(s, end + 16) + Get32(s, end + 12) != end
      then None
      else ReadDirectory(HeadersOf(s), Get32(s, end + 16), Get16(s, end + 10), end)
  }

  //////////////////// Positions ////////////////////

  /** `chunk` sits in `s` at position `p`. */
  predicate At(s: Bytes, p: nat, chunk: Bytes) {
    p + |chunk| <= |s| && s[p..p + |chunk|] == chunk
  }

  lemma AtParts(s: Bytes, p: nat, a: Bytes, b: Bytes)
    requires At(s, p, a + b)
    ensures At(s, p, a) && At(s, p + |a|, b)
  {
    assert s[p..p + |a|] == (a + b)[..|a|];
    assert s[p + |a|..p + |a| + |b|] == (a + b)[|a|..];
  }

  lemma AtWithin(s: Bytes, p: nat, chunk: Bytes, q: nat, inner: Bytes)
    requires At(s, p, chunk) && At(chunk, q, inner)
    ensures At(s, p + q, inner)
  {
    forall k | 0 <= k < |inner| ensures s[p + q..p + q + |inner|][k] == inner[k] {
      assert s[p..p + |chunk|][q + k] == s[p + q + k];
      assert chunk[q..q + |inner|][k] == chunk[q + k];
    }
  }

  /** A piece reads the same inside the archive as on its own. */
  lemma SliceWithin(s: Bytes, p: nat, chunk: Bytes, q: nat, n: nat)
    requires At(s, p, chunk) && q + n <= |chunk|
    ensures p + q + n <= |s| && s[p + q..p + q + n] == chunk[q..q + n]
  {
    AtWithin(s, p, chunk, q, chunk[q..q + n]);
  }

  lemma ConcatOfNone()
    ensures Concat([]) == []
  {
  }

  /** Each piece sits where the earlier ones end. */
  lemma {:induction false} ConcatAt(pieces: seq<Bytes>, i: nat)
    requires i < |pieces|
    ensures At(Concat(pieces), |Concat(pieces[..i])|, pieces[i])
    ensures |Concat(pieces[..i + 1])| == |Concat(pieces[..i])| + |pieces[i]|
  {
    var init := pieces[..|pieces| - 1];
    if i < |init| {
      ConcatAt(init, i);
      assert init[..i] == pieces[..i] && init[..i + 1] == pieces[..i + 1];
      AtWithin(Concat(pieces), 0, Concat(init), |Concat(pieces[..i])|, pieces[i]);
    } else {
      assert pieces[..i] == init && pieces[..i + 1] == pieces;
    }
  }

  //////////////////// The reader inverts the layout ////////////////////

  /** Records whose lengths the fields can hold. */
  predicate Expressible(r: Record) {
    |r.name| < 0x1_0000 && |r.payload| < 0x1_0000_0000 && r.size < 0x1_0000_0000
  }

  function CommonOf(r: Record): Common
    requires Expressible(r)
  {
    Common(r.compression, r.dosTime, r.dosDate, r.crc, |r.payload|, r.size, |r.name|)
  }

  /** `b` is a local header, name and payload for `r`. */
  predicate IsLocal(b: Bytes, r: Record) {
    && Expressible(r)
    && |b| == LOCAL_SIZE + |r.name| + |r.payload|
    && Get32(b, 0) == LOCAL_SIGNATURE && ReadCommon(b, 8) == CommonOf(r) && Get16(b, 28) == 0
    && b[LOCAL_SIZE..LOCAL_SIZE + |r.name|] == r.name
    && b[LOCAL_SIZE + |r.name|..] == r.payload
  }

  /** `b` is a central header and name for `r` whose local header is at `offset`. */
  predicate IsCentral(b: Bytes, r: Record, offset: nat) {
    && Expressible(r)
    && |b| == CENTRAL_SIZE + |r.name|
    && Get32(b, 0) == CENTRAL_SIGNATURE && ReadCommon(b, 10) == CommonOf(r)
    && Get16(b, 30) == 0 && Get16(b, 32) == 0 && Get32(b, 42) == offset
    && b[CENTRAL_SIZE..] == r.name
  }

  /** `b` is an end record for `count` members and a directory of `size` bytes at `start`. */
  predicate IsEnd(b: Bytes, count: nat, size: nat, start: nat) {
    && |b| == END_SIZE
    && Get32(b, 0) == END_SIGNATURE && Get16(b, 8) == Get16(b, 10) == count
    && Get32(b, 12) == size && Get32(b, 16) == start
  }

  /** Local parts, then central headers, then the end record: every stored offset is the
      true position of its local part. */
  predicate LaidOut(rs: seq<Record>, locals: seq<Bytes>, central: seq<Bytes>, end: Bytes) {
    && |locals| == |central| == |rs| && |end| == END_SIZE
    && (forall i | 0 <= i < |rs| :: IsLocal(locals[i], rs[i]))
    && (forall i | 0 <= i < |rs| :: IsCentral(central[i], rs[i], |Concat(locals[..i])|))
    && IsEnd(end, |rs|, |Concat(central)|, |Concat(locals)|)
  }

  lemma CommonWithin(s: Bytes, p: nat, b: Bytes, q: nat)
    requires At(s, p, b) && q + 20 <= |b|
    ensures p + q + 20 <= |s| && ReadCommon(s, p + q) == ReadCommon(b, q)
  {
    SliceWithin(s, p, b, q, 2);
    SliceWithin(s, p, b, q + 2, 2);
    SliceWithin(s, p, b, q + 4, 2);
    SliceWithin(s, p, b, q + 6, 4);
    SliceWithin(s, p, b, q + 10, 4);
    SliceWithin(s, p, b, q + 14, 4);
    SliceWithin(s, p, b, q + 18, 2);
  }

  lemma LocalWithin(s: Bytes, p: nat, b: Bytes, r: Record)
    requires At(s, p, b) && IsLocal(b, r)
    ensures p + |b| <= |s| && Get32(s, p) == LOCAL_SIGNATURE && ReadCommon(s, p + 8) == CommonOf(r)
    ensures Get16(s, p + 28) == 0
    ensures s[p + LOCAL_SIZE..p + LOCAL_SIZE + |r.name|] == r.name
    ensures s[p + LOCAL_SIZE + |r.name|..p + LOCAL_SIZE + |r.name| + |r.payload|] == r.payload
  {
    SliceWithin(s, p, b, 0, 4);
    CommonWithin(s, p, b, 8);
    SliceWithin(s, p, b, 28, 2);
    SliceWithin(s, p, b, LOCAL_SIZE, |r.name|);
    SliceWithin(s, p, b, LOCAL_SIZE + |r.name|, |r.payload|);
  }

  lemma CentralWithin(s: Bytes, p: nat, b: Bytes, r: Record, offset: nat)
    requires At(s, p, b) && IsCentral(b, r, offset)
    ensures p + |b| <= |s| && Get32(s, p) == CENTRAL_SIGNATURE && ReadCommon(s, p + 10) == CommonOf(r)
    ensures Get16(s, p + 30) == 0 && Get16(s, p + 32) == 0 && Get32(s, p + 42) == offset
    ensures s[p + CENTRAL_SIZE..p + CENTRAL_SIZE + |r.name|] == r.name
  {
    SliceWithin(s, p, b, 0, 4);
    CommonWithin(s, p, b, 10);
    SliceWithin(s, p, b, 30, 2);
    SliceWithin(s, p, b, 32, 2);
    SliceWithin(s, p, b, 42, 4);
    SliceWithin(s, p, b, CENTRAL_SIZE, |r.name|);
  }

  /** A member whose two parts sit where they should reads back as it was written. */
  lemma MemberReads(s: Bytes, pos: nat, central: Bytes, offset: nat, local: Bytes, r: Record)
    requires At(s, offset, local) && IsLocal(local, r)
    requires At(s, pos, central) && IsCentral(central, r, offset)
    ensures HeadersOf(s)(pos) == Some((r, pos + |central|))
  {
    hide Value, Get16, Get32, ReadCommon;
    LocalWithin(s, offset, local, r);
    CentralWithin(s, pos, central, r, offset);
  }

  lemma {:induction false} ReadsDirectory(read: HeaderReader, rs: seq<Record>, starts: seq<nat>, i: nat)
    requires |starts| == |rs| + 1 && i <= |rs|
    requires forall k | 0 <= k < |rs| :: read(starts[k]) == Some((rs[k], starts[k + 1]))
    ensures ReadDirectory(read, starts[i], |rs| - i, starts[|rs|]) == Some(rs[i..])
    decreases |rs| - i
  {
    if i < |rs| {
      ReadsDirectory(read, rs, starts, i + 1);
      assert [rs[i]] + rs[i + 1..] == rs[i..];
    }
  }

  lemma LaidOutMember(rs: seq<Record>, locals: seq<Bytes>, central: seq<Bytes>, end: Bytes, i: nat)
    requires LaidOut(rs, locals, central, end) && i < |rs|
    ensures var from := |Concat(locals)|;
            HeadersOf(Concat(locals) + Concat(central) + end)(from + |Concat(central[..i])|)
            == Some((rs[i], from + |Concat(central[..i + 1])|))
  {
    hide IsLocal, IsCentral, IsEnd, HeadersOf, Concat;
    var s, from := Concat(locals) + Concat(central) + end, |Concat(locals)|;
    assert At(s, 0, Concat(locals)) && At(s, from, Concat(central));
    ConcatAt(locals, i);
    ConcatAt(central, i);
    AtWithin(s, 0, Concat(locals), |Concat(locals[..i])|, locals[i]);
    AtWithin(s, from, Concat(central), |Concat(central[..i])|, central[i]);
    MemberReads(s, from + |Concat(central[..i])|, central[i], |Concat(locals[..i])|, locals[i], rs[i]);
  }

  /** The positions of the first `n` central headers and of what follows them. */
  lemma {:induction false} HeaderStarts(rs: seq<Record>, locals: seq<Bytes>, central: seq<Bytes>, end: Bytes,
                                        read: HeaderReader, n: nat) returns (starts: seq<nat>)
    requires LaidOut(rs, locals, central, end) && n <= |rs| == |central|
    requires read == HeadersOf(Concat(locals) + Concat(central) + end)
    ensures |starts| == n + 1 && starts[0] == |Concat(locals)| && starts[n] == |Concat(locals)| + |Concat(central[..n])|
    ensures forall k | 0 <= k < n :: read(starts[k]) == Some((rs[k], starts[k + 1]))
  {
    hide LaidOut, HeadersOf, Concat;
    if n == 0 {
      assert central[..0] == [];
      ConcatOfNone();
      starts := [|Concat(locals)|];
    } else {
      var before := HeaderStarts(rs, locals, central, end, read, n - 1);
      LaidOutMember(rs, locals, central, end, n - 1);
      starts := before + [|Concat(locals)| + |Concat(central[..n])|];
    }
  }

  lemma EndReads(s: Bytes, to: nat, end: Bytes, count: nat, size: nat, from: nat)
    requires At(s, to, end) && |s| == to + END_SIZE && IsEnd(end, count, size, from)
    ensures ReadArchive(s) == if from + size == to then ReadDirectory(HeadersOf(s), from, count, to) else None
  {
    hide Value, HeadersOf;
    SliceWithin(s, to, end, 0, 4);
    SliceWithin(s, to, end, 8, 2);
    SliceWithin(s, to, end, 10, 2);
    SliceWithin(s, to, end, 12, 4);
    SliceWithin(s, to, end, 16, 4);
  }

  /** Whatever is laid out as an archive of `rs` reads back as `rs`. */
  lemma LaidOutReads(rs: seq<Record>, locals: seq<Bytes>, central: seq<Bytes>, end: Bytes)
    requires LaidOut(rs, locals, central, end)
    ensures ReadArchive(Concat(locals) + Concat(central) + end) == Some(rs)
  {
    hide IsLocal, IsCentral, IsEnd, HeadersOf, ReadArchive, Concat;
    var s := Concat(locals) + Concat(central) + end;
    var read := HeadersOf(s);
    var starts := HeaderStarts(rs, locals, central, end, read, |rs|);
    assert central[..|rs|] == central && rs[0..] == rs;
    ReadsDirectory(read, rs, starts, 0);
    EndReads(s, |Concat(locals)| + |Concat(central)|, end, |rs|, |Concat(central)|, |Concat(locals)|);
  }

  //////////////////// The writer's bytes are laid out ////////////////////

  lemma AtField16(s: Bytes, p: nat, v: U16)
    requires At(s, p, LE16(v))
    ensures Get16(s, p) == v
  {
    assert Power256(2) == 0x1_0000;
    ValueOfLE(v, 2);
  }

  lemma AtField32(s: Bytes, p: nat, v: U32)
    requires At(s, p, LE32(v))
    ensures Get32(s, p) == v
  {
    assert Power256(4) == 0x1_0000_0000;
    ValueOfLE(v, 4);
  }

  /** Seven fields of widths 2, 2, 2, 4, 4, 4 and 2 in a row sit where one expects them. */
  lemma SevenFields(s: Bytes, p: nat, a: Bytes, b: Bytes, c: Bytes, d: Bytes, e: Bytes, f: Bytes, g: Bytes)
    requires |a| == |b| == |c| == |g| == 2 && |d| == |e| == |f| == 4
    requires At(s, p, a + (b + (c + (d + (e + (f + g))))))
    ensures At(s, p, a) && At(s, p + 2, b) && At(s, p + 4, c) && At(s, p + 6, d)
    ensures At(s, p + 10, e) && At(s, p + 14, f) && At(s, p + 18, g)
  {
    AtParts(s, p, a, b + (c + (d + (e + (f + g)))));
    AtParts(s, p + 2, b, c + (d + (e + (f + g))));
    AtParts(s, p + 4, c, d + (e + (f + g)));
    AtParts(s, p + 6, d, e + (f + g));
    AtParts(s, p + 10, e, f + g);
    AtParts(s, p + 14, f, g);
  }

  lemma SixFields(s: Bytes, p: nat, a: Bytes, b: Bytes, c: Bytes, d: Bytes, e: Bytes, f: Bytes)
    requires At(s, p, a + (b + (c + (d + (e + f)))))
    ensures At(s, p, a) && At(s, p + |a|, b)
    ensures At(s, p + |a| + |b|, c) && At(s, p + |a| + |b| + |c|, d)
    ensures At(s, p + |a| + |b| + |c| + |d|, e) && At(s, p + |a| + |b| + |c| + |d| + |e|, f)
  {
    AtParts(s, p, a, b + (c + (d + (e + f))));
    AtParts(s, p + |a|, b, c + (d + (e + f)));
    AtParts(s, p + |a| + |b|, c, d + (e + f));
    AtParts(s, p + |a| + |b| + |c|, d, e + f);
    AtParts(s, p + |a| + |b| + |c| + |d|, e, f);
  }

  lemma ReadsCommon(s: Bytes, p: nat, c: Common)
    requires At(s, p, LE16(c.compression)) && At(s, p + 2, LE16(c.dosTime)) && At(s, p + 4, LE16(c.dosDate))
    requires At(s, p + 6, LE32(c.crc)) && At(s, p + 10, LE32(c.stored)) && At(s, p + 14, LE32(c.size))
    requires At(s, p + 18, LE16(c.nameLength))
    ensures ReadCommon(s, p) == c
  {
    hide LE16, LE32, Get16, Get32;
    AtField16(s, p, c.compression);
    AtField16(s, p + 2, c.dosTime);
    AtField16(s, p + 4, c.dosDate);
    AtField32(s, p + 6, c.crc);
    AtField32(s, p + 10, c.stored);
    AtField32(s, p + 14, c.size);
    AtField16(s, p + 18, c.nameLength);
  }

  lemma CommonFieldsAt(s: Bytes, p: nat, r: Record)
    requires At(s, p, CommonFields(r)) && Expressible(r)
    ensures ReadCommon(s, p) == CommonOf(r)
  {
    hide LE16, LE32;
    assert ToU32(|r.payload|) == |r.payload| && ToU32(r.size) == r.size && ToU16(|r.name|) == |r.name|;
    SevenFields(s, p, LE16(r.compression), LE16(r.dosTime), LE16(r.dosDate), LE32(r.crc), LE32(ToU32(|r.payload|)),
                LE32(ToU32(r.size)), LE16(ToU16(|r.name|)));
    ReadsCommon(s, p, CommonOf(r));
  }

  lemma LocalHeaderIs(s: Bytes, r: Record)
    requires At(s, 0, LocalHeader(r)) && Expressible(r)
    ensures Get32(s, 0) == LOCAL_SIGNATURE && ReadCommon(s, 8) == CommonOf(r) && Get16(s, 28) == 0
  {
    hide LE16, LE32, Get16, Get32;
    SixFields(s, 0, LE32(LOCAL_SIGNATURE), LE16(20), LE16(0), CommonFields(r), LE16(0), []);
    AtField32(s, 0, LOCAL_SIGNATURE);
    CommonFieldsAt(s, 8, r);
    AtField16(s, 28, 0);
  }

  lemma LocalPartIs(r: Record)
    requires Expressible(r)
    ensures IsLocal(LocalPart(r), r)
  {
    LocalHeaderIs(LocalPart(r), r);
  }

  lemma CentralHeaderIs(s: Bytes, r: Record, offset: U32)
    requires At(s, 0, CentralHeader(r, offset)) && Expressible(r)
    ensures Get32(s, 0) == CENTRAL_SIGNATURE && ReadCommon(s, 10) == CommonOf(r)
    ensures Get16(s, 30) == 0 && Get16(s, 32) == 0 && Get32(s, 42) == offset
  {
    hide LE16, LE32, Get16, Get32;
    SixFields(s, 0, LE32(CENTRAL_SIGNATURE), LE16(20), LE16(20), LE16(0), CommonFields(r), CentralTail(offset));
    SixFields(s, 30, LE16(0), LE16(0), LE16(0), LE16(0), LE32(0), LE32(ToU32(offset)));
    AtField32(s, 0, CENTRAL_SIGNATURE);
    CommonFieldsAt(s, 10, r);
    AtField16(s, 30, 0);
    AtField16(s, 32, 0);
    AtField32(s, 42, offset);
  }

  lemma CentralPartIs(r: Record, offset: U32)
    requires Expressible(r)
    ensures IsCentral(CentralPart(r, offset), r, offset)
  {
    CentralHeaderIs(CentralPart(r, offset), r, offset);
  }

  lemma EndRecordIs(count: U16, size: U32, start: U32)
    ensures IsEnd(EndRecord(count, size, start), count, size, start)
  {
    hide LE16, LE32, Get16, Get32;
    var s, tail := EndRecord(count, size, start), EndTail(size, start);
    SixFields(s, 0, LE32(END_SIGNATURE), LE16(0), LE16(0), LE16(count), LE16(count), tail);
    AtParts(s, 12, LE32(size), LE32(start) + LE16(0));
    AtParts(s, 16, LE32(start), LE16(0));
    AtField32(s, 0, END_SIGNATURE);
    AtField16(s, 8, count);
    AtField16(s, 10, count);
    AtField32(s, 12, size);
    AtField32(s, 16, start);
  }

  lemma {:induction false} PartsByIndex(rs: seq<Record>, i: nat)
    requires i < |rs|
    ensures LocalParts(rs)[i] == LocalPart(rs[i])
    ensures CentralParts(rs)[i] == CentralPart(rs[i], Offset(rs, i))
    ensures LocalParts(rs)[..i] == LocalParts(rs[..i])
  {
    hide LocalPart, CentralPart, Concat;
    var init := rs[..|rs| - 1];
    if i < |init| {
      PartsByIndex(init, i);
      assert init[..i] == rs[..i];
      assert LocalParts(rs)[..i] == LocalParts(init)[..i];
    } else {
      assert rs[..i] == init;
    }
  }

  predicate Nameable(r: Record) { |r.name| < 0x1_0000 && r.size < 0x1_0000_0000 }

  /** The number of members, their names and their lengths fit into their fields. */
  predicate Countable(rs: seq<Record>) { |rs| < 0x1_0000 && forall i | 0 <= i < |rs| :: Nameable(rs[i]) }

  /** What the 16- and 32-bit fields can express: all of that, and where the directory starts and its size. */
  predicate Fits(rs: seq<Record>) {
    && Countable(rs)
    && |Concat(LocalParts(rs))| < 0x1_0000_0000 && |Concat(CentralParts(rs))| < 0x1_0000_0000
  }

  lemma ArchivePartIs(rs: seq<Record>, i: nat)
    requires Fits(rs) && i < |rs|
    ensures IsLocal(LocalParts(rs)[i], rs[i])
    ensures IsCentral(CentralParts(rs)[i], rs[i], |Concat(LocalParts(rs)[..i])|)
  {
    PartsByIndex(rs, i);
    ConcatAt(LocalParts(rs), i);
    LocalPartIs(rs[i]);
    CentralPartIs(rs[i], Offset(rs, i));
  }

  /** The reader recovers exactly the members that were written, in order, if and only if
      the fields of the format can express them. */
  lemma ArchiveRoundTrip(rs: seq<Record>)
    ensures ReadArchive(Archive(rs)) == Some(rs) <==> Fits(rs)
  {
    if Fits(rs) {
      FittingReads(rs);
    } else {
      hide ReadArchive, Archive, Concat;
      ReaderIsBounded(Archive(rs));
      DirectoryIsReachable(rs);
    }
  }

  lemma FittingReads(rs: seq<Record>)
    requires Fits(rs)
    ensures ReadArchive(Archive(rs)) == Some(rs)
  {
    hide IsLocal, IsCentral, IsEnd, EndRecord, ReadArchive;
    var locals, central := LocalParts(rs), CentralParts(rs);
    var end := EndRecord(|rs|, |Concat(central)|, |Concat(locals)|);
    EndRecordIs(|rs|, |Concat(central)|, |Concat(locals)|);
    forall i | 0 <= i < |rs|
      ensures IsLocal(locals[i], rs[i]) && IsCentral(central[i], rs[i], |Concat(locals[..i])|)
    {
      ArchivePartIs(rs, i);
    }
    LaidOutReads(rs, locals, central, end);
  }

  /** Whatever is read fits into the fields it was read from. */
  lemma ReaderIsBounded(s: Bytes)
    ensures ReadArchive(s).Some? ==> Countable(ReadArchive(s).value)
  {
    hide Value;
    if ReadArchive(s).Some? {
      var end := |s| - END_SIZE;
      forall pos: nat | HeadersOf(s)(pos).Some? ensures Nameable(HeadersOf(s)(pos).value.0) {
        MemberIsBounded(s, pos);
      }
      DirectoryIsBounded(HeadersOf(s), Get32(s, end + 16), Get16(s, end + 10), end);
    }
  }

  lemma MemberIsBounded(s: Bytes, pos: nat)
    ensures ReadMember(s, pos).Some? ==> Nameable(ReadMember(s, pos).value)
  {
    hide Get16, Get32;
  }

  lemma {:induction false} DirectoryIsBounded(read: HeaderReader, pos: nat, count: nat, end: nat)
    requires forall p: nat | read(p).Some? :: Nameable(read(p).value.0)
    ensures var members := ReadDirectory(read, pos, count, end);
            members.Some? ==> |members.value| == count && forall i | 0 <= i < count :: Nameable(members.value[i])
    decreases count
  {
    if count > 0 && read(pos).Some? {
      DirectoryIsBounded(read, read(pos).value.1, count - 1, end);
    }
  }

  /** An archive is only read if its end record finds the directory right before itself. */
  lemma DirectoryIsReachable(rs: seq<Record>)
    ensures ReadArchive(Archive(rs)).Some? ==>
              |Concat(LocalParts(rs))| < 0x1_0000_0000 && |Concat(CentralParts(rs))| < 0x1_0000_0000
  {
    hide IsEnd, EndRecord, Concat, ReadArchive;
    var locals, central := Concat(LocalParts(rs)), Concat(CentralParts(rs));
    var s, to := Archive(rs), |locals| + |central|;
    var end := EndRecord(|rs|, |central|, |locals|);
    EndRecordTruncates(|rs|, |central|, |locals|);
    EndRecordIs(ToU16(|rs|), ToU32(|central|), ToU32(|locals|));
    assert s == (locals + central) + end;
    EndReads(s, to, end, ToU16(|rs|), ToU32(|central|), ToU32(|locals|));
    if ToU32(|locals|) + ToU32(|central|) == to { NoneIsTruncated(|locals|, |central|); }
  }

  lemma NoneIsTruncated(a: nat, b: nat)
    requires ToU32(a) + ToU32(b) == a + b
    ensures a < 0x1_0000_0000 && b < 0x1_0000_0000
  {
  }

  lemma EndRecordTruncates(count: nat, size: nat, start: nat)
    ensures EndRecord(ToU16(count), ToU32(size), ToU32(start)) == EndRecord(count, size, start)
  {
    hide LE32, LE16;
  }
}
