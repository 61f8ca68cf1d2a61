/** Planning a crash bundle: dumps are packed in order into archives of limited estimated
    size, the support logs going into the first one. */
module CrashBundle {

  import opened ZipFormat
  import opened ZipWriter
  import opened Decimal

  const MAX_BYTES := 30 * 1024 * 1024

  datatype Part = Part(files: seq<FileEntry>, includeLogs: bool, filename: string, estimate: nat)

  function EntryEstimate(f: FileEntry): nat { EstimateZipEntrySize(|f.name|, f.size) }

  /** The logs a part carries. */
  function PartLogs(part: Part, logs: seq<DataEntry>): seq<DataEntry> {
    if part.includeLogs then logs else []
  }

  /** The dumps of all parts, in order. */
  function AllFiles(parts: seq<Part>): seq<FileEntry> {
    if parts == [] then [] else AllFiles(parts[..|parts| - 1]) + parts[|parts| - 1].files
  }

  /** A part is within the limit, or is the logs alone, or is a single dump alone. */
  predicate WithinLimit(part: Part) {
    || part.estimate <= MAX_BYTES
    || (part.includeLogs && part.files == [])
    || (!part.includeLogs && |part.files| == 1)
  }

  /** The recorded estimate is the estimate of the part's contents. */
  predicate Priced(part: Part, logs: seq<DataEntry>) {
    part.estimate == END_SIZE + DataTotal(PartLogs(part, logs)) + FileTotal(part.files)
  }

  /** The first dump of `next` did not fit into `part` any more. */
  predicate Overflowing(part: Part, next: Part) {
    next.files != [] && part.estimate + EntryEstimate(next.files[0]) > MAX_BYTES
  }

  /** What holds of the parts while the dumps are being packed. */
  predicate Packed(parts: seq<Part>, logs: seq<DataEntry>, dumps: seq<FileEntry>) {
    && parts != [] && AllFiles(parts) == dumps
    && (forall i | 0 <= i < |parts| :: Priced(parts[i], logs) && parts[i].includeLogs == (i == 0))
    && (forall i | 0 <= i < |parts| - 1 :: Overflowing(parts[i], parts[i + 1]))
    && (logs != [] ==> forall i | 0 <= i < |parts| :: WithinLimit(parts[i]))
    && (logs == [] ==> |parts| == 1)
  }

  lemma FileTotalAppend(fs: seq<FileEntry>, f: FileEntry)
    ensures FileTotal(fs + [f]) == FileTotal(fs) + EntryEstimate(f)
  {
  }

  function WithFile(part: Part, f: FileEntry): Part {
    part.(files := part.files + [f], estimate := part.estimate + EntryEstimate(f))
  }

  lemma AddToLast(parts: seq<Part>, logs: seq<DataEntry>, dumps: seq<FileEntry>, f: FileEntry)
    requires Packed(parts, logs, dumps)
    requires var last := parts[|parts| - 1];
             last.estimate + EntryEstimate(f) <= MAX_BYTES || (if last.includeLogs then logs == [] else last.files == [])
    ensures Packed(parts[|parts| - 1 := WithFile(parts[|parts| - 1], f)], logs, dumps + [f])
  {
    hide FileTotal, DataTotal, EntryEstimate;
    var last := parts[|parts| - 1];
    var after := parts[|parts| - 1 := WithFile(last, f)];
    FileTotalAppend(last.files, f);
    assert Priced(last, logs) && WithFile(last, f).includeLogs == last.includeLogs;
    assert after[..|after| - 1] == parts[..|parts| - 1];
    assert AllFiles(after) == AllFiles(parts[..|parts| - 1]) + (last.files + [f]);
    forall i | 0 <= i < |after| - 1 ensures Overflowing(after[i], after[i + 1]) {
      assert Overflowing(parts[i], parts[i + 1]);
    }
    forall i | 0 <= i < |after|
      ensures Priced(after[i], logs) && after[i].includeLogs == (i == 0) && (logs != [] ==> WithinLimit(after[i]))
    {
      assert Priced(parts[i], logs) && parts[i].includeLogs == (i == 0);
    }
  }

  lemma AddPart(parts: seq<Part>, logs: seq<DataEntry>, dumps: seq<FileEntry>, f: FileEntry, fresh': Part)
    requires Packed(parts, logs, dumps) && logs != []
    requires parts[|parts| - 1].estimate + EntryEstimate(f) > MAX_BYTES
    requires fresh' == WithFile(Part([], false, "", END_SIZE), f)
    ensures Packed(parts + [fresh'], logs, dumps + [f])
  {
    hide DataTotal, EntryEstimate;
    var after := parts + [fresh'];
    NothingWeighsNothing();
    FileTotalAppend([], f);
    assert after[..|after| - 1] == parts;
    assert [] + [f] == [f];
    forall i | 0 <= i < |after| - 1 ensures Overflowing(after[i], after[i + 1]) {
      if i < |parts| - 1 { assert Overflowing(parts[i], parts[i + 1]); }
    }
  }

  function PartFilename(base: string, index: nat, count: nat): string {
    if count <= 1 then base + ".zip" else base + "-part" + ToDecimal(index) + ".zip"
  }

  /** `named` is `parts` with file names filled in. */
  predicate Named(named: seq<Part>, parts: seq<Part>, base: string) {
    && |named| == |parts|
    && forall i | 0 <= i < |parts| :: named[i] == parts[i].(filename := PartFilename(base, i + 1, |parts|))
  }

  lemma {:induction false} SameFiles(a: seq<Part>, b: seq<Part>)
    requires |a| == |b| && forall i | 0 <= i < |a| :: a[i].files == b[i].files
    ensures AllFiles(a) == AllFiles(b)
  {
    if a != [] { SameFiles(a[..|a| - 1], b[..|b| - 1]); }
  }

  lemma NamingKeepsPacked(named: seq<Part>, parts: seq<Part>, base: string, logs: seq<DataEntry>, dumps: seq<FileEntry>)
    requires Named(named, parts, base) && Packed(parts, logs, dumps)
    ensures Packed(named, logs, dumps)
  {
    SameFiles(named, parts);
    forall i | 0 <= i < |named| - 1 ensures Overflowing(named[i], named[i + 1]) {
      assert Overflowing(parts[i], parts[i + 1]);
    }
  }

  lemma StartIsPacked(first: Part, logs: seq<DataEntry>)
    requires first == Part([], true, "", END_SIZE + DataTotal(logs))
    ensures Packed([first], logs, [])
  {
    NothingWeighsNothing();
    assert [first][..0] == [];
  }

  lemma LastOfPacked(parts: seq<Part>, logs: seq<DataEntry>, dumps: seq<FileEntry>)
    requires Packed(parts, logs, dumps)
    ensures parts != [] && (logs == [] ==> parts[|parts| - 1].includeLogs)
  {
  }

  method BuildCrashBundlePlan(logs: seq<DataEntry>, dumps: seq<FileEntry>, base: string) returns (parts: seq<Part>)
    ensures Packed(parts, logs, dumps)
    ensures forall i | 0 <= i < |parts| :: parts[i].filename == PartFilename(base, i + 1, |parts|)
  {
    hide FileTotal, DataTotal, EntryEstimate, Packed;
    var logsEstimate := EstimateZipSize(logs, []);
    var emptyEstimate := EstimateZipSize([], []);
    NothingWeighsNothing();
    parts := [Part([], true, "", logsEstimate)];
    StartIsPacked(parts[0], logs);
    assert dumps[..0] == [];
    var n := 0;
    while n < |dumps|
      invariant n <= |dumps|
      invariant Packed(parts, logs, dumps[..n])
    {
      LastOfPacked(parts, logs, dumps[..n]);
      var f := dumps[n];
      assert dumps[..n + 1] == dumps[..n] + [f];
      var last := parts[|parts| - 1];
      var hasPayload := if last.includeLogs then logs != [] else last.files != [];
      if last.estimate + EntryEstimate(f) > MAX_BYTES && hasPayload {
        var part := WithFile(Part([], false, "", emptyEstimate), f);
        AddPart(parts, logs, dumps[..n], f, part);
        parts := parts + [part];
      } else {
        AddToLast(parts, logs, dumps[..n], f);
        parts := parts[|parts| - 1 := WithFile(last, f)];
      }
      n := n + 1;
    }
    assert dumps[..n] == dumps;
    ghost var unnamed := parts;
    parts := NameParts(parts, base);
    NamingKeepsPacked(parts, unnamed, base, logs, dumps);
  }

  method NameParts(unnamed: seq<Part>, base: string) returns (parts: seq<Part>)
    ensures Named(parts, unnamed, base)
  {
    hide PartFilename;
    parts := unnamed;
    var i := 0;
    while i < |parts|
      invariant i <= |parts| == |unnamed|
      invariant forall k | 0 <= k < i :: parts[k] == unnamed[k].(filename := PartFilename(base, k + 1, |parts|))
      invariant forall k | i <= k < |parts| :: parts[k] == unnamed[k]
    {
      parts := parts[i := parts[i].(filename := PartFilename(base, i + 1, |parts|))];
      i := i + 1;
    }
  }

  /** A single part is named after the bundle, several are numbered from one. */
  lemma PartNames(base: string, index: nat, count: nat)
    ensures count <= 1 ==> PartFilename(base, index, count) == base + ".zip"
    ensures count > 1 ==> PartFilename(base, index, count) == base + "-part" + ToDecimal(index) + ".zip"
    ensures MAX_BYTES == 31_457_280
  {
  }

  lemma NothingWeighsNothing()
    ensures DataTotal([]) == 0 && FileTotal([]) == 0
  {
  }

  lemma PartNamesAreDistinct(base: string, i: nat, j: nat, count: nat)
    requires i < count && j < count && PartFilename(base, i + 1, count) == PartFilename(base, j + 1, count)
    ensures i == j
  {
    if count > 1 { NumberedNamesAreDistinct(base + "-part", ".zip", i + 1, j + 1); }
  }

  //////////////////// When the limit is respected ////////////////////

  function Total(logs: seq<DataEntry>, dumps: seq<FileEntry>): nat { DataTotal(logs) + FileTotal(dumps) }

  /** Every part respects the limit, up to things that cannot be split, exactly when there
      is a log to put into the first part, or at most one dump, or everything fits at once:
      without logs the planner never starts a second part. */
  lemma LimitRespected(parts: seq<Part>, logs: seq<DataEntry>, dumps: seq<FileEntry>)
    requires Packed(parts, logs, dumps)
    ensures (forall i | 0 <= i < |parts| :: OrSingleDump(parts[i], logs)) <==>
            logs != [] || |dumps| <= 1 || END_SIZE + FileTotal(dumps) <= MAX_BYTES
  {
    if logs == [] {
      assert parts[..0] == [];
      assert AllFiles(parts) == [] + parts[0].files;
    }
  }

  /** Two dumps of 20 MiB and no log go into one part, beyond the limit. */
  lemma WithoutLogsOnePartOverflows(f: FileEntry, g: FileEntry, parts: seq<Part>)
    requires f.size == g.size == 20 * 1024 * 1024 && Packed(parts, [], [f, g])
    ensures |parts| == 1 && parts[0].estimate > MAX_BYTES && parts[0].files == [f, g]
  {
    FileTotalAppend([f], g);
    FileTotalAppend([], f);
    assert [f] + [g] == [f, g] && [] + [f] == [f];
    assert parts[..0] == [] && AllFiles(parts[..0]) == [];
    assert AllFiles(parts) == [] + parts[0].files == parts[0].files;
    assert Priced(parts[0], []) && PartLogs(parts[0], []) == [];
    assert FileTotal(parts[0].files) >= f.size + g.size;
  }

  /** Within the limit, or consisting of one thing only. */
  predicate OrSingleDump(part: Part, logs: seq<DataEntry>) {
    || part.estimate <= MAX_BYTES
    || part.files == []
    || (PartLogs(part, logs) == [] && |part.files| == 1)
  }

  /** End to end: with at least one log, every part that is written is an archive of at most
      30 MiB that reads back, unless it is the logs alone or one dump alone. */
  lemma WrittenPartsAreSmall(parts: seq<Part>, logs: seq<DataEntry>, dumps: seq<FileEntry>, i: nat, codec: Codec)
    requires Packed(parts, logs, dumps) && logs != [] && i < |parts|
    requires Bundleable(codec, PartLogs(parts[i], logs), parts[i].files)
    ensures var written := Archive(BundleRecords(codec, PartLogs(parts[i], logs), parts[i].files));
            && |written| <= parts[i].estimate
            && (|written| <= MAX_BYTES || parts[i].files == [] || (!parts[i].includeLogs && |parts[i].files| == 1))
  {
    hide Archive, BundleRecords, Bundleable;
    BundleWithinEstimate(codec, PartLogs(parts[i], logs), parts[i].files);
    assert Priced(parts[i], logs) && WithinLimit(parts[i]);
  }

  //////////////////// How many parts ////////////////////

  /** What a part weighs apart from its end record. */
  function Weight(part: Part, logs: seq<DataEntry>): nat {
    DataTotal(PartLogs(part, logs)) + FileTotal(part.files)
  }

  function Weights(parts: seq<Part>, logs: seq<DataEntry>): nat {
    if parts == [] then 0 else Weights(parts[..|parts| - 1], logs) + Weight(parts[|parts| - 1], logs)
  }

  lemma {:induction false} FileTotalConcat(a: seq<FileEntry>, b: seq<FileEntry>)
    ensures FileTotal(a + b) == FileTotal(a) + FileTotal(b)
  {
    if b == [] {
      assert a + b == a;
    } else {
      FileTotalConcat(a, b[..|b| - 1]);
      assert (a + b)[..|a + b| - 1] == a + b[..|b| - 1];
    }
  }

  /** Nothing is lost or weighed twice: the parts weigh together what all files weigh, plus the logs once. */
  lemma {:induction false} WeightsAddUp(parts: seq<Part>, logs: seq<DataEntry>)
    requires parts != [] && parts[0].includeLogs
    requires forall i | 0 < i < |parts| :: !parts[i].includeLogs
    ensures Weights(parts, logs) == Total(logs, AllFiles(parts))
  {
    var init := parts[..|parts| - 1];
    FileTotalConcat(AllFiles(init), parts[|parts| - 1].files);
    if init == [] {
      assert AllFiles(parts) == parts[0].files;
    } else {
      WeightsAddUp(init, logs);
    }
  }

  lemma {:induction false} FirstFileWeighs(fs: seq<FileEntry>)
    requires fs != []
    ensures EntryEstimate(fs[0]) <= FileTotal(fs)
  {
    if |fs| > 1 {
      FirstFileWeighs(fs[..|fs| - 1]);
    }
  }

  /** Two adjacent parts never fit into one archive. */
  lemma AdjacentPartsOverflow(parts: seq<Part>, logs: seq<DataEntry>, dumps: seq<FileEntry>, i: nat)
    requires Packed(parts, logs, dumps) && i + 1 < |parts|
    ensures Weight(parts[i], logs) + Weight(parts[i + 1], logs) + END_SIZE > MAX_BYTES
    ensures parts[i].estimate + parts[i + 1].estimate > MAX_BYTES + END_SIZE
  {
    assert Overflowing(parts[i], parts[i + 1]) && Priced(parts[i], logs) && Priced(parts[i + 1], logs);
    FirstFileWeighs(parts[i + 1].files);
  }

  lemma {:induction false} PairsWeigh(parts: seq<Part>, logs: seq<DataEntry>, dumps: seq<FileEntry>, n: nat)
    requires Packed(parts, logs, dumps) && n <= |parts|
    ensures n / 2 * (MAX_BYTES - END_SIZE + 1) <= Weights(parts[..n], logs)
  {
    hide Packed, Weight;
    if n >= 2 {
      PairsWeigh(parts, logs, dumps, n - 2);
      AdjacentPartsOverflow(parts, logs, dumps, n - 2);
      assert parts[..n][..n - 1] == parts[..n - 1] && parts[..n - 1][..n - 2] == parts[..n - 2];
      var pair := MAX_BYTES - END_SIZE + 1;
      assert n / 2 * pair == (n - 2) / 2 * pair + pair;
    }
  }

  lemma {:induction false} WeightsWithin(parts: seq<Part>, logs: seq<DataEntry>)
    requires forall i | 0 <= i < |parts| :: END_SIZE + Weight(parts[i], logs) <= MAX_BYTES
    ensures Weights(parts, logs) <= |parts| * (MAX_BYTES - END_SIZE)
  {
    if parts != [] { WeightsWithin(parts[..|parts| - 1], logs); }
  }

  lemma {:induction false} TotalOfPermutation(a: seq<FileEntry>, b: seq<FileEntry>)
    requires multiset(a) == multiset(b)
    ensures FileTotal(a) == FileTotal(b)
  {
    hide EntryEstimate, FileTotal;
    if a == [] {
      assert |b| == |multiset(b)| == 0;
    } else {
      var f, init := a[|a| - 1], a[..|a| - 1];
      assert a == init + [f];
      FileTotalAppend(init, f);
      assert multiset(a) == multiset(init) + multiset{f};
      assert f in multiset(b);
      var k :| 0 <= k < |b| && b[k] == f;
      var rest := b[..k] + b[k + 1..];
      Without(b, k);
      assert multiset(init) == multiset(a) - multiset{f} && multiset(rest) == multiset(b) - multiset{f};
      TotalOfPermutation(init, rest);
    }
  }

  lemma Without(b: seq<FileEntry>, k: nat)
    requires k < |b|
    ensures var rest := b[..k] + b[k + 1..];
            && multiset(b) == multiset(rest) + multiset{b[k]}
            && FileTotal(b) == FileTotal(rest) + EntryEstimate(b[k])
  {
    hide EntryEstimate, FileTotal;
    assert b == b[..k] + [b[k]] + b[k + 1..];
    FileTotalConcat(b[..k] + [b[k]], b[k + 1..]);
    FileTotalConcat(b[..k], b[k + 1..]);
    FileTotalAppend(b[..k], b[k]);
  }

  lemma FirstHasLogs(parts: seq<Part>, logs: seq<DataEntry>, dumps: seq<FileEntry>)
    requires Packed(parts, logs, dumps)
    ensures parts != [] && parts[0].includeLogs && AllFiles(parts) == dumps
    ensures forall i | 0 < i < |parts| :: !parts[i].includeLogs
  {
  }

  /** The planner uses fewer than twice as many parts as any packing of the same logs and
      dumps, in whatever order, whose parts all respect the limit. */
  lemma FewerThanTwiceOptimal(parts: seq<Part>, other: seq<Part>, logs: seq<DataEntry>, dumps: seq<FileEntry>)
    requires Packed(parts, logs, dumps)
    requires other != [] && other[0].includeLogs && forall i | 0 < i < |other| :: !other[i].includeLogs
    requires multiset(AllFiles(other)) == multiset(dumps)
    requires forall i | 0 <= i < |other| :: END_SIZE + Weight(other[i], logs) <= MAX_BYTES
    ensures |parts| < 2 * |other|
  {
    hide Packed, Weight, Weights, AllFiles, FileTotal, DataTotal;
    FirstHasLogs(parts, logs, dumps);
    WeightsAddUp(parts, logs);
    WeightsAddUp(other, logs);
    TotalOfPermutation(AllFiles(other), dumps);
    WeightsWithin(other, logs);
    PairsWeigh(parts, logs, dumps, |parts|);
    assert parts[..|parts|] == parts;
    FewPairs(|parts|, |other|, MAX_BYTES - END_SIZE, Total(logs, dumps));
  }

  lemma FewPairs(parts: nat, other: nat, limit: nat, total: nat)
    requires parts / 2 * (limit + 1) <= total <= other * limit && other > 0
    ensures parts < 2 * other
  {
    var pairs := parts / 2;
    assert other * (limit + 1) == other * limit + other;
    if pairs >= other { MoreWeighMore(other, pairs, limit + 1); }
  }

  lemma MoreWeighMore(a: nat, b: nat, unit: nat)
    requires a <= b
    ensures a * unit <= b * unit
  {
    assert b * unit == a * unit + (b - a) * unit;
  }
}
