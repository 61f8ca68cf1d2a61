/** The session log: one file that is renamed aside whenever it is full, with the oldest
    renamed files deleted. A directory maps file names to contents, one `char` per byte. */
module SessionLog {

  import opened Decimal

  const BOM := "\U{EF}\U{BB}\U{BF}"
  const ROLLOVER_SIZE := 2 * 1024 * 1024
  const MAX_SESSION_BYTES := 10 * 1024 * 1024
  const MAX_ROLLOVERS := MAX_SESSION_BYTES / ROLLOVER_SIZE - 1

  datatype Settings = Settings(name: string, threshold: nat, maxRollovers: nat)

  function CurrentName(s: Settings): string { s.name + ".log" }

  function RolloverName(s: Settings, k: nat): string { s.name + ".log" + "." + ToDecimal(k) }

  lemma RolloverNamesAreDistinct(s: Settings, j: nat, k: nat)
    requires RolloverName(s, j) == RolloverName(s, k)
    ensures j == k
  {
    var prefix := s.name + ".log" + ".";
    assert RolloverName(s, j) == prefix + ToDecimal(j) + "" && RolloverName(s, k) == prefix + ToDecimal(k) + "";
    NumberedNamesAreDistinct(prefix, "", j, k);
  }

  lemma CurrentIsNoRollover(s: Settings, k: nat)
    ensures CurrentName(s) != RolloverName(s, k)
  {
  }

  //////////////////// What the directory holds ////////////////////

  /** Bytes in `k` full files. */
  function Full(s: Settings, k: nat): nat { k * s.threshold }

  lemma FullGrows(s: Settings, a: nat, b: nat)
    requires a <= b
    ensures Full(s, a) <= Full(s, b) && Full(s, b) - Full(s, a) == Full(s, b - a)
    ensures b == a + 1 ==> Full(s, b) == Full(s, a) + s.threshold
  {
  }

  /** What the k-th full file holds of everything accepted. */
  function Chunk(s: Settings, accepted: string, k: nat): string
    requires k >= 1 && Full(s, k) <= |accepted|
  {
    FullGrows(s, k - 1, k);
    accepted[Full(s, k - 1)..Full(s, k)]
  }

  /** How many of the rotated files have been deleted. */
  function Dropped(s: Settings, counter: nat): nat {
    if counter <= s.maxRollovers then 0 else counter - s.maxRollovers
  }

  datatype Log = Log(files: map<string, string>, rollovers: seq<string>, counter: nat, written: nat)

  /** `log` is what is left after accepting `accepted` into a directory that was `base`:
      the current file, the last few chunks, and every other file as it was. */
  ghost predicate Holds(s: Settings, base: map<string, string>, accepted: string, log: Log)
    ensures Holds(s, base, accepted, log) ==> s.threshold > 0 && log.written <= s.threshold && CurrentName(s) in log.files
  {
    && s.threshold > 0 && log.written <= s.threshold
    && Full(s, log.counter) + log.written == |accepted|
    && CurrentName(s) in log.files
    && log.files[CurrentName(s)] == BOM + accepted[Full(s, log.counter)..]
    && |log.rollovers| == log.counter - Dropped(s, log.counter)
    && (forall i | 0 <= i < |log.rollovers| :: log.rollovers[i] == RolloverName(s, Dropped(s, log.counter) + i + 1))
    && (forall k: nat {:trigger RolloverName(s, k)} | 1 <= k <= log.counter :: HoldsChunk(s, accepted, log, k))
    && (forall n {:trigger Foreign(s, log.counter, n)} {:trigger n in log.files} | Foreign(s, log.counter, n) ::
          (n in log.files <==> n in base) && (n in base ==> log.files[n] == base[n]))
  }

  /** The k-th rotated file has been deleted, or holds exactly its chunk. */
  predicate HoldsChunk(s: Settings, accepted: string, log: Log, k: nat) {
    var n := RolloverName(s, k);
    if k <= Dropped(s, log.counter) then n !in log.files
    else n in log.files && k >= 1 && Full(s, k) <= |accepted| && log.files[n] == BOM + Chunk(s, accepted, k)
  }

  /** The buffer has never used the name `n`. */
  ghost predicate Foreign(s: Settings, counter: nat, n: string) {
    n != CurrentName(s) && forall k: nat | 1 <= k <= counter :: n != RolloverName(s, k)
  }

  /** Nothing is rotated before there is something to write. */
  predicate Settled(accepted: string, log: Log) { log.written == 0 ==> accepted == "" }

  //////////////////// The steps ////////////////////

  /** Appending to the current file. */
  function Appended(s: Settings, log: Log, chunk: string): Log
    requires CurrentName(s) in log.files
  {
    log.(files := log.files[CurrentName(s) := log.files[CurrentName(s)] + chunk], written := log.written + |chunk|)
  }

  lemma AppendHolds(s: Settings, base: map<string, string>, accepted: string, log: Log, chunk: string)
    requires Holds(s, base, accepted, log) && log.written + |chunk| <= s.threshold
    ensures Holds(s, base, accepted + chunk, Appended(s, log, chunk))
  {
    hide Full, RolloverName;
    var next := Appended(s, log, chunk);
    var all := accepted + chunk;
    var start := Full(s, log.counter);
    assert BOM + accepted[start..] + chunk == BOM + all[start..];
    forall k: nat | 1 <= k <= log.counter ensures HoldsChunk(s, all, next, k) {
      CurrentIsNoRollover(s, k);
      assert HoldsChunk(s, accepted, log, k);
      FullGrows(s, k, log.counter);
      FullGrows(s, k - 1, k);
      assert Chunk(s, all, k) == Chunk(s, accepted, k);
    }
  }

  /** Closing the full file, moving it aside, deleting the oldest if there are too many, and
      starting a new file. */
  function Rotated(s: Settings, log: Log): Log
    requires CurrentName(s) in log.files
  {
    var aside := RolloverName(s, log.counter + 1);
    var moved := (log.files - {aside})[aside := log.files[CurrentName(s)]] - {CurrentName(s)};
    var rollovers := log.rollovers + [aside];
    if |rollovers| > s.maxRollovers then
      Log((moved - {rollovers[0]})[CurrentName(s) := BOM], rollovers[1..], log.counter + 1, 0)
    else
      Log(moved[CurrentName(s) := BOM], rollovers, log.counter + 1, 0)
  }

  lemma RotateHolds(s: Settings, base: map<string, string>, accepted: string, log: Log)
    requires Holds(s, base, accepted, log) && log.written == s.threshold
    ensures Holds(s, base, accepted, Rotated(s, log))
  {
    hide Full, RolloverName, HoldsChunk;
    var next := Rotated(s, log);
    FullGrows(s, log.counter, log.counter + 1);
    assert accepted[|accepted|..] == "";
    assert BOM + "" == BOM;
    forall k: nat | 1 <= k <= next.counter ensures HoldsChunk(s, accepted, next, k) {
      RotateKeepsChunk(s, base, accepted, log, k);
    }
    forall n | Foreign(s, next.counter, n) ensures (n in next.files <==> n in base) && (n in base ==> next.files[n] == base[n]) {
      assert Foreign(s, log.counter, n);
      assert n != RolloverName(s, next.counter);
    }
  }

  lemma RotateKeepsChunk(s: Settings, base: map<string, string>, accepted: string, log: Log, k: nat)
    requires Holds(s, base, accepted, log) && log.written == s.threshold
    requires 1 <= k <= log.counter + 1
    ensures HoldsChunk(s, accepted, Rotated(s, log), k)
  {
    hide Full, RolloverName;
    var next := Rotated(s, log);
    var n, aside := RolloverName(s, k), RolloverName(s, log.counter + 1);
    CurrentIsNoRollover(s, k);
    CurrentIsNoRollover(s, log.counter + 1);
    FullGrows(s, log.counter, log.counter + 1);
    FullGrows(s, k, log.counter + 1);
    var oldest := (log.rollovers + [aside])[0];
    assert oldest == RolloverName(s, Dropped(s, log.counter) + 1);
    if oldest == n { RolloverNamesAreDistinct(s, Dropped(s, log.counter) + 1, k); }
    if k == log.counter + 1 {
      assert accepted[Full(s, log.counter)..] == Chunk(s, accepted, k);
    } else {
      assert HoldsChunk(s, accepted, log, k);
      if n == aside { RolloverNamesAreDistinct(s, k, log.counter + 1); }
    }
  }

  //////////////////// The buffer ////////////////////

  class SessionLogBuffer {
    const settings: Settings
    var files: map<string, string>
    var rollovers: seq<string>
    var counter: nat
    var bytesWritten: nat
    ghost const base: map<string, string>
    ghost var accepted: string

    function Abs(): Log
      reads this
    {
      Log(files, rollovers, counter, bytesWritten)
    }

    ghost predicate Valid()
      reads this
    {
      Holds(settings, base, accepted, Abs()) && Settled(accepted, Abs())
    }

    constructor (settings: Settings, directory: map<string, string>)
      requires settings.threshold > 0
      ensures Valid() && accepted == "" && base == directory && this.settings == settings
    {
      this.settings, base, accepted := settings, directory, "";
      files, rollovers, counter, bytesWritten := directory[settings.name + ".log" := BOM], [], 0, 0;
    }

    /** Takes every byte, whatever the length of the piece, and terminates. */
    method Xsputn(s: string) returns (written: nat)
      requires Valid()
      modifies this
      ensures Valid() && accepted == old(accepted) + s && written == |s|
    {
      hide Holds, Full, RolloverName;
      written := 0;
      while written < |s|
        invariant written <= |s|
        invariant Holds(settings, base, accepted, Abs())
        invariant accepted == old(accepted) + s[..written]
        invariant written == |s| ==> Settled(accepted, Abs())
        decreases |s| - written, bytesWritten
      {
        if bytesWritten >= settings.threshold {
          RotateFile();
          continue;
        }
        var spaceLeft := settings.threshold - bytesWritten;
        var chunk := if spaceLeft < |s| - written then spaceLeft else |s| - written;
        var piece := s[written..written + chunk];
        AppendHolds(settings, base, accepted, Abs(), piece);
        var current := settings.name + ".log";
        files := files[current := files[current] + piece];
        bytesWritten := bytesWritten + chunk;
        assert s[..written] + piece == s[..written + chunk];
        accepted := accepted + piece;
        written := written + chunk;
      }
      assert s[..written] == s;
    }

    method RotateFile()
      requires Holds(settings, base, accepted, Abs()) && bytesWritten == settings.threshold
      modifies this
      ensures Abs() == Rotated(settings, old(Abs())) && accepted == old(accepted)
      ensures Holds(settings, base, accepted, Abs())
    {
      RotateHolds(settings, base, accepted, Abs());
      counter := counter + 1;
      var current := settings.name + ".log";
      var aside := current + "." + ToDecimal(counter);
      CurrentIsNoRollover(settings, counter);
      files := files - {aside};
      files := files[aside := files[current]] - {current};
      rollovers := rollovers + [aside];
      if |rollovers| > settings.maxRollovers {
        files := files - {rollovers[0]};
        rollovers := rollovers[1..];
      }
      bytesWritten := 0;
      files := files[current := BOM];
    }
  }

  //////////////////// What is retained ////////////////////

  /** The log text of the named files, byte-order marks cut off. */
  function Payload(files: map<string, string>, names: seq<string>): string {
    if names == [] then ""
    else
      var n := names[|names| - 1];
      Payload(files, names[..|names| - 1]) + if n in files && |files[n]| >= |BOM| then files[n][|BOM|..] else ""
  }

  /** Everything that can still be read, oldest first. */
  function Retained(s: Settings, log: Log): string { Payload(log.files, log.rollovers + [CurrentName(s)]) }

  /** The retained files are a suffix of the stream: it lacks exactly the deleted chunks. */
  lemma RetainedIsSuffix(s: Settings, base: map<string, string>, accepted: string, log: Log)
    requires Holds(s, base, accepted, log)
    ensures Full(s, Dropped(s, log.counter)) <= |accepted|
    ensures Retained(s, log) == accepted[Full(s, Dropped(s, log.counter))..]
  {
    hide Full, RolloverName, HoldsChunk;
    var n := |log.rollovers|;
    RolloversJoin(s, base, accepted, log, n);
    var all := log.rollovers + [CurrentName(s)];
    assert all[..|all| - 1] == log.rollovers == log.rollovers[..n];
    var a, b := Full(s, Dropped(s, log.counter)), Full(s, log.counter);
    assert (BOM + accepted[b..])[|BOM|..] == accepted[b..];
    assert accepted[a..b] + accepted[b..] == accepted[a..];
  }

  lemma PayloadGrows(files: map<string, string>, names: seq<string>, n: nat, text: string)
    requires 0 < n <= |names| && names[n - 1] in files && files[names[n - 1]] == BOM + text
    ensures Payload(files, names[..n]) == Payload(files, names[..n - 1]) + text
  {
    assert names[..n][..n - 1] == names[..n - 1];
    assert (BOM + text)[|BOM|..] == text;
  }

  lemma PayloadOfNone(files: map<string, string>)
    ensures Payload(files, []) == ""
  {
  }

  lemma {:induction false} RolloversJoin(s: Settings, base: map<string, string>, accepted: string, log: Log, n: nat)
    requires Holds(s, base, accepted, log) && n <= |log.rollovers|
    ensures Full(s, Dropped(s, log.counter)) <= Full(s, Dropped(s, log.counter) + n) <= |accepted|
    ensures Payload(log.files, log.rollovers[..n]) ==
            accepted[Full(s, Dropped(s, log.counter))..Full(s, Dropped(s, log.counter) + n)]
  {
    hide Full, RolloverName, Payload;
    var d, t := Dropped(s, log.counter), s.threshold;
    PayloadOfNone(log.files);
    assert log.rollovers[..0] == [];
    FullGrows(s, d, d + n);
    FullGrows(s, d + n, log.counter);
    if n > 0 {
      RolloversJoin(s, base, accepted, log, n - 1);
      assert HoldsChunk(s, accepted, log, d + n);
      FullGrows(s, d + n - 1, d + n);
      var chunk := Chunk(s, accepted, d + n);
      PayloadGrows(log.files, log.rollovers, n, chunk);
      assert accepted[Full(s, d)..Full(s, d + n - 1)] + chunk == accepted[Full(s, d)..Full(s, d + n)];
    }
  }

  /** Never more than the current file and the kept rollovers, each at most full; and nothing
      is lost before all kept rollovers are full. */
  lemma RetainedBounds(s: Settings, base: map<string, string>, accepted: string, log: Log)
    requires Holds(s, base, accepted, log) && Settled(accepted, log)
    ensures |Retained(s, log)| <= Full(s, s.maxRollovers + 1)
    ensures log.counter <= s.maxRollovers ==> Retained(s, log) == accepted
    ensures log.counter > s.maxRollovers ==> |Retained(s, log)| > Full(s, s.maxRollovers)
    ensures forall n | n in log.rollovers :: n in log.files && |log.files[n]| == |BOM| + s.threshold
    ensures |log.rollovers| <= s.maxRollovers
  {
    hide Full, RolloverName, Retained;
    var d, t := Dropped(s, log.counter), s.threshold;
    RetainedIsSuffix(s, base, accepted, log);
    if log.counter > 0 { FullGrows(s, log.counter - 1, log.counter); }
    FullGrows(s, d, log.counter);
    FullGrows(s, log.counter - d, s.maxRollovers);
    FullGrows(s, s.maxRollovers, s.maxRollovers + 1);
    forall n | n in log.rollovers ensures n in log.files && |log.files[n]| == |BOM| + t {
      var i :| 0 <= i < |log.rollovers| && log.rollovers[i] == n;
      assert HoldsChunk(s, accepted, log, d + i + 1);
      FullGrows(s, d + i, d + i + 1);
    }
  }

  /** With the shipped constants a session keeps at most ten MiB of log text. */
  lemma SessionStaysWithinTenMiB(name: string, base: map<string, string>, accepted: string, log: Log)
    requires var s := Settings(name, ROLLOVER_SIZE, MAX_ROLLOVERS); Holds(s, base, accepted, log) && Settled(accepted, log)
    ensures |Retained(Settings(name, ROLLOVER_SIZE, MAX_ROLLOVERS), log)| <= MAX_SESSION_BYTES
  {
    hide Holds, Retained;
    RetainedBounds(Settings(name, ROLLOVER_SIZE, MAX_ROLLOVERS), base, accepted, log);
  }

  /** No file name is used twice: the name taken next is not among the files kept. */
  lemma NamesNeverRepeat(s: Settings, base: map<string, string>, accepted: string, log: Log)
    requires Holds(s, base, accepted, log)
    ensures RolloverName(s, log.counter + 1) !in log.rollovers
    ensures forall i, j | 0 <= i < j < |log.rollovers| :: log.rollovers[i] != log.rollovers[j]
  {
    hide Full, RolloverName;
    var d := Dropped(s, log.counter);
    forall i | 0 <= i < |log.rollovers| ensures log.rollovers[i] != RolloverName(s, log.counter + 1) {
      if log.rollovers[i] == RolloverName(s, log.counter + 1) { RolloverNamesAreDistinct(s, d + i + 1, log.counter + 1); }
    }
    forall i, j | 0 <= i < j < |log.rollovers| ensures log.rollovers[i] != log.rollovers[j] {
      if log.rollovers[i] == log.rollovers[j] { RolloverNamesAreDistinct(s, d + i + 1, d + j + 1); }
    }
  }

  /** Only the bytes matter, not how they were cut into writes: the state is a function of them. */
  lemma SplitDoesNotMatter(s: Settings, base: map<string, string>, accepted: string, a: Log, b: Log)
    requires Holds(s, base, accepted, a) && Settled(accepted, a)
    requires Holds(s, base, accepted, b) && Settled(accepted, b)
    ensures a == b
  {
    hide Full, RolloverName;
    CounterIsDetermined(s, |accepted|, a.counter, a.written, b.counter, b.written);
    forall n ensures (n in a.files <==> n in b.files) && (n in a.files ==> a.files[n] == b.files[n]) {
      if n != CurrentName(s) && !Foreign(s, a.counter, n) {
        var k: nat :| 1 <= k <= a.counter && n == RolloverName(s, k);
        assert HoldsChunk(s, accepted, a, k) && HoldsChunk(s, accepted, b, k);
      }
    }
    assert a.files == b.files;
  }

  lemma CounterIsDetermined(s: Settings, total: nat, c1: nat, w1: nat, c2: nat, w2: nat)
    requires s.threshold > 0 && Full(s, c1) + w1 == total == Full(s, c2) + w2 && w1 <= s.threshold && w2 <= s.threshold
    requires (w1 == 0 ==> total == 0) && (w2 == 0 ==> total == 0)
    ensures c1 == c2 && w1 == w2
  {
    hide Full;
    if c1 < c2 {
      FullGrows(s, c1, c1 + 1);
      FullGrows(s, c1 + 1, c2);
    } else if c2 < c1 {
      FullGrows(s, c2, c2 + 1);
      FullGrows(s, c2 + 1, c1);
    }
  }

  //////////////////// When a write ends ////////////////////

  datatype Loop = Loop(written: nat, inFile: nat)

  /** One round of the writing loop, for any threshold. */
  function Round(threshold: nat, count: nat, l: Loop): Loop {
    if l.written >= count then l
    else if threshold > 0 && l.inFile >= threshold then Loop(l.written, 0)
    else if threshold <= l.inFile then Loop(l.written, 0)
    else
      var chunk := if threshold - l.inFile < count - l.written then threshold - l.inFile else count - l.written;
      Loop(l.written + chunk, l.inFile + chunk)
  }

  function Rounds(threshold: nat, count: nat, l: Loop, n: nat): Loop
    decreases n
  {
    if n == 0 then l else Rounds(threshold, count, Round(threshold, count, l), n - 1)
  }

  /** A write into a fresh file takes all its bytes in finitely many rounds exactly if the
      threshold is positive or there is nothing to write; with threshold zero it rotates for ever. */
  lemma WriteEnds(threshold: nat, count: nat)
    ensures (exists n: nat :: Rounds(threshold, count, Loop(0, 0), n).written == count) <==> threshold > 0 || count == 0
  {
    if threshold > 0 {
      var n := RoundsNeeded(threshold, count, Loop(0, 0));
    } else if count == 0 {
      assert Rounds(threshold, count, Loop(0, 0), 0).written == count;
    } else {
      forall n: nat ensures Rounds(0, count, Loop(0, 0), n) == Loop(0, 0) { NoProgressAtZero(count, n); }
    }
  }

  lemma RoundsNeeded(threshold: nat, count: nat, l: Loop) returns (n: nat)
    requires threshold > 0 && l.written <= count && l.inFile <= threshold
    ensures Rounds(threshold, count, l, n).written == count
    decreases count - l.written, l.inFile
  {
    if l.written == count {
      n := 0;
    } else {
      var m := RoundsNeeded(threshold, count, Round(threshold, count, l));
      n := m + 1;
    }
  }

  lemma {:induction false} NoProgressAtZero(count: nat, n: nat)
    ensures Rounds(0, count, Loop(0, 0), n) == Loop(0, 0)
  {
    if n > 0 { NoProgressAtZero(count, n - 1); }
  }

  //////////////////// Names and constants ////////////////////

  /** What the files of a session are called, what each begins with, and the shipped sizes. */
  lemma NamesAndConstants(s: Settings, k: nat)
    ensures CurrentName(s) == s.name + ".log" && RolloverName(s, k) == s.name + ".log." + ToDecimal(k)
    ensures |BOM| == 3 && BOM[0] as int == 0xEF && BOM[1] as int == 0xBB && BOM[2] as int == 0xBF
    ensures ROLLOVER_SIZE == 2_097_152 && MAX_ROLLOVERS == 4 && MAX_SESSION_BYTES == 10_485_760
  {
    assert s.name + ".log" + "." == s.name + ".log.";
  }
}
