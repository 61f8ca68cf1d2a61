/** The persistent half of the session token store: what a save writes, what a
    load reads back, and how far the two agree. */
module SessionFile {

  import opened Wrappers
  import opened SessionStore
  import opened StateFile

  //////////////////// Whole seconds ////////////////////

  /** The conversion to seconds truncates toward zero. */
  function ToSeconds(t: int): int {
    if t >= 0 then t / TICKS_PER_SECOND else -((-t) / TICKS_PER_SECOND)
  }

  function Whole(t: int): int { Ticks(ToSeconds(t)) }

  /** Instants for which losing the fraction of a second does not move them later. */
  predicate Storable(t: int) { t >= 0 || t % TICKS_PER_SECOND == 0 }

  lemma WholeFacts(a: int, b: int)
    ensures a <= b ==> Whole(a) <= Whole(b)
    ensures Storable(a) ==> Whole(a) <= a && Storable(Whole(a))
    ensures Whole(Whole(a)) == Whole(a)
  {
    hide ToSeconds;
    SecondsWithin(a);
    SecondsWithin(b);
    SecondsOfWhole(ToSeconds(a));
  }

  /** Truncation loses less than a second, and never crosses zero. */
  lemma SecondsWithin(t: int)
    ensures t >= 0 ==> 0 <= Ticks(ToSeconds(t)) <= t < Ticks(ToSeconds(t)) + TICKS_PER_SECOND
    ensures t <= 0 ==> Ticks(ToSeconds(t)) - TICKS_PER_SECOND < t <= Ticks(ToSeconds(t)) <= 0
    ensures t % TICKS_PER_SECOND == 0 ==> Ticks(ToSeconds(t)) == t
  {
  }

  lemma SecondsOfWhole(seconds: int)
    ensures ToSeconds(Ticks(seconds)) == seconds && Ticks(seconds) % TICKS_PER_SECOND == 0
  {
  }

  function WholeSession(s: Session): Session {
    s.(createdAt := Whole(s.createdAt), expiresAt := Whole(s.expiresAt),
       refreshExpiresAt := Whole(s.refreshExpiresAt), lastSeen := Whole(s.lastSeen))
  }

  //////////////////// Rows ////////////////////

  /** Derives a label from user agent and address; it always finds something to say. */
  type Labeler = f: (string, string) -> string | forall a, b :: f(a, b) != "" witness (a: string, b: string) => "?"

  function ToRow(h: Hash, s: Session): SessionRow {
    SessionRow(h, s.username, ToSeconds(s.createdAt), ToSeconds(s.expiresAt),
               Some(ToSeconds(s.refreshExpiresAt)), Some(ToSeconds(s.lastSeen)), s.rememberMe,
               s.refreshHash, s.rotationId, s.userAgent, s.remoteAddress, s.deviceLabel)
  }

  /** The session a row stands for, and whether reading it had to repair something. */
  function FromRow(row: SessionRow, derive: Labeler): (Session, bool) {
    var expires := Ticks(row.expiresAt);
    var stated := Ticks(if row.refreshExpiresAt.Some? then row.refreshExpiresAt.value else row.expiresAt);
    // Rows without a refresh hash expire with the access token.
    var refresh := if row.refreshHash == "" then expires else stated;
    var seen := Ticks(if row.lastSeen.Some? then row.lastSeen.value else row.createdAt);
    (Session(row.username, Ticks(row.createdAt), Min(expires, refresh), refresh,
             row.userAgent, row.remoteAddress, seen, row.rememberMe,
             if row.deviceLabel == "" then derive(row.userAgent, row.remoteAddress) else row.deviceLabel,
             row.refreshHash, row.rotationId),
     row.deviceLabel == "" || expires > refresh)
  }

  /** What every session in memory satisfies. */
  predicate Normal(s: Session) {
    && s.expiresAt <= s.refreshExpiresAt
    && s.deviceLabel != ""
    && (s.refreshHash == "" ==> s.refreshExpiresAt == s.expiresAt)
  }

  /** Which field of a session goes into which field of its row, in whole seconds. */
  lemma RowSays(h: Hash, s: Session)
    ensures var row := ToRow(h, s);
            && row.hash == h && row.username == s.username && row.refreshHash == s.refreshHash
            && row.rotationId == s.rotationId && row.userAgent == s.userAgent && row.remoteAddress == s.remoteAddress
            && row.deviceLabel == s.deviceLabel && row.rememberMe == s.rememberMe
    ensures var row := ToRow(h, s);
            && (s.createdAt >= 0 ==> row.createdAt == s.createdAt / 1_000_000_000)
            && (s.expiresAt >= 0 ==> row.expiresAt == s.expiresAt / 1_000_000_000)
            && (s.refreshExpiresAt >= 0 ==> row.refreshExpiresAt == Some(s.refreshExpiresAt / 1_000_000_000))
            && (s.lastSeen >= 0 ==> row.lastSeen == Some(s.lastSeen / 1_000_000_000))
  {
  }

  /** How a row with gaps is filled up: its label is derived, its last-seen time is its creation,
      it expires with its access deadline if it has no refresh hash or no refresh deadline, and
      no access deadline is later than the refresh deadline. */
  lemma RowReads(row: SessionRow, derive: Labeler)
    ensures var s := FromRow(row, derive).0;
            && s.username == row.username && s.refreshHash == row.refreshHash && s.rotationId == row.rotationId
            && s.userAgent == row.userAgent && s.remoteAddress == row.remoteAddress && s.rememberMe == row.rememberMe
            && s.createdAt == row.createdAt * 1_000_000_000
            && s.deviceLabel == (if row.deviceLabel != "" then row.deviceLabel else derive(row.userAgent, row.remoteAddress))
            && s.lastSeen == (match row.lastSeen case Some(t) => t * 1_000_000_000 case None => s.createdAt)
            && s.refreshExpiresAt == (if row.refreshHash != "" && row.refreshExpiresAt.Some? then row.refreshExpiresAt.value * 1_000_000_000
                                      else row.expiresAt * 1_000_000_000)
            && s.expiresAt <= s.refreshExpiresAt && s.expiresAt <= row.expiresAt * 1_000_000_000
            && (s.expiresAt == s.refreshExpiresAt || s.expiresAt == row.expiresAt * 1_000_000_000)
    ensures FromRow(row, derive).1 <==>
              row.deviceLabel == "" || row.expiresAt * 1_000_000_000 > FromRow(row, derive).0.refreshExpiresAt
  {
  }

  predicate AllNormal(sessions: map<Hash, Session>) {
    forall h | h in sessions :: h != "" && Normal(sessions[h])
  }

  /** A row written for a session reads back as that session up to whole seconds. */
  lemma RowRoundTrip(h: Hash, s: Session, derive: Labeler)
    requires Normal(s)
    ensures FromRow(ToRow(h, s), derive) == (WholeSession(s), false)
  {
  }

  lemma RowsAreNormal(row: SessionRow, derive: Labeler)
    ensures Normal(FromRow(row, derive).0)
  {
  }

  //////////////////// Loading ////////////////////

  /** One iteration of the load: rows without hash and expired rows are skipped, and
      the first row with a given hash wins; a repair is remembered even if the row is skipped. */
  function LoadRow(st: Store, row: SessionRow, now: int, derive: Labeler): Store {
    if row.hash == "" then st
    else
      var (s, repaired) := FromRow(row, derive);
      var dirty := st.dirty || repaired;
      if Expired(s, now) || row.hash in st.sessions then st.(dirty := dirty)
      else Store(st.sessions[row.hash := s],
                 if s.refreshHash == "" then st.index else st.index[s.refreshHash := row.hash],
                 dirty)
  }

  function LoadRows(rows: seq<SessionRow>, now: int, derive: Labeler): Store {
    if rows == [] then Empty
    else LoadRow(LoadRows(rows[..|rows| - 1], now, derive), rows[|rows| - 1], now, derive)
  }

  /** A load that cannot read the file leaves an empty, clean store. */
  function Load(disk: Disk, readable: bool, now: int, derive: Labeler): Store {
    if disk.Present? && readable then LoadRows(disk.root.sessions, now, derive) else Empty
  }

  predicate DistinctHashes(rows: seq<SessionRow>) {
    forall i, j | 0 <= i < j < |rows| :: rows[i].hash != rows[j].hash
  }

  predicate DistinctRefreshHashes(sessions: map<Hash, Session>) {
    forall g, h | g in sessions && h in sessions && sessions[g].refreshHash == sessions[h].refreshHash != "" :: g == h
  }

  /** Whatever the file holds, the loaded index is sound, and it is the full inverse
      of the sessions exactly when the loaded refresh hashes are distinct. */
  lemma {:induction false} LoadedIndex(rows: seq<SessionRow>, now: int, derive: Labeler)
    ensures var st := LoadRows(rows, now, derive);
            && IndexSound(st)
            && AllNormal(st.sessions)
            && (Inverse(st) <==> DistinctRefreshHashes(st.sessions))
  {
    LoadedIndexCovers(rows, now, derive);
    var st := LoadRows(rows, now, derive);
    if DistinctRefreshHashes(st.sessions) {
      forall h | h in st.sessions && st.sessions[h].refreshHash != ""
        ensures st.index[st.sessions[h].refreshHash] == h
      {
        var g := st.index[st.sessions[h].refreshHash];
        assert st.sessions[g].refreshHash == st.sessions[h].refreshHash;
      }
    }
  }

  /** The index points to sessions, and every refresh hash is in it. */
  ghost predicate Covering(st: Store) {
    && IndexSound(st)
    && AllNormal(st.sessions)
    && forall h | h in st.sessions && st.sessions[h].refreshHash != "" :: st.sessions[h].refreshHash in st.index
  }

  lemma {:induction false} LoadedIndexCovers(rows: seq<SessionRow>, now: int, derive: Labeler)
    ensures Covering(LoadRows(rows, now, derive))
  {
    if rows != [] {
      hide Covering, LoadRow;
      LoadedIndexCovers(rows[..|rows| - 1], now, derive);
      LoadRowCovers(LoadRows(rows[..|rows| - 1], now, derive), rows[|rows| - 1], now, derive);
    }
  }

  lemma LoadRowCovers(st: Store, row: SessionRow, now: int, derive: Labeler)
    requires Covering(st)
    ensures Covering(LoadRow(st, row, now, derive))
  {
    hide FromRow, Normal, Expired;
    RowsAreNormal(row, derive);
  }

  ghost predicate Mentions(rows: seq<SessionRow>, h: Hash) {
    exists i :: 0 <= i < |rows| && rows[i].hash == h
  }

  /** `row` made it into `st` exactly when it is not expired, and as it reads. */
  predicate RowLoaded(st: Store, row: SessionRow, now: int, derive: Labeler) {
    var s := FromRow(row, derive).0;
    if Expired(s, now) then row.hash !in st.sessions
    else row.hash in st.sessions && st.sessions[row.hash] == s
  }

  lemma {:induction false} LoadedHashesAreMentioned(rows: seq<SessionRow>, now: int, derive: Labeler, h: Hash)
    requires h in LoadRows(rows, now, derive).sessions
    ensures h != "" && Mentions(rows, h)
  {
    if rows != [] {
      var init := rows[..|rows| - 1];
      if h in LoadRows(init, now, derive).sessions {
        LoadedHashesAreMentioned(init, now, derive, h);
        var i :| 0 <= i < |init| && init[i].hash == h;
        assert rows[i].hash == h;
      } else {
        assert rows[|rows| - 1].hash == h;
      }
    }
  }

  /** With distinct row hashes, exactly the unexpired rows are loaded, each as it reads. */
  lemma {:induction false} LoadedSessions(rows: seq<SessionRow>, now: int, derive: Labeler, i: nat)
    requires DistinctHashes(rows) && i < |rows| && rows[i].hash != ""
    ensures RowLoaded(LoadRows(rows, now, derive), rows[i], now, derive)
  {
    var init := rows[..|rows| - 1];
    var before := LoadRows(init, now, derive);
    if i < |init| {
      assert init[i] == rows[i];
      LoadedSessions(init, now, derive, i);
    } else {
      assert !Mentions(init, rows[i].hash);
      if rows[i].hash in before.sessions {
        LoadedHashesAreMentioned(init, now, derive, rows[i].hash);
      }
    }
  }

  /** A load asks to be saved again exactly when some row had to be repaired. */
  lemma {:induction false} LoadedRepairs(rows: seq<SessionRow>, now: int, derive: Labeler)
    ensures LoadRows(rows, now, derive).dirty <==>
            exists i :: 0 <= i < |rows| && rows[i].hash != "" && FromRow(rows[i], derive).1
  {
    if rows != [] {
      var init := rows[..|rows| - 1];
      LoadedRepairs(init, now, derive);
      assert forall i | 0 <= i < |init| :: init[i] == rows[i];
      var before := LoadRows(init, now, derive);
      var last := rows[|rows| - 1];
      assert LoadRows(rows, now, derive).dirty <==> before.dirty || (last.hash != "" && FromRow(last, derive).1);
    }
  }

  //////////////////// Saving ////////////////////

  /** `rows` lists every session exactly once, in some order. */
  ghost predicate Lists(rows: seq<SessionRow>, sessions: map<Hash, Session>) {
    && DistinctHashes(rows)
    && (forall i | 0 <= i < |rows| :: rows[i].hash in sessions && rows[i] == ToRow(rows[i].hash, sessions[rows[i].hash]))
    && (forall h | h in sessions :: exists i :: 0 <= i < |rows| && rows[i].hash == h)
  }

  /** One save, from the store and file before it to the store and file after it.
      A clean store writes nothing; a failed save leaves the store dirty. */
  ghost predicate Saved(st: Store, disk: Disk, io: Io, st': Store, disk': Disk) {
    if !st.dirty then
      st' == st && disk' == disk
    else if SaveSucceeds(disk, io) then
      && st' == st.(dirty := false)
      && disk'.Present?
      && Lists(disk'.root.sessions, st.sessions)
      && disk'.root == ReadForUpdate(disk, io).value.(sessions := disk'.root.sessions)
    else
      && st' == st
      && disk' == AfterFailure(disk, io)
  }

  //////////////////// Save, then load ////////////////////

  /** The sessions that are still alive at `now` once cut down to whole seconds. */
  function WholeLive(sessions: map<Hash, Session>, now: int): map<Hash, Session> {
    map h | h in sessions && !Expired(WholeSession(sessions[h]), now) :: WholeSession(sessions[h])
  }

  lemma InverseDeterminesIndex(a: Store, b: Store)
    requires a.sessions == b.sessions && Inverse(a) && Inverse(b)
    ensures a.index == b.index
  {
  }

  lemma ListedRowsAreWhole(rows: seq<SessionRow>, sessions: map<Hash, Session>, derive: Labeler, i: nat)
    requires Lists(rows, sessions) && AllNormal(sessions) && i < |rows|
    ensures rows[i].hash != "" && FromRow(rows[i], derive) == (WholeSession(sessions[rows[i].hash]), false)
  {
    RowRoundTrip(rows[i].hash, sessions[rows[i].hash], derive);
  }

  lemma ReloadGivesSession(rows: seq<SessionRow>, sessions: map<Hash, Session>, now: int, derive: Labeler, h: Hash)
    requires Lists(rows, sessions) && AllNormal(sessions) && h in sessions
    ensures var loaded := LoadRows(rows, now, derive).sessions;
            if Expired(WholeSession(sessions[h]), now) then h !in loaded
            else h in loaded && loaded[h] == WholeSession(sessions[h])
  {
    var i :| 0 <= i < |rows| && rows[i].hash == h;
    ListedRowsAreWhole(rows, sessions, derive, i);
    LoadedSessions(rows, now, derive, i);
  }

  lemma ReloadGivesSessions(rows: seq<SessionRow>, sessions: map<Hash, Session>, now: int, derive: Labeler)
    requires Lists(rows, sessions) && AllNormal(sessions)
    ensures LoadRows(rows, now, derive).sessions == WholeLive(sessions, now)
  {
    var loaded := LoadRows(rows, now, derive).sessions;
    var live := WholeLive(sessions, now);
    forall h
      ensures h in loaded <==> h in live
      ensures h in live ==> loaded[h] == live[h]
    {
      if h in sessions { ReloadGivesSession(rows, sessions, now, derive, h); }
      if h in loaded {
        LoadedHashesAreMentioned(rows, now, derive, h);
        assert h in sessions;
      }
    }
  }

  lemma ReloadNeedsNoRepair(rows: seq<SessionRow>, sessions: map<Hash, Session>, now: int, derive: Labeler)
    requires Lists(rows, sessions) && AllNormal(sessions)
    ensures !LoadRows(rows, now, derive).dirty
  {
    LoadedRepairs(rows, now, derive);
    if i :| 0 <= i < |rows| && rows[i].hash != "" && FromRow(rows[i], derive).1 {
      ListedRowsAreWhole(rows, sessions, derive, i);
    }
  }

  /** Loading what a save wrote gives the sessions in memory, cut down to whole
      seconds and without those expired by then, with the index restricted to them,
      and asks for no repair. The order in which rows were written does not matter. */
  lemma ReloadGivesMemory(rows: seq<SessionRow>, st: Store, now: int, derive: Labeler)
    requires Lists(rows, st.sessions) && Inverse(st) && AllNormal(st.sessions)
    ensures var live := WholeLive(st.sessions, now);
            LoadRows(rows, now, derive) == Store(live, map r | r in st.index && st.index[r] in live :: st.index[r], false)
  {
    var live := WholeLive(st.sessions, now);
    var loaded := LoadRows(rows, now, derive);
    ReloadGivesSessions(rows, st.sessions, now, derive);
    ReloadNeedsNoRepair(rows, st.sessions, now, derive);
    LoadedIndex(rows, now, derive);
    assert DistinctRefreshHashes(live) by {
      forall g, h | g in live && h in live && live[g].refreshHash == live[h].refreshHash != "" ensures g == h {
        assert st.index[st.sessions[g].refreshHash] == g;
      }
    }
    var expected := Store(live, map r | r in st.index && st.index[r] in live :: st.index[r], false);
    InverseDeterminesIndex(loaded, expected);
  }
}
