/** Runs of the session token store together with its state file. One event is one
    critical section of the program, so events of concurrent requests interleave
    freely; only saves are serialized against each other. The file is loaded when the
    program starts, so a load also ends whatever the process before it was doing. */
module SessionRuns {

  import opened Wrappers
  import opened SessionStore
  import opened StateFile
  import opened SessionFile

  /** What a login fixed for every session that descends from it. */
  datatype Login = Login(username: string, rememberMe: bool, deadline: int)

  /** What a session hash stands for from the moment it is minted. */
  datatype Origin = Origin(login: Login, refreshHash: Hash, expiresAt: int)

  /** Ghost bookkeeping: every hash ever handed out, and the origin of each session hash. */
  datatype History = History(issued: set<Hash>, origin: map<Hash, Origin>)

  /** `saving` is the snapshot of a save that has begun and not yet written. */
  datatype World = World(
    st: Store,
    disk: Disk,
    saving: Option<map<Hash, Session>>,
    hist: History,
    loadedAt: int)

  datatype Event =
    | IssueE(username: string, sessionTtl: int, refreshTtl: int, rememberMe: bool, cfg: Lifetimes,
             client: Client, minted: Minted, now: int)
    | RefreshE(r: Hash, client: Client, minted: Minted, sessionTtl: int, now: int)
    | TouchE(h: Hash, now: int)
    | RevokeE(h: Hash)
    | CleanupE(now: int)
    | SaveBegin
    | SaveEnd(io: Io)
    | LoadE(now: int, readable: bool)
    | TokensE(io: Io)

  /** The random generator returned something never seen before. */
  predicate FreshEver(hist: History, minted: Minted) {
    && minted.sessionHash !in hist.issued && minted.sessionHash != ""
    && minted.refreshHash !in hist.issued && minted.refreshHash != ""
  }

  /** A new pair is on record; its origin only where there is something to trace it to. */
  function Minting(hist: History, minted: Minted, login: Option<Login>, expiresAt: int): History {
    History(hist.issued + {minted.sessionHash, minted.refreshHash},
            if login.None? then hist.origin
            else hist.origin[minted.sessionHash := Origin(login.value, minted.refreshHash, expiresAt)])
  }

  function LoginOf(hist: History, h: Hash): Option<Login> {
    if h in hist.origin then Some(hist.origin[h].login) else None
  }

  ghost predicate Next(w: World, e: Event, w': World, derive: Labeler) {
    match e
    case IssueE(username, sessionTtl, refreshTtl, rememberMe, cfg, client, minted, now) =>
      var st := Issue(w.st, username, sessionTtl, refreshTtl, rememberMe, cfg, client, minted, now);
      var s := st.sessions[minted.sessionHash];
      && FreshEver(w.hist, minted) && client.deviceLabel != "" && 0 <= now
      && w' == w.(st := st, hist := Minting(w.hist, minted, Some(Login(username, rememberMe, s.refreshExpiresAt)), s.expiresAt))
    case RefreshE(r, client, minted, sessionTtl, now) =>
      && FreshEver(w.hist, minted) && client.deviceLabel != ""
      && w' == w.(st := Refresh(w.st, r, client, minted, sessionTtl, now),
                  hist := if !Redeemable(w.st, r, now) then w.hist
                          else
                            var prev := w.st.index[r];
                            Minting(w.hist, minted, LoginOf(w.hist, prev),
                                    Successor(w.st.sessions[prev], client, minted, sessionTtl, now).expiresAt))
    case TouchE(h, now) => w' == w.(st := Touch(w.st, h, now))
    case RevokeE(h) => w' == w.(st := Revoke(w.st, h))
    case CleanupE(now) => w' == w.(st := Cleanup(w.st, now))
    case SaveBegin =>
      && w.saving.None?
      && w' == if w.st.dirty then w.(st := w.st.(dirty := false), saving := Some(w.st.sessions)) else w
    case SaveEnd(io) =>
      && w.saving.Some?
      && w' == w.(st := w'.st, disk := w'.disk, saving := None)
      && if SaveSucceeds(w.disk, io) then
           && w'.st == w.st && w'.disk.Present?
           && Lists(w'.disk.root.sessions, w.saving.value)
           && w'.disk.root == ReadForUpdate(w.disk, io).value.(sessions := w'.disk.root.sessions)
         else w'.st == w.st.(dirty := true) && w'.disk == AfterFailure(w.disk, io)
    case LoadE(now, readable) =>
      // A start of the program: memory and a pending snapshot went with the process before it.
      w' == w.(st := Load(w.disk, readable, now, derive), saving := None, loadedAt := now)
    case TokensE(io) =>
      // The API token store rewrites its own subtree, or fails to.
      && w' == w.(disk := w'.disk)
      && if SaveSucceeds(w.disk, io) then
           w'.disk.Present? && w'.disk.root == ReadForUpdate(w.disk, io).value.(tokens := w'.disk.root.tokens)
         else w'.disk == AfterFailure(w.disk, io)
  }

  //////////////////// What holds in every world ////////////////////

  predicate Inherits(s: Session, o: Origin) {
    && s.username == o.login.username
    && s.rememberMe == o.login.rememberMe
    && s.refreshHash == o.refreshHash
    && s.refreshExpiresAt <= o.login.deadline
    && Whole(s.refreshExpiresAt) == Whole(o.login.deadline)
    && Storable(s.refreshExpiresAt)
    && Whole(s.expiresAt) == Whole(o.expiresAt)
  }

  predicate Known(hist: History, h: Hash) { h == "" || h in hist.issued }

  /** Origins are on record for issued hashes only, and no two share a refresh hash. */
  predicate Traceable(hist: History) {
    && (forall h | h in hist.origin :: h in hist.issued && Known(hist, hist.origin[h].refreshHash))
    && (forall g, h | g in hist.origin && h in hist.origin &&
          hist.origin[g].refreshHash == hist.origin[h].refreshHash != "" :: g == h)
  }

  /** A set of sessions all of which have their origin on record and respect it. */
  predicate Good(sessions: map<Hash, Session>, hist: History) {
    AllNormal(sessions) && forall h | h in sessions :: h in hist.origin && Inherits(sessions[h], hist.origin[h])
  }

  predicate GoodRow(row: SessionRow, hist: History, derive: Labeler) {
    row.hash != "" ==> row.hash in hist.origin && Inherits(FromRow(row, derive).0, hist.origin[row.hash])
  }

  predicate GoodRows(rows: seq<SessionRow>, hist: History, derive: Labeler) {
    DistinctHashes(rows) && forall i | 0 <= i < |rows| :: GoodRow(rows[i], hist, derive)
  }

  predicate Clean(w: World) { !w.st.dirty && w.saving.None? }

  /** The invariant of every run: the index is the inverse of the sessions, and memory,
      pending snapshot and file hold only sessions that respect their origin. */
  ghost predicate Invariant(w: World, derive: Labeler) {
    && Inverse(w.st)
    && Traceable(w.hist)
    && Good(w.st.sessions, w.hist)
    && (w.saving.Some? ==> Good(w.saving.value, w.hist))
    && (w.saving.Some? && !w.st.dirty ==> w.saving.value == w.st.sessions)
    && GoodRows(SessionRows(w.disk), w.hist, derive)
  }

  /** A reload at any later time would give what memory holds, up to whole seconds. */
  ghost predicate Synced(w: World, derive: Labeler) {
    Clean(w) ==>
      forall now | w.loadedAt <= now ::
        LoadRows(SessionRows(w.disk), now, derive).sessions == WholeLive(w.st.sessions, now)
  }

  /** A program start: the file an earlier run left has just been loaded. */
  ghost predicate Init(w: World, derive: Labeler) {
    && w.saving.None?
    && w.st == Load(w.disk, true, w.loadedAt, derive)
    && Traceable(w.hist)
    && GoodRows(SessionRows(w.disk), w.hist, derive)
  }

  //////////////////// Good session sets ////////////////////

  /** History only ever adds: nothing issued is forgotten and no origin changes. */
  predicate Extends(hist: History, hist': History) {
    hist.issued <= hist'.issued && forall h | h in hist.origin :: h in hist'.origin && hist'.origin[h] == hist.origin[h]
  }

  lemma GoodIsKept(sessions: map<Hash, Session>, less: map<Hash, Session>, hist: History, hist': History)
    requires Good(sessions, hist) && Extends(hist, hist')
    requires forall h | h in less :: h in sessions && less[h] == sessions[h].(lastSeen := less[h].lastSeen)
    ensures Good(less, hist')
  {
  }

  lemma GoodRowsAreKept(rows: seq<SessionRow>, hist: History, hist': History, derive: Labeler)
    requires GoodRows(rows, hist, derive) && Extends(hist, hist')
    ensures GoodRows(rows, hist', derive)
  {
    hide FromRow, Inherits;
    forall i | 0 <= i < |rows| ensures GoodRow(rows[i], hist', derive) { assert GoodRow(rows[i], hist, derive); }
  }

  lemma MintingExtends(hist: History, minted: Minted, login: Option<Login>, expiresAt: int)
    requires Traceable(hist) && FreshEver(hist, minted)
    ensures Extends(hist, Minting(hist, minted, login, expiresAt)) && Traceable(Minting(hist, minted, login, expiresAt))
  {
  }

  lemma GoodInsert(sessions: map<Hash, Session>, hist: History, minted: Minted, s: Session, login: Login)
    requires Traceable(hist) && Good(sessions, hist) && FreshEver(hist, minted)
    requires Normal(s) && Inherits(s, Origin(login, minted.refreshHash, s.expiresAt))
    ensures Good(sessions[minted.sessionHash := s], Minting(hist, minted, Some(login), s.expiresAt))
  {
    hide Inherits, Normal;
  }

  lemma GoodHashesAreDistinct(sessions: map<Hash, Session>, hist: History)
    requires Traceable(hist) && Good(sessions, hist)
    ensures DistinctRefreshHashes(sessions)
  {
  }

  /** What a save lists is as good as the sessions it lists. */
  lemma ListedRowsAreGood(rows: seq<SessionRow>, sessions: map<Hash, Session>, hist: History, derive: Labeler)
    requires Lists(rows, sessions) && Good(sessions, hist)
    ensures GoodRows(rows, hist, derive)
  {
    hide FromRow, Inherits;
    forall i | 0 <= i < |rows| ensures GoodRow(rows[i], hist, derive) {
      ListedRowsAreWhole(rows, sessions, derive, i);
      WholeInherits(sessions[rows[i].hash], hist.origin[rows[i].hash]);
    }
  }

  lemma WholeInherits(s: Session, o: Origin)
    requires Inherits(s, o)
    ensures Inherits(WholeSession(s), o)
  {
    hide Whole, Storable;
    WholeFacts(s.refreshExpiresAt, s.refreshExpiresAt);
    WholeFacts(s.expiresAt, s.expiresAt);
  }

  /** What a load reads from good rows is a good set of sessions. */
  lemma LoadedSessionsAreGood(rows: seq<SessionRow>, now: int, hist: History, derive: Labeler)
    requires Traceable(hist) && GoodRows(rows, hist, derive)
    ensures Good(LoadRows(rows, now, derive).sessions, hist)
    ensures Inverse(LoadRows(rows, now, derive))
  {
    hide FromRow, Inherits, LoadRows, Traceable;
    var loaded := LoadRows(rows, now, derive);
    LoadedIndex(rows, now, derive);
    forall h | h in loaded.sessions ensures h in hist.origin && Inherits(loaded.sessions[h], hist.origin[h]) {
      LoadedHashesAreMentioned(rows, now, derive, h);
      var i :| 0 <= i < |rows| && rows[i].hash == h;
      LoadedSessions(rows, now, derive, i);
      assert GoodRow(rows[i], hist, derive);
    }
    GoodHashesAreDistinct(loaded.sessions, hist);
  }

  //////////////////// One step ////////////////////

  lemma StepExtendsHistory(w: World, e: Event, w': World, derive: Labeler)
    requires Traceable(w.hist) && Next(w, e, w', derive)
    ensures Extends(w.hist, w'.hist) && Traceable(w'.hist)
  {
    hide Traceable, Refresh, Load, FreshEver;
    match e
    case IssueE(username, _, _, rememberMe, _, _, minted, _) =>
      var s := w'.st.sessions[minted.sessionHash];
      MintingExtends(w.hist, minted, Some(Login(username, rememberMe, s.refreshExpiresAt)), s.expiresAt);
    case RefreshE(r, client, minted, sessionTtl, now) =>
      if Redeemable(w.st, r, now) {
        var prev := w.st.index[r];
        MintingExtends(w.hist, minted, LoginOf(w.hist, prev), Successor(w.st.sessions[prev], client, minted, sessionTtl, now).expiresAt);
      }
    case _ =>
  }

  /** In memory, every operation keeps the sessions good and the index inverse to them. */
  lemma StepKeepsMemory(w: World, e: Event, w': World, derive: Labeler)
    requires Invariant(w, derive) && Next(w, e, w', derive)
    ensures Inverse(w'.st) && Good(w'.st.sessions, w'.hist)
  {
    hide Inverse, Good, Next;
    match e
    case IssueE(_, _, _, _, _, _, _, _) => IssueKeepsMemory(w, e, w', derive);
    case RefreshE(r, client, minted, sessionTtl, now) =>
      RefreshKeepsMemory(w, r, client, minted, sessionTtl, now, w', derive);
    case TouchE(_, _) => DroppingKeepsMemory(w, e, w', derive);
    case RevokeE(_) => DroppingKeepsMemory(w, e, w', derive);
    case CleanupE(_) => DroppingKeepsMemory(w, e, w', derive);
    case LoadE(now, readable) => LoadKeepsMemory(w, e, w', derive);
    case _ => SavingKeepsMemory(w, e, w', derive);
  }

  lemma DroppingKeepsMemory(w: World, e: Event, w': World, derive: Labeler)
    requires Invariant(w, derive) && Next(w, e, w', derive) && (e.TouchE? || e.RevokeE? || e.CleanupE?)
    ensures Inverse(w'.st) && Good(w'.st.sessions, w'.hist)
  {
    hide Inherits, GoodRows, Traceable, Good;
    DropAllKeepsInverse(w.st, if e.CleanupE? then ExpiredHashes(w.st, e.now) else {e.h});
    GoodIsKept(w.st.sessions, w'.st.sessions, w.hist, w'.hist);
  }

  lemma LoadKeepsMemory(w: World, e: Event, w': World, derive: Labeler)
    requires Invariant(w, derive) && Next(w, e, w', derive) && e.LoadE?
    ensures Inverse(w'.st) && Good(w'.st.sessions, w'.hist)
  {
    if w.disk.Present? && e.readable { LoadedSessionsAreGood(w.disk.root.sessions, e.now, w.hist, derive); }
  }

  lemma SavingKeepsMemory(w: World, e: Event, w': World, derive: Labeler)
    requires Invariant(w, derive) && Next(w, e, w', derive) && (e.SaveBegin? || e.SaveEnd? || e.TokensE?)
    ensures Inverse(w'.st) && Good(w'.st.sessions, w'.hist)
  {
  }

  lemma IssueKeepsMemory(w: World, e: Event, w': World, derive: Labeler)
    requires Invariant(w, derive) && Next(w, e, w', derive) && e.IssueE?
    ensures Inverse(w'.st) && Good(w'.st.sessions, w'.hist)
  {
    var s := w'.st.sessions[e.minted.sessionHash];
    FreshHashesAreUnused(w, e.minted);
    InsertKeepsInverse(w.st, e.minted.sessionHash, s);
    GoodInsert(w.st.sessions, w.hist, e.minted, s, Login(e.username, e.rememberMe, s.refreshExpiresAt));
  }

  lemma FreshHashesAreUnused(w: World, minted: Minted)
    requires Inverse(w.st) && Traceable(w.hist) && Good(w.st.sessions, w.hist) && FreshEver(w.hist, minted)
    ensures FreshFor(w.st, minted)
  {
  }

  lemma RefreshKeepsMemory(w: World, r: Hash, client: Client, minted: Minted, sessionTtl: int, now: int, w': World, derive: Labeler)
    requires Invariant(w, derive) && Next(w, RefreshE(r, client, minted, sessionTtl, now), w', derive)
    ensures Inverse(w'.st) && Good(w'.st.sessions, w'.hist)
  {
    FreshHashesAreUnused(w, minted);
    RefreshDecomposes(w.st, r, client, minted, sessionTtl, now);
    if r in w.st.index {
      var h := w.st.index[r];
      var dropped := DropAll(w.st, {h});
      DropAllKeepsInverse(w.st, {h});
      GoodIsKept(w.st.sessions, dropped.sessions, w.hist, w.hist);
      if !Expired(w.st.sessions[h], now) {
        var s := Successor(w.st.sessions[h], client, minted, sessionTtl, now);
        InsertKeepsInverse(dropped, minted.sessionHash, s);
        GoodInsert(dropped.sessions, w.hist, minted, s, w.hist.origin[h].login);
      }
    }
  }

  lemma StepKeepsInvariant(w: World, e: Event, w': World, derive: Labeler)
    requires Invariant(w, derive) && Next(w, e, w', derive)
    ensures Invariant(w', derive)
  {
    StepExtendsHistory(w, e, w', derive);
    StepKeepsMemory(w, e, w', derive);
    StepKeepsFile(w, e, w', derive);
    StepKeepsSnapshot(w, e, w', derive);
  }

  lemma StepKeepsFile(w: World, e: Event, w': World, derive: Labeler)
    requires Invariant(w, derive) && Next(w, e, w', derive) && Extends(w.hist, w'.hist)
    ensures GoodRows(SessionRows(w'.disk), w'.hist, derive)
  {
    hide GoodRows, Good, Inverse, Lists, Load, Refresh, Issue, Extends;
    GoodRowsAreKept(SessionRows(w.disk), w.hist, w'.hist, derive);
    NoRowsAreGood(w'.hist, derive);
    if e.SaveEnd? && SaveSucceeds(w.disk, e.io) {
      ListedRowsAreGood(w'.disk.root.sessions, w.saving.value, w.hist, derive);
    }
  }

  lemma NoRowsAreGood(hist: History, derive: Labeler)
    ensures GoodRows([], hist, derive)
  {
  }

  lemma StepKeepsSnapshot(w: World, e: Event, w': World, derive: Labeler)
    requires Invariant(w, derive) && Next(w, e, w', derive) && Extends(w.hist, w'.hist)
    ensures w'.saving.Some? ==> Good(w'.saving.value, w'.hist)
    ensures w'.saving.Some? && !w'.st.dirty ==> w'.saving.value == w'.st.sessions
  {
    hide GoodRows, Good, Inverse, Lists, Load, Extends;
    if w.saving.Some? { GoodIsKept(w.saving.value, w.saving.value, w.hist, w'.hist); }
  }

  /** Even from a file whose rows share refresh hashes, every index entry keeps pointing
      to a live session that carries it, so the dangling branch of a refresh stays dead. */
  lemma StepKeepsIndexSound(w: World, e: Event, w': World, derive: Labeler)
    requires IndexSound(w.st) && Next(w, e, w', derive)
    requires e.IssueE? || e.RefreshE? ==> FreshFor(w.st, e.minted)
    ensures IndexSound(w'.st)
  {
    match e
    case IssueE(_, _, _, _, _, _, minted, _) =>
      InsertKeepsInverse(w.st, minted.sessionHash, w'.st.sessions[minted.sessionHash]);
    case RefreshE(r, client, minted, sessionTtl, now) =>
      OperationsKeepInverse(w.st, "", r, client, minted, sessionTtl, now);
    case TouchE(h, now) => DropAllKeepsInverse(w.st, {h});
    case RevokeE(h) => DropAllKeepsInverse(w.st, {h});
    case CleanupE(now) => DropAllKeepsInverse(w.st, ExpiredHashes(w.st, now));
    case LoadE(now, _) => LoadedIndexCovers(SessionRows(w.disk), now, derive);
    case _ =>
  }

  /** One call of the saving method is the two events of a save in a row. */
  lemma SaveIsTwoEvents(w: World, io: Io, st': Store, disk': Disk, derive: Labeler)
    requires w.saving.None? && w.st.dirty && Saved(w.st, w.disk, io, st', disk')
    ensures exists mid :: Next(w, SaveBegin, mid, derive) && Next(mid, SaveEnd(io), w.(st := st', disk := disk'), derive)
  {
    var mid := w.(st := w.st.(dirty := false), saving := Some(w.st.sessions));
    assert Next(w, SaveBegin, mid, derive) && Next(mid, SaveEnd(io), w.(st := st', disk := disk'), derive);
  }

  /** The file is damaged or unreadable only when something outside this store goes wrong. */
  predicate FileStaysReadable(e: Event, w': World) {
    (e.LoadE? ==> e.readable) && (e.TokensE? ==> w'.disk != Corrupt)
  }

  lemma StepKeepsSynced(w: World, e: Event, w': World, derive: Labeler)
    requires Invariant(w, derive) && Synced(w, derive) && Next(w, e, w', derive) && FileStaysReadable(e, w')
    ensures Synced(w', derive)
  {
    match e
    case LoadE(now, _) => LoadSyncs(SessionRows(w.disk), now, derive);
    case SaveEnd(io) =>
      if SaveSucceeds(w.disk, io) && Clean(w') {
        SaveSyncs(w'.disk.root.sessions, w.saving.value, derive);
      }
    case _ => OtherStepsLeaveCleanAlone(w, e, w', derive);
  }

  /** Apart from loads and finished saves, a step that ends clean has changed nothing that counts. */
  lemma OtherStepsLeaveCleanAlone(w: World, e: Event, w': World, derive: Labeler)
    requires Next(w, e, w', derive) && FileStaysReadable(e, w') && !e.LoadE? && !e.SaveEnd?
    ensures Clean(w') ==>
              Clean(w) && w'.st == w.st && w'.loadedAt == w.loadedAt && SessionRows(w'.disk) == SessionRows(w.disk)
  {
  }

  lemma SaveSyncs(rows: seq<SessionRow>, sessions: map<Hash, Session>, derive: Labeler)
    requires Lists(rows, sessions) && AllNormal(sessions)
    ensures forall now :: LoadRows(rows, now, derive).sessions == WholeLive(sessions, now)
  {
    forall now ensures LoadRows(rows, now, derive).sessions == WholeLive(sessions, now) {
      ReloadGivesSessions(rows, sessions, now, derive);
    }
  }

  /** Loading the same rows later gives what is then left of an earlier load. */
  lemma LoadSyncs(rows: seq<SessionRow>, at: int, derive: Labeler)
    requires DistinctHashes(rows)
    ensures forall now | at <= now ::
              LoadRows(rows, now, derive).sessions == WholeLive(LoadRows(rows, at, derive).sessions, now)
  {
    forall now | at <= now
      ensures LoadRows(rows, now, derive).sessions == WholeLive(LoadRows(rows, at, derive).sessions, now)
    {
      var earlier, later := LoadRows(rows, at, derive).sessions, LoadRows(rows, now, derive).sessions;
      forall h ensures h in later <==> h in WholeLive(earlier, now)
               ensures h in later ==> later[h] == WholeLive(earlier, now)[h]
      {
        if h in later { LoadedHashesAreMentioned(rows, now, derive, h); }
        if h in earlier { LoadedHashesAreMentioned(rows, at, derive, h); }
        if i :| 0 <= i < |rows| && rows[i].hash == h && h != "" {
          LoadedSessions(rows, now, derive, i);
          LoadedSessions(rows, at, derive, i);
          RowsAreWhole(rows[i], derive);
        }
      }
    }
  }

  lemma RowsAreWhole(row: SessionRow, derive: Labeler)
    ensures WholeSession(FromRow(row, derive).0) == FromRow(row, derive).0
  {
  }

  //////////////////// Whole runs ////////////////////

  ghost predicate Steps(ws: seq<World>, es: seq<Event>, derive: Labeler) {
    |ws| == |es| + 1 && forall i | 0 <= i < |es| :: Next(ws[i], es[i], ws[i + 1], derive)
  }

  ghost predicate IsRun(ws: seq<World>, es: seq<Event>, derive: Labeler) {
    Steps(ws, es, derive) && Init(ws[0], derive)
  }

  /** In every state of every run the session map and the refresh index are inverse
      to each other, so no refresh ever meets an index entry without a session. */
  lemma {:induction false} RunKeepsInvariant(ws: seq<World>, es: seq<Event>, derive: Labeler, k: nat)
    requires IsRun(ws, es, derive) && k <= |es|
    ensures Invariant(ws[k], derive)
  {
    if k == 0 {
      LoadedSessionsAreGood(SessionRows(ws[0].disk), ws[0].loadedAt, ws[0].hist, derive);
    } else {
      RunKeepsInvariant(ws, es, derive, k - 1);
      StepKeepsInvariant(ws[k - 1], es[k - 1], ws[k], derive);
    }
  }

  /** `login` is what step `i` of the run fixed by issuing a token pair. */
  ghost predicate FixedAt(ws: seq<World>, es: seq<Event>, login: Login, i: nat) {
    && i < |es| && i + 1 < |ws| && es[i].IssueE?
    && es[i].minted.sessionHash in ws[i + 1].st.sessions
    && login == Login(es[i].username, es[i].rememberMe, ws[i + 1].st.sessions[es[i].minted.sessionHash].refreshExpiresAt)
  }

  /** Every login on record at step `k` was there at the start or fixed by an earlier issue. */
  ghost predicate Accounted(ws: seq<World>, es: seq<Event>, login: Login, k: nat)
    requires 0 < |ws|
  {
    || (exists h :: h in ws[0].hist.origin && ws[0].hist.origin[h].login == login)
    || exists i: nat :: i < k && FixedAt(ws, es, login, i)
  }

  lemma {:induction false} LoginsAreAccounted(ws: seq<World>, es: seq<Event>, derive: Labeler, k: nat, h: Hash)
    requires IsRun(ws, es, derive) && k <= |es| && h in ws[k].hist.origin
    ensures Accounted(ws, es, ws[k].hist.origin[h].login, k)
  {
    hide Next, Init, FixedAt;
    if k > 0 {
      var login := ws[k].hist.origin[h].login;
      if !FixedAt(ws, es, login, k - 1) {
        assert Next(ws[k - 1], es[k - 1], ws[k], derive);
        var g := LoginIsOlder(ws, es, derive, k, h);
        LoginsAreAccounted(ws, es, derive, k - 1, g);
      }
    }
  }

  /** A login on record after a step that did not fix it was on record before. */
  lemma LoginIsOlder(ws: seq<World>, es: seq<Event>, derive: Labeler, k: nat, h: Hash) returns (g: Hash)
    requires 0 < k <= |es| < |ws| && Next(ws[k - 1], es[k - 1], ws[k], derive) && h in ws[k].hist.origin
    requires !FixedAt(ws, es, ws[k].hist.origin[h].login, k - 1)
    ensures g in ws[k - 1].hist.origin && ws[k - 1].hist.origin[g].login == ws[k].hist.origin[h].login
  {
    var w, e := ws[k - 1], es[k - 1];
    if e.RefreshE? && h == e.minted.sessionHash && Redeemable(w.st, e.r, e.now) && w.st.index[e.r] in w.hist.origin {
      g := w.st.index[e.r];
    } else {
      g := h;
    }
  }

  /** Absolute lifetime: over any interleaving of refreshes, saves and reloads, a session
      keeps the user and the remember-me choice of one login, its refresh deadline is the
      one that login set, never later and at most cut down to whole seconds, and its access
      deadline never exceeds it. */
  lemma AbsoluteLifetime(ws: seq<World>, es: seq<Event>, derive: Labeler, k: nat, h: Hash)
    requires IsRun(ws, es, derive) && k <= |es| && h in ws[k].st.sessions
    ensures h in ws[k].hist.origin
    ensures var s, login := ws[k].st.sessions[h], ws[k].hist.origin[h].login;
            && Accounted(ws, es, login, k)
            && s.username == login.username
            && s.rememberMe == login.rememberMe
            && s.expiresAt <= s.refreshExpiresAt <= login.deadline
            && Whole(s.refreshExpiresAt) == Whole(login.deadline)
  {
    hide IsRun, Accounted;
    RunKeepsInvariant(ws, es, derive, k);
    LoginsAreAccounted(ws, es, derive, k, h);
  }

  lemma {:induction false} RunKeepsSynced(ws: seq<World>, es: seq<Event>, derive: Labeler, k: nat)
    requires IsRun(ws, es, derive) && k <= |es|
    requires forall i | 0 <= i < |es| :: FileStaysReadable(es[i], ws[i + 1])
    ensures Synced(ws[k], derive)
  {
    if k == 0 {
      LoadSyncs(SessionRows(ws[0].disk), ws[0].loadedAt, derive);
    } else {
      RunKeepsSynced(ws, es, derive, k - 1);
      RunKeepsInvariant(ws, es, derive, k - 1);
      StepKeepsSynced(ws[k - 1], es[k - 1], ws[k], derive);
    }
  }

  /** Whenever the store is not dirty and no save is under way, reloading the file at
      any later time gives the live sessions of memory, up to whole seconds, with
      the same refresh index on them. */
  lemma ReloadAgreesWithMemory(ws: seq<World>, es: seq<Event>, derive: Labeler, k: nat, now: int)
    requires IsRun(ws, es, derive) && k <= |es|
    requires forall i | 0 <= i < |es| :: FileStaysReadable(es[i], ws[i + 1])
    requires Clean(ws[k]) && ws[k].loadedAt <= now
    ensures var loaded := Load(ws[k].disk, true, now, derive);
            && loaded.sessions == WholeLive(ws[k].st.sessions, now)
            && loaded.index == map r | r in ws[k].st.index && ws[k].st.index[r] in loaded.sessions :: ws[k].st.index[r]
  {
    RunKeepsSynced(ws, es, derive, k);
    RunKeepsInvariant(ws, es, derive, k);
    LoadedSessionsAreGood(SessionRows(ws[k].disk), now, ws[k].hist, derive);
    var loaded := Load(ws[k].disk, true, now, derive);
    assert loaded == LoadRows(SessionRows(ws[k].disk), now, derive);
    var live := WholeLive(ws[k].st.sessions, now);
    var expected := Store(live, map r | r in ws[k].st.index && ws[k].st.index[r] in live :: ws[k].st.index[r], false);
    InverseDeterminesIndex(loaded, expected);
  }

  //////////////////// Starting from any file ////////////////////

  /** Every hash in memory is on record as handed out. */
  predicate SeenSessions(sessions: map<Hash, Session>, hist: History) {
    forall h | h in sessions :: h in hist.issued && Known(hist, sessions[h].refreshHash)
  }

  predicate SeenRows(rows: seq<SessionRow>, hist: History) {
    forall i | 0 <= i < |rows| :: Known(hist, rows[i].hash) && Known(hist, rows[i].refreshHash)
  }

  predicate Seen(w: World) {
    && SeenSessions(w.st.sessions, w.hist)
    && (w.saving.Some? ==> SeenSessions(w.saving.value, w.hist))
    && SeenRows(SessionRows(w.disk), w.hist)
  }

  /** A program start from a file about which nothing is known, except that new tokens differ
      from the hashes in it. */
  ghost predicate AnyStart(w: World, derive: Labeler) {
    w.saving.None? && w.st == Load(w.disk, true, w.loadedAt, derive) && SeenRows(SessionRows(w.disk), w.hist)
  }

  lemma {:induction false} LoadedSessionsAreSeen(rows: seq<SessionRow>, now: int, hist: History, derive: Labeler)
    requires SeenRows(rows, hist)
    ensures SeenSessions(LoadRows(rows, now, derive).sessions, hist)
  {
    if rows != [] {
      LoadedSessionsAreSeen(rows[..|rows| - 1], now, hist, derive);
      assert Known(hist, rows[|rows| - 1].hash);
    }
  }

  lemma StepKeepsSeen(w: World, e: Event, w': World, derive: Labeler)
    requires Seen(w) && Next(w, e, w', derive)
    ensures Seen(w')
  {
    if e.LoadE? { LoadedSessionsAreSeen(SessionRows(w.disk), e.now, w.hist, derive); }
  }

  /** From any file at all, in every state of every run, each index entry points to a session
      that carries its hash: the dangling branch of a refresh is never taken. */
  lemma {:induction false} RunKeepsIndexSound(ws: seq<World>, es: seq<Event>, derive: Labeler, k: nat)
    requires Steps(ws, es, derive) && AnyStart(ws[0], derive) && k <= |es|
    ensures Seen(ws[k]) && IndexSound(ws[k].st)
  {
    hide Next, Seen, IndexSound, SeenRows;
    if k == 0 {
      StartIsSeen(ws[0], derive);
    } else {
      RunKeepsIndexSound(ws, es, derive, k - 1);
      assert Next(ws[k - 1], es[k - 1], ws[k], derive);
      StepKeepsSeen(ws[k - 1], es[k - 1], ws[k], derive);
      FreshHashesAreUnseen(ws[k - 1], es[k - 1], ws[k], derive);
      StepKeepsIndexSound(ws[k - 1], es[k - 1], ws[k], derive);
    }
  }

  lemma StartIsSeen(w: World, derive: Labeler)
    requires AnyStart(w, derive)
    ensures Seen(w) && IndexSound(w.st)
  {
    LoadedSessionsAreSeen(SessionRows(w.disk), w.loadedAt, w.hist, derive);
    LoadedIndexCovers(SessionRows(w.disk), w.loadedAt, derive);
  }

  lemma FreshHashesAreUnseen(w: World, e: Event, w': World, derive: Labeler)
    requires Seen(w) && IndexSound(w.st) && Next(w, e, w', derive)
    ensures e.IssueE? || e.RefreshE? ==> FreshFor(w.st, e.minted)
  {
    hide Issue, Refresh;
  }

  //////////////////// Sessions that come back ////////////////////

  /** Step `i` took session `h` out of memory: by redeeming its refresh token, revoking it, or
      because it had expired. */
  ghost predicate Removed(ws: seq<World>, es: seq<Event>, i: nat, h: Hash) {
    i < |es| && |ws| == |es| + 1 && !es[i].LoadE? && h in ws[i].st.sessions && h !in ws[i + 1].st.sessions
  }

  predicate WrittenAt(ws: seq<World>, es: seq<Event>, k: nat)
    requires k < |es| < |ws|
  {
    es[k].SaveEnd? && SaveSucceeds(ws[k].disk, es[k].io)
  }

  /** A snapshot written at `k` was taken after step `i`; saves do not overlap. */
  predicate SnapshotSince(es: seq<Event>, i: nat, k: nat)
    requires k <= |es|
  {
    exists b | i < b < k :: es[b].SaveBegin?
  }

  predicate WrittenSince(ws: seq<World>, es: seq<Event>, i: nat, k: nat)
    requires k <= |es| < |ws|
  {
    exists n | i < n < k :: WrittenAt(ws, es, n)
  }

  /** A save that began after step `i` has gone through before step `k`. */
  predicate SavedSince(ws: seq<World>, es: seq<Event>, i: nat, k: nat)
    requires k <= |es| < |ws|
  {
    exists n | i < n < k :: WrittenAt(ws, es, n) && SnapshotSince(es, i, n)
  }

  /** Whether the file, at `k`, still has session `h`, which step `i` removed: it is not
      damaged, no save since has gone through, and `h` was in it at step `i`, or in the
      snapshot that was under way then if that has been written. */
  ghost predicate LeftOnFile(ws: seq<World>, es: seq<Event>, i: nat, k: nat, h: Hash)
    requires i < k <= |es| < |ws|
  {
    && ws[k].disk != Corrupt
    && !SavedSince(ws, es, i, k)
    && if WrittenSince(ws, es, i, k) then ws[i].saving.Some? && h in ws[i].saving.value
       else Mentions(SessionRows(ws[i].disk), h)
  }

  /** The snapshot under way at `k` is the one of step `i`, or was taken since, without `h`. */
  ghost predicate SnapshotKnown(ws: seq<World>, es: seq<Event>, i: nat, k: nat, h: Hash)
    requires i < k <= |es| < |ws|
  {
    ws[k].saving.Some? ==> if SnapshotSince(es, i, k) then h !in ws[k].saving.value else ws[k].saving == ws[i].saving
  }

  ghost predicate FileKnown(ws: seq<World>, es: seq<Event>, i: nat, k: nat, h: Hash)
    requires i < k <= |es| < |ws|
  {
    Mentions(SessionRows(ws[k].disk), h) <==> LeftOnFile(ws, es, i, k, h)
  }

  lemma {:induction false} FileAfterRemoval(ws: seq<World>, es: seq<Event>, derive: Labeler, i: nat, k: nat, h: Hash)
    requires Steps(ws, es, derive) && Removed(ws, es, i, h) && i < k <= |es|
    requires forall m | i < m < k :: h !in ws[m].st.sessions
    ensures SnapshotKnown(ws, es, i, k, h) && FileKnown(ws, es, i, k, h)
    decreases k
  {
    hide Next, SnapshotKnown, FileKnown, LeftOnFile, WrittenAt;
    assert Next(ws[k - 1], es[k - 1], ws[k], derive);
    if k == i + 1 {
      FileAtRemoval(ws, es, derive, i, h);
    } else {
      FileAfterRemoval(ws, es, derive, i, k - 1, h);
      SnapshotStep(ws, es, derive, i, k - 1, h);
      FileStep(ws, es, derive, i, k - 1, h);
    }
  }

  lemma FileAtRemoval(ws: seq<World>, es: seq<Event>, derive: Labeler, i: nat, h: Hash)
    requires Removed(ws, es, i, h) && Next(ws[i], es[i], ws[i + 1], derive)
    ensures SnapshotKnown(ws, es, i, i + 1, h) && FileKnown(ws, es, i, i + 1, h)
  {
    hide Issue, Refresh, Touch, Revoke, Cleanup;
    RemovalIsInMemory(ws, es, derive, i, h);
  }

  /** Removing a session leaves file and snapshot alone, and the store dirty. */
  lemma RemovalIsInMemory(ws: seq<World>, es: seq<Event>, derive: Labeler, i: nat, h: Hash)
    requires Removed(ws, es, i, h) && Next(ws[i], es[i], ws[i + 1], derive)
    ensures ws[i + 1].disk == ws[i].disk && ws[i + 1].saving == ws[i].saving && ws[i + 1].st.dirty
  {
  }

  lemma SnapshotStep(ws: seq<World>, es: seq<Event>, derive: Labeler, i: nat, k: nat, h: Hash)
    requires i < k < |es| < |ws| && Next(ws[k], es[k], ws[k + 1], derive) && SnapshotKnown(ws, es, i, k, h)
    requires h !in ws[k].st.sessions
    ensures SnapshotKnown(ws, es, i, k + 1, h)
  {
    hide Issue, Refresh, Touch, Revoke, Cleanup, Load, Lists, SaveSucceeds;
    assert SnapshotSince(es, i, k + 1) <==> SnapshotSince(es, i, k) || es[k].SaveBegin?;
  }

  lemma FileStep(ws: seq<World>, es: seq<Event>, derive: Labeler, i: nat, k: nat, h: Hash)
    requires i < k < |es| < |ws| && Next(ws[k], es[k], ws[k + 1], derive)
    requires SnapshotKnown(ws, es, i, k, h) && FileKnown(ws, es, i, k, h)
    ensures FileKnown(ws, es, i, k + 1, h)
  {
    hide Issue, Refresh, Touch, Revoke, Cleanup, Load;
    WritesGrow(ws, es, i, k);
    if WrittenAt(ws, es, k) {
      WrittenIsListed(ws, es, derive, k, h);
    } else {
      UnwrittenKeepsRows(ws[k], es[k], ws[k + 1], derive);
    }
  }

  lemma WritesGrow(ws: seq<World>, es: seq<Event>, i: nat, k: nat)
    requires i < k < |es| < |ws|
    ensures WrittenSince(ws, es, i, k + 1) <==> WrittenSince(ws, es, i, k) || WrittenAt(ws, es, k)
    ensures SavedSince(ws, es, i, k + 1) <==> SavedSince(ws, es, i, k) || (WrittenAt(ws, es, k) && SnapshotSince(es, i, k))
    ensures SavedSince(ws, es, i, k) ==> SnapshotSince(es, i, k)
  {
    hide WrittenAt;
  }

  lemma WrittenIsListed(ws: seq<World>, es: seq<Event>, derive: Labeler, k: nat, h: Hash)
    requires k < |es| < |ws| && Next(ws[k], es[k], ws[k + 1], derive) && WrittenAt(ws, es, k)
    ensures ws[k].saving.Some? && ws[k].disk != Corrupt && ws[k + 1].disk != Corrupt
    ensures Mentions(SessionRows(ws[k + 1].disk), h) <==> h in ws[k].saving.value
  {
  }

  /** Nothing but a successful save of this store changes the session rows, short of damage,
      and a damaged file stays damaged. */
  lemma UnwrittenKeepsRows(w: World, e: Event, w': World, derive: Labeler)
    requires Next(w, e, w', derive) && !(e.SaveEnd? && SaveSucceeds(w.disk, e.io))
    ensures w'.disk == Corrupt || (w.disk != Corrupt && SessionRows(w'.disk) == SessionRows(w.disk))
  {
    hide Issue, Refresh, Touch, Revoke, Cleanup, Load;
  }

  /** A restart at step `j` finds session `h`, which step `i` removed, on file and alive. */
  ghost predicate Revives(ws: seq<World>, es: seq<Event>, i: nat, j: nat, h: Hash)
    requires i < j < |es| < |ws| && h in ws[i].st.sessions
  {
    && es[j].LoadE? && es[j].readable
    && LeftOnFile(ws, es, i, j, h)
    && es[j].now <= Whole(ws[i].st.sessions[h].refreshExpiresAt)
  }

  /** Loading good rows: which sessions are there, and what their tokens are good for. */
  lemma LoadedFromFile(w: World, now: int, hist: History, derive: Labeler, h: Hash, s: Session)
    requires Traceable(hist) && GoodRows(SessionRows(w.disk), hist, derive)
    requires h != "" && h in hist.origin && Inherits(s, hist.origin[h])
    ensures var st := LoadRows(SessionRows(w.disk), now, derive);
            && (h in st.sessions <==> Mentions(SessionRows(w.disk), h) && now <= Whole(s.refreshExpiresAt))
            && (h in st.sessions ==> st.sessions[h].expiresAt == Whole(s.expiresAt) && !Expired(st.sessions[h], now))
  {
    hide FromRow, LoadRows, Traceable;
    var rows := SessionRows(w.disk);
    var st := LoadRows(rows, now, derive);
    if h in st.sessions { LoadedHashesAreMentioned(rows, now, derive, h); }
    if i :| 0 <= i < |rows| && rows[i].hash == h {
      LoadedSessions(rows, now, derive, i);
      assert GoodRow(rows[i], hist, derive);
      RowsAreWhole(rows[i], derive);
    }
  }

  lemma {:induction false} HistoryGrows(ws: seq<World>, es: seq<Event>, derive: Labeler, i: nat, j: nat)
    requires IsRun(ws, es, derive) && i <= j <= |es|
    ensures Extends(ws[i].hist, ws[j].hist)
    decreases j
  {
    hide Next, Invariant, Init;
    if i < j {
      HistoryGrows(ws, es, derive, i, j - 1);
      assert Next(ws[j - 1], es[j - 1], ws[j], derive);
      InvariantAt(ws, es, derive, j - 1);
      StepExtendsHistory(ws[j - 1], es[j - 1], ws[j], derive);
    }
  }

  lemma InvariantAt(ws: seq<World>, es: seq<Event>, derive: Labeler, k: nat)
    requires IsRun(ws, es, derive) && k <= |es|
    ensures Traceable(ws[k].hist) && GoodRows(SessionRows(ws[k].disk), ws[k].hist, derive)
    ensures Inverse(ws[k].st) && Good(ws[k].st.sessions, ws[k].hist)
    ensures ws[k].saving.Some? && !ws[k].st.dirty ==> ws[k].saving.value == ws[k].st.sessions
  {
    RunKeepsInvariant(ws, es, derive, k);
  }

  /** The first load that could: what it brings back of a session that step `i` removed. The
      refresh token works again, and the session token as long as its own deadline allows. */
  lemma RestartBringsBack(ws: seq<World>, es: seq<Event>, derive: Labeler, i: nat, j: nat, h: Hash)
    requires IsRun(ws, es, derive) && Removed(ws, es, i, h) && i < j < |es| && es[j].LoadE?
    requires forall m | i < m <= j :: h !in ws[m].st.sessions
    ensures var s, after, now := ws[i].st.sessions[h], ws[j + 1].st, es[j].now;
            && (h in after.sessions <==> Revives(ws, es, i, j, h))
            && (Accepts(after, h, now) <==> Revives(ws, es, i, j, h) && now <= Whole(s.expiresAt))
            && (s.refreshHash != "" ==> (Redeemable(after, s.refreshHash, now) <==> Revives(ws, es, i, j, h)))
  {
    hide Next, Init, LeftOnFile, Inherits, Traceable, GoodRows, Good, LoadRows, Mentions;
    var s := ws[i].st.sessions[h];
    InvariantAt(ws, es, derive, i);
    InvariantAt(ws, es, derive, j);
    InvariantAt(ws, es, derive, j + 1);
    HistoryGrows(ws, es, derive, i, j);
    OriginKeepsToken(ws[i], ws[j].hist, h);
    FileAfterRemoval(ws, es, derive, i, j, h);
    LoadedFromFile(ws[j], es[j].now, ws[j].hist, derive, h, s);
    LoadStep(ws[j], es[j], ws[j + 1], derive);
    TokenFollowsSession(ws[j + 1].st, ws[j + 1].hist, h);
    OriginKeepsToken(ws[i], ws[j + 1].hist, h);
  }

  lemma OriginKeepsToken(w: World, hist: History, h: Hash)
    requires Good(w.st.sessions, w.hist) && Extends(w.hist, hist) && h in w.st.sessions
    ensures h != "" && h in hist.origin && Inherits(w.st.sessions[h], hist.origin[h])
    ensures hist.origin[h].refreshHash == w.st.sessions[h].refreshHash
  {
  }

  /** A refresh token leads to the one session it was handed out with, as long as that is there. */
  lemma TokenFollowsSession(st: Store, hist: History, h: Hash)
    requires Traceable(hist) && Good(st.sessions, hist) && Inverse(st) && h in hist.origin
    ensures var r := hist.origin[h].refreshHash;
            && (r in st.index <==> r != "" && h in st.sessions)
            && (r in st.index ==> st.index[r] == h)
  {
  }

  lemma LoadStep(w: World, e: Event, w': World, derive: Labeler)
    requires Next(w, e, w', derive) && e.LoadE?
    ensures w'.hist == w.hist
    ensures w'.st == if w.disk.Present? && e.readable then LoadRows(SessionRows(w.disk), e.now, derive) else Empty
    ensures !w.disk.Present? ==> forall h :: !Mentions(SessionRows(w.disk), h)
  {
  }

  lemma StaysOut(w: World, e: Event, w': World, derive: Labeler, h: Hash)
    requires Traceable(w.hist) && Next(w, e, w', derive) && !e.LoadE?
    requires h in w.hist.origin && h !in w.st.sessions
    ensures h !in w'.st.sessions
  {
  }

  /** A session that step `i` removed stays away up to step `n` if and only if no restart in
      between finds it on file and alive. */
  lemma {:induction false} StaysAwayExactly(ws: seq<World>, es: seq<Event>, derive: Labeler, i: nat, n: nat, h: Hash)
    requires IsRun(ws, es, derive) && Removed(ws, es, i, h) && i < n <= |es|
    ensures (forall k | i < k <= n :: h !in ws[k].st.sessions) <==> (forall j | i < j < n :: !Revives(ws, es, i, j, h))
    decreases n
  {
    hide Next, Init, Revives, Removed;
    if i + 1 < n {
      StaysAwayExactly(ws, es, derive, i, n - 1, h);
      if forall k | i < k <= n - 1 :: h !in ws[k].st.sessions {
        StaysAwayStep(ws, es, derive, i, n - 1, h);
      }
    } else {
      RemovedIsGone(ws, es, i, h);
    }
  }

  lemma RemovedIsGone(ws: seq<World>, es: seq<Event>, i: nat, h: Hash)
    requires Removed(ws, es, i, h)
    ensures h !in ws[i + 1].st.sessions
  {
  }

  lemma StaysAwayStep(ws: seq<World>, es: seq<Event>, derive: Labeler, i: nat, k: nat, h: Hash)
    requires IsRun(ws, es, derive) && Removed(ws, es, i, h) && i < k < |es|
    requires forall m | i < m <= k :: h !in ws[m].st.sessions
    ensures h in ws[k + 1].st.sessions <==> Revives(ws, es, i, k, h)
  {
    hide Next, Init, Revives, Inherits, Accepts;
    if es[k].LoadE? {
      RestartBringsBack(ws, es, derive, i, k, h);
    } else {
      OriginAt(ws, es, derive, i, k, h);
      StaysOut(ws[k], es[k], ws[k + 1], derive, h);
      OnlyLoadsRevive(ws, es, i, k, h);
    }
  }

  lemma OriginAt(ws: seq<World>, es: seq<Event>, derive: Labeler, i: nat, k: nat, h: Hash)
    requires IsRun(ws, es, derive) && i <= k <= |es| && h in ws[i].st.sessions
    ensures Traceable(ws[k].hist) && h in ws[k].hist.origin
    ensures ws[k].saving.Some? && !ws[k].st.dirty ==> ws[k].saving.value == ws[k].st.sessions
    ensures k < |es| ==> Next(ws[k], es[k], ws[k + 1], derive)
  {
    hide Next, Init, Inherits, Traceable;
    InvariantAt(ws, es, derive, i);
    InvariantAt(ws, es, derive, k);
    HistoryGrows(ws, es, derive, i, k);
  }

  lemma OnlyLoadsRevive(ws: seq<World>, es: seq<Event>, i: nat, j: nat, h: Hash)
    requires i < j < |es| < |ws| && h in ws[i].st.sessions && !es[j].LoadE?
    ensures !Revives(ws, es, i, j, h)
  {
  }

  /** A refresh token is used once: after the step that redeems it, neither it nor the session
      token it belonged to is accepted in any later state, exactly as long as no restart finds
      the old session on file and alive. */
  lemma RefreshTokensAreSingleUse(ws: seq<World>, es: seq<Event>, derive: Labeler, i: nat, n: nat)
    requires IsRun(ws, es, derive) && i < n <= |es|
    requires es[i].RefreshE? && Redeemable(ws[i].st, es[i].r, es[i].now)
    ensures var h := ws[i].st.index[es[i].r];
            && Removed(ws, es, i, h)
            && ((forall k | i < k <= n :: h !in ws[k].st.sessions && es[i].r !in ws[k].st.index) <==>
                forall j | i < j < n :: !Revives(ws, es, i, j, h))
  {
    hide Init, Revives, Accepts;
    var h := ws[i].st.index[es[i].r];
    InvariantAt(ws, es, derive, i);
    RedeemingRemoves(ws[i], es[i], ws[i + 1], derive);
    StaysAwayExactly(ws, es, derive, i, n, h);
    TokensGoToo(ws, es, derive, i, n, h);
  }

  lemma RedeemingRemoves(w: World, e: Event, w': World, derive: Labeler)
    requires Next(w, e, w', derive) && e.RefreshE? && Redeemable(w.st, e.r, e.now)
    requires Traceable(w.hist) && Good(w.st.sessions, w.hist) && IndexSound(w.st)
    ensures var h := w.st.index[e.r]; h in w.st.sessions && w.st.sessions[h].refreshHash == e.r && h !in w'.st.sessions
  {
  }

  /** Where a removed session stays away, so does its refresh token. */
  lemma TokensGoToo(ws: seq<World>, es: seq<Event>, derive: Labeler, i: nat, n: nat, h: Hash)
    requires IsRun(ws, es, derive) && i < n <= |es| && h in ws[i].st.sessions
    ensures forall k | i < k <= n && h !in ws[k].st.sessions :: ws[i].st.sessions[h].refreshHash !in ws[k].st.index
  {
    hide Init, Next, Inherits, Good, Traceable;
    InvariantAt(ws, es, derive, i);
    forall k | i < k <= n && h !in ws[k].st.sessions ensures ws[i].st.sessions[h].refreshHash !in ws[k].st.index {
      InvariantAt(ws, es, derive, k);
      HistoryGrows(ws, es, derive, i, k);
      OriginKeepsToken(ws[i], ws[k].hist, h);
      TokenFollowsSession(ws[k].st, ws[k].hist, h);
    }
  }

  /** Revocation is final under the same condition, and exactly then. */
  lemma RevokedSessionsStayRevoked(ws: seq<World>, es: seq<Event>, derive: Labeler, i: nat, n: nat)
    requires IsRun(ws, es, derive) && i < n <= |es|
    requires es[i].RevokeE? && es[i].h in ws[i].st.sessions
    ensures var h := es[i].h;
            && Removed(ws, es, i, h)
            && ((forall k | i < k <= n :: h !in ws[k].st.sessions && ws[i].st.sessions[h].refreshHash !in ws[k].st.index) <==>
                forall j | i < j < n :: !Revives(ws, es, i, j, h))
  {
    hide Init, Revives, Accepts;
    assert Next(ws[i], es[i], ws[i + 1], derive);
    StaysAwayExactly(ws, es, derive, i, n, es[i].h);
    TokensGoToo(ws, es, derive, i, n, es[i].h);
  }

  /** In particular nothing comes back if the program is never started over unsaved changes. */
  lemma CleanStartsReviveNothing(ws: seq<World>, es: seq<Event>, derive: Labeler, i: nat, j: nat, h: Hash)
    requires IsRun(ws, es, derive) && Removed(ws, es, i, h) && i < j < |es|
    requires forall m | i < m <= j && es[m].LoadE? :: Clean(ws[m])
    ensures !Revives(ws, es, i, j, h)
  {
    hide Init, Next, LeftOnFile;
    if Revives(ws, es, i, j, h) {
      GoneWhenClean(ws, es, derive, i, j, h);
      FileAfterRemoval(ws, es, derive, i, j, h);
    }
  }

  lemma {:induction false} GoneWhenClean(ws: seq<World>, es: seq<Event>, derive: Labeler, i: nat, k: nat, h: Hash)
    requires IsRun(ws, es, derive) && Removed(ws, es, i, h) && i < k <= |es|
    requires forall m | i < m < k && es[m].LoadE? :: Clean(ws[m])
    ensures forall m | i < m <= k :: h !in ws[m].st.sessions
    ensures Clean(ws[k]) ==> !Mentions(SessionRows(ws[k].disk), h)
    decreases k
  {
    hide Init, Next, Mentions, Traceable;
    if k == i + 1 {
      assert Next(ws[i], es[i], ws[i + 1], derive);
      RemovalIsInMemory(ws, es, derive, i, h);
    } else {
      hide IsRun;
      GoneWhenClean(ws, es, derive, i, k - 1, h);
      OriginAt(ws, es, derive, i, k - 1, h);
      GoneStep(ws[k - 1], es[k - 1], ws[k], derive, h);
    }
  }

  lemma GoneStep(w: World, e: Event, w': World, derive: Labeler, h: Hash)
    requires Traceable(w.hist) && Next(w, e, w', derive) && h in w.hist.origin
    requires w.saving.Some? && !w.st.dirty ==> w.saving.value == w.st.sessions
    requires h !in w.st.sessions && (Clean(w) ==> !Mentions(SessionRows(w.disk), h)) && (e.LoadE? ==> Clean(w))
    ensures h !in w'.st.sessions && (Clean(w') ==> !Mentions(SessionRows(w'.disk), h))
  {
    hide Issue, Refresh, Touch, Revoke, Cleanup, LoadRows;
    if e.LoadE? {
      if h in w'.st.sessions { LoadedHashesAreMentioned(SessionRows(w.disk), e.now, derive, h); }
    } else {
      StaysOut(w, e, w', derive, h);
      if !(e.SaveEnd? && SaveSucceeds(w.disk, e.io)) {
        UnwrittenKeepsRows(w, e, w', derive);
        CleanOnlyByWriting(w, e, w', derive);
      }
    }
  }

  lemma CleanOnlyByWriting(w: World, e: Event, w': World, derive: Labeler)
    requires Next(w, e, w', derive) && !e.LoadE? && !(e.SaveEnd? && SaveSucceeds(w.disk, e.io))
    ensures Clean(w') ==> Clean(w)
  {
  }

  //////////////////// It does happen ////////////////////

  /** A file with one session of one hour, as an earlier run left it. */
  const OneRow := SessionRow("h", "user", 0, 3600, Some(3600), Some(0), false, "r", "n", "", "", "pc")

  const OneSession := Session("user", 0, Ticks(3600), Ticks(3600), "", "", 0, false, "pc", "r", "n")

  const OneFile := Present(Root([OneRow], [], map[]))

  const OneWorld := World(Store(map["h" := OneSession], map["r" := "h"], false), OneFile, None,
                          History({"h", "r"}, map["h" := Origin(Login("user", false, Ticks(3600)), "r", Ticks(3600))]), 0)

  lemma OneFileLoads(derive: Labeler)
    ensures Load(OneFile, true, 0, derive) == OneWorld.st
    ensures Init(OneWorld, derive)
  {
    assert FromRow(OneRow, derive) == (OneSession, false);
    assert [OneRow][..0] == [];
    assert LoadRows([OneRow][..0], 0, derive) == Empty;
  }

  /** A refresh whose process ends before it saves: the redeemed token can be redeemed again. */
  lemma RedeemedTokenReturns(derive: Labeler) returns (ws: seq<World>, es: seq<Event>)
    ensures IsRun(ws, es, derive) && |es| == 2 && es[0].RefreshE? && es[1].LoadE?
    ensures Redeemable(ws[0].st, es[0].r, es[0].now) && Redeemable(ws[2].st, es[0].r, es[1].now)
  {
    OneFileLoads(derive);
    var client, minted := Client("", "", "pc"), Minted("h2", "r2", "n2");
    var e := RefreshE("r", client, minted, 60, 0);
    var prev := Some(Login("user", false, Ticks(3600)));
    var hist := Minting(OneWorld.hist, minted, prev, Successor(OneSession, client, minted, 60, 0).expiresAt);
    var refreshed := OneWorld.(st := Refresh(OneWorld.st, "r", client, minted, 60, 0), hist := hist);
    var restarted := refreshed.(st := Load(OneFile, true, 0, derive));
    assert Next(OneWorld, e, refreshed, derive);
    assert Next(refreshed, LoadE(0, true), restarted, derive);
    ws, es := [OneWorld, refreshed, restarted], [e, LoadE(0, true)];
  }

  /** A revocation whose save fails: after a restart the session is accepted again. */
  lemma RevokedSessionReturns(derive: Labeler) returns (ws: seq<World>, es: seq<Event>)
    ensures IsRun(ws, es, derive) && |es| == 4 && es[0].RevokeE? && es[1].SaveBegin? && es[2].SaveEnd? && es[3].LoadE?
    ensures Accepts(ws[0].st, es[0].h, es[3].now) && !Accepts(ws[3].st, es[0].h, es[3].now) && Accepts(ws[4].st, es[0].h, es[3].now)
  {
    OneFileLoads(derive);
    var io := Io(true, KeptOld);
    var revoked := OneWorld.(st := Revoke(OneWorld.st, "h"));
    var saving := revoked.(st := revoked.st.(dirty := false), saving := Some(revoked.st.sessions));
    var failed := saving.(st := saving.st.(dirty := true), saving := None);
    var restarted := failed.(st := Load(OneFile, true, 0, derive));
    assert Next(OneWorld, RevokeE("h"), revoked, derive) && Next(revoked, SaveBegin, saving, derive);
    assert Next(saving, SaveEnd(io), failed, derive) && Next(failed, LoadE(0, true), restarted, derive);
    ws, es := [OneWorld, revoked, saving, failed, restarted], [RevokeE("h"), SaveBegin, SaveEnd(io), LoadE(0, true)];
  }
}
