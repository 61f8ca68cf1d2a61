/** The in-memory half of the session token store: sessions keyed by the hash of
    their access token, and an index from refresh-token hash to session hash.
    Every operation is a function of the whole store, so that the methods of
    `SessionTokens.SessionTokenManager` and the runs of `SessionRuns` share it. */
module SessionStore {

  import opened Wrappers

  type Hash = string

  // Clock readings count ticks; the state file keeps whole seconds only.
  const TICKS_PER_SECOND: int := 1_000_000_000
  function Ticks(seconds: int): int { seconds * TICKS_PER_SECOND }

  const LAST_SEEN_INTERVAL: int := 300 * TICKS_PER_SECOND
  const DEFAULT_REFRESH_TTL: int := 24 * 3600
  const DEFAULT_REMEMBER_ME_TTL: int := 7 * 24 * 3600

  datatype Session = Session(
    username: string,
    createdAt: int,
    expiresAt: int,
    refreshExpiresAt: int,
    userAgent: string,
    remoteAddress: string,
    lastSeen: int,
    rememberMe: bool,
    deviceLabel: string,
    refreshHash: Hash,
    rotationId: string)

  datatype Store = Store(sessions: map<Hash, Session>, index: map<Hash, Hash>, dirty: bool)

  const Empty := Store(map[], map[], false)

  /** The random material one token pair is made of, already hashed. */
  datatype Minted = Minted(sessionHash: Hash, refreshHash: Hash, rotationId: string)

  /** Who asks: what the HTTP layer reports, and the label derived from it. */
  datatype Client = Client(userAgent: string, remoteAddress: string, deviceLabel: string)

  /** The two configured lifetimes, in seconds. */
  datatype Lifetimes = Lifetimes(session: int, rememberMe: int)

  function Min(a: int, b: int): int { if a <= b then a else b }

  //////////////////// Acceptance ////////////////////

  predicate Expired(s: Session, now: int) { now > s.refreshExpiresAt }

  /** An access token is accepted while neither of its two deadlines has passed. */
  predicate Accepts(st: Store, h: Hash, now: int) {
    h in st.sessions && !Expired(st.sessions[h], now) && now <= st.sessions[h].expiresAt
  }

  /** A refresh token is redeemable while its session exists and is not expired. */
  predicate Redeemable(st: Store, r: Hash, now: int) {
    r in st.index && st.index[r] in st.sessions && !Expired(st.sessions[st.index[r]], now)
  }

  //////////////////// Operations ////////////////////

  /** Access lifetime of a new pair, in seconds: the configured one unless one is asked for. */
  function AccessTtl(asked: int, cfg: Lifetimes): int {
    if asked <= 0 then cfg.session else asked
  }

  /** Refresh lifetime of a new pair: never shorter than the access lifetime. */
  function RefreshTtl(asked: int, access: int, rememberMe: bool, cfg: Lifetimes): (r: int)
    ensures access <= r && 0 < r
  {
    var remember := if cfg.rememberMe <= 0 then DEFAULT_REMEMBER_ME_TTL else cfg.rememberMe;
    var refresh := if 0 < asked then asked else if rememberMe then remember else DEFAULT_REFRESH_TTL;
    if refresh < access then access else refresh
  }

  function NewSession(username: string, rememberMe: bool, client: Client, minted: Minted,
                      now: int, expiresAt: int, refreshExpiresAt: int): Session {
    Session(username, now, expiresAt, refreshExpiresAt, client.userAgent, client.remoteAddress,
            now, rememberMe, client.deviceLabel, minted.refreshHash, minted.rotationId)
  }

  function Insert(st: Store, h: Hash, s: Session): Store {
    Store(st.sessions[h := s], st.index[s.refreshHash := h], true)
  }

  function RefreshHashes(sessions: map<Hash, Session>, hs: set<Hash>): set<Hash> {
    set h | h in hs && h in sessions && sessions[h].refreshHash != "" :: sessions[h].refreshHash
  }

  lemma RefreshHashesOneMore(sessions: map<Hash, Session>, hs: set<Hash>, h: Hash)
    requires h in sessions
    ensures RefreshHashes(sessions, hs + {h}) ==
            RefreshHashes(sessions, hs) + (if sessions[h].refreshHash == "" then {} else {sessions[h].refreshHash})
  {
  }

  lemma RefreshHashesOfNone(sessions: map<Hash, Session>)
    ensures RefreshHashes(sessions, {}) == {}
  {
  }

  /** Removes the sessions `hs`, each together with the index entry of its refresh hash. */
  function DropAll(st: Store, hs: set<Hash>): Store {
    Store(st.sessions - hs, st.index - RefreshHashes(st.sessions, hs), true)
  }

  function Issue(st: Store, username: string, sessionTtl: int, refreshTtl: int, rememberMe: bool,
                 cfg: Lifetimes, client: Client, minted: Minted, now: int): Store {
    var access := AccessTtl(sessionTtl, cfg);
    var deadline := now + Ticks(RefreshTtl(refreshTtl, access, rememberMe, cfg));
    Insert(st, minted.sessionHash,
           NewSession(username, rememberMe, client, minted, now, Min(now + Ticks(access), deadline), deadline))
  }

  function ExpiredHashes(st: Store, now: int): set<Hash> {
    set h | h in st.sessions && Expired(st.sessions[h], now)
  }

  /** Cleanup drops exactly the sessions whose refresh deadline has passed. */
  function Cleanup(st: Store, now: int): Store {
    if ExpiredHashes(st, now) == {} then st else DropAll(st, ExpiredHashes(st, now))
  }

  /** What the successor of `prev` inherits: the user, the remember-me choice and the deadline. */
  function Successor(prev: Session, client: Client, minted: Minted, sessionTtl: int, now: int): Session {
    NewSession(prev.username, prev.rememberMe, client, minted, now,
               Min(now + Ticks(sessionTtl), prev.refreshExpiresAt), prev.refreshExpiresAt)
  }

  /** The four ways redeeming a refresh hash ends. */
  datatype RefreshOutcome = Unknown | Dangling | TooLate | Rotated(session: Session)

  function RefreshOutcomeOf(st: Store, r: Hash, client: Client, minted: Minted, sessionTtl: int, now: int): RefreshOutcome {
    if r !in st.index then Unknown
    else if st.index[r] !in st.sessions then Dangling
    else if Expired(st.sessions[st.index[r]], now) then TooLate
    else Rotated(Successor(st.sessions[st.index[r]], client, minted, sessionTtl, now))
  }

  function Refresh(st: Store, r: Hash, client: Client, minted: Minted, sessionTtl: int, now: int): Store {
    match RefreshOutcomeOf(st, r, client, minted, sessionTtl, now)
    case Unknown => st
    case Dangling => Store(st.sessions, st.index - {r}, true)
    case TooLate => Store(st.sessions - {st.index[r]}, st.index - {r}, true)
    case Rotated(s) =>
      var left := st.sessions - {st.index[r]};
      // A colliding session hash keeps the entry that is already there.
      Store(if minted.sessionHash in left then left else left[minted.sessionHash := s],
            (st.index - {r})[minted.refreshHash := minted.sessionHash], true)
  }

  /** Looking a token up drops it when expired and refreshes a stale last-seen time. */
  function Touch(st: Store, h: Hash, now: int): Store {
    if h !in st.sessions then st
    else if Expired(st.sessions[h], now) then DropAll(st, {h})
    else if Accepts(st, h, now) && now - st.sessions[h].lastSeen >= LAST_SEEN_INTERVAL then
      Store(st.sessions[h := st.sessions[h].(lastSeen := now)], st.index, true)
    else st
  }

  /** Only a last-seen update is written out at once; a lazy drop waits for the next save. */
  predicate TouchSaves(st: Store, h: Hash, now: int) {
    Accepts(st, h, now) && now - st.sessions[h].lastSeen >= LAST_SEEN_INTERVAL
  }

  function Revoke(st: Store, h: Hash): Store {
    if h in st.sessions then DropAll(st, {h}) else st
  }

  //////////////////// The index invariant ////////////////////

  /** Every index entry points to a live session that carries that refresh hash. */
  ghost predicate IndexSound(st: Store) {
    forall r | r in st.index ::
      r != "" && st.index[r] in st.sessions && st.sessions[st.index[r]].refreshHash == r
  }

  /** Every session that has a refresh hash is found through it. */
  ghost predicate IndexComplete(st: Store) {
    forall h | h in st.sessions && st.sessions[h].refreshHash != "" ::
      st.sessions[h].refreshHash in st.index && st.index[st.sessions[h].refreshHash] == h
  }

  /** The two maps are inverse to each other on sessions with a refresh hash. */
  ghost predicate Inverse(st: Store) { IndexSound(st) && IndexComplete(st) }

  lemma InsertKeepsInverse(st: Store, h: Hash, s: Session)
    requires h !in st.sessions && s.refreshHash !in st.index && s.refreshHash != ""
    ensures IndexSound(st) ==> IndexSound(Insert(st, h, s))
    ensures Inverse(st) ==> Inverse(Insert(st, h, s))
  {
  }

  lemma DropAllKeepsInverse(st: Store, hs: set<Hash>)
    ensures IndexSound(st) ==> IndexSound(DropAll(st, hs))
    ensures Inverse(st) ==> Inverse(DropAll(st, hs))
  {
  }

  /** The refresh path that finds an index entry without a session is dead code. */
  lemma DanglingIsUnreachable(st: Store, r: Hash, client: Client, minted: Minted, sessionTtl: int, now: int)
    requires IndexSound(st)
    ensures RefreshOutcomeOf(st, r, client, minted, sessionTtl, now) != Dangling
    ensures RefreshOutcomeOf(st, r, client, minted, sessionTtl, now).Rotated? <==> Redeemable(st, r, now)
  {
  }

  /** The hashes of one freshly minted pair clash with nothing in the store. */
  predicate FreshFor(st: Store, minted: Minted) {
    && minted.sessionHash !in st.sessions
    && minted.refreshHash !in st.index
    && minted.refreshHash != ""
  }

  /** Under the invariant a successful refresh is "drop the old session, insert
      its successor", and a late one is "drop the old session". */
  lemma RefreshDecomposes(st: Store, r: Hash, client: Client, minted: Minted, sessionTtl: int, now: int)
    requires IndexSound(st) && FreshFor(st, minted)
    ensures r !in st.index ==> Refresh(st, r, client, minted, sessionTtl, now) == st
    ensures r in st.index ==>
              var h := st.index[r];
              && h in st.sessions
              && Refresh(st, r, client, minted, sessionTtl, now) ==
                 if Expired(st.sessions[h], now) then DropAll(st, {h})
                 else Insert(DropAll(st, {h}), minted.sessionHash, Successor(st.sessions[h], client, minted, sessionTtl, now))
  {
    if r in st.index {
      var h := st.index[r];
      assert st.sessions[h].refreshHash == r;
      assert RefreshHashes(st.sessions, {h}) == {r};
    }
  }

  lemma OperationsKeepInverse(st: Store, h: Hash, r: Hash, client: Client, minted: Minted, sessionTtl: int, now: int)
    requires FreshFor(st, minted)
    ensures IndexSound(st) ==> IndexSound(Cleanup(st, now)) && IndexSound(Touch(st, h, now)) && IndexSound(Revoke(st, h))
    ensures Inverse(st) ==> Inverse(Cleanup(st, now)) && Inverse(Touch(st, h, now)) && Inverse(Revoke(st, h))
    ensures IndexSound(st) ==> IndexSound(Refresh(st, r, client, minted, sessionTtl, now))
    ensures Inverse(st) ==> Inverse(Refresh(st, r, client, minted, sessionTtl, now))
  {
    DropAllKeepsInverse(st, {h});
    DropAllKeepsInverse(st, ExpiredHashes(st, now));
    if IndexSound(st) && r in st.index {
      RefreshDecomposes(st, r, client, minted, sessionTtl, now);
      var prev := st.index[r];
      DropAllKeepsInverse(st, {prev});
      InsertKeepsInverse(DropAll(st, {prev}), minted.sessionHash, Successor(st.sessions[prev], client, minted, sessionTtl, now));
    }
  }

  //////////////////// Single use ////////////////////

  /** After a refresh that succeeds, the old refresh token and the old session token
      are both gone, the new pair is in force, and the number of sessions is the same. */
  lemma RefreshIsSingleUse(st: Store, r: Hash, client: Client, minted: Minted, sessionTtl: int, now: int)
    requires IndexSound(st) && FreshFor(st, minted) && Redeemable(st, r, now)
    requires minted.refreshHash != r
    ensures var prev := st.index[r];
            var after := Refresh(st, r, client, minted, sessionTtl, now);
            && r !in after.index
            && prev !in after.sessions
            && |after.sessions| == |st.sessions|
            && Redeemable(after, minted.refreshHash, now)
            && (0 <= sessionTtl ==> Accepts(after, minted.sessionHash, now))
            && (forall h | h in st.sessions && h != prev :: h in after.sessions && after.sessions[h] == st.sessions[h])
            && (forall h | h in after.sessions && h != minted.sessionHash :: h in st.sessions)
  {
  }

  //////////////////// The three lookups agree ////////////////////

  /** What the user-name lookup answers. */
  function UsernameOf(st: Store, h: Hash, now: int): Option<string> {
    if Accepts(st, h, now) then Some(st.sessions[h].username) else None
  }

  /** Looking a token up never changes which tokens are accepted or redeemable at
      that moment, so any order of the three lookups gives the same answers. */
  lemma LookupsDoNotInterfere(st: Store, h: Hash, g: Hash, now: int)
    requires IndexSound(st)
    ensures Accepts(Touch(st, h, now), g, now) == Accepts(st, g, now)
    ensures UsernameOf(Touch(st, h, now), g, now) == UsernameOf(st, g, now)
    ensures Redeemable(Touch(st, h, now), g, now) ==> Redeemable(st, g, now)
    ensures Inverse(st) ==> Redeemable(Touch(st, h, now), g, now) == Redeemable(st, g, now)
  {
  }

  //////////////////// How long tokens last, and what they carry ////////////////////

  /** A session token is accepted up to the earlier of its two deadlines, a refresh token
      up to the later one of its session. */
  lemma DeadlinesDecide(st: Store, h: Hash, r: Hash, t: int)
    requires IndexSound(st)
    ensures Accepts(st, h, t) <==> h in st.sessions && t <= st.sessions[h].expiresAt && t <= st.sessions[h].refreshExpiresAt
    ensures Redeemable(st, r, t) <==> r in st.index && t <= st.sessions[st.index[r]].refreshExpiresAt
  {
  }

  /** A refreshed session token lasts as long as was configured, and never beyond the deadline
      the old session had; the new refresh token lasts up to that deadline. */
  lemma RefreshedTokensLast(st: Store, r: Hash, client: Client, minted: Minted, sessionTtl: int, now: int, t: int)
    requires IndexSound(st) && FreshFor(st, minted) && Redeemable(st, r, now) && minted.refreshHash != r
    ensures var after, deadline := Refresh(st, r, client, minted, sessionTtl, now), st.sessions[st.index[r]].refreshExpiresAt;
            && (Accepts(after, minted.sessionHash, t) <==> t <= now + sessionTtl * 1_000_000_000 && t <= deadline)
            && (Redeemable(after, minted.refreshHash, t) <==> t <= deadline)
  {
  }

  /** Everything else a refreshed session carries. */
  lemma RefreshedSessionCarries(st: Store, r: Hash, client: Client, minted: Minted, sessionTtl: int, now: int)
    requires IndexSound(st) && FreshFor(st, minted) && Redeemable(st, r, now)
    ensures var after, old' := Refresh(st, r, client, minted, sessionTtl, now), st.sessions[st.index[r]];
            && minted.sessionHash in after.sessions && after.dirty
            && var s := after.sessions[minted.sessionHash];
               && s.username == old'.username && s.rememberMe == old'.rememberMe
               && s.createdAt == now && s.lastSeen == now
               && s.userAgent == client.userAgent && s.remoteAddress == client.remoteAddress && s.deviceLabel == client.deviceLabel
               && s.refreshHash == minted.refreshHash && s.rotationId == minted.rotationId
  {
  }

  /** A login's session token lasts as long as was asked for, or as configured; its refresh
      token as long as was asked for, or a day, or with remember-me as configured, or a week,
      and at least as long as the session token. */
  lemma IssuedTokensLast(st: Store, username: string, sessionTtl: int, refreshTtl: int, rememberMe: bool,
                         cfg: Lifetimes, client: Client, minted: Minted, now: int, t: int)
    requires minted.refreshHash != ""
    ensures var after := Issue(st, username, sessionTtl, refreshTtl, rememberMe, cfg, client, minted, now);
            var access := if sessionTtl > 0 then sessionTtl else cfg.session;
            var kept := if refreshTtl > 0 then refreshTtl else if !rememberMe then 86_400
                        else if cfg.rememberMe > 0 then cfg.rememberMe else 604_800;
            && (Accepts(after, minted.sessionHash, t) <==> t <= now + access * 1_000_000_000)
            && (Redeemable(after, minted.refreshHash, t) <==>
                t <= now + kept * 1_000_000_000 || t <= now + access * 1_000_000_000)
  {
  }

  lemma IssuedSessionCarries(st: Store, username: string, sessionTtl: int, refreshTtl: int, rememberMe: bool,
                             cfg: Lifetimes, client: Client, minted: Minted, now: int)
    ensures var after := Issue(st, username, sessionTtl, refreshTtl, rememberMe, cfg, client, minted, now);
            && minted.sessionHash in after.sessions && after.dirty
            && (forall h | h != minted.sessionHash :: h in after.sessions <==> h in st.sessions)
            && (forall h | h != minted.sessionHash && h in st.sessions :: after.sessions[h] == st.sessions[h])
            && var s := after.sessions[minted.sessionHash];
               && s.username == username && s.rememberMe == rememberMe
               && s.createdAt == now && s.lastSeen == now
               && s.userAgent == client.userAgent && s.remoteAddress == client.remoteAddress && s.deviceLabel == client.deviceLabel
               && s.refreshHash == minted.refreshHash && s.rotationId == minted.rotationId
  {
  }

  /** What is left after a cleanup, a revocation and a lookup, session by session: a lookup
      drops a session past its refresh deadline, and notes the time of an accepted one whose
      last note is five minutes old. */
  lemma WhatIsLeft(st: Store, h: Hash, g: Hash, now: int)
    ensures g in Cleanup(st, now).sessions <==> g in st.sessions && now <= st.sessions[g].refreshExpiresAt
    ensures g in Revoke(st, h).sessions <==> g in st.sessions && g != h
    ensures g in Touch(st, h, now).sessions <==> g in st.sessions && (g == h ==> now <= st.sessions[g].refreshExpiresAt)
    ensures g in Cleanup(st, now).sessions ==> Cleanup(st, now).sessions[g] == st.sessions[g]
    ensures g in Revoke(st, h).sessions ==> Revoke(st, h).sessions[g] == st.sessions[g]
    ensures g in Touch(st, h, now).sessions ==>
              var s := st.sessions[g];
              Touch(st, h, now).sessions[g] ==
              if g == h && now <= s.expiresAt && s.lastSeen + 300_000_000_000 <= now then s.(lastSeen := now) else s
  {
  }

  /** Each of them asks for a save exactly if it changed anything; only a renewal asks for it at once. */
  lemma ChangesAreDirty(st: Store, h: Hash, now: int)
    ensures Cleanup(st, now).dirty <==> st.dirty || exists g :: g in st.sessions && st.sessions[g].refreshExpiresAt < now
    ensures Revoke(st, h).dirty <==> st.dirty || h in st.sessions
    ensures Touch(st, h, now).dirty <==> st.dirty || TouchSaves(st, h, now) || (h in st.sessions && st.sessions[h].refreshExpiresAt < now)
    ensures TouchSaves(st, h, now) <==>
              && h in st.sessions && now <= st.sessions[h].expiresAt && now <= st.sessions[h].refreshExpiresAt
              && st.sessions[h].lastSeen + 300_000_000_000 <= now
  {
    if g :| g in st.sessions && st.sessions[g].refreshExpiresAt < now { assert g in ExpiredHashes(st, now); }
    if ExpiredHashes(st, now) != {} { var g :| g in ExpiredHashes(st, now); }
  }
}
