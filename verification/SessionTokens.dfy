/** The session token manager itself: the two maps and the dirty flag are fields that
    the methods update in place. Clock readings, random strings, configured lifetimes
    and file system outcomes come in as parameters. */
module SessionTokens {

  import opened Wrappers
  import opened SessionStore
  import opened StateFile
  import opened SessionFile

  /** The token hash; its hexadecimal text is never empty. */
  type Hasher = f: string -> string | forall t :: f(t) != "" witness (t: string) => "?"

  /** The three random strings of one token pair. */
  datatype Randoms = Randoms(sessionToken: string, refreshToken: string, rotationId: string)

  datatype Bundle = Bundle(
    sessionToken: string,
    refreshToken: string,
    sessionTtl: int,
    refreshTtl: int,
    rememberMe: bool)

  /** What the caller of an issue gets back: the effective lifetimes in seconds. */
  function IssuedBundle(randoms: Randoms, sessionTtl: int, refreshTtl: int, rememberMe: bool, cfg: Lifetimes): Bundle {
    var access := AccessTtl(sessionTtl, cfg);
    Bundle(randoms.sessionToken, randoms.refreshToken, access, RefreshTtl(refreshTtl, access, rememberMe, cfg), rememberMe)
  }

  /** What the caller of a refresh gets back. */
  function RefreshedBundle(outcome: RefreshOutcome, randoms: Randoms, now: int): Option<Bundle> {
    if outcome.Rotated? then
      Some(Bundle(randoms.sessionToken, randoms.refreshToken, ToSeconds(outcome.session.expiresAt - now),
                  ToSeconds(outcome.session.refreshExpiresAt - now), outcome.session.rememberMe))
    else None
  }

  /** A bundle reports lifetimes in seconds: the refresh lifetime exactly, the access
      lifetime never more than that. */
  lemma ReportedTtls(now: int, session: int, refresh: int)
    requires session <= refresh && 0 < refresh
    ensures var deadline := now + Ticks(refresh);
            && ToSeconds(deadline - now) == refresh
            && ToSeconds(Min(now + Ticks(session), deadline) - now) == session
  {
  }

  /** A successful refresh hands out the new pair and reports the lifetimes in whole seconds:
      the configured one, or what is left until the deadline if that is less. */
  lemma RefreshReports(st: Store, r: Hash, client: Client, minted: Minted, sessionTtl: int, now: int, randoms: Randoms)
    requires IndexSound(st)
    ensures var bundle := RefreshedBundle(RefreshOutcomeOf(st, r, client, minted, sessionTtl, now), randoms, now);
            if r in st.index && now <= st.sessions[st.index[r]].refreshExpiresAt then
              var s := st.sessions[st.index[r]];
              var left := s.refreshExpiresAt - now;
              bundle == Some(Bundle(randoms.sessionToken, randoms.refreshToken,
                                    if sessionTtl * 1_000_000_000 <= left then sessionTtl else left / 1_000_000_000,
                                    left / 1_000_000_000, s.rememberMe))
            else bundle == None
  {
    if r in st.index && now <= st.sessions[st.index[r]].refreshExpiresAt {
      SecondsOfWhole(sessionTtl);
    }
  }

  /** A login hands out its pair and reports the lifetimes its tokens have. */
  lemma IssueReports(randoms: Randoms, sessionTtl: int, refreshTtl: int, rememberMe: bool, cfg: Lifetimes)
    ensures var bundle := IssuedBundle(randoms, sessionTtl, refreshTtl, rememberMe, cfg);
            var access := if sessionTtl > 0 then sessionTtl else cfg.session;
            var kept := if refreshTtl > 0 then refreshTtl else if !rememberMe then 86_400
                        else if cfg.rememberMe > 0 then cfg.rememberMe else 604_800;
            && bundle.sessionToken == randoms.sessionToken && bundle.refreshToken == randoms.refreshToken
            && bundle.rememberMe == rememberMe && bundle.sessionTtl == access
            && bundle.refreshTtl == if kept < access then access else kept
  {
  }

  class SessionTokenManager {
    var sessions: map<Hash, Session>
    var refreshIndex: map<Hash, Hash>
    var dirty: bool
    const file: StateStorage
    const hash: Hasher
    const derive: Labeler

    constructor (file: StateStorage, hash: Hasher, derive: Labeler)
      ensures this.file == file && this.hash == hash && this.derive == derive
      ensures State() == Empty
    {
      sessions, refreshIndex, dirty := map[], map[], false;
      this.file, this.hash, this.derive := file, hash, derive;
    }

    function State(): Store
      reads this
    {
      Store(sessions, refreshIndex, dirty)
    }

    function MintedFrom(randoms: Randoms): Minted {
      Minted(hash(randoms.sessionToken), hash(randoms.refreshToken), randoms.rotationId)
    }

    function ClientFrom(userAgent: string, remoteAddress: string): Client {
      Client(userAgent, remoteAddress, derive(userAgent, remoteAddress))
    }

    /** Writes one row for each session of `snapshot`, in whatever order the map yields them. */
    static method RowsOf(snapshot: map<Hash, Session>) returns (rows: seq<SessionRow>)
      ensures Lists(rows, snapshot)
    {
      rows := [];
      var todo := snapshot.Keys;
      while todo != {}
        invariant todo <= snapshot.Keys
        invariant DistinctHashes(rows)
        invariant forall i | 0 <= i < |rows| :: rows[i].hash in snapshot && rows[i].hash !in todo
                                                && rows[i] == ToRow(rows[i].hash, snapshot[rows[i].hash])
        invariant forall h | h in snapshot && h !in todo :: Mentions(rows, h)
        decreases todo
      {
        var h :| h in todo;
        ghost var before := rows;
        rows := rows + [ToRow(h, snapshot[h])];
        todo := todo - {h};
        assert rows[|before|].hash == h;
        forall g | g in snapshot && g !in todo ensures Mentions(rows, g) {
          if g != h {
            var i :| 0 <= i < |before| && before[i].hash == g;
            assert rows[i].hash == g;
          }
        }
      }
    }

    /** Saves a dirty store: the file's other subtrees are kept, and when reading or
        writing fails the store stays dirty. */
    method SaveSessionTokens(io: Io)
      modifies this, file
      ensures Saved(old(State()), old(file.disk), io, State(), file.disk)
      ensures TokenRows(file.disk) == if file.disk == Corrupt then [] else old(TokenRows(file.disk))
    {
      if !dirty {
        return;
      }
      var snapshot := sessions;
      dirty := false;
      var writeFailed := false;
      var root := Root([], [], map[]);
      if file.disk != Missing {
        if file.disk.Present? && io.readable {
          root := file.disk.root;
        } else {
          writeFailed := true;
        }
      }
      if !writeFailed {
        var rows := RowsOf(snapshot);
        root := root.(sessions := rows);
        match io.write {
          case Written => file.disk := Present(root);
          case KeptOld => writeFailed := true;
          case LeftCorrupt =>
            file.disk := Corrupt;
            writeFailed := true;
        }
      }
      if writeFailed {
        dirty := true;
      }
    }

    /** Replaces memory by what the file holds at `now`, and saves at once when a row needed repair. */
    method LoadSessionTokens(now: int, readable: bool, io: Io)
      modifies this, file
      ensures Saved(Load(old(file.disk), readable, now, derive), old(file.disk), io, State(), file.disk)
    {
      sessions, refreshIndex := map[], map[];
      if !(file.disk.Present? && readable) {
        dirty := false;
        return;
      }
      var rows := file.disk.root.sessions;
      var needsResave := false;
      var n := 0;
      while n < |rows|
        invariant n <= |rows|
        invariant unchanged(file)
        invariant Store(sessions, refreshIndex, needsResave) == LoadRows(rows[..n], now, derive)
      {
        var row := rows[n];
        ghost var before := Store(sessions, refreshIndex, needsResave);
        assert rows[..n + 1][..n] == rows[..n];
        if row.hash != "" {
          var (s, repaired) := FromRow(row, derive);
          if repaired {
            needsResave := true;
          }
          if !(now > s.refreshExpiresAt) && row.hash !in sessions {
            sessions := sessions[row.hash := s];
            if s.refreshHash != "" {
              refreshIndex := refreshIndex[s.refreshHash := row.hash];
            }
          }
        }
        assert Store(sessions, refreshIndex, needsResave) == LoadRow(before, row, now, derive);
        n := n + 1;
      }
      assert rows[..n] == rows;
      dirty := needsResave;
      if needsResave {
        SaveSessionTokens(io);
      }
    }

    /** The critical section of an issue: the new session replaces any entry under its hash. */
    method Enter(username: string, sessionTtl: int, refreshTtl: int, rememberMe: bool, cfg: Lifetimes,
                 client: Client, minted: Minted, randoms: Randoms, now: int) returns (bundle: Bundle)
      modifies this
      ensures State() == Issue(old(State()), username, sessionTtl, refreshTtl, rememberMe, cfg, client, minted, now)
      ensures bundle == IssuedBundle(randoms, sessionTtl, refreshTtl, rememberMe, cfg)
    {
      var session, refresh := sessionTtl, refreshTtl;
      if session <= 0 {
        session := cfg.session;
      }
      if refresh <= 0 {
        refresh := if !rememberMe then DEFAULT_REFRESH_TTL
                   else if cfg.rememberMe <= 0 then DEFAULT_REMEMBER_ME_TTL else cfg.rememberMe;
      }
      if refresh < session {
        refresh := session;
      }
      assert session == AccessTtl(sessionTtl, cfg) && refresh == RefreshTtl(refreshTtl, session, rememberMe, cfg);
      var refreshExpiresAt := now + Ticks(refresh);
      var sessionExpiresAt := Min(now + Ticks(session), refreshExpiresAt);
      ReportedTtls(now, session, refresh);
      bundle := Bundle(randoms.sessionToken, randoms.refreshToken, ToSeconds(sessionExpiresAt - now),
                       ToSeconds(refreshExpiresAt - now), rememberMe);
      var token := NewSession(username, rememberMe, client, minted, now, sessionExpiresAt, refreshExpiresAt);
      sessions := sessions[minted.sessionHash := token];
      refreshIndex := refreshIndex[minted.refreshHash := minted.sessionHash];
      dirty := true;
    }

    /** Issues a pair, drops what has expired by then, and saves. */
    method IssueSessionTokens(username: string, sessionTtl: int, refreshTtl: int, userAgent: string,
                              remoteAddress: string, rememberMe: bool, cfg: Lifetimes, randoms: Randoms,
                              now: int, cleanupNow: int, io: Io) returns (bundle: Bundle)
      modifies this, file
      ensures Saved(Cleanup(Issue(old(State()), username, sessionTtl, refreshTtl, rememberMe, cfg,
                                  Client(userAgent, remoteAddress, derive(userAgent, remoteAddress)),
                                  Minted(hash(randoms.sessionToken), hash(randoms.refreshToken), randoms.rotationId), now), cleanupNow),
                    old(file.disk), io, State(), file.disk)
      ensures bundle == IssuedBundle(randoms, sessionTtl, refreshTtl, rememberMe, cfg)
    {
      bundle := Enter(username, sessionTtl, refreshTtl, rememberMe, cfg, ClientFrom(userAgent, remoteAddress),
                      MintedFrom(randoms), randoms, now);
      var _ := CleanupExpiredSessionTokens(cleanupNow);
      SaveSessionTokens(io);
    }

    /** The critical section of a refresh, for a hash that the index knows. */
    method Redeem(refreshHash: Hash, client: Client, minted: Minted, sessionTtl: int, randoms: Randoms, now: int)
      returns (bundle: Option<Bundle>)
      requires refreshHash in refreshIndex
      modifies this
      ensures State() == Refresh(old(State()), refreshHash, client, minted, sessionTtl, now)
      ensures bundle == RefreshedBundle(RefreshOutcomeOf(old(State()), refreshHash, client, minted, sessionTtl, now), randoms, now)
    {
      bundle := None;
      dirty := true;
      var sessionHash := refreshIndex[refreshHash];
      if sessionHash !in sessions {
        refreshIndex := refreshIndex - {refreshHash};
        return;
      }
      var entry := sessions[sessionHash];
      refreshIndex := refreshIndex - {refreshHash};
      sessions := sessions - {sessionHash};
      if !(now > entry.refreshExpiresAt) {
        var sessionExpiresAt := Min(now + Ticks(sessionTtl), entry.refreshExpiresAt);
        var updated := Session(entry.username, now, sessionExpiresAt, entry.refreshExpiresAt, client.userAgent,
                               client.remoteAddress, now, entry.rememberMe, client.deviceLabel,
                               minted.refreshHash, minted.rotationId);
        if minted.sessionHash !in sessions {
          sessions := sessions[minted.sessionHash := updated];
        }
        refreshIndex := refreshIndex[minted.refreshHash := minted.sessionHash];
        bundle := Some(Bundle(randoms.sessionToken, randoms.refreshToken, ToSeconds(sessionExpiresAt - now),
                              ToSeconds(entry.refreshExpiresAt - now), entry.rememberMe));
      }
    }

    /** Redeems a refresh token: a new pair, or nothing when it is unknown or too late. */
    method RefreshSessionTokens(refreshToken: string, userAgent: string, remoteAddress: string,
                                sessionTtl: int, randoms: Randoms, now: int, io: Io)
      returns (bundle: Option<Bundle>)
      modifies this, file
      ensures refreshToken == "" || hash(refreshToken) !in old(refreshIndex) ==>
                State() == old(State()) && file.disk == old(file.disk) && bundle == None
      ensures refreshToken != "" && hash(refreshToken) in old(refreshIndex) ==>
                var client := Client(userAgent, remoteAddress, derive(userAgent, remoteAddress));
                var minted := Minted(hash(randoms.sessionToken), hash(randoms.refreshToken), randoms.rotationId);
                && Saved(Refresh(old(State()), hash(refreshToken), client, minted, sessionTtl, now),
                         old(file.disk), io, State(), file.disk)
                && bundle == RefreshedBundle(RefreshOutcomeOf(old(State()), hash(refreshToken), client, minted, sessionTtl, now),
                                             randoms, now)
    {
      if refreshToken == "" || hash(refreshToken) !in refreshIndex {
        return None;
      }
      bundle := Redeem(hash(refreshToken), ClientFrom(userAgent, remoteAddress), MintedFrom(randoms), sessionTtl, randoms, now);
      SaveSessionTokens(io);
    }

    /** Erases one session, and the index entry of its refresh hash if it has one. */
    method Erase(h: Hash)
      requires h in sessions
      modifies this
      ensures State() == DropAll(old(State()), {h})
    {
      var r := sessions[h].refreshHash;
      assert RefreshHashes(sessions, {h}) == if r == "" then {} else {r};
      if r != "" {
        refreshIndex := refreshIndex - {r};
      }
      sessions := sessions - {h};
      dirty := true;
    }

    method ValidateSessionToken(token: string, now: int, io: Io) returns (valid: bool)
      modifies this, file
      ensures valid == Accepts(old(State()), hash(token), now)
      ensures if TouchSaves(old(State()), hash(token), now) then
                Saved(Touch(old(State()), hash(token), now), old(file.disk), io, State(), file.disk)
              else State() == Touch(old(State()), hash(token), now) && file.disk == old(file.disk)
    {
      var tokenHash := hash(token);
      if tokenHash !in sessions {
        return false;
      }
      var entry := sessions[tokenHash];
      if now > entry.refreshExpiresAt {
        Erase(tokenHash);
        return false;
      }
      if now > entry.expiresAt {
        return false;
      }
      if now - entry.lastSeen >= LAST_SEEN_INTERVAL {
        sessions := sessions[tokenHash := entry.(lastSeen := now)];
        dirty := true;
        SaveSessionTokens(io);
      }
      return true;
    }

    method GetUsernameForToken(token: string, now: int, io: Io) returns (username: Option<string>)
      modifies this, file
      ensures username == UsernameOf(old(State()), hash(token), now)
      ensures if TouchSaves(old(State()), hash(token), now) then
                Saved(Touch(old(State()), hash(token), now), old(file.disk), io, State(), file.disk)
              else State() == Touch(old(State()), hash(token), now) && file.disk == old(file.disk)
    {
      var tokenHash := hash(token);
      if tokenHash !in sessions {
        return None;
      }
      var entry := sessions[tokenHash];
      if now > entry.refreshExpiresAt {
        Erase(tokenHash);
        return None;
      }
      if now > entry.expiresAt {
        return None;
      }
      if now - entry.lastSeen >= LAST_SEEN_INTERVAL {
        sessions := sessions[tokenHash := entry.(lastSeen := now)];
        dirty := true;
        SaveSessionTokens(io);
      }
      return Some(entry.username);
    }

    method GetHashForToken(token: string, now: int) returns (found: Option<Hash>)
      ensures found == if Accepts(State(), hash(token), now) then Some(hash(token)) else None
    {
      var tokenHash := hash(token);
      if tokenHash !in sessions {
        return None;
      }
      if now > sessions[tokenHash].refreshExpiresAt || now > sessions[tokenHash].expiresAt {
        return None;
      }
      return Some(tokenHash);
    }

    method RevokeSessionByHash(tokenHash: Hash, io: Io) returns (removed: bool)
      modifies this, file
      ensures removed == (tokenHash in old(sessions))
      ensures if removed then Saved(Revoke(old(State()), tokenHash), old(file.disk), io, State(), file.disk)
              else State() == old(State()) && file.disk == old(file.disk)
    {
      removed := false;
      if tokenHash in sessions {
        Erase(tokenHash);
        removed := true;
        SaveSessionTokens(io);
      }
    }

    /** Revokes the session a refresh token belongs to. */
    method RevokeRefreshToken(refreshToken: string, io: Io) returns (removed: bool)
      modifies this, file
      ensures removed == (refreshToken != "" && hash(refreshToken) in old(refreshIndex)
                          && old(refreshIndex)[hash(refreshToken)] in old(sessions))
      ensures if removed then
                Saved(Revoke(old(State()), old(refreshIndex)[hash(refreshToken)]), old(file.disk), io, State(), file.disk)
              else State() == old(State()) && file.disk == old(file.disk)
    {
      if refreshToken == "" || hash(refreshToken) !in refreshIndex {
        return false;
      }
      removed := RevokeSessionByHash(refreshIndex[hash(refreshToken)], io);
    }

    /** Walks over the sessions and erases those past their refresh deadline. */
    method CleanupExpiredSessionTokens(now: int) returns (removed: bool)
      modifies this
      ensures State() == Cleanup(old(State()), now)
      ensures removed == (ExpiredHashes(old(State()), now) != {})
    {
      hide RefreshHashes;
      RefreshHashesOfNone(sessions);
      ghost var before := State();
      var todo := sessions.Keys;
      var erased: set<Hash> := {};
      while todo != {}
        invariant todo <= before.sessions.Keys && todo !! erased
        invariant erased == ExpiredHashes(before, now) - todo
        invariant sessions == before.sessions - erased
        invariant refreshIndex == before.index - RefreshHashes(before.sessions, erased)
        invariant dirty == before.dirty
        decreases todo
      {
        var h :| h in todo;
        todo := todo - {h};
        if now > sessions[h].refreshExpiresAt {
          var r := sessions[h].refreshHash;
          RefreshHashesOneMore(before.sessions, erased, h);
          if r != "" {
            refreshIndex := refreshIndex - {r};
          }
          sessions := sessions - {h};
          erased := erased + {h};
        }
      }
      removed := erased != {};
      assert erased == ExpiredHashes(before, now);
      if removed {
        dirty := true;
      } else {
        assert State() == before;
      }
    }
  }
}
