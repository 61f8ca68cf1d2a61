/** API tokens: scoped bearer tokens kept in a map by hash and persisted, next to the
    session rows, in the shared state file. */
module ApiTokens {

  import opened SessionStore
  import opened StateFile
  import opened SessionFile
  import opened SessionTokens
  import SessionRuns
  import opened Ascii

  /** Path pattern to allowed methods. */
  type Scopes = map<string, set<string>>

  datatype TokenInfo = TokenInfo(hash: Hash, username: string, scopes: Scopes, createdAt: int)

  /** Full-match regular expression engine; the only pattern whose meaning matters
      here is the one an empty scope path is anchored to. */
  type Matcher = f: (string, string) -> bool | forall path :: f("^$", path) <==> path == ""
    witness (pattern: string, path: string) => path == ""

  /** Scope paths are anchored at both ends unless they already are. */
  function Anchored(path: string): string {
    var left := if path == "" || path[0] != '^' then "^" + path else path;
    if left[|left| - 1] != '$' then left + "$" else left
  }

  predicate Allows(methods: set<string>, verb: string) {
    exists m :: m in methods && IEquals(m, Upper(verb))
  }

  predicate ScopeGrants(scopes: Scopes, scope: string, path: string, verb: string, matches: Matcher) {
    scope in scopes && matches(Anchored(scope), path) && Allows(scopes[scope], verb)
  }

  predicate Authorized(info: TokenInfo, path: string, verb: string, matches: Matcher) {
    exists scope :: scope in info.scopes && ScopeGrants(info.scopes, scope, path, verb, matches)
  }

  /** The pattern of a scope is its path between '^' and '$', each put there unless it is already. */
  lemma AnchoredMeans(path: string)
    ensures Anchored(path) ==
            (if path != "" && path[0] == '^' then "" else "^") + path + (if path != "" && path[|path| - 1] == '$' then "" else "$")
  {
  }

  /** A method of a scope allows a request exactly if it is the request's up to case. */
  lemma AllowsMeans(methods: set<string>, verb: string)
    ensures Allows(methods, verb) <==> exists m :: m in methods && SameUpToCase(m, verb)
  {
    forall m ensures IEquals(m, Upper(verb)) <==> SameUpToCase(m, verb) {
      IEqualsMeans(m, verb);
      UpperTwice(verb);
    }
  }

  lemma {:induction false} UpperTwice(s: string)
    ensures Upper(Upper(s)) == Upper(s)
  {
    if s != "" { UpperTwice(s[1..]); }
  }

  /** Path and method, as the token's scope `scope` asks for them. */
  predicate AsksFor(info: TokenInfo, scope: string, m: string, path: string, verb: string, matches: Matcher) {
    && scope in info.scopes && m in info.scopes[scope] && SameUpToCase(m, verb)
    && matches((if scope != "" && scope[0] == '^' then "" else "^") + scope
               + (if scope != "" && scope[|scope| - 1] == '$' then "" else "$"), path)
  }

  lemma AuthorizedMeans(info: TokenInfo, path: string, verb: string, matches: Matcher)
    ensures Authorized(info, path, verb, matches) <==> exists scope, m :: AsksFor(info, scope, m, path, verb, matches)
  {
    forall scope | scope in info.scopes
      ensures ScopeGrants(info.scopes, scope, path, verb, matches) <==> exists m :: AsksFor(info, scope, m, path, verb, matches)
    {
      AnchoredMeans(scope);
      AllowsMeans(info.scopes[scope], verb);
      if m :| m in info.scopes[scope] && SameUpToCase(m, verb) && ScopeGrants(info.scopes, scope, path, verb, matches) {
        assert AsksFor(info, scope, m, path, verb, matches);
      }
      if m :| AsksFor(info, scope, m, path, verb, matches) {
        assert m in info.scopes[scope] && SameUpToCase(m, verb);
      }
    }
  }

  //////////////////// What the file keeps ////////////////////

  ghost predicate ListsMethods(row: seq<string>, methods: set<string>) {
    forall m :: m in row <==> m in methods
  }

  /** `rows` lists every scope once, in some order. */
  ghost predicate ListsScopes(rows: seq<ScopeRow>, scopes: Scopes) {
    && (forall i, j | 0 <= i < j < |rows| :: rows[i].path != rows[j].path)
    && (forall i | 0 <= i < |rows| :: rows[i].path in scopes && ListsMethods(rows[i].methods, scopes[rows[i].path]))
    && (forall p | p in scopes :: exists i :: 0 <= i < |rows| && rows[i].path == p)
  }

  ghost predicate IsRowOf(row: TokenRow, info: TokenInfo) {
    && row.hash == info.hash && row.username == info.username && row.createdAt == ToSeconds(info.createdAt)
    && ListsScopes(row.scopes, info.scopes)
  }

  /** `rows` lists every token once, in some order. */
  ghost predicate ListsTokens(rows: seq<TokenRow>, tokens: map<Hash, TokenInfo>) {
    && (forall i, j | 0 <= i < j < |rows| :: rows[i].hash != rows[j].hash)
    && (forall i | 0 <= i < |rows| :: rows[i].hash in tokens && IsRowOf(rows[i], tokens[rows[i].hash]))
    && (forall h | h in tokens :: exists i :: 0 <= i < |rows| && rows[i].hash == h)
  }

  function MethodSet(row: seq<string>): set<string> { set m | m in row }

  /** One iteration of the scope loop: rows without path or methods are dropped, the first path wins. */
  function LoadScope(scopes: Scopes, row: ScopeRow): Scopes {
    if row.path == "" || MethodSet(row.methods) == {} || row.path in scopes then scopes
    else scopes[row.path := MethodSet(row.methods)]
  }

  function LoadScopes(rows: seq<ScopeRow>): Scopes {
    if rows == [] then map[] else LoadScope(LoadScopes(rows[..|rows| - 1]), rows[|rows| - 1])
  }

  function LoadToken(tokens: map<Hash, TokenInfo>, row: TokenRow): map<Hash, TokenInfo> {
    if row.hash == "" || row.hash in tokens then tokens
    else tokens[row.hash := TokenInfo(row.hash, row.username, LoadScopes(row.scopes), Ticks(row.createdAt))]
  }

  function LoadTokens(rows: seq<TokenRow>): map<Hash, TokenInfo> {
    if rows == [] then map[] else LoadToken(LoadTokens(rows[..|rows| - 1]), rows[|rows| - 1])
  }

  /** What is left of a token after a save and a load. */
  function KeptScopes(scopes: Scopes): Scopes {
    map p | p in scopes && p != "" && scopes[p] != {} :: scopes[p]
  }

  function Kept(info: TokenInfo): TokenInfo {
    info.(scopes := KeptScopes(info.scopes), createdAt := Whole(info.createdAt))
  }

  lemma {:induction false} LoadedScope(rows: seq<ScopeRow>, p: string)
    requires forall i, j | 0 <= i < j < |rows| :: rows[i].path != rows[j].path
    ensures forall i | 0 <= i < |rows| && rows[i].path == p ::
              if p == "" || MethodSet(rows[i].methods) == {} then p !in LoadScopes(rows)
              else p in LoadScopes(rows) && LoadScopes(rows)[p] == MethodSet(rows[i].methods)
    ensures p in LoadScopes(rows) ==> exists i :: 0 <= i < |rows| && rows[i].path == p
  {
    if rows != [] {
      var init := rows[..|rows| - 1];
      LoadedScope(init, p);
      assert forall i | 0 <= i < |init| :: init[i] == rows[i];
      if p in LoadScopes(init) {
        var i :| 0 <= i < |init| && init[i].path == p;
        assert rows[i].path == p;
      }
    }
  }

  lemma LoadedScopesAreKept(rows: seq<ScopeRow>, scopes: Scopes)
    requires ListsScopes(rows, scopes)
    ensures LoadScopes(rows) == KeptScopes(scopes)
  {
    forall p
      ensures p in LoadScopes(rows) <==> p in KeptScopes(scopes)
      ensures p in LoadScopes(rows) ==> LoadScopes(rows)[p] == KeptScopes(scopes)[p]
    {
      LoadedScope(rows, p);
      if p in scopes {
        var i :| 0 <= i < |rows| && rows[i].path == p;
        assert MethodSet(rows[i].methods) == scopes[p];
      }
    }
  }

  lemma {:induction false} LoadedToken(rows: seq<TokenRow>, h: Hash)
    requires forall i, j | 0 <= i < j < |rows| :: rows[i].hash != rows[j].hash
    ensures forall i | 0 <= i < |rows| && rows[i].hash == h && h != "" ::
              h in LoadTokens(rows) &&
              LoadTokens(rows)[h] == TokenInfo(h, rows[i].username, LoadScopes(rows[i].scopes), Ticks(rows[i].createdAt))
    ensures h in LoadTokens(rows) ==> h != "" && exists i :: 0 <= i < |rows| && rows[i].hash == h
  {
    if rows != [] {
      var init := rows[..|rows| - 1];
      LoadedToken(init, h);
      assert forall i | 0 <= i < |init| :: init[i] == rows[i];
      if h in LoadTokens(init) {
        var i :| 0 <= i < |init| && init[i].hash == h;
        assert rows[i].hash == h;
      }
    }
  }

  /** Hashes are never empty and each token is stored under its own. */
  ghost predicate WellKeyed(tokens: map<Hash, TokenInfo>) {
    forall h | h in tokens :: h != "" && tokens[h].hash == h
  }

  /** Whatever rows are loaded, tokens end up under their own hashes. */
  lemma {:induction false} LoadedTokensAreWellKeyed(rows: seq<TokenRow>)
    ensures WellKeyed(LoadTokens(rows))
  {
    hide LoadScopes;
    if rows != [] { LoadedTokensAreWellKeyed(rows[..|rows| - 1]); }
  }

  /** Loading what a save wrote gives every token back, cut down to its usable scopes. */
  lemma ReloadGivesTokens(rows: seq<TokenRow>, tokens: map<Hash, TokenInfo>)
    requires ListsTokens(rows, tokens) && WellKeyed(tokens)
    ensures LoadTokens(rows) == map h | h in tokens :: Kept(tokens[h])
  {
    forall h
      ensures h in LoadTokens(rows) <==> h in tokens
      ensures h in tokens ==> LoadTokens(rows)[h] == Kept(tokens[h])
    {
      LoadedToken(rows, h);
      if h in tokens {
        var i :| 0 <= i < |rows| && rows[i].hash == h;
        LoadedScopesAreKept(rows[i].scopes, tokens[h].scopes);
      }
    }
  }

  /** A save and a load change the answer for a request exactly when its path is empty,
      the empty scope grants it and no other scope does. */
  lemma ReloadChangesDecision(info: TokenInfo, path: string, verb: string, matches: Matcher)
    ensures Authorized(Kept(info), path, verb, matches) ==> Authorized(info, path, verb, matches)
    ensures Authorized(Kept(info), path, verb, matches) != Authorized(info, path, verb, matches) <==>
            && path == "" && "" in info.scopes && Allows(info.scopes[""], verb)
            && (forall scope | scope in info.scopes && scope != "" :: !ScopeGrants(info.scopes, scope, path, verb, matches))
  {
    var kept := Kept(info);
    assert Anchored("") == "^$";
    forall scope | scope in kept.scopes && ScopeGrants(kept.scopes, scope, path, verb, matches)
      ensures ScopeGrants(info.scopes, scope, path, verb, matches)
    {
    }
    forall scope | scope in info.scopes && scope != "" && ScopeGrants(info.scopes, scope, path, verb, matches)
      ensures scope in kept.scopes && ScopeGrants(kept.scopes, scope, path, verb, matches)
    {
    }
    assert ScopeGrants(info.scopes, "", path, verb, matches) <==>
           "" in info.scopes && path == "" && Allows(info.scopes[""], verb);
  }

  /** It does happen: a token for nothing but the empty path is granted it before a restart only. */
  lemma EmptyPathIsForgotten(matches: Matcher)
    ensures var info := TokenInfo("t", "u", map["" := {"GET"}], 0);
            Authorized(info, "", "GET", matches) && !Authorized(Kept(info), "", "GET", matches)
  {
    var info := TokenInfo("t", "u", map["" := {"GET"}], 0);
    assert IEquals("GET", Upper("GET"));
    assert "GET" in info.scopes[""] && Allows(info.scopes[""], "GET");
    ReloadChangesDecision(info, "", "GET", matches);
  }

  /** So for every request with a path, the answer survives a restart. */
  lemma ReloadKeepsDecisions(rows: seq<TokenRow>, tokens: map<Hash, TokenInfo>, h: Hash,
                             path: string, verb: string, matches: Matcher)
    requires ListsTokens(rows, tokens) && WellKeyed(tokens) && path != ""
    ensures (h in LoadTokens(rows) && Authorized(LoadTokens(rows)[h], path, verb, matches)) <==>
            (h in tokens && Authorized(tokens[h], path, verb, matches))
  {
    ReloadGivesTokens(rows, tokens);
    if h in tokens { ReloadChangesDecision(tokens[h], path, verb, matches); }
  }

  //////////////////// The manager ////////////////////

  class ApiTokenManager {
    var tokens: map<Hash, TokenInfo>
    const file: StateStorage
    const hash: Hasher
    const matches: Matcher

    constructor (file: StateStorage, hash: Hasher, matches: Matcher)
      ensures tokens == map[] && WellKeyed(tokens)
      ensures this.file == file && this.hash == hash && this.matches == matches
    {
      tokens := map[];
      this.file, this.hash, this.matches := file, hash, matches;
    }

    /** Accepts a request when some scope of the token matches its path and allows its method. */
    method AuthenticateToken(token: string, path: string, verb: string) returns (ok: bool)
      ensures ok <==> hash(token) in tokens && Authorized(tokens[hash(token)], path, verb, matches)
      ensures ok <==> hash(token) in tokens && exists scope, m :: AsksFor(tokens[hash(token)], scope, m, path, verb, matches)
    {
      hide Authorized, AsksFor;
      var tokenHash := hash(token);
      if tokenHash !in tokens {
        return false;
      }
      AuthorizedMeans(tokens[tokenHash], path, verb, matches);
      ok := AnyScopeGrants(tokens[tokenHash], path, verb, matches);
    }

    static method AnyScopeGrants(info: TokenInfo, path: string, verb: string, matches: Matcher) returns (ok: bool)
      ensures ok == Authorized(info, path, verb, matches)
    {
      var todo := info.scopes.Keys;
      while todo != {}
        invariant todo <= info.scopes.Keys
        invariant forall scope | scope in info.scopes && scope !in todo ::
                    !ScopeGrants(info.scopes, scope, path, verb, matches)
        decreases todo
      {
        var scope :| scope in todo;
        todo := todo - {scope};
        if matches(Anchored(scope), path) {
          var allowed := AnyMethodAllows(info.scopes[scope], verb);
          if allowed {
            assert ScopeGrants(info.scopes, scope, path, verb, matches);
            return true;
          }
        }
      }
      return false;
    }

    static method AnyMethodAllows(methods: set<string>, verb: string) returns (ok: bool)
      ensures ok == Allows(methods, verb)
    {
      var todo := methods;
      while todo != {}
        invariant todo <= methods
        invariant forall m | m in methods && m !in todo :: !IEquals(m, Upper(verb))
        decreases todo
      {
        var m :| m in todo;
        todo := todo - {m};
        if IEquals(m, Upper(verb)) {
          return true;
        }
      }
      return false;
    }

    /** Stores a token under its hash and saves; the hash names the token from then on. */
    method CreateApiToken(token: string, scopes: Scopes, username: string, now: int, io: Io)
      requires WellKeyed(tokens)
      modifies this, file
      ensures tokens == old(tokens)[hash(token) := TokenInfo(hash(token), username, scopes, now)]
      ensures WellKeyed(tokens)
      ensures SavedTokens(tokens, old(file.disk), io, file.disk)
    {
      var tokenHash := hash(token);
      tokens := tokens[tokenHash := TokenInfo(tokenHash, username, scopes, now)];
      SaveApiTokens(io);
    }

    method RevokeApiTokenByHash(tokenHash: Hash, io: Io) returns (erased: bool)
      requires WellKeyed(tokens)
      modifies this, file
      ensures erased == (tokenHash in old(tokens))
      ensures tokens == old(tokens) - {tokenHash} && WellKeyed(tokens)
      ensures if erased then SavedTokens(tokens, old(file.disk), io, file.disk) else file.disk == old(file.disk)
    {
      assert WellKeyed(tokens - {tokenHash});
      erased := tokenHash in tokens;
      if erased {
        tokens := tokens - {tokenHash};
        SaveApiTokens(io);
      } else {
        assert tokens - {tokenHash} == tokens;
      }
    }

    /** Rewrites the token subtree of the file and nothing else; an unreadable file is left alone. */
    method SaveApiTokens(io: Io)
      requires WellKeyed(tokens)
      modifies file
      ensures SavedTokens(tokens, old(file.disk), io, file.disk)
    {
      var rows := TokenRowsOf(tokens);
      var root := Root([], [], map[]);
      if file.disk != Missing {
        if !(file.disk.Present? && io.readable) {
          return;
        }
        root := file.disk.root;
      }
      match io.write {
        case Written => file.disk := Present(root.(tokens := rows));
        case KeptOld =>
        case LeftCorrupt => file.disk := Corrupt;
      }
    }

    method LoadApiTokens(readable: bool)
      modifies this
      ensures tokens == if file.disk.Present? && readable then LoadTokens(file.disk.root.tokens) else map[]
      ensures WellKeyed(tokens)
    {
      tokens := map[];
      if !(file.disk.Present? && readable) {
        return;
      }
      var rows := file.disk.root.tokens;
      var n := 0;
      while n < |rows|
        invariant n <= |rows|
        invariant tokens == LoadTokens(rows[..n])
      {
        assert rows[..n + 1][..n] == rows[..n];
        var row := rows[n];
        if row.hash != "" {
          var scopes := BuildScopeMap(row.scopes);
          if row.hash !in tokens {
            tokens := tokens[row.hash := TokenInfo(row.hash, row.username, scopes, Ticks(row.createdAt))];
          }
        }
        n := n + 1;
      }
      assert rows[..n] == rows;
      LoadedTokensAreWellKeyed(rows);
    }

    static method BuildScopeMap(rows: seq<ScopeRow>) returns (scopes: Scopes)
      ensures scopes == LoadScopes(rows)
    {
      scopes := map[];
      var n := 0;
      while n < |rows|
        invariant n <= |rows|
        invariant scopes == LoadScopes(rows[..n])
      {
        assert rows[..n + 1][..n] == rows[..n];
        var row := rows[n];
        var methods := MethodSet(row.methods);
        if row.path != "" && methods != {} && row.path !in scopes {
          scopes := scopes[row.path := methods];
        }
        n := n + 1;
      }
      assert rows[..n] == rows;
    }

    static method MethodRowOf(methods: set<string>) returns (row: seq<string>)
      ensures ListsMethods(row, methods)
    {
      row := [];
      var todo := methods;
      while todo != {}
        invariant todo <= methods
        invariant forall m :: m in row <==> m in methods && m !in todo
        decreases todo
      {
        var m :| m in todo;
        row, todo := row + [m], todo - {m};
      }
    }

    static method ScopeRowsOf(scopes: Scopes) returns (rows: seq<ScopeRow>)
      ensures ListsScopes(rows, scopes)
    {
      rows := [];
      var todo := scopes.Keys;
      while todo != {}
        invariant todo <= scopes.Keys
        invariant ListsScopes(rows, scopes - todo)
        decreases todo
      {
        var p :| p in todo;
        var methods := MethodRowOf(scopes[p]);
        ghost var before, done := rows, scopes - todo;
        rows, todo := rows + [ScopeRow(p, methods)], todo - {p};
        assert rows[|before|].path == p;
        assert forall i | 0 <= i < |before| :: rows[i] == before[i];
        forall q | q in scopes - todo ensures exists i :: 0 <= i < |rows| && rows[i].path == q {
          if q != p {
            assert q in done;
            var i :| 0 <= i < |before| && before[i].path == q;
            assert rows[i].path == q;
          }
        }
      }
      assert scopes - todo == scopes;
    }

    static method TokenRowsOf(tokens: map<Hash, TokenInfo>) returns (rows: seq<TokenRow>)
      requires WellKeyed(tokens)
      ensures ListsTokens(rows, tokens)
    {
      rows := [];
      var todo := tokens.Keys;
      while todo != {}
        invariant todo <= tokens.Keys
        invariant ListsTokens(rows, tokens - todo)
        decreases todo
      {
        var h :| h in todo;
        var scopes := ScopeRowsOf(tokens[h].scopes);
        ghost var before, done := rows, tokens - todo;
        rows := rows + [TokenRow(h, tokens[h].username, ToSeconds(tokens[h].createdAt), scopes)];
        todo := todo - {h};
        assert rows[|before|].hash == h;
        assert forall i | 0 <= i < |before| :: rows[i] == before[i];
        forall g | g in tokens - todo ensures exists i :: 0 <= i < |rows| && rows[i].hash == g {
          if g != h {
            assert g in done;
            var i :| 0 <= i < |before| && before[i].hash == g;
            assert rows[i].hash == g;
          }
        }
      }
      assert tokens - todo == tokens;
    }
  }

  /** One save of the token store: only the token subtree changes, and a file that
      cannot be read is not overwritten. */
  ghost predicate SavedTokens(tokens: map<Hash, TokenInfo>, disk: Disk, io: Io, disk': Disk) {
    if SaveSucceeds(disk, io) then
      && disk'.Present?
      && ListsTokens(disk'.root.tokens, tokens)
      && disk'.root == ReadForUpdate(disk, io).value.(tokens := disk'.root.tokens)
    else disk' == AfterFailure(disk, io)
  }

  /** Neither store's save touches the other's subtree, whether or not it succeeds,
      short of damaging the whole file. */
  lemma SavesLeaveOtherSubtreeAlone(tokens: map<Hash, TokenInfo>, st: Store, disk: Disk, io: Io, st': Store, disk': Disk)
    ensures SavedTokens(tokens, disk, io, disk') ==> disk' == Corrupt || SessionRows(disk') == SessionRows(disk)
    ensures Saved(st, disk, io, st', disk') ==> disk' == Corrupt || TokenRows(disk') == TokenRows(disk)
  {
  }

  /** In the runs of the session store, a save of the tokens is the event that says so. */
  lemma TokenSaveIsEvent(tokens: map<Hash, TokenInfo>, w: SessionRuns.World, io: Io, disk': Disk, derive: Labeler)
    requires SavedTokens(tokens, w.disk, io, disk')
    ensures SessionRuns.Next(w, SessionRuns.TokensE(io), w.(disk := disk'), derive)
  {
  }
}
