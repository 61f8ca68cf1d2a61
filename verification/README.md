# A formal model of Vibepollo's stateful cores

The modules here model the parts of the host whose behaviour is decided by state kept over
time or by exact bytes, and prove what they are meant to guarantee. Each source file's code
appears in its own form: objects and globals that are updated in place are classes, loops
are loops proved against a specification function, and what those functions guarantee is
proved about all inputs, all runs and all interleavings.

| modules | what they model |
|---|---|
| `SessionStore`, `StateFile`, `SessionFile`, `SessionTokens`, `SessionRuns` | session and refresh tokens: two maps kept inverse to each other, the state file, saves and reloads, and whole runs of interleaved requests |
| `ApiTokens` | API tokens, their scopes, and their half of the state file |
| `ZipFormat`, `ZipWriter`, `ZipBytes`, `CrashBundle` | ZIP archives with a reader that inverts the writers, their bytes in numbers, the size estimate, and the planning of crash bundles |
| `LogSanitizer` | masking personal data in exported logs |
| `ConfigText`, `ConfigLines`, `ConfigUpdate`, `ConfigLayers`, `FrameLimit` | the configuration file's parser and printer, what a hand-written file means, saving and patching it, layering overrides, and the frame limit setting |
| `OutputLease` | the runtime override of the capture output with its deferral, promotion and rollback |
| `SessionLog` | the rotating session log |
| `AppOrder` | reordering the application list |
| `DisplayRemap` | the requested display mode, the remapping table and its predictor |
| `Ascii`, `Decimal`, `Wrappers`, `AdapterKeys` | case folding, decimal numbers, optional values, and the two adapter keys |

Conventions. Time is an integer number of nanoseconds and the state file keeps whole
seconds, so truncation on saving is explicit. `hash`, random tokens, deflate, CRC, regular
expressions and the readers of resolution and refresh-rate text are parameters: hashes and
tokens come in fresh, and inflating is only assumed to undo deflating. A failing disk is a
parameter too, so theorems about saving cover every way a save can end. In `SessionRuns` an
event is one critical section, so requests interleave freely; saves are serialized, and a
start of the program may cut any of it short. In
`OutputLease` an event is one critical section of any thread, the worker included.

## What does not hold, and exactly when

* A redeemed refresh token or a revoked session comes back if the program is started again
  before a save that began after the removal has gone through, the file is undamaged and
  still has the session, and its deadline in whole seconds has not passed:
  `SessionRuns.RefreshTokensAreSingleUse` and `SessionRuns.RevokedSessionsStayRevoked` give
  the exact condition over whole runs, `SessionRuns.RedeemedTokenReturns` and
  `SessionRuns.RevokedSessionReturns` a run each where it happens.
* The configuration file is read back as printed exactly if every key is well formed and
  every value printable (`ConfigText.ParseUndoesPrint`). A value of blanks grows by one
  blank each time the file is rewritten (`ConfigText.BlankValueGrows`).
* Beyond that condition a saved or patched file can hold a PnP id without its adapter name,
  because a list opened by another value swallows the line of the name
  (`ConfigUpdate.UnwritableValueLosesName`).
* A PATCH keeps the adapter pair consistent, but repairs an inconsistent file only if it
  names an adapter (`ConfigUpdate.PatchAdapterConsistent`). Two requests are not one with
  the fields of both: a PnP id sent after its adapter name is dropped
  (`ConfigUpdate.SentPatchesDoNotCompose`).
* Without log entries the crash-bundle planner never starts a second part
  (`CrashBundle.LimitRespected`, `CrashBundle.WithoutLogsOnePartOverflows`).
* A bundle with 65,536 or more members, or with a name or log too long for its field, is
  written without complaint and cannot be read back (`ZipWriter.BundleRoundTrip`).
* Loading API tokens drops scopes with an empty path or without methods; that changes
  an answer only for an empty request path (`ApiTokens.ReloadChangesDecision`,
  `ApiTokens.EmptyPathIsForgotten`).
* A log threshold of zero makes a write of anything rotate for ever
  (`SessionLog.WriteEnds`).
* The refresh-rate predictor is exact when only the refresh rate is automatic. With both
  automatic it overshoots exactly if every row that makes it say yes is meant for another
  resolution or stands behind a fitting row that sets no rate
  (`DisplayRemap.OvershootsExactly`). A manual rate is predicted even where a client mode
  override keeps it from being used.
* A frame limit that starts with the decimal point is refused, although leading zeros make
  no difference otherwise (`FrameLimit.PointFirstIsRefused`).

## Model

| member | source | states |
|---|---|---|
| SessionStore.RefreshTtl | src/http_auth.cpp:45-56 | the refresh lifetime is positive and never shorter than the access lifetime, so no session starts out with an access token that outlives its refresh token |
| SessionStore.DanglingIsUnreachable | src/http_auth.cpp:557-563 | with a sound index, the branch that finds an index entry without a session is never taken, and a refresh succeeds exactly for redeemable tokens |
| SessionStore.RefreshDecomposes | src/http_auth.cpp:551-615 | a successful refresh is the removal of one session followed by the insertion of its successor, a late one the removal alone, and an unknown token changes nothing, whatever order the maps are edited in |
| SessionStore.OperationsKeepInverse | src/http_auth.cpp:484-726 | refresh, validation, revocation and cleanup each keep the index sound, and keep sessions and index mutually inverse |
| SessionStore.RefreshIsSingleUse | src/http_auth.cpp:539-624 | a successful refresh leaves the number of sessions unchanged, makes the old refresh and session hashes unusable and the new ones usable, and leaves every other session as it was |
| SessionStore.LookupsDoNotInterfere | src/http_auth.cpp:626-660 | a validation or user lookup, with the sessions it may drop or touch, changes no answer of any of the lookups about any token, nor which refresh tokens can be redeemed |
| SessionStore.DeadlinesDecide | src/http_auth.cpp:563-640 | a session token is accepted up to the earlier of its two deadlines, a refresh token up to the refresh deadline of its session |
| SessionStore.RefreshedTokensLast | src/http_auth.cpp:574-576 | a refreshed session token is accepted for the configured number of seconds and never beyond the deadline the old session had, the new refresh token up to that deadline |
| SessionStore.RefreshedSessionCarries | src/http_auth.cpp:585-597 | user and remember-me choice of the old session, and user agent, address, label, times, refresh hash and rotation id of this request |
| SessionStore.IssuedTokensLast | src/http_auth.cpp:485-497 | after a login the session token lasts as asked for or configured, and the refresh token as asked for, or a day, or with remember-me as configured or a week, and at least as long as the session token |
| SessionStore.IssuedSessionCarries | src/http_auth.cpp:508-524 | every other field of a login's session, and that no other session is touched |
| SessionStore.WhatIsLeft | src/http_auth.cpp:626-726 | session by session what a cleanup, a revocation and a lookup leave, and that a lookup renews the last-seen time after five minutes |
| SessionStore.ChangesAreDirty | src/http_auth.cpp:626-726 | each of them marks the store for saving exactly if it changed something, and only a renewal saves at once |
| SessionFile.RowRoundTrip | src/http_auth.cpp:820-846 | a session written as a row and read back is the session cut down to whole seconds, and needs no repair |
| SessionFile.RowSays | src/http_auth.cpp:823-846 | which field of a session goes into which field of its row, times in whole seconds |
| SessionFile.RowReads | src/http_auth.cpp:907-936 | what a row stands for, field by field, and how its gaps are filled |
| SessionFile.LoadedIndex | src/http_auth.cpp:901-943 | from any file whatsoever every loaded index entry points to a live session with that refresh hash, and the index is the full inverse of the session map exactly if the loaded refresh hashes are distinct |
| SessionFile.LoadedSessions | src/http_auth.cpp:901-943 | in a file with distinct hashes each row with a hash yields its session exactly if it has not expired |
| SessionFile.LoadedRepairs | src/http_auth.cpp:909-950 | loading asks for a rewrite exactly if some row with a hash had no device label or an access deadline beyond its refresh deadline |
| SessionFile.ReloadGivesMemory | src/http_auth.cpp:783-951 | loading what a save wrote, in whatever row order, gives the live sessions of memory in whole seconds with the index restricted to them, and a clean store |
| SessionTokens.ReportedTtls | src/http_auth.cpp:494-534 | the whole seconds reported to the client are exactly the lifetimes the deadlines were made from |
| SessionTokens.RefreshReports | src/http_auth.cpp:606-612 | a refresh hands out a pair exactly for a redeemable token and reports the configured lifetime, or the whole seconds left to the deadline if that is less |
| SessionTokens.IssueReports | src/http_auth.cpp:530-536 | a login hands out its pair and reports the lifetimes its tokens have |
| SessionTokens.SessionTokenManager.SaveSessionTokens | src/http_auth.cpp:783-868 | a clean store writes nothing; a save that goes through lists every session once, keeps the rest of the tree and clears the dirty flag; any failure leaves the store dirty |
| StateFile.SaveOutcomes | src/http_auth.cpp:803-860 | which files a save starts from and what a failed one leaves |
| SessionTokens.SessionTokenManager.LoadSessionTokens | src/http_auth.cpp:870-951 | memory becomes exactly what the rows of the file say at this time, and a needed rewrite is saved at once |
| SessionTokens.SessionTokenManager.IssueSessionTokens | src/http_auth.cpp:484-537 | the store after a login is the old one with the new session entered, and it is saved |
| SessionTokens.SessionTokenManager.RefreshSessionTokens | src/http_auth.cpp:539-624 | the store after a refresh, in every branch, and the tokens handed out exactly if the refresh token was redeemable |
| SessionTokens.SessionTokenManager.ValidateSessionToken | src/http_auth.cpp:626-660 | accepts exactly the tokens of sessions with both deadlines ahead, drops the expired session and renews last-seen at most every five minutes |
| SessionTokens.SessionTokenManager.GetUsernameForToken | src/http_auth.cpp:728-762 | gives the user of exactly the accepted tokens, with the same side effects as validation |
| SessionTokens.SessionTokenManager.GetHashForToken | src/http_auth.cpp:769-781 | gives the hash of exactly the accepted tokens and changes nothing |
| SessionTokens.SessionTokenManager.RevokeSessionByHash | src/http_auth.cpp:667-684 | removes exactly the named session with its index entry, saves, and reports whether there was one |
| SessionTokens.SessionTokenManager.RevokeRefreshToken | src/http_auth.cpp:686-704 | revokes the session the index gives for a non-empty refresh token, and otherwise changes nothing |
| SessionTokens.SessionTokenManager.CleanupExpiredSessionTokens | src/http_auth.cpp:706-726 | drops exactly the sessions whose refresh deadline has passed, with their index entries |
| SessionRuns.StepKeepsInvariant | src/http_auth.cpp:484-951 | with fresh tokens every critical section, including a start of the program in the middle of a save, keeps sessions and index inverse and every session in memory, snapshot and file true to its origin |
| SessionRuns.StepKeepsIndexSound | src/http_auth.cpp:484-951 | from an arbitrary loaded file, with no assumption on its rows, every critical section keeps each index entry pointing to a session that carries its hash |
| SessionRuns.RunKeepsIndexSound | src/http_auth.cpp:484-951 | in every state of every run that starts from any file whatsoever, each index entry points to a session that carries its hash, so the dangling branch is dead |
| SessionRuns.RunKeepsInvariant | src/http_auth.cpp:484-951 | the invariant holds in every state of every run |
| SessionRuns.SaveIsTwoEvents | src/http_auth.cpp:783-868 | an uninterrupted save is its snapshot event followed by its write event |
| SessionRuns.LoginsAreAccounted | src/http_auth.cpp:488-497 | every login on record at any point of a run was fixed by an earlier login event of that run or was on record when the run began |
| SessionRuns.AbsoluteLifetime | src/http_auth.cpp:488-603 | over any chain of refreshes, saves and restarts user and remember-me never change, the refresh deadline is the one set at login, at most cut down to whole seconds, and the access deadline never passes it |
| SessionRuns.RefreshTokensAreSingleUse | src/http_auth.cpp:539-624 | once redeemed, a refresh token and the session token it belonged to are rejected in all later states of a run if and only if no restart finds the old session on an undamaged file, unsaved since, and alive |
| SessionRuns.RevokedSessionsStayRevoked | src/http_auth.cpp:667-684 | a revoked session and its refresh token stay rejected in all later states of a run if and only if the same holds |
| SessionRuns.StaysAwayExactly | src/http_auth.cpp:484-951 | any session removed from memory, by redeeming, revoking or expiry, stays away exactly as long as no restart finds it on file and alive |
| SessionRuns.FileAfterRemoval | src/http_auth.cpp:783-868 | the file has a removed session exactly if it is undamaged, no save begun since has gone through, and the session was in it, or in the snapshot that was under way if that has been written |
| SessionRuns.RestartBringsBack | src/http_auth.cpp:870-951 | what a start of the program brings back: the refresh token exactly if the session is on file and alive, the session token if its own deadline allows too |
| SessionRuns.CleanStartsReviveNothing | src/http_auth.cpp:783-951 | nothing comes back if the program is never started over unsaved changes |
| SessionRuns.RedeemedTokenReturns | src/http_auth.cpp:609-618 | a run in which the process ends between a refresh and its save, and the token is redeemable again |
| SessionRuns.RevokedSessionReturns | src/http_auth.cpp:667-684 | a run in which the save behind a revocation fails, and the session is accepted again after a restart |
| SessionRuns.RunKeepsSynced | src/http_auth.cpp:783-951 | in every run whose file stays readable, whenever the store is clean the file agrees with memory |
| SessionRuns.ReloadAgreesWithMemory | src/http_auth.cpp:870-951 | in such a run, reloading a clean store at any later time gives the live sessions and index of memory, in whole seconds |
| ApiTokens.LoadedScopesAreKept | src/http_auth.cpp:358-384 | the scopes loaded from saved rows are those with a path and at least one method |
| ApiTokens.ReloadGivesTokens | src/http_auth.cpp:301-424 | loading what a save wrote gives back every token, cut down to those scopes |
| ApiTokens.ReloadChangesDecision | src/http_auth.cpp:171-204 | a save and a load never grant more, and change an answer exactly if the path is empty, the empty scope grants it and no other scope does |
| ApiTokens.EmptyPathIsForgotten | src/http_auth.cpp:358-384 | a token and a request for which the answer does change |
| ApiTokens.ReloadKeepsDecisions | src/http_auth.cpp:171-204 | for every request with a path the answer is the same after a restart |
| ApiTokens.ApiTokenManager.AuthenticateToken | src/http_auth.cpp:171-204 | grants exactly if a token with this hash has a scope whose anchored pattern matches the path and which allows the upper-cased method |
| ApiTokens.AuthorizedMeans | src/http_auth.cpp:181-203 | a request is granted exactly if some scope has a method equal to the request's up to ASCII case and its path, between '^' and '$', matches |
| ApiTokens.AnchoredMeans | src/http_auth.cpp:188-194 | the pattern matched is the scope's path with '^' before and '$' behind it, each only if it is not there already |
| ApiTokens.AllowsMeans | src/http_auth.cpp:179-185 | methods are compared character by character without regard to ASCII case |
| ApiTokens.ApiTokenManager.SaveApiTokens | src/http_auth.cpp:301-356 | a save that goes through lists every token once and leaves the rest of the tree; a failed one leaves the file as the failure left it |
| ApiTokens.ApiTokenManager.LoadApiTokens | src/http_auth.cpp:386-424 | the tokens become those of the file's rows, each under its own hash; an unreadable file leaves none |
| ApiTokens.LoadedTokensAreWellKeyed | src/http_auth.cpp:386-424 | whatever rows are loaded, each token ends up under its own non-empty hash |
| ApiTokens.ApiTokenManager.RevokeApiTokenByHash | src/http_auth.cpp:286-299 | removes exactly this token, saves only if there was one, and reports it |
| ApiTokens.SavesLeaveOtherSubtreeAlone | src/http_auth.cpp:301-356 | neither store's save touches the rows of the other, whether it goes through or not, short of damaging the whole file |
| ZipFormat.ValueOfLE | src/confighttp_playnite.cpp:477-487 | little-endian bytes read back as the number, for every number the field can hold |
| ZipFormat.LaidOutReads | src/confighttp_playnite.cpp:676-761 | any bytes laid out as local parts, directory and end record are read back member by member, following end record, directory and stored offsets |
| ZipFormat.ArchivePartIs | src/confighttp_playnite.cpp:728-748 | every stored offset is the true position of its member's local header |
| ZipFormat.ArchiveRoundTrip | src/confighttp_playnite.cpp:676-761 | reading an archive gives back exactly the list of names, methods, times, checksums, sizes and payloads it was made from, in order, if and only if the count, names, sizes, directory start and directory length fit into their fields |
| ZipWriter.BuildZipFromEntries | src/confighttp_playnite.cpp:676-761 | the in-memory writer produces exactly the archive of its entries, each deflated only if that makes it shorter |
| ZipWriter.EntriesRoundTrip | src/confighttp_playnite.cpp:676-761 | reading and inflating an archive gives back every name and every byte of data with its checksum, as long as local parts and directory each stay below 4 GiB |
| ZipBytes.ArchiveOnTheWire | src/confighttp_playnite.cpp:710-759 | every byte of an archive, in numbers: the signatures, versions and zero fields, method 8 exactly for deflated data and 0 otherwise, times, checksum, lengths and offsets low byte first, names and data, each at its position |
| ZipWriter.BundleFile.AddEntry | src/confighttp_playnite.cpp:1988-2034 | one more member with its directory entry, or a refusal exactly if its offset would not fit into 32 bits |
| ZipWriter.BundleFile.Finish | src/confighttp_playnite.cpp:2074-2130 | the whole archive exactly if every position fits into 32 bits, otherwise the failure that applies first |
| ZipWriter.WriteZipBundle | src/confighttp_playnite.cpp:1969-2131 | writes exactly if every dump is readable, small enough and not shorter than listed and all positions fit; then the bytes are the archive of logs and dumps |
| ZipBytes.BundleableExactly | src/confighttp_playnite.cpp:2040-2115 | when writing succeeds, in the sizes of names and data: every dump opens, is listed below 4 GiB and is not shorter now, and the end record starts below 4 GiB |
| ZipBytes.DumpIsCut | src/confighttp_playnite.cpp:2055-2061 | of a dump exactly the listed number of bytes is archived |
| ZipWriter.BundleRoundTrip | src/confighttp_playnite.cpp:1969-2131 | a written bundle reads back as the logs and dumps it was made from if and only if the number of members, the names and the logs fit into their fields |
| ZipWriter.EstimateZipSize | src/confighttp_playnite.cpp:1895-1905 | the estimate is the end record plus the entries' estimates |
| ZipWriter.EstimateBounds | src/confighttp_playnite.cpp:1889-1905 | an archive is never larger than estimated, and as large exactly if nothing was deflated |
| ZipWriter.BundleWithinEstimate | src/confighttp_playnite.cpp:1895-1905 | the same for a written bundle, estimated from the listed dump sizes |
| CrashBundle.BuildCrashBundlePlan | src/confighttp_playnite.cpp:1923-1955 | the parts carry the dumps in order, logs in the first part only, record the estimate of their contents, and a new part starts only where the next dump did not fit |
| CrashBundle.PartNamesAreDistinct | src/confighttp_playnite.cpp:1916-1921 | parts never share a file name |
| CrashBundle.PartNames | src/confighttp_playnite.cpp:1916-1921 | the names themselves, and the limit in bytes |
| CrashBundle.LimitRespected | src/confighttp_playnite.cpp:1938-1949 | every part respects 30 MiB up to what cannot be split, exactly if there is a log, at most one dump, or everything fits at once |
| CrashBundle.WithoutLogsOnePartOverflows | src/confighttp_playnite.cpp:1942-1943 | two dumps of 20 MiB and no log are planned as one part beyond the limit |
| CrashBundle.WrittenPartsAreSmall | src/confighttp_playnite.cpp:2286-2300 | with at least one log every written part is at most 30 MiB unless it is the logs alone or one dump alone |
| CrashBundle.WeightsAddUp | src/confighttp_playnite.cpp:1923-1955 | the parts together weigh what logs and dumps weigh |
| CrashBundle.AdjacentPartsOverflow | src/confighttp_playnite.cpp:1943-1948 | two adjacent parts never fit into one |
| CrashBundle.PairsWeigh | src/confighttp_playnite.cpp:1923-1955 | each pair of parts accounts for more than the limit of the total |
| CrashBundle.FewerThanTwiceOptimal | src/confighttp_playnite.cpp:1923-1955 | fewer than twice as many parts as any packing of the same dumps in any order that respects the limit |
| LogSanitizer.KeysTellApart | src/confighttp_playnite.cpp:640-648 | placeholder keys are equal exactly for equal kinds and equal values, addresses without regard to case |
| LogSanitizer.AssignIsSound | src/confighttp_playnite.cpp:650-659 | a new placeholder differs from all earlier ones, and earlier ones stay |
| LogSanitizer.NewPlaceholder | src/confighttp_playnite.cpp:650-659 | what a new placeholder looks like, numbered one after the other |
| LogSanitizer.PlaceholdersTellApart | src/confighttp_playnite.cpp:650-663 | across all files, two placeholders are equal exactly if kind and folded value are |
| LogSanitizer.SortedIsUnique | src/confighttp_playnite.cpp:603-611 | the unstable sort has only one possible result on these replacements |
| LogSanitizer.KeptIsLeftmostLongest | src/confighttp_playnite.cpp:613-623 | the applied spans are disjoint and in order, every match starts inside one, and at equal start the longest and then the most important wins |
| LogSanitizer.LongestWins | src/confighttp_playnite.cpp:603-611 | no match with the start of a kept one is longer, and among those as long the kept one's expression comes first in the order field, home path, address, hardware, mail |
| LogSanitizer.MatchMeans | src/confighttp_playnite.cpp:571-598 | the key under which each expression's match gets its placeholder |
| LogSanitizer.ChoiceIsUnique | src/confighttp_playnite.cpp:613-623 | no other selection has these properties |
| LogSanitizer.PiecesCoverInput | src/confighttp_playnite.cpp:618-623 | undoing the replacements gives the input back: nothing outside the spans is lost, added or moved |
| LogSanitizer.ShownJoins | src/confighttp_playnite.cpp:618-623 | what is written is the pieces one after the other and nothing else |
| LogSanitizer.Rewrite | src/confighttp_playnite.cpp:613-624 | the pass writes the kept spans' placeholders and everything between them |
| LogSanitizer.ExportLogSanitizer.Placeholder | src/confighttp_playnite.cpp:650-659 | the same key always gets the same placeholder, a new key a new one |
| LogSanitizer.ExportLogSanitizer.Sanitize | src/confighttp_playnite.cpp:553-625 | the output is the sanitized input under a table that extends the one before |
| LogSanitizer.SanitizedMeans | src/confighttp_playnite.cpp:553-625 | the output is fixed by the matches alone: the input with any leftmost-longest selection masked, in whatever order they were found or sorted |
| ConfigText.ToString | src/config.cpp:1129-1142 | the loop copies exactly what lies outside comments |
| ConfigText.SkipListLoop | src/config.cpp:1152-1168 | the loop stops right behind the bracket that closes the list, or at the end |
| ConfigText.SkipListStops | src/config.cpp:1152-1168 | the stop is the first place where the bracket depth returns to zero |
| ConfigText.ParseConfig | src/config.cpp:1210-1238 | the loop computes the bindings of the text, first binding of a key wins |
| ConfigLines.HandWrittenFileParses | src/config.cpp:1129-1238 | a hand-written file means what its lines say: any indentation, any blanks or none around the equals sign, characters before the name dropped, trailing comments cut off, comments, prose and nameless lines without effect, lists over several lines, first setting of a key counts |
| ConfigLines.LineEndsDoNotMatter | src/config.cpp:1220-1223 | lines ended by CR LF read like lines ended by LF |
| ConfigLines.ListTextCloses | src/config.cpp:1152-1167 | lists of any nesting, over any number of lines, are read up to the bracket that closes them |
| ConfigLines.UnclosedListReads | src/config.cpp:1191-1203 | a list the file ends before closing is read as far as it goes, and a bracket alone binds nothing |
| ConfigLines.BareSettingParses | src/config.cpp:1184-1207 | a line without any blank gives its whole value |
| ConfigText.PrintableParses | src/config.cpp:1171-1208 | a printed line with a printable value is read back as it is |
| ConfigText.UnprintableChanges | src/config.cpp:1171-1208 | with any other value it is read back as something else |
| ConfigText.ParseKeepsBindings | src/config.cpp:1210-1238 | no later line changes or removes a binding |
| ConfigText.ParsedKeysAreWellFormed | src/config.cpp:1144-1150 | keys that come out of the parser are well formed, whatever the text |
| ConfigText.ParseUndoesPrint | src/config.cpp:1117-1238 | parsing gives the printed map back, in whatever order it was printed, if and only if all keys are well formed and all values printable |
| ConfigText.BlankValueGrows | src/config.cpp:1171-1208 | a value of n blanks is read back as n + 1 blanks |
| ConfigUpdate.ConfigObject.NormalizePair | src/confighttp.cpp:420-439 | drops the PnP id unless both it and the adapter name are non-empty text |
| ConfigUpdate.ConfigObject.NormalizePatch | src/confighttp.cpp:441-466 | drops a PnP id without adapter name and clears it where the pair is incomplete |
| ConfigUpdate.NormalizingMeans | src/confighttp.cpp:420-466 | which of the two keys is kept, dropped or set to null, and that no other field changes |
| ConfigUpdate.ConfigObject.SaveConfig | src/confighttp.cpp:3063-3075 | writes a listing of exactly the non-empty fields |
| ConfigUpdate.ConfigObject.PatchConfig | src/confighttp.cpp:3147-3184 | writes a listing of the present bindings with the patch applied |
| ConfigUpdate.SavedMeans | src/confighttp.cpp:3065-3073 | key by key what a saved object writes: not null and not the empty text, texts as they are, other values serialized |
| ConfigUpdate.PatchedMeans | src/confighttp.cpp:3157-3177 | key by key what a patch leaves |
| ConfigUpdate.PrintedMapParses | src/confighttp.cpp:3179-3184 | a written map is read back if and only if all its keys are well formed and all its values printable |
| ConfigUpdate.PatchedFileParses | src/confighttp.cpp:3149-3184 | after a PATCH the file means the old bindings with null and empty keys removed, patched keys set and all others unchanged, if and only if what the PATCH sets has well-formed keys and printable values and the untouched values are printable |
| ConfigUpdate.PatchesCompose | src/confighttp.cpp:3149-3184 | two patches in a row, as applied after normalization, have the effect of their union with the later one on top, and the file reads back as that if and only if the format can hold it |
| ConfigUpdate.SentPatchesDoNotCompose | src/confighttp.cpp:441-466 | as sent, before normalization, they do not: a PnP id sent after its adapter name is dropped, sent together with it is kept |
| ConfigUpdate.SaveIsAdapterConsistent | src/confighttp.cpp:3063-3075 | a saved file, read back, has a PnP id only next to an adapter name, for well-formed keys and printable values |
| ConfigUpdate.PatchAdapterConsistent | src/confighttp.cpp:3147-3184 | a patched file, read back, is consistent if and only if the file was before or the PATCH names an adapter, for well-formed keys and printable values |
| ConfigUpdate.UnwritableValueLosesName | src/confighttp.cpp:3065-3073 | a request whose written file is read back with a PnP id and no adapter name, because a list opened by another value swallows the name |
| ConfigLayers.ConfigVars.MergeConfigOverrides | src/config.cpp:2946-2981 | the in-place merge computes the layered map |
| ConfigLayers.MergedPnpId | src/config.cpp:2960-2981 | the PnP id after one layer |
| ConfigLayers.AdapterMeans | src/config.cpp:2484-2497 | the adapter pair in terms of the two keys |
| ConfigLayers.MergeIsAssociative | src/config.cpp:2946-2981 | layers may be combined in any grouping |
| ConfigLayers.AdapterComesWhole | src/config.cpp:2484-2497 | over any stack of layers name and PnP id come together from the topmost layer that names an adapter |
| ConfigLayers.OtherKeysComeFromTopmost | src/config.cpp:2946-2981 | every other key has the value of the topmost layer that sets it |
| ConfigLayers.AdapterSnapshot.CompatibleWithActive | src/config.cpp:2983-3007 | the check that does not merge decides what merging the request onto the base would |
| OutputLease.OutputOverride.SetRuntimeOutput | src/config.cpp:2875-2927 | the whole state after publishing, deferring or clearing, and the new lease |
| OutputLease.PublicationWaitsExactly | src/config.cpp:2899-2915 | a publication waits exactly if it names a virtual output, the screen is locked and a physical output can be captured |
| OutputLease.PromotionNeedsUnlock | src/config.cpp:2791-2804 | in every run a promotion puts the waiting output in force exactly while the screen is unlocked |
| OutputLease.OutputOverride.ClearIfLease | src/config.cpp:3018-3036 | empties exactly the slots with this lease and reports whether there was one |
| OutputLease.OutputOverride.TryPromote | src/config.cpp:2791-2804 | moves a deferred output into force, with its lease, exactly if the screen is unlocked at that moment |
| OutputLease.EveryRunKeepsInvariant | src/config.cpp:2791-3036 | in every interleaving at most one slot is filled, with the value of the latest publication and its lease |
| OutputLease.LeasesIncrease | src/config.cpp:2879-2887 | every publication or clear takes a larger lease than all before it |
| OutputLease.RollbackOnlyLatest | src/config.cpp:3018-3036 | a rollback acts exactly for the lease of the latest publication while it is in force or waiting, and otherwise changes nothing |
| OutputLease.ImplementsRegister | src/config.cpp:2791-3036 | the five globals behave like one register that holds the latest publication |
| OutputLease.CaptureSeesLatest | src/config.cpp:3070-3076 | capture uses the latest publication or the configured output, never an older one |
| FrameLimit.GuardIsExact | src/config.cpp:1442-1460 | the guard refuses a digit exactly if ten times the number plus the digit exceeds the maximum |
| FrameLimit.ParseUnsigned | src/config.cpp:1442-1460 | succeeds exactly for non-empty digit strings up to the maximum, with their value |
| FrameLimit.SetFrameLimit | src/config.cpp:1462-1493 | accepts exactly digits with at most three decimals up to 1000, stores exactly the thousandths, and leaves the setting alone otherwise |
| FrameLimit.LimitIsUnique | src/config.cpp:1462-1493 | a text denotes at most one limit |
| FrameLimit.EndOfRange | src/config.cpp:1486-1493 | 1000 is accepted and 1000.001 refused |
| FrameLimit.LeadingZerosDoNotMatter | src/config.cpp:1442-1460 | any number of leading zeros leaves an accepted limit as it is and a refused text refused, unless the text starts with the point |
| FrameLimit.PointFirstIsRefused | src/config.cpp:1473-1480 | ".5" is refused and "0.5" accepted |
| SessionLog.SessionLogBuffer.Xsputn | src/logging.cpp:228-252 | every write terminates, takes all its bytes, and leaves the directory as the accepted stream prescribes |
| SessionLog.SessionLogBuffer.RotateFile | src/logging.cpp:293-321 | the whole state after a rotation, which keeps that description |
| SessionLog.RotateHolds | src/logging.cpp:293-321 | rotating moves a full chunk aside, deletes only the oldest chunk and touches no other file |
| SessionLog.RetainedIsSuffix | src/logging.cpp:207-331 | the rollover files followed by the current file are exactly the stream without the deleted chunks |
| SessionLog.RetainedBounds | src/logging.cpp:57-61 | at most the kept rollovers plus one threshold remain, every rollover is exactly full, and nothing is lost before all of them are |
| SessionLog.SessionStaysWithinTenMiB | src/logging.cpp:57-61 | with the shipped constants a session keeps at most ten MiB of log text |
| SessionLog.NamesNeverRepeat | src/logging.cpp:299-310 | the next rollover name is never one still kept, and kept names are distinct |
| SessionLog.NamesAndConstants | src/logging.cpp:57-61 | file names, byte-order mark and shipped sizes |
| SessionLog.SplitDoesNotMatter | src/logging.cpp:228-252 | files and counters depend only on the accepted bytes, not on how they were cut into writes |
| SessionLog.WriteEnds | src/logging.cpp:230-250 | the writing loop ends exactly if the threshold is positive or there is nothing to write |
| AppOrder.ReorderApps | src/confighttp.cpp:2275-2320 | the two loops over the marks compute the reordered list |
| AppOrder.ReorderMeans | src/confighttp.cpp:2275-2320 | first what the request takes, each m-th mention of a uuid taking the m-th application with it, then the applications not taken, in their old order |
| AppOrder.WithMeans | src/confighttp.cpp:2293-2303 | the applications that an entry can take are exactly those with its uuid |
| AppOrder.ReorderIsPermutation | src/confighttp.cpp:2275-2320 | nothing is lost, added or copied |
| AppOrder.SameUuidKeepsOrder | src/confighttp.cpp:2288-2304 | applications with the same uuid keep their order among themselves |
| AppOrder.ReorderIsIdempotent | src/confighttp.cpp:2275-2320 | reordering again by the same request changes nothing |
| DisplayRemap.RemapDisplayModeIfNeeded | src/display_device.cpp:494-578 | fails exactly if an unusable row comes before the first match, and otherwise changes the mode by that match alone |
| DisplayRemap.ParseConfiguration | src/display_device.cpp:838-865 | failure, disablement or the configured mode in every combination of options |
| DisplayRemap.ConfiguredResolution | src/display_device.cpp:218-285 | the configured resolution where no row sets one: launch override, client mode, manual value or none, and the sizes that are refused |
| DisplayRemap.ConfiguredRate | src/display_device.cpp:302-348 | the configured rate where no row sets one |
| DisplayRemap.FailsExactly | src/display_device.cpp:838-865 | when no configuration comes about |
| DisplayRemap.ClientRateMeans | src/rtsp.h:249-260 | which of the given rates counts as the client's, in millihertz |
| DisplayRemap.OneTableCounts | src/display_device.cpp:409-427 | only the table for what is automatic has influence |
| DisplayRemap.RowMeans | src/display_device.cpp:463-478 | which columns of a row are read, and how |
| DisplayRemap.OneRowApplies | src/display_device.cpp:536-575 | when a row is refused, skipped or applied, and what it replaces |
| DisplayRemap.RefreshRateOverrideActive | src/display_device.cpp:783-836 | true exactly for a manual rate or a row, before the first unreadable one, that sets a rate and accepts the client's |
| DisplayRemap.PredictionStopsAtUnreadableRow | src/display_device.cpp:821-833 | a prediction rests on a rate-setting row before which every row can be read |
| DisplayRemap.RemappedRateIsPredicted | src/display_device.cpp:494-578 | no table row changes the refresh rate without the predictor saying so |
| DisplayRemap.UnpredictedRate | src/display_device.cpp:783-865 | without a prediction the configured rate is exactly the client's, the highest or none, as the option says |
| DisplayRemap.RateOnlyPredictionIsExact | src/display_device.cpp:783-865 | when only the refresh rate is automatic the prediction holds exactly if a row changes it |
| DisplayRemap.MixedPredictionMayOvershoot | src/display_device.cpp:817-832 | when both are automatic a row for another resolution can be predicted |
| DisplayRemap.FirstFitApplies | src/display_device.cpp:536-575 | if no unusable row comes first, the row applied is the first one that fits resolution and rate |
| DisplayRemap.RateRemappedExactly | src/display_device.cpp:494-578 | the rate is remapped if and only if that row sets a rate |
| DisplayRemap.OvershootsExactly | src/display_device.cpp:783-865 | the predictor says yes and the rate stays the client's if and only if some row suggests a rate, and each such row is meant for another resolution or stands behind a fitting row that sets none |
| DisplayRemap.LaterRowsDoNotMatter | src/display_device.cpp:536-575 | rows behind the deciding one have no influence |
| DisplayRemap.OverrideIgnoresTables | src/display_device.cpp:495-499 | under a client mode override no table has any influence and the rate is the client's |
| DisplayRemap.OverridePredictedForManualRate | src/display_device.cpp:783-791 | under such an override a manual rate, and only that, is predicted, although the rate stays the client's |

## Left out

- HTTP handling, cookies, CSRF protection and JSON text encoding: the modules start from parsed values.
- Windows calls, display enumeration, lock-screen and file-system queries: their answers are parameters.
- Deflate, CRC-32, hashing, token randomness and regular expressions: parameters; hashes of fresh tokens are assumed new.
- SessionRuns.ReloadAgreesWithMemory: assumes saves that do not overlap, because the snapshot and the write are taken under different locks and the code does not order two writers.
- ConfigUpdate.SaveIsAdapterConsistent: says nothing about files that are not read back as they were printed; UnwritableValueLosesName shows why.
- ConfigUpdate.PatchAdapterConsistent: likewise.
- The device label derived from the user agent: a parameter; only that it is filled in when missing is modelled.
- The session listing and the token listing for the web interface: read-only views.
- Parsing of API scope requests and its error texts: tokens are created from parsed scopes.
- ZipWriter.WriteZipBundle: writing the bytes to disk is taken to work; failures of the output stream are not modelled.
- ZipWriter.EstimateZipSize: sums are unbounded, where the code adds 64-bit numbers.
- OutputLease.LeasesIncrease: leases are unbounded, where the code counts in 64 bits; that the worker thread eventually promotes is not stated.
- LogSanitizer.ExportLogSanitizer.Sanitize: starts from the list of matches the expressions find; which service names are exempt and which texts are IPv6 addresses is decided before.
- ConfigText.ParseConfig: characters are ASCII; newline translation by text-mode files is not modelled.
- The list options with nested brackets and all other typed options except the frame limit: look-ups by key.
- FrameLimit.SetFrameLimit: starts from the trimmed, non-empty value.
- SessionLog.SessionLogBuffer.Xsputn: opening, renaming and writing files is taken to work, and the threshold to be positive, as WriteEnds shows it must be.
- DisplayRemap.ParseConfiguration: the device id, the preparation kind and the HDR state, which no other field depends on, are not part of the result.
