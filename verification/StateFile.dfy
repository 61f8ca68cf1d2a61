/** The JSON state file that the session store and the API token store share.
    Text encoding is abstracted to the property tree it stands for. */
module StateFile {

  import opened Wrappers
  import opened SessionStore

  /** One row of `root.session_tokens`. An absent string reads as "", an absent
      `created_at` or `expires_at` as 0 and an absent `remember_me` as false. */
  datatype SessionRow = SessionRow(
    hash: string,
    username: string,
    createdAt: int,
    expiresAt: int,
    refreshExpiresAt: Option<int>,
    lastSeen: Option<int>,
    rememberMe: bool,
    refreshHash: string,
    rotationId: string,
    userAgent: string,
    remoteAddress: string,
    deviceLabel: string)

  datatype ScopeRow = ScopeRow(path: string, methods: seq<string>)

  /** One row of `root.api_tokens`. */
  datatype TokenRow = TokenRow(hash: string, username: string, createdAt: int, scopes: seq<ScopeRow>)

  datatype Root = Root(sessions: seq<SessionRow>, tokens: seq<TokenRow>, others: map<string, string>)

  datatype Disk = Missing | Corrupt | Present(root: Root)

  /** How a write ends. A write that fails keeps the previous file, or is caught
      by the verifying re-read after a damaged file was put in place. */
  datatype WriteOutcome = Written | KeptOld | LeftCorrupt

  /** What the file system does during one save: whether reading works, and how writing ends. */
  datatype Io = Io(readable: bool, write: WriteOutcome)

  /** The tree a save starts from: none when an existing file cannot be read. */
  function ReadForUpdate(disk: Disk, io: Io): Option<Root> {
    match disk
    case Missing => Some(Root([], [], map[]))
    case Corrupt => None
    case Present(root) => if io.readable then Some(root) else None
  }

  /** What a save that does not go through leaves behind. */
  function AfterFailure(disk: Disk, io: Io): Disk {
    if ReadForUpdate(disk, io).Some? && io.write.LeftCorrupt? then Corrupt else disk
  }

  /** A save goes through when the old tree can be read and the new one is written. */
  predicate SaveSucceeds(disk: Disk, io: Io) { ReadForUpdate(disk, io).Some? && io.write.Written? }

  /** How a save ends. A missing file is no obstacle, a damaged or unreadable one is, and is left
      as it is; a write that fails leaves the file as it was or damaged. */
  lemma SaveOutcomes(root: Root, io: Io)
    ensures SaveSucceeds(Missing, io) <==> io.write == Written
    ensures SaveSucceeds(Present(root), io) <==> io.readable && io.write == Written
    ensures !SaveSucceeds(Corrupt, io) && AfterFailure(Corrupt, io) == Corrupt
    ensures ReadForUpdate(Missing, io) == Some(Root([], [], map[])) && ReadForUpdate(Present(root), io) == if io.readable then Some(root) else None
    ensures AfterFailure(Missing, io) == if io.write == LeftCorrupt then Corrupt else Missing
    ensures AfterFailure(Present(root), io) == if io.readable && io.write == LeftCorrupt then Corrupt else Present(root)
  {
  }

  /** The session rows the file holds, as far as it can be parsed. */
  function SessionRows(disk: Disk): seq<SessionRow> {
    if disk.Present? then disk.root.sessions else []
  }

  function TokenRows(disk: Disk): seq<TokenRow> {
    if disk.Present? then disk.root.tokens else []
  }

  /** The file both managers are given. */
  class StateStorage {
    var disk: Disk

    constructor (disk: Disk)
      ensures this.disk == disk
    {
      this.disk := disk;
    }
  }
}
