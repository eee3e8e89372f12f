/** What the daemon and the root helper share (`crates/abora-update/src/apply.rs`): requests, results, and the
    rules that both check. */
module ApplyRules {
  import opened Prelude
  import opened AptSimulation

  const MAX_PACKAGES: nat := 2000
  /** Seconds after which a request is stale. */
  const MAX_REQUEST_AGE: nat := 10 * 60
  const MAX_FILE_BYTES: nat := 1024 * 1024

  datatype ApplyRequest = ApplyRequest(id: string, requestedAt: string, requestedBy: string, packages: seq<string>)

  datatype ApplyResult = ApplyResult(id: string, startedAt: string, finishedAt: string, succeeded: bool,
                                     packages: seq<string>, note: Option<string>, rebootStarted: bool)

  // ----- Files -----

  /** What a file's bytes parse to. */
  datatype Doc<+T> = Json(value: T) | NotJson

  /** A regular file with its size and modification time in seconds, or something else (a link, a directory). */
  datatype FileEntry<+T> = Regular(content: Doc<T>, size: nat, modified: int) | Special

  /** The two files through which the daemon and the helper talk. */
  class ApplyFiles {
    var request: Option<FileEntry<ApplyRequest>>
    var result: Option<FileEntry<ApplyResult>>
  }

  datatype ReadError = NotRegular | TooLarge | TooOld | Unreadable

  /** The bytes behind `file`, under the limits on kind, size and age. Age is zero for a file dated after `now`, and
      `readable` is false where getting the bytes fails. */
  function ReadRegular<T>(file: FileEntry<T>, now: int, maxAge: Option<nat>, readable: bool)
    : (r: Result<Doc<T>, ReadError>)
    ensures r.Ok? <==>
      file.Regular? && file.size <= 1024 * 1024 && readable
      && (maxAge.Some? ==> now - file.modified <= maxAge.value)
  {
    match file
    case Special => Err(NotRegular)
    case Regular(content, size, modified) =>
      if size > MAX_FILE_BYTES then Err(TooLarge)
      else
        var age := if now >= modified then now - modified else 0;
        if maxAge.Some? && age > maxAge.value then Err(TooOld)
        else if !readable then Err(Unreadable)
        else Ok(content)
  }

  // ----- Requests -----

  predicate IdChar(c: char) {
    'a' <= c <= 'z' || 'A' <= c <= 'Z' || '0' <= c <= '9' || c == '-'
  }

  predicate ValidRequestId(id: string) {
    8 <= |id| <= 64 && forall i :: 0 <= i < |id| ==> IdChar(id[i])
  }

  /** An id has at least 8 and at most 64 letters, digits and dashes: those go on any id that is not full yet. */
  lemma IdsGrow(id: string, c: char)
    ensures ValidRequestId(id) ==> 8 <= |id| <= 64
    ensures |id| >= 8 ==> (ValidRequestId(id + [c]) <==> ValidRequestId(id) && |id| + 1 <= 64 && IdChar(c))
    ensures |id| == 7 ==>
      (ValidRequestId(id + [c]) <==> IdChar(c) && forall i :: 0 <= i < 7 ==> IdChar(id[i]))
  {
    var longer := id + [c];
    assert longer[|id|] == c && forall i :: 0 <= i < |id| ==> longer[i] == id[i];
  }

  lemma IdChars(c: char)
    ensures IdChar(c) <==> IsLower(c) || c in "ABCDEFGHIJKLMNOPQRSTUVWXYZ" || c in "0123456789-"
  {}

  datatype RequestError = InvalidId | NoPackages | TooManyPackages | InvalidPackage(bytes: nat)

  /** Length of the first name that is not a package name. */
  function FirstBadName(packages: seq<string>): (r: Option<nat>)
    ensures r.None? <==> forall i :: 0 <= i < |packages| ==> ValidPackageName(packages[i])
  {
    if packages == [] then None
    else if !ValidPackageName(packages[0]) then Some(|packages[0]|)
    else FirstBadName(packages[1..])
  }

  /** The shape every request must have; `None` is acceptance. */
  function ValidateRequest(request: ApplyRequest): (r: Option<RequestError>)
    ensures r.None? <==>
      && ValidRequestId(request.id) && 0 < |request.packages| <= 2000
      && forall i :: 0 <= i < |request.packages| ==> ValidPackageName(request.packages[i])
    ensures r == Some(InvalidId) <==> !ValidRequestId(request.id)
    ensures r == Some(NoPackages) <==> ValidRequestId(request.id) && |request.packages| == 0
    ensures r == Some(TooManyPackages) <==> ValidRequestId(request.id) && |request.packages| > 2000
  {
    if !ValidRequestId(request.id) then Some(InvalidId)
    else if request.packages == [] then Some(NoPackages)
    else if |request.packages| > MAX_PACKAGES then Some(TooManyPackages)
    else match FirstBadName(request.packages)
      case Some(bytes) => Some(InvalidPackage(bytes))
      case None => None
  }

  /** Options of the one install command; everything after `--` is a package name. */
  const INSTALL_OPTIONS: seq<string> := [
    "-y", "--no-remove", "-o", "Dpkg::Options::=--force-confold", "-o", "Dpkg::Options::=--force-confdef",
    "install", "--only-upgrade", "--"
  ]

  function InstallArgs(packages: seq<string>): seq<string> {
    INSTALL_OPTIONS + packages
  }

  /** The command line determines the packages, none of which can be taken for an option. */
  lemma InstallNamesExactly(packages: seq<string>, other: seq<string>)
    requires forall i :: 0 <= i < |packages| ==> ValidPackageName(packages[i])
    ensures InstallArgs(packages)[|INSTALL_OPTIONS| - 1] == "--"
      && InstallArgs(packages)[|INSTALL_OPTIONS|..] == packages
    ensures forall i :: |INSTALL_OPTIONS| <= i < |InstallArgs(packages)| ==> !("-" <= InstallArgs(packages)[i])
    ensures InstallArgs(packages) == InstallArgs(other) ==> packages == other
  {
    var args := InstallArgs(packages);
    forall i | |INSTALL_OPTIONS| <= i < |args| ensures !("-" <= args[i]) {
      var name := packages[i - |INSTALL_OPTIONS|];
      assert args[i] == name && name[0] != '-' && "-"[0] == '-';
    }
    assert InstallArgs(other)[|INSTALL_OPTIONS|..] == other;
  }
}
