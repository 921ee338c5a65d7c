/**
 * The request handlers of the server (ServerImpl).
 *
 * Every handler except register, getNumber and getToken first turns away the
 * unauthenticated caller (user id -1). A primary then forwards the request to its
 * backup: failing to find or reach the backup is reported and ignored, but a status
 * error raised by the backup is returned as the handler's answer and nothing is done
 * locally. After that the handler checks ownership or access and calls the services,
 * each call in its own transaction: a later failure does not undo an earlier call.
 *
 * An exception a handler does not catch ends the call with status UNKNOWN (`Uncaught`).
 * The server's file system is the map `disk` from path to contents.
 */
module Server {
  import opened Wrappers
  import opened Domain
  import opened Repository
  import opened Service
  import opened Security
  import opened Decimal

  datatype Code = Unauthenticated | NotFound | InvalidArgument | Unknown | Unavailable | Internal

  datatype Status = Status(code: Code, description: string)

  /** An exception no handler catches. */
  const Uncaught: Status := Status(Unknown, "")

  const NotOwner: string := "You do not own the file."
  const NoSuchUser: string := "User does not exist."

  /**
   * What happens to a forwarded request: whether looking up the backup and opening a
   * channel to it succeed, and how the backup answers.
   */
  datatype Backup = Backup(reachable: bool, answer: Outcome<Status>)

  /** One (username, certificate) pair of a remove response. */
  datatype Collaborator = Collaborator(username: string, certificate: Bytes)

  datatype DownloadResponse = DownloadResponse(file: Bytes, signature: Bytes, certificate: Bytes,
                                               lastModifier: string, version: int, owner: string)

  datatype TokenResponse = TokenResponse(token: string, invites: seq<string>)

  /** The text before the first '/', or all of it when there is none. */
  function UpToSlash(s: string): string
  {
    if s == [] || s[0] == '/' then [] else [s[0]] + UpToSlash(s[1..])
  }

  /** A segment without '/' is read back whole from the segment, a '/' and anything after it. */
  lemma {:induction false} UpToSlashStops(segment: string, rest: string)
    requires '/' !in segment
    ensures UpToSlash(segment + "/" + rest) == segment
  {
    if segment != [] {
      assert (segment + "/" + rest)[1..] == segment[1..] + "/" + rest;
      UpToSlashStops(segment[1..], rest);
    }
  }

  /**
   * Where upload stores a file: "./users/" + owner id + "/" + name, so the owner's
   * decimal id and the name make up everything after "./users/".
   */
  function UploadPath(ownerId: int, name: string): (p: string)
    ensures |p| >= 8 && p[..8] == "./users/" && p[8..] == IntToString(ownerId) + "/" + name
  {
    var p := "./users/" + IntToString(ownerId) + "/" + name;
    assert p == "./users/" + (IntToString(ownerId) + "/" + name);
    p
  }

  /** The owner's directory separates owners: two uploads share a path only for the same owner and name. */
  lemma UploadPathInjective(a: int, nameA: string, b: int, nameB: string)
    requires UploadPath(a, nameA) == UploadPath(b, nameB)
    ensures a == b && nameA == nameB
  {
    var tail, ia, ib := UploadPath(a, nameA)[8..], IntToString(a), IntToString(b);
    IntToStringHasNoSlash(a);
    IntToStringHasNoSlash(b);
    UpToSlashStops(ia, nameA);
    UpToSlashStops(ib, nameB);
    assert ia == UpToSlash(tail) == ib;
    IntToStringInjective(a, b);
    assert nameA == (ia + "/" + nameA)[|ia| + 1..] == tail[|ia| + 1..] == nameB;
  }

  /**
   * The access test of upload as written: the caller collaborates on exactly one
   * file with that NAME, wherever that file is stored.
   */
  ghost predicate UploadAccessAsWritten(files: map<int, File>, name: string, userId: int)
    ensures UploadAccessAsWritten(files, name, userId) <==> Classify(FilesOfUser(files, name, userId)).Unique?
    ensures UploadAccessAsWritten(files, name, userId) ==>
              var id := Classify(FilesOfUser(files, name, userId)).id;
              id in files && files[id].name == name && userId in files[id].collaborators
  {
    var found := Classify(FilesOfUser(files, name, userId));
    assert found.Unique? ==> found.id in FilesOfUser(files, name, userId);
    |FilesOfUser(files, name, userId)| == 1
  }

  /** The access test upload evidently intends: the caller collaborates on the record stored at the target path. */
  predicate UploadAccess(file: File, userId: int)
  {
    userId in file.collaborators
  }

  /**
   * Alice (id 1) owns "a.txt" at ./users/1/a.txt; Bob (id 2) owns his own "a.txt".
   * Bob uploads with owner "alice": the as-written test admits him, since he
   * collaborates on a file called "a.txt", and Alice's file would be overwritten.
   */
  lemma NameCheckAdmitsOtherOwnersPath()
    ensures var alice := File(1, 1, 1, "a.txt", UploadPath(1, "a.txt"), [1], 1, []);
            var bob := File(2, 1, 2, "a.txt", UploadPath(2, "a.txt"), [2], 2, []);
            var files := map[1 := alice, 2 := bob];
            && UniquePaths(files)
            && FileAt(files, UploadPath(1, "a.txt")) == Some(1)
            && UploadAccessAsWritten(files, "a.txt", 2)
            && !UploadAccess(files[1], 2)
  {
    var alice := File(1, 1, 1, "a.txt", UploadPath(1, "a.txt"), [1], 1, []);
    var bob := File(2, 1, 2, "a.txt", UploadPath(2, "a.txt"), [2], 2, []);
    var files := map[1 := alice, 2 := bob];
    if UploadPath(1, "a.txt") == UploadPath(2, "a.txt") {
      UploadPathInjective(1, "a.txt", 2, "a.txt");
    }
    assert FilesAtPath(files, UploadPath(1, "a.txt")) == {1};
    assert FilesOfUser(files, "a.txt", 2) == {2};
  }

  /** The status getToken answers with for each failure of the authentication service. */
  function TokenStatus(e: AuthError): (s: Status)
    ensures e.Authentication? ==> s == Status(InvalidArgument, e.message)
    ensures !e.Authentication? ==> s == Uncaught
  {
    if e.Authentication? then Status(InvalidArgument, e.message) else Uncaught
  }

  /**
   * As written, a login answered with no number pending ends with UNKNOWN instead of
   * the "Number not found" the service means to report.
   */
  lemma MissingNumberStatus(cache: map<int, string>, id: int)
    requires id !in cache
    ensures TokenStatus(CacheGetAsWritten(cache, id).error) == Uncaught
    ensures TokenStatus(StoredNumber(cache, id).error) == Status(InvalidArgument, NumberNotFound)
  {
  }

  /** The collaborators remove reports: all but the caller and the removed user, in list order. */
  function Survivors(rows: seq<User>, callerId: int, target: string): (r: seq<User>)
    ensures forall u :: u in r ==> u in rows && u.id != callerId && u.username != target
    ensures forall u :: u in rows && u.id != callerId && u.username != target ==> u in r
    ensures |r| <= |rows|
  {
    if rows == [] then []
    else
      var last := rows[|rows| - 1];
      assert rows == rows[..|rows| - 1] + [last];
      Survivors(rows[..|rows| - 1], callerId, target)
        + (if last.id != callerId && last.username != target then [last] else [])
  }

  function Pairs(users: seq<User>): (r: seq<Collaborator>)
    ensures |r| == |users| && forall k :: 0 <= k < |r| ==> r[k] == Collaborator(users[k].username, users[k].certificate)
  {
    seq(|users|, k requires 0 <= k < |users| => Collaborator(users[k].username, users[k].certificate))
  }

  lemma PairsAppend(users: seq<User>, u: User)
    ensures Pairs(users + [u]) == Pairs(users) + [Collaborator(u.username, u.certificate)]
  {
  }

  /** The loop of remove that collects the certificates of the collaborators who keep access. */
  method CollectCertificates(rows: seq<User>, callerId: int, target: string) returns (pairs: seq<Collaborator>)
    ensures pairs == Pairs(Survivors(rows, callerId, target))
  {
    pairs := [];
    var i := 0;
    while i < |rows|
      invariant 0 <= i <= |rows|
      invariant pairs == Pairs(Survivors(rows[..i], callerId, target))
    {
      var collaborator := rows[i];
      ghost var before := Survivors(rows[..i], callerId, target);
      assert rows[..i + 1][..i] == rows[..i] && rows[..i + 1][i] == collaborator;
      if collaborator.id != callerId && collaborator.username != target {
        assert Survivors(rows[..i + 1], callerId, target) == before + [collaborator];
        PairsAppend(before, collaborator);
        pairs := pairs + [Collaborator(collaborator.username, collaborator.certificate)];
      } else {
        assert Survivors(rows[..i + 1], callerId, target) == before + [];
      }
      i := i + 1;
    }
    assert rows[..i] == rows;
  }

  /** Some pending invite of the user is to the file `fileId`. */
  predicate HasInviteTo(pending: seq<int>, invites: map<int, Invite>, fileId: int)
  {
    exists k :: 0 <= k < |pending| && pending[k] in invites && invites[pending[k]].file == fileId
  }

  /** The loop of invite over the invitee's pending invites. */
  method FindInviteTo(pending: seq<int>, invites: map<int, Invite>, fileId: int) returns (found: bool)
    ensures found <==> HasInviteTo(pending, invites, fileId)
  {
    var i := 0;
    while i < |pending|
      invariant 0 <= i <= |pending|
      invariant forall k :: 0 <= k < i ==> !(pending[k] in invites && invites[pending[k]].file == fileId)
    {
      if pending[i] in invites && invites[pending[i]].file == fileId {
        return true;
      }
      i := i + 1;
    }
    return false;
  }

  /** The file names getToken lists, one per pending invite whose invite and file rows exist. */
  function InviteFileNames(pending: seq<int>, invites: map<int, Invite>, files: map<int, File>): (names: seq<string>)
    ensures |names| <= |pending|
  {
    if pending == [] then []
    else
      var last := pending[|pending| - 1];
      InviteFileNames(pending[..|pending| - 1], invites, files)
        + (if last in invites && invites[last].file in files then [files[invites[last].file].name] else [])
  }

  /** When every pending invite resolves, the list names each invite's file, in order. */
  lemma {:induction false} InviteFileNamesComplete(pending: seq<int>, invites: map<int, Invite>, files: map<int, File>)
    requires forall k :: 0 <= k < |pending| ==> pending[k] in invites && invites[pending[k]].file in files
    ensures |InviteFileNames(pending, invites, files)| == |pending|
    ensures forall k :: 0 <= k < |pending| ==> InviteFileNames(pending, invites, files)[k] == files[invites[pending[k]].file].name
  {
    if pending != [] {
      InviteFileNamesComplete(pending[..|pending| - 1], invites, files);
    }
  }

  /** The loop of getToken that lists the invited file names. */
  method ListInvites(pending: seq<int>, invites: map<int, Invite>, files: map<int, File>) returns (names: seq<string>)
    ensures names == InviteFileNames(pending, invites, files)
  {
    names := [];
    var i := 0;
    while i < |pending|
      invariant 0 <= i <= |pending|
      invariant names == InviteFileNames(pending[..i], invites, files)
    {
      assert pending[..i + 1][..i] == pending[..i];
      var invite := pending[i];
      if invite in invites && invites[invite].file in files {
        names := names + [files[invites[invite].file].name];
      }
      i := i + 1;
    }
    assert pending[..i] == pending;
  }

  /** A new invite appended to a user with no matching invite is the one accept finds. */
  lemma {:induction false} FirstInviteForAppend(pending: seq<int>, invites: map<int, Invite>, files: map<int, File>,
                                                name: string, id: int, invite: Invite)
    requires FirstInviteFor(pending, invites, files, name).None?
    requires id !in invites && invite.file in files && files[invite.file].name == name
    ensures FirstInviteFor(pending + [id], invites[id := invite], files, name) == Some(id)
  {
    var invites' := invites[id := invite];
    if pending == [] {
      assert InvitesTo(invites', files, id, name);
    } else {
      assert (pending + [id])[1..] == pending[1..] + [id];
      assert (pending + [id])[0] == pending[0];
      if pending[0] == id {
        assert InvitesTo(invites', files, id, name);
      } else {
        assert !InvitesTo(invites, files, pending[0], name);
        assert !InvitesTo(invites', files, pending[0], name);
        assert FirstInviteFor(pending[1..], invites, files, name).None? by {
          forall k | 0 <= k < |pending[1..]| ensures !InvitesTo(invites, files, pending[1..][k], name) {
            assert pending[1..][k] == pending[k + 1];
          }
        }
        FirstInviteForAppend(pending[1..], invites, files, name, id, invite);
      }
    }
  }

  const NoAccess: Status := Status(NotFound, "You do not have access to file")
  const WriteFailed: Status := Status(Unknown, "Failed writing file")

  /**
   * Why upload leaves the record at `path` alone, if it does: a new path needs the
   * caller's user row to own the new record, an existing one needs the caller among
   * its collaborators.
   */
  ghost function UploadRefusal(users: map<int, User>, files: map<int, File>, userId: int, path: string): Option<Status>
    requires UniquePaths(files)
  {
    match FileAt(files, path)
    case None => if userId in users then None else Some(Uncaught)
    case Some(id) => if UploadAccess(files[id], userId) then None else Some(NoAccess)
  }

  /**
   * The tables after upload's record step (`users'`, `files'`) against the tables
   * before it: a new record at version 1 owned and last modified by the caller, who
   * is its only collaborator and lists it among their files; or the existing record
   * with one more version, the caller as last modifier and the new signature; or,
   * when refused, nothing changed.
   */
  ghost predicate UploadRecorded(users: map<int, User>, files: map<int, File>, nextFileId: int,
                                 users': map<int, User>, files': map<int, File>,
                                 userId: int, name: string, path: string, signature: Bytes)
    requires UniquePaths(files)
  {
    match FileAt(files, path)
    case None =>
      if userId in users then
        && files' == files[nextFileId := File(nextFileId, 1, userId, name, path, [userId], userId, signature)]
        && users' == users[userId := users[userId].AddFile(nextFileId)]
      else files' == files && users' == users
    case Some(id) =>
      && users' == users
      && files' == if UploadAccess(files[id], userId)
                   then files[id := files[id].IncrementVersion().SetLastModifier(userId).(signature := signature)]
                   else files
  }

  /** The version upload reports for `path`: 1 for a new record, one more than the stored one otherwise. */
  ghost function NewVersion(files: map<int, File>, path: string): int
    requires UniquePaths(files)
  {
    match FileAt(files, path)
    case None => 1
    case Some(id) => files[id].version + 1
  }

  /**
   * After a record step that was not refused, the path holds exactly one record, the
   * caller collaborates on it, and its version is the one upload reports.
   */
  lemma UploadedVersion(users: map<int, User>, files: map<int, File>, nextFileId: int,
                        users': map<int, User>, files': map<int, File>,
                        userId: int, name: string, path: string, signature: Bytes)
    requires UniquePaths(files) && UniquePaths(files') && nextFileId !in files
    requires UploadRecorded(users, files, nextFileId, users', files', userId, name, path, signature)
    requires UploadRefusal(users, files, userId, path).None?
    ensures FileAt(files', path).Some?
    ensures userId in files'[FileAt(files', path).value].collaborators
    ensures files'[FileAt(files', path).value].version == NewVersion(files, path)
  {
    match FileAt(files, path)
    case None =>
      assert nextFileId in FilesAtPath(files', path);
    case Some(id) =>
      assert id in FilesAtPath(files', path);
  }

  /**
   * upload's refusal as written: an existing record is updated when getFileByUser
   * finds exactly one file with that name the caller collaborates on, wherever it is
   * stored; none is NOT_FOUND and several make the lookup throw.
   */
  ghost function UploadRefusalAsWritten(users: map<int, User>, files: map<int, File>, userId: int, name: string,
                                        path: string): Option<Status>
    requires UniquePaths(files)
  {
    match FileAt(files, path)
    case None => if userId in users then None else Some(Uncaught)
    case Some(_) =>
      match Classify(FilesOfUser(files, name, userId))
      case Absent => Some(NoAccess)
      case Ambiguous => Some(Uncaught)
      case Unique(_) => None
  }

  /** upload's record step as written: a new path as in `UploadRecorded`, an existing record updated under the name test. */
  ghost predicate UploadRecordedAsWritten(users: map<int, User>, files: map<int, File>, nextFileId: int,
                                          users': map<int, User>, files': map<int, File>,
                                          userId: int, name: string, path: string, signature: Bytes)
    requires UniquePaths(files)
  {
    match FileAt(files, path)
    case None => UploadRecorded(users, files, nextFileId, users', files', userId, name, path, signature)
    case Some(id) =>
      && users' == users
      && files' == if UploadAccessAsWritten(files, name, userId)
                   then files[id := files[id].IncrementVersion().SetLastModifier(userId).(signature := signature)]
                   else files
  }

  /**
   * For a record called `name` at the path, the two access tests both admit the
   * caller exactly when the caller collaborates on that record and on no other file
   * of that name, and then the two record steps coincide. The corrected test admits
   * while the written one refuses only when the name is ambiguous, which throws; the
   * written test admits while the corrected one refuses only through another file.
   */
  lemma AccessTestsAgree(users: map<int, User>, files: map<int, File>, nextFileId: int,
                         users': map<int, User>, files': map<int, File>,
                         userId: int, name: string, path: string, signature: Bytes)
    requires UniquePaths(files) && FileAt(files, path).Some?
    requires files[FileAt(files, path).value].name == name
    ensures var id := FileAt(files, path).value;
            && (UploadRefusal(users, files, userId, path).None? && UploadRefusalAsWritten(users, files, userId, name, path).None?
                <==> FilesOfUser(files, name, userId) == {id})
            && (FilesOfUser(files, name, userId) == {id} ==>
                  (UploadRecordedAsWritten(users, files, nextFileId, users', files', userId, name, path, signature)
                   <==> UploadRecorded(users, files, nextFileId, users', files', userId, name, path, signature)))
            && (UploadRefusal(users, files, userId, path).None? && UploadRefusalAsWritten(users, files, userId, name, path).Some? ==>
                  UploadRefusalAsWritten(users, files, userId, name, path) == Some(Uncaught) && |FilesOfUser(files, name, userId)| >= 2)
            && (UploadRefusal(users, files, userId, path).Some? && UploadRefusalAsWritten(users, files, userId, name, path).None? ==>
                  id !in FilesOfUser(files, name, userId))
  {
    var id := FileAt(files, path).value;
    var mine := FilesOfUser(files, name, userId);
    if userId in files[id].collaborators {
      assert id in mine;
      if |mine| == 1 {
        SingletonIs(mine, id);
      }
    }
  }

  /**
   * A user who collaborates on the record at the path and on a second file of the
   * same name: Alice (id 1) uploads "a.txt" as herself, then "a.txt" with owner Bob
   * (id 2), who has no such file, which creates a second record she collaborates on.
   * Her third upload of "a.txt" as herself passes the corrected test but makes the
   * written lookup throw.
   */
  lemma AmbiguousNameRefusesCollaborator(users: map<int, User>)
    ensures var own := File(1, 1, 1, "a.txt", UploadPath(1, "a.txt"), [1], 1, []);
            var other := File(2, 1, 1, "a.txt", UploadPath(2, "a.txt"), [1], 1, []);
            var files := map[1 := own, 2 := other];
            && UniquePaths(files)
            && FileAt(files, UploadPath(1, "a.txt")) == Some(1)
            && UploadRefusal(users, files, 1, UploadPath(1, "a.txt")) == None
            && UploadRefusalAsWritten(users, files, 1, "a.txt", UploadPath(1, "a.txt")) == Some(Uncaught)
  {
    var own := File(1, 1, 1, "a.txt", UploadPath(1, "a.txt"), [1], 1, []);
    var other := File(2, 1, 1, "a.txt", UploadPath(2, "a.txt"), [1], 1, []);
    var files := map[1 := own, 2 := other];
    if UploadPath(1, "a.txt") == UploadPath(2, "a.txt") {
      UploadPathInjective(1, "a.txt", 2, "a.txt");
    }
    assert FilesAtPath(files, UploadPath(1, "a.txt")) == {1};
    assert FilesOfUser(files, "a.txt", 1) == {1, 2};
  }

  /**
   * After the written record step, when it was not refused, the path holds one record
   * with the reported version; unlike `UploadedVersion`, the caller need not be one
   * of its collaborators.
   */
  lemma UploadedVersionAsWritten(users: map<int, User>, files: map<int, File>, nextFileId: int,
                                 users': map<int, User>, files': map<int, File>,
                                 userId: int, name: string, path: string, signature: Bytes)
    requires UniquePaths(files) && UniquePaths(files') && nextFileId !in files
    requires UploadRecordedAsWritten(users, files, nextFileId, users', files', userId, name, path, signature)
    requires UploadRefusalAsWritten(users, files, userId, name, path).None?
    ensures FileAt(files', path).Some?
    ensures files'[FileAt(files', path).value].version == NewVersion(files, path)
  {
    match FileAt(files, path)
    case None =>
      assert nextFileId in FilesAtPath(files', path);
    case Some(id) =>
      assert id in FilesAtPath(files', path);
  }

  const NotInvited: Status := Status(InvalidArgument, "You have not been invited to edit this file.")

  /**
   * The ownership test of remove and invite: the caller collaborates on exactly one
   * file called `name` and owns it. A name the caller collaborates on twice makes the
   * lookup throw.
   */
  ghost function OwnedFile(files: map<int, File>, name: string, userId: int): (r: Result<int, Status>)
    ensures r.Ok? ==> && FilesOfUser(files, name, userId) == {r.value}
                      && r.value in files && files[r.value].owner == userId
    ensures r.Err? ==> r.error in {Uncaught, Status(InvalidArgument, NotOwner)}
    ensures r.Err? && r.error == Uncaught <==> |FilesOfUser(files, name, userId)| >= 2
  {
    match Classify(FilesOfUser(files, name, userId))
    case Absent => Err(Status(InvalidArgument, NotOwner))
    case Ambiguous => Err(Uncaught)
    case Unique(id) =>
      assert id in FilesOfUser(files, name, userId);
      if files[id].owner == userId then Ok(id) else Err(Status(InvalidArgument, NotOwner))
  }

  /** Why remove stops after the ownership test, if it does: the user to remove must exist and collaborate on the file. */
  ghost function RevokeRefusal(users: map<int, User>, files: map<int, File>, name: string, username: string): Option<Status>
    requires UniqueUsernames(users)
  {
    match UserNamed(users, username)
    case None => Some(Status(InvalidArgument, NoSuchUser))
    case Some(target) =>
      match Classify(FilesOfUser(files, name, target))
      case Absent => Some(Status(InvalidArgument, "User does not have access to file."))
      case Ambiguous => Some(Uncaught)
      case Unique(_) => None
  }

  /**
   * Why invite stops after the ownership test, if it does: the invitee must exist,
   * must not collaborate on a file of that name yet, and must hold no pending invite
   * to the file.
   */
  ghost function InviteRefusal(users: map<int, User>, files: map<int, File>, invites: map<int, Invite>,
                               name: string, fileId: int, username: string): Option<Status>
    requires UniqueUsernames(users)
  {
    match UserNamed(users, username)
    case None => Some(Uncaught)
    case Some(invitee) =>
      match Classify(FilesOfUser(files, name, invitee))
      case Unique(_) => Some(Status(InvalidArgument, "User can already edit the file."))
      case Ambiguous => Some(Uncaught)
      case Absent =>
        if HasInviteTo(users[invitee].pendingInvites, invites, fileId)
        then Some(Status(InvalidArgument, "User has already been invited to edit that file."))
        else None
  }

  class ServerImpl {
    const db: Database
    const userService: UserService
    const fileService: FileService
    const inviteService: InviteService
    const authenticationService: AuthenticationService
    var primary: bool
    /** A channel to the backup has been opened (the stub is set). */
    var connected: bool
    var disk: map<string, Bytes>

    ghost predicate Valid()
      reads this, db
    {
      && db.Valid()
      && userService.db == db && fileService.db == db && inviteService.db == db
      && authenticationService.db == db
    }

    /** The backup will answer this request with an error. */
    ghost predicate Rejects(backup: Backup)
      reads this
    {
      primary && (connected || backup.reachable) && backup.answer.Fail?
    }

    /** The handler reaches its own work: the caller is authenticated and the backup does not refuse. */
    ghost predicate Proceeds(userId: int, backup: Backup)
      reads this
    {
      userId != -1 && !Rejects(backup)
    }

    constructor (db: Database, primary: bool)
      requires db.Valid()
      ensures Valid() && this.db == db && this.primary == primary && !connected && disk == map[]
      ensures authenticationService.authCache == map[]
    {
      this.db := db;
      userService := new UserService(db);
      fileService := new FileService(db);
      inviteService := new InviteService(db);
      authenticationService := new AuthenticationService(db);
      this.primary := primary;
      connected := false;
      disk := map[];
    }

    /**
     * The forwarding block: a primary opens the channel on first use and sends the
     * request on. Only an error status from the backup stops the handler.
     */
    method Forward(backup: Backup) returns (failure: Option<Status>)
      modifies this`connected
      ensures failure.Some? <==> old(Rejects(backup))
      ensures failure.Some? ==> failure.value == backup.answer.error
      ensures connected == (old(connected) || (primary && backup.reachable))
    {
      if primary {
        if !connected {
          if !backup.reachable {
            return None;
          }
          connected := true;
        }
        if backup.answer.Fail? {
          return Some(backup.answer.error);
        }
      }
      return None;
    }

    /**
     * The record half of upload, between building the path and writing the file: a
     * new path gets a new record owned by the caller, an existing one is updated when
     * the caller collaborates on it. Returns the refusal, if there is one.
     */
    method StoreRecord(userId: int, name: string, path: string, signature: Bytes) returns (refusal: Option<Status>)
      requires Valid()
      modifies db
      ensures Valid()
      ensures refusal == UploadRefusal(old(db.users), old(db.files), userId, path)
      ensures UploadRecorded(old(db.users), old(db.files), old(db.nextFileId), db.users, db.files, userId, name, path, signature)
      ensures db.invites == old(db.invites)
      ensures refusal.Some? ==> unchanged(db)
    {
      var file := fileService.GetFileByPath(path);
      if file.None? {
        var created := fileService.CreateFile(userId, name, path, signature);
        if created.Err? {
          return Some(Uncaught);
        }
      } else {
        assert file.value.id in FilesAtPath(db.files, path);
        if !UploadAccess(file.value, userId) {
          return Some(NoAccess);
        }
        var updated := fileService.UpdateFile(path, signature, userId);
      }
      refusal := None;
    }

    /**
     * The record half of upload as written: an existing record is updated when
     * getFileByUser finds the caller's one file with that name, which need not be the
     * record at the path.
     */
    method StoreRecordAsWritten(userId: int, name: string, path: string, signature: Bytes) returns (refusal: Option<Status>)
      requires Valid()
      modifies db
      ensures Valid()
      ensures refusal == UploadRefusalAsWritten(old(db.users), old(db.files), userId, name, path)
      ensures UploadRecordedAsWritten(old(db.users), old(db.files), old(db.nextFileId), db.users, db.files, userId, name, path, signature)
      ensures db.invites == old(db.invites)
      ensures refusal.Some? ==> unchanged(db)
    {
      var file := fileService.GetFileByPath(path);
      if file.None? {
        var created := fileService.CreateFile(userId, name, path, signature);
        if created.Err? {
          return Some(Uncaught);
        }
      } else {
        assert file.value.id in FilesAtPath(db.files, path);
        var mine := fileService.GetFileByUser(name, userId);
        if mine.Err? {
          return Some(Uncaught);
        }
        if mine.value.None? {
          return Some(NoAccess);
        }
        var updated := fileService.UpdateFile(path, signature, userId);
      }
      refusal := None;
    }

    /**
     * upload: stores `content` at the owner's path. A new path gets a new record with
     * the caller as owner; an existing one takes one more version, provided the caller
     * collaborates on it. The answer is the stored version.
     */
    method Upload(userId: int, owner: string, name: string, signature: Bytes, content: Bytes,
                  backup: Backup, writeFails: bool) returns (r: Result<int, Status>)
      requires Valid()
      modifies this`connected, this`disk, db
      ensures Valid()
      ensures connected == (old(connected) || (userId != -1 && primary && backup.reachable))
      ensures userId == -1 ==>
                r == Err(Status(Unauthenticated, "Upload endpoint is for authenticated users only."))
      ensures !old(Proceeds(userId, backup)) ==> unchanged(db) && disk == old(disk)
      ensures userId != -1 && old(Rejects(backup)) ==> r == Err(backup.answer.error)
      ensures old(Proceeds(userId, backup)) && UserNamed(old(db.users), owner).None? ==>
                r == Err(Uncaught) && unchanged(db) && disk == old(disk)
      ensures old(Proceeds(userId, backup)) && UserNamed(old(db.users), owner).Some? ==>
                var path := UploadPath(UserNamed(old(db.users), owner).value, name);
                var refusal := UploadRefusal(old(db.users), old(db.files), userId, path);
                && UploadRecorded(old(db.users), old(db.files), old(db.nextFileId), db.users, db.files, userId, name, path, signature)
                && db.invites == old(db.invites)
                && (refusal.Some? ==> r == Err(refusal.value) && unchanged(db) && disk == old(disk))
                && (refusal.None? && writeFails ==> r == Err(WriteFailed) && disk == old(disk))
                && (refusal.None? && !writeFails ==>
                      r == Ok(NewVersion(old(db.files), path)) && disk == old(disk)[path := content])
    {
      if userId == -1 {
        return Err(Status(Unauthenticated, "Upload endpoint is for authenticated users only."));
      }
      var failure := Forward(backup);
      if failure.Some? {
        return Err(failure.value);
      }
      var ownerRow := userService.GetUserByUsername(owner);
      if ownerRow.Err? {
        return Err(Uncaught);
      }
      assert UserNamed(db.users, owner) == Some(ownerRow.value.id);
      r := UploadTo(userId, UploadPath(ownerRow.value.id, name), name, signature, content, writeFails);
    }

    /** Upload once the path is known: the record step, the write, and the answer. */
    method UploadTo(userId: int, path: string, name: string, signature: Bytes, content: Bytes, writeFails: bool)
      returns (r: Result<int, Status>)
      requires Valid()
      modifies this`disk, db
      ensures Valid()
      ensures db.invites == old(db.invites)
      ensures UploadRecorded(old(db.users), old(db.files), old(db.nextFileId), db.users, db.files, userId, name, path, signature)
      ensures UploadRefusal(old(db.users), old(db.files), userId, path).Some? ==>
                r == Err(UploadRefusal(old(db.users), old(db.files), userId, path).value) && unchanged(db) && disk == old(disk)
      ensures UploadRefusal(old(db.users), old(db.files), userId, path).None? && writeFails ==>
                r == Err(WriteFailed) && disk == old(disk)
      ensures UploadRefusal(old(db.users), old(db.files), userId, path).None? && !writeFails ==>
                r == Ok(NewVersion(old(db.files), path)) && disk == old(disk)[path := content]
    {
      ghost var users, files, nextFileId := db.users, db.files, db.nextFileId;
      var refusal := StoreRecord(userId, name, path, signature);
      if refusal.Some? {
        return Err(refusal.value);
      }
      if writeFails {
        return Err(WriteFailed);
      }
      disk := disk[path := content];
      r := StoredVersion(path, users, files, nextFileId, userId, name, signature);
    }

    /** The answer of a successful upload: the version of the record now stored at the path. */
    method StoredVersion(path: string, ghost users: map<int, User>, ghost files: map<int, File>, ghost nextFileId: int,
                         ghost userId: int, ghost name: string, ghost signature: Bytes) returns (r: Result<int, Status>)
      requires Valid() && UniquePaths(files) && nextFileId !in files
      requires UploadRecorded(users, files, nextFileId, db.users, db.files, userId, name, path, signature)
      requires UploadRefusal(users, files, userId, path).None?
      ensures r == Ok(NewVersion(files, path))
    {
      UploadedVersion(users, files, nextFileId, db.users, db.files, userId, name, path, signature);
      var stored := fileService.GetFileByPath(path);
      assert stored.value.id in FilesAtPath(db.files, path);
      r := Ok(stored.value.version);
    }

    /**
     * download: the file called `name` that the caller collaborates on, with the
     * stored contents, its signature, the last modifier's certificate and name, the
     * version and the owner's name. `disk` missing the path is the failed read.
     */
    method Download(userId: int, name: string, backup: Backup) returns (r: Result<DownloadResponse, Status>)
      requires Valid()
      modifies this`connected
      ensures connected == (old(connected) || (userId != -1 && primary && backup.reachable))
      ensures userId == -1 ==>
                r == Err(Status(Unauthenticated, "Download endpoint is for authenticated users only."))
      ensures userId != -1 && old(Rejects(backup)) ==> r == Err(backup.answer.error)
      ensures old(Proceeds(userId, backup)) ==>
                match Classify(FilesOfUser(db.files, name, userId))
                case Absent => r == Err(Status(NotFound, "You do not have access to file."))
                case Ambiguous => r == Err(Uncaught)
                case Unique(id) =>
                  var file := db.files[id];
                  && (file.lastModifier !in db.users ==> r == Err(Uncaught))
                  && (file.lastModifier in db.users && file.path !in disk ==>
                        r == Err(Status(Unknown, "Failed reading file")))
                  && (file.lastModifier in db.users && file.path in disk && file.owner !in db.users ==>
                        r == Err(Uncaught))
                  && (file.lastModifier in db.users && file.path in disk && file.owner in db.users ==>
                        r == Ok(DownloadResponse(disk[file.path], file.signature, db.users[file.lastModifier].certificate,
                                                 db.users[file.lastModifier].username, file.version,
                                                 db.users[file.owner].username)))
    {
      if userId == -1 {
        return Err(Status(Unauthenticated, "Download endpoint is for authenticated users only."));
      }
      var failure := Forward(backup);
      if failure.Some? {
        return Err(failure.value);
      }
      var found := fileService.GetFileByUser(name, userId);
      if found.Err? {
        return Err(Uncaught);
      }
      if found.value.None? {
        return Err(Status(NotFound, "You do not have access to file."));
      }
      var file := found.value.value;
      var modifier := userService.GetUserById(file.lastModifier);
      if modifier.Err? {
        return Err(Uncaught);
      }
      if file.path !in disk {
        return Err(Status(Unknown, "Failed reading file"));
      }
      var bytes := disk[file.path];
      var owner := userService.GetUserById(file.owner);
      if owner.Err? {
        return Err(Uncaught);
      }
      r := Ok(DownloadResponse(bytes, file.signature, modifier.value.certificate, modifier.value.username,
                               file.version, owner.value.username));
    }

    /** share: the certificate of the user to share with, so the caller can encrypt the file key for them. */
    method Share(userId: int, username: string, backup: Backup) returns (r: Result<Bytes, Status>)
      requires Valid()
      modifies this`connected
      ensures connected == (old(connected) || (userId != -1 && primary && backup.reachable))
      ensures userId == -1 ==>
                r == Err(Status(Unauthenticated, "Share endpoint is for authenticated users only."))
      ensures userId != -1 && old(Rejects(backup)) ==> r == Err(backup.answer.error)
      ensures old(Proceeds(userId, backup)) ==>
                match UserNamed(db.users, username)
                case None => r == Err(Status(InvalidArgument, NoSuchUser))
                case Some(id) => r == Ok(db.users[id].certificate)
    {
      if userId == -1 {
        return Err(Status(Unauthenticated, "Share endpoint is for authenticated users only."));
      }
      var failure := Forward(backup);
      if failure.Some? {
        return Err(failure.value);
      }
      var user := userService.GetUserByUsername(username);
      if user.Err? {
        return Err(Status(InvalidArgument, NoSuchUser));
      }
      r := Ok(user.value.certificate);
    }

    /** The ownership test remove and invite start with. */
    method CheckOwnership(userId: int, name: string) returns (r: Result<int, Status>)
      requires Valid()
      ensures r == OwnedFile(db.files, name, userId)
    {
      var found := fileService.GetFileByUser(name, userId);
      if found.Err? {
        return Err(Uncaught);
      }
      if found.value.None? || found.value.value.owner != userId {
        return Err(Status(InvalidArgument, NotOwner));
      }
      r := Ok(found.value.value.id);
    }

    /**
     * The part of remove after the ownership test: reports the certificates of the
     * collaborators who keep access (everyone but the caller and the removed user),
     * then leaves the caller as the file's only collaborator. The clearing is its own
     * transaction: when re-adding the caller fails, the file is left with none.
     */
    method Revoke(userId: int, fileId: int, name: string, username: string) returns (r: Result<seq<Collaborator>, Status>)
      requires Valid() && fileId in db.files
      modifies db
      ensures Valid()
      ensures db.invites == old(db.invites)
      ensures RevokeRefusal(old(db.users), old(db.files), name, username).Some? ==>
                r == Err(RevokeRefusal(old(db.users), old(db.files), name, username).value) && unchanged(db)
      ensures RevokeRefusal(old(db.users), old(db.files), name, username).None? ==>
                var file := old(db.files)[fileId];
                && (userId in old(db.users) ==>
                      && r == Ok(Pairs(Survivors(Rows(old(db.users), file.collaborators), userId, username)))
                      && db.files == old(db.files)[fileId := file.(collaborators := [userId])]
                      && db.users == old(db.users)[userId := old(db.users)[userId].AddFile(fileId)])
                && (userId !in old(db.users) ==>
                      && r == Err(Uncaught)
                      && db.files == old(db.files)[fileId := file.(collaborators := [])]
                      && db.users == old(db.users))
    {
      var user := userService.GetUserByUsername(username);
      if user.Err? {
        return Err(Status(InvalidArgument, NoSuchUser));
      }
      var access := fileService.GetFileByUser(name, user.value.id);
      if access.Err? {
        return Err(Uncaught);
      }
      if access.value.None? {
        return Err(Status(InvalidArgument, "User does not have access to file."));
      }
      assert UserNamed(db.users, username) == Some(user.value.id);
      r := KeepOnlyCaller(userId, fileId, username);
    }

    /**
     * The end of remove: collects the certificates of the collaborators who keep
     * access, clears the collaborators and adds the caller back.
     */
    method KeepOnlyCaller(userId: int, fileId: int, username: string) returns (r: Result<seq<Collaborator>, Status>)
      requires Valid() && fileId in db.files
      modifies db
      ensures Valid()
      ensures db.invites == old(db.invites)
      ensures var file := old(db.files)[fileId];
              && (userId in old(db.users) ==>
                    && r == Ok(Pairs(Survivors(Rows(old(db.users), file.collaborators), userId, username)))
                    && db.files == old(db.files)[fileId := file.(collaborators := [userId])]
                    && db.users == old(db.users)[userId := old(db.users)[userId].AddFile(fileId)])
              && (userId !in old(db.users) ==>
                    && r == Err(Uncaught)
                    && db.files == old(db.files)[fileId := file.(collaborators := [])]
                    && db.users == old(db.users))
    {
      var rows := fileService.GetFileCollaborators(fileId);
      var pairs := CollectCertificates(rows.value, userId, username);
      var added := ResetCollaborators(userId, fileId);
      if !added {
        return Err(Uncaught);
      }
      r := Ok(pairs);
    }

    /** clearCollaborators then addCollaborator of the caller, each in its own transaction. */
    method ResetCollaborators(userId: int, fileId: int) returns (added: bool)
      requires Valid() && fileId in db.files
      modifies db
      ensures Valid()
      ensures db.invites == old(db.invites)
      ensures added <==> userId in old(db.users)
      ensures added ==> && db.files == old(db.files)[fileId := old(db.files)[fileId].(collaborators := [userId])]
                        && db.users == old(db.users)[userId := old(db.users)[userId].AddFile(fileId)]
      ensures !added ==> db.files == old(db.files)[fileId := old(db.files)[fileId].(collaborators := [])] && db.users == old(db.users)
    {
      var cleared := fileService.ClearCollaborators(fileId);
      var result := fileService.AddCollaborator(fileId, userId);
      assert [] + [userId] == [userId];
      added := result.Pass?;
    }

    /** remove: the owner revokes a collaborator's access to the file called `name`. */
    method Remove(userId: int, name: string, username: string, backup: Backup) returns (r: Result<seq<Collaborator>, Status>)
      requires Valid()
      modifies this`connected, db
      ensures Valid()
      ensures connected == (old(connected) || (userId != -1 && primary && backup.reachable))
      ensures userId == -1 ==>
                r == Err(Status(Unauthenticated, "Remove endpoint is for authenticated users only."))
      ensures userId != -1 && old(Rejects(backup)) ==> r == Err(backup.answer.error)
      ensures !old(Proceeds(userId, backup)) ==> unchanged(db)
      ensures old(Proceeds(userId, backup)) ==>
                match OwnedFile(old(db.files), name, userId)
                case Err(refusal) => r == Err(refusal) && unchanged(db)
                case Ok(id) =>
                  var file := old(db.files)[id];
                  var refusal := RevokeRefusal(old(db.users), old(db.files), name, username);
                  && db.invites == old(db.invites)
                  && (refusal.Some? ==> r == Err(refusal.value) && unchanged(db))
                  && (refusal.None? && userId in old(db.users) ==>
                        && r == Ok(Pairs(Survivors(Rows(old(db.users), file.collaborators), userId, username)))
                        && db.files == old(db.files)[id := file.(collaborators := [userId])]
                        && db.users == old(db.users)[userId := old(db.users)[userId].AddFile(id)])
                  && (refusal.None? && userId !in old(db.users) ==>
                        && r == Err(Uncaught)
                        && db.files == old(db.files)[id := file.(collaborators := [])]
                        && db.users == old(db.users))
    {
      if userId == -1 {
        return Err(Status(Unauthenticated, "Remove endpoint is for authenticated users only."));
      }
      var failure := Forward(backup);
      if failure.Some? {
        return Err(failure.value);
      }
      var owned := CheckOwnership(userId, name);
      if owned.Err? {
        return Err(owned.error);
      }
      r := Revoke(userId, owned.value, name, username);
    }

    /**
     * The part of invite after the ownership test: the invitee gets a new pending
     * invite to the file carrying the file key encrypted for them.
     */
    method CreatePendingInvite(fileId: int, name: string, username: string, key: Bytes) returns (r: Outcome<Status>)
      requires Valid() && fileId in db.files
      modifies db
      ensures Valid()
      ensures db.files == old(db.files)
      ensures InviteRefusal(old(db.users), old(db.files), old(db.invites), name, fileId, username).Some? ==>
                r == Fail(InviteRefusal(old(db.users), old(db.files), old(db.invites), name, fileId, username).value)
                && unchanged(db)
      ensures InviteRefusal(old(db.users), old(db.files), old(db.invites), name, fileId, username).None? ==>
                var invitee := UserNamed(old(db.users), username).value;
                var id := old(db.nextInviteId);
                && r == Pass && id !in old(db.invites)
                && db.invites == old(db.invites)[id := Invite(id, invitee, fileId, key)]
                && db.users == old(db.users)[invitee := old(db.users)[invitee].AddInvite(id)]
    {
      var invited := userService.GetUserByUsername(username);
      if invited.Err? {
        return Fail(Uncaught);
      }
      var access := fileService.GetFileByUser(name, invited.value.id);
      if access.Err? {
        return Fail(Uncaught);
      }
      if access.value.Some? {
        return Fail(Status(InvalidArgument, "User can already edit the file."));
      }
      var pending := FindInviteTo(invited.value.pendingInvites, db.invites, fileId);
      if pending {
        return Fail(Status(InvalidArgument, "User has already been invited to edit that file."));
      }
      var created := inviteService.CreateInvite(invited.value.id, fileId, key);
      r := Pass;
    }

    /** invite: the owner of the file called `name` invites another user to edit it. */
    method InviteUser(userId: int, name: string, username: string, key: Bytes, backup: Backup) returns (r: Outcome<Status>)
      requires Valid()
      modifies this`connected, db
      ensures Valid()
      ensures connected == (old(connected) || (userId != -1 && primary && backup.reachable))
      ensures userId == -1 ==>
                r == Fail(Status(Unauthenticated, "Invite endpoint is for authenticated users only."))
      ensures userId != -1 && old(Rejects(backup)) ==> r == Fail(backup.answer.error)
      ensures !old(Proceeds(userId, backup)) ==> unchanged(db)
      ensures old(Proceeds(userId, backup)) ==>
                match OwnedFile(old(db.files), name, userId)
                case Err(refusal) => r == Fail(refusal) && unchanged(db)
                case Ok(fileId) =>
                  var refusal := InviteRefusal(old(db.users), old(db.files), old(db.invites), name, fileId, username);
                  && db.files == old(db.files)
                  && (refusal.Some? ==> r == Fail(refusal.value) && unchanged(db))
                  && (refusal.None? ==>
                        var invitee := UserNamed(old(db.users), username).value;
                        var id := old(db.nextInviteId);
                        && r == Pass && id !in old(db.invites)
                        && db.invites == old(db.invites)[id := Invite(id, invitee, fileId, key)]
                        && db.users == old(db.users)[invitee := old(db.users)[invitee].AddInvite(id)])
    {
      if userId == -1 {
        return Fail(Status(Unauthenticated, "Invite endpoint is for authenticated users only."));
      }
      var failure := Forward(backup);
      if failure.Some? {
        return Fail(failure.value);
      }
      var owned := CheckOwnership(userId, name);
      if owned.Err? {
        return Fail(owned.error);
      }
      r := CreatePendingInvite(owned.value, name, username, key);
    }

    /**
     * accept: the file key of the caller's first pending invite to a file called
     * `name`. Accepting changes nothing on the server: the invite stays pending and
     * the caller is not added as a collaborator.
     */
    method Accept(userId: int, name: string, backup: Backup) returns (r: Result<Bytes, Status>)
      requires Valid()
      modifies this`connected
      ensures connected == (old(connected) || (userId != -1 && primary && backup.reachable))
      ensures userId == -1 ==>
                r == Err(Status(Unauthenticated, "Accept endpoint is for authenticated users only."))
      ensures userId != -1 && old(Rejects(backup)) ==> r == Err(backup.answer.error)
      ensures old(Proceeds(userId, backup)) && userId !in db.users ==> r == Err(Uncaught)
      ensures old(Proceeds(userId, backup)) && userId in db.users ==>
                match FirstInviteFor(db.users[userId].pendingInvites, db.invites, db.files, name)
                case None => r == Err(NotInvited)
                case Some(id) => r == Ok(db.invites[id].fileKey)
    {
      if userId == -1 {
        return Err(Status(Unauthenticated, "Accept endpoint is for authenticated users only."));
      }
      var failure := Forward(backup);
      if failure.Some? {
        return Err(failure.value);
      }
      var invite := inviteService.GetInviteByUser(name, userId);
      if invite.Err? {
        return Err(Uncaught);
      }
      if invite.value.None? {
        return Err(NotInvited);
      }
      r := Ok(invite.value.value.fileKey);
    }

    /** register: open to everyone; a taken username is refused with the service's message. */
    method Register(username: string, certificate: Bytes, backup: Backup) returns (r: Outcome<Status>)
      requires Valid()
      modifies this`connected, db
      ensures Valid()
      ensures connected == (old(connected) || (primary && backup.reachable))
      ensures old(Rejects(backup)) ==> r == Fail(backup.answer.error) && unchanged(db)
      ensures !old(Rejects(backup)) && UsersNamed(old(db.users), username) != {} ==>
                r == Fail(Status(InvalidArgument, InUseMessage(username))) && unchanged(db)
      ensures !old(Rejects(backup)) && UsersNamed(old(db.users), username) == {} ==>
                var id := old(db.nextUserId);
                && r == Pass && id !in old(db.users)
                && db.users == old(db.users)[id := User(id, username, [], [], certificate)]
                && db.files == old(db.files) && db.invites == old(db.invites)
    {
      var failure := Forward(backup);
      if failure.Some? {
        return Fail(failure.value);
      }
      var user := authenticationService.RegisterUser(username, certificate);
      if user.Err? {
        return Fail(Status(InvalidArgument, user.error.message));
      }
      r := Pass;
    }

    /** getNumber: no authentication and no forwarding; an unknown user is an uncaught exception. */
    method GetNumber(username: string, random: int) returns (r: Result<string, Status>)
      requires Valid()
      requires -0x8000_0000 <= random < 0x8000_0000
      modifies authenticationService
      ensures r.Err? <==> UsersNamed(db.users, username) == {}
      ensures r.Err? ==> r.error == Uncaught && authenticationService.authCache == old(authenticationService.authCache)
      ensures r.Ok? ==> && r.value == IntToString(random)
                        && UserNamed(db.users, username).Some?
                        && authenticationService.authCache ==
                             old(authenticationService.authCache)[UserNamed(db.users, username).value := r.value]
    {
      var number := authenticationService.GetNumber(username, random);
      if number.Err? {
        return Err(Uncaught);
      }
      r := Ok(number.value);
    }

    /**
     * getToken: the token of a correct answer, together with the names of the files
     * the user has pending invites to. The service's own refusals become
     * INVALID_ARGUMENT with their message; anything else escapes.
     */
    method GetToken(username: string, encryptedNumber: Bytes,
                    decrypt: (Bytes, Bytes) -> Option<string>, mint: int -> string)
      returns (r: Result<TokenResponse, Status>)
      requires Valid()
      modifies authenticationService
      ensures UserNamed(db.users, username).None? ==> r == Err(Uncaught)
      ensures UserNamed(db.users, username).Some? ==>
                var id := UserNamed(db.users, username).value;
                var stored := old(authenticationService.authCache);
                var answer := decrypt(db.users[id].certificate, encryptedNumber);
                && (id !in stored ==> r == Err(Status(InvalidArgument, NumberNotFound)))
                && (id in stored && answer.None? ==> r == Err(Status(InvalidArgument, UnknownError)))
                && (id in stored && answer.Some? && answer.value != stored[id] ==>
                      r == Err(Status(InvalidArgument, NumbersDoNotMatch)))
                && (r.Ok? <==> id in stored && answer == Some(stored[id]))
                && (r.Ok? ==> r.value == TokenResponse(mint(id), InviteFileNames(db.users[id].pendingInvites, db.invites, db.files)))
      ensures r.Ok? ==> authenticationService.authCache == old(authenticationService.authCache) - {UserNamed(db.users, username).value}
      ensures r.Err? ==> authenticationService.authCache == old(authenticationService.authCache)
    {
      var token := authenticationService.GetToken(username, encryptedNumber, decrypt, mint);
      if token.Err? {
        return Err(TokenStatus(token.error));
      }
      var user := userService.GetUserByUsername(username);
      var names := ListInvites(user.value.pendingInvites, db.invites, db.files);
      r := Ok(TokenResponse(token.value, names));
    }

    /**
     * An owner who invites a user to a file, followed by that user accepting an
     * invite to a file of that name, hands the user exactly the key the owner sent,
     * provided the user held no other pending invite to a file of that name. On a
     * primary this needs a backup that does not answer with an error.
     */
    method InviteThenAccept(ownerId: int, name: string, username: string, inviteeId: int, key: Bytes, backup: Backup)
      returns (invited: Outcome<Status>, accepted: Result<Bytes, Status>)
      requires Valid() && !Rejects(backup) && ownerId != -1
      requires OwnedFile(db.files, name, ownerId).Ok?
      requires InviteRefusal(db.users, db.files, db.invites, name, OwnedFile(db.files, name, ownerId).value, username).None?
      requires UserNamed(db.users, username) == Some(inviteeId)
      requires FirstInviteFor(db.users[inviteeId].pendingInvites, db.invites, db.files, name).None?
      modifies this`connected, db
      ensures invited == Pass
      ensures accepted == Ok(key)
    {
      ghost var fileId := OwnedFile(db.files, name, ownerId).value;
      ghost var id := db.nextInviteId;
      ghost var pending := db.users[inviteeId].pendingInvites;
      ghost var invites := db.invites;
      invited := InviteUser(ownerId, name, username, key, backup);
      FirstInviteForAppend(pending, invites, db.files, name, id, Invite(id, inviteeId, fileId, key));
      accepted := Accept(inviteeId, name, backup);
    }
  }
}
