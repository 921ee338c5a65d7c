/**
 * The transactional services FileService, InviteService and UserService. Each holds the
 * shared Database; a method that throws leaves the tables as they were (the transaction
 * rolls back). Members marked "not in the shown FileService" are called by the request
 * handlers but their bodies are not part of this model: they get plain lookup semantics.
 */
module Service {
  import opened Wrappers
  import opened Domain
  import opened Repository

  /** The user rows of `ids`, in order; an id without a row is dropped, as an inner join does. */
  function Rows(users: map<int, User>, ids: seq<int>): (r: seq<User>)
    ensures |r| <= |ids|
    ensures forall k :: 0 <= k < |r| ==> r[k].id in ids && (r[k].id in users ==> users[r[k].id] == r[k])
  {
    if ids == [] then []
    else (if ids[0] in users && users[ids[0]].id == ids[0] then [users[ids[0]]] else []) + Rows(users, ids[1..])
  }

  /** When every id has its row, the join is exactly those rows in list order. */
  lemma {:induction false} RowsComplete(users: map<int, User>, ids: seq<int>)
    requires forall id :: id in users ==> users[id].id == id
    requires forall k :: 0 <= k < |ids| ==> ids[k] in users
    ensures |Rows(users, ids)| == |ids|
    ensures forall k :: 0 <= k < |ids| ==> Rows(users, ids)[k] == users[ids[k]]
  {
    if ids != [] {
      RowsComplete(users, ids[1..]);
    }
  }

  /**
   * User.getInviteByFileName: the first pending invite whose file is called `name`.
   * A pending id whose invite or file row is gone does not match.
   */
  function FirstInviteFor(pending: seq<int>, invites: map<int, Invite>, files: map<int, File>, name: string): (r: Option<int>)
    ensures r.Some? ==> r.value in pending && InvitesTo(invites, files, r.value, name)
    ensures r.None? <==> forall k :: 0 <= k < |pending| ==> !InvitesTo(invites, files, pending[k], name)
  {
    if pending == [] then None
    else if InvitesTo(invites, files, pending[0], name) then Some(pending[0])
    else
      var rest := FirstInviteFor(pending[1..], invites, files, name);
      assert forall k :: 1 <= k < |pending| ==> pending[k] == pending[1..][k - 1];
      rest
  }

  /** The invite row `inviteId` exists and its file row is called `name`. */
  predicate InvitesTo(invites: map<int, Invite>, files: map<int, File>, inviteId: int, name: string)
  {
    inviteId in invites && invites[inviteId].file in files && files[invites[inviteId].file].name == name
  }

  /** Earlier pending invites never match: FirstInviteFor returns the first match. */
  lemma {:induction false} FirstInviteForIsFirst(pending: seq<int>, invites: map<int, Invite>, files: map<int, File>, name: string, k: nat)
    requires k < |pending| && FirstInviteFor(pending, invites, files, name) == Some(pending[k])
    requires forall j :: 0 <= j < k ==> pending[j] != pending[k]
    ensures forall j :: 0 <= j < k ==> !InvitesTo(invites, files, pending[j], name)
  {
    if k > 0 && !InvitesTo(invites, files, pending[0], name) {
      FirstInviteForIsFirst(pending[1..], invites, files, name, k - 1);
      forall j | 0 <= j < k ensures !InvitesTo(invites, files, pending[j], name) {
        if j > 0 {
          assert pending[j] == pending[1..][j - 1];
        }
      }
    }
  }

  class FileService {
    const db: Database

    constructor (db: Database)
      ensures this.db == db
    {
      this.db := db;
    }

    /**
     * createFile: the owner must exist; the new row has version 1, the owner as last
     * modifier and sole collaborator, and is appended to the owner's files.
     */
    method CreateFile(ownerId: int, fileName: string, path: string, signature: Bytes) returns (r: Result<int, Fault>)
      requires db.Valid()
      modifies db
      ensures db.Valid()
      ensures db.invites == old(db.invites)
      ensures ownerId !in old(db.users) ==> r == Err(NoSuchElement)
      ensures ownerId in old(db.users) && FilesAtPath(old(db.files), path) != {} ==> r == Err(ConstraintViolation)
      ensures ownerId in old(db.users) && FilesAtPath(old(db.files), path) == {} ==> r.Ok?
      ensures r.Err? ==> unchanged(db)
      ensures r.Ok? ==> && ownerId in old(db.users) && r.value == old(db.nextFileId) && r.value !in old(db.files)
                        && db.files == old(db.files)[r.value := File(r.value, 1, ownerId, fileName, path, [ownerId], ownerId, signature)]
                        && db.users == old(db.users)[ownerId := old(db.users)[ownerId].AddFile(r.value)]
    {
      if ownerId !in db.users {
        return Err(NoSuchElement);
      }
      var file := NewFile(1, ownerId, fileName, path).AddCollaborator(ownerId).SetLastModifier(ownerId);
      file := file.(owner := ownerId, signature := signature);
      assert file == File(0, 1, ownerId, fileName, path, [ownerId], ownerId, signature);
      r := db.InsertFile(file);
      if r.Ok? {
        db.users := db.users[ownerId := db.users[ownerId].AddFile(r.value)];
      }
    }

    /** getFile: the row called `name`, None when there is none. */
    method GetFile(name: string) returns (r: Result<Option<File>, Fault>)
      requires db.Valid()
      ensures r == Ok(None) <==> FilesNamed(db.files, name) == {}
      ensures r.Ok? && r.value.Some? ==> r.value.value in db.files.Values && r.value.value.name == name
      ensures r.Err? <==> |FilesNamed(db.files, name)| >= 2
      ensures r.Err? ==> r.error == NonUniqueResult
    {
      var found := SingleResult(FilesNamed(db.files, name));
      match found
      case Absent => r := Ok(None);
      case Unique(id) =>
        assert id in FilesNamed(db.files, name);
        r := Ok(Some(db.files[id]));
      case Ambiguous => r := Err(NonUniqueResult);
    }

    /** updateVersion: the version of the file called `name` grows by exactly 1. */
    method UpdateVersion(name: string) returns (r: Outcome<Fault>)
      requires db.Valid()
      modifies db
      ensures db.Valid()
      ensures db.users == old(db.users) && db.invites == old(db.invites)
      ensures r.Fail? <==> |FilesNamed(old(db.files), name)| != 1
      ensures r.Fail? ==> unchanged(db) && r.error == if FilesNamed(old(db.files), name) == {} then NullPointer else NonUniqueResult
      ensures r.Pass? ==> match Classify(FilesNamed(old(db.files), name))
                          case Unique(id) => id in old(db.files) && db.files == old(db.files)[id := old(db.files)[id].IncrementVersion()]
                          case _ => false
      ensures db.nextUserId == old(db.nextUserId) && db.nextFileId == old(db.nextFileId) && db.nextInviteId == old(db.nextInviteId)
    {
      var found := SingleResult(FilesNamed(db.files, name));
      match found
      case Absent => r := Fail(NullPointer);
      case Ambiguous => r := Fail(NonUniqueResult);
      case Unique(id) =>
        assert id in FilesNamed(db.files, name);
        db.files := db.files[id := db.files[id].IncrementVersion()];
        r := Pass;
    }

    /** deleteFile: the row with that id is gone, every other row is kept. */
    method DeleteFile(fileId: int)
      requires db.Valid()
      modifies db
      ensures db.Valid()
      ensures db.files == old(db.files) - {fileId}
      ensures db.users == old(db.users) && db.invites == old(db.invites)
    {
      db.files := db.files - {fileId};
    }

    /** addCollaborator: both rows must exist; the link is made on both sides. */
    method AddCollaborator(fileId: int, userId: int) returns (r: Outcome<Fault>)
      requires db.Valid()
      modifies db
      ensures db.Valid()
      ensures db.invites == old(db.invites)
      ensures r.Fail? <==> fileId !in old(db.files) || userId !in old(db.users)
      ensures r.Fail? ==> r.error == NoSuchElement && unchanged(db)
      ensures r.Pass? ==> && db.files == old(db.files)[fileId := old(db.files)[fileId].AddCollaborator(userId)]
                          && db.users == old(db.users)[userId := old(db.users)[userId].AddFile(fileId)]
    {
      if fileId !in db.files || userId !in db.users {
        return Fail(NoSuchElement);
      }
      db.files := db.files[fileId := db.files[fileId].AddCollaborator(userId)];
      db.users := db.users[userId := db.users[userId].AddFile(fileId)];
      r := Pass;
    }

    /** getFileByPath (not in the shown FileService): the row at `path`, if any. */
    method GetFileByPath(path: string) returns (r: Option<File>)
      requires db.Valid()
      ensures r.None? <==> FilesAtPath(db.files, path) == {}
      ensures r.Some? ==> r.value.id in db.files && db.files[r.value.id] == r.value && r.value.path == path
    {
      UniquePathLookup(db.files, path);
      var found := SingleResult(FilesAtPath(db.files, path));
      if found.Unique? {
        assert found.id in FilesAtPath(db.files, path);
        r := Some(db.files[found.id]);
      } else {
        r := None;
      }
    }

    /**
     * getFileByUser (not in the shown FileService): the file called `name` on which
     * `userId` collaborates; a name shared by several such files is a non-unique result.
     */
    method GetFileByUser(name: string, userId: int) returns (r: Result<Option<File>, Fault>)
      requires db.Valid()
      ensures r == Ok(None) <==> FilesOfUser(db.files, name, userId) == {}
      ensures r.Ok? && r.value.Some? ==>
                FilesOfUser(db.files, name, userId) == {r.value.value.id} && db.files[r.value.value.id] == r.value.value
      ensures r.Err? <==> |FilesOfUser(db.files, name, userId)| >= 2
      ensures r.Err? ==> r.error == NonUniqueResult
    {
      var found := SingleResult(FilesOfUser(db.files, name, userId));
      match found
      case Absent => r := Ok(None);
      case Unique(id) =>
        assert id in FilesOfUser(db.files, name, userId);
        r := Ok(Some(db.files[id]));
      case Ambiguous => r := Err(NonUniqueResult);
    }

    /**
     * updateFile (not in the shown FileService): the row at `path` gets one more version,
     * the new signature and the caller as last modifier.
     */
    method UpdateFile(path: string, signature: Bytes, userId: int) returns (r: Outcome<Fault>)
      requires db.Valid()
      modifies db
      ensures db.Valid()
      ensures db.users == old(db.users) && db.invites == old(db.invites)
      ensures r.Fail? <==> FilesAtPath(old(db.files), path) == {}
      ensures r.Fail? ==> r.error == NullPointer && unchanged(db)
      ensures r.Pass? ==> FileAt(old(db.files), path).Some? &&
                            var id := FileAt(old(db.files), path).value;
                            db.files == old(db.files)[id := old(db.files)[id].IncrementVersion().SetLastModifier(userId).(signature := signature)]
    {
      var file := GetFileByPath(path);
      if file.None? {
        return Fail(NullPointer);
      }
      var id := file.value.id;
      assert id in FilesAtPath(db.files, path);
      UniquePathLookup(db.files, path);
      db.files := db.files[id := db.files[id].IncrementVersion().SetLastModifier(userId).(signature := signature)];
      r := Pass;
    }

    /** getFileCollaboratos (not in the shown FileService): the collaborators' user rows, in list order. */
    method GetFileCollaborators(fileId: int) returns (r: Result<seq<User>, Fault>)
      requires db.Valid()
      ensures r.Err? <==> fileId !in db.files
      ensures r.Err? ==> r.error == NoSuchElement
      ensures r.Ok? ==> r.value == Rows(db.users, db.files[fileId].collaborators)
    {
      if fileId !in db.files {
        return Err(NoSuchElement);
      }
      r := Ok(Rows(db.users, db.files[fileId].collaborators));
    }

    /** clearCollaborators (not in the shown FileService): the file's collaborator list becomes empty. */
    method ClearCollaborators(fileId: int) returns (r: Outcome<Fault>)
      requires db.Valid()
      modifies db
      ensures db.Valid()
      ensures db.users == old(db.users) && db.invites == old(db.invites)
      ensures r.Fail? <==> fileId !in old(db.files)
      ensures r.Fail? ==> r.error == NoSuchElement && unchanged(db)
      ensures r.Pass? ==> db.files == old(db.files)[fileId := old(db.files)[fileId].(collaborators := [])]
    {
      if fileId !in db.files {
        return Fail(NoSuchElement);
      }
      db.files := db.files[fileId := db.files[fileId].(collaborators := [])];
      r := Pass;
    }
  }

  class InviteService {
    const db: Database

    constructor (db: Database)
      ensures this.db == db
    {
      this.db := db;
    }

    /**
     * createInvite: both rows must exist; stores an invite holding exactly the given
     * user, file and key, appended to the user's pending invites.
     */
    method CreateInvite(userId: int, fileId: int, fileKey: Bytes) returns (r: Result<int, Fault>)
      requires db.Valid()
      modifies db
      ensures db.Valid()
      ensures db.files == old(db.files)
      ensures r.Err? <==> userId !in old(db.users) || fileId !in old(db.files)
      ensures r.Err? ==> r.error == NoSuchElement && unchanged(db)
      ensures r.Ok? ==> && r.value == old(db.nextInviteId) && r.value !in old(db.invites)
                        && db.invites == old(db.invites)[r.value := Invite(r.value, userId, fileId, fileKey)]
                        && db.users == old(db.users)[userId := old(db.users)[userId].AddInvite(r.value)]
    {
      if userId !in db.users || fileId !in db.files {
        return Err(NoSuchElement);
      }
      var id := db.InsertInvite(NewInvite(userId, fileId, fileKey));
      db.users := db.users[userId := db.users[userId].AddInvite(id)];
      r := Ok(id);
    }

    /** getInvite: fails when the id is absent, otherwise the stored row. */
    method GetInvite(inviteId: int) returns (r: Result<Invite, Fault>)
      requires db.Valid()
      ensures r.Err? <==> inviteId !in db.invites
      ensures r.Err? ==> r.error == NoSuchElement
      ensures r.Ok? ==> r.value == db.invites[inviteId] && r.value.id == inviteId
    {
      if inviteId !in db.invites {
        return Err(NoSuchElement);
      }
      r := Ok(db.invites[inviteId]);
    }

    /** getInviteByUser: the user must exist; then their first pending invite to a file called `fileName`. */
    method GetInviteByUser(fileName: string, userId: int) returns (r: Result<Option<Invite>, Fault>)
      requires db.Valid()
      ensures r.Err? <==> userId !in db.users
      ensures r.Err? ==> r.error == NoSuchElement
      ensures r.Ok? ==> match FirstInviteFor(db.users[userId].pendingInvites, db.invites, db.files, fileName)
                        case None => r.value.None?
                        case Some(iid) => r.value == Some(db.invites[iid])
    {
      if userId !in db.users {
        return Err(NoSuchElement);
      }
      var found := FirstInviteFor(db.users[userId].pendingInvites, db.invites, db.files, fileName);
      if found.Some? {
        r := Ok(Some(db.invites[found.value]));
      } else {
        r := Ok(None);
      }
    }

    /** removeInvite: only the row with that id is deleted. */
    method RemoveInvite(inviteId: int)
      requires db.Valid()
      modifies db
      ensures db.Valid()
      ensures db.invites == old(db.invites) - {inviteId}
      ensures db.users == old(db.users) && db.files == old(db.files)
    {
      db.invites := db.invites - {inviteId};
    }
  }

  class UserService {
    const db: Database

    constructor (db: Database)
      ensures this.db == db
    {
      this.db := db;
    }

    /**
     * createUser: saves exactly the given username and certificate. The service itself
     * does not check the name; the unique column rejects a taken one.
     */
    method CreateUser(username: string, certificate: Bytes) returns (r: Result<int, Fault>)
      requires db.Valid()
      modifies db
      ensures db.Valid()
      ensures db.files == old(db.files) && db.invites == old(db.invites)
      ensures r.Err? <==> UsersNamed(old(db.users), username) != {}
      ensures r.Err? ==> r.error == ConstraintViolation && unchanged(db)
      ensures r.Ok? ==> && r.value == old(db.nextUserId) && r.value !in old(db.users)
                        && db.users == old(db.users)[r.value := User(r.value, username, [], [], certificate)]
    {
      r := db.InsertUser(NewUser(username, certificate));
    }

    /** getUserById: fails when no row has that id. */
    method GetUserById(id: int) returns (r: Result<User, Fault>)
      requires db.Valid()
      ensures r.Err? <==> id !in db.users
      ensures r.Err? ==> r.error == NoSuchElement
      ensures r.Ok? ==> r.value == db.users[id] && r.value.id == id
    {
      if id !in db.users {
        return Err(NoSuchElement);
      }
      r := Ok(db.users[id]);
    }

    /** getUserByUsername: fails when no row has that username, otherwise the one row that has it. */
    method GetUserByUsername(username: string) returns (r: Result<User, Fault>)
      requires db.Valid()
      ensures r.Err? <==> UsersNamed(db.users, username) == {}
      ensures r.Err? ==> r.error == NoSuchElement
      ensures r.Ok? ==> UsersNamed(db.users, username) == {r.value.id} && db.users[r.value.id] == r.value
                        && r.value.username == username
    {
      UniqueUsernameLookup(db.users, username);
      var found := SingleResult(UsersNamed(db.users, username));
      if found.Unique? {
        assert found.id in UsersNamed(db.users, username);
        r := Ok(db.users[found.id]);
      } else {
        r := Err(NoSuchElement);
      }
    }

    /** updateUserUsername: only that user's username changes; a name held by another user is rejected. */
    method UpdateUserUsername(id: int, username: string) returns (r: Result<User, Fault>)
      requires db.Valid()
      modifies db
      ensures db.Valid()
      ensures db.files == old(db.files) && db.invites == old(db.invites)
      ensures id !in old(db.users) ==> r == Err(NoSuchElement)
      ensures id in old(db.users) ==> (r.Err? <==> UsersNamed(old(db.users), username) - {id} != {})
      ensures r.Err? ==> unchanged(db)
      ensures r.Ok? ==> id in old(db.users) && r.value == old(db.users)[id].SetUsername(username)
                        && db.users == old(db.users)[id := r.value]
    {
      if id !in db.users {
        return Err(NoSuchElement);
      }
      if UsersNamed(db.users, username) - {id} != {} {
        return Err(ConstraintViolation);
      }
      forall k | k in db.users && k != id ensures db.users[k].username != username {
        assert k !in UsersNamed(db.users, username) - {id};
      }
      var u := db.users[id].SetUsername(username);
      db.users := db.users[id := u];
      r := Ok(u);
    }

    /** updateUserCertificate: only that user's certificate changes. */
    method UpdateUserCertificate(id: int, certificate: Bytes) returns (r: Result<User, Fault>)
      requires db.Valid()
      modifies db
      ensures db.Valid()
      ensures db.files == old(db.files) && db.invites == old(db.invites)
      ensures r.Err? <==> id !in old(db.users)
      ensures r.Err? ==> r.error == NoSuchElement && unchanged(db)
      ensures r.Ok? ==> r.value == old(db.users)[id].SetCertificate(certificate) && db.users == old(db.users)[id := r.value]
    {
      if id !in db.users {
        return Err(NoSuchElement);
      }
      var u := db.users[id].SetCertificate(certificate);
      db.users := db.users[id := u];
      r := Ok(u);
    }

    /** removeUser: the row with that id is deleted. */
    method RemoveUser(id: int)
      requires db.Valid()
      modifies db
      ensures db.Valid()
      ensures db.users == old(db.users) - {id}
      ensures db.files == old(db.files) && db.invites == old(db.invites)
    {
      db.users := db.users - {id};
    }
  }
}
