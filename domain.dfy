/**
 * The three persisted entities: User, File and Invite.
 *
 * The Java entities hold object references to one another; here a reference is the
 * integer id of a row in the corresponding table (see module Repository), and a
 * setter on a managed entity yields the updated row, which the services write back.
 */
module Domain {

  type Bytes = seq<bv8>

  /** An identity. `pendingInvites` holds invite ids and `files` holds file ids. */
  datatype User = User(id: int, username: string, pendingInvites: seq<int>, files: seq<int>, certificate: Bytes)
  {
    /** User.addInvite: append one invite at the end, nothing else changes. */
    function AddInvite(inviteId: int): (u: User)
      ensures u.pendingInvites == pendingInvites + [inviteId]
      ensures u.id == id && u.username == username && u.files == files && u.certificate == certificate
    {
      this.(pendingInvites := pendingInvites + [inviteId])
    }

    /** User.addFile: append one file at the end, nothing else changes. */
    function AddFile(fileId: int): (u: User)
      ensures u.files == files + [fileId]
      ensures u.id == id && u.username == username && u.pendingInvites == pendingInvites && u.certificate == certificate
    {
      this.(files := files + [fileId])
    }

    function SetUsername(name: string): (u: User)
      ensures u.username == name
      ensures u.id == id && u.pendingInvites == pendingInvites && u.files == files && u.certificate == certificate
    {
      this.(username := name)
    }

    function SetCertificate(cert: Bytes): (u: User)
      ensures u.certificate == cert
      ensures u.id == id && u.username == username && u.pendingInvites == pendingInvites && u.files == files
    {
      this.(certificate := cert)
    }
  }

  /** The User(username, certificate) constructor: the id is assigned when the row is saved. */
  function NewUser(username: string, certificate: Bytes): (u: User)
    ensures u.username == username && u.certificate == certificate
    ensures u.pendingInvites == [] && u.files == []
  {
    User(0, username, [], [], certificate)
  }

  /**
   * A stored file. `lastModifier`, `owner` and the entries of `collaborators` are user ids.
   * `owner` and `signature` are read by the request handlers but are not declared in
   * File.java; the record carries them so that those reads have something to read.
   */
  datatype File = File(id: int, version: int, lastModifier: int, name: string, path: string,
                       collaborators: seq<int>, owner: int, signature: Bytes)
  {
    /** File.incrementVersion. */
    function IncrementVersion(): (f: File)
      ensures f.version == version + 1
      ensures f == this.(version := f.version)
    {
      this.(version := version + 1)
    }

    function SetVersion(v: int): (f: File)
      ensures f.version == v
      ensures f == this.(version := v)
    {
      this.(version := v)
    }

    function SetLastModifier(userId: int): (f: File)
      ensures f.lastModifier == userId
      ensures f == this.(lastModifier := userId)
    {
      this.(lastModifier := userId)
    }

    /** File.addCollaborator: append at the end, duplicates are kept. */
    function AddCollaborator(userId: int): (f: File)
      ensures f.collaborators == collaborators + [userId]
      ensures multiset(f.collaborators)[userId] == multiset(collaborators)[userId] + 1
      ensures f == this.(collaborators := f.collaborators)
    {
      this.(collaborators := collaborators + [userId])
    }

    /** File.removeCollaborator(int): keep every collaborator whose id differs. */
    function RemoveCollaboratorId(userId: int): (f: File)
      ensures userId !in f.collaborators
      ensures f.collaborators == Without(collaborators, userId)
      ensures f == this.(collaborators := f.collaborators)
    {
      this.(collaborators := Without(collaborators, userId))
    }

    /** File.removeCollaborator(User): List.remove drops the first equal element only. */
    function RemoveCollaborator(userId: int): (f: File)
      ensures multiset(f.collaborators) == multiset(collaborators) - multiset{userId}
      ensures f.collaborators == RemoveFirst(collaborators, userId)
      ensures f == this.(collaborators := f.collaborators)
    {
      this.(collaborators := RemoveFirst(collaborators, userId))
    }
  }

  /** The File(version, lastModifier, name, path) constructor: no collaborators yet. */
  function NewFile(version: int, lastModifier: int, name: string, path: string): (f: File)
    ensures f.version == version && f.lastModifier == lastModifier && f.name == name && f.path == path
    ensures f.collaborators == []
  {
    File(0, version, lastModifier, name, path, [], 0, [])
  }

  /** An invitation for `user` to the file `file`, carrying the file key wrapped for that user. */
  datatype Invite = Invite(id: int, user: int, file: int, fileKey: Bytes)
  {
    function SetUser(userId: int): (i: Invite)
      ensures i.user == userId && i.id == id && i.file == file && i.fileKey == fileKey
    {
      this.(user := userId)
    }

    function SetFile(fileId: int): (i: Invite)
      ensures i.file == fileId && i.id == id && i.user == user && i.fileKey == fileKey
    {
      this.(file := fileId)
    }

    function SetFileKey(key: Bytes): (i: Invite)
      ensures i.fileKey == key && i.id == id && i.user == user && i.file == file
    {
      this.(fileKey := key)
    }
  }

  /** The Invite(user, file, fileKey) constructor. */
  function NewInvite(userId: int, fileId: int, key: Bytes): (i: Invite)
    ensures i.user == userId && i.file == fileId && i.fileKey == key
  {
    Invite(0, userId, fileId, key)
  }

  /** One call of an Invite setter. */
  datatype InviteUpdate = SetUserTo(userId: int) | SetFileTo(fileId: int) | SetFileKeyTo(key: Bytes)

  function ApplyUpdates(i: Invite, updates: seq<InviteUpdate>): Invite
    decreases |updates|
  {
    if updates == [] then i
    else
      var u := updates[0];
      var next := match u
        case SetUserTo(userId) => i.SetUser(userId)
        case SetFileTo(fileId) => i.SetFile(fileId)
        case SetFileKeyTo(key) => i.SetFileKey(key);
      ApplyUpdates(next, updates[1..])
  }

  /** The key most recently stored by `updates`, or `key` when none of them stores one. */
  function LatestKey(key: Bytes, updates: seq<InviteUpdate>): Bytes
    decreases |updates|
  {
    if updates == [] then key
    else LatestKey(if updates[0].SetFileKeyTo? then updates[0].key else key, updates[1..])
  }

  /**
   * getFileKey returns exactly the bytes most recently stored, whatever setUser and
   * setFile calls came in between, and the id never changes. Only setUser changes
   * the user and only setFile changes the file.
   */
  lemma {:induction false} FileKeyIsLatestStored(i: Invite, updates: seq<InviteUpdate>)
    ensures ApplyUpdates(i, updates).fileKey == LatestKey(i.fileKey, updates)
    ensures ApplyUpdates(i, updates).id == i.id
    ensures (forall k :: 0 <= k < |updates| ==> !updates[k].SetUserTo?) ==> ApplyUpdates(i, updates).user == i.user
    ensures (forall k :: 0 <= k < |updates| ==> !updates[k].SetFileTo?) ==> ApplyUpdates(i, updates).file == i.file
    decreases |updates|
  {
    if updates != [] {
      var u := updates[0];
      var next := match u
        case SetUserTo(userId) => i.SetUser(userId)
        case SetFileTo(fileId) => i.SetFile(fileId)
        case SetFileKeyTo(key) => i.SetFileKey(key);
      FileKeyIsLatestStored(next, updates[1..]);
    }
  }

  /** The stream filter of File.removeCollaborator(int): drop every occurrence of `id`. */
  function Without(s: seq<int>, id: int): (r: seq<int>)
    ensures id !in r
    ensures forall x :: x != id ==> multiset(r)[x] == multiset(s)[x]
    ensures |r| <= |s|
  {
    if s == [] then []
    else
      assert s == [s[0]] + s[1..];
      (if s[0] == id then [] else [s[0]]) + Without(s[1..], id)
  }

  /** Filtering commutes with concatenation, so the survivors keep their relative order. */
  lemma {:induction false} WithoutConcat(a: seq<int>, b: seq<int>, id: int)
    ensures Without(a + b, id) == Without(a, id) + Without(b, id)
  {
    if a != [] {
      assert (a + b)[1..] == a[1..] + b;
      WithoutConcat(a[1..], b, id);
    } else {
      assert a + b == b;
    }
  }

  /** Removing an id that is absent changes nothing. */
  lemma {:induction false} WithoutAbsent(s: seq<int>, id: int)
    requires id !in s
    ensures Without(s, id) == s
  {
    if s != [] {
      WithoutAbsent(s[1..], id);
    }
  }

  /** List.remove(Object): the first element equal to `x` is dropped, if there is one. */
  function RemoveFirst(s: seq<int>, x: int): (r: seq<int>)
    ensures x !in s ==> r == s
    ensures multiset(r) == multiset(s) - multiset{x}
  {
    if s == [] then []
    else
      assert s == [s[0]] + s[1..];
      if s[0] == x then s[1..] else [s[0]] + RemoveFirst(s[1..], x)
  }

  /** The position of the first occurrence of `x`. */
  function IndexOf(s: seq<int>, x: int): (k: nat)
    requires x in s
    ensures k < |s| && s[k] == x && x !in s[..k]
  {
    if s[0] == x then 0
    else
      var k := IndexOf(s[1..], x);
      assert s[..k + 1] == [s[0]] + s[1..][..k];
      k + 1
  }

  /** Sequence helper: cutting position k out of a tail is cutting position k + 1 out of the whole sequence. */
  lemma CutUnderCons(head: int, t: seq<int>, k: nat)
    requires k < |t|
    ensures [head] + (t[..k] + t[k + 1..]) == ([head] + t)[..k + 1] + ([head] + t)[k + 2..]
  {
    var s := [head] + t;
    assert s[..k + 1] == [head] + t[..k];
    assert s[k + 2..] == t[k + 1..];
  }

  /** removeCollaborator(User) cuts out exactly the first occurrence and keeps the rest in order. */
  lemma {:induction false} RemoveFirstCutsFirstOccurrence(s: seq<int>, x: int)
    requires x in s
    ensures RemoveFirst(s, x) == s[..IndexOf(s, x)] + s[IndexOf(s, x) + 1..]
  {
    if s[0] == x {
      assert s[..0] + s[1..] == s[1..];
    } else {
      var t := s[1..];
      RemoveFirstCutsFirstOccurrence(t, x);
      CutUnderCons(s[0], t, IndexOf(t, x));
      assert [s[0]] + t == s;
    }
  }

  /** After n version increments the version has grown by exactly n. */
  lemma {:induction false} IncrementsAddUp(f: File, n: nat)
    ensures Increments(f, n).version == f.version + n
    ensures Increments(f, n) == f.(version := f.version + n)
    decreases n
  {
    if n > 0 {
      IncrementsAddUp(f.IncrementVersion(), n - 1);
    }
  }

  function Increments(f: File, n: nat): File
    decreases n
  {
    if n == 0 then f else Increments(f.IncrementVersion(), n - 1)
  }
}
