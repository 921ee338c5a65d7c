/**
 * The three JPA repositories (UserRepository, FileRepository, InviteRepository) as
 * finite maps from row id to row, held by one Database object that the services share.
 * Ids are generated on insert, starting at 1; the unique columns `User.username` and
 * `File.path` are enforced: an insert or update that would duplicate one fails.
 */
module Repository {
  import opened Wrappers
  import opened Domain

  /** The persistence-layer exceptions the services let escape. */
  datatype Fault =
    | NoSuchElement        // Optional.orElseThrow on a missing row
    | NullPointer          // a null query result dereferenced
    | ConstraintViolation  // a unique column would be duplicated
    | NonUniqueResult      // a single-result query matched several rows

  /** The outcome of a query its caller expects to match at most one row. */
  datatype Lookup = Absent | Unique(id: int) | Ambiguous

  lemma NonEmptyHasElement(s: set<int>)
    requires s != {}
    ensures exists x :: x in s
  {
    if forall x :: x !in s {
      assert false;
    }
  }

  lemma SingletonIs(s: set<int>, x: int)
    requires |s| == 1 && x in s
    ensures s == {x}
  {
    assert |s - {x}| == 0;
  }

  ghost function Classify(s: set<int>): (r: Lookup)
    ensures r == Absent <==> s == {}
    ensures r.Unique? <==> |s| == 1
    ensures r.Unique? ==> s == {r.id}
  {
    if s == {} then Absent
    else if |s| == 1 then
      NonEmptyHasElement(s);
      var x :| x in s;
      SingletonIs(s, x);
      Unique(x)
    else Ambiguous
  }

  /** Runs a single-result query over the ids that matched. */
  method SingleResult(s: set<int>) returns (r: Lookup)
    ensures r == Classify(s)
  {
    if s == {} {
      return Absent;
    }
    if |s| != 1 {
      return Ambiguous;
    }
    NonEmptyHasElement(s);
    var x :| x in s;
    SingletonIs(s, x);
    r := Unique(x);
  }

  /** UserRepository.findByUsername's rows. */
  function UsersNamed(users: map<int, User>, name: string): set<int>
  {
    set id | id in users && users[id].username == name
  }

  /** The rows whose path is `path` (File.path is a unique column). */
  function FilesAtPath(files: map<int, File>, path: string): set<int>
  {
    set id | id in files && files[id].path == path
  }

  /** FileRepository.findByName's rows. */
  function FilesNamed(files: map<int, File>, name: string): set<int>
  {
    set id | id in files && files[id].name == name
  }

  /** The files called `name` on which `userId` is a collaborator. */
  function FilesOfUser(files: map<int, File>, name: string, userId: int): set<int>
  {
    set id | id in files && files[id].name == name && userId in files[id].collaborators
  }

  ghost predicate UniqueUsernames(users: map<int, User>)
  {
    forall a, b :: a in users && b in users && users[a].username == users[b].username ==> a == b
  }

  ghost predicate UniquePaths(files: map<int, File>)
  {
    forall a, b :: a in files && b in files && files[a].path == files[b].path ==> a == b
  }

  /** A unique column never yields an ambiguous lookup. */
  lemma {:induction false} UniqueUsernameLookup(users: map<int, User>, name: string)
    requires UniqueUsernames(users)
    ensures Classify(UsersNamed(users, name)) != Ambiguous
  {
    var s := UsersNamed(users, name);
    if s != {} {
      NonEmptyHasElement(s);
      var x :| x in s;
      forall y | y in s ensures y == x {
      }
      assert s == {x};
    }
  }

  lemma {:induction false} UniquePathLookup(files: map<int, File>, path: string)
    requires UniquePaths(files)
    ensures Classify(FilesAtPath(files, path)) != Ambiguous
  {
    var s := FilesAtPath(files, path);
    if s != {} {
      NonEmptyHasElement(s);
      var x :| x in s;
      forall y | y in s ensures y == x {
      }
      assert s == {x};
    }
  }

  /** The id of the user called `name`, if there is one. */
  ghost function UserNamed(users: map<int, User>, name: string): (r: Option<int>)
    requires UniqueUsernames(users)
    ensures r.None? <==> UsersNamed(users, name) == {}
    ensures r.Some? ==> UsersNamed(users, name) == {r.value} && r.value in users && users[r.value].username == name
  {
    UniqueUsernameLookup(users, name);
    match Classify(UsersNamed(users, name))
    case Unique(id) =>
      assert id in UsersNamed(users, name);
      Some(id)
    case _ => None
  }

  /** The id of the file stored at `path`, if there is one. */
  ghost function FileAt(files: map<int, File>, path: string): (r: Option<int>)
    requires UniquePaths(files)
    ensures r.None? <==> FilesAtPath(files, path) == {}
    ensures r.Some? ==> FilesAtPath(files, path) == {r.value} && r.value in files && files[r.value].path == path
  {
    UniquePathLookup(files, path);
    match Classify(FilesAtPath(files, path))
    case Unique(id) =>
      assert id in FilesAtPath(files, path);
      Some(id)
    case _ => None
  }

  /**
   * FileRepository.save of a new file as written: File.id carries no generated value
   * and createFile never sets it, so the row is inserted under the id it was built
   * with. A taken id or a taken path violates a constraint.
   */
  function SaveFileAsWritten(files: map<int, File>, f: File): (r: Result<map<int, File>, Fault>)
    ensures r.Err? <==> f.id in files || FilesAtPath(files, f.path) != {}
    ensures r.Err? ==> r.error == ConstraintViolation
    ensures r.Ok? ==> r.value == files[f.id := f]
  {
    if f.id in files || FilesAtPath(files, f.path) != {} then Err(ConstraintViolation) else Ok(files[f.id := f])
  }

  /**
   * Every file built by createFile has id 0, so the second file ever created fails
   * even at a different path.
   */
  lemma SecondNewFileCollides(owner: int, nameA: string, pathA: string, nameB: string, pathB: string)
    requires pathA != pathB
    ensures var first := SaveFileAsWritten(map[], NewFile(1, owner, nameA, pathA));
            && first.Ok?
            && FilesAtPath(first.value, pathB) == {}
            && SaveFileAsWritten(first.value, NewFile(1, owner, nameB, pathB)) == Err(ConstraintViolation)
  {
    var first := map[0 := NewFile(1, owner, nameA, pathA)];
    assert FilesAtPath(map[], pathA) == {};
    assert FilesAtPath(first, pathB) == {};
  }

  class Database {
    var users: map<int, User>
    var files: map<int, File>
    var invites: map<int, Invite>
    var nextUserId: int
    var nextFileId: int
    var nextInviteId: int

    /** Keys are the rows' own ids, below the next id to hand out; unique columns hold. */
    ghost predicate Valid()
      reads this
    {
      && 0 < nextUserId && 0 < nextFileId && 0 < nextInviteId
      && (forall id :: id in users ==> 0 < id < nextUserId && users[id].id == id)
      && (forall id :: id in files ==> 0 < id < nextFileId && files[id].id == id)
      && (forall id :: id in invites ==> 0 < id < nextInviteId && invites[id].id == id)
      && UniqueUsernames(users)
      && UniquePaths(files)
    }

    constructor ()
      ensures Valid()
      ensures users == map[] && files == map[] && invites == map[]
      ensures nextUserId == 1 && nextFileId == 1 && nextInviteId == 1
    {
      users, files, invites := map[], map[], map[];
      nextUserId, nextFileId, nextInviteId := 1, 1, 1;
    }

    /** UserRepository.save of a new row: fails on a duplicate username. */
    method InsertUser(u: User) returns (r: Result<int, Fault>)
      requires Valid()
      modifies this
      ensures Valid()
      ensures files == old(files) && invites == old(invites)
      ensures nextFileId == old(nextFileId) && nextInviteId == old(nextInviteId)
      ensures r.Err? <==> UsersNamed(old(users), u.username) != {}
      ensures r.Err? ==> r.error == ConstraintViolation && unchanged(this)
      ensures r.Ok? ==> r.value == old(nextUserId) && r.value !in old(users)
                        && users == old(users)[r.value := u.(id := r.value)] && nextUserId == old(nextUserId) + 1
    {
      if UsersNamed(users, u.username) != {} {
        return Err(ConstraintViolation);
      }
      forall k | k in users ensures users[k].username != u.username {
        assert k in UsersNamed(users, users[k].username);
      }
      var id := nextUserId;
      users := users[id := u.(id := id)];
      nextUserId := nextUserId + 1;
      r := Ok(id);
    }

    /** FileRepository.save of a new row: fails on a duplicate path. */
    method InsertFile(f: File) returns (r: Result<int, Fault>)
      requires Valid()
      modifies this
      ensures Valid()
      ensures users == old(users) && invites == old(invites)
      ensures nextUserId == old(nextUserId) && nextInviteId == old(nextInviteId)
      ensures r.Err? <==> FilesAtPath(old(files), f.path) != {}
      ensures r.Err? ==> r.error == ConstraintViolation && unchanged(this)
      ensures r.Ok? ==> r.value == old(nextFileId) && r.value !in old(files)
                        && files == old(files)[r.value := f.(id := r.value)] && nextFileId == old(nextFileId) + 1
    {
      if FilesAtPath(files, f.path) != {} {
        return Err(ConstraintViolation);
      }
      forall k | k in files ensures files[k].path != f.path {
        assert k in FilesAtPath(files, files[k].path);
      }
      var id := nextFileId;
      files := files[id := f.(id := id)];
      nextFileId := nextFileId + 1;
      r := Ok(id);
    }

    /** InviteRepository.save of a new row. */
    method InsertInvite(i: Invite) returns (id: int)
      requires Valid()
      modifies this
      ensures Valid()
      ensures users == old(users) && files == old(files)
      ensures nextUserId == old(nextUserId) && nextFileId == old(nextFileId)
      ensures id == old(nextInviteId) && id !in old(invites)
      ensures invites == old(invites)[id := i.(id := id)] && nextInviteId == old(nextInviteId) + 1
    {
      id := nextInviteId;
      invites := invites[id := i.(id := id)];
      nextInviteId := nextInviteId + 1;
    }
  }
}
