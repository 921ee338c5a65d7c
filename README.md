# SIRS file-sharing server and client, modelled in Dafny

The system is a secure file-sharing service.

**Users and login.** Users register with a username and an X.509 certificate. They log in by challenge and response: the server hands out a random number, and the client returns it encrypted with the user's private key. If it matches, the server answers with a bearer token. Every later call carries the token in its "Authorization" header, and an interceptor turns it back into a user id.

**Files.** Files are uploaded encrypted (AES, with an IV derived from a username) and signed. The server stores each file under its owner's directory and keeps a record of it:
- its version;
- its last modifier;
- its collaborators.

**Sharing.** An owner shares a file with another user by inviting them with the file key wrapped for that user, and the invitee accepts the invite to obtain the key. An owner can also remove a collaborator.

**Replication.** A primary server forwards every request to a backup. The backup pings the primary and promotes itself when a ping fails.

## The modules

- `Domain` holds the three persisted entities as records: `User`, `File` and `Invite`. An entity's references to other entities are row ids. Each setter and list append of the entities is a function on the record.
- `Repository` holds the JPA repositories. A `Database` object holds three maps from id to row. It hands out fresh ids (for files that is the corrected behaviour, see Findings) and enforces the two unique columns, `User.username` and `File.path`. `Classify` and `SingleResult` capture what a single-result query does with zero, one or several matching rows.
- `Service` holds `FileService`, `InviteService` and `UserService`. They are classes over the shared `Database`, and each method runs as one transaction: a method that fails leaves every table as it was. The store calls the handlers make that the shown services do not define are modelled here with plain lookup semantics:
  - `getFileByPath`, `getFileByUser` and `updateFile`;
  - `getFileCollaboratos` and `clearCollaborators`;
  - `User.getInviteByFileName`.
- `Security` holds `AuthenticationService` with its `authCache` from user id to the pending number, and the header rule of `AuthInterceptor`.
- `Server` holds `ServerImpl`, the request handlers. The class keeps:
  - the `primary` flag;
  - whether a channel to the backup is open;
  - the server's file system, as a map from path to contents;
  - the services.
- `Client` holds the IV rule `usernameToIV`, shared by `ClientLogic` and `SecurityLogic`. It also holds the client's file cache as it is updated by upload, download and unlock, and the invite names a login shows.
- `Replication` holds the backup's heartbeat `PingThread.run`, over a finite sequence of ping outcomes and a naming map from path to address.

Several things are parameters of the model:
- RSA decryption of the login answer (`decrypt`);
- the JWT library (`mint`, `extractId`);
- the secure random number;
- whether the backup can be reached and what it answers;
- file reads and writes;
- the outcomes of the client's network calls and key-file checks.

An exception that a handler does not catch ends the call with status UNKNOWN. The model writes it as `Uncaught`.

## Model

| member | source | states |
|---|---|---|
| Domain.User.AddInvite | server/src/main/java/sirs/server/domain/User.java:79-81 | appends exactly one invite id at the end of the pending invites; every other field is unchanged |
| Domain.User.AddFile | server/src/main/java/sirs/server/domain/User.java:83-85 | appends exactly one file id at the end of the user's files; every other field is unchanged |
| Domain.User.SetUsername | server/src/main/java/sirs/server/domain/User.java:75-77 | replaces the username and no other field |
| Domain.User.SetCertificate | server/src/main/java/sirs/server/domain/User.java:67-69 | replaces the certificate and no other field |
| Domain.NewUser | server/src/main/java/sirs/server/domain/User.java:38-41 | a new user carries the given username and certificate, with no pending invites and no files |
| Domain.File.IncrementVersion | server/src/main/java/sirs/server/domain/File.java:54-56 | the version grows by exactly 1 and every other field is unchanged |
| Domain.File.SetVersion | server/src/main/java/sirs/server/domain/File.java:50-52 | replaces the version and no other field |
| Domain.File.SetLastModifier | server/src/main/java/sirs/server/domain/File.java:78-80 | replaces the last modifier and no other field |
| Domain.File.AddCollaborator | server/src/main/java/sirs/server/domain/File.java:82-84 | appends the user at the end of the collaborators, keeping duplicates: the user's count grows by one |
| Domain.File.RemoveCollaboratorId | server/src/main/java/sirs/server/domain/File.java:86-88 | the id no longer occurs among the collaborators, and the list is `Without` the id |
| Domain.File.RemoveCollaborator | server/src/main/java/sirs/server/domain/File.java:98-100 | the collaborators lose exactly one occurrence of the user, if there is one |
| Domain.NewFile | server/src/main/java/sirs/server/domain/File.java:35-40 | a new file carries the given version, last modifier, name and path, with no collaborators |
| Domain.Invite.SetUser | server/src/main/java/sirs/server/domain/Invite.java:39-41 | replaces the user and no other field |
| Domain.Invite.SetFile | server/src/main/java/sirs/server/domain/Invite.java:51-53 | replaces the file and no other field |
| Domain.Invite.SetFileKey | server/src/main/java/sirs/server/domain/Invite.java:59-61 | replaces the file key and no other field |
| Domain.NewInvite | server/src/main/java/sirs/server/domain/Invite.java:29-33 | a new invite stores exactly the given user, file and key |
| Domain.FileKeyIsLatestStored | server/src/main/java/sirs/server/domain/Invite.java:35-61 | after any sequence of setter calls, getFileKey returns the key most recently stored, or the constructor's key; the id never changes; a sequence without setUser keeps the user and one without setFile keeps the file |
| Domain.Without | server/src/main/java/sirs/server/domain/File.java:86-88 | the filter drops every occurrence of the id and keeps the count of every other id |
| Domain.WithoutConcat | server/src/main/java/sirs/server/domain/File.java:86-88 | the filter commutes with concatenation, so the remaining collaborators keep their relative order |
| Domain.WithoutAbsent | server/src/main/java/sirs/server/domain/File.java:86-88 | removing an id that is not a collaborator changes nothing |
| Domain.RemoveFirst | server/src/main/java/sirs/server/domain/File.java:98-100 | List.remove takes out one occurrence, and nothing when the element is absent |
| Domain.IndexOf | server/src/main/java/sirs/server/domain/File.java:98-100 | the position of the first occurrence: the element is there and not before it |
| Domain.RemoveFirstCutsFirstOccurrence | server/src/main/java/sirs/server/domain/File.java:98-100 | removeCollaborator(User) cuts out exactly the first occurrence and keeps the rest in order |
| Domain.IncrementsAddUp | server/src/main/java/sirs/server/domain/File.java:54-56 | n increments raise the version by exactly n and change nothing else |
| Decimal.IntToString | server/src/main/java/sirs/server/ServerImpl.java:110 | Java's decimal text of an int: a '-' exactly for a negative number, and `ParseInt` (Integer.parseInt) reads it back as the number |
| Decimal.NatToStringParses | server/src/main/java/sirs/server/security/AuthenticationService.java:55 | the digits of a natural number read back as that number |
| Decimal.IntToStringHasNoSlash | server/src/main/java/sirs/server/ServerImpl.java:110 | the decimal text of an id has no '/', so it stays one directory of the path |
| Decimal.IntToStringInjective | server/src/main/java/sirs/server/ServerImpl.java:110 | distinct ids have distinct decimal text |
| Repository.Classify | server/src/main/java/sirs/server/service/FileService.java:40 | a single-result query is absent exactly when nothing matches, and unique exactly when one row matches |
| Repository.SingleResult | server/src/main/java/sirs/server/service/FileService.java:40 | the query outcome equals `Classify` of the matching rows |
| Repository.UniqueUsernameLookup | server/src/main/java/sirs/server/domain/User.java:19-20 | a lookup on the unique username column is never ambiguous |
| Repository.UniquePathLookup | server/src/main/java/sirs/server/domain/File.java:26-27 | a lookup on the unique path column is never ambiguous |
| Repository.UserNamed | server/src/main/java/sirs/server/service/UserService.java:42 | findByUsername: no id when no user has the name, otherwise the one user with that name |
| Repository.FileAt | server/src/main/java/sirs/server/domain/File.java:26-27 | the one file stored at a path, or none when no record has that path |
| Repository.Database.constructor | server/src/main/java/sirs/server/service/UserService.java:19-22 | the tables start empty and valid |
| Repository.Database.InsertUser | server/src/main/java/sirs/server/service/UserService.java:28 | save of a new user: refused with a constraint violation when the username is taken; otherwise the row is stored under a fresh id, and the other tables are unchanged |
| Repository.Database.InsertFile | server/src/main/java/sirs/server/service/FileService.java:34 | save of a new file, with the generated id that `User` and `Invite` have (the corrected save of Findings row 3): refused exactly when the path is taken; otherwise the row is stored under a fresh id |
| Repository.Database.InsertInvite | server/src/main/java/sirs/server/service/InviteService.java:39 | save of a new invite under a fresh id; the other tables are unchanged |
| Repository.SaveFileAsWritten | server/src/main/java/sirs/server/domain/File.java:13-14 | save of a new file as written: stored under the id the file was built with; a taken id or a taken path is a constraint violation and stores nothing |
| Repository.SecondNewFileCollides | server/src/main/java/sirs/server/service/FileService.java:27-35 | every file built by createFile has id 0, so the second save fails even at a free path |
| Service.Rows | server/src/main/java/sirs/server/ServerImpl.java:292 | the collaborator rows: every row returned is one of the listed ids, with its stored row |
| Service.RowsComplete | server/src/main/java/sirs/server/ServerImpl.java:292 | when every listed id has a row, the rows are exactly the listed users, in list order |
| Service.FirstInviteFor | server/src/main/java/sirs/server/service/InviteService.java:55 | getInviteByFileName: a pending invite to a file with that name; none exactly when no pending invite matches |
| Service.FirstInviteForIsFirst | server/src/main/java/sirs/server/service/InviteService.java:55 | no pending invite before the one found matches the name |
| Service.FileService.CreateFile | server/src/main/java/sirs/server/service/FileService.java:27-35 | fails for an unknown owner or a taken path and then changes nothing; otherwise it stores a record at version 1 with the owner as its owner, last modifier and only collaborator, and appends the file to the owner's files |
| Service.FileService.GetFile | server/src/main/java/sirs/server/service/FileService.java:39-42 | null exactly when no file has the name; otherwise a stored file with that name; a name shared by several files is a non-unique result |
| Service.FileService.UpdateVersion | server/src/main/java/sirs/server/service/FileService.java:53-56 | the one file with that name gets exactly one more version and nothing else changes; no such file is a null dereference, several are a non-unique result |
| Service.FileService.DeleteFile | server/src/main/java/sirs/server/service/FileService.java:61-63 | removes the file row with that id and leaves the other tables alone; the cascaded deletes are not modelled (see Left out) |
| Service.FileService.AddCollaborator | server/src/main/java/sirs/server/service/FileService.java:67-72 | fails, changing nothing, when either row is missing; otherwise the user is appended to the file's collaborators and the file to the user's files |
| Service.FileService.GetFileByPath | server/src/main/java/sirs/server/ServerImpl.java:113 | the stored record at the path, and null exactly when there is none |
| Service.FileService.GetFileByUser | server/src/main/java/sirs/server/ServerImpl.java:117 | the one file with that name on which the user collaborates; null when there is none, a non-unique result when there are several |
| Service.FileService.UpdateFile | server/src/main/java/sirs/server/ServerImpl.java:122 | the record at the path gets one more version, the caller as last modifier and the new signature; no record there is a null dereference |
| Service.FileService.GetFileCollaborators | server/src/main/java/sirs/server/ServerImpl.java:292 | the file's collaborator rows in list order; a missing file fails |
| Service.FileService.ClearCollaborators | server/src/main/java/sirs/server/ServerImpl.java:305 | the file's collaborator list becomes empty and nothing else changes |
| Service.InviteService.CreateInvite | server/src/main/java/sirs/server/service/InviteService.java:32-41 | fails, changing nothing, for an unknown user or file; otherwise it stores one invite with exactly that user, file and key under a fresh id and appends it to the user's pending invites |
| Service.InviteService.GetInvite | server/src/main/java/sirs/server/service/InviteService.java:45-49 | fails exactly when the id is absent, otherwise returns the stored invite |
| Service.InviteService.GetInviteByUser | server/src/main/java/sirs/server/service/InviteService.java:53-56 | fails exactly when the user is absent; otherwise the first pending invite to a file with that name, or null |
| Service.InviteService.RemoveInvite | server/src/main/java/sirs/server/service/InviteService.java:60-62 | deletes only the invite with that id |
| Service.UserService.CreateUser | server/src/main/java/sirs/server/service/UserService.java:26-30 | stores a user with exactly the given username and certificate under a fresh id; a taken username violates the unique column and changes nothing |
| Service.UserService.GetUserById | server/src/main/java/sirs/server/service/UserService.java:34-37 | fails exactly when no user has that id, otherwise returns the stored row |
| Service.UserService.GetUserByUsername | server/src/main/java/sirs/server/service/UserService.java:41-44 | fails exactly when no user has that name, otherwise returns the one such user |
| Service.UserService.UpdateUserUsername | server/src/main/java/sirs/server/service/UserService.java:48-52 | changes only that user's username; fails for a missing user, or when another user holds the name |
| Service.UserService.UpdateUserCertificate | server/src/main/java/sirs/server/service/UserService.java:56-60 | changes only that user's certificate; fails for a missing user |
| Service.UserService.RemoveUser | server/src/main/java/sirs/server/service/UserService.java:64-66 | removes the user row with that id and leaves the other tables alone; the cascaded deletes are not modelled (see Left out) |
| Security.CacheGetAsWritten | server/src/main/java/sirs/server/security/AuthenticationService.java:65-70 | the cache lookup with a loader that yields null: the stored number, or the unchecked InvalidCacheLoadException |
| Security.StoredNumber | server/src/main/java/sirs/server/security/AuthenticationService.java:65-73 | the stored number, or "Number not found" when there is none |
| Security.CacheLookupsAgree | server/src/main/java/sirs/server/security/AuthenticationService.java:65-73 | both lookups agree on every stored number and differ only in how a missing one fails |
| Security.AuthenticationService.constructor | server/src/main/java/sirs/server/security/AuthenticationService.java:35 | the number cache starts empty |
| Security.AuthenticationService.RegisterUser | server/src/main/java/sirs/server/security/AuthenticationService.java:41-49 | refuses a taken username with "Username … is in use." and changes nothing; otherwise it saves a new user with that username and certificate and no invites or files |
| Security.AuthenticationService.GetNumber | server/src/main/java/sirs/server/security/AuthenticationService.java:53-58 | an unknown user fails; otherwise the decimal text of the random number is returned and stored under the user's id, replacing any earlier number |
| Security.AuthenticationService.GetToken | server/src/main/java/sirs/server/security/AuthenticationService.java:62-110 | with the corrected cache lookup of Findings row 2: an unknown user fails; a missing number is "Number not found"; a failed decryption is "Unknown error"; a different number is "Numbers do not match"; it succeeds exactly when the decrypted answer equals the stored number, and then it removes the number and returns the token for the user's id; every failure keeps the cache |
| Security.AuthenticationService.Expire | server/src/main/java/sirs/server/security/AuthenticationService.java:35 | the expiry and size bound of the cache can drop a user's number at any time |
| Security.AuthenticationService.ReplayIsRejected | server/src/main/java/sirs/server/security/AuthenticationService.java:108-109 | with the corrected cache lookup of Findings row 2: after a successful getToken, the same request again fails with "Number not found" |
| Security.AuthenticationService.LoginSucceeds | server/src/main/java/sirs/server/security/AuthenticationService.java:53-110 | a user who answers the number just handed out gets the token for their own id, and the number is spent |
| Security.BearerHeader | client/src/main/java/sirs/client/AuthCreadentials.java:24 | the header is the 7-character prefix followed by the token |
| Security.InterceptCall | server/src/main/java/sirs/server/security/AuthInterceptor.java:9-17 | no header, a header shorter than 7 characters, or a token the extractor rejects all give -1; otherwise the id extracted from everything after the first 7 characters |
| Security.BearerRoundTrip | client/src/main/java/sirs/client/AuthCreadentials.java:24 | the interceptor hands the extractor exactly the token the client attached |
| Security.PrefixIsNotChecked | server/src/main/java/sirs/server/security/AuthInterceptor.java:12 | any 7 characters before the token are accepted like "Bearer " |
| Client.Cycle | client/src/main/java/sirs/client/ClientLogic.java:296-303 | the IV rule: position i holds the username's character at i modulo its length |
| Client.CycleGrows | client/src/main/java/sirs/client/ClientLogic.java:299-300 | appending the username to a whole number of copies of it continues the cycle |
| Client.UsernameToIV | client/src/main/java/sirs/client/SecurityLogic.java:139-146 | for a non-empty username, the 16 characters of `Cycle`; the ClientLogic copy at client/src/main/java/sirs/client/ClientLogic.java:296-303 is the same method |
| Client.LongNameIsTruncated | client/src/main/java/sirs/client/SecurityLogic.java:142-145 | a username of at least 16 characters gives its first 16 |
| Client.ShortNameIsRepeated | client/src/main/java/sirs/client/SecurityLogic.java:142-145 | a shorter username gives itself followed by its own repetition, cut at 16 |
| Client.LastIndexOf | client/src/main/java/sirs/client/ClientLogic.java:57 | -1 exactly when the character is absent; otherwise its last position |
| Client.ShownName | client/src/main/java/sirs/client/ClientLogic.java:57 | the shown name is a proper prefix of the invite name that stops at its last '.' |
| Client.ClientLogic.constructor | client/src/main/java/sirs/client/ClientLogic.java:29-37 | not logged in, with the cache that was stored |
| Client.ClientLogic.Login | client/src/main/java/sirs/client/ClientLogic.java:49-63 | a failed call changes nothing; otherwise the username is set and each invite name is shown cut before its last '.'; a name without '.' aborts the rest; every name having a '.' means all of them are shown |
| Client.ClientLogic.Upload | client/src/main/java/sirs/client/ClientLogic.java:107-171 | nothing happens when not logged in; the IV is the user's; the owner sent is the cached owner, or the user; after a successful call a new entry is {me, 1, me} and an existing one takes the server's version and me as last modifier; a failed call keeps the cache |
| Client.ClientLogic.Download | client/src/main/java/sirs/client/ClientLogic.java:173-204 | without a key, with an unreadable key, when the call fails or the signature is rejected, or when the decryption throws, the cache is unchanged; otherwise the IV comes from the returned last modifier and the entry is replaced, after the decryption |
| Client.ClientLogic.Unlock | client/src/main/java/sirs/client/ClientLogic.java:77-105 | a file not in the cache or without a key stops; a key that cannot be read throws before the IV is derived; otherwise the IV comes from the cached last modifier; nothing changes |
| Client.ClientLogic.DownloadThenUnlock | client/src/main/java/sirs/client/ClientLogic.java:196-200 | a download whose decryption succeeds, followed by an unlock, decrypts with the same IV, the one from the last modifier the server reported |
| Client.ClientLogic.FailedDownloadThenUnlock | client/src/main/java/sirs/client/ClientLogic.java:184-200 | a download whose decryption throws keeps the cache, so the following unlock uses the IV of the previously cached last modifier |
| Replication.Unbind | server/src/main/java/sirs/server/replication/PingThread.java:52 | succeeds exactly when the path is bound to this address, and removes only that binding |
| Replication.Rebind | server/src/main/java/sirs/server/replication/PingThread.java:53 | binds the path to this address and leaves every other binding |
| Replication.Promote | server/src/main/java/sirs/server/replication/PingThread.java:51-57 | a backup registered under the backup path leaves it, holds the primary path, and every other binding is kept; for any other backup the unbind fails, the error is swallowed and the naming is untouched |
| Replication.FirstFailure | server/src/main/java/sirs/server/replication/PingThread.java:38-60 | the position of the first failed ping, with none before it; none exactly when no ping fails |
| Replication.PingThread.constructor | server/src/main/java/sirs/server/replication/PingThread.java:27-34 | the primary address is resolved once, from the primary path |
| Replication.PingThread.Run | server/src/main/java/sirs/server/replication/PingThread.java:37-61 | the thread promotes itself exactly when some ping fails, at the first failure, once, and then stops; interrupted sleeps and answered pings change nothing |
| Server.UploadPath | server/src/main/java/sirs/server/ServerImpl.java:110 | the path is "./users/" followed by the owner id's decimal text, a '/' and the file name |
| Server.UploadPathInjective | server/src/main/java/sirs/server/ServerImpl.java:110 | two upload paths are equal only for the same owner id and file name |
| Server.NameCheckAdmitsOtherOwnersPath | server/src/main/java/sirs/server/ServerImpl.java:113-122 | the name-based access test admits a user who does not collaborate on the record at the target path (see Findings) |
| Server.UploadAccessAsWritten | server/src/main/java/sirs/server/ServerImpl.java:117-118 | the written access test passes exactly when the caller collaborates on one file with that name, and that file may be stored anywhere |
| Server.AccessTestsAgree | server/src/main/java/sirs/server/ServerImpl.java:113-122 | for a record with that name at the path, both access tests admit exactly when the caller collaborates on that record and on no other file of that name, and then the two record steps coincide; otherwise the corrected test admits alone only for an ambiguous name, which throws, and the written test admits alone only through another file |
| Server.AmbiguousNameRefusesCollaborator | server/src/main/java/sirs/server/ServerImpl.java:113-122 | a collaborator on the record at the path who also collaborates on another file of that name passes the corrected test, while the written lookup throws (see Findings) |
| Server.UploadedVersionAsWritten | server/src/main/java/sirs/server/ServerImpl.java:113-133 | after the written record step, when not refused, the path holds one record with the version upload reports |
| Server.TokenStatus | server/src/main/java/sirs/server/ServerImpl.java:471-473 | the service's own refusals become INVALID_ARGUMENT with their message; anything else is UNKNOWN |
| Server.MissingNumberStatus | server/src/main/java/sirs/server/security/AuthenticationService.java:65-73 | as written a missing number ends as UNKNOWN; the intended lookup gives INVALID_ARGUMENT "Number not found" (see Findings) |
| Server.Survivors | server/src/main/java/sirs/server/ServerImpl.java:292-296 | the reported collaborators are exactly those other than the caller and the removed user |
| Server.Pairs | server/src/main/java/sirs/server/ServerImpl.java:298-304 | one (username, certificate) pair per collaborator, in order |
| Server.CollectCertificates | server/src/main/java/sirs/server/ServerImpl.java:291-304 | the loop of remove yields the pairs of the `Survivors` |
| Server.FindInviteTo | server/src/main/java/sirs/server/ServerImpl.java:352-357 | true exactly when a pending invite of the invitee is to that file |
| Server.InviteFileNames | server/src/main/java/sirs/server/ServerImpl.java:464-466 | at most one listed name per pending invite |
| Server.InviteFileNamesComplete | server/src/main/java/sirs/server/ServerImpl.java:464-466 | when every pending invite resolves, the list holds each invite's file name, in order |
| Server.ListInvites | server/src/main/java/sirs/server/ServerImpl.java:464-466 | the loop of getToken yields `InviteFileNames` |
| Server.FirstInviteForAppend | server/src/main/java/sirs/server/service/InviteService.java:36-37 | a new invite appended to a user with no matching invite is the one accept finds |
| Server.UploadedVersion | server/src/main/java/sirs/server/ServerImpl.java:113-133 | after the corrected record step, when not refused, the path holds one record, the caller collaborates on it, and its version is 1 for a new record or one more than before |
| Server.OwnedFile | server/src/main/java/sirs/server/ServerImpl.java:269-273 | the ownership test passes only for the one file with that name on which the caller collaborates, when the caller owns it; several such files are an uncaught exception |
| Server.ServerImpl.constructor | server/src/main/java/sirs/server/ServerImpl.java:40-56 | the services share one database; no channel to the backup is open yet |
| Server.ServerImpl.Forward | server/src/main/java/sirs/server/ServerImpl.java:86-101 | only an error status from the backup stops the handler, and then it is the answer; a backup that cannot be found or connected to is ignored; the channel is opened once and kept |
| Server.ServerImpl.StoreRecord | server/src/main/java/sirs/server/ServerImpl.java:112-123 | the corrected record step of Findings row 1: a new path gets a new record owned by the caller; an existing record is updated only when the caller collaborates on it, and otherwise NOT_FOUND is answered and nothing changes |
| Server.ServerImpl.StoreRecordAsWritten | server/src/main/java/sirs/server/ServerImpl.java:112-123 | the record step as written: a new path as in `StoreRecord`; an existing record is updated when the caller collaborates on exactly one file with that name, NOT_FOUND when on none, and UNKNOWN when on several; refusals change nothing |
| Server.ServerImpl.UploadTo | server/src/main/java/sirs/server/ServerImpl.java:112-135 | with the corrected record step `StoreRecord`: after a refusal nothing changes; otherwise a failed write answers UNKNOWN "Failed writing file" with the record already updated, and a successful one stores the contents at the path and answers `NewVersion` |
| Server.ServerImpl.StoredVersion | server/src/main/java/sirs/server/ServerImpl.java:132-133 | the answer read back from the path is 1 for a new record and one more than the old version otherwise |
| Server.ServerImpl.Upload | server/src/main/java/sirs/server/ServerImpl.java:79-136 | -1 is UNAUTHENTICATED; a backup error is returned; in both cases nothing changes. An unknown owner is uncaught. Otherwise the corrected record step of Findings row 1 happens, a failed write is UNKNOWN, and a stored file answers the version of the record now at the path |
| Server.ServerImpl.Download | server/src/main/java/sirs/server/ServerImpl.java:139-197 | -1 is UNAUTHENTICATED; without access, NOT_FOUND; otherwise the stored contents, the signature, the last modifier's certificate and username, the version and the owner's username; a failed read is UNKNOWN |
| Server.ServerImpl.Share | server/src/main/java/sirs/server/ServerImpl.java:200-239 | -1 is UNAUTHENTICATED; an unknown user is INVALID_ARGUMENT "User does not exist."; otherwise that user's certificate |
| Server.ServerImpl.CheckOwnership | server/src/main/java/sirs/server/ServerImpl.java:269-273 | the outcome is `OwnedFile` of the stored files |
| Server.ServerImpl.Revoke | server/src/main/java/sirs/server/ServerImpl.java:275-306 | an unknown target or a target without access is refused and nothing changes; otherwise it reports the surviving collaborators and leaves the caller as the only collaborator |
| Server.ServerImpl.KeepOnlyCaller | server/src/main/java/sirs/server/ServerImpl.java:291-306 | reports the collaborators other than the caller and the target, and leaves the caller as the file's only collaborator; when re-adding the caller fails, the cleared list stays empty |
| Server.ServerImpl.ResetCollaborators | server/src/main/java/sirs/server/ServerImpl.java:305-306 | clears the file's collaborators and re-adds the caller: the caller is then the only collaborator and gains the file, unless the caller's row is missing, in which case the list stays empty and the users are unchanged |
| Server.ServerImpl.Remove | server/src/main/java/sirs/server/ServerImpl.java:242-310 | -1 is UNAUTHENTICATED; a non-owner gets "You do not own the file."; an unknown target gets "User does not exist."; a target without access gets "User does not have access to file."; none of these changes anything. On success the other collaborators are reported and the collaborators become exactly [owner] |
| Server.ServerImpl.CreatePendingInvite | server/src/main/java/sirs/server/ServerImpl.java:346-363 | an invitee who can already edit, or who holds a pending invite to the file, is refused and nothing changes; otherwise exactly one invite with the given key is created and appended to the invitee's pending invites |
| Server.ServerImpl.InviteUser | server/src/main/java/sirs/server/ServerImpl.java:313-368 | -1 is UNAUTHENTICATED; a non-owner gets "You do not own the file."; then the refusals of `CreatePendingInvite` apply, or exactly one invite is created; the files are never touched |
| Server.ServerImpl.Accept | server/src/main/java/sirs/server/ServerImpl.java:371-407 | -1 is UNAUTHENTICATED; without a matching pending invite, "You have not been invited to edit this file."; otherwise exactly the stored key; nothing is changed |
| Server.ServerImpl.Register | server/src/main/java/sirs/server/ServerImpl.java:410-447 | a backup error is returned; a taken username is INVALID_ARGUMENT with the service's message and changes nothing; otherwise one new user with that name and certificate |
| Server.ServerImpl.GetNumber | server/src/main/java/sirs/server/ServerImpl.java:450-455 | an unknown user is uncaught; otherwise the new number, which is stored for the user |
| Server.ServerImpl.GetToken | server/src/main/java/sirs/server/ServerImpl.java:458-474 | with the corrected cache lookup of Findings row 2: the outcomes of the service's getToken mapped to statuses; on success the token and the names of the files the user is invited to, in order |
| Server.ServerImpl.InviteThenAccept | server/src/main/java/sirs/server/ServerImpl.java:346-404 | on a backup or on a primary whose backup does not answer with an error, an invite followed by the invitee's accept hands the invitee exactly the key the owner sent |

## Left out

- Cryptography is a set of parameters and is not modelled: AES, RSA key wrapping, SHA256withRSA signatures, X.509 parsing and JWT. `decrypt`, `mint` and `extractId` stand for them, and no round trip between them is assumed.
- gRPC, TLS and ZooKeeper plumbing is not modelled.
  - A forwarded request is reduced to `Backup`: whether the backup can be found and connected to, and what it answers.
  - The naming service is a map from path to address, with unbind failing unless the path is bound to the caller's address.
  - `AuthInterceptor.USER_TOKEN` (the token passed on to the backup) is not modelled, since it only feeds the forwarded call.
- File system, keystore and JSON I/O are not modelled. The server's files are the map `disk`, and a read of a path that is not there is the failed read. The client's key files, the outcome of each network call, and whether the key read, the encryption of upload and the decryption of download succeed are booleans or optional replies. The creation of `./users/<id>/` at registration and the flushing of the cache file are left out.
- Transactions, `@Retryable` and isolation levels are not modelled. Each service call is atomic, and calls do not interleave.
- Entity identity and aliasing are not modelled. `User`, `File` and `Invite` are values kept in the `Database` maps. An update in place of a managed entity is a replacement of its row. Lazy loading is not modelled.
- Dangling references are handled by convention, because a JPA entity reference can be null after a delete:
  - a pending invite whose invite or file row is gone matches nothing;
  - a collaborator id without a user row is skipped;
  - a last modifier or owner without a user row makes download end as an uncaught exception.
- `Service.FileService.DeleteFile`, `Service.InviteService.RemoveInvite`, `Service.UserService.RemoveUser`: deleting an absent id changes nothing. Some Spring Data versions throw there instead.
- `Service.FileService.DeleteFile` removes only the file row. `File.collaborators` is mapped with cascade REMOVE (server/src/main/java/sirs/server/domain/File.java:29), so as written deleting a file also deletes the user row of every collaborator.
- `Service.UserService.RemoveUser` removes only the user row. `User.pendingInvites` and `User.files` are mapped with cascade REMOVE (server/src/main/java/sirs/server/domain/User.java:25-29), so as written removing a user also deletes their pending invites and their files, and through the files those files' collaborators.
- `Repository.Database.InsertFile` and `Service.FileService.CreateFile` give each new file a fresh generated id, the corrected save of Findings row 3. As written every new file is saved with id 0 (`Repository.SaveFileAsWritten`).
- `Server.ServerImpl.StoreRecord` uses the corrected access test of Findings row 1. The test as written is `Server.ServerImpl.StoreRecordAsWritten`, which differs in two kinds of input: a caller who collaborates only on another file of that name is admitted, and a collaborator on the record who also collaborates on another file of that name is refused with UNKNOWN.
- `Server.ServerImpl.UploadTo` calls the corrected `StoreRecord`, so it differs from the handler as written on the two kinds of input named for `StoreRecord`.
- `Server.ServerImpl.Upload` calls `UploadTo`, and so the corrected record step. On the two kinds of input named for `StoreRecord` the handler as written answers differently.
- `Server.UploadedVersion` holds for the corrected record step. After the record step as written the caller need not collaborate on the record at the path; `Server.UploadedVersionAsWritten` states the version part for it.
- `Security.AuthenticationService.GetToken` uses the corrected lookup `Security.StoredNumber` of Findings row 2. As written a missing number throws InvalidCacheLoadException (`Security.CacheGetAsWritten`), which reaches the caller as UNKNOWN, not "Number not found".
- `Security.AuthenticationService.ReplayIsRejected` holds for the corrected lookup. As written the replay ends with UNKNOWN (`Server.MissingNumberStatus`).
- `Server.ServerImpl.GetToken` calls the service's corrected getToken, so a missing number is INVALID_ARGUMENT "Number not found" here and UNKNOWN as written.
- `acceptInvite` is not part of the shown services. It is modelled as changing nothing, so `Server.ServerImpl.Accept` leaves the invite pending and the collaborators as they were.
- `createFile` is called at server/src/main/java/sirs/server/ServerImpl.java:115 with the signature where the declared method takes a path. `Service.FileService.CreateFile` takes both, and the upload handler passes the path it built.
- `File.java` does not declare the `owner` and `signature` fields that the handlers read. The `File` record carries them.
- `Domain.File.IncrementVersion`: the version is an unbounded integer, so the 32-bit overflow of `int` is not modelled.
- `Security.AuthenticationService.GetNumber`: the random number is a parameter in the 32-bit range rather than a draw from `SecureRandom`.
- `Security.AuthenticationService.Expire`: the one-minute expiry and the bound of 1000 entries are modelled as a removal that may happen at any time, without time.
- `Client.UsernameToIV` works on characters. The platform charset of `getBytes()` is not modelled, so the IV is 16 bytes only when every character encodes as one byte.
- `Client.UsernameToIV` requires a non-empty username. With an empty one the loop never ends, and the client operations report `Diverges` instead of calling it.
- `Replication.Rebind` never fails. server/src/main/java/sirs/server/replication/PingThread.java:51-57 also catches a naming exception from rebind, and after a successful unbind that failure leaves the node bound under neither path; the model does not capture that outcome.
- `Replication.Promote` inherits this: after a successful unbind the model always binds the primary path.
- `Replication.PingThread.constructor` requires the primary path to be bound. The lookup failure that the constructor throws is not modelled.
- `Replication.PingThread.Run` consumes a finite sequence of outcomes. A thread whose pings all succeed runs forever, and the model stops when the sequence ends.
- `ServerImpl.connectToBackup` and the opening of a channel are reduced to a flag. A channel that opens and then fails counts as connected, and the backup's answer is then an error status.
- The client's register, invite and accept commands, `ClientFrontend`, `ClientApp`, `ServerApp` and `ReplicationImpl` are not part of this model.

## Findings

| source | as written | input that shows it | evidently intended | confidence | as-written member | corrected member |
|---|---|---|---|---|---|---|
| server/src/main/java/sirs/server/ServerImpl.java:113-122 | When a record already exists at the owner's path, upload checks access with `getFileByUser(filename, userId)`. That test asks whether the caller collaborates on exactly one file with that name, anywhere, and then updates the record at the path. | Alice (id 1) owns "a.txt" at ./users/1/a.txt and Bob (id 2) owns his own "a.txt". Bob uploads "a.txt" with owner "alice". The test finds Bob's own file, and Alice's record and file are overwritten. | Only a collaborator on the record stored at the target path may update it. | not executed | Server.NameCheckAdmitsOtherOwnersPath, Server.ServerImpl.StoreRecordAsWritten | Server.ServerImpl.StoreRecord |
| server/src/main/java/sirs/server/ServerImpl.java:117 | The same name test refuses a legitimate collaborator: when the caller collaborates on two files with that name, getFileByUser's single-result query throws and the upload ends with UNKNOWN. | Alice (id 1) uploads "a.txt" as herself, then "a.txt" with owner Bob (id 2), who has no such file, which creates ./users/2/a.txt with Alice as collaborator. Her next upload of "a.txt" as herself fails. | A collaborator on the record at the path may update it. | not executed | Server.AmbiguousNameRefusesCollaborator, Server.ServerImpl.StoreRecordAsWritten | Server.ServerImpl.StoreRecord |
| server/src/main/java/sirs/server/security/AuthenticationService.java:65-73 | `authCache.get(id, () -> null)` throws the unchecked InvalidCacheLoadException when no number is stored, because a Guava loader may not return null. The following `number == null` test never fires, and the exception escapes getToken as UNKNOWN. | A getToken for an existing user who never called getNumber, or whose number expired. | INVALID_ARGUMENT "Number not found". | not executed | Security.CacheGetAsWritten | Security.StoredNumber |
| server/src/main/java/sirs/server/domain/File.java:13-14 | `File.id` is an `@Id` without `@GeneratedValue`, unlike `User` and `Invite`, and createFile never sets it, so every new file is saved with id 0 (assuming the JPA provider treats a primitive id of 0 as a new entity). | Two uploads of new files at different paths: the second save inserts a second row with primary key 0 and fails. | Generated ids, as for users and invites. | not executed | Repository.SecondNewFileCollides | Repository.Database.InsertFile |
