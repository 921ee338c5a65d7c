/**
 * Login and request authentication on the server.
 *
 * AuthenticationService runs a challenge-response login: getNumber hands a user a
 * random number and remembers it in `authCache` under the user's id; getToken takes
 * that number encrypted with the user's private key, decrypts it with the public key
 * of the registered certificate, and, when it matches, forgets the number and mints a
 * bearer token. AuthInterceptor turns the "Authorization" header of every call back
 * into a user id, with -1 standing for "not authenticated".
 *
 * Certificate parsing, RSA decryption and the JWT library are parameters: `decrypt`
 * yields the decrypted text or None when any step of it fails, `mint` and `extractId`
 * are the token provider's two directions.
 */
module Security {
  import opened Wrappers
  import opened Domain
  import opened Repository
  import opened Decimal

  /** What escapes from the authentication service. */
  datatype AuthError =
    | Authentication(message: string)  // AuthenticationException(message)
    | Store(fault: Fault)              // a repository exception, not caught here
    | InvalidCacheLoad                 // Guava's unchecked InvalidCacheLoadException

  const NumberNotFound: string := "Number not found"
  const UnknownError: string := "Unknown error"
  const NumbersDoNotMatch: string := "Numbers do not match"

  function InUseMessage(username: string): string
  {
    "Username " + username + " is in use."
  }

  /**
   * `authCache.get(id, () -> null)` as the cache library behaves: a loader that
   * yields null makes the lookup throw an unchecked InvalidCacheLoadException, so a
   * missing number never reaches the null test that follows it.
   */
  function CacheGetAsWritten(cache: map<int, string>, id: int): (r: Result<string, AuthError>)
    ensures r.Ok? <==> id in cache
    ensures r.Ok? ==> r.value == cache[id]
    ensures r.Err? ==> r.error == InvalidCacheLoad
  {
    if id in cache then Ok(cache[id]) else Err(InvalidCacheLoad)
  }

  /** The lookup the null test after it expects: a missing number is reported as "Number not found". */
  function StoredNumber(cache: map<int, string>, id: int): (r: Result<string, AuthError>)
    ensures r.Ok? <==> id in cache
    ensures r.Ok? ==> r.value == cache[id]
    ensures r.Err? ==> r.error == Authentication(NumberNotFound)
  {
    if id in cache then Ok(cache[id]) else Err(Authentication(NumberNotFound))
  }

  /** The two lookups agree on every stored number and differ only in how a missing one fails. */
  lemma CacheLookupsAgree(cache: map<int, string>, id: int)
    ensures id in cache ==> CacheGetAsWritten(cache, id) == StoredNumber(cache, id)
    ensures id !in cache ==>
              CacheGetAsWritten(cache, id) == Err(InvalidCacheLoad) && StoredNumber(cache, id) == Err(Authentication(NumberNotFound))
  {
  }

  class AuthenticationService {
    const db: Database
    /** User id to the number most recently handed to that user. */
    var authCache: map<int, string>

    constructor (db: Database)
      ensures this.db == db && authCache == map[]
    {
      this.db := db;
      authCache := map[];
    }

    /** registerUser: a taken username is refused; otherwise a new user with that name and certificate is saved. */
    method RegisterUser(username: string, certificate: Bytes) returns (r: Result<User, AuthError>)
      requires db.Valid()
      modifies db
      ensures db.Valid()
      ensures db.files == old(db.files) && db.invites == old(db.invites)
      ensures r.Err? <==> UsersNamed(old(db.users), username) != {}
      ensures r.Err? ==> r.error == Authentication(InUseMessage(username)) && unchanged(db)
      ensures r.Ok? ==> && r.value.id == old(db.nextUserId) && r.value.id !in old(db.users)
                        && r.value == User(r.value.id, username, [], [], certificate)
                        && db.users == old(db.users)[r.value.id := r.value]
    {
      if UsersNamed(db.users, username) != {} {
        return Err(Authentication(InUseMessage(username)));
      }
      var saved := db.InsertUser(NewUser(username, certificate));
      assert saved.Ok?;
      r := Ok(db.users[saved.value]);
    }

    /**
     * getNumber: the user must exist; `random` is the value drawn from the secure
     * random source. Its decimal text replaces whatever was stored for the user.
     */
    method GetNumber(username: string, random: int) returns (r: Result<string, AuthError>)
      requires db.Valid()
      requires -0x8000_0000 <= random < 0x8000_0000
      modifies this
      ensures r.Err? <==> UsersNamed(db.users, username) == {}
      ensures r.Err? ==> r.error == Store(NoSuchElement) && authCache == old(authCache)
      ensures r.Ok? ==> && r.value == IntToString(random)
                        && UserNamed(db.users, username).Some?
                        && authCache == old(authCache)[UserNamed(db.users, username).value := r.value]
    {
      var found := SingleResult(UsersNamed(db.users, username));
      UniqueUsernameLookup(db.users, username);
      if !found.Unique? {
        return Err(Store(NoSuchElement));
      }
      var number := IntToString(random);
      authCache := authCache[found.id := number];
      r := Ok(number);
    }

    /**
     * getToken: the user must exist and hold a number; `decrypt` must turn the
     * answer into exactly that number under the user's certificate. Only success
     * consumes the number; every failure leaves the cache as it was.
     */
    method GetToken(username: string, encryptedNumber: Bytes,
                    decrypt: (Bytes, Bytes) -> Option<string>, mint: int -> string)
      returns (r: Result<string, AuthError>)
      requires db.Valid()
      modifies this
      ensures UserNamed(db.users, username).None? ==> r == Err(Store(NoSuchElement)) && authCache == old(authCache)
      ensures UserNamed(db.users, username).Some? ==>
                var id := UserNamed(db.users, username).value;
                var answer := decrypt(db.users[id].certificate, encryptedNumber);
                && (id !in old(authCache) ==> r == Err(Authentication(NumberNotFound)))
                && (id in old(authCache) && answer.None? ==> r == Err(Authentication(UnknownError)))
                && (id in old(authCache) && answer.Some? && answer.value != old(authCache)[id] ==>
                      r == Err(Authentication(NumbersDoNotMatch)))
                && (r.Ok? <==> id in old(authCache) && answer == Some(old(authCache)[id]))
                && (r.Ok? ==> r.value == mint(id) && authCache == old(authCache) - {id})
      ensures r.Err? ==> authCache == old(authCache)
    {
      var found := SingleResult(UsersNamed(db.users, username));
      UniqueUsernameLookup(db.users, username);
      if !found.Unique? {
        return Err(Store(NoSuchElement));
      }
      var id := found.id;
      assert id in UsersNamed(db.users, username);
      var number := StoredNumber(authCache, id);
      if number.Err? {
        return Err(number.error);
      }
      var answer := decrypt(db.users[id].certificate, encryptedNumber);
      if answer.None? {
        return Err(Authentication(UnknownError));
      }
      if answer.value != number.value {
        return Err(Authentication(NumbersDoNotMatch));
      }
      authCache := authCache - {id};
      r := Ok(mint(id));
    }

    /** The cache's one-minute expiry and size bound: an entry may disappear at any time. */
    method Expire(id: int)
      modifies this
      ensures authCache == old(authCache) - {id}
    {
      authCache := authCache - {id};
    }

    /** A number that was answered correctly cannot be answered again: a replay finds no number. */
    method ReplayIsRejected(username: string, encryptedNumber: Bytes,
                            decrypt: (Bytes, Bytes) -> Option<string>, mint: int -> string)
      returns (first: Result<string, AuthError>, second: Result<string, AuthError>)
      requires db.Valid()
      modifies this
      ensures first.Ok? ==> second == Err(Authentication(NumberNotFound))
    {
      first := GetToken(username, encryptedNumber, decrypt, mint);
      second := GetToken(username, encryptedNumber, decrypt, mint);
    }

    /** A user who decrypts the number they were just given obtains the token for their own id. */
    method LoginSucceeds(username: string, random: int, encryptedNumber: Bytes,
                         decrypt: (Bytes, Bytes) -> Option<string>, mint: int -> string)
      returns (number: Result<string, AuthError>, token: Result<string, AuthError>)
      requires db.Valid() && UsersNamed(db.users, username) != {}
      requires -0x8000_0000 <= random < 0x8000_0000
      requires forall id :: id in UsersNamed(db.users, username) ==>
                 decrypt(db.users[id].certificate, encryptedNumber) == Some(IntToString(random))
      modifies this
      ensures number == Ok(IntToString(random))
      ensures UserNamed(db.users, username).Some? && token == Ok(mint(UserNamed(db.users, username).value))
      ensures UserNamed(db.users, username).value !in authCache
    {
      number := GetNumber(username, random);
      token := GetToken(username, encryptedNumber, decrypt, mint);
    }
  }

  /** The header value the client attaches to every authenticated call. */
  function BearerHeader(token: string): (h: string)
    ensures |h| == 7 + |token| && h[7..] == token
  {
    "Bearer " + token
  }

  /**
   * AuthInterceptor.interceptCall: the id bound to the call. A missing header, one
   * shorter than the 7-character prefix, and a token `extractId` rejects all give -1.
   * The prefix itself is not inspected.
   */
  function InterceptCall(authorization: Option<string>, extractId: string -> Option<int>): (userId: int)
    ensures authorization.None? ==> userId == -1
    ensures authorization.Some? && |authorization.value| < 7 ==> userId == -1
    ensures authorization.Some? && |authorization.value| >= 7 ==>
              userId == (match extractId(authorization.value[7..]) case Some(id) => id case None => -1)
  {
    match authorization
    case None => -1
    case Some(header) =>
      if |header| < 7 then -1
      else match extractId(header[7..])
        case Some(id) => id
        case None => -1
  }

  /** The client's header round-trips: the interceptor hands `extractId` exactly the token that was sent. */
  lemma BearerRoundTrip(token: string, extractId: string -> Option<int>)
    ensures InterceptCall(Some(BearerHeader(token)), extractId) ==
              (match extractId(token) case Some(id) => id case None => -1)
  {
  }

  /** Any 7 characters in front of the token are accepted: the prefix is never compared with "Bearer ". */
  lemma PrefixIsNotChecked(prefix: string, token: string, extractId: string -> Option<int>)
    requires |prefix| == 7
    ensures InterceptCall(Some(prefix + token), extractId) == InterceptCall(Some(BearerHeader(token)), extractId)
  {
    assert (prefix + token)[7..] == token;
  }
}
