/**
 * The client side: the initialisation vector derived from a username, and the local
 * file cache (fileCache.json) that remembers, per file name, the owner, the version
 * last seen and the last modifier.
 *
 * Key files, AES transforms, signatures and the network calls are outside the model:
 * their outcomes are parameters (`replyVersion`, `reply`, `keyExists`, ...), and the
 * operations return the IV they would hand to the cipher.
 */
module Client {
  import opened Wrappers

  /** The IV rule: position i holds the username's character at i modulo its length. */
  ghost function Cycle(username: string, length: nat): (s: string)
    requires |username| > 0
    ensures |s| == length && forall i :: 0 <= i < length ==> s[i] == username[i % |username|]
  {
    seq(length, i requires 0 <= i < length => username[i % |username|])
  }

  /** Arithmetic helper for `DivModUnique`. */
  lemma MulAtLeast(x: int, n: int)
    requires x >= 1 && n > 0
    ensures x * n >= n
  {
  }

  /** Euclidean division has one quotient and one remainder. */
  lemma DivModUnique(a: int, n: int, q: int, r: int)
    requires n > 0 && 0 <= r < n && a == q * n + r
    ensures a % n == r
  {
    var q', r' := a / n, a % n;
    assert (q - q') * n == r' - r;
    if q - q' >= 1 {
      MulAtLeast(q - q', n);
    } else if q' - q >= 1 {
      MulAtLeast(q' - q, n);
    }
  }

  /** Appending the username to a whole number of copies of it continues the cycle. */
  lemma CycleGrows(username: string, k: nat)
    requires |username| > 0 && k % |username| == 0
    ensures Cycle(username, k) + username == Cycle(username, k + |username|)
    ensures (k + |username|) % |username| == 0
  {
    var n := |username|;
    var grown := Cycle(username, k) + username;
    forall i | 0 <= i < k + n ensures grown[i] == username[i % n] {
      if i >= k {
        DivModUnique(i, n, k / n, i - k);
      }
    }
    DivModUnique(k + n, n, k / n + 1, 0);
  }

  /**
   * usernameToIV, of which SecurityLogic and ClientLogic hold identical copies: the
   * username is appended to itself until it is at least 16 characters long and the
   * first 16 are kept. An empty username would loop forever.
   */
  method UsernameToIV(username: string) returns (iv: string)
    requires |username| > 0
    ensures iv == Cycle(username, 16)
  {
    var n := |username|;
    var holder := username;
    assert holder == Cycle(username, n) by {
      forall i | 0 <= i < n ensures holder[i] == username[i % n] {
        DivModUnique(i, n, 0, i);
      }
    }
    while |holder| < 16
      invariant |holder| % n == 0 && |holder| >= n
      invariant holder == Cycle(username, |holder|)
      decreases 16 - |holder|
    {
      CycleGrows(username, |holder|);
      holder := holder + username;
    }
    iv := holder[..16];
  }

  /** A username of at least 16 characters gives its own first 16 characters. */
  lemma LongNameIsTruncated(username: string)
    requires |username| >= 16
    ensures Cycle(username, 16) == username[..16]
  {
    forall i | 0 <= i < 16 ensures Cycle(username, 16)[i] == username[i] {
      DivModUnique(i, |username|, 0, i);
    }
  }

  /** A shorter username is repeated whole, then cut: the IV starts with the name itself. */
  lemma ShortNameIsRepeated(username: string)
    requires 0 < |username| < 16
    ensures Cycle(username, 16)[..|username|] == username
    ensures forall i :: |username| <= i < 16 ==> Cycle(username, 16)[i] == Cycle(username, 16)[i - |username|]
  {
    var n := |username|;
    forall i | 0 <= i < n ensures Cycle(username, 16)[i] == username[i] {
      DivModUnique(i, n, 0, i);
    }
    forall i | n <= i < 16 ensures Cycle(username, 16)[i] == Cycle(username, 16)[i - n] {
      DivModUnique(i, n, (i - n) / n + 1, (i - n) % n);
    }
  }

  /** The position of the last `c` in `s`, -1 when there is none (String.lastIndexOf). */
  function LastIndexOf(s: string, c: char): (k: int)
    ensures -1 <= k < |s|
    ensures k == -1 <==> c !in s
    ensures k >= 0 ==> s[k] == c && c !in s[k + 1..]
  {
    if s == [] then -1
    else if s[|s| - 1] == c then |s| - 1
    else
      var k := LastIndexOf(s[..|s| - 1], c);
      assert s == s[..|s| - 1] + [s[|s| - 1]];
      assert k >= 0 ==> s[k + 1..] == s[..|s| - 1][k + 1..] + [s[|s| - 1]];
      k
  }

  /** The name a login shows for an invite: everything before the last '.', so "notes.txt.aes" shows as "notes.txt". */
  function ShownName(invite: string): (name: string)
    requires '.' in invite
    ensures |name| < |invite| && name + invite[|name|..] == invite
    ensures invite[|name|] == '.' && '.' !in invite[|name| + 1..]
  {
    invite[..LastIndexOf(invite, '.')]
  }

  /** One entry of the client's file cache. */
  datatype CacheEntry = CacheEntry(owner: string, version: int, lastModifier: string)

  /** The result of a login. */
  datatype Login =
    | LoginFailed                   // the server refused, or reading the key failed: caught and reported
    | LoggedIn(shown: seq<string>)  // the invite names shown
    | Aborted(shown: seq<string>)   // an invite name without '.' made substring throw after `shown` were printed

  /** What unlock and download hand to the cipher, or why they stop. */
  datatype Decryption =
    | Decrypt(iv: string)
    | NotInCache
    | NoKey
    | Diverges        // the last modifier is empty: usernameToIV never returns
    | Failed          // the download call failed or the signature was rejected
    | Thrown          // reading the key or decrypting threw, and the exception escaped

  class ClientLogic {
    /** "" until a login succeeds. */
    var username: string
    var cache: map<string, CacheEntry>

    /** `stored` is what fileCache.json held, empty when there was no such file. */
    constructor (stored: map<string, CacheEntry>)
      ensures username == "" && cache == stored
    {
      username := "";
      cache := stored;
    }

    /**
     * login: `reply` is the server's list of invite file names, None when the call
     * failed. The username is set before the names are shown; a name without a '.'
     * aborts the rest.
     */
    method Login(name: string, reply: Option<seq<string>>) returns (r: Login)
      modifies this`username
      ensures reply.None? ==> r == LoginFailed && username == old(username)
      ensures reply.Some? ==> username == name && !r.LoginFailed?
      ensures reply.Some? && r.LoggedIn? ==> |r.shown| == |reply.value|
      ensures reply.Some? && r.Aborted? ==> |r.shown| < |reply.value| && '.' !in reply.value[|r.shown|]
      ensures reply.Some? && !r.LoginFailed? ==>
                forall k :: 0 <= k < |r.shown| ==> '.' in reply.value[k] && r.shown[k] == ShownName(reply.value[k])
      ensures reply.Some? && (forall k :: 0 <= k < |reply.value| ==> '.' in reply.value[k]) ==> r.LoggedIn?
    {
      if reply.None? {
        return LoginFailed;
      }
      username := name;
      var invites := reply.value;
      var shown: seq<string> := [];
      var i := 0;
      while i < |invites|
        invariant 0 <= i <= |invites| && |shown| == i
        invariant forall k :: 0 <= k < i ==> '.' in invites[k] && shown[k] == ShownName(invites[k])
      {
        var dot := LastIndexOf(invites[i], '.');
        if dot < 0 {
          return Aborted(shown);
        }
        shown := shown + [invites[i][..dot]];
        i := i + 1;
      }
      r := LoggedIn(shown);
    }

    /**
     * The cache rules of upload. `found` says whether encrypting the local file
     * succeeded; `replyVersion` is the version the server returned, None when the
     * call failed. Returns the owner sent to the server, None when nothing was sent,
     * and the IV used, None when not logged in.
     */
    method Upload(fileName: string, found: bool, replyVersion: Option<int>) returns (owner: Option<string>, iv: Option<string>)
      modifies this`cache
      ensures username == "" ==> owner.None? && iv.None? && cache == old(cache)
      ensures username != "" && found ==> iv == Some(Cycle(username, 16))
      ensures username != "" && found ==>
                owner == Some(if fileName in old(cache) then old(cache)[fileName].owner else username)
      ensures !found || replyVersion.None? ==> cache == old(cache)
      ensures username != "" && found && replyVersion.Some? ==>
                cache == old(cache)[fileName :=
                  if fileName in old(cache)
                  then old(cache)[fileName].(version := replyVersion.value, lastModifier := username)
                  else CacheEntry(username, 1, username)]
    {
      var entry := if fileName in cache then Some(cache[fileName]) else None;
      if username == "" {
        return None, None;
      }
      var key := UsernameToIV(username);
      iv := Some(key);
      if !found {
        return None, iv;
      }
      var sentOwner := if entry.None? then username else entry.value.owner;
      owner := Some(sentOwner);
      if replyVersion.None? {
        return;
      }
      var updated := if entry.None? then CacheEntry(username, 1, username)
                     else entry.value.(version := replyVersion.value, lastModifier := username);
      cache := cache[fileName := updated];
    }

    /**
     * The cache rules of download. `keyReadable` says whether reading the key file
     * succeeds, before the call; `reply` is the server's verified answer: None when
     * the call failed, Some(None) when the signature check rejected it; `decrypted`
     * says whether the decryption succeeds. A failed key read or decryption escapes
     * download before the cache is touched.
     */
    method Download(fileName: string, keyExists: bool, keyReadable: bool, reply: Option<Option<CacheEntry>>,
                    decrypted: bool) returns (r: Decryption)
      modifies this`cache
      ensures !keyExists ==> r == NoKey && cache == old(cache)
      ensures keyExists && !keyReadable ==> r == Thrown && cache == old(cache)
      ensures keyExists && keyReadable && (reply.None? || reply.value.None?) ==> r == Failed && cache == old(cache)
      ensures keyExists && keyReadable && reply.Some? && reply.value.Some? ==>
                var entry := reply.value.value;
                && (entry.lastModifier == "" ==> r == Diverges && cache == old(cache))
                && (entry.lastModifier != "" && !decrypted ==> r == Thrown && cache == old(cache))
                && (entry.lastModifier != "" && decrypted ==>
                      r == Decrypt(Cycle(entry.lastModifier, 16)) && cache == old(cache)[fileName := entry])
    {
      if !keyExists {
        return NoKey;
      }
      if !keyReadable {
        return Thrown;
      }
      if reply.None? || reply.value.None? {
        return Failed;
      }
      var entry := reply.value.value;
      if entry.lastModifier == "" {
        return Diverges;
      }
      var iv := UsernameToIV(entry.lastModifier);
      if !decrypted {
        return Thrown;
      }
      cache := cache[fileName := entry];
      r := Decrypt(iv);
    }

    /**
     * unlock: decrypts with the IV of the cached last modifier; changes nothing.
     * `keyReadable` says whether reading the key file succeeds; it is read before the
     * IV is derived, and a failure escapes unlock.
     */
    method Unlock(fileName: string, keyExists: bool, keyReadable: bool) returns (r: Decryption)
      ensures fileName !in cache ==> r == NotInCache
      ensures fileName in cache && !keyExists ==> r == NoKey
      ensures fileName in cache && keyExists && !keyReadable ==> r == Thrown
      ensures fileName in cache && keyExists && keyReadable && cache[fileName].lastModifier == "" ==> r == Diverges
      ensures fileName in cache && keyExists && keyReadable && cache[fileName].lastModifier != "" ==>
                r == Decrypt(Cycle(cache[fileName].lastModifier, 16))
    {
      if fileName !in cache {
        return NotInCache;
      }
      var lastModifier := cache[fileName].lastModifier;
      if !keyExists {
        return NoKey;
      }
      if !keyReadable {
        return Thrown;
      }
      if lastModifier == "" {
        return Diverges;
      }
      var iv := UsernameToIV(lastModifier);
      r := Decrypt(iv);
    }

    /**
     * A download whose decryption succeeds, followed by an unlock, decrypts with the
     * same IV both times: the one derived from the last modifier the server reported.
     */
    method DownloadThenUnlock(fileName: string, entry: CacheEntry) returns (first: Decryption, second: Decryption)
      requires entry.lastModifier != ""
      modifies this`cache
      ensures first == second == Decrypt(Cycle(entry.lastModifier, 16))
    {
      first := Download(fileName, true, true, Some(Some(entry)), true);
      second := Unlock(fileName, true, true);
    }

    /**
     * A download whose decryption fails leaves the cached entry, so the unlock after
     * it still uses the IV of the previously cached last modifier.
     */
    method FailedDownloadThenUnlock(fileName: string, entry: CacheEntry) returns (first: Decryption, second: Decryption)
      requires entry.lastModifier != ""
      requires fileName in cache && cache[fileName].lastModifier != ""
      modifies this`cache
      ensures cache == old(cache)
      ensures first == Thrown && second == Decrypt(Cycle(old(cache)[fileName].lastModifier, 16))
    {
      first := Download(fileName, true, true, Some(Some(entry)), false);
      second := Unlock(fileName, true, true);
    }
  }
}
