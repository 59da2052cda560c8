/** Identity mapping for Firebase ID tokens: reading the bearer token from the
    `Authorization` header, and finding, creating or refreshing the local user record a
    verified token names. Verifying a token is Firebase's business: it is a parameter
    (`verify`), returning the token's claims or nothing when the token is invalid,
    expired or cannot be checked. */
module FirebaseAuth {

  import opened Common
  import Slugs

  /** The claims of a verified token; `email` and `name` are "" when the token has none. */
  datatype Claims = Claims(uid: string, email: string, name: string)

  /** A local user record: the Firebase uid it is linked to (accounts created some other
      way have none), and the fields the mapping reads or writes. */
  datatype Account = Account(firebaseUid: Option<string>, email: string, username: string,
                             firstName: string, active: bool)

  /** ASCII lower-casing of a string. Only ASCII letters lower-case to the letters of
      "bearer", so this decides the comparison as `str.lower()` does. */
  function Lower(s: string): (t: string)
    ensures |t| == |s| && forall i | 0 <= i < |s| :: t[i] == LowerChar(s[i])
  {
    seq(|s|, i requires 0 <= i < |s| => LowerChar(s[i]))
  }

  function LowerBytes(s: seq<byte>): (t: seq<byte>)
    ensures |t| == |s| && forall i | 0 <= i < |s| :: t[i] == LowerByte(s[i])
  {
    seq(|s|, i requires 0 <= i < |s| => LowerByte(s[i]))
  }

  /** The middleware's header parsing: the header splits into exactly two words and the
      first is "bearer" in any case; the second is the token. An absent or empty header
      yields nothing. */
  function BearerToken(header: Option<string>): (token: Option<string>)
    ensures token.Some? ==> token.value != [] && forall i | 0 <= i < |token.value| :: !IsSpace(token.value[i])
  {
    if header.None? || header.value == "" then None
    else
      var parts := Words(header.value, IsSpace);
      if |parts| == 2 && Lower(parts[0]) == "bearer" then Some(parts[1]) else None
  }

  /** A token sent as "<scheme> <token>", the scheme being "bearer" in any case, is read
      back unchanged. */
  lemma BearerTokenRoundTrip(scheme: string, token: string)
    requires Lower(scheme) == "bearer"
    requires token != [] && forall i | 0 <= i < |token| :: !IsSpace(token[i])
    ensures BearerToken(Some(scheme + " " + token)) == Some(token)
  {
    assert forall i | 0 <= i < |scheme| :: !IsSpace(scheme[i]) by {
      forall i | 0 <= i < |scheme| ensures !IsSpace(scheme[i]) {
        assert Lower(scheme)[i] == LowerChar(scheme[i]);
      }
    }
    WordsOfPair(scheme, ' ', token, IsSpace);
    assert scheme + " " + token == scheme + [' '] + token;
  }

  /** A header of any other shape (one word, three words, another scheme) yields
      nothing. */
  lemma BearerTokenNeedsTwoWords(header: string)
    requires |Words(header, IsSpace)| != 2
    ensures BearerToken(Some(header)) == None
  {
  }

  /** The bytes "bearer". */
  const BearerBytes: seq<byte> := [98, 101, 97, 114, 101, 114]

  /** What the API authentication decides for a request. */
  datatype Outcome =
    | NotAttempted                             // no credentials of this kind: the next scheme is tried
    | Authenticated(user: nat, token: string)
    | Failed(message: string)                  // a 401 response

  /** The header parsing of the API authentication, on the raw header bytes: the token
      bytes, when the header splits on ASCII whitespace into exactly two words of which
      the first is "bearer" in any case. */
  function BearerBytesToken(header: seq<byte>): (token: Option<seq<byte>>)
    ensures token.Some? ==> token.value != [] && forall i | 0 <= i < |token.value| :: !IsSpaceByte(token.value[i])
  {
    if header == [] then None
    else
      var parts := Words(header, IsSpaceByte);
      if |parts| == 2 && LowerBytes(parts[0]) == BearerBytes then Some(parts[1]) else None
  }

  lemma BearerBytesRoundTrip(scheme: seq<byte>, token: seq<byte>)
    requires LowerBytes(scheme) == BearerBytes
    requires token != [] && forall i | 0 <= i < |token| :: !IsSpaceByte(token[i])
    ensures BearerBytesToken(scheme + [32] + token) == Some(token)
  {
    assert forall i | 0 <= i < |scheme| :: !IsSpaceByte(scheme[i]) by {
      forall i | 0 <= i < |scheme| ensures !IsSpaceByte(scheme[i]) {
        assert LowerBytes(scheme)[i] == LowerByte(scheme[i]);
      }
    }
    WordsOfPair(scheme, 32 as byte, token, IsSpaceByte);
  }

  /** The usernames of all accounts. */
  function Usernames(accounts: seq<Account>): (column: seq<string>)
    ensures |column| == |accounts| && forall i | 0 <= i < |accounts| :: column[i] == accounts[i].username
  {
    seq(|accounts|, i requires 0 <= i < |accounts| => accounts[i].username)
  }

  /** No two accounts are linked to the same Firebase uid. */
  predicate UidsUnique(accounts: seq<Account>)
  {
    forall i, j | 0 <= i < |accounts| && 0 <= j < |accounts| && i != j ::
      accounts[i].firebaseUid.Some? ==> accounts[i].firebaseUid != accounts[j].firebaseUid
  }

  /** The accounts linked to `uid`, in id order. */
  function Holders(accounts: seq<Account>, uid: string): (ids: seq<nat>)
    ensures forall k: nat :: k in ids <==> k < |accounts| && accounts[k].firebaseUid == Some(uid)
    ensures forall i | 0 <= i < |ids| :: ids[i] < |accounts| && accounts[ids[i]].firebaseUid == Some(uid)
    ensures forall i, j | 0 <= i < j < |ids| :: ids[i] < ids[j]
  {
    var ids := Select(accounts, (a: Account) => a.firebaseUid == Some(uid));
    assert forall i | 0 <= i < |ids| :: ids[i] in ids;
    ids
  }

  /** With unique uids a uid is held by at most one account. */
  lemma HoldersOfUniqueUid(accounts: seq<Account>, uid: string)
    ensures UidsUnique(accounts) ==> |Holders(accounts, uid)| <= 1
  {
    var ids := Holders(accounts, uid);
    if |ids| >= 2 {
      assert ids[0] in ids && ids[1] in ids;
      assert accounts[ids[0]].firebaseUid == accounts[ids[1]].firebaseUid;
    }
  }

  /** The profile refresh of an existing account: the email follows the token when the
      token has a different, non-empty one; the first name is filled from the token only
      while it is empty. Also says whether anything changed (the record is saved only
      then). */
  function SyncProfile(a: Account, c: Claims): (r: (Account, bool))
    ensures r.0.username == a.username && r.0.firebaseUid == a.firebaseUid && r.0.active == a.active
    ensures r.0.email == (if c.email != "" then c.email else a.email)
    ensures a.firstName != "" ==> r.0.firstName == a.firstName
    ensures a.firstName == "" ==> r.0.firstName == c.name
    ensures r.1 <==> r.0 != a
  {
    var a1 := if a.email != c.email && c.email != "" then a.(email := c.email) else a;
    var a2 := if a1.firstName == "" && c.name != "" then a1.(firstName := c.name) else a1;
    (a2, a2 != a)
  }

  /** Refreshing twice from the same token changes nothing the second time. */
  lemma SyncProfileSettles(a: Account, c: Claims)
    ensures SyncProfile(SyncProfile(a, c).0, c) == (SyncProfile(a, c).0, false)
  {
  }

  /** The user table. */
  class Directory {
    var accounts: seq<Account>

    /** Usernames are unique (a database constraint) and no uid is linked twice. */
    ghost predicate Valid()
      reads this
    {
      Slugs.Distinct(Usernames(accounts)) && UidsUnique(accounts)
    }

    constructor()
      ensures accounts == [] && Valid()
    {
      accounts := [];
    }

    /** `_authenticate_token`: nothing when Firebase is not initialised or the token does
        not verify. A uid held by one account refreshes and returns it; a uid held by
        several is an error and yields nothing; an unknown uid gets a new active account
        whose username is the email (the uid when there is none), made unique by the
        first free `_1`, `_2`, ... suffix. */
    method AuthenticateToken(token: string, initialized: bool, verify: string -> Option<Claims>)
      returns (user: Option<nat>)
      modifies this
      ensures !initialized || verify(token).None? ==> user.None? && accounts == old(accounts)
      ensures initialized && verify(token).Some? ==>
                var c := verify(token).value;
                var holders := Holders(old(accounts), c.uid);
                if |holders| >= 2 then user.None? && accounts == old(accounts)
                else if |holders| == 1 then
                  user == Some(holders[0])
                  && accounts == old(accounts)[holders[0] := SyncProfile(old(accounts)[holders[0]], c).0]
                else
                  user == Some(|old(accounts)|)
                  && |accounts| == |old(accounts)| + 1 && accounts[..|old(accounts)|] == old(accounts)
                  && accounts[|old(accounts)|].firebaseUid == Some(c.uid)
                  && accounts[|old(accounts)|].email == c.email
                  && accounts[|old(accounts)|].firstName == c.name
                  && accounts[|old(accounts)|].active
                  && Slugs.SmallestFree(if c.email != "" then c.email else c.uid, '_',
                                        Slugs.TakenBy(Usernames(old(accounts)), ""),
                                        accounts[|old(accounts)|].username)
      ensures user.Some? ==> user.value < |accounts| && initialized && verify(token).Some?
                             && accounts[user.value].firebaseUid == Some(verify(token).value.uid)
      ensures old(Valid()) && initialized && verify(token).Some? ==> user.Some?
      ensures old(Valid()) ==> Valid()
    {
      if !initialized {
        return None;
      }
      var claims := verify(token);
      if claims.None? {
        return None;
      }
      var c := claims.value;
      var holders := Holders(accounts, c.uid);
      HoldersOfUniqueUid(accounts, c.uid);
      if |holders| >= 2 {
        return None;
      }
      if |holders| == 1 {
        var k := holders[0];
        var synced := SyncProfile(accounts[k], c);
        if synced.1 {
          SyncKeepsValid(accounts, k, c);
          accounts := accounts[k := synced.0];
        }
        return Some(k);
      }
      var base := if c.email != "" then c.email else c.uid;
      var username := Slugs.Allocate(base, '_', Slugs.TakenBy(Usernames(accounts), ""));
      var created := Account(Some(c.uid), c.email, username, c.name, true);
      CreateKeepsValid(accounts, created, base);
      user := Some(|accounts|);
      accounts := accounts + [created];
    }
  }

  /** Refreshing a profile keeps usernames and uids, so the table stays valid. */
  lemma SyncKeepsValid(accounts: seq<Account>, k: nat, c: Claims)
    requires k < |accounts|
    ensures var after := accounts[k := SyncProfile(accounts[k], c).0];
            Usernames(after) == Usernames(accounts)
            && (UidsUnique(accounts) ==> UidsUnique(after))
  {
    var after := accounts[k := SyncProfile(accounts[k], c).0];
    assert forall i | 0 <= i < |after| :: after[i].firebaseUid == accounts[i].firebaseUid;
  }

  /** A new account for an unlinked uid, under the first free username, keeps the table
      valid. */
  lemma CreateKeepsValid(accounts: seq<Account>, a: Account, base: string)
    requires a.firebaseUid.Some? && |Holders(accounts, a.firebaseUid.value)| == 0
    requires Slugs.SmallestFree(base, '_', Slugs.TakenBy(Usernames(accounts), ""), a.username)
    ensures Slugs.Distinct(Usernames(accounts)) ==> Slugs.Distinct(Usernames(accounts + [a]))
    ensures UidsUnique(accounts) ==> UidsUnique(accounts + [a])
  {
    var after := accounts + [a];
    assert a.username !in Usernames(accounts);
    forall k | 0 <= k < |accounts| ensures accounts[k].firebaseUid != a.firebaseUid {
      assert k !in Holders(accounts, a.firebaseUid.value);
    }
    assert Usernames(after) == Usernames(accounts) + [a.username];
  }

  /** `FirebaseAuthenticationBackend.authenticate`: no token, no user; otherwise the token
      is authenticated. */
  method BackendAuthenticate(dir: Directory, firebaseToken: Option<string>, initialized: bool,
                             verify: string -> Option<Claims>)
    returns (user: Option<nat>)
    modifies dir
    ensures firebaseToken.None? || firebaseToken.value == "" ==> user.None? && dir.accounts == old(dir.accounts)
    ensures !initialized || (firebaseToken.Some? && verify(firebaseToken.value).None?) ==>
              user.None? && dir.accounts == old(dir.accounts)
    ensures user.Some? ==> firebaseToken.Some? && verify(firebaseToken.value).Some? && user.value < |dir.accounts|
                           && dir.accounts[user.value].firebaseUid == Some(verify(firebaseToken.value).value.uid)
    ensures (old(dir.Valid()) && firebaseToken.Some? && firebaseToken.value != "" && initialized
             && verify(firebaseToken.value).Some?) ==> user.Some?
    ensures old(dir.Valid()) ==> dir.Valid()
  {
    if firebaseToken.None? || firebaseToken.value == "" {
      return None;
    }
    user := dir.AuthenticateToken(firebaseToken.value, initialized, verify);
  }

  /** `FirebaseAuthenticationMiddleware.process_request`: a request that already has an
      authenticated user is left alone; otherwise a well-formed bearer header that
      authenticates sets the request's user, and anything else leaves it anonymous. */
  method ProcessRequest(dir: Directory, current: Option<nat>, header: Option<string>, initialized: bool,
                        verify: string -> Option<Claims>)
    returns (user: Option<nat>)
    modifies dir
    ensures current.Some? ==> user == current && dir.accounts == old(dir.accounts)
    ensures current.None? && BearerToken(header).None? ==> user.None? && dir.accounts == old(dir.accounts)
    ensures current.None? && user.Some? ==>
              && BearerToken(header).Some? && verify(BearerToken(header).value).Some? && user.value < |dir.accounts|
              && dir.accounts[user.value].firebaseUid == Some(verify(BearerToken(header).value).value.uid)
    ensures current.None? && BearerToken(header).Some? && (!initialized || verify(BearerToken(header).value).None?) ==>
              user.None? && dir.accounts == old(dir.accounts)
    ensures (current.None? && BearerToken(header).Some? && initialized && verify(BearerToken(header).value).Some?
             && old(dir.Valid())) ==> user.Some?
    ensures old(dir.Valid()) ==> dir.Valid()
  {
    if current.Some? {
      return current;
    }
    var token := BearerToken(header);
    if token.None? {
      return None;
    }
    user := dir.AuthenticateToken(token.value, initialized, verify);
  }

  /** `authenticate_credentials` as written: its own refusal is raised inside the `try`
      whose catch-all turns every error into a generic one, so a token that yields no
      user is always refused as 'Firebase authentication failed.'. */
  method AuthenticateCredentialsAsWritten(dir: Directory, token: string, initialized: bool,
                                          verify: string -> Option<Claims>)
    returns (r: Outcome)
    modifies dir
    ensures r.Authenticated? || r == Failed("Firebase authentication failed.")
    ensures r != Failed("Invalid or expired Firebase ID token.")
    ensures r.Authenticated? ==> r.token == token && r.user < |dir.accounts|
    ensures !initialized ==> r == Failed("Firebase authentication failed.")
    ensures old(dir.Valid()) ==> dir.Valid()
  {
    var user := dir.AuthenticateToken(token, initialized, verify);
    if user.None? {
      // The refusal with its own message is caught and replaced.
      return Failed("Firebase authentication failed.");
    }
    return Authenticated(user.value, token);
  }

  /** `authenticate_credentials` as intended: a token that yields no user is refused with
      the message written for that case. */
  method AuthenticateCredentials(dir: Directory, token: string, initialized: bool,
                                 verify: string -> Option<Claims>)
    returns (r: Outcome)
    modifies dir
    ensures r.Authenticated? || r == Failed("Invalid or expired Firebase ID token.")
    ensures r.Authenticated? ==> r.token == token && r.user < |dir.accounts|
    ensures !initialized || verify(token).None? ==> r == Failed("Invalid or expired Firebase ID token.")
    ensures old(dir.Valid()) && initialized && verify(token).Some? ==> r.Authenticated?
    ensures old(dir.Valid()) ==> dir.Valid()
  {
    if initialized && verify(token).Some? {
      HoldersOfUniqueUid(dir.accounts, verify(token).value.uid);
    }
    var user := dir.AuthenticateToken(token, initialized, verify);
    if user.None? {
      return Failed("Invalid or expired Firebase ID token.");
    }
    return Authenticated(user.value, token);
  }

  /** `FirebaseAuthentication.authenticate`: no attempt without a bearer header; a token
      whose bytes are not UTF-8 is refused; otherwise the credentials are checked.
      `decode` is UTF-8 decoding, nothing for invalid bytes. */
  method AuthenticateRequest(dir: Directory, header: seq<byte>, initialized: bool,
                             verify: string -> Option<Claims>, decode: seq<byte> -> Option<string>)
    returns (r: Outcome)
    modifies dir
    ensures BearerBytesToken(header).None? ==> r == NotAttempted && dir.accounts == old(dir.accounts)
    ensures BearerBytesToken(header).Some? && decode(BearerBytesToken(header).value).None? ==>
              r == Failed("Invalid token header. Token string should not contain invalid characters.")
              && dir.accounts == old(dir.accounts)
    ensures r.Authenticated? ==>
              (BearerBytesToken(header).Some? && decode(BearerBytesToken(header).value) == Some(r.token))
    ensures BearerBytesToken(header).Some? && decode(BearerBytesToken(header).value).Some? ==>
              var token := decode(BearerBytesToken(header).value).value;
              && (r.Authenticated? || r == Failed("Invalid or expired Firebase ID token."))
              && (!initialized || verify(token).None? ==> r == Failed("Invalid or expired Firebase ID token."))
              && (old(dir.Valid()) && initialized && verify(token).Some? ==> r.Authenticated?)
    ensures old(dir.Valid()) ==> dir.Valid()
  {
    var raw := BearerBytesToken(header);
    if raw.None? {
      return NotAttempted;
    }
    var token := decode(raw.value);
    if token.None? {
      return Failed("Invalid token header. Token string should not contain invalid characters.");
    }
    r := AuthenticateCredentials(dir, token.value, initialized, verify);
  }
}
