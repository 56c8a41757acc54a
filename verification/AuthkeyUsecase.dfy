/** internal/usecase/authkey_usecase.go: an issued authkey is remembered until it expires. */
module AuthkeyUsecase {
  import opened Basics
  import opened Db
  import opened Backend
  import opened ArtifactSpec
  import opened ArtifactRepo
  import opened Runs
  import CacheKeys
  import CredentialRepo

  datatype KeyOutput = KeyOutput(authKey: string, expiresAt: int)

  /** The upstream client's answer to IssueAuthKey: the key and its lifetime in seconds. */
  type IssueReply = Result<(string, int), string>

  function DecryptString(blob: Blob): Option<string> {
    if blob.Sealed? then Some(blob.cookies) else None
  }

  /** The credential's blob was sealed from these cookies. */
  predicate Opens(c: Cred, cookies: string) {
    c.blob.Sealed? && c.blob.cookies == cookies
  }

  /** What a read of the remembered key at time `at` answers, when nothing fails. */
  function Remembered(prefix: string, w: World, b: uint64, player: string, at: int): Option<Artifact> {
    Through(w.cache, CacheKeys.KeyByBinding(prefix, b, AUTHKEY, player), ReadRow(w.t.artifacts, AuthKey(b, player), at), at)
  }

  /** The account's credential has an authkey row for the player that is still good at time `now`. */
  predicate HasLiveKey(w: World, c: Cred, player: string, now: int) {
    AuthKey(c.binding, player) in w.t.artifacts && now < w.t.artifacts[AuthKey(c.binding, player)].expiresAt
  }

  function KeyRow(w: World, c: Cred, player: string): KeyOutput
    requires AuthKey(c.binding, player) in w.t.artifacts
  {
    KeyOutput(w.t.artifacts[AuthKey(c.binding, player)].value, w.t.artifacts[AuthKey(c.binding, player)].expiresAt)
  }

  /**
  GetAuthKey: one step of a run, whatever fails. Without faults the result is fixed by the
  credential, by what is remembered at the moment of the lookup, and by the client's reply. In
  reachable states a live row is what every request is given, whatever the reply.
  */
  method GetAuthKey(s: Storage, acct: string, player: string, reply: IssueReply)
    returns (r: Result<KeyOutput, Failure>, ghost e: Event, ghost at: int)
    requires s.Valid()
    modifies s`faults, s`now, s`artifacts, s`cache, s`issued
    ensures s.Valid() && s.faults >= old(s.faults) && old(s.now) <= at <= s.now
    ensures Next(s.prefix, old(Snap(s)), e, Snap(s))
    ensures r.Ok? ==> (e.KeyServed? || e.KeyIssued?) && e.acct == acct && e.player == player
    ensures r.Ok? ==> r.value == if e.KeyServed? then KeyOutput(e.a.value, e.a.expiresAt) else KeyOutput(e.authKey, e.expiresAt)
    ensures e.KeyServed? ==> r.Ok? && e.at == at
    ensures e.KeyIssued? ==> r.Ok? && reply.Ok? && r.value.authKey == reply.value.0
                             && at + reply.value.1 <= r.value.expiresAt <= s.now + reply.value.1
    ensures r.Err? ==> e == Idle || e.KeyLost?
    ensures s.faults == old(s.faults) && r.Err? ==> e == Idle
    ensures s.faults == old(s.faults) ==>
              match CredentialRepo.FindByAccount(old(s.creds), acct)
              case None => r == Err(CredentialNotFound)
              case Some(c) =>
                if !c.blob.Sealed? then r == Err(DecryptFailed)
                else Resolved(Remembered(s.prefix, old(Snap(s)), c.binding, player, at), reply, r, e)
    ensures CredentialRepo.FindByAccount(old(s.creds), acct).None? ==> r.Err? && e == Idle
    ensures Inv(s.prefix, old(Snap(s))) && CredentialRepo.FindByAccount(old(s.creds), acct).Some? ==>
              var c := CredentialRepo.FindByAccount(old(s.creds), acct).value;
              HasLiveKey(old(Snap(s)), c, player, s.now) ==>
                && (r.Ok? ==> e.KeyServed? && r.value == KeyRow(old(Snap(s)), c, player))
                && (s.faults == old(s.faults) ==> r.Ok?)
    // in reachable states: a served key has not expired, a missing or expired key is issued anew, and whatever
    // key is returned was issued for the cookies of the account's credential
    ensures Inv(s.prefix, old(Snap(s))) && e.KeyServed? ==> at < r.value.expiresAt
    ensures Inv(s.prefix, old(Snap(s))) && s.faults == old(s.faults) && reply.Ok?
            && CredentialRepo.FindByAccount(old(s.creds), acct).Some? ==>
              var c := CredentialRepo.FindByAccount(old(s.creds), acct).value;
              !HasLiveRow(old(s.artifacts), c.binding, "authkey", player, old(s.now)) ==> e.KeyIssued?
    ensures Inv(s.prefix, old(Snap(s))) && r.Ok? ==>
              exists b <- old(s.creds) :: old(s.creds)[b].acct == acct && old(s.creds)[b].blob.Sealed? &&
                Issue(old(s.creds)[b].blob.cookies, player, r.value.authKey) in s.issued
  {
    ghost var w := Snap(s);
    r, e, at := Err(CredentialNotFound), Idle, s.now;
    var found := CredentialRepo.GetByPlatformAccountID(s, acct);
    if found.Err? {
      r := Err(found.error);
    } else if found.value.Some? {
      var cookies := DecryptString(found.value.value.blob);
      if cookies.Some? {
        r, e, at := ServeOrIssue(s, found.value.value, cookies.value, acct, player, reply, w);
        LiveKeyIsServed(s.prefix, w, e, Snap(s), found.value.value, acct, player, at);
        if Inv(s.prefix, w) {
          ReturnedKey(s.prefix, w, e, Snap(s), found.value.value, acct, player, at);
        }
        return;
      }
      r := Err(DecryptFailed);
    }
    IdleStep(s.prefix, w, Snap(s));
  }

  /** A remembered key is served; otherwise the client's key is issued, or its error reported. */
  predicate Resolved(remembered: Option<Artifact>, reply: IssueReply, r: Result<KeyOutput, Failure>, e: Event) {
    match remembered
    case Some(a) => e.KeyServed? && e.a == a && r == Ok(KeyOutput(a.value, a.expiresAt))
    case None =>
      match reply
      case Ok(key) => e.KeyIssued? && r == Ok(KeyOutput(key.0, e.expiresAt))
      case Err(message) => r == Err(Upstream(message))
  }

  /** In a reachable state a live row is remembered, and no request is answered otherwise. */
  lemma LiveKeyIsServed(prefix: string, w: World, e: Event, w': World, c: Cred, acct: string, player: string, at: int)
    requires Next(prefix, w, e, w') && w.now <= at <= w'.now
    requires (e.KeyServed? || e.KeyIssued? || e.KeyLost?) ==> e.b == c.binding && e.player == player
    ensures Inv(prefix, w) && HasLiveKey(w, c, player, w'.now) ==>
              && (e.KeyServed? ==> KeyOutput(e.a.value, e.a.expiresAt) == KeyRow(w, c, player)) && !e.KeyIssued?
              && Remembered(prefix, w, c.binding, player, at).Some?
  {
    if Inv(prefix, w) && HasLiveKey(w, c, player, w'.now) {
      if e.KeyServed? || e.KeyIssued? || e.KeyLost? {
        StoredKeyIsServed(prefix, w, e, w', c.binding, player);
      }
      AnswerIsStored(prefix, w, c.binding, player, at, Remembered(prefix, w, c.binding, player, at));
    }
  }

  lemma ReturnedKey(prefix: string, w: World, e: Event, w': World, c: Cred, acct: string, player: string, at: int)
    requires Inv(prefix, w) && Next(prefix, w, e, w') && w.now <= at
    requires Owns(w.t.creds, c.binding, acct) && w.t.creds[c.binding] == c
    requires e.KeyServed? || e.KeyIssued? || e.KeyLost? ==> e.b == c.binding && e.player == player && e.at == at
    ensures e.KeyServed? ==> at < e.a.expiresAt
    ensures !HasLiveRow(w.t.artifacts, c.binding, AUTHKEY, player, w.now) ==> Remembered(prefix, w, c.binding, player, at) == None
    ensures e.KeyServed? || e.KeyIssued? ==>
              c.blob.Sealed? && Issue(c.blob.cookies, player, if e.KeyServed? then e.a.value else e.authKey) in w'.issued
  {
    ReadByBindingMeans(w.t.artifacts, c.binding, AUTHKEY, player, at);
    AnswerIsStored(prefix, w, c.binding, player, at, Remembered(prefix, w, c.binding, player, at));
    if e.KeyServed? {
      AnswerIsStored(prefix, w, c.binding, player, at, Some(e.a));
    }
    if e.KeyServed? || e.KeyIssued? {
      HandedOutKeysAreFresh(prefix, w, e, w');
    }
  }

  /** How a request for a key of this player ends: with the event that gave the result. */
  predicate Ends(b: uint64, acct: string, player: string, reply: IssueReply, at: int, now: int,
                 r: Result<KeyOutput, Failure>, e: Event)
  {
    && (e.KeyServed? || e.KeyIssued? || e.KeyLost? ==> e.b == b && e.acct == acct && e.player == player && e.at == at)
    && (if r.Err? then e == Idle || e.KeyLost? else e.KeyServed? || e.KeyIssued?)
    && (r.Ok? ==> r.value == if e.KeyServed? then KeyOutput(e.a.value, e.a.expiresAt) else KeyOutput(e.authKey, e.expiresAt))
    && (e.KeyServed? ==> r.Ok?)
    && (e.KeyIssued? ==> r.Ok? && reply.Ok? && e.authKey == reply.value.0 && at + reply.value.1 <= e.expiresAt <= now + reply.value.1)
  }

  /** With the account's credential at hand: the remembered key, or else a new one. */
  method ServeOrIssue(s: Storage, credential: Cred, cookies: string, acct: string, player: string, reply: IssueReply, ghost w: World)
    returns (r: Result<KeyOutput, Failure>, ghost e: Event, ghost at: int)
    requires s.Valid() && Snap(s) == w
    requires Owns(w.t.creds, credential.binding, acct) && w.t.creds[credential.binding] == credential && Opens(credential, cookies)
    modifies s`faults, s`now, s`artifacts, s`cache, s`issued
    ensures s.Valid() && s.faults >= old(s.faults) && w.now <= at <= s.now
    ensures Next(s.prefix, w, e, Snap(s))
    ensures Ends(credential.binding, acct, player, reply, at, s.now, r, e)
    ensures s.faults == old(s.faults) && r.Err? ==> e == Idle
    ensures s.faults == old(s.faults) ==> Resolved(Remembered(s.prefix, w, credential.binding, player, at), reply, r, e)
  {
    var artifact;
    artifact, at := LookUp(s, credential.binding, player, w);
    if artifact.Err? {
      IdleStep(s.prefix, w, Snap(s));
      return Err(artifact.error), Idle, at;
    }
    r, e := AnswerOrIssue(s, credential, cookies, acct, player, reply, artifact.value, at, w);
  }

  method AnswerOrIssue(s: Storage, credential: Cred, cookies: string, acct: string, player: string, reply: IssueReply,
                       remembered: Option<Artifact>, ghost at: int, ghost w: World)
    returns (r: Result<KeyOutput, Failure>, ghost e: Event)
    requires s.Valid() && Opens(credential, cookies)
    requires Owns(w.t.creds, credential.binding, acct) && w.t.creds[credential.binding] == credential
    requires Answers(s.prefix, w, credential.binding, player, at, remembered) && w.now <= at <= s.now
    requires Snap(s) == w.(now := s.now, cache := s.cache) && CacheWithin(s.prefix, w.t.artifacts, w.cache, s.cache)
    requires remembered == None ==> s.cache == w.cache
    modifies s`faults, s`now, s`artifacts, s`cache, s`issued
    ensures s.Valid() && s.faults >= old(s.faults) && s.now >= old(s.now)
    ensures Next(s.prefix, w, e, Snap(s))
    ensures Ends(credential.binding, acct, player, reply, at, s.now, r, e)
    ensures s.faults == old(s.faults) && r.Err? ==> e == Idle
    ensures s.faults == old(s.faults) ==> Resolved(remembered, reply, r, e)
  {
    if remembered.Some? {
      var a := remembered.value;
      ServedStep(s.prefix, w, Snap(s), credential.binding, acct, player, a, at);
      return Ok(KeyOutput(a.value, a.expiresAt)), KeyServed(credential.binding, acct, player, a, at);
    }
    if reply.Err? {
      IdleStep(s.prefix, w, Snap(s));
      return Err(Upstream(reply.error)), Idle;
    }
    r, e := IssueAndStore(s, credential, cookies, acct, player, reply.value.0, reply.value.1, at, w);
  }

  /** The remembered key, as GetByBindingID answers it. */
  method LookUp(s: Storage, b: uint64, player: string, ghost w: World) returns (r: Result<Option<Artifact>, Failure>, ghost at: int)
    requires s.Valid() && Snap(s) == w
    modifies s`faults, s`now, s`cache
    ensures s.Valid() && s.faults >= old(s.faults) && w.now <= at <= s.now
    ensures r.Err? ==> s.faults > old(s.faults) && s.cache == w.cache
    ensures r.Ok? ==> Answers(s.prefix, w, b, player, at, r.value)
    ensures s.faults == old(s.faults) ==> r == Ok(Remembered(s.prefix, w, b, player, at))
    ensures CacheWithin(s.prefix, w.t.artifacts, w.cache, s.cache) && (r == Ok(None) ==> s.cache == w.cache)
  {
    var now;
    r, now := GetByBindingID(s, b, AUTHKEY, player);
    at := now;
  }

  method IssueAndStore(s: Storage, credential: Cred, cookies: string, acct: string, player: string, authKey: string, expiresInSeconds: int,
                       ghost at: int, ghost w: World)
    returns (r: Result<KeyOutput, Failure>, ghost e: Event)
    requires s.Valid() && Opens(credential, cookies)
    requires Owns(w.t.creds, credential.binding, acct) && w.t.creds[credential.binding] == credential
    requires Answers(s.prefix, w, credential.binding, player, at, None) && w.now <= at <= s.now
    requires Snap(s) == w.(now := s.now)
    modifies s`faults, s`now, s`artifacts, s`cache, s`issued
    ensures s.Valid() && s.faults >= old(s.faults) && s.now >= old(s.now)
    ensures Next(s.prefix, w, e, Snap(s))
    ensures if r.Err? then e.KeyLost?
            else e.KeyIssued? && r.value == KeyOutput(e.authKey, e.expiresAt)
    ensures e.b == credential.binding && e.acct == acct && e.player == player && e.at == at
    ensures e.KeyIssued? ==> e.authKey == authKey && at + expiresInSeconds <= e.expiresAt <= s.now + expiresInSeconds
    ensures r.Err? ==> s.faults > old(s.faults)
  {
    s.issued := s.issued + {Issue(cookies, player, authKey)};
    var issuedAt := s.Clock();
    var expiresAt := issuedAt + expiresInSeconds;
    var failure, stored := StoreKey(s, Artifact(credential.binding, acct, AUTHKEY, authKey, player, expiresAt));
    IssuedStep(s.prefix, w, Snap(s), credential.binding, acct, player, authKey, expiresAt, at, stored, failure.None?);
    e := IssueEvent(credential.binding, acct, player, authKey, expiresAt, at, stored, failure.None?);
    r := if failure.Some? then Err(failure.value) else Ok(KeyOutput(authKey, expiresAt));
  }

  /** Put, and whether the row was stored. */
  method StoreKey(s: Storage, a: Artifact) returns (failure: Option<Failure>, ghost stored: bool)
    requires s.Valid()
    modifies s`faults, s`now, s`artifacts, s`cache
    ensures s.Valid() && s.faults >= old(s.faults) && s.now >= old(s.now)
    ensures failure.Some? ==> s.faults > old(s.faults)
    ensures failure.None? ==> stored
    ensures s.artifacts == if stored then old(s.artifacts)[KeyOf(a) := RowOf(a)] else old(s.artifacts)
    ensures CacheWithin(s.prefix, s.artifacts, old(s.cache), s.cache)
  {
    failure := Put(s, a);
    stored := failure.None? || s.artifacts != old(s.artifacts);
  }
}
