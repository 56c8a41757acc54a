/** internal/usecase/status_usecase.go: revalidating a stored credential. */
module StatusUsecase {
  import opened Basics
  import opened Db
  import opened Backend
  import opened Runs
  import BindSpec
  import CredentialRepo
  import AuthkeyUsecase

  datatype CredentialStatus = Active | Expired | Invalid | ChallengeRequired | Unspecified

  function ToCredentialStatus(status: string): CredentialStatus {
    match status
    case "active" => Active
    case "expired" => Expired
    case "invalid" => Invalid
    case "challenge_required" => ChallengeRequired
    case _ => Unspecified
  }

  /** The status is the one that the stored text spells. */
  predicate Says(status: CredentialStatus, text: string) {
    match status
    case Active => text == "active"
    case Expired => text == "expired"
    case Invalid => text == "invalid"
    case ChallengeRequired => text == "challenge_required"
    case Unspecified => text !in {"active", "expired", "invalid", "challenge_required"}
  }

  lemma SaysText(text: string)
    ensures Says(ToCredentialStatus(text), text)
  {
  }

  /**
  Go's lower case, as far as a search for ASCII words can tell: the only characters outside
  ASCII with a lower case inside it are the dotted capital I and the Kelvin sign.
  */
  function LowerChar(c: char): char {
    if 'A' <= c <= 'Z' then (c as int + 32) as char
    else if c == '\U{0130}' then 'i'
    else if c == '\U{212A}' then 'k'
    else c
  }

  function ToLower(s: string): string {
    seq(|s|, i requires 0 <= i < |s| => LowerChar(s[i]))
  }

  predicate Contains(s: string, part: string) {
    exists i | 0 <= i <= |s| :: part <= s[i..]
  }

  function ClassifyCredentialStatus(error: string): string {
    var message := ToLower(error);
    if Contains(message, "challenge") then "challenge_required"
    else if Contains(message, "expire") then "expired"
    else "invalid"
  }

  function ClassifyErrorCode(error: string): string {
    var message := ToLower(error);
    if Contains(message, "challenge") then "CHALLENGE_REQUIRED"
    else if Contains(message, "expire") then "CREDENTIAL_EXPIRED"
    else "INVALID_CREDENTIAL"
  }

  /** The character is this letter, in either case, or one of the two other characters that Go lower-cases to it. */
  predicate SpellsLetter(c: char, letter: char) {
    c == letter || ('a' <= letter <= 'z' && c as int == letter as int - 32)
    || (c == '\U{0130}' && letter == 'i') || (c == '\U{212A}' && letter == 'k')
  }

  predicate SpellsAt(s: string, i: nat, word: string) {
    i + |word| <= |s| && forall j :: 0 <= j < |word| ==> SpellsLetter(s[i + j], word[j])
  }

  /** The text mentions the word somewhere, in any case. */
  ghost predicate Mentions(s: string, word: string) {
    exists i :: SpellsAt(s, i, word)
  }

  predicate SmallLetters(word: string) {
    forall j :: 0 <= j < |word| ==> 'a' <= word[j] <= 'z'
  }

  lemma LowerSpells(c: char, letter: char)
    requires 'a' <= letter <= 'z'
    ensures LowerChar(c) == letter <==> SpellsLetter(c, letter)
  {
  }

  lemma ContainsAt(s: string, i: nat, word: string)
    requires SmallLetters(word) && i <= |s|
    ensures word <= ToLower(s)[i..] <==> SpellsAt(s, i, word)
  {
    var low := ToLower(s);
    if i + |word| <= |s| {
      forall j | 0 <= j < |word| ensures low[i..][j] == word[j] <==> SpellsLetter(s[i + j], word[j]) {
        LowerSpells(s[i + j], word[j]);
      }
      if SpellsAt(s, i, word) {
        assert forall j :: 0 <= j < |word| ==> low[i..][j] == word[j];
        assert low[i..][..|word|] == word;
      }
      if word <= low[i..] {
        forall j | 0 <= j < |word| ensures SpellsLetter(s[i + j], word[j]) {
          assert low[i..][j] == word[j];
        }
      }
    }
  }

  lemma ContainsMeans(s: string, word: string)
    requires SmallLetters(word)
    ensures Contains(ToLower(s), word) <==> Mentions(s, word)
  {
    if Contains(ToLower(s), word) {
      var i :| 0 <= i <= |ToLower(s)| && word <= ToLower(s)[i..];
      ContainsAt(s, i, word);
    }
    if i: nat :| SpellsAt(s, i, word) {
      ContainsAt(s, i, word);
      assert word <= ToLower(s)[i..];
    }
  }

  /** A challenge goes before an expiry, and everything else is invalid. */
  ghost predicate Classified(error: string, status: CredentialStatus, errorCode: string) {
    if Mentions(error, "challenge") then status == ChallengeRequired && errorCode == "CHALLENGE_REQUIRED"
    else if Mentions(error, "expire") then status == Expired && errorCode == "CREDENTIAL_EXPIRED"
    else status == Invalid && errorCode == "INVALID_CREDENTIAL"
  }

  lemma ClassificationMeans(error: string)
    ensures Classified(error, ToCredentialStatus(ClassifyCredentialStatus(error)), ClassifyErrorCode(error))
  {
    ContainsMeans(error, "challenge");
    ContainsMeans(error, "expire");
  }

  /** The two classifications of an upstream error tell the caller and the table the same story. */
  lemma ClassificationsAgree(error: string)
    ensures var status := ToCredentialStatus(ClassifyCredentialStatus(error));
            && (status == ChallengeRequired <==> ClassifyErrorCode(error) == "CHALLENGE_REQUIRED")
            && (status == Expired <==> ClassifyErrorCode(error) == "CREDENTIAL_EXPIRED")
            && (status == Invalid <==> ClassifyErrorCode(error) == "INVALID_CREDENTIAL")
            && status in {ChallengeRequired, Expired, Invalid}
  {
  }

  /** The status and the error code of a validation say the same. */
  predicate SameStory(status: CredentialStatus, errorCode: string) {
    match status
    case Active => errorCode == ""
    case ChallengeRequired => errorCode == "CHALLENGE_REQUIRED"
    case Expired => errorCode == "CREDENTIAL_EXPIRED"
    case Invalid => errorCode == "INVALID_CREDENTIAL"
    case Unspecified => false
  }

  datatype Validation = Validation(status: CredentialStatus, errorCode: string, refreshedAt: Option<int>)

  /** The answer and the stored credential say what the client said. */
  ghost predicate Outcome(reply: Result<BindSpec.Discovery, string>, v: Validation, c: Cred) {
    && Says(v.status, c.status) && v.refreshedAt == c.refreshedAt
    && if reply.Ok? then v.status == Active && v.errorCode == "" else Classified(reply.error, v.status, v.errorCode)
  }

  lemma StoriesAgree(reply: Result<BindSpec.Discovery, string>, status: string, errorCode: string)
    requires status == if reply.Ok? then "active" else ClassifyCredentialStatus(reply.error)
    requires errorCode == if reply.Ok? then "" else ClassifyErrorCode(reply.error)
    ensures SameStory(ToCredentialStatus(status), errorCode) && (reply.Ok? <==> ToCredentialStatus(status) == Active)
  {
    if reply.Err? {
      ClassificationsAgree(reply.error);
    }
  }

  /** What a validation makes of a credential, and the error code it reports. */
  method Assess(credential: Cred, reply: Result<BindSpec.Discovery, string>, now: int, markRefreshed: bool)
    returns (c: Cred, errorCode: string)
    ensures Reassessed(credential, c) && c.validatedAt == Some(now)
    ensures c.status == if reply.Ok? then "active" else ClassifyCredentialStatus(reply.error)
    ensures errorCode == if reply.Ok? then "" else ClassifyErrorCode(reply.error)
    ensures c.refreshedAt == if reply.Ok? && markRefreshed then Some(now) else credential.refreshedAt
  {
    c := credential.(validatedAt := Some(now));
    if reply.Err? {
      c := c.(status := ClassifyCredentialStatus(reply.error));
      return c, ClassifyErrorCode(reply.error);
    }
    c := c.(status := "active");
    if markRefreshed {
      c := c.(refreshedAt := Some(now));
    }
    errorCode := "";
  }

  /** revalidate: saves the assessed credential; ReassessedFits shows that no unique key can refuse it. */
  method Revalidate(s: Storage, credential: Cred, reply: Result<BindSpec.Discovery, string>, markRefreshed: bool)
    returns (r: Result<Cred, Failure>, errorCode: string)
    requires s.Valid() && credential.binding in s.creds && s.creds[credential.binding] == credential
    modifies s`faults, s`now, s`creds
    ensures s.Valid() && s.faults >= old(s.faults) && s.now >= old(s.now)
    ensures s.creds == if r.Ok? then old(s.creds)[credential.binding := r.value] else old(s.creds)
    ensures s.faults > old(s.faults) ==> r == Err(StorageFault)
    ensures s.faults == old(s.faults) ==>
              if AuthkeyUsecase.DecryptString(credential.blob).None? then r == Err(DecryptFailed) else r.Ok?
    ensures r.Ok? ==> Reassessed(credential, r.value)
    ensures r.Ok? ==> r.value.validatedAt.Some? && old(s.now) <= r.value.validatedAt.value <= s.now
    ensures r.Ok? ==> r.value.status == if reply.Ok? then "active" else ClassifyCredentialStatus(reply.error)
    ensures r.Ok? ==> r.value.refreshedAt == if reply.Ok? && markRefreshed then r.value.validatedAt else credential.refreshedAt
    ensures r.Ok? ==> errorCode == if reply.Ok? then "" else ClassifyErrorCode(reply.error)
  {
    if AuthkeyUsecase.DecryptString(credential.blob).None? {
      return Err(DecryptFailed), "";
    }
    var now := s.Clock();
    var c;
    c, errorCode := Assess(credential, reply, now, markRefreshed);
    ReassessedFits(s.creds, c);
    var failure := CredentialRepo.Save(s, c);
    r := if failure.Some? then Err(failure.value) else Ok(c);
  }

  /**
  ValidateCredential and RefreshCredential: the stored credential changes in nothing but its
  status and times, and is marked refreshed exactly on a successful refresh.
  */
  method ValidateCredential(s: Storage, acct: string, reply: Result<BindSpec.Discovery, string>, markRefreshed: bool)
    returns (r: Result<Validation, Failure>, ghost e: Event)
    requires s.Valid()
    modifies s`faults, s`now, s`creds
    ensures s.Valid() && s.faults >= old(s.faults)
    ensures Next(s.prefix, old(Snap(s)), e, Snap(s))
    ensures r.Err? ==> e == Idle
    ensures r.Ok? ==> e.Revalidated? && e.c.acct == acct && e.c.binding in old(s.creds)
    ensures r.Ok? ==> e.c.status == if reply.Ok? then "active" else ClassifyCredentialStatus(reply.error)
    ensures r.Ok? ==> e.c.refreshedAt == if reply.Ok? && markRefreshed then e.c.validatedAt else old(s.creds)[e.c.binding].refreshedAt
    ensures r.Ok? ==> r.value == Validation(ToCredentialStatus(e.c.status),
                                            if reply.Ok? then "" else ClassifyErrorCode(reply.error), e.c.refreshedAt)
    ensures r.Ok? ==> SameStory(r.value.status, r.value.errorCode) && (reply.Ok? <==> r.value.status == Active)
    // what is stored and answered
    ensures r.Ok? ==> e.c.validatedAt.Some? && old(s.now) <= e.c.validatedAt.value <= s.now
    ensures r.Ok? ==> s.creds == old(s.creds)[e.c.binding := e.c] && Outcome(reply, r.value, e.c)
    ensures s.faults > old(s.faults) ==> r == Err(StorageFault)
    ensures s.faults == old(s.faults) ==>
              match CredentialRepo.FindByAccount(old(s.creds), acct)
              case None => r == Err(CredentialNotFound)
              case Some(c) => if c.blob.Sealed? then r.Ok? else r == Err(DecryptFailed)
  {
    ghost var w := Snap(s);
    var failure := CredentialNotFound;
    var found := CredentialRepo.GetByPlatformAccountID(s, acct);
    if found.Err? {
      failure := found.error;
    } else if found.value.Some? {
      r, e := RevalidateFound(s, found.value.value, reply, markRefreshed);
      return;
    }
    IdleStep(s.prefix, w, Snap(s));
    return Err(failure), Idle;
  }

  method RevalidateFound(s: Storage, credential: Cred, reply: Result<BindSpec.Discovery, string>, markRefreshed: bool)
    returns (r: Result<Validation, Failure>, ghost e: Event)
    requires s.Valid() && credential.binding in s.creds && s.creds[credential.binding] == credential
    modifies s`faults, s`now, s`creds
    ensures s.Valid() && s.faults >= old(s.faults)
    ensures Next(s.prefix, old(Snap(s)), e, Snap(s))
    ensures r.Err? ==> e == Idle
    ensures r.Ok? ==> e.Revalidated? && Reassessed(credential, e.c)
    ensures r.Ok? ==> e.c.validatedAt.Some? && old(s.now) <= e.c.validatedAt.value <= s.now
    ensures r.Ok? ==> s.creds == old(s.creds)[credential.binding := e.c]
    ensures r.Ok? ==> Outcome(reply, r.value, e.c)
    ensures r.Ok? ==> e.c.status == if reply.Ok? then "active" else ClassifyCredentialStatus(reply.error)
    ensures r.Ok? ==> e.c.refreshedAt == if reply.Ok? && markRefreshed then e.c.validatedAt else credential.refreshedAt
    ensures r.Ok? ==> r.value == Validation(ToCredentialStatus(e.c.status),
                                            if reply.Ok? then "" else ClassifyErrorCode(reply.error), e.c.refreshedAt)
    ensures r.Ok? ==> SameStory(r.value.status, r.value.errorCode) && (reply.Ok? <==> r.value.status == Active)
    ensures s.faults > old(s.faults) ==> r == Err(StorageFault)
    ensures s.faults == old(s.faults) ==> if credential.blob.Sealed? then r.Ok? else r == Err(DecryptFailed)
  {
    ghost var w := Snap(s);
    var c, errorCode := Revalidate(s, credential, reply, markRefreshed);
    if c.Ok? {
      StoriesAgree(reply, c.value.status, errorCode);
      if reply.Err? {
        ClassificationMeans(reply.error);
      }
      SaysText(c.value.status);
      RevalidatedStep(s.prefix, w, Snap(s), c.value);
      return Ok(Validation(ToCredentialStatus(c.value.status), errorCode, c.value.refreshedAt)), Revalidated(c.value);
    }
    IdleStep(s.prefix, w, Snap(s));
    return Err(c.error), Idle;
  }
}
