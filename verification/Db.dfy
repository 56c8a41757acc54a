/**
The four row tables, keyed by the unique key that the code names as its conflict target,
what the database itself enforces on them, and the agreement invariants that link the
by-account and the by-binding code paths.
*/
module Db {
  import opened Basics
  import opened AccountKey

  /** AES-GCM output: either sealed by this service, or text it cannot open. */
  datatype Blob = Sealed(nonce: string, cookies: string) | Foreign(raw: string)

  datatype Cred = Cred(binding: uint64, acct: string, platform: string, accountId: string, region: string,
                       blob: Blob, version: string, status: string,
                       validatedAt: Option<int>, refreshedAt: Option<int>, expiresAt: Option<int>)

  datatype DKey = DKey(binding: uint64, device: string)
  datatype Dev = Dev(id: nat, acct: string, fp: string, name: Option<string>, valid: bool, seenAt: Option<int>)

  datatype PKey = PKey(binding: uint64, player: string, region: string)
  datatype Prof = Prof(id: nat, acct: string, gameBiz: string, nickname: string, level: int,
                       isDefault: bool, discoveredAt: int)

  datatype AKey = AKey(binding: uint64, kind: string, scope: string)
  datatype Art = Art(acct: string, value: string, expiresAt: int)

  datatype Tables = Tables(creds: map<uint64, Cred>, devices: map<DKey, Dev>,
                           profiles: map<PKey, Prof>, artifacts: map<AKey, Art>)

  const EmptyTables := Tables(map[], map[], map[], map[])

  datatype Failure =
    | StorageFault
    | DuplicateKey
    | RecordNotFound
    | DefaultProfileAlreadyExists
    | BindingRequired
    | CredentialNotFound
    | ProfileNotFound
    | AccountMismatch
    | BindingScopeDenied
    | ProfileScopeDenied
    | InvalidAccountId
    | SealFailed
    | DecryptFailed
    | Upstream(message: string)

  // ---------- what the database enforces, whoever writes ----------

  /** uniq_platform_account_id and uniq_platform_account: no other row holds these values. */
  predicate CredFits(creds: map<uint64, Cred>, c: Cred) {
    forall b <- creds :: b != c.binding ==>
      creds[b].acct != c.acct && !(creds[b].platform == c.platform && creds[b].accountId == c.accountId)
  }

  predicate CredKeys(creds: map<uint64, Cred>) {
    && (forall b <- creds :: creds[b].binding == b)
    && (forall b <- creds :: CredFits(creds, creds[b]))
  }

  /** uniq_default_profile_per_binding. */
  predicate OneDefault(profiles: map<PKey, Prof>) {
    forall k <- profiles, l <- profiles {:trigger profiles[k].isDefault, profiles[l].isDefault} ::
      k.binding == l.binding && profiles[k].isDefault && profiles[l].isDefault ==> k == l
  }

  predicate DevIds(devices: map<DKey, Dev>, nextId: nat) {
    && (forall k <- devices :: devices[k].id < nextId)
    && (forall k <- devices, l <- devices {:trigger devices[k].id, devices[l].id} :: devices[k].id == devices[l].id ==> k == l)
  }

  predicate ProfIds(profiles: map<PKey, Prof>, nextId: nat) {
    && (forall k <- profiles :: profiles[k].id < nextId)
    && (forall k <- profiles, l <- profiles {:trigger profiles[k].id, profiles[l].id} :: profiles[k].id == profiles[l].id ==> k == l)
  }

  predicate DbOk(t: Tables, nextId: nat) {
    && CredKeys(t.creds)
    && OneDefault(t.profiles)
    && DevIds(t.devices, nextId)
    && ProfIds(t.profiles, nextId)
  }

  lemma IdsGrow(t: Tables, nextId: nat, next: nat)
    requires DbOk(t, nextId) && nextId <= next
    ensures DbOk(t, next)
  {
  }

  /** The rows of `t'` are rows of `t`. */
  ghost predicate Within(t': Tables, t: Tables) {
    && (forall b <- t'.creds :: b in t.creds && t'.creds[b] == t.creds[b])
    && (forall k <- t'.devices :: k in t.devices && t'.devices[k] == t.devices[k])
    && (forall k <- t'.profiles :: k in t.profiles && t'.profiles[k] == t.profiles[k])
  }

  lemma FewerRowsOk(t: Tables, t': Tables, nextId: nat)
    requires DbOk(t, nextId) && Within(t', t)
    ensures DbOk(t', nextId)
  {
    forall b | b in t'.creds ensures CredFits(t'.creds, t'.creds[b]) {
      assert CredFits(t.creds, t.creds[b]);
    }
  }

  // ---------- agreement ----------

  /** Binding ids as they can be parsed back from an account id. */
  predicate Names(acct: string, binding: uint64) {
    BindingIDFromPlatformAccountID(acct) == Some(binding) && binding != 0
  }

  predicate CredsNamed(creds: map<uint64, Cred>) {
    forall b <- creds :: creds[b].binding == b && Names(creds[b].acct, b)
  }

  predicate DevsNamed(devices: map<DKey, Dev>) {
    forall k <- devices :: Names(devices[k].acct, k.binding)
  }

  predicate ProfsNamed(profiles: map<PKey, Prof>) {
    forall k <- profiles :: Names(profiles[k].acct, k.binding)
  }

  predicate ArtsNamed(artifacts: map<AKey, Art>) {
    forall k <- artifacts :: Names(artifacts[k].acct, k.binding)
  }

  /** Every row's binding is the one its account id names. */
  predicate KeyAgree(t: Tables) {
    CredsNamed(t.creds) && DevsNamed(t.devices) && ProfsNamed(t.profiles) && ArtsNamed(t.artifacts)
  }

  /** The binding has a credential, and it has this account. */
  predicate Owns(creds: map<uint64, Cred>, binding: uint64, acct: string) {
    binding in creds && creds[binding].acct == acct
  }

  predicate DevsOwned(creds: map<uint64, Cred>, devices: map<DKey, Dev>) {
    forall k <- devices :: Owns(creds, k.binding, devices[k].acct)
  }

  predicate ProfsOwned(creds: map<uint64, Cred>, profiles: map<PKey, Prof>) {
    forall k <- profiles :: Owns(creds, k.binding, profiles[k].acct)
  }

  predicate ArtsOwned(creds: map<uint64, Cred>, artifacts: map<AKey, Art>) {
    forall k <- artifacts :: Owns(creds, k.binding, artifacts[k].acct)
  }

  /** Every row of a binding carries the account of the binding's credential. */
  predicate AcctAgree(t: Tables) {
    && CredsNamed(t.creds)
    && DevsOwned(t.creds, t.devices)
    && ProfsOwned(t.creds, t.profiles)
    && ArtsOwned(t.creds, t.artifacts)
  }

  lemma AcctAgreeImpliesKeyAgree(t: Tables)
    requires AcctAgree(t)
    ensures KeyAgree(t)
  {
  }

  // ---------- by-account and by-binding row selection ----------

  function CredsWithoutAcct(m: map<uint64, Cred>, acct: string): map<uint64, Cred> {
    map b | b in m && m[b].acct != acct :: m[b]
  }

  function DevsWithoutAcct(m: map<DKey, Dev>, acct: string): map<DKey, Dev> {
    map k | k in m && m[k].acct != acct :: m[k]
  }

  function ProfsWithoutAcct(m: map<PKey, Prof>, acct: string): map<PKey, Prof> {
    map k | k in m && m[k].acct != acct :: m[k]
  }

  function ArtsWithoutAcct(m: map<AKey, Art>, acct: string): map<AKey, Art> {
    map k | k in m && m[k].acct != acct :: m[k]
  }

  function CredsWithout(m: map<uint64, Cred>, b: uint64): map<uint64, Cred> {
    map x | x in m && x != b :: m[x]
  }

  function DevsWithout(m: map<DKey, Dev>, b: uint64): map<DKey, Dev> {
    map k | k in m && k.binding != b :: m[k]
  }

  function ProfsWithout(m: map<PKey, Prof>, b: uint64): map<PKey, Prof> {
    map k | k in m && k.binding != b :: m[k]
  }

  function ArtsWithout(m: map<AKey, Art>, b: uint64): map<AKey, Art> {
    map k | k in m && k.binding != b :: m[k]
  }

  /** Everything the tables hold about bindings other than `b`. */
  function Others(t: Tables, b: uint64): Tables {
    Tables(CredsWithout(t.creds, b), DevsWithout(t.devices, b), ProfsWithout(t.profiles, b), ArtsWithout(t.artifacts, b))
  }

  /** Exactly the rows of `b` are gone, and the others are as before. */
  ghost predicate LostBinding(before: Tables, after: Tables, b: uint64) {
    && Within(after, before) && (forall k <- after.artifacts :: k in before.artifacts && after.artifacts[k] == before.artifacts[k])
    && (forall x <- before.creds :: x in after.creds <==> x != b)
    && (forall k <- before.devices :: k in after.devices <==> k.binding != b)
    && (forall k <- before.profiles :: k in after.profiles <==> k.binding != b)
    && (forall k <- before.artifacts :: k in after.artifacts <==> k.binding != b)
  }

  lemma OthersLost(t: Tables, b: uint64)
    ensures LostBinding(t, Others(t, b), b)
  {
  }

  /** Accounts that name a binding single out its rows, or, where they are not its credential's, none. */
  lemma OwnedBy(creds: map<uint64, Cred>, b: uint64, acct: string, x: uint64, rowAcct: string)
    requires CredsNamed(creds) && Names(acct, b) && Owns(creds, x, rowAcct)
    ensures rowAcct == acct ==> x == b && Owns(creds, b, acct)
    ensures Owns(creds, b, acct) ==> (rowAcct == acct <==> x == b)
  {
    assert Names(creds[x].acct, x);
  }

  lemma CredsByAccount(creds: map<uint64, Cred>, b: uint64, acct: string)
    requires CredsNamed(creds) && Names(acct, b)
    ensures CredsWithoutAcct(creds, acct) == if Owns(creds, b, acct) then CredsWithout(creds, b) else creds
  {
    forall x | x in creds ensures creds[x].acct == acct <==> x == b && Owns(creds, b, acct) {
      OwnedBy(creds, b, acct, x, creds[x].acct);
    }
  }

  lemma DevsByAccount(creds: map<uint64, Cred>, devices: map<DKey, Dev>, b: uint64, acct: string)
    requires CredsNamed(creds) && DevsOwned(creds, devices) && Names(acct, b)
    ensures DevsWithoutAcct(devices, acct) == if Owns(creds, b, acct) then DevsWithout(devices, b) else devices
  {
    forall k | k in devices ensures devices[k].acct == acct <==> k.binding == b && Owns(creds, b, acct) {
      OwnedBy(creds, b, acct, k.binding, devices[k].acct);
    }
  }

  lemma ProfsByAccount(creds: map<uint64, Cred>, profiles: map<PKey, Prof>, b: uint64, acct: string)
    requires CredsNamed(creds) && ProfsOwned(creds, profiles) && Names(acct, b)
    ensures ProfsWithoutAcct(profiles, acct) == if Owns(creds, b, acct) then ProfsWithout(profiles, b) else profiles
  {
    forall k | k in profiles ensures profiles[k].acct == acct <==> k.binding == b && Owns(creds, b, acct) {
      OwnedBy(creds, b, acct, k.binding, profiles[k].acct);
    }
  }

  lemma ArtsByAccount(creds: map<uint64, Cred>, artifacts: map<AKey, Art>, b: uint64, acct: string)
    requires CredsNamed(creds) && ArtsOwned(creds, artifacts) && Names(acct, b)
    ensures ArtsWithoutAcct(artifacts, acct) == if Owns(creds, b, acct) then ArtsWithout(artifacts, b) else artifacts
  {
    forall k | k in artifacts ensures artifacts[k].acct == acct <==> k.binding == b && Owns(creds, b, acct) {
      OwnedBy(creds, b, acct, k.binding, artifacts[k].acct);
    }
  }

  /** Where the credential of `b` has account `acct`, "rows with that account" means "rows of `b`". */
  lemma ByAccountIsByBinding(t: Tables, b: uint64)
    requires AcctAgree(t) && b in t.creds
    ensures CredsWithoutAcct(t.creds, t.creds[b].acct) == CredsWithout(t.creds, b)
    ensures DevsWithoutAcct(t.devices, t.creds[b].acct) == DevsWithout(t.devices, b)
    ensures ProfsWithoutAcct(t.profiles, t.creds[b].acct) == ProfsWithout(t.profiles, b)
    ensures ArtsWithoutAcct(t.artifacts, t.creds[b].acct) == ArtsWithout(t.artifacts, b)
  {
    var acct := t.creds[b].acct;
    CredsByAccount(t.creds, b, acct);
    DevsByAccount(t.creds, t.devices, b, acct);
    ProfsByAccount(t.creds, t.profiles, b, acct);
    ArtsByAccount(t.creds, t.artifacts, b, acct);
  }

  /** An account that names `b` but is not the credential's has no rows. */
  lemma ForeignAccountHasNoRows(t: Tables, b: uint64, acct: string)
    requires AcctAgree(t) && Names(acct, b) && !Owns(t.creds, b, acct)
    ensures CredsWithoutAcct(t.creds, acct) == t.creds
    ensures DevsWithoutAcct(t.devices, acct) == t.devices
    ensures ProfsWithoutAcct(t.profiles, acct) == t.profiles
    ensures ArtsWithoutAcct(t.artifacts, acct) == t.artifacts
  {
    CredsByAccount(t.creds, b, acct);
    DevsByAccount(t.creds, t.devices, b, acct);
    ProfsByAccount(t.creds, t.profiles, b, acct);
    ArtsByAccount(t.creds, t.artifacts, b, acct);
  }

  lemma NoCredentialNoRows(t: Tables, b: uint64)
    requires AcctAgree(t) && b !in t.creds
    ensures Others(t, b) == t
  {
  }
}
