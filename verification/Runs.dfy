/**
Whole runs of the service, one request at a time: what each request may do to the stored
state, and what every run keeps. The use-case methods prove that they take these steps.
*/
module Runs {
  import opened Basics
  import opened AccountKey
  import opened Db
  import opened Backend
  import opened ArtifactSpec
  import opened BindSpec
  import H = ArtifactHistory
  import BindLaws
  import CacheKeys
  import DeviceRepo
  import ManagementRepo
  import ProfileRepo
  import GrantRepo

  const AUTHKEY := "authkey"

  /** A moment of the stored state; `issued` logs what the upstream client has issued so far. */
  datatype World = World(t: Tables, nextId: nat, cache: Cache, grants: GrantRepo.Grants, issued: set<Issue>, now: int)

  ghost function Snap(s: Storage): World
    reads s`creds, s`devices, s`profiles, s`artifacts, s`nextId, s`cache, s`grants, s`issued, s`now
  {
    World(s.Rows(), s.nextId, s.cache, s.grants, s.issued, s.now)
  }

  const InitialWorld := World(EmptyTables, 1, map[], map[], {}, 0)

  /** Runs start where a new store starts. */
  method Open(withRedis: bool, prefix: string) returns (s: Storage)
    ensures fresh(s) && s.Valid() && s.withRedis == withRedis && s.prefix == prefix && s.faults == 0
    ensures Snap(s) == InitialWorld
  {
    s := new Storage(withRedis, prefix);
  }

  datatype Event =
    | Bound(input: BindInput, prep: Preparation, at: int)
    | DeviceSaved(d: DeviceRepo.Device)
    | KeyServed(b: uint64, acct: string, player: string, a: Artifact, at: int)
    | KeyIssued(b: uint64, acct: string, player: string, authKey: string, expiresAt: int, at: int)
    | KeyLost(b: uint64, acct: string, player: string, authKey: string, expiresAt: int, at: int, stored: bool)
    | Revalidated(c: Cred)
    | Confirmed(k: PKey, acct: string)
    | Deleted(b: uint64)
    | DeletedByAccount(acct: string)
    | GrantRaised(b: uint64, consumer: string, version: uint64)
    | RolledBack(b: uint64)
    | RolledBackByAccount(acct: string)
    | Idle

  function AuthKey(b: uint64, player: string): AKey {
    AKey(b, AUTHKEY, player)
  }

  /** What GetByBindingID may answer: the stored row, or what Redis serves instead. */
  predicate Answers(prefix: string, w: World, b: uint64, player: string, at: int, answer: Option<Artifact>) {
    var stored := ReadRow(w.t.artifacts, AuthKey(b, player), at);
    answer == stored || answer == Through(w.cache, CacheKeys.KeyByBinding(prefix, b, AUTHKEY, player), stored, at)
  }

  /** A credential as a revalidation rewrites it: only the outcome of the validation changes. */
  predicate Reassessed(before: Cred, after: Cred) {
    after == before.(status := after.status, validatedAt := after.validatedAt, refreshedAt := after.refreshedAt)
  }

  /** What the tables, the row ids, the grants and the log of issued keys become. */
  predicate NextRows(prefix: string, w: World, e: Event, w': World) {
    match e
    case Bound(input, prep, at) =>
      && PreparedFor(input, prep)
      && BindOutcome(w.t, w.nextId, input, prep, at) == Ok((w'.t, w'.nextId))
    case DeviceSaved(d) =>
      && Owns(w.t.creds, d.binding, d.acct)
      && w'.t == w.t.(devices := DeviceRepo.Saved(w.t.devices, w.nextId, d))
      && w'.nextId == DeviceRepo.NextAfter(w.t.devices, w.nextId, d)
    case KeyServed(b, acct, player, a, at) =>
      Owns(w.t.creds, b, acct) && Answers(prefix, w, b, player, at, Some(a)) && w'.t == w.t
    case KeyIssued(b, acct, player, authKey, expiresAt, at) =>
      && Owns(w.t.creds, b, acct) && Answers(prefix, w, b, player, at, None)
      && w'.t == w.t.(artifacts := w.t.artifacts[AuthKey(b, player) := Art(acct, authKey, expiresAt)])
    case KeyLost(b, acct, player, authKey, expiresAt, at, stored) =>
      && Owns(w.t.creds, b, acct) && Answers(prefix, w, b, player, at, None)
      && w'.t == if stored then w.t.(artifacts := w.t.artifacts[AuthKey(b, player) := Art(acct, authKey, expiresAt)]) else w.t
    case Revalidated(c) =>
      && Owns(w.t.creds, c.binding, c.acct) && Reassessed(w.t.creds[c.binding], c)
      && w'.t == w.t.(creds := w.t.creds[c.binding := c])
    case Confirmed(k, acct) =>
      && ProfileRepo.Candidates(w.t.profiles, k.binding, acct, k.player) == {k}
      && w'.t == w.t.(profiles := ProfileRepo.WithDefault(w.t.profiles, k))
    case Deleted(b) => w'.t == Others(w.t, b)
    case DeletedByAccount(acct) => w'.t == ManagementRepo.WithoutGraph(w.t, acct)
    case GrantRaised(_, _, _) => w'.t == w.t
    case RolledBack(_) => w'.t == w.t
    case RolledBackByAccount(_) => w'.t == w.t
    case Idle => w'.t == w.t
  }

  /** The keys of the artifacts that a delete dooms. */
  function DoomedKeys(prefix: string, t: Tables, e: Event): set<string> {
    match e
    case Bound(input, _, _) => KeysOfBinding(prefix, t.artifacts, input.binding)
    case Deleted(b) => KeysOfBinding(prefix, t.artifacts, b)
    case RolledBack(b) => KeysOfBinding(prefix, t.artifacts, b)
    case DeletedByAccount(acct) => CacheKeysOf(prefix, t.artifacts, ManagementRepo.GraphArtifacts(t, acct))
    case RolledBackByAccount(acct) => CacheKeysOf(prefix, t.artifacts, ManagementRepo.GraphArtifacts(t, acct))
    case _ => {}
  }

  /** What the cache becomes. */
  predicate NextCache(prefix: string, w: World, e: Event, w': World) {
    if e.Bound? || e.Deleted? || e.DeletedByAccount? then w'.cache == w.cache - DoomedKeys(prefix, w.t, e)
    else if e.RolledBack? || e.RolledBackByAccount? then LostOnly(w.cache, w'.cache, DoomedKeys(prefix, w.t, e))
    else CacheWithin(prefix, w'.t.artifacts, w.cache, w'.cache)
  }

  function IssueBy(w: World, e: Event): set<Issue> {
    if (e.KeyIssued? || e.KeyLost?) && e.b in w.t.creds && w.t.creds[e.b].blob.Sealed? then
      {Issue(w.t.creds[e.b].blob.cookies, e.player, e.authKey)}
    else {}
  }

  predicate Next(prefix: string, w: World, e: Event, w': World) {
    && NextRows(prefix, w, e, w') && NextCache(prefix, w, e, w')
    && w.now <= w'.now && w.nextId <= w'.nextId
    && (e.Bound? || e.KeyServed? || e.KeyIssued? || e.KeyLost? ==> w.now <= e.at <= w'.now)
    && (e.KeyIssued? || e.KeyLost? ==> e.b in w.t.creds && w.t.creds[e.b].blob.Sealed?)
    && w'.issued == w.issued + IssueBy(w, e)
    && w'.grants == if e.GrantRaised? then GrantRepo.Raised(w.grants, e.b, e.consumer, e.version) else w.grants
  }

  ghost predicate Run(prefix: string, ws: seq<World>, es: seq<Event>) {
    && |ws| == |es| + 1
    && forall i :: 0 <= i < |es| ==> NextAt(prefix, ws, es, i)
  }

  ghost predicate NextAt(prefix: string, ws: seq<World>, es: seq<Event>, i: nat)
    requires |ws| == |es| + 1 && i < |es|
  {
    Next(prefix, ws[i], es[i], ws[i + 1])
  }

  // ---------- the steps, one lemma for each way the use cases end ----------

  lemma IdleStep(prefix: string, w: World, w': World)
    requires w'.t == w.t && w'.cache == w.cache && w'.grants == w.grants && w'.issued == w.issued
    requires w.now <= w'.now && w.nextId <= w'.nextId
    ensures Next(prefix, w, Idle, w')
  {
  }

  lemma RolledBackStep(prefix: string, w: World, w': World, b: uint64)
    requires w'.t == w.t && LostOnly(w.cache, w'.cache, KeysOfBinding(prefix, w.t.artifacts, b))
    requires w'.grants == w.grants && w'.issued == w.issued && w.now <= w'.now && w.nextId <= w'.nextId
    ensures Next(prefix, w, RolledBack(b), w')
  {
  }

  lemma BoundStep(prefix: string, w: World, w': World, input: BindInput, prep: Preparation, at: int)
    requires PreparedFor(input, prep) && BindOutcome(w.t, w.nextId, input, prep, at) == Ok((w'.t, w'.nextId))
    requires w'.cache == w.cache - KeysOfBinding(prefix, w.t.artifacts, input.binding)
    requires w'.grants == w.grants && w'.issued == w.issued && w.now <= at <= w'.now && w.nextId <= w'.nextId
    ensures Next(prefix, w, Bound(input, prep, at), w')
  {
  }

  lemma DeviceStep(prefix: string, w: World, w': World, d: DeviceRepo.Device)
    requires Owns(w.t.creds, d.binding, d.acct) && w'.t == w.t.(devices := DeviceRepo.Saved(w.t.devices, w.nextId, d))
    requires w'.nextId == DeviceRepo.NextAfter(w.t.devices, w.nextId, d)
    requires w'.cache == w.cache && w'.grants == w.grants && w'.issued == w.issued && w.now <= w'.now
    ensures Next(prefix, w, DeviceSaved(d), w')
  {
  }

  lemma ConfirmedStep(prefix: string, w: World, w': World, k: PKey, acct: string)
    requires ProfileRepo.Candidates(w.t.profiles, k.binding, acct, k.player) == {k}
    requires w'.t == w.t.(profiles := ProfileRepo.WithDefault(w.t.profiles, k))
    requires w'.cache == w.cache && w'.grants == w.grants && w'.issued == w.issued
    requires w.now <= w'.now && w.nextId <= w'.nextId
    ensures Next(prefix, w, Confirmed(k, acct), w')
  {
  }

  lemma ServedStep(prefix: string, w: World, w': World, b: uint64, acct: string, player: string, a: Artifact, at: int)
    requires Owns(w.t.creds, b, acct) && Answers(prefix, w, b, player, at, Some(a))
    requires w'.t == w.t && CacheWithin(prefix, w.t.artifacts, w.cache, w'.cache)
    requires w'.grants == w.grants && w'.issued == w.issued && w.now <= at <= w'.now && w.nextId <= w'.nextId
    ensures Next(prefix, w, KeyServed(b, acct, player, a, at), w')
  {
  }

  /** The event of an issue: `returned` when the key also reached the caller. */
  function IssueEvent(b: uint64, acct: string, player: string, authKey: string, expiresAt: int, at: int,
                      stored: bool, returned: bool): Event
  {
    if returned then KeyIssued(b, acct, player, authKey, expiresAt, at)
    else KeyLost(b, acct, player, authKey, expiresAt, at, stored)
  }

  lemma IssuedStep(prefix: string, w: World, w': World, b: uint64, acct: string, player: string, authKey: string, expiresAt: int,
                   at: int, stored: bool, returned: bool)
    requires Owns(w.t.creds, b, acct) && Answers(prefix, w, b, player, at, None) && w.t.creds[b].blob.Sealed?
    requires returned ==> stored
    requires w'.t == if stored then w.t.(artifacts := w.t.artifacts[AuthKey(b, player) := Art(acct, authKey, expiresAt)]) else w.t
    requires CacheWithin(prefix, w'.t.artifacts, w.cache, w'.cache)
    requires w'.grants == w.grants && w'.issued == w.issued + {Issue(w.t.creds[b].blob.cookies, player, authKey)}
    requires w.now <= at <= w'.now && w.nextId <= w'.nextId
    ensures Next(prefix, w, IssueEvent(b, acct, player, authKey, expiresAt, at, stored, returned), w')
  {
  }

  lemma RevalidatedStep(prefix: string, w: World, w': World, c: Cred)
    requires Owns(w.t.creds, c.binding, c.acct) && Reassessed(w.t.creds[c.binding], c)
    requires w'.t == w.t.(creds := w.t.creds[c.binding := c])
    requires w'.cache == w.cache && w'.grants == w.grants && w'.issued == w.issued
    requires w.now <= w'.now && w.nextId <= w'.nextId
    ensures Next(prefix, w, Revalidated(c), w')
  {
  }

  lemma DeletedStep(prefix: string, w: World, w': World, b: uint64)
    requires w'.t == Others(w.t, b) && w'.cache == w.cache - KeysOfBinding(prefix, w.t.artifacts, b)
    requires w'.grants == w.grants && w'.issued == w.issued && w.now <= w'.now && w.nextId <= w'.nextId
    ensures Next(prefix, w, Deleted(b), w')
  {
  }

  lemma GraphDeletedStep(prefix: string, w: World, w': World, acct: string, deleted: bool)
    requires w'.t == if deleted then ManagementRepo.WithoutGraph(w.t, acct) else w.t
    requires var keys := CacheKeysOf(prefix, w.t.artifacts, ManagementRepo.GraphArtifacts(w.t, acct));
             LostOnly(w.cache, w'.cache, keys) && (deleted ==> w'.cache == w.cache - keys)
    requires w'.grants == w.grants && w'.issued == w.issued && w.now <= w'.now && w.nextId <= w'.nextId
    ensures Next(prefix, w, if deleted then DeletedByAccount(acct) else RolledBackByAccount(acct), w')
  {
  }

  // ---------- the invariant of every run ----------

  predicate AuthkeysOnly(t: Tables) {
    forall k <- t.artifacts :: k.kind == AUTHKEY
  }

  /** To the artifacts and their cache, a bind and a delete by binding are one transaction of ArtifactHistory. */
  lemma DeletionPerforms(prefix: string, withRedis: bool, w: World, e: Event, w': World)
    requires AcctAgree(w.t) && DbOk(w.t, w.nextId) && Next(prefix, w, e, w') && (e.Bound? || e.Deleted?)
    requires !withRedis ==> w.cache == map[]
    ensures var b := if e.Bound? then e.input.binding else e.b;
            H.Performs(withRedis, prefix, H.State(w.t.artifacts, w.cache), H.Transaction([H.OfBinding(b)], true, w.now, w'.now),
                       H.State(w'.t.artifacts, w'.cache))
  {
    if e.Bound? {
      BindLaws.BindReplaces(w.t, w.nextId, e.input, e.prep, e.at, w'.t, w'.nextId);
    }
    H.DeletePerforms(withRedis, prefix, H.State(w.t.artifacts, w.cache), H.State(w'.t.artifacts, w'.cache),
                     if e.Bound? then e.input.binding else e.b, true, w.now, w'.now);
  }

  /** Every stored authkey was issued for the cookies its binding's credential holds now. */
  predicate KeysMatchCredentials(w: World) {
    && (forall b <- w.t.creds :: w.t.creds[b].blob.Sealed?)
    && (forall k <- w.t.artifacts ::
          k.binding in w.t.creds && w.t.creds[k.binding].blob.Sealed? &&
          Issue(w.t.creds[k.binding].blob.cookies, k.scope, w.t.artifacts[k].value) in w.issued)
  }

  predicate Formatted(t: Tables) {
    forall b <- t.creds :: t.creds[b].acct == FormatPlatformAccountID(b, t.creds[b].accountId)
  }

  predicate Inv(prefix: string, w: World) {
    && AcctAgree(w.t)
    && DbOk(w.t, w.nextId)
    && AuthkeysOnly(w.t)
    && CacheSound(prefix, w.t.artifacts, w.cache, w.now)
    && KeysMatchCredentials(w)
    && Formatted(w.t)
  }

  // ---------- the tables ----------

  lemma DeletingKeepsTables(t: Tables, nextId: nat, b: uint64)
    requires AcctAgree(t) && DbOk(t, nextId)
    ensures AcctAgree(Others(t, b)) && DbOk(Others(t, b), nextId)
  {
    DeletingKeepsAgreement(t, b);
    CredKeysWithout(t.creds, b);
    DeletingKeepsIds(t, nextId, b);
  }

  lemma DeletingKeepsAgreement(t: Tables, b: uint64)
    requires AcctAgree(t)
    ensures AcctAgree(Others(t, b))
  {
  }

  lemma DeletingKeepsIds(t: Tables, nextId: nat, b: uint64)
    requires DevIds(t.devices, nextId) && ProfIds(t.profiles, nextId) && OneDefault(t.profiles)
    ensures var t' := Others(t, b); DevIds(t'.devices, nextId) && ProfIds(t'.profiles, nextId) && OneDefault(t'.profiles)
  {
  }

  lemma CredKeysWithout(creds: map<uint64, Cred>, b: uint64)
    requires CredKeys(creds)
    ensures CredKeys(CredsWithout(creds, b))
  {
    forall x | x in CredsWithout(creds, b) ensures CredFits(CredsWithout(creds, b), creds[x]) {
      assert CredFits(creds, creds[x]);
    }
  }

  lemma DeviceKeepsTables(t: Tables, nextId: nat, d: DeviceRepo.Device)
    requires AcctAgree(t) && DbOk(t, nextId) && Owns(t.creds, d.binding, d.acct)
    ensures var t' := t.(devices := DeviceRepo.Saved(t.devices, nextId, d));
            AcctAgree(t') && DbOk(t', DeviceRepo.NextAfter(t.devices, nextId, d))
  {
    DeviceRepo.SavedIds(t.devices, nextId, d);
  }

  lemma RevalidationKeepsTables(t: Tables, nextId: nat, c: Cred)
    requires AcctAgree(t) && DbOk(t, nextId) && Owns(t.creds, c.binding, c.acct) && Reassessed(t.creds[c.binding], c)
    ensures var t' := t.(creds := t.creds[c.binding := c]); AcctAgree(t') && DbOk(t', nextId)
  {
    ReassessedFits(t.creds, c);
    var creds := t.creds[c.binding := c];
    assert forall b <- t.creds :: b in creds && creds[b].acct == t.creds[b].acct && creds[b].binding == t.creds[b].binding;
    assert CredsNamed(creds);
    assert DevsOwned(creds, t.devices);
    assert ProfsOwned(creds, t.profiles);
    assert ArtsOwned(creds, t.artifacts);
  }

  lemma ReassessedFits(creds: map<uint64, Cred>, c: Cred)
    requires CredKeys(creds) && c.binding in creds && Reassessed(creds[c.binding], c)
    ensures CredKeys(creds[c.binding := c])
  {
  }

  lemma ConfirmKeepsTables(t: Tables, nextId: nat, k: PKey)
    requires AcctAgree(t) && DbOk(t, nextId)
    ensures var t' := t.(profiles := ProfileRepo.WithDefault(t.profiles, k)); AcctAgree(t') && DbOk(t', nextId)
  {
    var profiles := ProfileRepo.WithDefault(t.profiles, k);
    assert forall l <- profiles :: l in t.profiles && profiles[l].acct == t.profiles[l].acct && profiles[l].id == t.profiles[l].id
             && (l.binding == k.binding ==> (profiles[l].isDefault <==> l == k))
             && (l.binding != k.binding ==> profiles[l] == t.profiles[l]);
  }

  /** Deleting by account deletes one binding, or nothing. */
  lemma DeletedBinding(t: Tables, acct: string) returns (b: Option<uint64>)
    requires AcctAgree(t)
    ensures b.Some? ==> b.value in t.creds && t.creds[b.value].acct == acct && ManagementRepo.WithoutGraph(t, acct) == Others(t, b.value)
    ensures b.None? ==> ManagementRepo.WithoutGraph(t, acct) == t
  {
    if x :| x in t.creds && t.creds[x].acct == acct {
      ManagementRepo.GraphDeletesAgree(t, x);
      b := Some(x);
    } else {
      ManagementRepo.UnknownAccountDeletesNothing(t, acct);
      b := None;
    }
  }

  lemma DeletingByAccountKeepsTables(t: Tables, nextId: nat, acct: string)
    requires AcctAgree(t) && DbOk(t, nextId)
    ensures AcctAgree(ManagementRepo.WithoutGraph(t, acct)) && DbOk(ManagementRepo.WithoutGraph(t, acct), nextId)
  {
    var b := DeletedBinding(t, acct);
    if b.Some? {
      DeletingKeepsTables(t, nextId, b.value);
    }
  }

  lemma StepKeepsTables(prefix: string, w: World, e: Event, w': World)
    requires AcctAgree(w.t) && DbOk(w.t, w.nextId) && Next(prefix, w, e, w')
    ensures AcctAgree(w'.t) && DbOk(w'.t, w'.nextId)
  {
    IdsGrow(w.t, w.nextId, w'.nextId);
    match e
    case Bound(input, prep, at) => BindLaws.BindKeepsInvariants(w.t, w.nextId, input, prep, at);
    case DeviceSaved(d) => DeviceKeepsTables(w.t, w.nextId, d);
    case Revalidated(c) => RevalidationKeepsTables(w.t, w'.nextId, c);
    case Confirmed(k, _) => ConfirmKeepsTables(w.t, w'.nextId, k);
    case Deleted(b) => DeletingKeepsTables(w.t, w'.nextId, b);
    case DeletedByAccount(acct) => DeletingByAccountKeepsTables(w.t, w'.nextId, acct);
    case _ =>
  }

  // ---------- the cache and the issued keys ----------

  lemma StepKeepsAuthkeysOnly(prefix: string, w: World, e: Event, w': World)
    requires AuthkeysOnly(w.t) && AcctAgree(w.t) && DbOk(w.t, w.nextId) && Next(prefix, w, e, w')
    ensures AuthkeysOnly(w'.t)
  {
  }

  /** A new authkey only ever replaces a row that has expired, so no live entry speaks of it. */
  lemma IssueKeepsCacheSound(prefix: string, w: World, e: Event, w': World)
    requires CacheSound(prefix, w.t.artifacts, w.cache, w.now) && Next(prefix, w, e, w')
    requires e.KeyIssued? || e.KeyLost?
    ensures CacheSound(prefix, w'.t.artifacts, w'.cache, w'.now)
  {
  }

  lemma DeletionKeepsCacheSound(prefix: string, w: World, w': World, selected: set<AKey>)
    requires CacheSound(prefix, w.t.artifacts, w.cache, w.now) && w.now <= w'.now
    requires selected <= w.t.artifacts.Keys && w'.t.artifacts == w.t.artifacts - selected
    requires w'.cache == w.cache - CacheKeysOf(prefix, w.t.artifacts, selected)
    ensures CacheSound(prefix, w'.t.artifacts, w'.cache, w'.now)
  {
    DeletionSound(prefix, w.t.artifacts, w.cache, w.now, selected);
  }

  lemma BindingRowsDeleted(rows: map<AKey, Art>, b: uint64)
    ensures ArtsWithout(rows, b) == rows - SelectByBinding(rows, b)
  {
  }

  lemma BoundKeepsCacheSound(prefix: string, w: World, e: Event, w': World)
    requires AcctAgree(w.t) && DbOk(w.t, w.nextId) && CacheSound(prefix, w.t.artifacts, w.cache, w.now) && Next(prefix, w, e, w')
    requires e.Bound?
    ensures CacheSound(prefix, w'.t.artifacts, w'.cache, w'.now)
  {
    BindLaws.BindReplaces(w.t, w.nextId, e.input, e.prep, e.at, w'.t, w'.nextId);
    BindingRowsDeleted(w.t.artifacts, e.input.binding);
    DeletionKeepsCacheSound(prefix, w, w', SelectByBinding(w.t.artifacts, e.input.binding));
  }

  lemma DeletedKeepsCacheSound(prefix: string, w: World, e: Event, w': World)
    requires CacheSound(prefix, w.t.artifacts, w.cache, w.now) && Next(prefix, w, e, w')
    requires e.Deleted? || e.DeletedByAccount?
    ensures CacheSound(prefix, w'.t.artifacts, w'.cache, w'.now)
  {
    if e.Deleted? {
      BindingRowsDeleted(w.t.artifacts, e.b);
      DeletionKeepsCacheSound(prefix, w, w', SelectByBinding(w.t.artifacts, e.b));
    } else {
      DeletionKeepsCacheSound(prefix, w, w', ManagementRepo.GraphArtifacts(w.t, e.acct));
    }
  }

  /** Copies of current rows may come, and anything may go. */
  lemma OtherStepsKeepCacheSound(prefix: string, w: World, e: Event, w': World)
    requires CacheSound(prefix, w.t.artifacts, w.cache, w.now) && w.now <= w'.now && w'.t.artifacts == w.t.artifacts
    requires CacheWithin(prefix, w.t.artifacts, w.cache, w'.cache) || LostOnly(w.cache, w'.cache, DoomedKeys(prefix, w.t, e))
    ensures CacheSound(prefix, w'.t.artifacts, w'.cache, w'.now)
  {
  }

  lemma StepKeepsCacheSound(prefix: string, w: World, e: Event, w': World)
    requires AcctAgree(w.t) && DbOk(w.t, w.nextId) && CacheSound(prefix, w.t.artifacts, w.cache, w.now) && Next(prefix, w, e, w')
    ensures CacheSound(prefix, w'.t.artifacts, w'.cache, w'.now)
  {
    if e.Bound? {
      BoundKeepsCacheSound(prefix, w, e, w');
    } else if e.Deleted? || e.DeletedByAccount? {
      DeletedKeepsCacheSound(prefix, w, e, w');
    } else if e.KeyIssued? || e.KeyLost? {
      IssueKeepsCacheSound(prefix, w, e, w');
    } else {
      OtherStepsKeepCacheSound(prefix, w, e, w');
    }
  }

  lemma BoundKeepsKeysMatching(prefix: string, w: World, e: Event, w': World)
    requires AcctAgree(w.t) && DbOk(w.t, w.nextId) && KeysMatchCredentials(w) && Next(prefix, w, e, w') && e.Bound?
    ensures KeysMatchCredentials(w')
  {
    BindLaws.BindReplaces(w.t, w.nextId, e.input, e.prep, e.at, w'.t, w'.nextId);
  }

  lemma OtherStepsKeepKeysMatching(prefix: string, w: World, e: Event, w': World)
    requires KeysMatchCredentials(w) && Next(prefix, w, e, w') && !e.Bound? && !e.DeletedByAccount?
    ensures KeysMatchCredentials(w')
  {
  }

  lemma StepKeepsKeysMatching(prefix: string, w: World, e: Event, w': World)
    requires AcctAgree(w.t) && DbOk(w.t, w.nextId) && KeysMatchCredentials(w) && Next(prefix, w, e, w')
    ensures KeysMatchCredentials(w')
  {
    if e.Bound? {
      BoundKeepsKeysMatching(prefix, w, e, w');
    } else if e.DeletedByAccount? {
      var b := DeletedBinding(w.t, e.acct);
    } else {
      OtherStepsKeepKeysMatching(prefix, w, e, w');
    }
  }

  lemma StepKeepsFormatted(prefix: string, w: World, e: Event, w': World)
    requires AcctAgree(w.t) && DbOk(w.t, w.nextId) && Formatted(w.t) && Next(prefix, w, e, w')
    ensures Formatted(w'.t)
  {
    match e
    case Bound(input, prep, at) => BindLaws.BindReplaces(w.t, w.nextId, input, prep, at, w'.t, w'.nextId);
    case _ =>
  }

  lemma StepKeepsInv(prefix: string, w: World, e: Event, w': World)
    requires Inv(prefix, w) && Next(prefix, w, e, w')
    ensures Inv(prefix, w')
  {
    StepKeepsTables(prefix, w, e, w');
    StepKeepsAuthkeysOnly(prefix, w, e, w');
    StepKeepsCacheSound(prefix, w, e, w');
    StepKeepsKeysMatching(prefix, w, e, w');
    StepKeepsFormatted(prefix, w, e, w');
  }

  /**
  From empty tables, after any sequence of requests, every device, profile and artifact row
  of a binding carries the account of the binding's single credential (AcctAgree), a binding
  without a credential owns no rows, at most one profile per binding is the default (DbOk),
  and cache, issued keys and account ids are as Inv says.
  */
  lemma {:induction false} RunKeepsInv(prefix: string, ws: seq<World>, es: seq<Event>, i: nat)
    requires Run(prefix, ws, es) && Inv(prefix, ws[0]) && i < |ws|
    ensures Inv(prefix, ws[i])
  {
    if i > 0 {
      RunKeepsInv(prefix, ws, es, i - 1);
      assert NextAt(prefix, ws, es, i - 1);
      StepKeepsInv(prefix, ws[i - 1], es[i - 1], ws[i]);
    }
  }

  lemma EveryRunFromEmpty(prefix: string, ws: seq<World>, es: seq<Event>, i: nat)
    requires Run(prefix, ws, es) && ws[0] == InitialWorld && i < |ws|
    ensures Inv(prefix, ws[i])
    ensures forall b :: b !in ws[i].t.creds ==> Others(ws[i].t, b) == ws[i].t
  {
    RunKeepsInv(prefix, ws, es, i);
    forall b | b !in ws[i].t.creds ensures Others(ws[i].t, b) == ws[i].t {
      NoCredentialNoRows(ws[i].t, b);
    }
  }

  // ---------- authkeys ----------

  /** In a reachable state, what Redis serves for an authkey is the stored row. */
  lemma AnswerIsStored(prefix: string, w: World, b: uint64, player: string, at: int, answer: Option<Artifact>)
    requires Inv(prefix, w) && w.now <= at && Answers(prefix, w, b, player, at, answer)
    ensures answer == ReadRow(w.t.artifacts, AuthKey(b, player), at)
  {
    var key := CacheKeys.KeyByBinding(prefix, b, AUTHKEY, player);
    if Hit(w.cache, key, at).Some? {
      var a := w.cache[key].payload;
      assert EntrySound(prefix, w.t.artifacts, key, w.cache[key]);
      AcctAgreeImpliesKeyAgree(w.t);
      assert Names(w.t.artifacts[KeyOf(a)].acct, a.binding);
      CacheKeys.FamiliesDisjoint(prefix, a.acct, a.kind, a.scope, b, AUTHKEY, player);
      CacheKeys.BindingKeysInjective(prefix, a.binding, a.kind, a.scope, b, AUTHKEY, player);
    }
  }

  /** Every authkey handed out was issued for the cookies that the binding's credential holds at that moment. */
  lemma HandedOutKeysAreFresh(prefix: string, w: World, e: Event, w': World)
    requires Inv(prefix, w) && Next(prefix, w, e, w') && (e.KeyServed? || e.KeyIssued?)
    ensures e.b in w'.t.creds && w'.t.creds[e.b].blob.Sealed?
    ensures Issue(w'.t.creds[e.b].blob.cookies, e.player, if e.KeyServed? then e.a.value else e.authKey) in w'.issued
  {
    if e.KeyServed? {
      AnswerIsStored(prefix, w, e.b, e.player, e.at, Some(e.a));
    }
  }

  /** The event binds, updates or deletes the binding, or deletes its account. */
  predicate Replaces(w: World, e: Event, b: uint64) {
    match e
    case Bound(input, _, _) => input.binding == b
    case Deleted(x) => x == b
    case DeletedByAccount(acct) => Owns(w.t.creds, b, acct)
    case _ => false
  }

  /** A request for the authkey of this player of this binding. */
  predicate AsksFor(e: Event, b: uint64, player: string) {
    (e.KeyServed? || e.KeyIssued? || e.KeyLost?) && e.b == b && e.player == player
  }

  lemma AskedAnswer(prefix: string, w: World, e: Event, w': World, b: uint64, player: string)
    requires Next(prefix, w, e, w') && AsksFor(e, b, player)
    ensures w.now <= e.at <= w'.now && Answers(prefix, w, b, player, e.at, if e.KeyServed? then Some(e.a) else None)
  {
  }

  /** A request for an authkey whose row has not expired is served from that row. */
  lemma StoredKeyIsServed(prefix: string, w: World, e: Event, w': World, b: uint64, player: string)
    requires Inv(prefix, w) && Next(prefix, w, e, w') && AsksFor(e, b, player)
    requires AuthKey(b, player) in w.t.artifacts && w'.now < w.t.artifacts[AuthKey(b, player)].expiresAt
    ensures e.KeyServed? && RowOf(e.a) == w.t.artifacts[AuthKey(b, player)]
  {
    AskedAnswer(prefix, w, e, w', b, player);
    AnswerIsStored(prefix, w, b, player, e.at, if e.KeyServed? then Some(e.a) else None);
  }

  lemma RowStaysOneStep(prefix: string, w: World, e: Event, w': World, k: AKey)
    requires AcctAgree(w.t) && DbOk(w.t, w.nextId) && Next(prefix, w, e, w') && !Replaces(w, e, k.binding)
    requires k in w.t.artifacts && (AsksFor(e, k.binding, k.scope) ==> e.KeyServed?)
    ensures k in w'.t.artifacts && w'.t.artifacts[k] == w.t.artifacts[k]
  {
    match e
    case Bound(input, prep, at) => BindKeepsRow(w.t, w.nextId, input, prep, at, w'.t, w'.nextId, k);
    case DeletedByAccount(acct) => DeletingByAccountKeepsRow(w.t, acct, k);
    case _ => OtherStepsKeepRow(prefix, w, e, w', k);
  }

  lemma BindKeepsRow(t: Tables, nextId: nat, input: BindInput, prep: Preparation, at: int, t': Tables, next: nat, k: AKey)
    requires AcctAgree(t) && DbOk(t, nextId) && PreparedFor(input, prep)
    requires BindOutcome(t, nextId, input, prep, at) == Ok((t', next))
    requires k in t.artifacts && k.binding != input.binding
    ensures k in t'.artifacts && t'.artifacts[k] == t.artifacts[k]
  {
    BindLaws.BindReplaces(t, nextId, input, prep, at, t', next);
  }

  lemma OtherStepsKeepRow(prefix: string, w: World, e: Event, w': World, k: AKey)
    requires NextRows(prefix, w, e, w') && !Replaces(w, e, k.binding) && !e.Bound? && !e.DeletedByAccount?
    requires k in w.t.artifacts && (AsksFor(e, k.binding, k.scope) && k.kind == AUTHKEY ==> e.KeyServed?)
    ensures k in w'.t.artifacts && w'.t.artifacts[k] == w.t.artifacts[k]
  {
  }

  lemma DeletingByAccountKeepsRow(t: Tables, acct: string, k: AKey)
    requires AcctAgree(t) && k in t.artifacts && !Owns(t.creds, k.binding, acct)
    ensures var rows := ManagementRepo.WithoutGraph(t, acct).artifacts; k in rows && rows[k] == t.artifacts[k]
  {
    var b := DeletedBinding(t, acct);
  }

  lemma KeyStaysOneStep(prefix: string, w: World, e: Event, w': World, b: uint64, player: string)
    requires Inv(prefix, w) && Next(prefix, w, e, w') && !Replaces(w, e, b)
    requires AuthKey(b, player) in w.t.artifacts && w'.now < w.t.artifacts[AuthKey(b, player)].expiresAt
    ensures AuthKey(b, player) in w'.t.artifacts && w'.t.artifacts[AuthKey(b, player)] == w.t.artifacts[AuthKey(b, player)]
    ensures AsksFor(e, b, player) ==> e.KeyServed? && RowOf(e.a) == w.t.artifacts[AuthKey(b, player)]
  {
    if AsksFor(e, b, player) {
      StoredKeyIsServed(prefix, w, e, w', b, player);
    }
    RowStaysOneStep(prefix, w, e, w', AuthKey(b, player));
  }

  /** Step `i` does not turn time back, and hands on and serves the authkey row that outlives it. */
  ghost predicate KeyHandedOn(ws: seq<World>, es: seq<Event>, i: nat, b: uint64, player: string)
    requires |ws| == |es| + 1 && i < |es|
  {
    var k := AuthKey(b, player);
    && ws[i].now <= ws[i + 1].now
    && (k in ws[i].t.artifacts && ws[i + 1].now < ws[i].t.artifacts[k].expiresAt ==>
          && k in ws[i + 1].t.artifacts && ws[i + 1].t.artifacts[k] == ws[i].t.artifacts[k]
          && (AsksFor(es[i], b, player) ==> es[i].KeyServed? && RowOf(es[i].a) == ws[i].t.artifacts[k]))
  }

  lemma KeyStaysAt(prefix: string, ws: seq<World>, es: seq<Event>, i: nat, b: uint64, player: string)
    requires Run(prefix, ws, es) && Inv(prefix, ws[0]) && i < |es| && !Replaces(ws[i], es[i], b)
    ensures KeyHandedOn(ws, es, i, b, player)
  {
    RunKeepsInv(prefix, ws, es, i);
    assert NextAt(prefix, ws, es, i);
    if AuthKey(b, player) in ws[i].t.artifacts && ws[i + 1].now < ws[i].t.artifacts[AuthKey(b, player)].expiresAt {
      KeyStaysOneStep(prefix, ws[i], es[i], ws[i + 1], b, player);
    }
  }

  lemma {:induction false} HandedOn(ws: seq<World>, es: seq<Event>, n: nat, b: uint64, player: string)
    requires |ws| == |es| + 1 && n < |ws| && forall i :: 0 <= i < n ==> KeyHandedOn(ws, es, i, b, player)
    requires AuthKey(b, player) in ws[0].t.artifacts && ws[n].now < ws[0].t.artifacts[AuthKey(b, player)].expiresAt
    ensures AuthKey(b, player) in ws[n].t.artifacts
    ensures ws[n].t.artifacts[AuthKey(b, player)] == ws[0].t.artifacts[AuthKey(b, player)]
    ensures n > 0 && AsksFor(es[n - 1], b, player) ==>
              es[n - 1].KeyServed? && RowOf(es[n - 1].a) == ws[0].t.artifacts[AuthKey(b, player)]
  {
    if n > 0 {
      assert KeyHandedOn(ws, es, n - 1, b, player);
      HandedOn(ws, es, n - 1, b, player);
    }
  }

  /**
  As long as it has not expired, a stored authkey is what every request for it returns,
  without a new issue, until the binding is bound, updated or deleted.
  */
  lemma KeyStays(prefix: string, ws: seq<World>, es: seq<Event>, n: nat, b: uint64, player: string)
    requires Run(prefix, ws, es) && Inv(prefix, ws[0]) && n < |ws|
    requires AuthKey(b, player) in ws[0].t.artifacts
    requires ws[n].now < ws[0].t.artifacts[AuthKey(b, player)].expiresAt
    requires forall i :: 0 <= i < n ==> !Replaces(ws[i], es[i], b)
    ensures AuthKey(b, player) in ws[n].t.artifacts
    ensures ws[n].t.artifacts[AuthKey(b, player)] == ws[0].t.artifacts[AuthKey(b, player)]
    ensures n > 0 && AsksFor(es[n - 1], b, player) ==>
              es[n - 1].KeyServed? && RowOf(es[n - 1].a) == ws[0].t.artifacts[AuthKey(b, player)]
  {
    forall i | 0 <= i < n ensures KeyHandedOn(ws, es, i, b, player) {
      KeyStaysAt(prefix, ws, es, i, b, player);
    }
    HandedOn(ws, es, n, b, player);
  }

  // ---------- grants ----------

  /** A version that is once below the minimum stays below it, whatever happens later. */
  lemma {:induction false} RevokedStaysRevoked(prefix: string, ws: seq<World>, es: seq<Event>, i: nat, j: nat, b: uint64, consumer: string)
    requires Run(prefix, ws, es) && i <= j < |ws|
    ensures GrantRepo.Minimum(ws[i].grants, b, consumer) <= GrantRepo.Minimum(ws[j].grants, b, consumer)
    decreases j
  {
    if i < j {
      RevokedStaysRevoked(prefix, ws, es, i, j - 1, b, consumer);
      assert NextAt(prefix, ws, es, j - 1);
    }
  }
}
