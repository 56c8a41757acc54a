/**
Requests interleaved at the granularity of repository calls: every stored row's binding is
the one its account id names, whatever the schedule, the failures, the stale reads and the
rollbacks.
*/
module Interleaving {
  import opened Basics
  import opened AccountKey
  import opened Db
  import opened BindSpec
  import opened ScopeGuard
  import BindLaws
  import DeviceRepo
  import ProfileRepo
  import CredentialRepo
  import ManagementRepo

  /** The next repository call of a bind or update, of its compensation, or of its transaction's end. */
  datatype BindCall =
    | Lookup | DropArtifacts | SaveCredential | SaveDevice | DropProfiles | SaveProfile | DropOldDevices | DropOldCredential
    | Prune | Commit | UndoProfiles | UndoDevices | UndoCredential | Abort | BindOver

  /** The next call of a request that finds a credential by account and then writes. */
  datatype Step = Find | Write | Over

  /** The next statement of a confirm's transaction. */
  datatype Choosing = Clear | Mark | Chosen

  /** What such a request writes: a device, an issued authkey, or the outcome of a validation. */
  datatype Writing =
    | WriteDevice(device: DeviceRepo.Device)
    | WriteAuthkey(player: string, art: Art)
    | WriteStatus(status: string, validatedAt: Option<int>, refreshedAt: Option<int>)

  /**
  The next statement of a delete, and the rows it is about. A delete by account first looks up
  the bindings of the account's rows, and then deletes the artifacts of each of them, or the
  account's own artifacts when there are none.
  */
  datatype DeleteCall = FindBindings | ArtifactsOfAccount | Artifacts | Profiles | Devices | Credentials | DeleteOver

  datatype Scope = OfBinding(b: uint64) | OfAccount(acct: string)

  /** A bind or update in flight: its next call, and what it has read so far. */
  datatype BindRequest = BindRequest(call: BindCall, input: BindInput, prep: Preparation, existing: Option<Cred>,
                                     at: int, i: nat, update: bool)

  /** A request in flight. */
  datatype Request =
    | Bind(bind: BindRequest)
    | FindThenWrite(step: Step, account: string, writing: Writing, found: Option<Cred>)
    | Confirm(choosing: Choosing, binding: uint64, of: string, who: string)
    | Delete(del: DeleteCall, scope: Scope, bindings: set<uint64>)

  /** A stored state with its requests in flight, and every earlier state of the tables. */
  datatype Sys = Sys(t: Tables, nextId: nat, requests: map<nat, Request>, past: seq<Tables>)

  /** What the environment decides for one call: whether it fails, and which moment a read sees. */
  datatype Env = Env(fails: bool, seen: Tables, now: int)

  // ---------- one call ----------

  function PreviousOf(rq: BindRequest): string
  {
    if rq.existing.Some? && rq.existing.value.acct != rq.prep.acct then rq.existing.value.acct else ""
  }

  /** Where a bind goes when a call fails: compensation once the credential is saved. */
  function BindFails(rq: BindRequest): BindRequest
  {
    match rq.call
    case SaveDevice => rq.(call := UndoProfiles)
    case DropProfiles => rq.(call := UndoProfiles)
    case SaveProfile => rq.(call := UndoProfiles)
    case DropOldDevices => rq.(call := UndoProfiles)
    case DropOldCredential => rq.(call := UndoProfiles)
    case UndoProfiles => rq.(call := UndoDevices)
    case UndoDevices => rq.(call := UndoCredential)
    case _ => rq.(call := Abort)
  }

  /** Where a bind goes after a call that succeeds. */
  function BindGoesOn(rq: BindRequest, seen: Tables, now: int): BindRequest
  {
    match rq.call
    case Lookup => rq.(call := DropArtifacts, existing := CredentialRepo.FindByBinding(seen.creds, rq.input.binding), at := now)
    case DropArtifacts => rq.(call := SaveCredential)
    case SaveCredential => rq.(call := SaveDevice)
    case SaveDevice => rq.(call := DropProfiles)
    case DropProfiles => rq.(call := SaveProfile, i := 0)
    case SaveProfile =>
      if rq.i < |rq.prep.profiles| then rq.(i := rq.i + 1)
      else rq.(call := if PreviousOf(rq) != "" then DropOldDevices else if rq.update then Prune else Commit)
    case DropOldDevices => rq.(call := DropOldCredential)
    case DropOldCredential => rq.(call := if rq.update then Prune else Commit)
    case Prune => rq.(call := Commit)
    case Commit => rq.(call := BindOver)
    case UndoProfiles => rq.(call := UndoDevices)
    case UndoDevices => rq.(call := UndoCredential)
    case UndoCredential => rq.(call := Abort)
    case Abort => rq.(call := BindOver)
    case BindOver => rq
  }

  function SaveCred(t: Tables, c: Cred): Result<Tables, Failure> {
    if CredFits(t.creds, c) then Ok(t.(creds := t.creds[c.binding := c])) else Err(DuplicateKey)
  }

  /** The tables and next row id after the call that a bind makes, or its refusal. */
  function BindCallOn(t: Tables, nextId: nat, rq: BindRequest): Result<(Tables, nat), Failure>
  {
    var acct, previous := rq.prep.acct, PreviousOf(rq);
    match rq.call
    case DropArtifacts => Ok((t.(artifacts := ArtsWithout(t.artifacts, rq.input.binding)), nextId))
    case SaveCredential => WithId(SaveCred(t, NewCred(rq.input, rq.prep, rq.at)), nextId)
    case SaveDevice =>
      var d := NewDevice(rq.input, rq.prep, rq.at);
      Ok((t.(devices := DeviceRepo.Saved(t.devices, nextId, d)), DeviceRepo.NextAfter(t.devices, nextId, d)))
    case DropProfiles => Ok((t.(profiles := ProfsWithoutAcct(t.profiles, if previous != "" then previous else acct)), nextId))
    case SaveProfile =>
      if rq.i < |rq.prep.profiles| then
        match ProfileRepo.Saved(t.profiles, nextId, NewProfile(rq.input, rq.prep, rq.at, rq.i))
        case Ok(p) => Ok((t.(profiles := p.0), p.1))
        case Err(e) => Err(e)
      else Ok((t, nextId))
    case DropOldDevices => Ok((t.(devices := DevsWithoutAcct(t.devices, previous)), nextId))
    case DropOldCredential => Ok((t.(creds := CredsWithoutAcct(t.creds, previous)), nextId))
    case Prune => Ok((t.(profiles := ProfileRepo.KeptByBinding(t.profiles, rq.input.binding, Kept(rq.prep))), nextId))
    case UndoProfiles => Ok((t.(profiles := ProfsWithoutAcct(t.profiles, acct)), nextId))
    case UndoDevices => Ok((t.(devices := DevsWithoutAcct(t.devices, acct)), nextId))
    case UndoCredential =>
      if previous != "" then WithId(SaveCred(t, rq.existing.value), nextId)
      else Ok((t.(creds := CredsWithoutAcct(t.creds, acct)), nextId))
    case _ => Ok((t, nextId))
  }

  function WithId(r: Result<Tables, Failure>, nextId: nat): Result<(Tables, nat), Failure> {
    match r
    case Ok(t) => Ok((t, nextId))
    case Err(e) => Err(e)
  }

  function Kept(prep: Preparation): seq<ProfileRepo.Identity> {
    seq(|prep.profiles|, i requires 0 <= i < |prep.profiles| =>
      ProfileRepo.Identity(prep.profiles[i].player, prep.profiles[i].region))
  }

  /** The credential that a lookup by account finds among the rows it sees. */
  ghost predicate FoundIn(seen: Tables, acct: string, found: Option<Cred>) {
    found.Some? ==> found.value.binding in seen.creds && seen.creds[found.value.binding] == found.value && found.value.acct == acct
  }

  // ---------- one step of the system ----------

  /** The one write of a request that found the credential `c`. */
  ghost predicate Writes(t: Tables, nextId: nat, c: Cred, writing: Writing, t': Tables, nextId': nat) {
    match writing
    case WriteDevice(device) =>
      var d := device.(binding := c.binding, acct := c.acct);
      t' == t.(devices := DeviceRepo.Saved(t.devices, nextId, d)) && nextId' == DeviceRepo.NextAfter(t.devices, nextId, d)
    case WriteAuthkey(player, art) =>
      // an unexpired artifact is served as it is; otherwise the issued key is stored
      nextId' == nextId && (t' == t || t' == t.(artifacts := t.artifacts[AKey(c.binding, "authkey", player) := art.(acct := c.acct)]))
    case WriteStatus(status, validatedAt, refreshedAt) =>
      var saved := SaveCred(t, c.(status := status, validatedAt := validatedAt, refreshedAt := refreshedAt));
      nextId' == nextId && t' == if saved.Ok? then saved.value else t
  }

  /** One statement of a delete: the tables, the next statement, and the bindings whose artifacts are still to go. */
  ghost predicate Deletes(t: Tables, del: DeleteCall, scope: Scope, bindings: set<uint64>, seen: Tables,
                          t': Tables, del': DeleteCall, bindings': set<uint64>)
  {
    match del
    case FindBindings =>
      && t' == t
      && bindings' == (if scope.OfBinding? then {scope.b} else ManagementRepo.BindingIDs(seen, scope.acct))
      && del' == if bindings' == {} then ArtifactsOfAccount else Artifacts
    case ArtifactsOfAccount =>
      t' == t.(artifacts := ArtsWithoutScope(t.artifacts, scope)) && del' == Profiles && bindings' == bindings
    case Artifacts =>
      exists b <- bindings ::
        && t' == t.(artifacts := ArtsWithout(t.artifacts, b))
        && bindings' == bindings - {b} && del' == if bindings' == {} then Profiles else Artifacts
    case Profiles => t' == t.(profiles := ProfsWithoutScope(t.profiles, scope)) && del' == Devices && bindings' == bindings
    case Devices => t' == t.(devices := DevsWithoutScope(t.devices, scope)) && del' == Credentials && bindings' == bindings
    case Credentials => t' == t.(creds := CredsWithoutScope(t.creds, scope)) && del' == DeleteOver && bindings' == bindings
    case DeleteOver => t' == t && del' == del && bindings' == bindings
  }

  function CredsWithoutScope(m: map<uint64, Cred>, scope: Scope): map<uint64, Cred> {
    if scope.OfBinding? then CredsWithout(m, scope.b) else CredsWithoutAcct(m, scope.acct)
  }

  function DevsWithoutScope(m: map<DKey, Dev>, scope: Scope): map<DKey, Dev> {
    if scope.OfBinding? then DevsWithout(m, scope.b) else DevsWithoutAcct(m, scope.acct)
  }

  function ProfsWithoutScope(m: map<PKey, Prof>, scope: Scope): map<PKey, Prof> {
    if scope.OfBinding? then ProfsWithout(m, scope.b) else ProfsWithoutAcct(m, scope.acct)
  }

  function ArtsWithoutScope(m: map<AKey, Art>, scope: Scope): map<AKey, Art> {
    if scope.OfBinding? then ArtsWithout(m, scope.b) else ArtsWithoutAcct(m, scope.acct)
  }

  /** A call of one request that does not fail. */
  ghost predicate Calls(t: Tables, nextId: nat, rq: Request, env: Env, t': Tables, nextId': nat, rq': Request) {
    match rq
    case Bind(bind) =>
      var r := BindCallOn(t, nextId, bind);
      if r.Ok? then t' == r.value.0 && nextId' == r.value.1 && rq' == Bind(BindGoesOn(bind, env.seen, env.now))
      else t' == t && nextId' == nextId && rq' == Bind(BindFails(bind))
    case FindThenWrite(Find, account, writing, _) =>
      && t' == t && nextId' == nextId
      && rq'.FindThenWrite? && FoundIn(env.seen, account, rq'.found)
      && rq' == FindThenWrite(if rq'.found.Some? then Write else Over, account, writing, rq'.found)
    case FindThenWrite(Write, account, writing, found) =>
      && found.Some? && Writes(t, nextId, found.value, writing, t', nextId')
      && rq' == FindThenWrite(Over, account, writing, found)
    case Confirm(Clear, binding, of, who) =>
      && rq' == Confirm(Mark, binding, of, who) && nextId' == nextId
      && t' == t.(profiles := ProfileRepo.Cleared(t.profiles, binding))
    case Confirm(Mark, binding, of, who) =>
      var marked := ProfileRepo.Marked(t.profiles, ProfileRepo.Candidates(t.profiles, binding, of, who));
      && rq' == Confirm(Chosen, binding, of, who) && nextId' == nextId
      && t' == if OneDefault(marked) then t.(profiles := marked) else t
    case Delete(del, scope, bindings) =>
      && rq'.Delete? && rq'.scope == scope && nextId' == nextId
      && Deletes(t, del, scope, bindings, env.seen, t', rq'.del, rq'.bindings)
    case _ => t' == t && nextId' == nextId && rq' == rq
  }

  /** A call that fails changes nothing; a bind goes on to its compensation, other requests end. */
  function AfterFailure(rq: Request): Request {
    match rq
    case Bind(bind) => Bind(BindFails(bind))
    case FindThenWrite(_, account, writing, found) => FindThenWrite(Over, account, writing, found)
    case Confirm(_, binding, of, who) => Confirm(Chosen, binding, of, who)
    case Delete(_, scope, bindings) => Delete(DeleteOver, scope, bindings)
  }

  ghost predicate Stored(moments: seq<Tables>, t: Tables) {
    && (forall k <- t.creds :: exists m <- moments :: k in m.creds && m.creds[k] == t.creds[k])
    && (forall k <- t.devices :: exists m <- moments :: k in m.devices && m.devices[k] == t.devices[k])
    && (forall k <- t.profiles :: exists m <- moments :: k in m.profiles && m.profiles[k] == t.profiles[k])
    && (forall k <- t.artifacts :: exists m <- moments :: k in m.artifacts && m.artifacts[k] == t.artifacts[k])
  }

  /** Every row of `t` was stored, under the same key, at some moment so far. */
  ghost predicate RowsSoFar(s: Sys, t: Tables) {
    Stored(s.past + [s.t], t)
  }

  /** What happens next: a request arrives, a request makes a call, or a transaction is rolled back. */
  datatype Action =
    | Arrival(id: nat, rq: Request)
    | Call(id: nat, env: Env, after: Request)
    | Rollback

  ghost predicate Next(s: Sys, a: Action, s': Sys) {
    match a
    case Arrival(id, rq) => id !in s.requests && Arrives(rq) && s' == s.(requests := s.requests[id := rq])
    case Call(id, env, after) =>
      // reads see the tables as they are, or rows as they were at some earlier moment
      && id in s.requests && RowsSoFar(s, env.seen)
      && s'.requests == s.requests[id := after] && s'.past == s.past + [s.t]
      && (if env.fails then s'.t == s.t && s'.nextId == s.nextId && after == AfterFailure(s.requests[id])
          else Calls(s.t, s.nextId, s.requests[id], env, s'.t, s'.nextId, after))
    case Rollback =>
      // whatever the isolation level, only rows stored before come back
      RowsSoFar(s, s'.t) && s' == s.(t := s'.t, past := s.past + [s.t])
  }

  /** A request as the service starts it: a bind prepared for a real binding, anything else as it comes. */
  predicate Arrives(rq: Request) {
    match rq
    case Bind(bind) => bind.call == Lookup && PreparedFor(bind.input, bind.prep) && bind.existing == None
    case FindThenWrite(step, _, _, found) => step == Find && found == None
    case Confirm(choosing, _, _, _) => choosing == Clear
    case Delete(del, _, bindings) => del == FindBindings && bindings == {}
  }

  // ---------- key agreement under every schedule ----------

  /** A credential that a request has read names its own binding. */
  predicate ReadAgrees(found: Option<Cred>) {
    found.Some? ==> Names(found.value.acct, found.value.binding)
  }

  /** What a request carries agrees with what it was asked for. */
  predicate Carries(rq: Request) {
    match rq
    case Bind(bind) =>
      && PreparedFor(bind.input, bind.prep) && ReadAgrees(bind.existing)
      && (bind.existing.Some? ==> bind.existing.value.binding == bind.input.binding)
    case FindThenWrite(_, account, _, found) => ReadAgrees(found) && (found.Some? ==> found.value.acct == account)
    case Delete(_, OfBinding(x), bindings) => forall b <- bindings :: b == x
    case Delete(_, OfAccount(acct), bindings) => forall b <- bindings :: Names(acct, b)
    case _ => true
  }

  ghost predicate Inv(s: Sys) {
    && KeyAgree(s.t)
    && (forall m <- s.past :: KeyAgree(m))
    && (forall id <- s.requests :: Carries(s.requests[id]))
  }

  lemma StoredAgrees(moments: seq<Tables>, t: Tables)
    requires (forall m <- moments :: KeyAgree(m)) && Stored(moments, t)
    ensures KeyAgree(t)
  {
  }

  lemma SaveCredAgrees(t: Tables, c: Cred)
    requires CredsNamed(t.creds) && Names(c.acct, c.binding)
    ensures CredsNamed(t.creds[c.binding := c])
  {
  }

  lemma SaveDeviceAgrees(devices: map<DKey, Dev>, nextId: nat, d: DeviceRepo.Device)
    requires DevsNamed(devices) && Names(d.acct, d.binding)
    ensures DevsNamed(DeviceRepo.Saved(devices, nextId, d))
  {
  }

  lemma SaveProfileAgrees(profiles: map<PKey, Prof>, nextId: nat, p: ProfileRepo.Profile)
    requires ProfsNamed(profiles) && Names(p.acct, p.binding)
    ensures ProfileRepo.Saved(profiles, nextId, p).Ok? ==> ProfsNamed(ProfileRepo.Saved(profiles, nextId, p).value.0)
  {
  }

  /** Every statement of a bind keeps each table's rows named by their accounts. */
  lemma BindCallAgrees(t: Tables, nextId: nat, rq: BindRequest)
    requires KeyAgree(t) && Carries(Bind(rq)) && BindCallOn(t, nextId, rq).Ok?
    ensures KeyAgree(BindCallOn(t, nextId, rq).value.0)
  {
    BindLaws.PreparedNames(rq.input, rq.prep);
    match rq.call
    case SaveCredential => SaveCredAgrees(t, NewCred(rq.input, rq.prep, rq.at));
    case SaveDevice => SaveDeviceAgrees(t.devices, nextId, NewDevice(rq.input, rq.prep, rq.at));
    case SaveProfile =>
      if rq.i < |rq.prep.profiles| {
        SaveProfileAgrees(t.profiles, nextId, NewProfile(rq.input, rq.prep, rq.at, rq.i));
      }
    case UndoCredential =>
      if PreviousOf(rq) != "" {
        SaveCredAgrees(t, rq.existing.value);
      }
    case _ =>
  }

  lemma BindCarries(rq: BindRequest, seen: Tables, now: int)
    requires CredsNamed(seen.creds) && Carries(Bind(rq))
    ensures Carries(Bind(BindGoesOn(rq, seen, now))) && Carries(Bind(BindFails(rq)))
  {
    BindFailsOnlyMoves(rq);
    if rq.call == Lookup && rq.input.binding in seen.creds {
      assert Names(seen.creds[rq.input.binding].acct, rq.input.binding);
    }
  }

  lemma BindFailsOnlyMoves(rq: BindRequest)
    ensures BindFails(rq) == rq.(call := BindFails(rq).call)
  {
  }

  lemma WriteAgrees(t: Tables, nextId: nat, c: Cred, writing: Writing, t': Tables, nextId': nat)
    requires KeyAgree(t) && Names(c.acct, c.binding) && Writes(t, nextId, c, writing, t', nextId')
    ensures KeyAgree(t')
  {
  }

  lemma CallAgrees(t: Tables, nextId: nat, rq: Request, env: Env, t': Tables, nextId': nat, rq': Request)
    requires KeyAgree(t) && KeyAgree(env.seen) && Carries(rq) && Calls(t, nextId, rq, env, t', nextId', rq')
    ensures KeyAgree(t') && Carries(rq')
  {
    match rq
    case Bind(bind) =>
      BindCarries(bind, env.seen, env.now);
      if BindCallOn(t, nextId, bind).Ok? {
        BindCallAgrees(t, nextId, bind);
      }
    case FindThenWrite(Write, _, writing, found) => WriteAgrees(t, nextId, found.value, writing, t', nextId');
    case FindThenWrite(_, _, _, _) => assert CredsNamed(env.seen.creds);
    case Confirm(_, binding, of, who) => MarkAgrees(t.profiles, binding, ProfileRepo.Candidates(t.profiles, binding, of, who));
    case Delete(del, scope, bindings) =>
      DeleteAgrees(t, del, scope, bindings, env.seen, t', rq'.del, rq'.bindings);
      DeleteCarries(t, del, scope, bindings, env.seen, t', rq'.del, rq'.bindings);
  }

  lemma MarkAgrees(profiles: map<PKey, Prof>, b: uint64, marks: set<PKey>)
    requires ProfsNamed(profiles)
    ensures ProfsNamed(ProfileRepo.Cleared(profiles, b)) && ProfsNamed(ProfileRepo.Marked(profiles, marks))
  {
  }

  lemma DeleteAgrees(t: Tables, del: DeleteCall, scope: Scope, bindings: set<uint64>, seen: Tables,
                     t': Tables, del': DeleteCall, bindings': set<uint64>)
    requires KeyAgree(t) && Deletes(t, del, scope, bindings, seen, t', del', bindings')
    ensures KeyAgree(t')
  {
  }

  lemma DeleteCarries(t: Tables, del: DeleteCall, scope: Scope, bindings: set<uint64>, seen: Tables,
                      t': Tables, del': DeleteCall, bindings': set<uint64>)
    requires KeyAgree(seen) && Carries(Delete(del, scope, bindings))
    requires Deletes(t, del, scope, bindings, seen, t', del', bindings')
    ensures Carries(Delete(del', scope, bindings'))
  {
    if del == FindBindings && scope.OfAccount? {
      ManagementRepo.FoundBindingsAreNamed(seen, scope.acct);
    }
  }

  lemma StepAgrees(s: Sys, a: Action, s': Sys)
    requires Inv(s) && Next(s, a, s')
    ensures Inv(s')
  {
    var moments := s.past + [s.t];
    match a
    case Arrival(_, _) =>
    case Call(id, env, after) =>
      StoredAgrees(moments, env.seen);
      if env.fails {
        if s.requests[id].Bind? {
          BindCarries(s.requests[id].bind, env.seen, env.now);
        }
      } else {
        CallAgrees(s.t, s.nextId, s.requests[id], env, s'.t, s'.nextId, after);
      }
    case Rollback => StoredAgrees(moments, s'.t);
  }

  ghost predicate NextAt(ss: seq<Sys>, acts: seq<Action>, i: nat)
    requires |ss| == |acts| + 1 && i < |acts|
  {
    Next(ss[i], acts[i], ss[i + 1])
  }

  ghost predicate Run(ss: seq<Sys>, acts: seq<Action>) {
    && |ss| == |acts| + 1 && ss[0] == Sys(EmptyTables, 1, map[], [])
    && forall i :: 0 <= i < |acts| ==> NextAt(ss, acts, i)
  }

  /** Under any interleaving, every stored row's binding is the one its account id names. */
  lemma {:induction false} EveryScheduleAgrees(ss: seq<Sys>, acts: seq<Action>, i: nat)
    requires Run(ss, acts) && i < |ss|
    ensures Inv(ss[i])
  {
    if i > 0 {
      EveryScheduleAgrees(ss, acts, i - 1);
      assert NextAt(ss, acts, i - 1);
      StepAgrees(ss[i - 1], acts[i - 1], ss[i]);
    }
  }

  // ---------- guarded requests stay in their binding ----------

  /** The request passed this guard: by account where it names an account, by binding where it names a binding. */
  predicate Guarded(rq: Request, g: Guard) {
    match rq
    case Bind(bind) => bind.input.binding == g.binding
    case FindThenWrite(_, account, _, _) => g.RequirePlatformAccountID(account).None?
    case Confirm(_, binding, of, _) => binding == g.binding && g.RequirePlatformAccountID(of).None?
    case Delete(_, OfBinding(b), _) => b == g.binding
    case Delete(_, OfAccount(acct), _) => g.RequirePlatformAccountID(acct).None?
  }

  /** What the request has read from the tables is of this binding only. */
  predicate ReadsWithin(rq: Request, b: uint64) {
    match rq
    case Bind(bind) => bind.existing.Some? ==> bind.existing.value.binding == b
    case FindThenWrite(_, _, _, found) => found.Some? ==> found.value.binding == b
    case Confirm(_, _, _, _) => true
    case Delete(_, _, bindings) => forall x <- bindings :: x == b
  }

  lemma CarriedIsWithin(rq: Request, g: Guard)
    requires Carries(rq) && Guarded(rq, g)
    ensures ReadsWithin(rq, g.binding)
  {
  }

  /** A write that only touches rows of the binding leaves the others as they are. */
  lemma CredWritten(t: Tables, c: Cred)
    ensures Others(t.(creds := t.creds[c.binding := c]), c.binding) == Others(t, c.binding)
  {
    assert CredsWithout(t.creds[c.binding := c], c.binding) == CredsWithout(t.creds, c.binding);
  }

  lemma DeviceWritten(t: Tables, nextId: nat, d: DeviceRepo.Device)
    ensures Others(t.(devices := DeviceRepo.Saved(t.devices, nextId, d)), d.binding) == Others(t, d.binding)
  {
    assert DevsWithout(DeviceRepo.Saved(t.devices, nextId, d), d.binding) == DevsWithout(t.devices, d.binding);
  }

  lemma ProfileWritten(t: Tables, nextId: nat, p: ProfileRepo.Profile)
    requires ProfileRepo.Saved(t.profiles, nextId, p).Ok?
    ensures Others(t.(profiles := ProfileRepo.Saved(t.profiles, nextId, p).value.0), p.binding) == Others(t, p.binding)
  {
    assert ProfsWithout(ProfileRepo.Saved(t.profiles, nextId, p).value.0, p.binding) == ProfsWithout(t.profiles, p.binding);
  }

  lemma ArtifactWritten(t: Tables, k: AKey, art: Art)
    ensures Others(t.(artifacts := t.artifacts[k := art]), k.binding) == Others(t, k.binding)
  {
    assert ArtsWithout(t.artifacts[k := art], k.binding) == ArtsWithout(t.artifacts, k.binding);
  }

  /** Deleting by the account leaves other bindings' rows. */
  predicate DeletesWithin(t: Tables, acct: string, b: uint64) {
    && CredsWithout(CredsWithoutAcct(t.creds, acct), b) == CredsWithout(t.creds, b)
    && DevsWithout(DevsWithoutAcct(t.devices, acct), b) == DevsWithout(t.devices, b)
    && ProfsWithout(ProfsWithoutAcct(t.profiles, acct), b) == ProfsWithout(t.profiles, b)
    && ArtsWithout(ArtsWithoutAcct(t.artifacts, acct), b) == ArtsWithout(t.artifacts, b)
  }

  lemma AccountDeleted(t: Tables, acct: string, b: uint64)
    requires KeyAgree(t) && (acct == "" || Names(acct, b))
    ensures DeletesWithin(t, acct, b)
  {
    if acct == "" {
      NothingNamed(t);
    } else {
      GuardedDeleteStaysInBinding(t, Guard(b, 0), acct);
    }
  }

  lemma EmptyNamesNothing(b: uint64)
    ensures !Names("", b)
  {
  }

  /** No row carries the empty account. */
  lemma NothingNamed(t: Tables)
    requires KeyAgree(t)
    ensures CredsWithoutAcct(t.creds, "") == t.creds && DevsWithoutAcct(t.devices, "") == t.devices
    ensures ProfsWithoutAcct(t.profiles, "") == t.profiles && ArtsWithoutAcct(t.artifacts, "") == t.artifacts
  {
    forall b | b in t.creds ensures t.creds[b].acct != "" {
      EmptyNamesNothing(b);
    }
    forall k | k in t.devices ensures t.devices[k].acct != "" {
      EmptyNamesNothing(k.binding);
    }
    forall k | k in t.profiles ensures t.profiles[k].acct != "" {
      EmptyNamesNothing(k.binding);
    }
    forall k | k in t.artifacts ensures t.artifacts[k].acct != "" {
      EmptyNamesNothing(k.binding);
    }
  }

  lemma BindingDeleted(t: Tables, b: uint64)
    ensures CredsWithout(CredsWithout(t.creds, b), b) == CredsWithout(t.creds, b)
    ensures DevsWithout(DevsWithout(t.devices, b), b) == DevsWithout(t.devices, b)
    ensures ProfsWithout(ProfsWithout(t.profiles, b), b) == ProfsWithout(t.profiles, b)
    ensures ArtsWithout(ArtsWithout(t.artifacts, b), b) == ArtsWithout(t.artifacts, b)
  {
  }

  lemma BindStaysInBinding(t: Tables, nextId: nat, rq: BindRequest)
    requires KeyAgree(t) && Carries(Bind(rq)) && BindCallOn(t, nextId, rq).Ok?
    ensures Others(BindCallOn(t, nextId, rq).value.0, rq.input.binding) == Others(t, rq.input.binding)
  {
    if Saves(rq) {
      SaveStaysInBinding(t, nextId, rq);
    } else {
      BindLaws.PreparedNames(rq.input, rq.prep);
      AccountDeleted(t, rq.prep.acct, rq.input.binding);
      AccountDeleted(t, PreviousOf(rq), rq.input.binding);
      DropStaysInBinding(t, nextId, rq);
    }
  }

  /** The call writes a row; the other calls of a bind delete rows or leave the tables alone. */
  predicate Saves(rq: BindRequest) {
    rq.call == SaveCredential || rq.call == SaveDevice || rq.call == SaveProfile || (rq.call == UndoCredential && PreviousOf(rq) != "")
  }

  lemma SaveStaysInBinding(t: Tables, nextId: nat, rq: BindRequest)
    requires Saves(rq) && BindCallOn(t, nextId, rq).Ok?
    requires rq.existing.Some? ==> rq.existing.value.binding == rq.input.binding
    ensures Others(BindCallOn(t, nextId, rq).value.0, rq.input.binding) == Others(t, rq.input.binding)
  {
    match rq.call
    case SaveCredential => CredWritten(t, NewCred(rq.input, rq.prep, rq.at));
    case SaveDevice => DeviceWritten(t, nextId, NewDevice(rq.input, rq.prep, rq.at));
    case SaveProfile =>
      if rq.i < |rq.prep.profiles| {
        ProfileWritten(t, nextId, NewProfile(rq.input, rq.prep, rq.at, rq.i));
      }
    case UndoCredential => CredWritten(t, rq.existing.value);
  }

  lemma DropStaysInBinding(t: Tables, nextId: nat, rq: BindRequest)
    requires !Saves(rq) && BindCallOn(t, nextId, rq).Ok?
    requires DeletesWithin(t, rq.prep.acct, rq.input.binding) && DeletesWithin(t, PreviousOf(rq), rq.input.binding)
    ensures Others(BindCallOn(t, nextId, rq).value.0, rq.input.binding) == Others(t, rq.input.binding)
  {
    var b := rq.input.binding;
    if rq.call == DropArtifacts {
      BindingDeleted(t, b);
    } else if rq.call == Prune {
      assert ProfsWithout(ProfileRepo.KeptByBinding(t.profiles, b, Kept(rq.prep)), b) == ProfsWithout(t.profiles, b);
    }
  }

  lemma WriteStaysInBinding(t: Tables, nextId: nat, c: Cred, writing: Writing, t': Tables, nextId': nat)
    requires Writes(t, nextId, c, writing, t', nextId')
    ensures Others(t', c.binding) == Others(t, c.binding)
  {
    match writing
    case WriteDevice(device) => DeviceWritten(t, nextId, device.(binding := c.binding, acct := c.acct));
    case WriteAuthkey(player, art) => ArtifactWritten(t, AKey(c.binding, "authkey", player), art.(acct := c.acct));
    case WriteStatus(status, validatedAt, refreshedAt) =>
      CredWritten(t, c.(status := status, validatedAt := validatedAt, refreshedAt := refreshedAt));
  }

  lemma ChoiceStaysInBinding(t: Tables, b: uint64, acct: string, player: string)
    ensures var cleared := ProfileRepo.Cleared(t.profiles, b);
            Others(t.(profiles := cleared), b) == Others(t, b)
    ensures var marked := ProfileRepo.Marked(t.profiles, ProfileRepo.Candidates(t.profiles, b, acct, player));
            Others(t.(profiles := marked), b) == Others(t, b)
  {
    assert ProfsWithout(ProfileRepo.Cleared(t.profiles, b), b) == ProfsWithout(t.profiles, b);
    var marked := ProfileRepo.Marked(t.profiles, ProfileRepo.Candidates(t.profiles, b, acct, player));
    assert ProfsWithout(marked, b) == ProfsWithout(t.profiles, b);
  }

  lemma DeleteStaysInBinding(t: Tables, del: DeleteCall, scope: Scope, bindings: set<uint64>, seen: Tables,
                             t': Tables, del': DeleteCall, bindings': set<uint64>, b: uint64)
    requires KeyAgree(t) && Deletes(t, del, scope, bindings, seen, t', del', bindings')
    requires if scope.OfBinding? then scope.b == b else Names(scope.acct, b)
    requires forall x <- bindings :: x == b
    ensures Others(t', b) == Others(t, b)
  {
    BindingDeleted(t, b);
    if scope.OfAccount? {
      AccountDeleted(t, scope.acct, b);
    }
  }

  lemma CallStaysInBinding(t: Tables, nextId: nat, rq: Request, env: Env, t': Tables, nextId': nat, rq': Request, g: Guard)
    requires KeyAgree(t) && Carries(rq) && Guarded(rq, g) && Calls(t, nextId, rq, env, t', nextId', rq')
    ensures Others(t', g.binding) == Others(t, g.binding)
  {
    CarriedIsWithin(rq, g);
    match rq
    case Bind(bind) =>
      if BindCallOn(t, nextId, bind).Ok? {
        BindStaysInBinding(t, nextId, bind);
      }
    case FindThenWrite(Write, _, writing, found) => WriteStaysInBinding(t, nextId, found.value, writing, t', nextId');
    case Confirm(_, binding, of, who) => ChoiceStaysInBinding(t, binding, of, who);
    case Delete(del, scope, bindings) => DeleteStaysInBinding(t, del, scope, bindings, env.seen, t', rq'.del, rq'.bindings, g.binding);
    case _ =>
  }

  lemma StaysGuarded(t: Tables, nextId: nat, rq: Request, env: Env, t': Tables, nextId': nat, rq': Request, g: Guard)
    requires Guarded(rq, g) && Calls(t, nextId, rq, env, t', nextId', rq')
    ensures Guarded(rq', g)
  {
  }

  lemma FailureStaysGuarded(rq: Request, g: Guard)
    requires Guarded(rq, g)
    ensures Guarded(AfterFailure(rq), g)
  {
    if rq.Bind? {
      BindFailsOnlyMoves(rq.bind);
    }
  }

  lemma GuardedStep(s: Sys, a: Action, s': Sys, g: Guard)
    requires Inv(s) && Next(s, a, s') && a.Call? && Guarded(s.requests[a.id], g)
    ensures Others(s'.t, g.binding) == Others(s.t, g.binding) && Guarded(a.after, g)
  {
    if !a.env.fails {
      CallStaysInBinding(s.t, s.nextId, s.requests[a.id], a.env, s'.t, s'.nextId, a.after, g);
      StaysGuarded(s.t, s.nextId, s.requests[a.id], a.env, s'.t, s'.nextId, a.after, g);
    } else {
      FailureStaysGuarded(s.requests[a.id], g);
    }
  }

  lemma GuardedReads(s: Sys, id: nat, g: Guard)
    requires Inv(s) && id in s.requests && Guarded(s.requests[id], g)
    ensures ReadsWithin(s.requests[id], g.binding)
  {
    CarriedIsWithin(s.requests[id], g);
  }

  /**
  Under any interleaving, stale reads, failures and rollbacks included, a request that passed
  the guard reads and writes rows of the guard's binding only: what it has read is of that
  binding, and none of its calls changes a row of any other binding.
  */
  lemma GuardHoldsUnderEverySchedule(ss: seq<Sys>, acts: seq<Action>, i: nat, g: Guard)
    requires Run(ss, acts) && i < |acts|
    requires acts[i].Call? && acts[i].id in ss[i].requests && Guarded(ss[i].requests[acts[i].id], g)
    ensures Others(ss[i + 1].t, g.binding) == Others(ss[i].t, g.binding)
    ensures Guarded(acts[i].after, g) && ReadsWithin(acts[i].after, g.binding)
  {
    EveryScheduleAgrees(ss, acts, i);
    EveryScheduleAgrees(ss, acts, i + 1);
    assert NextAt(ss, acts, i);
    GuardedStep(ss[i], acts[i], ss[i + 1], g);
    GuardedReads(ss[i + 1], acts[i].id, g);
  }

  /** And whatever else selects rows by an account that passed the guard selects rows of the guard's binding only. */
  lemma GuardedAccountsUnderEverySchedule(ss: seq<Sys>, acts: seq<Action>, i: nat, g: Guard, acct: string)
    requires Run(ss, acts) && i < |ss| && g.RequirePlatformAccountID(acct).None?
    ensures forall b <- ss[i].t.creds :: ss[i].t.creds[b].acct == acct ==> b == g.binding
    ensures forall k <- ss[i].t.devices :: ss[i].t.devices[k].acct == acct ==> k.binding == g.binding
    ensures forall k <- ss[i].t.profiles :: ss[i].t.profiles[k].acct == acct ==> k.binding == g.binding
    ensures forall k <- ss[i].t.artifacts :: ss[i].t.artifacts[k].acct == acct ==> k.binding == g.binding
  {
    EveryScheduleAgrees(ss, acts, i);
    GuardedAccountStaysInBinding(ss[i].t, g, acct);
  }
}
