/** internal/usecase/bind_usecase.go: binding a credential, in a transaction and by compensation. */
module BindUsecase {
  import opened Basics
  import opened AccountKey
  import opened Db
  import opened Backend
  import opened ArtifactSpec
  import opened ArtifactRepo
  import opened BindSpec
  import opened Runs
  import BindLaws
  import CredentialRepo
  import DeviceRepo
  import ProfileRepo

  /** The summary of a saved profile; its id is the one of the unsaved struct, zero. */
  datatype ProfileSummary = ProfileSummary(id: nat, acct: string, gameBiz: string, region: string, player: string,
                                           nickname: string, level: int, isDefault: bool)

  datatype BindOutput = BindOutput(binding: uint64, acct: string, profiles: seq<ProfileSummary>)

  function ToProfileSummary(p: ProfileRepo.Profile): ProfileSummary {
    ProfileSummary(p.id, p.acct, p.gameBiz, p.region, p.player, p.nickname, p.level, p.isDefault)
  }

  /** The summaries of the first `n` discovered profiles, in order of discovery. */
  function Summaries(input: BindInput, prep: Preparation, at: int, n: nat): seq<ProfileSummary>
    requires n <= |prep.profiles|
  {
    seq(n, i requires 0 <= i < n => ToProfileSummary(NewProfile(input, prep, at, i)))
  }

  /** What the caller is told: the client's profiles in its order, the first as the default, none with an id yet. */
  predicate ReportedProfiles(out: seq<ProfileSummary>, input: BindInput, found: Discovery) {
    && |out| == |found.profiles|
    && forall i :: 0 <= i < |out| ==>
         var p := found.profiles[i];
         out[i] == ProfileSummary(0, FormatPlatformAccountID(input.binding, found.accountId), p.gameBiz, p.region, p.player,
                                  p.nickname, p.level, i == 0)
  }

  lemma SummariesReport(input: BindInput, reply: Result<Discovery, string>, nonce: Option<string>, at: int)
    requires Prepare(input, reply, nonce).Ok?
    ensures var prep := Prepare(input, reply, nonce).value;
            reply.Ok? && ReportedProfiles(Summaries(input, prep, at, |prep.profiles|), input, reply.value)
  {
  }

  lemma SummariesGrow(input: BindInput, prep: Preparation, at: int, n: nat)
    requires n < |prep.profiles|
    ensures Summaries(input, prep, at, n + 1) == Summaries(input, prep, at, n) + [ToProfileSummary(NewProfile(input, prep, at, n))]
  {
  }

  /** Saves the discovered profiles one by one, the first as the default. */
  method SaveDiscovered(s: Storage, input: BindInput, prep: Preparation, at: int)
    returns (r: Option<Failure>, output: seq<ProfileSummary>)
    requires s.Valid()
    modifies s`faults, s`profiles, s`nextId
    ensures s.Valid() && s.faults >= old(s.faults) && s.nextId >= old(s.nextId)
    ensures s.faults > old(s.faults) ==> r == Some(StorageFault)
    ensures s.faults == old(s.faults) ==>
              match SavedUpTo(old(s.profiles), old(s.nextId), input, prep, at, |prep.profiles|)
              case Ok(p) => r == None && s.profiles == p.0 && s.nextId == p.1
              case Err(e) => r == Some(e)
    ensures r.None? ==> output == Summaries(input, prep, at, |prep.profiles|)
    ensures OnlyTouched(old(s.profiles), s.profiles, input.binding, prep.acct)
  {
    output := [];
    r := None;
    ghost var rows, id := s.profiles, s.nextId;
    for i := 0 to |prep.profiles|
      invariant s.Valid() && s.faults == old(s.faults) && r == None && s.nextId >= id
      invariant SavedUpTo(rows, id, input, prep, at, i) == Ok((s.profiles, s.nextId))
      invariant output == Summaries(input, prep, at, i)
      invariant OnlyTouched(rows, s.profiles, input.binding, prep.acct)
    {
      var profile := NewProfile(input, prep, at, i);
      SavedOneMore(rows, id, input, prep, at, i, s.profiles, s.nextId);
      ghost var before, nextId := s.profiles, s.nextId;
      r := ProfileRepo.Save(s, profile);
      if r.Some? {
        if s.faults == old(s.faults) {
          RefusalSticks(rows, id, input, prep, at, i + 1, |prep.profiles|);
        }
        return;
      }
      TouchedOneMore(rows, before, s.profiles, profile, nextId, s.nextId);
      SummariesGrow(input, prep, at, i);
      output := output + [ToProfileSummary(profile)];
    }
  }

  lemma SavedOneMore(profiles: map<PKey, Prof>, nextId: nat, input: BindInput, prep: Preparation, at: int, n: nat,
                     rows: map<PKey, Prof>, next: nat)
    requires n < |prep.profiles| && SavedUpTo(profiles, nextId, input, prep, at, n) == Ok((rows, next))
    ensures SavedUpTo(profiles, nextId, input, prep, at, n + 1) == ProfileRepo.Saved(rows, next, NewProfile(input, prep, at, n))
  {
  }

  /** Rows that do not carry the account are rows from before, and rows of other bindings stay. */
  ghost predicate OnlyTouched(before: map<PKey, Prof>, after: map<PKey, Prof>, b: uint64, acct: string) {
    && (forall k <- after :: (k in before && after[k] == before[k]) || (k.binding == b && after[k].acct == acct))
    && (forall k <- before :: k in after)
  }

  lemma TouchedOneMore(before: map<PKey, Prof>, rows: map<PKey, Prof>, after: map<PKey, Prof>, p: ProfileRepo.Profile,
                      nextId: nat, next: nat)
    requires OnlyTouched(before, rows, p.binding, p.acct) && ProfileRepo.Saved(rows, nextId, p) == Ok((after, next))
    ensures OnlyTouched(before, after, p.binding, p.acct)
  {
  }

  /** Replaces the binding's profiles by the discovered ones. */
  method StoreProfiles(s: Storage, input: BindInput, prep: Preparation, previous: string, at: int)
    returns (r: Option<Failure>, output: seq<ProfileSummary>)
    requires s.Valid()
    modifies s`faults, s`profiles, s`nextId
    ensures s.Valid() && s.faults >= old(s.faults) && s.nextId >= old(s.nextId)
    ensures s.faults > old(s.faults) ==> r == Some(StorageFault)
    ensures s.faults == old(s.faults) ==>
              match SavedUpTo(ProfilesKept(old(s.profiles), prep, previous), old(s.nextId), input, prep, at, |prep.profiles|)
              case Ok(p) => r == None && s.profiles == p.0 && s.nextId == p.1
              case Err(e) => r == Some(e)
    ensures r.None? ==> output == Summaries(input, prep, at, |prep.profiles|)
    ensures s.profiles == old(s.profiles) ||
            OnlyTouched(ProfilesKept(old(s.profiles), prep, previous), s.profiles, input.binding, prep.acct)
  {
    output := [];
    if previous != "" {
      r := ProfileRepo.DeleteByPlatformAccountID(s, previous);
    } else {
      r := ProfileRepo.DeleteByPlatformAccountID(s, prep.acct);
    }
    if r.Some? {
      return;
    }
    r, output := SaveDiscovered(s, input, prep, at);
  }

  /** The part of a bind that the deferred compensation covers. */
  method StoreRows(s: Storage, input: BindInput, prep: Preparation, previous: string, at: int)
    returns (r: Option<Failure>, output: seq<ProfileSummary>)
    requires s.Valid()
    modifies s`faults, s`creds, s`devices, s`profiles, s`nextId
    ensures s.Valid() && s.faults >= old(s.faults) && s.nextId >= old(s.nextId)
    ensures s.faults > old(s.faults) ==> r == Some(StorageFault)
    ensures s.faults == old(s.faults) ==>
              match StoreOutcome(old(s.Rows()), old(s.nextId), input, prep, previous, at)
              case Ok(p) => r == None && s.Rows() == p.0 && s.nextId == p.1
              case Err(e) => r == Some(e)
    ensures r.None? ==> output == Summaries(input, prep, at, |prep.profiles|)
    ensures r.Some? ==> s.creds == old(s.creds)
    ensures previous == "" ==> s.devices == old(s.devices) ||
                               s.devices == DeviceRepo.Saved(old(s.devices), old(s.nextId), NewDevice(input, prep, at))
    ensures previous == "" ==> s.profiles == old(s.profiles) ||
                               OnlyTouched(ProfsWithoutAcct(old(s.profiles), prep.acct), s.profiles, input.binding, prep.acct)
  {
    output := [];
    r := DeviceRepo.Save(s, NewDevice(input, prep, at));
    if r.Some? {
      return;
    }
    r, output := StoreProfiles(s, input, prep, previous, at);
    if r.Some? {
      return;
    }
    if previous != "" {
      r := DropPrevious(s, previous);
    }
  }

  /** After an account switch, deletes the rest of the previous account. */
  method DropPrevious(s: Storage, previous: string) returns (r: Option<Failure>)
    requires s.Valid()
    modifies s`faults, s`creds, s`devices
    ensures s.Valid() && s.faults >= old(s.faults)
    ensures r == if s.faults == old(s.faults) then None else Some(StorageFault)
    ensures r.None? ==> s.devices == DevsWithoutAcct(old(s.devices), previous) && s.creds == CredsWithoutAcct(old(s.creds), previous)
    ensures r.Some? ==> s.creds == old(s.creds)
  {
    r := DeviceRepo.DeleteByPlatformAccountID(s, previous);
    if r.Some? {
      return;
    }
    r := CredentialRepo.DeleteByPlatformAccountID(s, previous);
  }

  /** The tables after a compensation whose writes all succeed. */
  function Compensated(t: Tables, existing: Option<Cred>, acct: string, previous: string): Tables {
    Tables(if previous != "" && existing.Some? then
             if CredFits(t.creds, existing.value) then t.creds[existing.value.binding := existing.value] else t.creds
           else CredsWithoutAcct(t.creds, acct),
           DevsWithoutAcct(t.devices, acct), ProfsWithoutAcct(t.profiles, acct), t.artifacts)
  }

  /** The deferred function: undoes what it can, ignoring every error. */
  method Compensate(s: Storage, existing: Option<Cred>, acct: string, previous: string)
    requires s.Valid() && (previous != "" ==> existing.Some?)
    modifies s`faults, s`creds, s`devices, s`profiles
    ensures s.Valid() && s.faults >= old(s.faults)
    ensures s.faults == old(s.faults) ==> s.Rows() == Compensated(old(s.Rows()), existing, acct, previous)
  {
    var ignored := ProfileRepo.DeleteByPlatformAccountID(s, acct);
    ignored := DeviceRepo.DeleteByPlatformAccountID(s, acct);
    if previous != "" {
      ignored := CredentialRepo.Save(s, existing.value);
      return;
    }
    ignored := CredentialRepo.DeleteByPlatformAccountID(s, acct);
  }

  /** Neither the binding nor the account has a row anywhere. */
  ghost predicate Fresh(t: Tables, b: uint64, acct: string) {
    && b !in t.creds && (forall x <- t.creds :: t.creds[x].acct != acct)
    && (forall k <- t.devices :: k.binding != b && t.devices[k].acct != acct)
    && (forall k <- t.profiles :: k.binding != b && t.profiles[k].acct != acct)
    && (forall k <- t.artifacts :: k.binding != b)
  }

  /** In a state where accounts and bindings agree, a binding without a credential is fresh. */
  lemma UnboundIsFresh(t: Tables, input: BindInput, prep: Preparation)
    requires AcctAgree(t) && PreparedFor(input, prep) && input.binding !in t.creds
    ensures Fresh(t, input.binding, prep.acct)
  {
    BindLaws.PreparedNames(input, prep);
    AcctAgreeImpliesKeyAgree(t);
  }

  /** Compensation undoes a fresh bind that stopped anywhere after its credential was saved. */
  lemma CompensationUndoesFresh(t: Tables, nextId: nat, stopped: Tables, input: BindInput, prep: Preparation, at: int)
    requires Fresh(t, input.binding, prep.acct)
    requires stopped.creds == t.creds[input.binding := NewCred(input, prep, at)] && stopped.artifacts == t.artifacts
    requires stopped.devices == t.devices || stopped.devices == DeviceRepo.Saved(t.devices, nextId, NewDevice(input, prep, at))
    requires stopped.profiles == t.profiles ||
             OnlyTouched(ProfsWithoutAcct(t.profiles, prep.acct), stopped.profiles, input.binding, prep.acct)
    ensures Compensated(stopped, None, prep.acct, "") == t
  {
    assert ProfsWithoutAcct(t.profiles, prep.acct) == t.profiles;
    assert ProfsWithoutAcct(stopped.profiles, prep.acct) == t.profiles;
    assert DevsWithoutAcct(stopped.devices, prep.acct) == t.devices;
    assert CredsWithoutAcct(stopped.creds, prep.acct) == t.creds;
  }

  /** The same, said of the tables in which the credential has just been saved. */
  lemma FreshIsRestored(t: Tables, nextId: nat, stopped: Tables, input: BindInput, prep: Preparation, at: int)
    requires Fresh(t, input.binding, prep.acct)
    requires var started := Started(t, input, prep, at);
             && stopped.creds == started.creds && stopped.artifacts == started.artifacts
             && (stopped.devices == started.devices ||
                 stopped.devices == DeviceRepo.Saved(started.devices, nextId, NewDevice(input, prep, at)))
             && (stopped.profiles == started.profiles ||
                 OnlyTouched(ProfsWithoutAcct(started.profiles, prep.acct), stopped.profiles, input.binding, prep.acct))
    ensures Compensated(stopped, CredentialRepo.FindByBinding(t.creds, input.binding), prep.acct, "") == t
  {
    assert ArtsWithout(t.artifacts, input.binding) == t.artifacts;
    CompensationUndoesFresh(t, nextId, stopped, input, prep, at);
  }

  /** Where a bind stopped: before its credential was saved, after it, or nowhere. */
  datatype Stage = Unsaved | Saved | Done

  /** The steps before the deferred compensation is armed. */
  method Start(s: Storage, input: BindInput, prep: Preparation)
    returns (r: Result<Option<Cred>, Failure>, at: int)
    requires s.Valid()
    modifies s`faults, s`now, s`creds, s`artifacts, s`cache
    ensures s.Valid() && s.faults >= old(s.faults) && old(s.now) <= at <= s.now
    ensures s.faults > old(s.faults) ==> r == Err(StorageFault)
    ensures s.faults == old(s.faults) ==>
              if CredFits(old(s.creds), NewCred(input, prep, at)) then r.Ok? else r == Err(DuplicateKey)
    ensures r.Ok? ==> r.value == CredentialRepo.FindByBinding(old(s.creds), input.binding)
                      && s.Rows() == Started(old(s.Rows()), input, prep, at) && s.faults == old(s.faults)
                      && s.cache == old(s.cache) - KeysOfBinding(s.prefix, old(s.artifacts), input.binding)
    ensures r.Err? ==> s.creds == old(s.creds)
    ensures s.artifacts == old(s.artifacts) || s.artifacts == ArtsWithout(old(s.artifacts), input.binding)
    ensures LostOnly(old(s.cache), s.cache, KeysOfBinding(s.prefix, old(s.artifacts), input.binding))
    ensures s.faults == old(s.faults) ==> s.cache == old(s.cache) - KeysOfBinding(s.prefix, old(s.artifacts), input.binding)
  {
    at := s.now;
    r := CredentialRepo.GetByBindingID(s, input.binding);
    if r.Err? {
      return;
    }
    var failure := ArtifactRepo.DeleteByBindingID(s, input.binding);
    if failure.Some? {
      r := Err(failure.value);
      return;
    }
    at := s.Clock();
    failure := CredentialRepo.Save(s, NewCred(input, prep, at));
    if failure.Some? {
      r := Err(failure.value);
    }
  }

  /** The steps under the deferred compensation; `t` are the tables before the bind. */
  method StoreOrCompensate(s: Storage, input: BindInput, prep: Preparation, existing: Option<Cred>, at: int, ghost t: Tables)
    returns (r: Result<BindOutput, Failure>, ghost undone: bool)
    requires s.Valid() && CredKeys(t.creds)
    requires s.Rows() == Started(t, input, prep, at) && existing == CredentialRepo.FindByBinding(t.creds, input.binding)
    modifies s`faults, s`creds, s`devices, s`profiles, s`nextId
    ensures s.Valid() && s.faults >= old(s.faults) && s.nextId >= old(s.nextId)
    ensures s.faults == old(s.faults) ==>
              match StoreOutcome(old(s.Rows()), old(s.nextId), input, prep, Previous(t.creds, input.binding, prep.acct), at)
              case Ok(p) => r.Ok? && s.Rows() == p.0 && s.nextId == p.1
              case Err(e) => r == Err(e)
    ensures r.Ok? ==> s.faults == old(s.faults)
    ensures r.Ok? ==> r.value == BindOutput(input.binding, prep.acct, Summaries(input, prep, at, |prep.profiles|))
    ensures r.Err? && undone ==>
              && (Fresh(t, input.binding, prep.acct) ==> s.Rows() == t)
              && (s.creds == t.creds <==> Restorable(t.creds, input.binding, prep.acct))
  {
    undone := true;
    var previous := "";
    if existing.Some? && existing.value.acct != "" && existing.value.acct != prep.acct {
      previous := existing.value.acct;
    }
    var failure, output := StoreRows(s, input, prep, previous, at);
    if failure.None? {
      r := Ok(BindOutput(input.binding, prep.acct, output));
      return;
    }
    r := Err(failure.value);
    ghost var faults, stopped := s.faults, s.Rows();
    Compensate(s, existing, prep.acct, previous);
    undone := s.faults == faults;
    if Fresh(t, input.binding, prep.acct) {
      FreshIsRestored(t, old(s.nextId), stopped, input, prep, at);
    }
    CredentialRestoredIff(t, stopped, input, prep, at);
  }

  /** The binding had no credential, or one with another account. */
  predicate Restorable(creds: map<uint64, Cred>, b: uint64, acct: string) {
    b !in creds || (creds[b].acct != acct && creds[b].acct != "")
  }

  /** A compensation brings the credential back exactly when the bind did not keep the account. */
  lemma CredentialRestoredIff(t: Tables, stopped: Tables, input: BindInput, prep: Preparation, at: int)
    requires CredKeys(t.creds) && stopped.creds == Started(t, input, prep, at).creds && CredKeys(stopped.creds)
    ensures var existing := CredentialRepo.FindByBinding(t.creds, input.binding);
            var after := Compensated(stopped, existing, prep.acct, Previous(t.creds, input.binding, prep.acct));
            after.creds == t.creds <==> Restorable(t.creds, input.binding, prep.acct)
  {
    var b := input.binding;
    var c := NewCred(input, prep, at);
    assert stopped.creds[b] == c && CredFits(stopped.creds, c);
    if b in t.creds && t.creds[b].acct != prep.acct && t.creds[b].acct != "" {
      assert CredFits(t.creds, t.creds[b]);
      assert CredFits(stopped.creds, t.creds[b]);
      assert stopped.creds[b := t.creds[b]] == t.creds;
    } else {
      assert b !in CredsWithoutAcct(stopped.creds, prep.acct);
      if b !in t.creds {
        assert CredsWithoutAcct(stopped.creds, prep.acct) == t.creds;
      }
    }
  }

  /**
  The body of the bind. `undone` says that the deferred compensation, if it ran, ran without
  a storage fault of its own; `stage` says where the bind stopped.
  */
  method BindPrepared(s: Storage, input: BindInput, prep: Preparation)
    returns (r: Result<BindOutput, Failure>, at: int, ghost stage: Stage, ghost undone: bool)
    requires s.Valid()
    modifies s`faults, s`now, s`creds, s`devices, s`profiles, s`artifacts, s`nextId, s`cache
    ensures s.Valid() && s.faults >= old(s.faults) && s.nextId >= old(s.nextId) && old(s.now) <= at <= s.now
    ensures s.faults == old(s.faults) ==>
              match BindOutcome(old(s.Rows()), old(s.nextId), input, prep, at)
              case Ok(p) => r.Ok? && s.Rows() == p.0 && s.nextId == p.1
              case Err(e) => r == Err(e)
    ensures r.Ok? ==> s.faults == old(s.faults)
    ensures r.Ok? ==> r.value == BindOutput(input.binding, prep.acct, Summaries(input, prep, at, |prep.profiles|))
    ensures LostOnly(old(s.cache), s.cache, KeysOfBinding(s.prefix, old(s.artifacts), input.binding))
    ensures s.faults == old(s.faults) ==> s.cache == old(s.cache) - KeysOfBinding(s.prefix, old(s.artifacts), input.binding)
    ensures r.Ok? <==> stage == Done
    // compensation alone, without any transaction
    ensures r.Err? && undone && Fresh(old(s.Rows()), input.binding, prep.acct) ==> s.Rows() == old(s.Rows())
    ensures stage == Unsaved ==> s.creds == old(s.creds)
    ensures stage == Saved && undone ==>
              (s.creds == old(s.creds) <==> Restorable(old(s.creds), input.binding, prep.acct))
  {
    ghost var t := s.Rows();
    var existing;
    existing, at := Start(s, input, prep);
    if existing.Err? {
      stage, undone := Unsaved, true;
      r := Err(existing.error);
      return;
    }
    r, undone := StoreOrCompensate(s, input, prep, existing.value, at, t);
    stage := if r.Ok? then Done else Saved;
  }

  lemma PreparesFor(input: BindInput, reply: Result<Discovery, string>, nonce: Option<string>)
    requires Prepare(input, reply, nonce).Ok?
    ensures PreparedFor(input, Prepare(input, reply, nonce).value)
  {
  }

  /**
  runInTransaction over a repository that offers transactions. If it returns an error, all four
  tables are as before, and the cache has lost at most entries of the binding's own artifacts.
  */
  method BindInTransaction(s: Storage, input: BindInput, prep: Preparation)
    returns (r: Result<BindOutput, Failure>, at: int)
    requires s.Valid()
    modifies s`faults, s`now, s`creds, s`devices, s`profiles, s`artifacts, s`nextId, s`cache
    ensures s.Valid() && s.faults >= old(s.faults) && s.nextId >= old(s.nextId) && old(s.now) <= at <= s.now
    ensures r.Ok? ==> BindOutcome(old(s.Rows()), old(s.nextId), input, prep, at) == Ok((s.Rows(), s.nextId))
    ensures r.Ok? ==> r.value == BindOutput(input.binding, prep.acct, Summaries(input, prep, at, |prep.profiles|))
    ensures r.Ok? ==> s.cache == old(s.cache) - KeysOfBinding(s.prefix, old(s.artifacts), input.binding)
    ensures r.Err? ==> s.Rows() == old(s.Rows())
    ensures LostOnly(old(s.cache), s.cache, KeysOfBinding(s.prefix, old(s.artifacts), input.binding))
    ensures s.faults == old(s.faults) ==>
              match BindOutcome(old(s.Rows()), old(s.nextId), input, prep, at)
              case Ok(_) => r.Ok?
              case Err(e) => r == Err(e)
    ensures s.faults == old(s.faults) ==> s.cache == old(s.cache) - KeysOfBinding(s.prefix, old(s.artifacts), input.binding)
  {
    ghost var t, id := s.Rows(), s.nextId;
    var tx := s.Begin();
    if tx.Err? {
      return Err(tx.error), s.now;
    }
    ghost var stage; ghost var undone;
    r, at, stage, undone := BindPrepared(s, input, prep);
    IdsGrow(t, id, s.nextId);
    var failure := s.Finish(tx.value, if r.Ok? then None else Some(r.error));
    if failure.Some? {
      r := Err(failure.value);
    }
  }

  /** BindCredential: one step of a run, whatever fails. */
  method BindCredential(s: Storage, input: BindInput, reply: Result<Discovery, string>, nonce: Option<string>)
    returns (r: Result<BindOutput, Failure>, ghost e: Event)
    requires s.Valid()
    modifies s`faults, s`now, s`creds, s`devices, s`profiles, s`artifacts, s`nextId, s`cache
    ensures s.Valid() && s.faults >= old(s.faults)
    ensures Next(s.prefix, old(Snap(s)), e, Snap(s))
    ensures r.Ok? ==> e.Bound? && e.input == input && Prepare(input, reply, nonce) == Ok(e.prep)
                      && r.value == BindOutput(input.binding, e.prep.acct, Summaries(input, e.prep, e.at, |e.prep.profiles|))
    ensures r.Err? ==> e.RolledBack? || (e == Idle && s.cache == old(s.cache))
    ensures Prepare(input, reply, nonce).Err? ==> r == Err(Prepare(input, reply, nonce).error) && e == Idle
    // what is stored and reported of the client's answer, and why an answer is never looked at
    ensures r.Ok? ==> reply.Ok? && old(s.now) <= e.at <= s.now
    ensures r.Ok? ==> BindLaws.StoredCredential(s.creds, input, reply.value, e.at)
                      && BindLaws.StoredDevice(s.devices, input, reply.value, e.at)
    ensures r.Ok? && AcctAgree(old(s.Rows())) ==> BindLaws.StoredProfiles(s.profiles, input, reply.value, e.at)
    ensures r.Ok? ==> ReportedProfiles(r.value.profiles, input, reply.value)
                      && r.value.binding == input.binding
                      && r.value.acct == FormatPlatformAccountID(input.binding, reply.value.accountId)
    ensures input.binding == 0 ==> r == Err(BindingRequired)
    ensures input.binding != 0 && reply.Err? ==> r == Err(Upstream(reply.error))
    ensures input.binding != 0 && reply.Ok? && nonce == None ==> r == Err(SealFailed)
    ensures r.Err? && s.faults == old(s.faults) && Prepare(input, reply, nonce).Ok? ==>
              exists at :: old(s.now) <= at <= s.now &&
                BindOutcome(old(s.Rows()), old(s.nextId), input, Prepare(input, reply, nonce).value, at) == Err(r.error)
  {
    ghost var w := Snap(s);
    var prepared := Prepare(input, reply, nonce);
    if prepared.Err? {
      IdleStep(s.prefix, w, Snap(s));
      return Err(prepared.error), Idle;
    }
    PreparesFor(input, reply, nonce);
    var at;
    r, at := BindInTransaction(s, input, prepared.value);
    if r.Err? {
      RolledBackStep(s.prefix, w, Snap(s), input.binding);
      e := RolledBack(input.binding);
    } else {
      BoundStep(s.prefix, w, Snap(s), input, prepared.value, at);
      BindLaws.BindStoresAnswer(w.t, w.nextId, input, reply, nonce, at);
      if AcctAgree(w.t) {
        BindLaws.BindStoresProfiles(w.t, w.nextId, input, reply, nonce, at);
      }
      SummariesReport(input, reply, nonce, at);
      e := Bound(input, prepared.value, at);
    }
  }

  /** UpsertDevice: the device goes to the binding of the account's credential. */
  method UpsertDevice(s: Storage, acct: string, device: string, fp: string, deviceName: string)
    returns (r: Option<Failure>, ghost e: Event)
    requires s.Valid()
    modifies s`faults, s`now, s`devices, s`nextId
    ensures s.Valid() && s.faults >= old(s.faults)
    ensures Next(s.prefix, old(Snap(s)), e, Snap(s))
    ensures r.None? ==> e.DeviceSaved? && e.d.acct == acct && e.d.device == device && e.d.fp == fp && e.d.valid
                        && e.d.name == (if deviceName == "" then None else Some(deviceName))
    ensures r.Some? ==> e == Idle
    ensures s.faults == old(s.faults) ==>
              r == if CredentialRepo.FindByAccount(s.creds, acct).Some? then None else Some(CredentialNotFound)
    ensures s.faults > old(s.faults) ==> r == Some(StorageFault)
    // the row of the credential's binding and this device, column by column, and no other row
    ensures r.None? ==>
              exists b <- s.creds, at :: s.creds[b].acct == acct && old(s.now) <= at <= s.now &&
                DeviceRepo.Stored(old(s.devices), old(s.nextId),
                                  DeviceRepo.Device(b, acct, device, fp, if deviceName == "" then None else Some(deviceName),
                                                    true, Some(at)),
                                  s.devices)
    ensures r.Some? ==> s.devices == old(s.devices)
    ensures s.faults == old(s.faults) ==> (r.None? <==> exists b <- s.creds :: s.creds[b].acct == acct)
  {
    ghost var w := Snap(s);
    e := Idle;
    var found := CredentialRepo.GetByPlatformAccountID(s, acct);
    if found.Err? {
      r := Some(found.error);
    } else if found.value.None? {
      r := Some(CredentialNotFound);
    } else {
      var now := s.Clock();
      var d := DeviceRepo.Device(found.value.value.binding, acct, device, fp,
                                 if deviceName == "" then None else Some(deviceName), true, Some(now));
      r, e := SaveDevice(s, d, w);
      return;
    }
    IdleStep(s.prefix, w, Snap(s));
  }

  method SaveDevice(s: Storage, d: DeviceRepo.Device, ghost w: World) returns (r: Option<Failure>, ghost e: Event)
    requires s.Valid() && Owns(s.creds, d.binding, d.acct)
    requires Snap(s) == w.(now := s.now) && w.now <= s.now
    modifies s`faults, s`devices, s`nextId
    ensures s.Valid() && s.faults >= old(s.faults)
    ensures Next(s.prefix, w, e, Snap(s))
    ensures e == if r.None? then DeviceSaved(d) else Idle
    ensures r == if s.faults == old(s.faults) then None else Some(StorageFault)
    ensures r.None? ==> DeviceRepo.Stored(old(s.devices), old(s.nextId), d, s.devices)
    ensures r.Some? ==> s.devices == old(s.devices)
  {
    r := DeviceRepo.Save(s, d);
    if r.None? {
      DeviceStep(s.prefix, w, Snap(s), d);
      return None, DeviceSaved(d);
    }
    IdleStep(s.prefix, w, Snap(s));
    e := Idle;
  }
}
