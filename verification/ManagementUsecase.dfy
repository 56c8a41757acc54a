/** internal/usecase/management_usecase.go: summaries, updating and deleting a credential. */
module ManagementUsecase {
  import opened Basics
  import opened AccountKey
  import opened Listing
  import opened Db
  import opened Backend
  import opened ArtifactSpec
  import opened ArtifactRepo
  import opened BindSpec
  import opened BindUsecase
  import opened ScopeGuard
  import opened Runs
  import BindLaws
  import CredentialRepo
  import DeviceRepo
  import ProfileRepo
  import ManagementRepo
  import StatusUsecase

  datatype Summary = Summary(acct: string, status: StatusUsecase.CredentialStatus, validatedAt: Option<int>, refreshedAt: Option<int>,
                             devices: seq<DeviceRepo.Device>, profiles: seq<ProfileSummary>)

  function ProfileSummaries(ps: seq<ProfileRepo.Profile>): seq<ProfileSummary> {
    seq(|ps|, i requires 0 <= i < |ps| => ToProfileSummary(ps[i]))
  }

  function SummaryOf(c: Cred, devices: map<DKey, Dev>, profiles: map<PKey, Prof>): Summary
    requires Distinct(DeviceRepo.Ids(devices)) && Distinct(ProfileRepo.Ids(profiles))
  {
    Summary(c.acct, StatusUsecase.ToCredentialStatus(c.status), c.validatedAt, c.refreshedAt,
            DeviceRepo.Listed(devices), ProfileSummaries(ProfileRepo.Listed(profiles)))
  }

  /** The summary that lists rows by account. */
  function ByAccount(t: Tables, nextId: nat, acct: string): Result<Summary, Failure>
    requires DbOk(t, nextId)
  {
    var c := CredentialRepo.FindByAccount(t.creds, acct);
    if c.None? then Err(CredentialNotFound)
    else Ok(SummaryOf(c.value, DeviceRepo.RowsOfAccount(t.devices, acct), ProfileRepo.RowsOfAccount(t.profiles, acct)))
  }

  /** The summary that lists rows by binding. */
  function ByBinding(t: Tables, nextId: nat, b: uint64, acct: string): Result<Summary, Failure>
    requires DbOk(t, nextId)
  {
    if b !in t.creds then Err(CredentialNotFound)
    else if t.creds[b].acct != acct then Err(AccountMismatch)
    else Ok(SummaryOf(t.creds[b], DeviceRepo.RowsOfBinding(t.devices, b), ProfileRepo.RowsOfBinding(t.profiles, b)))
  }

  /**
  Where accounts and bindings agree, and the binding's credential has the requested account,
  both summaries list the same devices and profiles in the same order.
  */
  lemma SummariesAgree(t: Tables, nextId: nat, b: uint64)
    requires AcctAgree(t) && DbOk(t, nextId) && b in t.creds
    ensures ByAccount(t, nextId, t.creds[b].acct) == ByBinding(t, nextId, b, t.creds[b].acct)
  {
    SameRows(t, b);
    var c := CredentialRepo.FindByAccount(t.creds, t.creds[b].acct);
    RowOfBindingIffOfAccount(t.creds, b, c.value.binding, t.creds[b].acct);
  }

  lemma SameRows(t: Tables, b: uint64)
    requires AcctAgree(t) && b in t.creds
    ensures DeviceRepo.RowsOfAccount(t.devices, t.creds[b].acct) == DeviceRepo.RowsOfBinding(t.devices, b)
    ensures ProfileRepo.RowsOfAccount(t.profiles, t.creds[b].acct) == ProfileRepo.RowsOfBinding(t.profiles, b)
  {
    SameDevices(t.creds, t.devices, b);
    SameProfiles(t.creds, t.profiles, b);
  }

  lemma SameDevices(creds: map<uint64, Cred>, devices: map<DKey, Dev>, b: uint64)
    requires CredsNamed(creds) && DevsOwned(creds, devices) && b in creds
    ensures DeviceRepo.RowsOfAccount(devices, creds[b].acct) == DeviceRepo.RowsOfBinding(devices, b)
  {
    forall k | k in devices ensures devices[k].acct == creds[b].acct <==> k.binding == b {
      RowOfBindingIffOfAccount(creds, b, k.binding, devices[k].acct);
    }
  }

  lemma SameProfiles(creds: map<uint64, Cred>, profiles: map<PKey, Prof>, b: uint64)
    requires CredsNamed(creds) && ProfsOwned(creds, profiles) && b in creds
    ensures ProfileRepo.RowsOfAccount(profiles, creds[b].acct) == ProfileRepo.RowsOfBinding(profiles, b)
  {
    forall k | k in profiles ensures profiles[k].acct == creds[b].acct <==> k.binding == b {
      RowOfBindingIffOfAccount(creds, b, k.binding, profiles[k].acct);
    }
  }

  lemma RowOfBindingIffOfAccount(creds: map<uint64, Cred>, b: uint64, x: uint64, acct: string)
    requires CredsNamed(creds) && b in creds && Owns(creds, x, acct)
    ensures acct == creds[b].acct <==> x == b
  {
  }

  // ---------- what a summary shows, column by column ----------

  /** The list shows the rows with these keys: exactly the given rows, each once, in increasing order of id. */
  ghost predicate SummariesShow(rows: map<PKey, Prof>, keys: seq<PKey>, list: seq<ProfileSummary>) {
    && |keys| == |list| && (forall k <- rows :: k in keys)
    && (forall i :: 0 <= i < |keys| ==> keys[i] in rows && list[i] == SummaryRow(keys[i], rows[keys[i]]))
    && (forall i, j :: 0 <= i < j < |keys| ==> list[i].id < list[j].id)
  }

  function SummaryRow(k: PKey, row: Prof): ProfileSummary {
    ProfileSummary(row.id, row.acct, row.gameBiz, k.region, k.player, row.nickname, row.level, row.isDefault)
  }

  /** The summary shows this credential with these rows. */
  ghost predicate SummaryShows(c: Cred, devices: map<DKey, Dev>, profiles: map<PKey, Prof>, s: Summary) {
    && s.acct == c.acct && s.validatedAt == c.validatedAt && s.refreshedAt == c.refreshedAt
    && StatusUsecase.Says(s.status, c.status)
    && DeviceRepo.ListsExactly(devices, s.devices)
    && exists keys :: SummariesShow(profiles, keys, s.profiles)
  }

  lemma SummariesShowRows(rows: map<PKey, Prof>)
    requires Distinct(ProfileRepo.Ids(rows))
    ensures exists keys :: SummariesShow(rows, keys, ProfileSummaries(ProfileRepo.Listed(rows)))
  {
    var keys, ps := ByID(ProfileRepo.Ids(rows)), ProfileRepo.Listed(rows);
    ProfileRepo.ListedExactly(rows);
    forall k | k in rows ensures k in keys {
      assert k in ProfileRepo.Ids(rows);
    }
    forall i | 0 <= i < |keys| ensures keys[i] in rows && ProfileSummaries(ps)[i] == SummaryRow(keys[i], rows[keys[i]]) {
      assert keys[i] in keys;
    }
    assert SummariesShow(rows, keys, ProfileSummaries(ps));
  }

  lemma SummaryOfShows(c: Cred, devices: map<DKey, Dev>, profiles: map<PKey, Prof>)
    requires Distinct(DeviceRepo.Ids(devices)) && Distinct(ProfileRepo.Ids(profiles))
    ensures SummaryShows(c, devices, profiles, SummaryOf(c, devices, profiles))
  {
    StatusUsecase.SaysText(c.status);
    DeviceRepo.ListedExactly(devices);
    SummariesShowRows(profiles);
  }

  /** A summary by account exists exactly when a credential has the account, and shows its rows. */
  lemma ByAccountShows(t: Tables, nextId: nat, acct: string)
    requires DbOk(t, nextId)
    ensures ByAccount(t, nextId, acct).Ok? <==> exists b <- t.creds :: t.creds[b].acct == acct
    ensures ByAccount(t, nextId, acct).Err? ==> ByAccount(t, nextId, acct) == Err(CredentialNotFound)
    ensures ByAccount(t, nextId, acct).Ok? ==>
              exists b <- t.creds :: t.creds[b].acct == acct &&
                SummaryShows(t.creds[b], map k | k in t.devices && t.devices[k].acct == acct :: t.devices[k],
                             map k | k in t.profiles && t.profiles[k].acct == acct :: t.profiles[k], ByAccount(t, nextId, acct).value)
  {
    var c := CredentialRepo.FindByAccount(t.creds, acct);
    if c.Some? {
      var devices, profiles := DeviceRepo.RowsOfAccount(t.devices, acct), ProfileRepo.RowsOfAccount(t.profiles, acct);
      SummaryOfShows(c.value, devices, profiles);
      assert devices == map k | k in t.devices && t.devices[k].acct == acct :: t.devices[k];
      assert profiles == map k | k in t.profiles && t.profiles[k].acct == acct :: t.profiles[k];
      assert t.creds[c.value.binding] == c.value;
    }
  }

  lemma ByBindingShows(t: Tables, nextId: nat, b: uint64, acct: string)
    requires DbOk(t, nextId) && ByBinding(t, nextId, b, acct).Ok?
    ensures b in t.creds && t.creds[b].acct == acct
    ensures SummaryShows(t.creds[b], map k | k in t.devices && k.binding == b :: t.devices[k],
                         map k | k in t.profiles && k.binding == b :: t.profiles[k], ByBinding(t, nextId, b, acct).value)
  {
    var devices, profiles := DeviceRepo.RowsOfBinding(t.devices, b), ProfileRepo.RowsOfBinding(t.profiles, b);
    SummaryOfShows(t.creds[b], devices, profiles);
    assert devices == map k | k in t.devices && k.binding == b :: t.devices[k];
    assert profiles == map k | k in t.profiles && k.binding == b :: t.profiles[k];
  }

  /** Appends the summaries of the profiles, one by one. */
  method SummarizeProfiles(ps: seq<ProfileRepo.Profile>) returns (summaries: seq<ProfileSummary>)
    ensures summaries == ProfileSummaries(ps)
  {
    summaries := [];
    for i := 0 to |ps|
      invariant |summaries| == i && forall j :: 0 <= j < i ==> summaries[j] == ToProfileSummary(ps[j])
    {
      summaries := summaries + [ToProfileSummary(ps[i])];
    }
  }

  method GetCredentialSummary(s: Storage, acct: string) returns (r: Result<Summary, Failure>)
    requires s.Valid()
    modifies s`faults
    ensures s.faults >= old(s.faults)
    ensures s.faults == old(s.faults) ==> r == ByAccount(s.Rows(), s.nextId, acct)
    ensures s.faults > old(s.faults) ==> r == Err(StorageFault)
    ensures s.faults == old(s.faults) ==>
              (r.Ok? <==> exists b <- s.creds :: s.creds[b].acct == acct) && (r.Err? ==> r == Err(CredentialNotFound))
    ensures r.Ok? ==>
              exists b <- s.creds :: s.creds[b].acct == acct &&
                SummaryShows(s.creds[b], map k | k in s.devices && s.devices[k].acct == acct :: s.devices[k],
                             map k | k in s.profiles && s.profiles[k].acct == acct :: s.profiles[k], r.value)
  {
    ByAccountShows(s.Rows(), s.nextId, acct);
    var found := CredentialRepo.GetByPlatformAccountID(s, acct);
    if found.Err? {
      return Err(found.error);
    }
    if found.value.None? {
      return Err(CredentialNotFound);
    }
    var devices := DeviceRepo.ListByPlatformAccountID(s, acct);
    if devices.Err? {
      return Err(devices.error);
    }
    var profiles := ProfileRepo.ListByPlatformAccountID(s, acct);
    if profiles.Err? {
      return Err(profiles.error);
    }
    var summaries := SummarizeProfiles(profiles.value);
    var c := found.value.value;
    return Ok(Summary(c.acct, StatusUsecase.ToCredentialStatus(c.status), c.validatedAt, c.refreshedAt, devices.value, summaries));
  }

  method GetCredentialSummaryWithScope(s: Storage, g: Guard, acct: string) returns (r: Result<Summary, Failure>)
    requires s.Valid()
    modifies s`faults
    ensures s.faults >= old(s.faults)
    ensures g.RequirePlatformAccountID(acct).Some? ==> r == Err(BindingScopeDenied)
    ensures g.RequirePlatformAccountID(acct).None? && g.profileId != 0 ==> r == Err(ProfileScopeDenied)
    ensures g.RequirePlatformAccountID(acct).None? && g.profileId == 0 && s.faults == old(s.faults) ==>
              r == ByBinding(s.Rows(), s.nextId, g.binding, acct)
    ensures s.faults > old(s.faults) ==> r == Err(StorageFault)
    ensures r.Ok? ==> Names(acct, g.binding) && g.profileId == 0 && g.binding in s.creds && s.creds[g.binding].acct == acct
    ensures r.Ok? ==>
              SummaryShows(s.creds[g.binding], map k | k in s.devices && k.binding == g.binding :: s.devices[k],
                           map k | k in s.profiles && k.binding == g.binding :: s.profiles[k], r.value)
  {
    if ByBinding(s.Rows(), s.nextId, g.binding, acct).Ok? {
      ByBindingShows(s.Rows(), s.nextId, g.binding, acct);
    }
    var denied := g.RequirePlatformAccountID(acct);
    if denied.None? {
      denied := g.RequireBindingWide();
    }
    if denied.Some? {
      return Err(denied.value);
    }
    var found := CredentialRepo.GetByBindingID(s, g.binding);
    if found.Err? {
      return Err(found.error);
    }
    if found.value.None? {
      return Err(CredentialNotFound);
    }
    var c := found.value.value;
    if c.acct != acct {
      return Err(AccountMismatch);
    }
    var devices := DeviceRepo.ListByBindingID(s, g.binding);
    if devices.Err? {
      return Err(devices.error);
    }
    var profiles := ProfileRepo.ListByBindingID(s, g.binding);
    if profiles.Err? {
      return Err(profiles.error);
    }
    var summaries := SummarizeProfiles(profiles.value);
    return Ok(Summary(c.acct, StatusUsecase.ToCredentialStatus(c.status), c.validatedAt, c.refreshedAt, devices.value, summaries));
  }

  // ---------- updating ----------

  function IdentitiesOf(profiles: seq<ProfileSummary>): seq<ProfileRepo.Identity> {
    seq(|profiles|, i requires 0 <= i < |profiles| => ProfileRepo.Identity(profiles[i].player, profiles[i].region))
  }

  method PruneStaleProfiles(s: Storage, acct: string, profiles: seq<ProfileSummary>) returns (r: Option<Failure>)
    requires s.Valid()
    modifies s`faults, s`profiles
    ensures s.Valid() && s.faults >= old(s.faults)
    ensures BindingIDFromPlatformAccountID(acct).None? ==> r == Some(InvalidAccountId) && s.faults == old(s.faults)
    ensures BindingIDFromPlatformAccountID(acct).Some? ==> r == if s.faults == old(s.faults) then None else Some(StorageFault)
    ensures s.profiles == if r.Some? then old(s.profiles)
                          else ProfileRepo.KeptByBinding(old(s.profiles), BindingIDFromPlatformAccountID(acct).value,
                                                         IdentitiesOf(profiles))
  {
    var keep: seq<ProfileRepo.Identity> := [];
    for i := 0 to |profiles|
      invariant |keep| == i && forall j :: 0 <= j < i ==> keep[j] == ProfileRepo.Identity(profiles[j].player, profiles[j].region)
    {
      keep := keep + [ProfileRepo.Identity(profiles[i].player, profiles[i].region)];
    }
    assert keep == IdentitiesOf(profiles);
    var parsed := BindingIDFromPlatformAccountID(acct);
    if parsed.None? {
      return Some(InvalidAccountId);
    }
    r := ProfileRepo.DeleteMissingByBindingID(s, parsed.value, keep);
  }

  /** What an update leaves: a bind, and then the pruning of profiles it did not discover. */
  function UpdateOutcome(t: Tables, nextId: nat, input: BindInput, prep: Preparation, at: int): Result<(Tables, nat), Failure> {
    match BindOutcome(t, nextId, input, prep, at)
    case Err(e) => Err(e)
    case Ok(p) =>
      var keep := IdentitiesOf(Summaries(input, prep, at, |prep.profiles|));
      Ok((p.0.(profiles := ProfileRepo.KeptByBinding(p.0.profiles, input.binding, keep)), p.1))
  }

  /** After a bind from a state where accounts and bindings agree, pruning parses and deletes nothing. */
  lemma PruningDeletesNothing(t: Tables, nextId: nat, input: BindInput, prep: Preparation, at: int)
    requires AcctAgree(t) && DbOk(t, nextId) && PreparedFor(input, prep)
    ensures BindingIDFromPlatformAccountID(prep.acct) == Some(input.binding)
    ensures UpdateOutcome(t, nextId, input, prep, at) == BindOutcome(t, nextId, input, prep, at)
  {
    BindLaws.PreparedNames(input, prep);
    BindLaws.BindLeavesExactly(t, nextId, input, prep, at);
    if BindOutcome(t, nextId, input, prep, at).Ok? {
      IdentitiesCovered(BindOutcome(t, nextId, input, prep, at).value.0.profiles, input, prep, at);
    }
  }

  lemma IdentitiesCovered(profiles: map<PKey, Prof>, input: BindInput, prep: Preparation, at: int)
    requires SameIdentities(profiles, input, prep, |prep.profiles|)
    ensures ProfileRepo.KeptByBinding(profiles, input.binding, IdentitiesOf(Summaries(input, prep, at, |prep.profiles|))) == profiles
  {
    var keep := IdentitiesOf(Summaries(input, prep, at, |prep.profiles|));
    forall k | k in profiles && k.binding == input.binding ensures ProfileRepo.IdentityOf(k) in keep {
      var i :| 0 <= i < |prep.profiles| && IdentityAt(input, prep, i) == k;
      assert keep[i] == ProfileRepo.IdentityOf(k);
    }
  }

  /** The body of an update's transaction: the bind, then the pruning. */
  method BindAndPrune(s: Storage, input: BindInput, prep: Preparation) returns (r: Option<Failure>, at: int)
    requires s.Valid() && PreparedFor(input, prep)
    modifies s`faults, s`now, s`creds, s`devices, s`profiles, s`artifacts, s`nextId, s`cache
    ensures s.Valid() && s.faults >= old(s.faults) && s.nextId >= old(s.nextId) && old(s.now) <= at <= s.now
    ensures r.None? ==> UpdateOutcome(old(s.Rows()), old(s.nextId), input, prep, at) == Ok((s.Rows(), s.nextId))
    ensures r.None? ==> s.faults == old(s.faults)
    ensures r.None? ==> s.cache == old(s.cache) - KeysOfBinding(s.prefix, old(s.artifacts), input.binding)
    ensures LostOnly(old(s.cache), s.cache, KeysOfBinding(s.prefix, old(s.artifacts), input.binding))
    ensures s.faults == old(s.faults) ==> r == RefusalOf(UpdateOutcome(old(s.Rows()), old(s.nextId), input, prep, at))
  {
    BindLaws.PreparedNames(input, prep);
    var bound; ghost var stage; ghost var undone;
    bound, at, stage, undone := BindPrepared(s, input, prep);
    if bound.Err? {
      return Some(bound.error), at;
    }
    r := PruneStaleProfiles(s, prep.acct, bound.value.profiles);
  }

  function RefusalOf<T>(r: Result<T, Failure>): Option<Failure> {
    if r.Ok? then None else Some(r.error)
  }

  method UpdateInTransaction(s: Storage, input: BindInput, prep: Preparation) returns (r: Option<Failure>, at: int)
    requires s.Valid() && PreparedFor(input, prep)
    modifies s`faults, s`now, s`creds, s`devices, s`profiles, s`artifacts, s`nextId, s`cache
    ensures s.Valid() && s.faults >= old(s.faults) && s.nextId >= old(s.nextId) && old(s.now) <= at <= s.now
    ensures r.None? ==> UpdateOutcome(old(s.Rows()), old(s.nextId), input, prep, at) == Ok((s.Rows(), s.nextId))
    ensures r.None? ==> s.cache == old(s.cache) - KeysOfBinding(s.prefix, old(s.artifacts), input.binding)
    ensures r.Some? ==> s.Rows() == old(s.Rows())
    ensures LostOnly(old(s.cache), s.cache, KeysOfBinding(s.prefix, old(s.artifacts), input.binding))
    ensures s.faults == old(s.faults) ==> r == RefusalOf(UpdateOutcome(old(s.Rows()), old(s.nextId), input, prep, at))
  {
    var tx := s.Begin();
    if tx.Err? {
      return Some(tx.error), s.now;
    }
    r, at := BindAndPrune(s, input, prep);
    r := s.Finish(tx.value, r);
  }

  /**
  UpdateCredential: a rebind that must keep the account. Only an update that committed changes
  the tables. Where accounts and bindings agree it is one step of a run, whatever fails.
  */
  method UpdateCredential(s: Storage, acct: string, input: BindInput, reply: Result<Discovery, string>, nonce: Option<string>)
    returns (r: Result<Summary, Failure>, ghost e: Event, ghost at: int)
    requires s.Valid()
    modifies s`faults, s`now, s`creds, s`devices, s`profiles, s`artifacts, s`nextId, s`cache
    ensures s.Valid() && s.faults >= old(s.faults) && old(s.now) <= at <= s.now
    ensures AcctAgree(old(s.Rows())) ==> Next(s.prefix, old(Snap(s)), e, Snap(s))
    ensures r.Ok? ==> e.Bound? && r == ByAccount(s.Rows(), s.nextId, acct)
    ensures e.Bound? ==> e.input == input && e.prep.acct == acct && Prepare(input, reply, nonce) == Ok(e.prep)
                         && UpdateOutcome(old(s.Rows()), old(s.nextId), input, e.prep, e.at) == Ok((s.Rows(), s.nextId))
    ensures !e.Bound? ==> s.Rows() == old(s.Rows())
    // what is stored of the client's answer
    ensures e.Bound? ==> e.at == at && reply.Ok? && acct == FormatPlatformAccountID(input.binding, reply.value.accountId)
                         && BindLaws.StoredCredential(s.creds, input, reply.value, at)
                         && BindLaws.StoredDevice(s.devices, input, reply.value, at)
    ensures e.Bound? && AcctAgree(old(s.Rows())) ==> BindLaws.StoredProfiles(s.profiles, input, reply.value, at)
    ensures s.faults == old(s.faults) ==>
              if CredentialRepo.FindByAccount(old(s.creds), acct).None? then r == Err(CredentialNotFound)
              else match Prepare(input, reply, nonce)
                   case Err(error) => r == Err(error)
                   case Ok(prep) =>
                     if prep.acct != acct then r == Err(AccountMismatch)
                     else Updates(old(s.Rows()), old(s.nextId), input, prep, at, r)
  {
    ghost var w := Snap(s);
    r, e, at := Err(CredentialNotFound), Idle, s.now;
    var found := CredentialRepo.GetByPlatformAccountID(s, acct);
    var prepared := Prepare(input, reply, nonce);
    if found.Err? {
      r := Err(found.error);
    } else if found.value.None? {
    } else if prepared.Err? {
      r := Err(prepared.error);
    } else if prepared.value.acct != acct {
      r := Err(AccountMismatch);
    } else {
      PreparesFor(input, reply, nonce);
      r, e, at := UpdateOrRollBack(s, acct, input, prepared.value);
      UpdateStoresAnswer(w.t, w.nextId, input, reply, nonce, at);
      return;
    }
    IdleStep(s.prefix, w, Snap(s));
  }

  lemma UpdateStoresAnswer(t: Tables, nextId: nat, input: BindInput, reply: Result<Discovery, string>, nonce: Option<string>, at: int)
    requires DbOk(t, nextId) && Prepare(input, reply, nonce).Ok?
    ensures reply.Ok? && Prepare(input, reply, nonce).value.acct == FormatPlatformAccountID(input.binding, reply.value.accountId)
    ensures var r := UpdateOutcome(t, nextId, input, Prepare(input, reply, nonce).value, at);
            r.Ok? ==>
              && BindLaws.StoredCredential(r.value.0.creds, input, reply.value, at)
              && BindLaws.StoredDevice(r.value.0.devices, input, reply.value, at)
              && (AcctAgree(t) ==> BindLaws.StoredProfiles(r.value.0.profiles, input, reply.value, at))
  {
    var prep := Prepare(input, reply, nonce).value;
    PreparesFor(input, reply, nonce);
    if UpdateOutcome(t, nextId, input, prep, at).Ok? {
      BindLaws.BindStoresAnswer(t, nextId, input, reply, nonce, at);
      if AcctAgree(t) {
        PruningDeletesNothing(t, nextId, input, prep, at);
        BindLaws.BindStoresProfiles(t, nextId, input, reply, nonce, at);
      }
    }
  }

  /** Without faults the result of an update is that of its outcome: a summary, or the refusal. */
  predicate Updates(t: Tables, nextId: nat, input: BindInput, prep: Preparation, at: int, r: Result<Summary, Failure>) {
    match RefusalOf(UpdateOutcome(t, nextId, input, prep, at))
    case None => r.Ok?
    case Some(e) => r == Err(e)
  }

  lemma UpdatedAccountIsFound(t: Tables, nextId: nat, input: BindInput, prep: Preparation, at: int)
    ensures UpdateOutcome(t, nextId, input, prep, at).Ok? ==>
              Owns(UpdateOutcome(t, nextId, input, prep, at).value.0.creds, input.binding, prep.acct)
  {
  }

  lemma OwnedAccountHasSummary(t: Tables, nextId: nat, b: uint64, acct: string)
    requires DbOk(t, nextId) && Owns(t.creds, b, acct)
    ensures ByAccount(t, nextId, acct).Ok?
  {
  }

  /** The update's transaction, and the summary read after it. */
  method UpdateOrRollBack(s: Storage, acct: string, input: BindInput, prep: Preparation)
    returns (r: Result<Summary, Failure>, ghost e: Event, ghost at: int)
    requires s.Valid() && PreparedFor(input, prep) && prep.acct == acct
    modifies s`faults, s`now, s`creds, s`devices, s`profiles, s`artifacts, s`nextId, s`cache
    ensures s.Valid() && s.faults >= old(s.faults) && old(s.now) <= at <= s.now
    ensures AcctAgree(old(s.Rows())) ==> Next(s.prefix, old(Snap(s)), e, Snap(s))
    ensures r.Ok? ==> e.Bound? && r == ByAccount(s.Rows(), s.nextId, acct)
    ensures if e.Bound? then e == Bound(input, prep, at) else e == RolledBack(input.binding) && s.Rows() == old(s.Rows())
    ensures e.Bound? ==> UpdateOutcome(old(s.Rows()), old(s.nextId), input, prep, at) == Ok((s.Rows(), s.nextId))
    ensures s.faults == old(s.faults) ==> Updates(old(s.Rows()), old(s.nextId), input, prep, at, r)
  {
    var failure;
    failure, e, at := Update(s, input, prep);
    if failure.Some? {
      r := Err(failure.value);
      return;
    }
    ghost var w := Snap(s);
    r := SummaryOfOwned(s, input.binding, acct);
    assert Snap(s) == w;
  }

  /** The account of a stored credential has a summary. */
  method SummaryOfOwned(s: Storage, ghost b: uint64, acct: string) returns (r: Result<Summary, Failure>)
    requires s.Valid() && Owns(s.creds, b, acct)
    modifies s`faults
    ensures s.faults >= old(s.faults)
    ensures r.Ok? ==> r == ByAccount(s.Rows(), s.nextId, acct)
    ensures s.faults == old(s.faults) ==> r.Ok?
  {
    OwnedAccountHasSummary(s.Rows(), s.nextId, b, acct);
    r := GetCredentialSummary(s, acct);
  }

  /** The transaction alone: one step of a run from agreeing states. */
  method Update(s: Storage, input: BindInput, prep: Preparation) returns (r: Option<Failure>, ghost e: Event, ghost at: int)
    requires s.Valid() && PreparedFor(input, prep)
    modifies s`faults, s`now, s`creds, s`devices, s`profiles, s`artifacts, s`nextId, s`cache
    ensures s.Valid() && s.faults >= old(s.faults) && old(s.now) <= at <= s.now
    ensures AcctAgree(old(s.Rows())) ==> Next(s.prefix, old(Snap(s)), e, Snap(s))
    ensures e == if r.None? then Bound(input, prep, at) else RolledBack(input.binding)
    ensures r.Some? ==> s.Rows() == old(s.Rows())
    ensures r.None? ==> Owns(s.creds, input.binding, prep.acct)
    ensures r.None? ==> UpdateOutcome(old(s.Rows()), old(s.nextId), input, prep, at) == Ok((s.Rows(), s.nextId))
    ensures s.faults == old(s.faults) ==> r == RefusalOf(UpdateOutcome(old(s.Rows()), old(s.nextId), input, prep, at))
  {
    ghost var w := Snap(s);
    var now;
    r, now := UpdateInTransaction(s, input, prep);
    at := now;
    if r.None? {
      UpdatedStep(s.prefix, w, Snap(s), input, prep, at);
      UpdatedAccountIsFound(w.t, w.nextId, input, prep, at);
      e := Bound(input, prep, at);
    } else {
      RolledBackStep(s.prefix, w, Snap(s), input.binding);
      e := RolledBack(input.binding);
    }
  }

  lemma UpdatedStep(prefix: string, w: World, w': World, input: BindInput, prep: Preparation, at: int)
    requires DbOk(w.t, w.nextId)
    requires PreparedFor(input, prep) && UpdateOutcome(w.t, w.nextId, input, prep, at) == Ok((w'.t, w'.nextId))
    requires w'.cache == w.cache - KeysOfBinding(prefix, w.t.artifacts, input.binding)
    requires w'.grants == w.grants && w'.issued == w.issued && w.now <= at <= w'.now && w.nextId <= w'.nextId
    ensures AcctAgree(w.t) ==> Next(prefix, w, Bound(input, prep, at), w')
  {
    if AcctAgree(w.t) {
      PruningDeletesNothing(w.t, w.nextId, input, prep, at);
      BoundStep(prefix, w, w', input, prep, at);
    }
  }

  // ---------- deleting ----------

  /** DeleteCredentialWithScope: one step of a run. */
  method DeleteCredentialWithScope(s: Storage, g: Guard, acct: string) returns (r: Option<Failure>, ghost e: Event)
    requires s.Valid()
    modifies s`faults, s`creds, s`devices, s`profiles, s`artifacts, s`cache
    ensures s.Valid() && s.faults >= old(s.faults)
    ensures Next(s.prefix, old(Snap(s)), e, Snap(s))
    ensures r.None? ==> e == Deleted(g.binding)
    ensures r.Some? ==> s.Rows() == old(s.Rows())
    ensures s.faults == old(s.faults) ==>
              (r.None? <==> Names(acct, g.binding) && g.profileId == 0 && Owns(old(s.creds), g.binding, acct))
    ensures r.None? ==> LostBinding(old(s.Rows()), s.Rows(), g.binding)
    ensures !Names(acct, g.binding) ==> r == Some(BindingScopeDenied)
    ensures Names(acct, g.binding) && g.profileId != 0 ==> r == Some(ProfileScopeDenied)
    ensures Names(acct, g.binding) && g.profileId == 0 && s.faults == old(s.faults) ==>
              && (r == Some(CredentialNotFound) <==> g.binding !in old(s.creds))
              && (r == Some(AccountMismatch) <==> g.binding in old(s.creds) && old(s.creds)[g.binding].acct != acct)
  {
    ghost var w := Snap(s);
    e := Idle;
    r := g.RequirePlatformAccountID(acct);
    if r.None? {
      r := g.RequireBindingWide();
    }
    if r.None? {
      var found := CredentialRepo.GetByBindingID(s, g.binding);
      if found.Err? {
        r := Some(found.error);
      } else if found.value.None? {
        r := Some(CredentialNotFound);
      } else if found.value.value.acct != acct {
        r := Some(AccountMismatch);
      } else {
        r, e := DeleteBinding(s, g.binding);
        return;
      }
    }
    IdleStep(s.prefix, w, Snap(s));
  }

  /** The graph delete by binding as a step of a run. */
  method DeleteBinding(s: Storage, b: uint64) returns (r: Option<Failure>, ghost e: Event)
    requires s.Valid()
    modifies s`faults, s`creds, s`devices, s`profiles, s`artifacts, s`cache
    ensures s.Valid() && s.faults >= old(s.faults)
    ensures Next(s.prefix, old(Snap(s)), e, Snap(s))
    ensures r == if s.faults == old(s.faults) then None else Some(StorageFault)
    ensures e == if r.None? then Deleted(b) else RolledBack(b)
    ensures if r.None? then LostBinding(old(s.Rows()), s.Rows(), b) else s.Rows() == old(s.Rows())
  {
    ghost var w := Snap(s);
    r := ManagementRepo.DeleteCredentialGraphByBindingID(s, b);
    if r.None? {
      DeletedStep(s.prefix, w, Snap(s), b);
      e := Deleted(b);
    } else {
      RolledBackStep(s.prefix, w, Snap(s), b);
      e := RolledBack(b);
    }
  }

  /** DeleteCredential: one step of a run. */
  method DeleteCredential(s: Storage, acct: string) returns (r: Option<Failure>, ghost e: Event)
    requires s.Valid()
    modifies s`faults, s`creds, s`devices, s`profiles, s`artifacts, s`cache
    ensures s.Valid() && s.faults >= old(s.faults)
    ensures Next(s.prefix, old(Snap(s)), e, Snap(s))
    ensures r == if s.faults == old(s.faults) then None else Some(StorageFault)
    ensures e == if r.None? then DeletedByAccount(acct) else RolledBackByAccount(acct)
    ensures if r.None? then ManagementRepo.LostAccount(old(s.Rows()), s.Rows(), acct) else s.Rows() == old(s.Rows())
  {
    ghost var w := Snap(s);
    r := ManagementRepo.DeleteCredentialGraph(s, acct);
    GraphDeletedStep(s.prefix, w, Snap(s), acct, r.None?);
    e := if r.None? then DeletedByAccount(acct) else RolledBackByAccount(acct);
  }
}
