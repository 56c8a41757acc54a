/**
What a successful bind leaves, from any state in which accounts and bindings agree, and
when a bind is refused.
*/
module BindLaws {
  import opened Basics
  import opened AccountKey
  import opened Db
  import opened BindSpec
  import DeviceRepo
  import ProfileRepo

  /** Another binding holds the same platform account. */
  predicate HeldElsewhere(creds: map<uint64, Cred>, b: uint64, accountId: string) {
    exists x <- creds :: x != b && creds[x].platform == PLATFORM && creds[x].accountId == accountId
  }

  lemma PreparedNames(input: BindInput, prep: Preparation)
    requires PreparedFor(input, prep)
    ensures Names(prep.acct, input.binding) && prep.acct != ""
  {
    ParseFormat(input.binding, prep.accountId);
  }

  lemma FitsUnlessHeld(t: Tables, input: BindInput, prep: Preparation, at: int)
    requires KeyAgree(t) && PreparedFor(input, prep)
    ensures CredFits(t.creds, NewCred(input, prep, at)) <==> !HeldElsewhere(t.creds, input.binding, prep.accountId)
  {
    PreparedNames(input, prep);
  }

  /** The devices a bind leaves: after an account switch only the input device, otherwise an upsert. */
  function BoundDevices(t: Tables, nextId: nat, input: BindInput, prep: Preparation, at: int): map<DKey, Dev> {
    var d := NewDevice(input, prep, at);
    var kept := if Previous(t.creds, input.binding, prep.acct) == "" then t.devices else DevsWithout(t.devices, input.binding);
    kept[DeviceRepo.KeyOf(d) := DeviceRepo.Saved(t.devices, nextId, d)[DeviceRepo.KeyOf(d)]]
  }

  /** Before the discovered profiles are saved, the binding's old profiles are all gone. */
  lemma OldProfilesGone(t: Tables, input: BindInput, prep: Preparation)
    requires AcctAgree(t) && PreparedFor(input, prep)
    ensures ProfilesKept(t.profiles, prep, Previous(t.creds, input.binding, prep.acct)) == ProfsWithout(t.profiles, input.binding)
  {
    var b := input.binding;
    PreparedNames(input, prep);
    if b in t.creds {
      ByAccountIsByBinding(t, b);
      assert Names(t.creds[b].acct, b);
    } else {
      ForeignAccountHasNoRows(t, b, prep.acct);
      NoCredentialNoRows(t, b);
    }
  }

  /** After an account switch, the by-account clean-up leaves only the input device. */
  lemma OldDevicesGone(t: Tables, nextId: nat, input: BindInput, prep: Preparation, at: int)
    requires AcctAgree(t) && PreparedFor(input, prep)
    ensures var previous := Previous(t.creds, input.binding, prep.acct);
            var saved := DeviceRepo.Saved(t.devices, nextId, NewDevice(input, prep, at));
            BoundDevices(t, nextId, input, prep, at) == if previous == "" then saved else DevsWithoutAcct(saved, previous)
  {
  }

  lemma NothingHasThePreviousAccount(t: Tables, input: BindInput, prep: Preparation, at: int)
    requires AcctAgree(t) && PreparedFor(input, prep)
    ensures var creds := t.creds[input.binding := NewCred(input, prep, at)];
            var previous := Previous(t.creds, input.binding, prep.acct);
            previous != "" ==> CredsWithoutAcct(creds, previous) == creds
  {
  }

  /**
  From a state in which accounts and bindings agree, a bind is refused exactly when another
  binding holds the platform account; otherwise it leaves exactly the new credential, no
  artifacts, the last-wins map of the discovered profiles, and the devices of BoundDevices.
  */
  lemma BindLeavesExactly(t: Tables, nextId: nat, input: BindInput, prep: Preparation, at: int)
    requires AcctAgree(t) && DbOk(t, nextId) && PreparedFor(input, prep)
    ensures var r := BindOutcome(t, nextId, input, prep, at);
            if HeldElsewhere(t.creds, input.binding, prep.accountId) then r == Err(DuplicateKey)
            else
              && r.Ok?
              && r.value.0.creds == t.creds[input.binding := NewCred(input, prep, at)]
              && r.value.0.artifacts == ArtsWithout(t.artifacts, input.binding)
              && r.value.0.devices == BoundDevices(t, nextId, input, prep, at)
              && SavedWell(ProfsWithout(t.profiles, input.binding), r.value.0.profiles, r.value.1, input, prep, at, |prep.profiles|)
              && r.value.1 >= DeviceRepo.NextAfter(t.devices, nextId, NewDevice(input, prep, at))
  {
    AcctAgreeImpliesKeyAgree(t);
    FitsUnlessHeld(t, input, prep, at);
    if !HeldElsewhere(t.creds, input.binding, prep.accountId) {
      OldProfilesGone(t, input, prep);
      OldDevicesGone(t, nextId, input, prep, at);
      NothingHasThePreviousAccount(t, input, prep, at);
      BindStores(t, nextId, input, prep, at);
    }
  }

  /** The outcome, once the deletions by account are known to be deletions by binding. */
  lemma BindStores(t: Tables, nextId: nat, input: BindInput, prep: Preparation, at: int)
    requires CredFits(t.creds, NewCred(input, prep, at)) && ProfIds(t.profiles, nextId)
    requires ProfilesKept(t.profiles, prep, Previous(t.creds, input.binding, prep.acct)) == ProfsWithout(t.profiles, input.binding)
    requires var previous := Previous(t.creds, input.binding, prep.acct);
             var saved := DeviceRepo.Saved(t.devices, nextId, NewDevice(input, prep, at));
             BoundDevices(t, nextId, input, prep, at) == if previous == "" then saved else DevsWithoutAcct(saved, previous)
    requires var creds := t.creds[input.binding := NewCred(input, prep, at)];
             var previous := Previous(t.creds, input.binding, prep.acct);
             previous != "" ==> CredsWithoutAcct(creds, previous) == creds
    ensures var r := BindOutcome(t, nextId, input, prep, at);
            && r.Ok?
            && r.value.0.creds == t.creds[input.binding := NewCred(input, prep, at)]
            && r.value.0.artifacts == ArtsWithout(t.artifacts, input.binding)
            && r.value.0.devices == BoundDevices(t, nextId, input, prep, at)
            && SavedWell(ProfsWithout(t.profiles, input.binding), r.value.0.profiles, r.value.1, input, prep, at, |prep.profiles|)
            && r.value.1 >= DeviceRepo.NextAfter(t.devices, nextId, NewDevice(input, prep, at))
  {
    var id := DeviceRepo.NextAfter(t.devices, nextId, NewDevice(input, prep, at));
    var rows, next := SavedLastWins(ProfsWithout(t.profiles, input.binding), id, input, prep, at, |prep.profiles|);
  }

  /** The two tables a bind overwrites outright. */
  lemma BindReplaces(t: Tables, nextId: nat, input: BindInput, prep: Preparation, at: int, t': Tables, next: nat)
    requires AcctAgree(t) && DbOk(t, nextId) && PreparedFor(input, prep)
    requires BindOutcome(t, nextId, input, prep, at) == Ok((t', next))
    ensures t'.creds == t.creds[input.binding := NewCred(input, prep, at)]
    ensures t'.artifacts == ArtsWithout(t.artifacts, input.binding)
  {
    BindLeavesExactly(t, nextId, input, prep, at);
  }

  /** A bind that is not refused changes no other binding and keeps every invariant. */
  lemma BindKeepsInvariants(t: Tables, nextId: nat, input: BindInput, prep: Preparation, at: int)
    requires AcctAgree(t) && DbOk(t, nextId) && PreparedFor(input, prep)
    requires BindOutcome(t, nextId, input, prep, at).Ok?
    ensures var r := BindOutcome(t, nextId, input, prep, at).value;
            AcctAgree(r.0) && DbOk(r.0, r.1) && Others(r.0, input.binding) == Others(t, input.binding) && r.1 >= nextId
  {
    BindLeavesExactly(t, nextId, input, prep, at);
    var r := BindOutcome(t, nextId, input, prep, at).value;
    AcctAgreeImpliesKeyAgree(t);
    InvariantsFrom(t, nextId, r.0, r.1, input, prep, at);
  }

  lemma InvariantsFrom(t: Tables, nextId: nat, t': Tables, next: nat, input: BindInput, prep: Preparation, at: int)
    requires AcctAgree(t) && DbOk(t, nextId) && PreparedFor(input, prep) && !HeldElsewhere(t.creds, input.binding, prep.accountId)
    requires t'.creds == t.creds[input.binding := NewCred(input, prep, at)]
    requires t'.artifacts == ArtsWithout(t.artifacts, input.binding)
    requires t'.devices == BoundDevices(t, nextId, input, prep, at)
    requires SavedWell(ProfsWithout(t.profiles, input.binding), t'.profiles, next, input, prep, at, |prep.profiles|)
    requires next >= DeviceRepo.NextAfter(t.devices, nextId, NewDevice(input, prep, at))
    ensures AcctAgree(t') && DbOk(t', next) && Others(t', input.binding) == Others(t, input.binding)
  {
    AcctAgreeImpliesKeyAgree(t);
    CredentialKept(t, input, prep, at);
    DeviceIdsKept(t, nextId, input, prep, at, next);
    DevicesKept(t, nextId, input, prep, at);
    ProfilesAgree(t, t', next, input, prep, at);
    PreparedNames(input, prep);
    RowsFollow(t, t', input.binding, NewCred(input, prep, at));
    OthersStay(t, t', input.binding);
  }

  lemma OthersStay(t: Tables, t': Tables, b: uint64)
    requires CredsWithout(t'.creds, b) == CredsWithout(t.creds, b) && DevsWithout(t'.devices, b) == DevsWithout(t.devices, b)
    requires ProfsWithout(t'.profiles, b) == ProfsWithout(t.profiles, b) && t'.artifacts == ArtsWithout(t.artifacts, b)
    ensures Others(t', b) == Others(t, b)
  {
  }

  /** Agreement is kept when one binding's rows all follow its new credential and the others stay. */
  lemma RowsFollow(t: Tables, t': Tables, b: uint64, c: Cred)
    requires AcctAgree(t) && t'.creds == t.creds[b := c] && c.binding == b && Names(c.acct, b)
    requires DevsWithout(t'.devices, b) == DevsWithout(t.devices, b)
    requires forall k <- t'.devices :: k.binding == b ==> t'.devices[k].acct == c.acct
    requires forall k <- t'.profiles :: if k.binding == b then t'.profiles[k].acct == c.acct
                                        else k in t.profiles && t'.profiles[k] == t.profiles[k]
    requires t'.artifacts == ArtsWithout(t.artifacts, b)
    ensures AcctAgree(t')
  {
    forall k | k in t'.devices ensures Owns(t'.creds, k.binding, t'.devices[k].acct) {
      if k.binding != b {
        assert k in DevsWithout(t'.devices, b);
        assert k in DevsWithout(t.devices, b) && t.devices[k] == t'.devices[k];
      }
    }
    forall k | k in t'.profiles ensures Owns(t'.creds, k.binding, t'.profiles[k].acct) {
      assert k.binding != b ==> Owns(t.creds, k.binding, t.profiles[k].acct);
    }
    forall k | k in t'.artifacts ensures Owns(t'.creds, k.binding, t'.artifacts[k].acct) {
      assert Owns(t.creds, k.binding, t.artifacts[k].acct);
    }
  }

  lemma CredentialKept(t: Tables, input: BindInput, prep: Preparation, at: int)
    requires KeyAgree(t) && CredKeys(t.creds) && PreparedFor(input, prep) && !HeldElsewhere(t.creds, input.binding, prep.accountId)
    ensures var creds := t.creds[input.binding := NewCred(input, prep, at)];
            CredKeys(creds) && CredsWithout(creds, input.binding) == CredsWithout(t.creds, input.binding)
  {
    FitsUnlessHeld(t, input, prep, at);
  }

  lemma DeviceIdsKept(t: Tables, nextId: nat, input: BindInput, prep: Preparation, at: int, next: nat)
    requires DevIds(t.devices, nextId)
    requires next >= DeviceRepo.NextAfter(t.devices, nextId, NewDevice(input, prep, at))
    ensures DevIds(BoundDevices(t, nextId, input, prep, at), next)
  {
    var devices := BoundDevices(t, nextId, input, prep, at);
    var saved := DeviceRepo.Saved(t.devices, nextId, NewDevice(input, prep, at));
    DeviceRepo.SavedIds(t.devices, nextId, NewDevice(input, prep, at));
    assert forall k <- devices :: k in saved && devices[k] == saved[k];
    SubIds(saved, DeviceRepo.NextAfter(t.devices, nextId, NewDevice(input, prep, at)), devices, next);
  }

  lemma DevicesKept(t: Tables, nextId: nat, input: BindInput, prep: Preparation, at: int)
    requires AcctAgree(t) && PreparedFor(input, prep)
    ensures var devices := BoundDevices(t, nextId, input, prep, at);
            && DevsWithout(devices, input.binding) == DevsWithout(t.devices, input.binding)
            && forall k <- devices :: k.binding == input.binding ==> devices[k].acct == prep.acct
  {
  }

  lemma SubIds(all: map<DKey, Dev>, nextId: nat, some: map<DKey, Dev>, next: nat)
    requires DevIds(all, nextId) && nextId <= next
    requires forall k <- some :: k in all && some[k] == all[k]
    ensures DevIds(some, next)
  {
  }

  /** Every profile row of the binding is some discovered profile's, as its last occurrence wrote it. */
  lemma ProfileRowWritten(t: Tables, rows: map<PKey, Prof>, next: nat, input: BindInput, prep: Preparation, at: int, k: PKey)
    returns (i: nat)
    requires SavedWell(ProfsWithout(t.profiles, input.binding), rows, next, input, prep, at, |prep.profiles|)
    requires k in rows && k.binding == input.binding
    ensures i < |prep.profiles| && IdentityAt(input, prep, i) == k && LastOf(input, prep, i, |prep.profiles|)
    ensures Written(rows[k], prep, at, i)
  {
    i := LastOccurrence(input, prep, k, |prep.profiles|);
  }

  lemma ProfilesAgree(t: Tables, t': Tables, next: nat, input: BindInput, prep: Preparation, at: int)
    requires AcctAgree(t) && OneDefault(t.profiles) && PreparedFor(input, prep)
    requires SavedWell(ProfsWithout(t.profiles, input.binding), t'.profiles, next, input, prep, at, |prep.profiles|)
    ensures ProfIds(t'.profiles, next) && OneDefault(t'.profiles)
    ensures forall k <- t'.profiles :: if k.binding == input.binding then t'.profiles[k].acct == prep.acct
                                       else k in t.profiles && t'.profiles[k] == t.profiles[k]
  {
    var kept := ProfsWithout(t.profiles, input.binding);
    forall k | k in t'.profiles
      ensures if k.binding == input.binding then
                t'.profiles[k].acct == prep.acct && (t'.profiles[k].isDefault ==> k == IdentityAt(input, prep, 0))
              else k in t.profiles && t'.profiles[k] == t.profiles[k]
    {
      if k.binding == input.binding {
        var i := ProfileRowWritten(t, t'.profiles, next, input, prep, at, k);
      } else {
        assert k in ProfsWithout(t'.profiles, input.binding);
        assert k in kept;
      }
    }
  }

  /** The new default is the first discovered profile, and there is one exactly when it is not repeated. */
  lemma DefaultIffNotRepeated(t: Tables, nextId: nat, input: BindInput, prep: Preparation, at: int)
    requires AcctAgree(t) && DbOk(t, nextId) && PreparedFor(input, prep)
    requires BindOutcome(t, nextId, input, prep, at).Ok?
    ensures var rows := BindOutcome(t, nextId, input, prep, at).value.0.profiles;
            (exists k <- rows :: k.binding == input.binding && rows[k].isDefault)
            <==> |prep.profiles| > 0 && LastOf(input, prep, 0, |prep.profiles|)
    ensures var rows := BindOutcome(t, nextId, input, prep, at).value.0.profiles;
            forall k <- rows :: k.binding == input.binding && rows[k].isDefault ==> k == IdentityAt(input, prep, 0)
  {
    BindLeavesExactly(t, nextId, input, prep, at);
    var r := BindOutcome(t, nextId, input, prep, at).value;
    forall k | k in r.0.profiles && k.binding == input.binding && r.0.profiles[k].isDefault
      ensures |prep.profiles| > 0 && LastOf(input, prep, 0, |prep.profiles|) && k == IdentityAt(input, prep, 0)
    {
      var i := ProfileRowWritten(t, r.0.profiles, r.1, input, prep, at, k);
      assert i == 0;
    }
    if |prep.profiles| > 0 && LastOf(input, prep, 0, |prep.profiles|) {
      var k := IdentityAt(input, prep, 0);
      assert Written(r.0.profiles[k], prep, at, 0);
      assert k in r.0.profiles && k.binding == input.binding && r.0.profiles[k].isDefault;
    }
  }

  /** Saving is refused at the first profile or not at all: the later ones never ask to be the default. */
  lemma {:induction false} RefusedAtFirst(profiles: map<PKey, Prof>, nextId: nat, input: BindInput, prep: Preparation, at: int, n: nat)
    requires n <= |prep.profiles|
    ensures SavedUpTo(profiles, nextId, input, prep, at, n).Err? <==>
            n > 0 && exists k <- profiles :: k.binding == input.binding && profiles[k].isDefault && k != IdentityAt(input, prep, 0)
    ensures SavedUpTo(profiles, nextId, input, prep, at, n).Err? ==>
            SavedUpTo(profiles, nextId, input, prep, at, n) == Err(DefaultProfileAlreadyExists)
  {
    if n > 0 {
      RefusedAtFirst(profiles, nextId, input, prep, at, n - 1);
      if n == 1 {
        assert ProfileRepo.KeyOf(NewProfile(input, prep, at, 0)) == IdentityAt(input, prep, 0);
      }
    }
  }

  /**
  From any state that the database accepts, agreeing or not, a bind is refused for a second
  default exactly when a default profile of the binding, other than the first discovered one,
  does not carry the account whose profiles the bind deletes. Agreement rules that out.
  */
  lemma DefaultRefusedIff(t: Tables, nextId: nat, input: BindInput, prep: Preparation, at: int)
    requires CredFits(t.creds, NewCred(input, prep, at))
    ensures var previous := Previous(t.creds, input.binding, prep.acct);
            BindOutcome(t, nextId, input, prep, at) == Err(DefaultProfileAlreadyExists) <==>
            |prep.profiles| > 0 &&
            exists k <- t.profiles :: k.binding == input.binding && t.profiles[k].isDefault && k != IdentityAt(input, prep, 0)
              && t.profiles[k].acct != (if previous != "" then previous else prep.acct)
  {
    var previous := Previous(t.creds, input.binding, prep.acct);
    var kept := ProfilesKept(t.profiles, prep, previous);
    RefusedAtFirst(kept, DeviceRepo.NextAfter(t.devices, nextId, NewDevice(input, prep, at)), input, prep, at, |prep.profiles|);
    forall k | k in t.profiles && t.profiles[k].acct != (if previous != "" then previous else prep.acct)
      ensures k in kept && kept[k] == t.profiles[k]
    {
    }
  }

  // ---------- what a bind stores of the client's answer, column by column ----------

  /** The credential of the binding is the one that the client found, just validated. */
  predicate StoredCredential(creds: map<uint64, Cred>, input: BindInput, found: Discovery, at: int) {
    var b := input.binding;
    && b in creds && creds[b].blob.Sealed? && creds[b].blob.cookies == input.cookies
    && creds[b] == Cred(b, FormatPlatformAccountID(b, found.accountId), "mihomo", found.accountId, found.region,
                        creds[b].blob, "v1", "active", Some(at), None, None)
  }

  /** The input's device is stored as given, valid and seen now. */
  predicate StoredDevice(devices: map<DKey, Dev>, input: BindInput, found: Discovery, at: int) {
    var k := DKey(input.binding, input.device);
    && k in devices
    && devices[k] == Dev(devices[k].id, FormatPlatformAccountID(input.binding, found.accountId), input.fp,
                         if input.deviceName == "" then None else Some(input.deviceName), true, Some(at))
  }

  function FoundKey(input: BindInput, found: Discovery, i: nat): PKey
    requires i < |found.profiles|
  {
    PKey(input.binding, found.profiles[i].player, found.profiles[i].region)
  }

  /** No later profile of the answer has the player and region of profile `i`. */
  predicate LastFound(found: Discovery, i: nat)
    requires i < |found.profiles|
  {
    forall j :: i < j < |found.profiles| ==>
      !(found.profiles[j].player == found.profiles[i].player && found.profiles[j].region == found.profiles[i].region)
  }

  /** The binding's profiles are those of the answer, as the last one of each player and region says. */
  ghost predicate StoredProfiles(profiles: map<PKey, Prof>, input: BindInput, found: Discovery, at: int) {
    && (forall k <- profiles :: k.binding == input.binding ==> exists i :: 0 <= i < |found.profiles| && FoundKey(input, found, i) == k)
    && (forall i :: 0 <= i < |found.profiles| ==> FoundKey(input, found, i) in profiles)
    && (forall i {:trigger LastFound(found, i)} :: 0 <= i < |found.profiles| && LastFound(found, i) ==>
          var k, p := FoundKey(input, found, i), found.profiles[i];
          k in profiles && profiles[k] == Prof(profiles[k].id, FormatPlatformAccountID(input.binding, found.accountId),
                                               p.gameBiz, p.nickname, p.level, i == 0, at))
  }

  /** From any state, a bind that is not refused stores the client's credential and the input's device. */
  lemma BindStoresAnswer(t: Tables, nextId: nat, input: BindInput, reply: Result<Discovery, string>, nonce: Option<string>, at: int)
    requires Prepare(input, reply, nonce).Ok? && BindOutcome(t, nextId, input, Prepare(input, reply, nonce).value, at).Ok?
    ensures reply.Ok?
    ensures var t' := BindOutcome(t, nextId, input, Prepare(input, reply, nonce).value, at).value.0;
            StoredCredential(t'.creds, input, reply.value, at) && StoredDevice(t'.devices, input, reply.value, at)
  {
  }

  /** From an agreeing state it also stores exactly the client's profiles. */
  lemma BindStoresProfiles(t: Tables, nextId: nat, input: BindInput, reply: Result<Discovery, string>, nonce: Option<string>, at: int)
    requires AcctAgree(t) && DbOk(t, nextId)
    requires Prepare(input, reply, nonce).Ok? && BindOutcome(t, nextId, input, Prepare(input, reply, nonce).value, at).Ok?
    ensures reply.Ok?
    ensures StoredProfiles(BindOutcome(t, nextId, input, Prepare(input, reply, nonce).value, at).value.0.profiles, input, reply.value, at)
  {
    var prep := Prepare(input, reply, nonce).value;
    BindLeavesExactly(t, nextId, input, prep, at);
    WellStored(BindOutcome(t, nextId, input, prep, at).value.0.profiles, input, prep, reply.value, at);
  }

  lemma WellStored(rows: map<PKey, Prof>, input: BindInput, prep: Preparation, found: Discovery, at: int)
    requires SameIdentities(rows, input, prep, |prep.profiles|) && LastWins(rows, input, prep, at, |prep.profiles|)
    requires prep.profiles == found.profiles && prep.acct == FormatPlatformAccountID(input.binding, found.accountId)
    ensures StoredProfiles(rows, input, found, at)
  {
    assert forall i :: 0 <= i < |prep.profiles| ==> FoundKey(input, found, i) == IdentityAt(input, prep, i);
    forall i | 0 <= i < |found.profiles| && LastFound(found, i) ensures LastOf(input, prep, i, |prep.profiles|) {
    }
  }

  // ---------- which players can be confirmed afterwards ----------

  /** The player was discovered at place `i`. */
  predicate PlayerAt(prep: Preparation, player: string, i: nat) {
    i < |prep.profiles| && prep.profiles[i].player == player
  }

  /** All places at which the player was discovered have one region. */
  ghost predicate OneRegion(prep: Preparation, player: string) {
    forall i: nat, j: nat :: PlayerAt(prep, player, i) && PlayerAt(prep, player, j) ==> prep.profiles[i].region == prep.profiles[j].region
  }

  /**
  After a bind from an agreeing state, confirming a player succeeds exactly when the player was
  discovered, and in one region only; in several regions it is always refused.
  */
  lemma ConfirmableIff(t: Tables, nextId: nat, input: BindInput, prep: Preparation, at: int, player: string)
    requires AcctAgree(t) && DbOk(t, nextId) && PreparedFor(input, prep)
    requires BindOutcome(t, nextId, input, prep, at).Ok?
    ensures ProfileRepo.SetDefaultOutcome(BindOutcome(t, nextId, input, prep, at).value.0.profiles, input.binding, prep.acct, player) ==
            if !exists i :: PlayerAt(prep, player, i) then Some(RecordNotFound)
            else if OneRegion(prep, player) then None
            else Some(DefaultProfileAlreadyExists)
  {
    BindLeavesExactly(t, nextId, input, prep, at);
    var r := BindOutcome(t, nextId, input, prep, at).value;
    ConfirmableRows(t, r.0.profiles, r.1, input, prep, at, player);
  }

  lemma ConfirmableRows(t: Tables, rows: map<PKey, Prof>, next: nat, input: BindInput, prep: Preparation, at: int, player: string)
    requires SavedWell(ProfsWithout(t.profiles, input.binding), rows, next, input, prep, at, |prep.profiles|)
    ensures ProfileRepo.SetDefaultOutcome(rows, input.binding, prep.acct, player) ==
            if !exists i :: PlayerAt(prep, player, i) then Some(RecordNotFound)
            else if OneRegion(prep, player) then None
            else Some(DefaultProfileAlreadyExists)
  {
    CandidatesDiscovered(t, rows, next, input, prep, at, player);
    var marks := ProfileRepo.Candidates(rows, input.binding, prep.acct, player);
    if i: nat :| PlayerAt(prep, player, i) {
      MarkedRegions(input, prep, player, marks, i);
    } else {
      assert marks == {};
    }
  }

  /** Identities of one player are one identity exactly when they have one region. */
  lemma MarkedRegions(input: BindInput, prep: Preparation, player: string, marks: set<PKey>, i: nat)
    requires PlayerAt(prep, player, i)
    requires forall k <- marks :: exists j: nat :: PlayerAt(prep, player, j) && IdentityAt(input, prep, j) == k
    requires forall j: nat :: PlayerAt(prep, player, j) ==> IdentityAt(input, prep, j) in marks
    ensures if OneRegion(prep, player) then |marks| == 1 else |marks| > 1
  {
    if OneRegion(prep, player) {
      forall k | k in marks ensures k == IdentityAt(input, prep, i) {
        var j: nat :| PlayerAt(prep, player, j) && IdentityAt(input, prep, j) == k;
      }
      assert marks == {IdentityAt(input, prep, i)};
    } else {
      var j: nat, l: nat :| PlayerAt(prep, player, j) && PlayerAt(prep, player, l) && prep.profiles[j].region != prep.profiles[l].region;
      TwoElements(marks, IdentityAt(input, prep, j), IdentityAt(input, prep, l));
    }
  }

  lemma TwoElements<T>(s: set<T>, x: T, y: T)
    requires x in s && y in s && x != y
    ensures |s| > 1
  {
    assert y in s - {x} && |s - {x}| == |s| - 1;
  }

  /** The rows that a confirm marks are the identities of the player's discovered profiles. */
  lemma CandidatesDiscovered(t: Tables, rows: map<PKey, Prof>, next: nat, input: BindInput, prep: Preparation, at: int, player: string)
    requires SavedWell(ProfsWithout(t.profiles, input.binding), rows, next, input, prep, at, |prep.profiles|)
    ensures var marks := ProfileRepo.Candidates(rows, input.binding, prep.acct, player);
            && (forall k <- marks :: exists i :: PlayerAt(prep, player, i) && IdentityAt(input, prep, i) == k)
            && (forall i :: PlayerAt(prep, player, i) ==> IdentityAt(input, prep, i) in marks)
  {
    forall i | PlayerAt(prep, player, i)
      ensures IdentityAt(input, prep, i) in ProfileRepo.Candidates(rows, input.binding, prep.acct, player)
    {
      var j := ProfileRowWritten(t, rows, next, input, prep, at, IdentityAt(input, prep, i));
    }
    forall k | k in ProfileRepo.Candidates(rows, input.binding, prep.acct, player)
      ensures exists i :: PlayerAt(prep, player, i) && IdentityAt(input, prep, i) == k
    {
      var i := ProfileRowWritten(t, rows, next, input, prep, at, k);
      assert PlayerAt(prep, player, i);
    }
  }
}
