/**
What a bind is to leave in the tables. The functions follow the by-account steps of
bindPreparedCredential; the lemmas say what they amount to, by binding.
*/
module BindSpec {
  import opened Basics
  import opened AccountKey
  import opened Db
  import DeviceRepo
  import ProfileRepo

  datatype BindInput = BindInput(binding: uint64, cookies: string, device: string, fp: string, deviceName: string, regionHint: string)

  datatype Discovered = Discovered(gameBiz: string, region: string, player: string, nickname: string, level: int)

  /** The upstream client's answer to ValidateAndDiscover. */
  datatype Discovery = Discovery(accountId: string, region: string, profiles: seq<Discovered>)

  datatype Preparation = Preparation(acct: string, accountId: string, region: string, profiles: seq<Discovered>, blob: Blob)

  const PLATFORM := "mihomo"

  /** Everything that happens before the transaction; `nonce` is None when sealing fails. */
  function Prepare(input: BindInput, reply: Result<Discovery, string>, nonce: Option<string>): Result<Preparation, Failure> {
    if input.binding == 0 then Err(BindingRequired)
    else if reply.Err? then Err(Upstream(reply.error))
    else if nonce.None? then Err(SealFailed)
    else Ok(Preparation(FormatPlatformAccountID(input.binding, reply.value.accountId), reply.value.accountId,
                        reply.value.region, reply.value.profiles, Sealed(nonce.value, input.cookies)))
  }

  /** A preparation as Prepare makes it for this input. */
  predicate PreparedFor(input: BindInput, prep: Preparation) {
    && input.binding != 0
    && prep.acct == FormatPlatformAccountID(input.binding, prep.accountId)
    && prep.blob.Sealed? && prep.blob.cookies == input.cookies
  }

  function NewCred(input: BindInput, prep: Preparation, at: int): Cred {
    Cred(input.binding, prep.acct, PLATFORM, prep.accountId, prep.region, prep.blob, "v1", "active", Some(at), None, None)
  }

  function NewDevice(input: BindInput, prep: Preparation, at: int): DeviceRepo.Device {
    DeviceRepo.Device(input.binding, prep.acct, input.device, input.fp,
                      if input.deviceName == "" then None else Some(input.deviceName), true, Some(at))
  }

  function NewProfile(input: BindInput, prep: Preparation, at: int, i: nat): ProfileRepo.Profile
    requires i < |prep.profiles|
  {
    var d := prep.profiles[i];
    ProfileRepo.Profile(0, input.binding, prep.acct, d.gameBiz, d.region, d.player, d.nickname, d.level, i == 0, at)
  }

  /** The account the binding is switched away from, or "" when there is no switch. */
  function Previous(creds: map<uint64, Cred>, b: uint64, acct: string): string {
    if b in creds && creds[b].acct != acct then creds[b].acct else ""
  }

  /** The profile rows and next row id once the first `n` discovered profiles are saved. */
  function SavedUpTo(profiles: map<PKey, Prof>, nextId: nat, input: BindInput, prep: Preparation, at: int, n: nat)
    : Result<(map<PKey, Prof>, nat), Failure>
    requires n <= |prep.profiles|
  {
    if n == 0 then Ok((profiles, nextId))
    else
      match SavedUpTo(profiles, nextId, input, prep, at, n - 1)
      case Err(e) => Err(e)
      case Ok(p) => ProfileRepo.Saved(p.0, p.1, NewProfile(input, prep, at, n - 1))
  }

  lemma {:induction false} RefusalSticks(profiles: map<PKey, Prof>, nextId: nat, input: BindInput, prep: Preparation, at: int,
                                        n: nat, m: nat)
    requires n <= m <= |prep.profiles| && SavedUpTo(profiles, nextId, input, prep, at, n).Err?
    ensures SavedUpTo(profiles, nextId, input, prep, at, m) == SavedUpTo(profiles, nextId, input, prep, at, n)
  {
    if n < m {
      RefusalSticks(profiles, nextId, input, prep, at, n, m - 1);
    }
  }

  /** The profile rows left before the discovered profiles are saved. */
  function ProfilesKept(profiles: map<PKey, Prof>, prep: Preparation, previous: string): map<PKey, Prof> {
    ProfsWithoutAcct(profiles, if previous != "" then previous else prep.acct)
  }

  /** From saving the device to cleaning up after an account switch. */
  function StoreOutcome(t: Tables, nextId: nat, input: BindInput, prep: Preparation, previous: string, at: int)
    : Result<(Tables, nat), Failure>
  {
    var d := NewDevice(input, prep, at);
    var devices := DeviceRepo.Saved(t.devices, nextId, d);
    match SavedUpTo(ProfilesKept(t.profiles, prep, previous), DeviceRepo.NextAfter(t.devices, nextId, d), input, prep, at, |prep.profiles|)
    case Err(e) => Err(e)
    case Ok(p) =>
      if previous == "" then Ok((t.(devices := devices, profiles := p.0), p.1))
      else Ok((t.(creds := CredsWithoutAcct(t.creds, previous), devices := DevsWithoutAcct(devices, previous), profiles := p.0), p.1))
  }

  /** The tables once the new credential is saved. */
  function Started(t: Tables, input: BindInput, prep: Preparation, at: int): Tables {
    t.(creds := t.creds[input.binding := NewCred(input, prep, at)], artifacts := ArtsWithout(t.artifacts, input.binding))
  }

  /** The tables and next row id after a bind without storage faults, or the reason it is refused. */
  function BindOutcome(t: Tables, nextId: nat, input: BindInput, prep: Preparation, at: int): Result<(Tables, nat), Failure> {
    if !CredFits(t.creds, NewCred(input, prep, at)) then Err(DuplicateKey)
    else StoreOutcome(Started(t, input, prep, at), nextId, input, prep, Previous(t.creds, input.binding, prep.acct), at)
  }

  // ---------- saving the discovered profiles ----------

  function IdentityAt(input: BindInput, prep: Preparation, i: nat): PKey
    requires i < |prep.profiles|
  {
    PKey(input.binding, prep.profiles[i].player, prep.profiles[i].region)
  }

  /** No later profile among the first `n` has the identity of profile `i`. */
  predicate LastOf(input: BindInput, prep: Preparation, i: nat, n: nat)
    requires i < n <= |prep.profiles|
  {
    forall j :: i < j < n ==> IdentityAt(input, prep, j) != IdentityAt(input, prep, i)
  }

  predicate FirstOf(input: BindInput, prep: Preparation, i: nat)
    requires i < |prep.profiles|
  {
    forall j :: 0 <= j < i ==> IdentityAt(input, prep, j) != IdentityAt(input, prep, i)
  }

  /** The row that profile `i` writes, whatever its id. */
  predicate Written(row: Prof, prep: Preparation, at: int, i: nat)
    requires i < |prep.profiles|
  {
    var d := prep.profiles[i];
    row == Prof(row.id, prep.acct, d.gameBiz, d.nickname, d.level, i == 0, at)
  }

  /** The binding's rows are exactly the identities of the first `n` discovered profiles. */
  ghost predicate SameIdentities(profiles: map<PKey, Prof>, input: BindInput, prep: Preparation, n: nat)
    requires n <= |prep.profiles|
  {
    && (forall k <- profiles :: k.binding == input.binding ==> exists i :: 0 <= i < n && IdentityAt(input, prep, i) == k)
    && (forall i :: 0 <= i < n ==> IdentityAt(input, prep, i) in profiles)
  }

  /** Each row is as the last occurrence of its identity says; it is the default if that is the first profile. */
  ghost predicate LastWins(profiles: map<PKey, Prof>, input: BindInput, prep: Preparation, at: int, n: nat)
    requires n <= |prep.profiles|
  {
    forall i {:trigger LastOf(input, prep, i, n)} :: 0 <= i < n && LastOf(input, prep, i, n) ==>
      IdentityAt(input, prep, i) in profiles && Written(profiles[IdentityAt(input, prep, i)], prep, at, i)
  }

  /** Row ids grow with the first occurrences of the identities. */
  ghost predicate FirstOrder(profiles: map<PKey, Prof>, input: BindInput, prep: Preparation, n: nat)
    requires n <= |prep.profiles|
  {
    forall i, j {:trigger FirstOf(input, prep, i), FirstOf(input, prep, j)} ::
      0 <= i < j < n && FirstOf(input, prep, i) && FirstOf(input, prep, j) ==>
      IdentityAt(input, prep, i) in profiles && IdentityAt(input, prep, j) in profiles &&
      profiles[IdentityAt(input, prep, i)].id < profiles[IdentityAt(input, prep, j)].id
  }

  /** The rows after profile `i` is written over them. */
  function WithProfile(profiles: map<PKey, Prof>, nextId: nat, input: BindInput, prep: Preparation, at: int, i: nat): map<PKey, Prof>
    requires i < |prep.profiles|
  {
    profiles[IdentityAt(input, prep, i) := ProfileRepo.RowFor(profiles, nextId, NewProfile(input, prep, at, i))]
  }

  lemma KeepsSameIdentities(profiles: map<PKey, Prof>, nextId: nat, input: BindInput, prep: Preparation, at: int, n: nat)
    requires 0 < n <= |prep.profiles| && SameIdentities(profiles, input, prep, n - 1)
    ensures SameIdentities(WithProfile(profiles, nextId, input, prep, at, n - 1), input, prep, n)
  {
  }

  lemma KeepsLastWins(profiles: map<PKey, Prof>, nextId: nat, input: BindInput, prep: Preparation, at: int, n: nat)
    requires 0 < n <= |prep.profiles|
    requires SameIdentities(profiles, input, prep, n - 1) && LastWins(profiles, input, prep, at, n - 1)
    ensures LastWins(WithProfile(profiles, nextId, input, prep, at, n - 1), input, prep, at, n)
  {
    var after := WithProfile(profiles, nextId, input, prep, at, n - 1);
    var key := IdentityAt(input, prep, n - 1);
    if key in profiles {
      var j := LastOccurrence(input, prep, key, n - 1);
      assert Written(profiles[key], prep, at, j);
    }
    assert Written(after[key], prep, at, n - 1);
    forall i | 0 <= i < n && LastOf(input, prep, i, n)
      ensures IdentityAt(input, prep, i) in after && Written(after[IdentityAt(input, prep, i)], prep, at, i)
    {
      if i < n - 1 {
        assert LastOf(input, prep, i, n - 1);
        assert IdentityAt(input, prep, i) != key;
      }
    }
  }

  lemma {:induction false} LastOccurrence(input: BindInput, prep: Preparation, key: PKey, n: nat) returns (j: nat)
    requires n <= |prep.profiles|
    requires exists i :: 0 <= i < n && IdentityAt(input, prep, i) == key
    ensures j < n && IdentityAt(input, prep, j) == key && LastOf(input, prep, j, n)
    decreases n
  {
    if IdentityAt(input, prep, n - 1) == key {
      j := n - 1;
    } else {
      j := LastOccurrence(input, prep, key, n - 1);
    }
  }

  lemma KeepsFirstOrder(profiles: map<PKey, Prof>, nextId: nat, input: BindInput, prep: Preparation, at: int, n: nat)
    requires 0 < n <= |prep.profiles| && ProfIds(profiles, nextId)
    requires SameIdentities(profiles, input, prep, n - 1) && FirstOrder(profiles, input, prep, n - 1)
    ensures FirstOrder(WithProfile(profiles, nextId, input, prep, at, n - 1), input, prep, n)
  {
  }

  /** Everything a save of the first `n` profiles is to establish, from rows of other bindings only. */
  ghost predicate SavedWell(profiles: map<PKey, Prof>, rows: map<PKey, Prof>, next: nat,
                            input: BindInput, prep: Preparation, at: int, n: nat)
    requires n <= |prep.profiles|
  {
    && ProfsWithout(rows, input.binding) == profiles
    && ProfIds(rows, next)
    && SameIdentities(rows, input, prep, n) && LastWins(rows, input, prep, at, n) && FirstOrder(rows, input, prep, n)
  }

  /** Starting from no rows of the binding, saving never refuses and yields the last-wins map. */
  lemma {:induction false} SavedLastWins(profiles: map<PKey, Prof>, nextId: nat, input: BindInput, prep: Preparation, at: int, n: nat)
    returns (rows: map<PKey, Prof>, next: nat)
    requires n <= |prep.profiles| && ProfIds(profiles, nextId)
    requires ProfsWithout(profiles, input.binding) == profiles
    ensures SavedUpTo(profiles, nextId, input, prep, at, n) == Ok((rows, next)) && next >= nextId
    ensures SavedWell(profiles, rows, next, input, prep, at, n)
  {
    if n == 0 {
      rows, next := profiles, nextId;
    } else {
      var before, id := SavedLastWins(profiles, nextId, input, prep, at, n - 1);
      WellOneMore(profiles, before, id, input, prep, at, n);
      rows := WithProfile(before, id, input, prep, at, n - 1);
      next := ProfileRepo.NextAfter(before, id, NewProfile(input, prep, at, n - 1));
    }
  }

  lemma WellOneMore(profiles: map<PKey, Prof>, before: map<PKey, Prof>, id: nat, input: BindInput, prep: Preparation, at: int, n: nat)
    requires 0 < n <= |prep.profiles| && SavedWell(profiles, before, id, input, prep, at, n - 1)
    ensures var p := NewProfile(input, prep, at, n - 1);
            var rows := WithProfile(before, id, input, prep, at, n - 1);
            && ProfileRepo.Saved(before, id, p) == Ok((rows, ProfileRepo.NextAfter(before, id, p)))
            && SavedWell(profiles, rows, ProfileRepo.NextAfter(before, id, p), input, prep, at, n)
  {
    SaveOneMore(before, id, input, prep, at, n);
    assert ProfsWithout(WithProfile(before, id, input, prep, at, n - 1), input.binding) == ProfsWithout(before, input.binding);
  }

  lemma SaveOneMore(profiles: map<PKey, Prof>, nextId: nat, input: BindInput, prep: Preparation, at: int, n: nat)
    requires 0 < n <= |prep.profiles| && ProfIds(profiles, nextId)
    requires SameIdentities(profiles, input, prep, n - 1)
    requires LastWins(profiles, input, prep, at, n - 1) && FirstOrder(profiles, input, prep, n - 1)
    ensures var p := NewProfile(input, prep, at, n - 1);
            var rows := WithProfile(profiles, nextId, input, prep, at, n - 1);
            && ProfileRepo.Saved(profiles, nextId, p) == Ok((rows, ProfileRepo.NextAfter(profiles, nextId, p)))
            && ProfIds(rows, ProfileRepo.NextAfter(profiles, nextId, p))
            && SameIdentities(rows, input, prep, n) && LastWins(rows, input, prep, at, n) && FirstOrder(rows, input, prep, n)
  {
    KeepsSameIdentities(profiles, nextId, input, prep, at, n);
    KeepsLastWins(profiles, nextId, input, prep, at, n);
    KeepsFirstOrder(profiles, nextId, input, prep, at, n);
    NoConflictWhenFirst(profiles, input, prep, at, n);
  }

  /** Only the first profile asks to be the default, and then the binding has no other row. */
  lemma NoConflictWhenFirst(profiles: map<PKey, Prof>, input: BindInput, prep: Preparation, at: int, n: nat)
    requires 0 < n <= |prep.profiles| && SameIdentities(profiles, input, prep, n - 1)
    ensures var p := NewProfile(input, prep, at, n - 1);
            p.isDefault ==> !ProfileRepo.Conflict(profiles, p)
  {
  }
}
