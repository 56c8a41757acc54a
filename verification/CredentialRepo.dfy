/** internal/data/credential_repo.go. */
module CredentialRepo {
  import opened Basics
  import opened Db
  import opened Backend

  /** The credential with this account: uniq_platform_account_id makes it the only one. */
  function FindByAccount(creds: map<uint64, Cred>, acct: string): (r: Option<Cred>)
    requires CredKeys(creds)
    ensures r.Some? ==> r.value.binding in creds && creds[r.value.binding] == r.value && r.value.acct == acct
    ensures r.None? ==> forall b <- creds :: creds[b].acct != acct
  {
    if exists b :: b in creds && creds[b].acct == acct then
      var b :| b in creds && creds[b].acct == acct;
      Some(creds[b])
    else None
  }

  function FindByBinding(creds: map<uint64, Cred>, b: uint64): Option<Cred> {
    if b in creds then Some(creds[b]) else None
  }

  /** An upsert on binding_id; a clash on another unique key is an error that changes nothing. */
  method Save(s: Storage, c: Cred) returns (r: Option<Failure>)
    requires s.Valid()
    modifies s`faults, s`creds
    ensures s.Valid() && s.faults >= old(s.faults)
    ensures r == if s.faults > old(s.faults) then Some(StorageFault)
                 else if CredFits(old(s.creds), c) then None else Some(DuplicateKey)
    ensures s.creds == if r.None? then old(s.creds)[c.binding := c] else old(s.creds)
    ensures s.faults == old(s.faults) ==>
              (r.None? <==> forall b <- old(s.creds) :: b != c.binding ==>
                 && old(s.creds)[b].acct != c.acct
                 && !(old(s.creds)[b].platform == c.platform && old(s.creds)[b].accountId == c.accountId))
  {
    var failed := s.Call();
    if failed {
      return Some(StorageFault);
    }
    if !CredFits(s.creds, c) {
      return Some(DuplicateKey);
    }
    s.creds := s.creds[c.binding := c];
    return None;
  }

  method GetByBindingID(s: Storage, b: uint64) returns (r: Result<Option<Cred>, Failure>)
    modifies s`faults
    ensures s.faults >= old(s.faults)
    ensures r == if s.faults > old(s.faults) then Err(StorageFault) else Ok(FindByBinding(s.creds, b))
  {
    var failed := s.Call();
    r := if failed then Err(StorageFault) else Ok(FindByBinding(s.creds, b));
  }

  method GetByPlatformAccountID(s: Storage, acct: string) returns (r: Result<Option<Cred>, Failure>)
    requires s.Valid()
    modifies s`faults
    ensures s.faults >= old(s.faults)
    ensures r == if s.faults > old(s.faults) then Err(StorageFault) else Ok(FindByAccount(s.creds, acct))
  {
    var failed := s.Call();
    r := if failed then Err(StorageFault) else Ok(FindByAccount(s.creds, acct));
  }

  method DeleteByPlatformAccountID(s: Storage, acct: string) returns (r: Option<Failure>)
    requires s.Valid()
    modifies s`faults, s`creds
    ensures s.Valid() && s.faults >= old(s.faults)
    ensures r == if s.faults > old(s.faults) then Some(StorageFault) else None
    ensures s.creds == if r.None? then CredsWithoutAcct(old(s.creds), acct) else old(s.creds)
  {
    var failed := s.Call();
    if failed {
      return Some(StorageFault);
    }
    s.creds := CredsWithoutAcct(s.creds, acct);
    return None;
  }
}
