/** internal/data/management_repo.go: deleting everything a credential owns. */
module ManagementRepo {
  import opened Basics
  import opened Db
  import opened Backend
  import opened ArtifactSpec
  import opened ArtifactRepo
  import CredentialRepo
  import DeviceRepo
  import ProfileRepo

  function CredBindings(creds: map<uint64, Cred>, acct: string): set<uint64> {
    set b | b in creds && creds[b].acct == acct && b != 0 :: b
  }

  function ArtBindings(artifacts: map<AKey, Art>, acct: string): set<uint64> {
    set k | k in artifacts && artifacts[k].acct == acct && k.binding != 0 :: k.binding
  }

  function ProfBindings(profiles: map<PKey, Prof>, acct: string): set<uint64> {
    set k | k in profiles && profiles[k].acct == acct && k.binding != 0 :: k.binding
  }

  function DevBindings(devices: map<DKey, Dev>, acct: string): set<uint64> {
    set k | k in devices && devices[k].acct == acct && k.binding != 0 :: k.binding
  }

  /** Bindings of the rows, in any table, that carry the account. */
  function BindingIDs(t: Tables, acct: string): set<uint64> {
    CredBindings(t.creds, acct) + ArtBindings(t.artifacts, acct) + ProfBindings(t.profiles, acct) + DevBindings(t.devices, acct)
  }

  function SelectByBindings(rows: map<AKey, Art>, bs: set<uint64>): set<AKey> {
    set k | k in rows && k.binding in bs
  }

  /** The artifacts that DeleteCredentialGraph dooms. */
  function GraphArtifacts(t: Tables, acct: string): set<AKey> {
    if BindingIDs(t, acct) == {} then SelectByAccount(t.artifacts, acct)
    else SelectByBindings(t.artifacts, BindingIDs(t, acct))
  }

  function WithoutGraph(t: Tables, acct: string): Tables {
    Tables(CredsWithoutAcct(t.creds, acct), DevsWithoutAcct(t.devices, acct), ProfsWithoutAcct(t.profiles, acct),
           t.artifacts - GraphArtifacts(t, acct))
  }

  /** Some row of the binding, in some table, carries the account; binding 0 does not count. */
  ghost predicate Carries(t: Tables, acct: string, b: uint64) {
    && b != 0
    && (|| Owns(t.creds, b, acct)
        || (exists k <- t.devices :: k.binding == b && t.devices[k].acct == acct)
        || (exists k <- t.profiles :: k.binding == b && t.profiles[k].acct == acct)
        || (exists k <- t.artifacts :: k.binding == b && t.artifacts[k].acct == acct))
  }

  /**
  Exactly the account's rows are gone, but artifacts by binding: those of the bindings that
  carry the account, or, when there is no such binding, those with the account.
  */
  ghost predicate LostAccount(before: Tables, after: Tables, acct: string) {
    && Within(after, before) && (forall k <- after.artifacts :: k in before.artifacts && after.artifacts[k] == before.artifacts[k])
    && (forall b <- before.creds :: b in after.creds <==> before.creds[b].acct != acct)
    && (forall k <- before.devices :: k in after.devices <==> before.devices[k].acct != acct)
    && (forall k <- before.profiles :: k in after.profiles <==> before.profiles[k].acct != acct)
    && (forall k <- before.artifacts ::
          k in after.artifacts <==>
          !(Carries(before, acct, k.binding) || (before.artifacts[k].acct == acct && forall b :: !Carries(before, acct, b))))
  }

  lemma CarriedBindings(t: Tables, acct: string)
    requires CredKeys(t.creds)
    ensures forall b :: b in BindingIDs(t, acct) <==> Carries(t, acct, b)
  {
  }

  lemma GraphArtifactsLost(t: Tables, acct: string, k: AKey)
    requires CredKeys(t.creds) && k in t.artifacts
    ensures k in GraphArtifacts(t, acct) <==>
            Carries(t, acct, k.binding) || (t.artifacts[k].acct == acct && forall b :: !Carries(t, acct, b))
  {
    CarriedBindings(t, acct);
    if BindingIDs(t, acct) != {} {
      var b :| b in BindingIDs(t, acct);
      assert Carries(t, acct, b);
    }
  }

  lemma GraphLost(t: Tables, acct: string)
    requires CredKeys(t.creds)
    ensures LostAccount(t, WithoutGraph(t, acct), acct)
  {
    forall k | k in t.artifacts
      ensures k in GraphArtifacts(t, acct) <==>
              Carries(t, acct, k.binding) || (t.artifacts[k].acct == acct && forall b :: !Carries(t, acct, b))
    {
      GraphArtifactsLost(t, acct, k);
    }
    RowsLost(t, acct);
  }

  lemma RowsLost(t: Tables, acct: string)
    ensures Within(WithoutGraph(t, acct), t)
    ensures forall b <- t.creds :: b in WithoutGraph(t, acct).creds <==> t.creds[b].acct != acct
    ensures forall k <- t.devices :: k in WithoutGraph(t, acct).devices <==> t.devices[k].acct != acct
    ensures forall k <- t.profiles :: k in WithoutGraph(t, acct).profiles <==> t.profiles[k].acct != acct
    ensures WithoutGraph(t, acct).artifacts == t.artifacts - GraphArtifacts(t, acct)
  {
  }

  method DeleteCredentialGraph(s: Storage, acct: string) returns (r: Option<Failure>)
    requires s.Valid()
    modifies s`faults, s`creds, s`devices, s`profiles, s`artifacts, s`cache
    ensures s.Valid() && s.faults >= old(s.faults)
    ensures r == if s.faults == old(s.faults) then None else Some(StorageFault)
    ensures s.Rows() == if r.None? then WithoutGraph(old(s.Rows()), acct) else old(s.Rows())
    ensures r.None? ==> s.cache == old(s.cache) - CacheKeysOf(s.prefix, old(s.artifacts), GraphArtifacts(old(s.Rows()), acct))
    ensures LostOnly(old(s.cache), s.cache, CacheKeysOf(s.prefix, old(s.artifacts), GraphArtifacts(old(s.Rows()), acct)))
    ensures r.None? ==> LostAccount(old(s.Rows()), s.Rows(), acct)
  {
    GraphLost(s.Rows(), acct);
    var tx := s.Begin();
    if tx.Err? {
      return Some(tx.error);
    }
    r := DeleteAccountGraphRows(s, acct);
    r := s.Finish(tx.value, r);
  }

  /** The transaction's body. */
  method DeleteAccountGraphRows(s: Storage, acct: string) returns (r: Option<Failure>)
    requires s.Valid()
    modifies s`faults, s`creds, s`devices, s`profiles, s`artifacts, s`cache
    ensures s.Valid() && s.faults >= old(s.faults)
    ensures r == if s.faults == old(s.faults) then None else Some(StorageFault)
    ensures r.None? ==> s.Rows() == WithoutGraph(old(s.Rows()), acct)
    ensures r.None? ==> s.cache == old(s.cache) - CacheKeysOf(s.prefix, old(s.artifacts), GraphArtifacts(old(s.Rows()), acct))
    ensures LostOnly(old(s.cache), s.cache, CacheKeysOf(s.prefix, old(s.artifacts), GraphArtifacts(old(s.Rows()), acct)))
  {
    r := DeleteGraphArtifacts(s, acct);
    if r.None? {
      r := DeleteRowsByAccount(s, acct);
    }
  }

  method DeleteGraphArtifacts(s: Storage, acct: string) returns (r: Option<Failure>)
    requires s.Valid()
    modifies s`faults, s`artifacts, s`cache
    ensures s.Valid() && s.faults >= old(s.faults)
    ensures r == if s.faults == old(s.faults) then None else Some(StorageFault)
    ensures r.None? ==> s.artifacts == old(s.artifacts) - GraphArtifacts(old(s.Rows()), acct)
    ensures r.None? ==> s.cache == old(s.cache) - CacheKeysOf(s.prefix, old(s.artifacts), GraphArtifacts(old(s.Rows()), acct))
    ensures LostOnly(old(s.cache), s.cache, CacheKeysOf(s.prefix, old(s.artifacts), GraphArtifacts(old(s.Rows()), acct)))
  {
    var failed := s.Call();
    if failed {
      return Some(StorageFault);
    }
    var ids := BindingIDs(s.Rows(), acct);
    if ids == {} {
      r := DeleteAccountRows(s, acct);
      assert ArtsWithoutAcct(old(s.artifacts), acct) == old(s.artifacts) - SelectByAccount(old(s.artifacts), acct);
    } else {
      r := DeleteEachBinding(s, ids);
    }
  }

  method DeleteEachBinding(s: Storage, ids: set<uint64>) returns (r: Option<Failure>)
    requires s.Valid()
    modifies s`faults, s`artifacts, s`cache
    ensures s.Valid() && s.faults >= old(s.faults)
    ensures r == if s.faults == old(s.faults) then None else Some(StorageFault)
    ensures r.None? ==> s.artifacts == old(s.artifacts) - SelectByBindings(old(s.artifacts), ids)
    ensures r.None? ==> s.cache == old(s.cache) - CacheKeysOf(s.prefix, old(s.artifacts), SelectByBindings(old(s.artifacts), ids))
    ensures LostOnly(old(s.cache), s.cache, CacheKeysOf(s.prefix, old(s.artifacts), SelectByBindings(old(s.artifacts), ids)))
  {
    ghost var rows, cache := s.artifacts, s.cache;
    var todo := ids;
    NoBindings(s.prefix, rows);
    assert ids - todo == {};
    while todo != {}
      invariant s.Valid() && todo <= ids && s.faults == old(s.faults)
      invariant s.artifacts == rows - SelectByBindings(rows, ids - todo)
      invariant s.cache == cache - CacheKeysOf(s.prefix, rows, SelectByBindings(rows, ids - todo))
      decreases todo
    {
      var b :| b in todo;
      DeletedOneMore(s.prefix, rows, cache, ids - todo, b);
      FewerBindings(s.prefix, rows, cache, ids - todo, ids);
      r := DeleteBindingRows(s, b);
      if r.Some? {
        return;
      }
      assert ids - (todo - {b}) == (ids - todo) + {b};
      todo := todo - {b};
    }
    assert ids - todo == ids;
    FewerBindings(s.prefix, rows, cache, ids, ids);
    return None;
  }

  lemma DeletedOneMore(prefix: string, rows: map<AKey, Art>, cache: Cache, done: set<uint64>, b: uint64)
    requires b !in done
    ensures var rest := rows - SelectByBindings(rows, done);
            && ArtsWithout(rest, b) == rows - SelectByBindings(rows, done + {b})
            && (cache - CacheKeysOf(prefix, rows, SelectByBindings(rows, done))) - KeysOfBinding(prefix, rest, b)
               == cache - CacheKeysOf(prefix, rows, SelectByBindings(rows, done + {b}))
  {
    OneMoreBinding(prefix, rows, done, b);
  }

  lemma NoBindings(prefix: string, rows: map<AKey, Art>)
    ensures SelectByBindings(rows, {}) == {} && CacheKeysOf(prefix, rows, {}) == {}
  {
  }

  lemma FewerBindings(prefix: string, rows: map<AKey, Art>, cache: Cache, some: set<uint64>, all: set<uint64>)
    requires some <= all
    ensures LostOnly(cache, cache - CacheKeysOf(prefix, rows, SelectByBindings(rows, some)),
                     CacheKeysOf(prefix, rows, SelectByBindings(rows, all)))
  {
  }

  lemma OneMoreBinding(prefix: string, rows: map<AKey, Art>, done: set<uint64>, b: uint64)
    requires b !in done
    ensures var rest := rows - SelectByBindings(rows, done);
            && ArtsWithout(rest, b) == rows - SelectByBindings(rows, done + {b})
            && CacheKeysOf(prefix, rows, SelectByBindings(rows, done + {b})) ==
               CacheKeysOf(prefix, rows, SelectByBindings(rows, done)) + KeysOfBinding(prefix, rest, b)
  {
    var rest := rows - SelectByBindings(rows, done);
    assert SelectByBinding(rest, b) == SelectByBinding(rows, b);
    assert SelectByBindings(rows, done + {b}) == SelectByBindings(rows, done) + SelectByBinding(rest, b);
    assert forall k <- SelectByBinding(rest, b) :: rest[k] == rows[k];
  }

  method DeleteRowsByAccount(s: Storage, acct: string) returns (r: Option<Failure>)
    requires s.Valid()
    modifies s`faults, s`creds, s`devices, s`profiles
    ensures s.Valid() && s.faults >= old(s.faults)
    ensures r == if s.faults == old(s.faults) then None else Some(StorageFault)
    ensures r.None? ==> s.creds == CredsWithoutAcct(old(s.creds), acct)
    ensures r.None? ==> s.devices == DevsWithoutAcct(old(s.devices), acct)
    ensures r.None? ==> s.profiles == ProfsWithoutAcct(old(s.profiles), acct)
  {
    r := ProfileRepo.DeleteByPlatformAccountID(s, acct);
    if r.Some? {
      return;
    }
    r := DeviceRepo.DeleteByPlatformAccountID(s, acct);
    if r.Some? {
      return;
    }
    r := CredentialRepo.DeleteByPlatformAccountID(s, acct);
  }

  method DeleteCredentialGraphByBindingID(s: Storage, b: uint64) returns (r: Option<Failure>)
    requires s.Valid()
    modifies s`faults, s`creds, s`devices, s`profiles, s`artifacts, s`cache
    ensures s.Valid() && s.faults >= old(s.faults)
    ensures r == if s.faults == old(s.faults) then None else Some(StorageFault)
    ensures s.Rows() == if r.None? then Others(old(s.Rows()), b) else old(s.Rows())
    ensures r.None? ==> s.cache == old(s.cache) - KeysOfBinding(s.prefix, old(s.artifacts), b)
    ensures LostOnly(old(s.cache), s.cache, KeysOfBinding(s.prefix, old(s.artifacts), b))
    ensures r.None? ==> LostBinding(old(s.Rows()), s.Rows(), b)
  {
    OthersLost(s.Rows(), b);
    var tx := s.Begin();
    if tx.Err? {
      return Some(tx.error);
    }
    r := DeleteGraphRows(s, b);
    r := s.Finish(tx.value, r);
  }

  /** The transaction's body. */
  method DeleteGraphRows(s: Storage, b: uint64) returns (r: Option<Failure>)
    requires s.Valid()
    modifies s`faults, s`creds, s`devices, s`profiles, s`artifacts, s`cache
    ensures s.Valid() && s.faults >= old(s.faults)
    ensures r == if s.faults == old(s.faults) then None else Some(StorageFault)
    ensures r.None? ==> s.Rows() == Others(old(s.Rows()), b)
    ensures r.None? ==> s.cache == old(s.cache) - KeysOfBinding(s.prefix, old(s.artifacts), b)
    ensures LostOnly(old(s.cache), s.cache, KeysOfBinding(s.prefix, old(s.artifacts), b))
  {
    r := DeleteBindingRows(s, b);
    if r.None? {
      r := DeleteRowsByBinding(s, b);
    }
  }

  method DeleteRowsByBinding(s: Storage, b: uint64) returns (r: Option<Failure>)
    requires s.Valid()
    modifies s`faults, s`creds, s`devices, s`profiles
    ensures s.Valid() && s.faults >= old(s.faults)
    ensures r == if s.faults == old(s.faults) then None else Some(StorageFault)
    ensures r.None? ==> s.creds == CredsWithout(old(s.creds), b)
    ensures r.None? ==> s.devices == DevsWithout(old(s.devices), b)
    ensures r.None? ==> s.profiles == ProfsWithout(old(s.profiles), b)
  {
    ghost var t := s.Rows();
    var failed := s.Call();
    if failed {
      return Some(StorageFault);
    }
    s.profiles := ProfsWithout(s.profiles, b);
    FewerRowsOk(t, s.Rows(), s.nextId);
    failed := s.Call();
    if failed {
      return Some(StorageFault);
    }
    s.devices := DevsWithout(s.devices, b);
    FewerRowsOk(t, s.Rows(), s.nextId);
    failed := s.Call();
    if failed {
      return Some(StorageFault);
    }
    s.creds := CredsWithout(s.creds, b);
    FewerRowsOk(t, s.Rows(), s.nextId);
    return None;
  }

  /**
  Where accounts and bindings agree, the two graph deletes are one: deleting by the
  credential's account removes the whole binding, its cache keys included, and nothing else.
  */
  lemma GraphDeletesAgree(t: Tables, b: uint64)
    requires AcctAgree(t) && b in t.creds
    ensures WithoutGraph(t, t.creds[b].acct) == Others(t, b)
    ensures GraphArtifacts(t, t.creds[b].acct) == SelectByBinding(t.artifacts, b)
  {
    ByAccountIsByBinding(t, b);
    OnlyItsBinding(t, b);
    GraphOfOne(t, t.creds[b].acct, b);
  }

  lemma GraphOfOne(t: Tables, acct: string, b: uint64)
    requires BindingIDs(t, acct) == {b}
    ensures GraphArtifacts(t, acct) == SelectByBinding(t.artifacts, b)
    ensures t.artifacts - GraphArtifacts(t, acct) == ArtsWithout(t.artifacts, b)
  {
  }

  lemma OnlyItsBinding(t: Tables, b: uint64)
    requires AcctAgree(t) && b in t.creds
    ensures BindingIDs(t, t.creds[b].acct) == {b}
  {
    AcctAgreeImpliesKeyAgree(t);
    FoundBindingsAreNamed(t, t.creds[b].acct);
    OneAccountOneBinding(t.creds, b, b);
    forall x | x in BindingIDs(t, t.creds[b].acct) ensures x == b {
      assert Names(t.creds[b].acct, b);
    }
  }

  /** The bindings of the rows that carry an account are the binding that the account names. */
  lemma FoundBindingsAreNamed(t: Tables, acct: string)
    requires KeyAgree(t)
    ensures forall b <- BindingIDs(t, acct) :: Names(acct, b)
  {
    CredBindingsAreNamed(t.creds, acct);
    ArtBindingsAreNamed(t.artifacts, acct);
    ProfBindingsAreNamed(t.profiles, acct);
    DevBindingsAreNamed(t.devices, acct);
  }

  lemma CredBindingsAreNamed(creds: map<uint64, Cred>, acct: string)
    requires CredsNamed(creds)
    ensures forall b <- CredBindings(creds, acct) :: Names(acct, b)
  {
  }

  lemma ArtBindingsAreNamed(artifacts: map<AKey, Art>, acct: string)
    requires ArtsNamed(artifacts)
    ensures forall b <- ArtBindings(artifacts, acct) :: Names(acct, b)
  {
  }

  lemma ProfBindingsAreNamed(profiles: map<PKey, Prof>, acct: string)
    requires ProfsNamed(profiles)
    ensures forall b <- ProfBindings(profiles, acct) :: Names(acct, b)
  {
  }

  lemma DevBindingsAreNamed(devices: map<DKey, Dev>, acct: string)
    requires DevsNamed(devices)
    ensures forall b <- DevBindings(devices, acct) :: Names(acct, b)
  {
  }

  lemma OneAccountOneBinding(creds: map<uint64, Cred>, b: uint64, x: uint64)
    requires CredsNamed(creds) && b in creds && x in creds && creds[x].acct == creds[b].acct
    ensures x == b && b != 0
  {
  }

  /** Deleting by an account that no credential holds removes nothing. */
  lemma UnknownAccountDeletesNothing(t: Tables, acct: string)
    requires AcctAgree(t) && forall b <- t.creds :: t.creds[b].acct != acct
    ensures WithoutGraph(t, acct) == t
  {
    NoRowCarries(t, acct);
    NothingFound(t, acct);
    AllRowsStay(t, acct);
  }

  lemma NothingFound(t: Tables, acct: string)
    requires forall b <- t.creds :: t.creds[b].acct != acct
    requires forall k <- t.devices :: t.devices[k].acct != acct
    requires forall k <- t.profiles :: t.profiles[k].acct != acct
    requires forall k <- t.artifacts :: t.artifacts[k].acct != acct
    ensures GraphArtifacts(t, acct) == {}
  {
    assert CredBindings(t.creds, acct) == {} && ArtBindings(t.artifacts, acct) == {};
    assert ProfBindings(t.profiles, acct) == {} && DevBindings(t.devices, acct) == {};
    assert SelectByAccount(t.artifacts, acct) == {};
  }

  lemma AllRowsStay(t: Tables, acct: string)
    requires forall b <- t.creds :: t.creds[b].acct != acct
    requires forall k <- t.devices :: t.devices[k].acct != acct
    requires forall k <- t.profiles :: t.profiles[k].acct != acct
    ensures CredsWithoutAcct(t.creds, acct) == t.creds
    ensures DevsWithoutAcct(t.devices, acct) == t.devices
    ensures ProfsWithoutAcct(t.profiles, acct) == t.profiles
  {
  }

  lemma NoRowCarries(t: Tables, acct: string)
    requires AcctAgree(t) && forall b <- t.creds :: t.creds[b].acct != acct
    ensures forall k <- t.devices :: t.devices[k].acct != acct
    ensures forall k <- t.profiles :: t.profiles[k].acct != acct
    ensures forall k <- t.artifacts :: t.artifacts[k].acct != acct
  {
  }
}
