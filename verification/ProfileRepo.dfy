/** internal/data/profile_repo.go: profile rows with at most one default per binding. */
module ProfileRepo {
  import opened Basics
  import opened Listing
  import opened Db
  import opened Backend

  datatype Profile = Profile(id: nat, binding: uint64, acct: string, gameBiz: string, region: string, player: string,
                             nickname: string, level: int, isDefault: bool, discoveredAt: int)

  datatype Identity = Identity(player: string, region: string)

  type ProfileRows = map<PKey, Prof>

  function KeyOf(p: Profile): PKey {
    PKey(p.binding, p.player, p.region)
  }

  function IdentityOf(k: PKey): Identity {
    Identity(k.player, k.region)
  }

  function FromRow(k: PKey, row: Prof): Profile {
    Profile(row.id, k.binding, row.acct, row.gameBiz, k.region, k.player, row.nickname, row.level, row.isDefault, row.discoveredAt)
  }

  // ---------- saving ----------

  /** Another profile of the binding is the default. */
  predicate Conflict(profiles: ProfileRows, p: Profile) {
    exists k <- profiles :: k.binding == p.binding && profiles[k].isDefault && k != KeyOf(p)
  }

  /** The row that saving `p` leaves under its key: an existing row keeps its id and discovery time. */
  function RowFor(profiles: ProfileRows, nextId: nat, p: Profile): Prof {
    if KeyOf(p) in profiles then
      profiles[KeyOf(p)].(acct := p.acct, gameBiz := p.gameBiz, nickname := p.nickname, level := p.level, isDefault := p.isDefault)
    else Prof(nextId, p.acct, p.gameBiz, p.nickname, p.level, p.isDefault, p.discoveredAt)
  }

  function NextAfter(profiles: ProfileRows, nextId: nat, p: Profile): nat {
    if KeyOf(p) in profiles then nextId else nextId + 1
  }

  /** The rows and the next row id after saving `p`, or the refusal of a second default. */
  function Saved(profiles: ProfileRows, nextId: nat, p: Profile): Result<(ProfileRows, nat), Failure> {
    if p.isDefault && Conflict(profiles, p) then Err(DefaultProfileAlreadyExists)
    else Ok((profiles[KeyOf(p) := RowFor(profiles, nextId, p)], NextAfter(profiles, nextId, p)))
  }

  /**
  The profile's row has its columns, with the id and discovery time it had, or the next id and
  the given time; every other row is as before.
  */
  ghost predicate Stored(before: ProfileRows, nextId: nat, p: Profile, after: ProfileRows) {
    var k := PKey(p.binding, p.player, p.region);
    && k in after && after[k] == Prof(if k in before then before[k].id else nextId, p.acct, p.gameBiz, p.nickname, p.level, p.isDefault,
                                      if k in before then before[k].discoveredAt else p.discoveredAt)
    && forall l :: l != k ==> (l in before <==> l in after) && (l in before ==> after[l] == before[l])
  }

  lemma SavedStores(profiles: ProfileRows, nextId: nat, p: Profile)
    ensures match Saved(profiles, nextId, p)
            case Ok(after) => Stored(profiles, nextId, p, after.0)
            case Err(e) =>
              && e == DefaultProfileAlreadyExists && p.isDefault
              && exists k <- profiles :: k.binding == p.binding && profiles[k].isDefault && (k.player != p.player || k.region != p.region)
  {
    if Saved(profiles, nextId, p).Err? {
      var k :| k in profiles && k.binding == p.binding && profiles[k].isDefault && k != KeyOf(p);
      assert k.player != p.player || k.region != p.region;
    }
  }

  /** The unique keys refuse a save exactly when the conflict check would. */
  lemma RefusedIffConflict(profiles: ProfileRows, nextId: nat, p: Profile)
    requires OneDefault(profiles) && ProfIds(profiles, nextId)
    ensures var after := profiles[KeyOf(p) := RowFor(profiles, nextId, p)];
            && (OneDefault(after) <==> !(p.isDefault && Conflict(profiles, p)))
            && ProfIds(after, NextAfter(profiles, nextId, p))
  {
    var after := profiles[KeyOf(p) := RowFor(profiles, nextId, p)];
    if p.isDefault && Conflict(profiles, p) {
      var k :| k in profiles && k.binding == p.binding && profiles[k].isDefault && k != KeyOf(p);
      assert after[k].isDefault && after[KeyOf(p)].isDefault;
    }
  }

  /** A row write that the unique keys guard: a second default of the binding is refused. */
  method Write(s: Storage, p: Profile) returns (r: Option<Failure>)
    requires s.Valid()
    modifies s`faults, s`profiles, s`nextId
    ensures s.Valid() && s.faults >= old(s.faults)
    ensures r == if s.faults > old(s.faults) then Some(StorageFault)
                 else if p.isDefault && Conflict(old(s.profiles), p) then Some(DefaultProfileAlreadyExists) else None
    ensures s.profiles == if r.None? then old(s.profiles)[KeyOf(p) := RowFor(old(s.profiles), old(s.nextId), p)] else old(s.profiles)
    ensures s.nextId == if r.None? then NextAfter(old(s.profiles), old(s.nextId), p) else old(s.nextId)
  {
    var failed := s.Call();
    if failed {
      return Some(StorageFault);
    }
    var after := s.profiles[KeyOf(p) := RowFor(s.profiles, s.nextId, p)];
    RefusedIffConflict(s.profiles, s.nextId, p);
    if !OneDefault(after) {
      return Some(DefaultProfileAlreadyExists);
    }
    s.profiles, s.nextId := after, NextAfter(s.profiles, s.nextId, p);
    return None;
  }

  /** A plain INSERT, which (binding_id, player_id, region) guards too. */
  method Create(s: Storage, p: Profile) returns (r: Option<Failure>)
    requires s.Valid()
    modifies s`faults, s`profiles, s`nextId
    ensures s.Valid() && s.faults >= old(s.faults)
    ensures KeyOf(p) in old(s.profiles) ==> r == Some(DuplicateKey) && s.faults == old(s.faults)
    ensures KeyOf(p) !in old(s.profiles) ==>
              && s.faults >= old(s.faults)
              && r == if s.faults > old(s.faults) then Some(StorageFault)
                      else if p.isDefault && Conflict(old(s.profiles), p) then Some(DefaultProfileAlreadyExists) else None
    ensures s.profiles == if r.None? then old(s.profiles)[KeyOf(p) := RowFor(old(s.profiles), old(s.nextId), p)] else old(s.profiles)
    ensures s.nextId == if r.None? then NextAfter(old(s.profiles), old(s.nextId), p) else old(s.nextId)
  {
    if KeyOf(p) in s.profiles {
      return Some(DuplicateKey);
    }
    r := Write(s, p);
  }

  method Save(s: Storage, p: Profile) returns (r: Option<Failure>)
    requires s.Valid()
    modifies s`faults, s`profiles, s`nextId
    ensures s.Valid() && s.faults >= old(s.faults)
    ensures r == Some(StorageFault) <==> s.faults > old(s.faults)
    ensures r != Some(StorageFault) ==>
              match Saved(old(s.profiles), old(s.nextId), p)
              case Ok(after) => r == None && s.profiles == after.0 && s.nextId == after.1
              case Err(e) => r == Some(e) && s.profiles == old(s.profiles) && s.nextId == old(s.nextId)
    ensures r.Some? ==> s.profiles == old(s.profiles) && s.nextId == old(s.nextId)
    // column by column, and the refusal row by row
    ensures r.None? ==> Stored(old(s.profiles), old(s.nextId), p, s.profiles)
    ensures s.faults == old(s.faults) ==>
              (r == Some(DefaultProfileAlreadyExists) <==>
                 p.isDefault && exists k <- old(s.profiles) :: k.binding == p.binding && old(s.profiles)[k].isDefault
                                                                && (k.player != p.player || k.region != p.region))
    ensures r.None? || r == Some(StorageFault) || r == Some(DefaultProfileAlreadyExists)
  {
    SavedStores(s.profiles, s.nextId, p);
    if p.isDefault {
      r := SaveDefaultProfile(s, p);
    } else {
      r := Write(s, p);
    }
  }

  /**
  Check, then write. Once the check has passed, neither unique key can refuse the write:
  the only failures are the check's own refusal and a storage fault.
  */
  method SaveDefaultProfile(s: Storage, p: Profile) returns (r: Option<Failure>)
    requires s.Valid() && p.isDefault
    modifies s`faults, s`profiles, s`nextId
    ensures s.Valid() && s.faults >= old(s.faults)
    ensures r == Some(StorageFault) <==> s.faults > old(s.faults)
    ensures r == Some(DefaultProfileAlreadyExists) ==> Conflict(old(s.profiles), p)
    ensures r == None ==> !Conflict(old(s.profiles), p)
    ensures r.None? || r == Some(StorageFault) || r == Some(DefaultProfileAlreadyExists)
    ensures r.None? ==> s.profiles == old(s.profiles)[KeyOf(p) := RowFor(old(s.profiles), old(s.nextId), p)]
                        && s.nextId == NextAfter(old(s.profiles), old(s.nextId), p)
    ensures r.Some? ==> s.profiles == old(s.profiles) && s.nextId == old(s.nextId)
  {
    var failed := s.Call();
    if failed {
      return Some(StorageFault);
    }
    var known := KeyOf(p) in s.profiles;
    r := EnsureNoConflictingDefaultProfile(s, p);
    if r.Some? {
      return;
    }
    if known {
      r := Write(s, p);
    } else {
      r := Create(s, p);
    }
  }

  method EnsureNoConflictingDefaultProfile(s: Storage, p: Profile) returns (r: Option<Failure>)
    modifies s`faults
    ensures s.faults >= old(s.faults)
    ensures r == if s.faults > old(s.faults) then Some(StorageFault)
                 else if Conflict(s.profiles, p) then Some(DefaultProfileAlreadyExists) else None
  {
    var failed := s.Call();
    if failed {
      return Some(StorageFault);
    }
    var conflicts := set k | k in s.profiles && k.binding == p.binding && s.profiles[k].isDefault && k != KeyOf(p);
    if Conflict(s.profiles, p) {
      ghost var k :| k in s.profiles && k.binding == p.binding && s.profiles[k].isDefault && k != KeyOf(p);
      assert k in conflicts;
    }
    return if |conflicts| > 0 then Some(DefaultProfileAlreadyExists) else None;
  }

  // ---------- choosing the default ----------

  function Candidates(profiles: ProfileRows, b: uint64, acct: string, player: string): set<PKey> {
    set k | k in profiles && k.binding == b && profiles[k].acct == acct && k.player == player
  }

  function Cleared(profiles: ProfileRows, b: uint64): ProfileRows {
    map k | k in profiles :: if k.binding == b then profiles[k].(isDefault := false) else profiles[k]
  }

  function Marked(profiles: ProfileRows, marks: set<PKey>): ProfileRows {
    map k | k in profiles :: if k in marks then profiles[k].(isDefault := true) else profiles[k]
  }

  /** `k` is the binding's only default; every other field of every row is untouched. */
  function WithDefault(profiles: ProfileRows, k: PKey): ProfileRows {
    map l | l in profiles :: if l.binding == k.binding then profiles[l].(isDefault := l == k) else profiles[l]
  }

  lemma MarkOneDefault(profiles: ProfileRows, b: uint64, acct: string, player: string)
    requires OneDefault(profiles)
    ensures var marks := Candidates(profiles, b, acct, player);
            OneDefault(Marked(Cleared(profiles, b), marks)) <==> |marks| <= 1
    ensures forall k | Candidates(profiles, b, acct, player) == {k} ::
              Marked(Cleared(profiles, b), Candidates(profiles, b, acct, player)) == WithDefault(profiles, k)
  {
    var marks := Candidates(profiles, b, acct, player);
    var after := Marked(Cleared(profiles, b), marks);
    if |marks| <= 1 {
      AtMostOne(marks);
    } else {
      var k :| k in marks;
      var rest := marks - {k};
      assert |rest| == |marks| - 1 > 0;
      var l :| l in rest;
      assert after[k].isDefault && after[l].isDefault;
    }
  }

  lemma MarkKeepsKeys(profiles: ProfileRows, nextId: nat, b: uint64, acct: string, player: string)
    requires OneDefault(profiles) && ProfIds(profiles, nextId)
    ensures OneDefault(Cleared(profiles, b)) && ProfIds(Cleared(profiles, b), nextId)
    ensures Candidates(Cleared(profiles, b), b, acct, player) == Candidates(profiles, b, acct, player)
    ensures ProfIds(Marked(Cleared(profiles, b), Candidates(profiles, b, acct, player)), nextId)
  {
  }

  lemma TheCandidate(profiles: ProfileRows, b: uint64, acct: string, player: string) returns (k: PKey)
    requires OneDefault(profiles) && |Candidates(profiles, b, acct, player)| == 1
    ensures Candidates(profiles, b, acct, player) == {k}
    ensures Marked(Cleared(profiles, b), Candidates(profiles, b, acct, player)) == WithDefault(profiles, k)
  {
    var marks := Candidates(profiles, b, acct, player);
    k :| k in marks;
    AtMostOne(marks);
    assert marks == {k};
    MarkOneDefault(profiles, b, acct, player);
  }

  lemma AtMostOne<T>(s: set<T>)
    requires |s| <= 1
    ensures forall x <- s, y <- s :: x == y
  {
    forall x, y | x in s && y in s ensures x == y {
      assert x != y ==> |s - {x}| == |s| - 1 && y in s - {x};
      assert |s - {x}| == 0;
      assert s - {x} == {};
    }
  }

  /** No row, one row, or a second default that uniq_default_profile_per_binding refuses. */
  function SetDefaultOutcome(profiles: ProfileRows, b: uint64, acct: string, player: string): Option<Failure> {
    var n := |Candidates(profiles, b, acct, player)|;
    if n == 0 then Some(RecordNotFound) else if n == 1 then None else Some(DefaultProfileAlreadyExists)
  }

  /**
  Succeeds, without a storage fault, exactly when one row matches (binding, account, player);
  that row becomes the binding's only default. Otherwise nothing changes.
  */
  method SetDefaultByBindingAndPlayerID(s: Storage, b: uint64, acct: string, player: string) returns (r: Option<Failure>)
    requires s.Valid()
    modifies s`faults, s`creds, s`devices, s`profiles, s`artifacts
    ensures s.Valid() && s.faults >= old(s.faults)
    ensures s.Rows() == old(s.Rows()).(profiles := s.profiles)
    ensures r.None? ==> exists k :: Candidates(old(s.profiles), b, acct, player) == {k} && s.profiles == WithDefault(old(s.profiles), k)
    ensures r.Some? ==> s.profiles == old(s.profiles)
    ensures r.None? ==> s.faults == old(s.faults)
    ensures s.faults == old(s.faults) ==> r == SetDefaultOutcome(old(s.profiles), b, acct, player)
  {
    var tx := s.Begin();
    if tx.Err? {
      return Some(tx.error);
    }
    r := SetDefaultInTransaction(s, b, acct, player);
    r := s.Finish(tx.value, r);
    if r.None? {
      ghost var k := TheCandidate(old(s.profiles), b, acct, player);
    }
  }

  method SetDefaultInTransaction(s: Storage, b: uint64, acct: string, player: string) returns (r: Option<Failure>)
    requires s.Valid()
    modifies s`faults, s`profiles
    ensures s.Valid() && s.faults >= old(s.faults)
    ensures r == Some(StorageFault) <==> s.faults > old(s.faults)
    ensures r != Some(StorageFault) ==> r == SetDefaultOutcome(old(s.profiles), b, acct, player)
    ensures r.None? ==> s.profiles == Marked(Cleared(old(s.profiles), b), Candidates(old(s.profiles), b, acct, player))
  {
    MarkKeepsKeys(s.profiles, s.nextId, b, acct, player);
    MarkOneDefault(s.profiles, b, acct, player);
    var failed := ClearDefaults(s, b);
    if failed {
      return Some(StorageFault);
    }
    var marks := Candidates(s.profiles, b, acct, player);
    r := MarkDefaults(s, marks);
    if r.None? && |marks| == 0 {
      r := Some(RecordNotFound);
    }
  }

  method ClearDefaults(s: Storage, b: uint64) returns (failed: bool)
    requires s.Valid() && OneDefault(Cleared(s.profiles, b)) && ProfIds(Cleared(s.profiles, b), s.nextId)
    modifies s`faults, s`profiles
    ensures s.Valid() && s.faults == old(s.faults) + (if failed then 1 else 0)
    ensures s.profiles == if failed then old(s.profiles) else Cleared(old(s.profiles), b)
  {
    failed := s.Call();
    if !failed {
      s.profiles := Cleared(s.profiles, b);
    }
  }

  /** UPDATE ... SET is_default = TRUE, guarded by uniq_default_profile_per_binding. */
  method MarkDefaults(s: Storage, marks: set<PKey>) returns (r: Option<Failure>)
    requires s.Valid() && ProfIds(Marked(s.profiles, marks), s.nextId)
    modifies s`faults, s`profiles
    ensures s.Valid() && s.faults >= old(s.faults)
    ensures r == if s.faults > old(s.faults) then Some(StorageFault)
                 else if OneDefault(Marked(old(s.profiles), marks)) then None else Some(DefaultProfileAlreadyExists)
    ensures s.profiles == if r.None? then Marked(old(s.profiles), marks) else old(s.profiles)
  {
    var failed := s.Call();
    if failed {
      return Some(StorageFault);
    }
    if !OneDefault(Marked(s.profiles, marks)) {
      return Some(DefaultProfileAlreadyExists);
    }
    s.profiles := Marked(s.profiles, marks);
    return None;
  }

  // ---------- listing ----------

  function Ids(profiles: ProfileRows): map<PKey, nat> {
    map k | k in profiles :: profiles[k].id
  }

  function RowsOfBinding(profiles: ProfileRows, b: uint64): ProfileRows {
    map k | k in profiles && k.binding == b :: profiles[k]
  }

  function RowsOfAccount(profiles: ProfileRows, acct: string): ProfileRows {
    map k | k in profiles && profiles[k].acct == acct :: profiles[k]
  }

  /** SELECT ... ORDER BY id over a selection of rows. */
  function Listed(rows: ProfileRows): seq<Profile>
    requires Distinct(Ids(rows))
  {
    var keys := ByID(Ids(rows));
    seq(|keys|, i requires 0 <= i < |keys| => assert keys[i] in keys; FromRow(keys[i], rows[keys[i]]))
  }

  /** The list holds exactly the selected rows, in increasing order of id. */
  lemma ListedExactly(rows: ProfileRows)
    requires Distinct(Ids(rows))
    ensures forall i :: 0 <= i < |Listed(rows)| ==>
              var p := Listed(rows)[i]; KeyOf(p) in rows && p == FromRow(KeyOf(p), rows[KeyOf(p)])
    ensures forall k <- rows :: FromRow(k, rows[k]) in Listed(rows)
    ensures forall i, j :: 0 <= i < j < |Listed(rows)| ==> Listed(rows)[i].id < Listed(rows)[j].id
  {
    var keys, list := ByID(Ids(rows)), Listed(rows);
    forall i | 0 <= i < |list| ensures KeyOf(list[i]) == keys[i] && keys[i] in rows {
      assert keys[i] in keys;
    }
    forall k | k in rows ensures FromRow(k, rows[k]) in list {
      assert k in Ids(rows);
      var i :| 0 <= i < |keys| && keys[i] == k;
      assert list[i] == FromRow(k, rows[k]);
    }
    forall i, j | 0 <= i < j < |list| ensures list[i].id < list[j].id {
      assert Ids(rows)[keys[i]] < Ids(rows)[keys[j]];
    }
  }

  method ListByBindingID(s: Storage, b: uint64) returns (r: Result<seq<Profile>, Failure>)
    requires s.Valid()
    modifies s`faults
    ensures s.faults >= old(s.faults)
    ensures r == if s.faults > old(s.faults) then Err(StorageFault) else Ok(Listed(RowsOfBinding(s.profiles, b)))
  {
    var failed := s.Call();
    r := if failed then Err(StorageFault) else Ok(Listed(RowsOfBinding(s.profiles, b)));
  }

  method ListByPlatformAccountID(s: Storage, acct: string) returns (r: Result<seq<Profile>, Failure>)
    requires s.Valid()
    modifies s`faults
    ensures s.faults >= old(s.faults)
    ensures r == if s.faults > old(s.faults) then Err(StorageFault) else Ok(Listed(RowsOfAccount(s.profiles, acct)))
  {
    var failed := s.Call();
    r := if failed then Err(StorageFault) else Ok(Listed(RowsOfAccount(s.profiles, acct)));
  }

  // ---------- deleting ----------

  method DeleteByPlatformAccountID(s: Storage, acct: string) returns (r: Option<Failure>)
    requires s.Valid()
    modifies s`faults, s`profiles
    ensures s.Valid() && s.faults >= old(s.faults)
    ensures r == if s.faults > old(s.faults) then Some(StorageFault) else None
    ensures s.profiles == if r.None? then ProfsWithoutAcct(old(s.profiles), acct) else old(s.profiles)
  {
    var failed := s.Call();
    if failed {
      return Some(StorageFault);
    }
    s.profiles := ProfsWithoutAcct(s.profiles, acct);
    return None;
  }

  function KeptByBinding(profiles: ProfileRows, b: uint64, keep: seq<Identity>): ProfileRows {
    map k | k in profiles && (k.binding == b ==> IdentityOf(k) in keep) :: profiles[k]
  }

  method DeleteMissingByBindingID(s: Storage, b: uint64, keep: seq<Identity>) returns (r: Option<Failure>)
    requires s.Valid()
    modifies s`faults, s`profiles
    ensures s.Valid() && s.faults >= old(s.faults)
    ensures r == if s.faults > old(s.faults) then Some(StorageFault) else None
    ensures s.profiles == if r.None? then KeptByBinding(old(s.profiles), b, keep) else old(s.profiles)
    ensures r.None? ==> forall k <- old(s.profiles) ::
              k in s.profiles <==> k.binding != b || exists i <- keep :: i.player == k.player && i.region == k.region
    ensures forall k <- s.profiles :: k in old(s.profiles) && s.profiles[k] == old(s.profiles)[k]
  {
    KeptRows(s.profiles, b, keep);
    KeptValid(s.profiles, s.nextId, b, keep);
    var failed := s.Call();
    if failed {
      return Some(StorageFault);
    }
    if |keep| == 0 {
      s.profiles := ProfsWithout(s.profiles, b);
    } else {
      KeptByClauses(s.profiles, b, keep);
      s.profiles := WithoutUnmatched(s.profiles, b, keep);
    }
    return None;
  }

  /** DELETE ... WHERE binding_id = ? AND NOT ((player_id = ? AND region = ?) OR ...). */
  function WithoutUnmatched(profiles: ProfileRows, b: uint64, keep: seq<Identity>): ProfileRows {
    map k | k in profiles && !(k.binding == b && !exists i <- keep :: k.player == i.player && k.region == i.region) :: profiles[k]
  }

  lemma KeptByClauses(profiles: ProfileRows, b: uint64, keep: seq<Identity>)
    ensures WithoutUnmatched(profiles, b, keep) == KeptByBinding(profiles, b, keep)
  {
  }

  lemma KeptRows(profiles: ProfileRows, b: uint64, keep: seq<Identity>)
    ensures var kept := KeptByBinding(profiles, b, keep);
            && (forall k <- profiles :: k in kept <==> k.binding != b || exists i <- keep :: i.player == k.player && i.region == k.region)
            && (forall k <- kept :: k in profiles && kept[k] == profiles[k])
    ensures keep == [] ==> KeptByBinding(profiles, b, keep) == ProfsWithout(profiles, b)
  {
  }

  lemma KeptValid(profiles: ProfileRows, nextId: nat, b: uint64, keep: seq<Identity>)
    requires OneDefault(profiles) && ProfIds(profiles, nextId)
    ensures OneDefault(KeptByBinding(profiles, b, keep)) && ProfIds(KeptByBinding(profiles, b, keep), nextId)
  {
  }

  /** The text under which the row-by-row loop remembers what to keep. */
  function JoinedKey(player: string, region: string): string {
    player + ":" + region
  }

  function JoinedKeys(keep: seq<Identity>): set<string> {
    set i: Identity | i in keep :: JoinedKey(i.player, i.region)
  }

  /** What the row-by-row loop leaves: an account's row stays if its joined text is to be kept. */
  function KeptByAccount(profiles: ProfileRows, acct: string, keep: seq<Identity>): ProfileRows {
    map k | k in profiles && (profiles[k].acct == acct ==> JoinedKey(k.player, k.region) in JoinedKeys(keep)) :: profiles[k]
  }

  method DeleteMissingByPlatformAccountID(s: Storage, acct: string, keep: seq<Identity>) returns (r: Option<Failure>)
    requires s.Valid()
    modifies s`faults, s`profiles
    ensures s.Valid()
    ensures r.None? <==> s.faults == old(s.faults)
    ensures r.None? ==> s.profiles == KeptByAccount(old(s.profiles), acct, keep)
    ensures forall k <- old(s.profiles) :: k in s.profiles || (old(s.profiles)[k].acct == acct && IdentityOf(k) !in keep)
    ensures forall k <- s.profiles :: k in old(s.profiles) && s.profiles[k] == old(s.profiles)[k]
  {
    var records := ListByPlatformAccountID(s, acct);
    if records.Err? {
      return Some(StorageFault);
    }
    var keepSet := BuildKeepSet(keep);
    RecordsOfAccount(s.profiles, s.nextId, acct);
    ghost var before := s.profiles;
    ghost var n;
    r, n := DeleteUnkept(s, records.value, keepSet);
    AccountKeptWithin(before, s.nextId, acct, keep, n);
  }

  lemma AccountKeptWithin(before: ProfileRows, nextId: nat, acct: string, keep: seq<Identity>, n: nat)
    requires ProfIds(before, nextId) && n <= |Listed(RowsOfAccount(before, acct))|
    ensures var records := Listed(RowsOfAccount(before, acct));
            var kept := KeptSoFar(before, records[..n], JoinedKeys(keep));
            && (forall k <- before :: k in kept || (before[k].acct == acct && IdentityOf(k) !in keep))
            && (forall k <- kept :: k in before && kept[k] == before[k])
            && (n == |records| ==> kept == KeptByAccount(before, acct, keep))
  {
    var records := Listed(RowsOfAccount(before, acct));
    RecordsOfAccount(before, nextId, acct);
    forall p | p in records[..n] ensures p in records {}
    assert records[..|records|] == records;
    KeptWithin(before, acct, records[..n], keep);
  }

  /** The records are exactly the account's rows. */
  lemma RecordsOfAccount(profiles: ProfileRows, nextId: nat, acct: string)
    requires ProfIds(profiles, nextId)
    ensures forall p <- Listed(RowsOfAccount(profiles, acct)) ::
              KeyOf(p) in profiles && profiles[KeyOf(p)].acct == acct && p == FromRow(KeyOf(p), profiles[KeyOf(p)])
    ensures forall k <- profiles :: profiles[k].acct == acct ==> FromRow(k, profiles[k]) in Listed(RowsOfAccount(profiles, acct))
  {
    var rows := RowsOfAccount(profiles, acct);
    ListedExactly(rows);
    assert forall k <- profiles :: profiles[k].acct == acct ==> k in rows && rows[k] == profiles[k];
  }

  method BuildKeepSet(keep: seq<Identity>) returns (keepSet: set<string>)
    ensures keepSet == JoinedKeys(keep)
  {
    keepSet := {};
    for i := 0 to |keep|
      invariant keepSet == JoinedKeys(keep[..i])
    {
      assert keep[..i + 1] == keep[..i] + [keep[i]];
      keepSet := keepSet + {JoinedKey(keep[i].player, keep[i].region)};
    }
    assert keep[..|keep|] == keep;
  }

  /** The loop; it has looked at `n` rows when it ends. */
  method DeleteUnkept(s: Storage, rows: seq<Profile>, keepSet: set<string>) returns (r: Option<Failure>, ghost n: nat)
    requires s.Valid() && forall p <- rows :: KeyOf(p) in s.profiles && p == FromRow(KeyOf(p), s.profiles[KeyOf(p)])
    modifies s`faults, s`profiles
    ensures s.Valid() && n <= |rows|
    ensures r.None? <==> s.faults == old(s.faults)
    ensures r.None? ==> n == |rows|
    ensures s.profiles == KeptSoFar(old(s.profiles), rows[..n], keepSet)
  {
    ghost var before := s.profiles;
    for i := 0 to |rows|
      invariant s.Valid() && s.faults == old(s.faults)
      invariant s.profiles == KeptSoFar(before, rows[..i], keepSet)
    {
      assert rows[..i + 1] == rows[..i] + [rows[i]];
      KeptStep(before, s.nextId, rows[..i], KeyOf(rows[i]), keepSet);
      var key := JoinedKey(rows[i].player, rows[i].region);
      if key in keepSet {
        continue;
      }
      var failed := DeleteByID(s, rows[i].id);
      if failed {
        return Some(StorageFault), i;
      }
    }
    return None, |rows|;
  }

  method DeleteByID(s: Storage, id: nat) returns (failed: bool)
    requires s.Valid()
    modifies s`faults, s`profiles
    ensures s.Valid() && s.faults == old(s.faults) + (if failed then 1 else 0)
    ensures s.profiles == if failed then old(s.profiles) else WithoutId(old(s.profiles), id)
  {
    failed := s.Call();
    if !failed {
      s.profiles := WithoutId(s.profiles, id);
    }
  }

  /** DELETE by primary key. */
  function WithoutId(profiles: ProfileRows, id: nat): ProfileRows {
    map k | k in profiles && profiles[k].id != id :: profiles[k]
  }

  /** The rows left when the loop has looked at `seen`. */
  function KeptSoFar(before: ProfileRows, seen: seq<Profile>, keepSet: set<string>): ProfileRows {
    map k | k in before && (FromRow(k, before[k]) in seen ==> JoinedKey(k.player, k.region) in keepSet) :: before[k]
  }

  lemma KeptStep(before: ProfileRows, nextId: nat, seen: seq<Profile>, k: PKey, keepSet: set<string>)
    requires ProfIds(before, nextId) && k in before
    ensures var now := KeptSoFar(before, seen, keepSet);
            KeptSoFar(before, seen + [FromRow(k, before[k])], keepSet) ==
            if JoinedKey(k.player, k.region) in keepSet then now else WithoutId(now, before[k].id)
  {
  }

  lemma KeptWithin(before: ProfileRows, acct: string, seen: seq<Profile>, keep: seq<Identity>)
    requires forall p <- seen :: KeyOf(p) in before && before[KeyOf(p)].acct == acct && p == FromRow(KeyOf(p), before[KeyOf(p)])
    ensures forall k <- before :: k in KeptSoFar(before, seen, JoinedKeys(keep)) || (before[k].acct == acct && IdentityOf(k) !in keep)
    ensures (forall k <- before :: before[k].acct == acct ==> FromRow(k, before[k]) in seen) ==>
              KeptSoFar(before, seen, JoinedKeys(keep)) == KeptByAccount(before, acct, keep)
  {
  }

  /**
  A row whose identity is not to be kept survives the loop exactly when its joined text is
  that of some other identity to be kept.
  */
  lemma SurvivesIffCollides(profiles: ProfileRows, acct: string, keep: seq<Identity>, k: PKey)
    requires k in profiles && profiles[k].acct == acct && IdentityOf(k) !in keep
    ensures k in KeptByAccount(profiles, acct, keep) <==>
            exists i <- keep :: i != IdentityOf(k) && JoinedKey(i.player, i.region) == JoinedKey(k.player, k.region)
  {
  }

  /** What the loop is meant to leave: the kept identities of the account, and every other account's rows. */
  function KeptExactly(profiles: ProfileRows, acct: string, keep: seq<Identity>): ProfileRows {
    map k | k in profiles && (profiles[k].acct == acct ==> IdentityOf(k) in keep) :: profiles[k]
  }

  /** The loop leaves just that exactly when no unkept row of the account joins to the text of a kept identity. */
  lemma KeepsExactlyIff(profiles: ProfileRows, acct: string, keep: seq<Identity>)
    ensures KeptByAccount(profiles, acct, keep) == KeptExactly(profiles, acct, keep) <==>
            forall k <- profiles, i <- keep ::
              profiles[k].acct == acct && JoinedKey(k.player, k.region) == JoinedKey(i.player, i.region) ==> IdentityOf(k) in keep
  {
    var kept, exact := KeptByAccount(profiles, acct, keep), KeptExactly(profiles, acct, keep);
    if k, i :| k in profiles && i in keep && profiles[k].acct == acct && IdentityOf(k) !in keep &&
               JoinedKey(k.player, k.region) == JoinedKey(i.player, i.region) {
      SurvivesIffCollides(profiles, acct, keep, k);
      assert k in kept && k !in exact;
    } else {
      forall k | k in profiles && profiles[k].acct == acct ensures k in kept <==> IdentityOf(k) in keep {
        if IdentityOf(k) !in keep {
          SurvivesIffCollides(profiles, acct, keep, k);
        }
      }
    }
  }

  /** With colon-free player ids the loop leaves exactly the kept identities of the account. */
  lemma ColonFreeKeepsExactly(profiles: ProfileRows, acct: string, keep: seq<Identity>)
    requires forall k <- profiles :: profiles[k].acct == acct ==> ':' !in k.player
    requires forall i <- keep :: ':' !in i.player
    ensures KeptByAccount(profiles, acct, keep) == KeptExactly(profiles, acct, keep)
  {
    forall k | k in profiles && profiles[k].acct == acct
      ensures JoinedKey(k.player, k.region) in JoinedKeys(keep) <==> IdentityOf(k) in keep
    {
      if i :| i in keep && JoinedKey(i.player, i.region) == JoinedKey(k.player, k.region) {
        SplitUnique(':', i.player, i.region, k.player, k.region);
        assert i == IdentityOf(k);
      }
    }
  }

  /** Where accounts and bindings agree, it then does what the by-binding delete does. */
  lemma ByAccountMatchesByBinding(t: Tables, b: uint64, keep: seq<Identity>)
    requires AcctAgree(t) && b in t.creds
    requires forall k <- t.profiles :: k.binding == b ==> ':' !in k.player
    requires forall i <- keep :: ':' !in i.player
    ensures KeptByAccount(t.profiles, t.creds[b].acct, keep) == KeptByBinding(t.profiles, b, keep)
  {
    AcctAgreeImpliesKeyAgree(t);
    ColonFreeKeepsExactly(t.profiles, t.creds[b].acct, keep);
  }

  /** Without that condition the two deletes differ: two identities can join to the same text. */
  lemma JoinedKeysCollide()
    ensures JoinedKey("1:a", "b") == JoinedKey("1", "a:b") && Identity("1:a", "b") != Identity("1", "a:b")
  {
  }
}
