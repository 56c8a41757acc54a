/** internal/usecase/profile_usecase.go: listing, the primary profile and its confirmation. */
module ProfileUsecase {
  import opened Basics
  import opened Listing
  import opened Db
  import opened Backend
  import opened ProfileRepo
  import opened ScopeGuard
  import opened BindSpec
  import opened Runs
  import BindLaws
  import ManagementRepo

  /** The profiles with the account, in their order. */
  function OfAccount(ps: seq<Profile>, acct: string): seq<Profile> {
    if ps == [] then []
    else
      var rest := OfAccount(ps[..|ps| - 1], acct);
      if ps[|ps| - 1].acct == acct then rest + [ps[|ps| - 1]] else rest
  }

  /** The profiles the guard allows, in their order. */
  function Allowed(ps: seq<Profile>, g: Guard): seq<Profile> {
    if ps == [] then []
    else
      var rest := Allowed(ps[..|ps| - 1], g);
      var last := ps[|ps| - 1];
      if g.RequireProfile(last.binding, last.id).None? then rest + [last] else rest
  }

  /** The first default profile of a list, or else its first profile. */
  function PrimaryOf(ps: seq<Profile>): Option<Profile> {
    if ps == [] then None
    else if FirstDefault(ps).Some? then FirstDefault(ps)
    else Some(ps[0])
  }

  function FirstDefault(ps: seq<Profile>): Option<Profile> {
    if ps == [] then None else if ps[0].isDefault then Some(ps[0]) else FirstDefault(ps[1..])
  }

  lemma {:induction false} FirstDefaultAt(ps: seq<Profile>, i: nat)
    requires i <= |ps| && forall j :: 0 <= j < i ==> !ps[j].isDefault
    ensures i < |ps| && ps[i].isDefault ==> FirstDefault(ps) == Some(ps[i])
    ensures i == |ps| ==> FirstDefault(ps) == None
  {
    if i > 0 {
      FirstDefaultAt(ps[1..], i - 1);
    }
  }

  /** filtered := profiles[:0]; append(filtered, ...): the kept profiles move to the front of the same array. */
  method FilterInPlace(profiles: array<Profile>, acct: string) returns (n: nat)
    modifies profiles
    ensures n <= profiles.Length && profiles[..n] == OfAccount(old(profiles[..]), acct)
  {
    n := 0;
    ghost var before := profiles[..];
    for i := 0 to profiles.Length
      invariant n <= i
      invariant profiles[..n] == OfAccount(before[..i], acct)
      invariant forall j :: i <= j < profiles.Length ==> profiles[j] == before[j]
    {
      assert before[..i + 1][..i] == before[..i];
      if profiles[i].acct == acct {
        profiles[n] := profiles[i];
        n := n + 1;
      }
    }
    assert before[..profiles.Length] == before;
  }

  /** The first filter, over the listed profiles' own array. */
  method FilteredByAccount(listed: seq<Profile>, acct: string) returns (kept: seq<Profile>)
    ensures kept == OfAccount(listed, acct)
  {
    var profiles := new Profile[|listed|](i requires 0 <= i < |listed| => listed[i]);
    assert profiles[..] == listed;
    var n := FilterInPlace(profiles, acct);
    kept := profiles[..n];
  }

  /** The second filter: only the profile of a profile-bound guard stays. */
  method FilterAllowed(kept: seq<Profile>, g: Guard) returns (filtered: seq<Profile>)
    ensures filtered == Allowed(kept, g)
  {
    filtered := [];
    for i := 0 to |kept|
      invariant filtered == Allowed(kept[..i], g)
    {
      assert kept[..i + 1][..i] == kept[..i];
      if g.RequireProfile(kept[i].binding, kept[i].id).None? {
        filtered := filtered + [kept[i]];
      }
    }
    assert kept[..|kept|] == kept;
  }

  /** What a scoped listing returns, given the rows of the guard's binding. */
  function Scoped(rows: ProfileRows, g: Guard, acct: string): Result<seq<Profile>, Failure>
    requires Distinct(Ids(rows))
  {
    var ofAccount := OfAccount(Listed(rows), acct);
    if g.RequirePlatformAccountID(acct).Some? then Err(BindingScopeDenied)
    else if g.profileId == 0 then Ok(ofAccount)
    else if Allowed(ofAccount, g) == [] then Err(ProfileScopeDenied)
    else Ok(Allowed(ofAccount, g))
  }

  // ---------- what a scoped listing shows, column by column ----------

  predicate Shows(rows: ProfileRows, p: Profile) {
    var k := PKey(p.binding, p.player, p.region);
    k in rows && rows[k] == Prof(p.id, p.acct, p.gameBiz, p.nickname, p.level, p.isDefault, p.discoveredAt)
  }

  /** A row of the guard's binding with the account, and of the guard's profile if it names one. */
  predicate InScope(rows: ProfileRows, g: Guard, acct: string, k: PKey) {
    k in rows && k.binding == g.binding && rows[k].acct == acct && (g.profileId != 0 ==> rows[k].id == g.profileId)
  }

  /** The list shows exactly the rows in scope, each once, in increasing order of id. */
  ghost predicate ListsScope(rows: ProfileRows, g: Guard, acct: string, list: seq<Profile>) {
    && (forall p <- list :: Shows(rows, p) && InScope(rows, g, acct, PKey(p.binding, p.player, p.region)))
    && (forall k :: InScope(rows, g, acct, k) ==> exists p <- list :: PKey(p.binding, p.player, p.region) == k)
    && Ordered(list)
  }

  predicate Ordered(list: seq<Profile>) {
    forall i, j :: 0 <= i < j < |list| ==> list[i].id < list[j].id
  }

  lemma {:induction false} OfAccountOrdered(ps: seq<Profile>, acct: string)
    requires Ordered(ps)
    ensures Ordered(OfAccount(ps, acct))
    ensures ps != [] ==> forall p <- OfAccount(ps, acct) :: p.id <= ps[|ps| - 1].id
  {
    if ps != [] {
      var before := ps[..|ps| - 1];
      OfAccountOrdered(before, acct);
      OfAccountMembers(before, acct);
    }
  }

  lemma {:induction false} AllowedMembers(ps: seq<Profile>, g: Guard)
    ensures forall p :: p in Allowed(ps, g) <==> p in ps && g.RequireProfile(p.binding, p.id).None?
  {
    if ps != [] {
      AllowedMembers(ps[..|ps| - 1], g);
      assert ps == ps[..|ps| - 1] + [ps[|ps| - 1]];
    }
  }

  lemma {:induction false} AllowedOrdered(ps: seq<Profile>, g: Guard)
    requires Ordered(ps)
    ensures Ordered(Allowed(ps, g))
    ensures ps != [] ==> forall p <- Allowed(ps, g) :: p.id <= ps[|ps| - 1].id
  {
    if ps != [] {
      AllowedOrdered(ps[..|ps| - 1], g);
      AllowedMembers(ps[..|ps| - 1], g);
    }
  }

  /** The account filter leaves the binding's rows with the account. */
  lemma AccountListed(profiles: ProfileRows, nextId: nat, b: uint64, acct: string)
    requires ProfIds(profiles, nextId)
    ensures var list := OfAccount(Listed(RowsOfBinding(profiles, b)), acct);
            && (forall p <- list :: Shows(profiles, p) && p.binding == b && p.acct == acct)
            && (forall k <- profiles :: k.binding == b && profiles[k].acct == acct ==>
                  exists p <- list :: PKey(p.binding, p.player, p.region) == k)
            && Ordered(list)
  {
    var rows := RowsOfBinding(profiles, b);
    AccountListedRows(rows, acct);
    forall p | p in OfAccount(Listed(rows), acct) ensures Shows(profiles, p) && p.binding == b && p.acct == acct {
      assert Shows(rows, p);
    }
    forall k | k in profiles && k.binding == b && profiles[k].acct == acct
      ensures exists p <- OfAccount(Listed(rows), acct) :: PKey(p.binding, p.player, p.region) == k
    {
      AccountRowListed(rows, acct, k);
    }
  }

  lemma AccountListedRows(rows: ProfileRows, acct: string)
    requires Distinct(Ids(rows))
    ensures forall p <- OfAccount(Listed(rows), acct) :: Shows(rows, p) && p.acct == acct
    ensures Ordered(OfAccount(Listed(rows), acct))
  {
    ListedExactly(rows);
    OfAccountMembers(Listed(rows), acct);
    OfAccountOrdered(Listed(rows), acct);
  }

  lemma AccountRowListed(rows: ProfileRows, acct: string, k: PKey)
    requires Distinct(Ids(rows)) && k in rows && rows[k].acct == acct
    ensures exists p <- OfAccount(Listed(rows), acct) :: PKey(p.binding, p.player, p.region) == k
  {
    var j := PlaceOf(rows, k);
    OfAccountMembers(Listed(rows), acct);
    assert Listed(rows)[j] in Listed(rows);
  }

  /** What Scoped answers: the refusals, and otherwise exactly the rows in scope. */
  lemma ScopedMeans(profiles: ProfileRows, nextId: nat, g: Guard, acct: string)
    requires ProfIds(profiles, nextId)
    ensures var r := Scoped(RowsOfBinding(profiles, g.binding), g, acct);
            && (!Names(acct, g.binding) <==> r == Err(BindingScopeDenied))
            && (Names(acct, g.binding) && g.profileId != 0 && (forall k :: !InScope(profiles, g, acct, k))
                <==> r == Err(ProfileScopeDenied))
            && (r.Err? ==> r == Err(BindingScopeDenied) || r == Err(ProfileScopeDenied))
            && (r.Ok? ==> ListsScope(profiles, g, acct, r.value))
  {
    if Names(acct, g.binding) {
      AccountListed(profiles, nextId, g.binding, acct);
      AllowedMeans(profiles, g, acct, OfAccount(Listed(RowsOfBinding(profiles, g.binding)), acct));
    }
  }

  lemma AllowedMeans(profiles: ProfileRows, g: Guard, acct: string, list: seq<Profile>)
    requires g.binding != 0 && Ordered(list)
    requires forall p <- list :: Shows(profiles, p) && p.binding == g.binding && p.acct == acct
    requires forall k <- profiles :: k.binding == g.binding && profiles[k].acct == acct ==>
               exists p <- list :: PKey(p.binding, p.player, p.region) == k
    ensures g.profileId == 0 ==> ListsScope(profiles, g, acct, list)
    ensures g.profileId != 0 ==> ListsScope(profiles, g, acct, Allowed(list, g))
    ensures g.profileId != 0 ==> (Allowed(list, g) == [] <==> forall k :: !InScope(profiles, g, acct, k))
  {
    AllowedMembers(list, g);
    AllowedOrdered(list, g);
    if g.profileId != 0 {
      forall k | InScope(profiles, g, acct, k) ensures exists p <- Allowed(list, g) :: PKey(p.binding, p.player, p.region) == k {
        var p :| p in list && PKey(p.binding, p.player, p.region) == k;
        assert p in Allowed(list, g);
      }
      if Allowed(list, g) != [] {
        var p := Allowed(list, g)[0];
        assert p in Allowed(list, g) && InScope(profiles, g, acct, PKey(p.binding, p.player, p.region));
      }
    }
  }

  /** The default among the rows in scope, or else the oldest of them. */
  ghost predicate PrimaryIn(rows: ProfileRows, g: Guard, acct: string, primary: Option<Profile>) {
    match primary
    case None => forall k :: !InScope(rows, g, acct, k)
    case Some(p) =>
      && Shows(rows, p) && InScope(rows, g, acct, PKey(p.binding, p.player, p.region))
      && (p.isDefault || forall k :: InScope(rows, g, acct, k) ==> !rows[k].isDefault && p.id <= rows[k].id)
  }

  lemma PrimaryMeans(rows: ProfileRows, g: Guard, acct: string, list: seq<Profile>)
    requires ListsScope(rows, g, acct, list)
    ensures PrimaryIn(rows, g, acct, PrimaryOf(list))
  {
    FirstDefaultIn(list);
    if list == [] {
      forall k ensures !InScope(rows, g, acct, k) {}
    } else if FirstDefault(list).None? {
      forall k | InScope(rows, g, acct, k) ensures !rows[k].isDefault && list[0].id <= rows[k].id {
        var p :| p in list && PKey(p.binding, p.player, p.region) == k;
        assert Shows(rows, p);
        var i :| 0 <= i < |list| && list[i] == p;
      }
      assert list[0] in list;
    }
  }

  method ListScopedProfiles(s: Storage, g: Guard, acct: string) returns (r: Result<seq<Profile>, Failure>)
    requires s.Valid()
    modifies s`faults
    ensures s.faults >= old(s.faults)
    ensures s.faults == old(s.faults) ==> r == Scoped(RowsOfBinding(s.profiles, g.binding), g, acct)
    ensures s.faults > old(s.faults) ==> r == Err(StorageFault)
    // which refusal, and otherwise exactly the rows in scope
    ensures s.faults == old(s.faults) ==> (r == Err(BindingScopeDenied) <==> !Names(acct, g.binding))
    ensures s.faults == old(s.faults) ==>
              (r == Err(ProfileScopeDenied) <==>
                 Names(acct, g.binding) && g.profileId != 0 && forall k :: !InScope(s.profiles, g, acct, k))
    ensures r.Err? ==> r.error == StorageFault || r.error == BindingScopeDenied || r.error == ProfileScopeDenied
    ensures r.Ok? ==> ListsScope(s.profiles, g, acct, r.value)
  {
    ScopedMeans(s.profiles, s.nextId, g, acct);
    var denied := g.RequirePlatformAccountID(acct);
    if denied.Some? {
      return Err(denied.value);
    }
    r := ListByBindingID(s, g.binding);
    if r.Err? {
      return;
    }
    var profiles := FilteredByAccount(r.value, acct);
    if g.profileId == 0 {
      return Ok(profiles);
    }
    var filtered := FilterAllowed(profiles, g);
    return if |filtered| == 0 then Err(ProfileScopeDenied) else Ok(filtered);
  }

  method GetPrimaryProfileWithScope(s: Storage, g: Guard, acct: string) returns (r: Result<Option<Profile>, Failure>)
    requires s.Valid()
    modifies s`faults
    ensures s.faults >= old(s.faults)
    ensures s.faults == old(s.faults) ==>
              match Scoped(RowsOfBinding(s.profiles, g.binding), g, acct)
              case Ok(ps) => r == Ok(PrimaryOf(ps))
              case Err(e) => r == Err(e)
    ensures s.faults > old(s.faults) ==> r == Err(StorageFault)
    ensures r.Ok? ==> PrimaryIn(s.profiles, g, acct, r.value)
    ensures r.Ok? && g.profileId != 0 ==> r.value.Some? && r.value.value.id == g.profileId
  {
    var scoped := ListScopedProfiles(s, g, acct);
    if scoped.Err? {
      return Err(scoped.error);
    }
    var primary := PickPrimary(scoped.value);
    PrimaryMeans(s.profiles, g, acct, scoped.value);
    if g.profileId != 0 {
      ScopedNotEmpty(s.profiles, s.nextId, g, acct);
    }
    return Ok(primary);
  }

  lemma ScopedNotEmpty(profiles: ProfileRows, nextId: nat, g: Guard, acct: string)
    requires ProfIds(profiles, nextId) && g.profileId != 0
    ensures Scoped(RowsOfBinding(profiles, g.binding), g, acct) != Ok([])
  {
  }

  /** The loop of GetPrimaryProfileWithScope. */
  method PickPrimary(profiles: seq<Profile>) returns (r: Option<Profile>)
    ensures r == PrimaryOf(profiles)
  {
    if |profiles| == 0 {
      return None;
    }
    for i := 0 to |profiles|
      invariant forall j :: 0 <= j < i ==> !profiles[j].isDefault
    {
      if profiles[i].isDefault {
        FirstDefaultAt(profiles, i);
        return Some(profiles[i]);
      }
    }
    FirstDefaultAt(profiles, |profiles|);
    return Some(profiles[0]);
  }

  predicate Matches(p: Profile, acct: string, player: string) {
    p.acct == acct && p.player == player
  }

  lemma ListedCandidates(profiles: ProfileRows, nextId: nat, b: uint64, acct: string, player: string)
    requires ProfIds(profiles, nextId)
    ensures var listed := Listed(RowsOfBinding(profiles, b));
            && (forall p <- listed :: Matches(p, acct, player) ==>
                  KeyOf(p) in Candidates(profiles, b, acct, player) && p == FromRow(KeyOf(p), profiles[KeyOf(p)]))
            && (Candidates(profiles, b, acct, player) != {} ==> exists p <- listed :: Matches(p, acct, player))
  {
    var rows := RowsOfBinding(profiles, b);
    ListedExactly(rows);
    if k :| k in Candidates(profiles, b, acct, player) {
      assert k in rows && Matches(FromRow(k, rows[k]), acct, player);
    }
  }

  /** The last profile of the binding with the account and the player. */
  method FindProfileByBindingAndPlayerID(s: Storage, b: uint64, acct: string, player: string)
    returns (r: Result<Profile, Failure>)
    requires s.Valid()
    modifies s`faults
    ensures s.faults >= old(s.faults)
    ensures s.faults > old(s.faults) ==> r == Err(StorageFault)
    ensures s.faults == old(s.faults) ==> (r.Ok? <==> Candidates(s.profiles, b, acct, player) != {})
    ensures r.Err? ==> r.error == StorageFault || r.error == ProfileNotFound
    ensures r.Ok? ==> KeyOf(r.value) in Candidates(s.profiles, b, acct, player)
                      && r.value == FromRow(KeyOf(r.value), s.profiles[KeyOf(r.value)])
    ensures r.Ok? ==> forall k <- Candidates(s.profiles, b, acct, player) :: s.profiles[k].id <= r.value.id
  {
    var listed := ListByBindingID(s, b);
    if listed.Err? {
      return Err(listed.error);
    }
    ListedCandidates(s.profiles, s.nextId, b, acct, player);
    var selected := LastMatch(listed.value, acct, player);
    if selected.Some? {
      ghost var i :| 0 <= i < |listed.value| && listed.value[i] == selected.value
                     && LastAt(listed.value, i, |listed.value|, acct, player);
      forall k | k in Candidates(s.profiles, b, acct, player) ensures s.profiles[k].id <= selected.value.id {
        LastMatchIsNewest(RowsOfBinding(s.profiles, b), i, acct, player, k);
      }
    }
    return if selected.Some? then Ok(selected.value) else Err(ProfileNotFound);
  }

  /** Profile `i` is the last match among the first `n`. */
  predicate LastAt(profiles: seq<Profile>, i: nat, n: nat, acct: string, player: string)
    requires i < n <= |profiles|
  {
    Matches(profiles[i], acct, player) && forall j :: i < j < n ==> !Matches(profiles[j], acct, player)
  }

  lemma PlaceOf(rows: ProfileRows, k: PKey) returns (j: nat)
    requires Distinct(Ids(rows)) && k in rows
    ensures j < |Listed(rows)| && Listed(rows)[j] == FromRow(k, rows[k])
  {
    ListedExactly(rows);
    var p := FromRow(k, rows[k]);
    j :| 0 <= j < |Listed(rows)| && Listed(rows)[j] == p;
  }

  lemma InOrder(rows: ProfileRows, j: nat, i: nat)
    requires Distinct(Ids(rows)) && j <= i < |Listed(rows)|
    ensures Listed(rows)[j].id <= Listed(rows)[i].id
  {
    ListedExactly(rows);
  }

  /** In a list in order of id, the last match is the newest matching row. */
  lemma LastMatchIsNewest(rows: ProfileRows, i: nat, acct: string, player: string, k: PKey)
    requires Distinct(Ids(rows)) && i < |Listed(rows)| && LastAt(Listed(rows), i, |Listed(rows)|, acct, player)
    requires k in rows && rows[k].acct == acct && k.player == player
    ensures rows[k].id <= Listed(rows)[i].id
  {
    var j := PlaceOf(rows, k);
    assert Matches(Listed(rows)[j], acct, player);
    InOrder(rows, j, i);
  }

  /** The selection loop: the last matching profile wins. */
  method LastMatch(profiles: seq<Profile>, acct: string, player: string) returns (selected: Option<Profile>)
    ensures selected.None? ==> forall p <- profiles :: !Matches(p, acct, player)
    ensures selected.Some? ==>
              exists i :: 0 <= i < |profiles| && profiles[i] == selected.value && LastAt(profiles, i, |profiles|, acct, player)
  {
    selected := None;
    for i := 0 to |profiles|
      invariant selected.None? ==> forall j :: 0 <= j < i ==> !Matches(profiles[j], acct, player)
      invariant selected.Some? ==>
                  exists l :: 0 <= l < i && profiles[l] == selected.value && LastAt(profiles, l, i, acct, player)
    {
      if profiles[i].acct != acct {
        continue;
      }
      if profiles[i].player == player {
        selected := Some(profiles[i]);
      }
    }
  }

  /** ConfirmPrimaryProfileWithScope: one step of a run. */
  method ConfirmPrimaryProfileWithScope(s: Storage, g: Guard, acct: string, player: string)
    returns (r: Result<Profile, Failure>, ghost e: Event)
    requires s.Valid()
    modifies s`faults, s`creds, s`devices, s`profiles, s`artifacts
    ensures s.Valid() && s.faults >= old(s.faults)
    ensures Next(s.prefix, old(Snap(s)), e, Snap(s))
    ensures r.Ok? ==> e.Confirmed? && e.acct == acct && e.k.binding == g.binding && e.k.player == player
                      && e.k in s.profiles && r.value == FromRow(e.k, s.profiles[e.k])
    ensures r.Err? ==> e == Idle
    ensures s.faults == old(s.faults) ==>
              (r.Ok? <==> && g.RequirePlatformAccountID(acct).None? && g.RequireBindingWide().None?
                          && |Candidates(old(s.profiles), g.binding, acct, player)| == 1)
    // column by column
    ensures r.Ok? ==> Names(acct, g.binding) && g.profileId == 0
    ensures r.Ok? ==> Shows(s.profiles, r.value) && r.value.isDefault
                      && r.value.binding == g.binding && r.value.acct == acct && r.value.player == player
    ensures r.Ok? ==> OnlyDefaultMoved(old(s.profiles), s.profiles, PKey(r.value.binding, r.value.player, r.value.region))
    ensures s.faults == old(s.faults) ==>
              (r.Ok? <==> Names(acct, g.binding) && g.profileId == 0 && OneRow(old(s.profiles), g.binding, acct, player))
  {
    ghost var w := Snap(s);
    e := Idle;
    var denied := g.RequirePlatformAccountID(acct);
    if denied.None? {
      denied := g.RequireBindingWide();
    }
    if denied.Some? {
      r := Err(denied.value);
    } else {
      r := FindProfileByBindingAndPlayerID(s, g.binding, acct, player);
      if r.Ok? {
        denied := g.RequireProfile(r.value.binding, r.value.id);
        if denied.None? {
          r, e := SetDefault(s, r.value, acct, player);
          OneCandidate(w.t.profiles, g.binding, acct, player);
          return;
        }
        // the guard's binding was checked before the lookup, so this cannot happen
        r := if denied == Some(BindingScopeDenied) then Err(BindingScopeDenied) else Err(ProfileScopeDenied);
      }
    }
    OneCandidate(w.t.profiles, g.binding, acct, player);
    IdleStep(s.prefix, w, Snap(s));
  }

  /** Exactly one row has the binding, the account and the player. */
  ghost predicate OneRow(rows: ProfileRows, b: uint64, acct: string, player: string) {
    exists region :: IsRowOf(rows, b, acct, player, region) && forall other :: IsRowOf(rows, b, acct, player, other) ==> other == region
  }

  predicate IsRowOf(rows: ProfileRows, b: uint64, acct: string, player: string, region: string) {
    PKey(b, player, region) in rows && rows[PKey(b, player, region)].acct == acct
  }

  /** `k` becomes its binding's only default, and no other column of any row changes. */
  predicate OnlyDefaultMoved(before: ProfileRows, after: ProfileRows, k: PKey) {
    && k in after && after.Keys == before.Keys
    && forall l <- after ::
         var row := before[l];
         after[l] == Prof(row.id, row.acct, row.gameBiz, row.nickname, row.level,
                          if l.binding == k.binding then l == k else row.isDefault, row.discoveredAt)
  }

  lemma OneCandidate(rows: ProfileRows, b: uint64, acct: string, player: string)
    ensures |Candidates(rows, b, acct, player)| == 1 <==> OneRow(rows, b, acct, player)
  {
    var marks := Candidates(rows, b, acct, player);
    if |marks| == 1 {
      var k :| k in marks;
      AtMostOne(marks);
      assert IsRowOf(rows, b, acct, player, k.region);
      forall other | IsRowOf(rows, b, acct, player, other) ensures other == k.region {
        assert PKey(b, player, other) in marks;
      }
    }
    if region :| IsRowOf(rows, b, acct, player, region) && forall other :: IsRowOf(rows, b, acct, player, other) ==> other == region {
      forall k | k in marks ensures k == PKey(b, player, region) {
        assert IsRowOf(rows, b, acct, player, k.region);
      }
      assert marks == {PKey(b, player, region)};
    }
  }

  lemma DefaultMoved(rows: ProfileRows, k: PKey)
    requires k in rows
    ensures OnlyDefaultMoved(rows, WithDefault(rows, k), k)
  {
  }

  /** Makes the selected profile the default of its binding. */
  method SetDefault(s: Storage, selected: Profile, acct: string, player: string) returns (r: Result<Profile, Failure>, ghost e: Event)
    requires s.Valid() && KeyOf(selected) in Candidates(s.profiles, selected.binding, acct, player)
    requires selected == FromRow(KeyOf(selected), s.profiles[KeyOf(selected)])
    modifies s`faults, s`creds, s`devices, s`profiles, s`artifacts
    ensures s.Valid() && s.faults >= old(s.faults)
    ensures Next(s.prefix, old(Snap(s)), e, Snap(s))
    ensures r.Ok? ==> e == Confirmed(KeyOf(selected), acct) && KeyOf(selected) in s.profiles
                      && r.value == FromRow(KeyOf(selected), s.profiles[KeyOf(selected)])
    ensures r.Ok? ==> Shows(s.profiles, r.value) && r.value == selected.(isDefault := true)
    ensures r.Ok? ==> OnlyDefaultMoved(old(s.profiles), s.profiles, PKey(selected.binding, selected.player, selected.region))
    ensures r.Err? ==> e == Idle
    ensures s.faults == old(s.faults) ==> (r.Ok? <==> |Candidates(old(s.profiles), selected.binding, acct, player)| == 1)
  {
    ghost var w := Snap(s);
    var failure := SetDefaultByBindingAndPlayerID(s, selected.binding, acct, player);
    if failure.Some? {
      IdleStep(s.prefix, w, Snap(s));
      return Err(failure.value), Idle;
    }
    ConfirmedStep(s.prefix, w, Snap(s), KeyOf(selected), acct);
    DefaultMoved(w.t.profiles, KeyOf(selected));
    r := Ok(selected.(isDefault := true));
    e := Confirmed(KeyOf(selected), acct);
  }

  // ---------- the confirmed profile is the primary one ----------

  lemma {:induction false} OfAccountMembers(ps: seq<Profile>, acct: string)
    ensures forall p :: p in OfAccount(ps, acct) <==> p in ps && p.acct == acct
  {
    if ps != [] {
      OfAccountMembers(ps[..|ps| - 1], acct);
      assert ps == ps[..|ps| - 1] + [ps[|ps| - 1]];
    }
  }

  lemma {:induction false} FirstDefaultIn(ps: seq<Profile>)
    ensures FirstDefault(ps).Some? ==> FirstDefault(ps).value in ps && FirstDefault(ps).value.isDefault
    ensures (exists p <- ps :: p.isDefault) ==> FirstDefault(ps).Some?
  {
    if ps != [] && !ps[0].isDefault {
      FirstDefaultIn(ps[1..]);
      assert ps == [ps[0]] + ps[1..];
    }
  }

  /** A binding-wide guard on the binding and account of `k`. */
  predicate BindingWide(g: Guard, acct: string, k: PKey) {
    g.binding == k.binding && g.profileId == 0 && g.RequirePlatformAccountID(acct).None?
  }

  /** A default row with the requested account is what GetPrimaryProfileWithScope answers. */
  lemma DefaultIsPrimary(t: Tables, nextId: nat, g: Guard, acct: string, k: PKey)
    requires DbOk(t, nextId) && BindingWide(g, acct, k)
    requires k in t.profiles && t.profiles[k].isDefault && t.profiles[k].acct == acct
    ensures var r := Scoped(RowsOfBinding(t.profiles, g.binding), g, acct);
            r.Ok? && PrimaryOf(r.value) == Some(FromRow(k, t.profiles[k]))
  {
    var rows := RowsOfBinding(t.profiles, g.binding);
    assert k in rows && Distinct(Ids(rows));
    assert forall l <- rows :: rows[l].isDefault ==> l == k;
    DefaultIsFirst(rows, acct, k);
  }

  lemma DefaultIsFirst(rows: ProfileRows, acct: string, k: PKey)
    requires Distinct(Ids(rows)) && k in rows && rows[k].acct == acct
    requires rows[k].isDefault && forall l <- rows :: rows[l].isDefault ==> l == k
    ensures PrimaryOf(OfAccount(Listed(rows), acct)) == Some(FromRow(k, rows[k]))
  {
    var listed := Listed(rows);
    ListedExactly(rows);
    OfAccountMembers(listed, acct);
    forall q | q in OfAccount(listed, acct) && q.isDefault ensures q == FromRow(k, rows[k]) {
      assert q in listed && rows[KeyOf(q)].isDefault;
    }
    OnlyDefaultIsPrimary(OfAccount(listed, acct), FromRow(k, rows[k]));
  }

  lemma OnlyDefaultIsPrimary(ps: seq<Profile>, p: Profile)
    requires p in ps && p.isDefault && forall q <- ps :: q.isDefault ==> q == p
    ensures PrimaryOf(ps) == Some(p)
  {
    FirstDefaultIn(ps);
  }

  /** The event changes the profile rows of the binding. */
  predicate TouchesProfiles(w: World, e: Event, b: uint64) {
    Replaces(w, e, b) || (e.Confirmed? && e.k.binding == b)
  }

  lemma ProfilesStayOneStep(prefix: string, w: World, e: Event, w': World, b: uint64)
    requires AcctAgree(w.t) && DbOk(w.t, w.nextId) && Next(prefix, w, e, w') && !TouchesProfiles(w, e, b)
    ensures RowsOfBinding(w'.t.profiles, b) == RowsOfBinding(w.t.profiles, b)
  {
    match e
    case Bound(input, prep, at) => BindingKeepsProfiles(w.t, w.nextId, input, prep, at, b);
    case Deleted(x) => DeletingKeepsProfiles(w.t.profiles, x, b);
    case DeletedByAccount(acct) => DeletingByAccountKeepsProfiles(w.t, acct, b);
    case Confirmed(k, _) => ConfirmKeepsRows(w.t.profiles, k, b);
    case _ =>
  }

  lemma DeletingKeepsProfiles(profiles: ProfileRows, x: uint64, b: uint64)
    requires b != x
    ensures RowsOfBinding(ProfsWithout(profiles, x), b) == RowsOfBinding(profiles, b)
  {
  }

  lemma BindingKeepsProfiles(t: Tables, nextId: nat, input: BindInput, prep: Preparation, at: int, b: uint64)
    requires AcctAgree(t) && DbOk(t, nextId) && PreparedFor(input, prep) && b != input.binding
    requires BindOutcome(t, nextId, input, prep, at).Ok?
    ensures RowsOfBinding(BindOutcome(t, nextId, input, prep, at).value.0.profiles, b) == RowsOfBinding(t.profiles, b)
  {
    BindLaws.BindKeepsInvariants(t, nextId, input, prep, at);
    var t' := BindOutcome(t, nextId, input, prep, at).value.0;
    assert Others(t', input.binding).profiles == Others(t, input.binding).profiles;
    DeletingKeepsProfiles(t.profiles, input.binding, b);
    DeletingKeepsProfiles(t'.profiles, input.binding, b);
  }

  lemma ConfirmKeepsRows(profiles: ProfileRows, k: PKey, b: uint64)
    requires b != k.binding
    ensures RowsOfBinding(WithDefault(profiles, k), b) == RowsOfBinding(profiles, b)
  {
  }

  lemma DeletingByAccountKeepsProfiles(t: Tables, acct: string, b: uint64)
    requires AcctAgree(t) && !Owns(t.creds, b, acct)
    ensures RowsOfBinding(ManagementRepo.WithoutGraph(t, acct).profiles, b) == RowsOfBinding(t.profiles, b)
  {
  }

  /** Step `i` leaves the profile rows of the binding as they are. */
  predicate SameRowsAt(ws: seq<World>, i: nat, b: uint64)
    requires i + 1 < |ws|
  {
    RowsOfBinding(ws[i + 1].t.profiles, b) == RowsOfBinding(ws[i].t.profiles, b)
  }

  lemma ProfilesStayAt(prefix: string, ws: seq<World>, es: seq<Event>, i: nat, b: uint64)
    requires Run(prefix, ws, es) && Inv(prefix, ws[0]) && i < |es| && !TouchesProfiles(ws[i], es[i], b)
    ensures SameRowsAt(ws, i, b)
  {
    RunKeepsInv(prefix, ws, es, i);
    assert NextAt(prefix, ws, es, i);
    ProfilesStayOneStep(prefix, ws[i], es[i], ws[i + 1], b);
  }

  lemma {:induction false} SameRowsSince(ws: seq<World>, m: nat, n: nat, b: uint64)
    requires m <= n < |ws| && forall i :: m <= i < n ==> SameRowsAt(ws, i, b)
    ensures RowsOfBinding(ws[n].t.profiles, b) == RowsOfBinding(ws[m].t.profiles, b)
    decreases n
  {
    if m < n {
      SameRowsSince(ws, m, n - 1, b);
      assert SameRowsAt(ws, n - 1, b);
    }
  }

  lemma ProfilesStay(prefix: string, ws: seq<World>, es: seq<Event>, m: nat, n: nat, b: uint64)
    requires Run(prefix, ws, es) && Inv(prefix, ws[0]) && m <= n < |ws|
    requires forall i :: m <= i < n ==> !TouchesProfiles(ws[i], es[i], b)
    ensures RowsOfBinding(ws[n].t.profiles, b) == RowsOfBinding(ws[m].t.profiles, b)
  {
    forall i | m <= i < n ensures SameRowsAt(ws, i, b) {
      ProfilesStayAt(prefix, ws, es, i, b);
    }
    SameRowsSince(ws, m, n, b);
  }

  /**
  After a confirm at step m, a binding-wide read of the primary profile answers the confirmed
  profile, until the next confirm, bind, update or delete of the binding.
  */
  lemma ConfirmedStaysPrimary(prefix: string, ws: seq<World>, es: seq<Event>, m: nat, n: nat, g: Guard)
    requires Run(prefix, ws, es) && Inv(prefix, ws[0]) && m < n < |ws|
    requires es[m].Confirmed? && BindingWide(g, es[m].acct, es[m].k)
    requires forall i :: m < i < n ==> !TouchesProfiles(ws[i], es[i], g.binding)
    ensures DbOk(ws[n].t, ws[n].nextId) && es[m].k in ws[n].t.profiles
    ensures var r := Scoped(RowsOfBinding(ws[n].t.profiles, g.binding), g, es[m].acct);
            r.Ok? && PrimaryOf(r.value) == Some(FromRow(es[m].k, ws[n].t.profiles[es[m].k]))
  {
    RunKeepsInv(prefix, ws, es, n);
    assert NextAt(prefix, ws, es, m);
    ProfilesStay(prefix, ws, es, m + 1, n, g.binding);
    var k := es[m].k;
    assert k in ProfileRepo.Candidates(ws[m].t.profiles, k.binding, es[m].acct, k.player);
    assert k in RowsOfBinding(ws[m + 1].t.profiles, g.binding);
    assert k in RowsOfBinding(ws[n].t.profiles, g.binding);
    assert ws[n].t.profiles[k] == ws[m + 1].t.profiles[k];
    DefaultIsPrimary(ws[n].t, ws[n].nextId, g, es[m].acct, k);
  }
}
