/** internal/data/artifact_repo.go: artifact rows with two families of cache keys. */
module ArtifactRepo {
  import opened Basics
  import opened Db
  import opened Backend
  import opened CacheKeys
  import opened ArtifactSpec
  import H = ArtifactHistory

  /** What the histories of ArtifactHistory speak of. */
  function Contents(s: Storage): H.State
    reads s`artifacts, s`cache
  {
    H.State(s.artifacts, s.cache)
  }

  /** A DEL of some keys. */
  method Forget(s: Storage, keys: set<string>) returns (failed: bool)
    modifies s`faults, s`cache
    ensures s.faults == old(s.faults) + (if failed then 1 else 0)
    ensures s.cache == if failed then old(s.cache) else old(s.cache) - keys
  {
    failed := s.Call();
    if !failed {
      s.cache := s.cache - keys;
    }
  }

  /** Refreshes one key from `a`: a SET with the remaining TTL, or a DEL when there is none. */
  method Refresh(s: Storage, key: string, a: Artifact) returns (failed: bool)
    modifies s`faults, s`now, s`cache
    ensures s.now >= old(s.now)
    ensures s.faults == old(s.faults) + (if failed then 1 else 0)
    ensures s.cache == if failed then old(s.cache) else FillCache(old(s.cache), key, a, s.now)
  {
    var later := s.Clock();
    failed := s.Call();
    if !failed {
      s.cache := FillCache(s.cache, key, a, later);
    }
  }

  method Put(s: Storage, a: Artifact) returns (r: Option<Failure>)
    requires s.Valid()
    modifies s`faults, s`now, s`artifacts, s`cache
    ensures s.Valid() && s.faults >= old(s.faults) && s.now >= old(s.now)
    ensures r.None? ==> s.artifacts == old(s.artifacts)[KeyOf(a) := RowOf(a)]
    ensures r.Some? ==> r == Some(StorageFault) && s.faults > old(s.faults)
    ensures s.artifacts == old(s.artifacts)[KeyOf(a) := RowOf(a)] || (s.artifacts == old(s.artifacts) && s.cache == old(s.cache))
    ensures CacheWithin(s.prefix, s.artifacts, old(s.cache), s.cache)
    ensures s.faults == old(s.faults) && s.withRedis ==>
              s.cache == PutCache(s.prefix, old(s.artifacts), old(s.cache), a, s.now)
    ensures !s.withRedis ==> s.cache == old(s.cache)
    ensures s.faults == old(s.faults) ==>
              H.Performs(s.withRedis, s.prefix, old(Contents(s)), H.Put(a, old(s.now), s.now), Contents(s))
    // column by column: the row is as given, and so is what Redis serves
    ensures r.None? ==> IsRow(s.artifacts, a)
    ensures s.faults == old(s.faults) && s.withRedis ==>
              var key := KeyByBinding(s.prefix, a.binding, a.kind, a.scope);
              var own := KeyByAccount(s.prefix, a.acct, a.kind, a.scope);
              var previous := KeyByAccount(s.prefix, PreviousAccount(old(s.artifacts), a), a.kind, a.scope);
              && ServedUntilExpiry(s.cache, key, a, s.now)
              && (own != key ==> own !in s.cache)
              && (previous != key && PreviousAccount(old(s.artifacts), a) != "" ==> previous !in s.cache)
              && SameBut(old(s.cache), s.cache, {key, own, previous})
  {
    ghost var rows, cache := s.artifacts, s.cache;
    var previous := "";
    if s.withRedis {
      var failed := s.Call();
      if !failed && KeyOf(a) in s.artifacts {
        previous := s.artifacts[KeyOf(a)].acct;
      }
    }
    var failed := s.Call();
    if failed {
      return Some(StorageFault);
    }
    s.artifacts := s.artifacts[KeyOf(a) := RowOf(a)];
    if s.withRedis {
      failed := PutInCache(s, a, previous);
      PutMeans(s.prefix, rows, cache, a, s.now);
      return if failed then Some(StorageFault) else None;
    }
    return None;
  }

  method PutInCache(s: Storage, a: Artifact, previous: string) returns (failed: bool)
    requires KeyOf(a) in s.artifacts && s.artifacts[KeyOf(a)] == RowOf(a)
    modifies s`faults, s`now, s`cache
    ensures s.faults >= old(s.faults) && s.now >= old(s.now)
    ensures failed <==> s.faults > old(s.faults)
    ensures CacheWithin(s.prefix, s.artifacts, old(s.cache), s.cache)
    ensures !failed ==> s.cache == PutCacheOver(s.prefix, previous, old(s.cache), a, s.now)
  {
    if previous != "" && previous != a.acct {
      failed := Forget(s, {KeyByAccount(s.prefix, previous, a.kind, a.scope)});
      if failed {
        return;
      }
    }
    failed := Forget(s, {KeyByAccount(s.prefix, a.acct, a.kind, a.scope)});
    if failed {
      return;
    }
    failed := Refresh(s, KeyByBinding(s.prefix, a.binding, a.kind, a.scope), a);
  }

  /** The shared read path; `stored` is what the database would answer at this moment. */
  method ReadThrough(s: Storage, key: string, now: int, stored: Option<Artifact>) returns (r: Result<Option<Artifact>, Failure>)
    requires stored.Some? ==> EntrySound(s.prefix, s.artifacts, key, Entry(stored.value, stored.value.expiresAt))
    requires s.Valid()
    modifies s`faults, s`now, s`cache
    ensures s.Valid() && s.faults >= old(s.faults) && s.now >= old(s.now)
    ensures r.Err? ==> r == Err(StorageFault) && s.cache == old(s.cache) && s.faults > old(s.faults)
    ensures r.Ok? ==> r.value == stored || r.value == Through(old(s.cache), key, stored, now)
    ensures s.faults == old(s.faults) ==> r == Ok(Through(old(s.cache), key, stored, now))
    ensures s.faults == old(s.faults) && s.withRedis ==>
              s.cache == CacheAfterRead(old(s.cache), key, stored, now, s.now)
    ensures CacheWithin(s.prefix, s.artifacts, old(s.cache), s.cache)
    ensures !s.withRedis || r == Ok(None) ==> s.cache == old(s.cache)
  {
    if s.withRedis {
      var failed := s.Call();
      if !failed && Hit(s.cache, key, now).Some? {
        return Ok(Hit(s.cache, key, now));
      }
    }
    var failed := s.Call();
    if failed {
      return Err(StorageFault);
    }
    if stored.Some? && s.withRedis {
      failed := Refresh(s, key, stored.value);
    }
    return Ok(stored);
  }

  method GetByBindingID(s: Storage, b: uint64, kind: string, scope: string)
    returns (r: Result<Option<Artifact>, Failure>, now: int)
    requires s.Valid()
    modifies s`faults, s`now, s`cache
    ensures s.Valid() && s.faults >= old(s.faults) && s.now >= now >= old(s.now)
    ensures r.Err? ==> r == Err(StorageFault) && s.cache == old(s.cache) && s.faults > old(s.faults)
    ensures r.Ok? ==>
              var stored := ReadRow(s.artifacts, AKey(b, kind, scope), now);
              r.value == stored || r.value == Through(old(s.cache), KeyByBinding(s.prefix, b, kind, scope), stored, now)
    ensures s.faults == old(s.faults) ==>
              var stored := ReadRow(s.artifacts, AKey(b, kind, scope), now);
              var key := KeyByBinding(s.prefix, b, kind, scope);
              && r == Ok(Through(old(s.cache), key, stored, now))
              && (s.withRedis ==> s.cache == CacheAfterRead(old(s.cache), key, stored, now, s.now))
    ensures CacheWithin(s.prefix, s.artifacts, old(s.cache), s.cache)
    ensures !s.withRedis || r == Ok(None) ==> s.cache == old(s.cache)
    ensures s.faults == old(s.faults) ==>
              var e := H.ReadByBinding(b, kind, scope, now, s.now);
              && r == Ok(H.AnswerOf(s.withRedis, s.prefix, old(Contents(s)), e))
              && H.Performs(s.withRedis, s.prefix, old(Contents(s)), e, Contents(s))
    // what the answer means: the row itself where Redis has nothing, and from a sound cache always a live row
    ensures KeyByBinding(s.prefix, b, kind, scope) !in old(s.cache) && r.Ok? ==>
              match r.value
              case Some(a) => IsRow(s.artifacts, a) && a.binding == b && a.kind == kind && a.scope == scope && now < a.expiresAt
              case None => !HasLiveRow(s.artifacts, b, kind, scope, now)
    ensures CacheSound(s.prefix, s.artifacts, old(s.cache), old(s.now)) && r.Ok? ==>
              match r.value
              case Some(a) => IsRow(s.artifacts, a) && now < a.expiresAt
              case None => !HasLiveRow(s.artifacts, b, kind, scope, now)
    ensures CacheSound(s.prefix, s.artifacts, old(s.cache), old(s.now)) && s.faults == old(s.faults) && s.withRedis && r.value.Some? ==>
              s.now < r.value.value.expiresAt ==> ServedUntilExpiry(s.cache, KeyByBinding(s.prefix, b, kind, scope), r.value.value, s.now)
  {
    now := s.Clock();
    ghost var cache, stored := s.cache, ReadRow(s.artifacts, AKey(b, kind, scope), now);
    r := ReadThrough(s, KeyByBinding(s.prefix, b, kind, scope), now, ReadRow(s.artifacts, AKey(b, kind, scope), now));
    ReadByBindingMeans(s.artifacts, b, kind, scope, now);
    if CacheSound(s.prefix, s.artifacts, cache, old(s.now)) {
      HitMeans(s.prefix, s.artifacts, cache, old(s.now), KeyByBinding(s.prefix, b, kind, scope), now);
      CopyMeans(s.prefix, s.artifacts, cache, old(s.now), KeyByBinding(s.prefix, b, kind, scope), stored, now, s.now);
    }
  }

  method Get(s: Storage, acct: string, kind: string, scope: string)
    returns (r: Result<Option<Artifact>, Failure>, now: int, pick: Option<AKey>)
    requires s.Valid()
    modifies s`faults, s`now, s`cache
    ensures s.Valid() && s.faults >= old(s.faults) && s.now >= now >= old(s.now)
    ensures PickOk(s.artifacts, acct, kind, scope, now, pick)
    ensures r.Err? ==> r == Err(StorageFault) && s.cache == old(s.cache) && s.faults > old(s.faults)
    ensures r.Ok? ==>
              var stored := ReadPicked(s.artifacts, pick, now);
              r.value == stored || r.value == Through(old(s.cache), KeyByAccount(s.prefix, acct, kind, scope), stored, now)
    ensures s.faults == old(s.faults) ==>
              var stored := ReadPicked(s.artifacts, pick, now);
              var key := KeyByAccount(s.prefix, acct, kind, scope);
              && r == Ok(Through(old(s.cache), key, stored, now))
              && (s.withRedis ==> s.cache == CacheAfterRead(old(s.cache), key, stored, now, s.now))
    ensures CacheWithin(s.prefix, s.artifacts, old(s.cache), s.cache)
    ensures !s.withRedis ==> s.cache == old(s.cache)
    ensures s.faults == old(s.faults) ==>
              var e := H.ReadByAccount(acct, kind, scope, now, s.now, pick);
              && r == Ok(H.AnswerOf(s.withRedis, s.prefix, old(Contents(s)), e))
              && H.Performs(s.withRedis, s.prefix, old(Contents(s)), e, Contents(s))
    // what the answer means, as for GetByBindingID
    ensures KeyByAccount(s.prefix, acct, kind, scope) !in old(s.cache) && r.Ok? ==>
              match r.value
              case Some(a) => IsRow(s.artifacts, a) && a.acct == acct && a.kind == kind && a.scope == scope && now < a.expiresAt
              case None => !HasLiveRowOf(s.artifacts, acct, kind, scope, now)
    ensures CacheSound(s.prefix, s.artifacts, old(s.cache), old(s.now)) && r.Ok? ==>
              match r.value
              case Some(a) => IsRow(s.artifacts, a) && now < a.expiresAt
              case None => !HasLiveRowOf(s.artifacts, acct, kind, scope, now)
  {
    ghost var cache := s.cache;
    now := s.Clock();
    pick := None;
    if Matching(s.artifacts, acct, kind, scope, now) != {} {
      var k :| k in Matching(s.artifacts, acct, kind, scope, now);
      pick := Some(k);
    }
    r := ReadThrough(s, KeyByAccount(s.prefix, acct, kind, scope), now, ReadPicked(s.artifacts, pick, now));
    if r.Ok? {
      AccountAnswerMeans(s.prefix, s.artifacts, cache, old(s.now), KeyByAccount(s.prefix, acct, kind, scope), acct, kind, scope, now,
                         pick, r.value);
    }
  }

  /** Appends both cache keys of every selected row, one row after the other. */
  method CacheKeysForRecords(s: Storage, selected: set<AKey>) returns (keys: seq<string>)
    requires selected <= s.artifacts.Keys
    ensures (set key | key in keys) == CacheKeysOf(s.prefix, s.artifacts, selected)
  {
    keys := [];
    var todo := selected;
    while todo != {}
      invariant todo <= selected
      invariant (set key | key in keys) == CacheKeysOf(s.prefix, s.artifacts, selected - todo)
      decreases todo
    {
      var k :| k in todo;
      var byAccount := KeyByAccount(s.prefix, s.artifacts[k].acct, k.kind, k.scope);
      var byBinding := KeyByBinding(s.prefix, k.binding, k.kind, k.scope);
      OneMore(s.prefix, s.artifacts, selected - todo, k);
      assert selected - (todo - {k}) == (selected - todo) + {k};
      assert (set key | key in keys + [byAccount, byBinding]) == (set key | key in keys) + {byAccount, byBinding};
      keys := keys + [byAccount, byBinding];
      todo := todo - {k};
    }
    assert selected - todo == selected;
  }

  lemma OneMore(prefix: string, rows: map<AKey, Art>, done: set<AKey>, k: AKey)
    requires done <= rows.Keys && k in rows
    ensures CacheKeysOf(prefix, rows, done + {k}) ==
            CacheKeysOf(prefix, rows, done) +
            {KeyByAccount(prefix, rows[k].acct, k.kind, k.scope), KeyByBinding(prefix, k.binding, k.kind, k.scope)}
  {
  }

  /** deleteByBindingID, on whatever connection it is given. */
  method DeleteBindingRows(s: Storage, b: uint64) returns (r: Option<Failure>)
    requires s.Valid()
    modifies s`faults, s`artifacts, s`cache
    ensures s.Valid() && s.faults >= old(s.faults)
    ensures r == if s.faults == old(s.faults) then None else Some(StorageFault)
    ensures r.Some? ==> s.cache == old(s.cache)
    ensures r.Some? ==> s.artifacts == old(s.artifacts) || s.artifacts == ArtsWithout(old(s.artifacts), b)
    ensures r.None? ==> s.artifacts == ArtsWithout(old(s.artifacts), b)
    ensures r.None? ==> s.cache == old(s.cache) - KeysOfBinding(s.prefix, old(s.artifacts), b)
  {
    r := DeleteSelected(s, SelectByBinding(s.artifacts, b));
    assert old(s.artifacts) - SelectByBinding(old(s.artifacts), b) == ArtsWithout(old(s.artifacts), b);
  }

  /** deleteByPlatformAccountID, on whatever connection it is given. */
  method DeleteAccountRows(s: Storage, acct: string) returns (r: Option<Failure>)
    requires s.Valid()
    modifies s`faults, s`artifacts, s`cache
    ensures s.Valid() && s.faults >= old(s.faults)
    ensures r == if s.faults == old(s.faults) then None else Some(StorageFault)
    ensures r.Some? ==> s.cache == old(s.cache)
    ensures r.Some? ==> s.artifacts == old(s.artifacts) || s.artifacts == ArtsWithoutAcct(old(s.artifacts), acct)
    ensures r.None? ==> s.artifacts == ArtsWithoutAcct(old(s.artifacts), acct)
    ensures r.None? ==> s.cache == old(s.cache) - KeysOfAccount(s.prefix, old(s.artifacts), acct)
  {
    r := DeleteSelected(s, SelectByAccount(s.artifacts, acct));
    assert old(s.artifacts) - SelectByAccount(old(s.artifacts), acct) == ArtsWithoutAcct(old(s.artifacts), acct);
  }

  method DeleteByBindingID(s: Storage, b: uint64) returns (r: Option<Failure>)
    requires s.Valid()
    modifies s`faults, s`artifacts, s`cache
    ensures s.Valid() && s.faults >= old(s.faults)
    ensures r.None? <==> s.faults == old(s.faults)
    ensures r.Some? ==> r == Some(StorageFault) && s.cache == old(s.cache)
    ensures r.Some? ==> s.artifacts == old(s.artifacts) || s.artifacts == ArtsWithout(old(s.artifacts), b)
    ensures r.None? ==> s.artifacts == ArtsWithout(old(s.artifacts), b)
    ensures r.None? ==> s.cache == old(s.cache) - KeysOfBinding(s.prefix, old(s.artifacts), b)
    ensures s.faults == old(s.faults) ==>
              H.Performs(s.withRedis, s.prefix, old(Contents(s)), H.Transaction([H.OfBinding(b)], true, s.now, s.now), Contents(s))
  {
    H.OneDelete(s.prefix, Contents(s), H.OfBinding(b));
    r := DeleteBindingRows(s, b);
  }

  method DeleteByPlatformAccountID(s: Storage, acct: string) returns (r: Option<Failure>)
    requires s.Valid()
    modifies s`faults, s`artifacts, s`cache
    ensures s.Valid() && s.faults >= old(s.faults)
    ensures r.None? <==> s.faults == old(s.faults)
    ensures r.Some? ==> r == Some(StorageFault) && s.cache == old(s.cache)
    ensures r.Some? ==> s.artifacts == old(s.artifacts) || s.artifacts == ArtsWithoutAcct(old(s.artifacts), acct)
    ensures r.None? ==> s.artifacts == ArtsWithoutAcct(old(s.artifacts), acct)
    ensures r.None? ==> s.cache == old(s.cache) - KeysOfAccount(s.prefix, old(s.artifacts), acct)
    ensures s.faults == old(s.faults) ==>
              H.Performs(s.withRedis, s.prefix, old(Contents(s)), H.Transaction([H.OfAccount(acct)], true, s.now, s.now), Contents(s))
  {
    H.OneDelete(s.prefix, Contents(s), H.OfAccount(acct));
    r := DeleteAccountRows(s, acct);
  }

  /** Reads the doomed rows for their cache keys, deletes the rows, then the keys. */
  method DeleteSelected(s: Storage, selected: set<AKey>) returns (r: Option<Failure>)
    requires s.Valid() && selected <= s.artifacts.Keys
    modifies s`faults, s`artifacts, s`cache
    ensures s.Valid() && s.faults >= old(s.faults)
    ensures r.None? <==> s.faults == old(s.faults)
    ensures r.Some? ==> r == Some(StorageFault) && s.cache == old(s.cache)
    ensures r.Some? ==> s.artifacts == old(s.artifacts) || s.artifacts == old(s.artifacts) - selected
    ensures r.None? ==> s.artifacts == old(s.artifacts) - selected
    ensures r.None? ==> s.cache == old(s.cache) - CacheKeysOf(s.prefix, old(s.artifacts), selected)
  {
    var keys := [];
    if s.withRedis {
      var failed := s.Call();
      if failed {
        return Some(StorageFault);
      }
      keys := CacheKeysForRecords(s, selected);
    }
    var failed := s.Call();
    if failed {
      return Some(StorageFault);
    }
    s.artifacts := s.artifacts - selected;
    if s.withRedis && keys != [] {
      failed := Forget(s, set key | key in keys);
      return if failed then Some(StorageFault) else None;
    }
    return None;
  }
}
