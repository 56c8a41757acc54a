/** What the calls of internal/data/artifact_repo.go do to the artifact rows and to the cache. */
module ArtifactSpec {
  import opened Basics
  import opened Db
  import opened Backend
  import opened CacheKeys

  function KeyOf(a: Artifact): AKey {
    AKey(a.binding, a.kind, a.scope)
  }

  function RowOf(a: Artifact): Art {
    Art(a.acct, a.value, a.expiresAt)
  }

  function FromRow(k: AKey, row: Art): Artifact {
    Artifact(k.binding, row.acct, k.kind, row.value, k.scope, row.expiresAt)
  }

  // ---------- what a cache entry may say ----------

  /** The entry is a copy of a current row, under one of that row's two keys, and dies with it. */
  predicate EntrySound(prefix: string, rows: map<AKey, Art>, key: string, e: Entry) {
    var a := e.payload;
    && KeyOf(a) in rows && rows[KeyOf(a)] == RowOf(a) && e.until == a.expiresAt
    && (key == KeyByBinding(prefix, a.binding, a.kind, a.scope) || key == KeyByAccount(prefix, a.acct, a.kind, a.scope))
  }

  /** Every entry that Redis still serves at time `now` is a copy of a current row. */
  predicate CacheSound(prefix: string, rows: map<AKey, Art>, cache: Cache, now: int) {
    forall key <- cache :: cache[key].until > now ==> EntrySound(prefix, rows, key, cache[key])
  }

  /** Nothing entered the cache but copies of current rows. */
  predicate CacheWithin(prefix: string, rows: map<AKey, Art>, before: Cache, after: Cache) {
    forall key <- after :: (key in before && after[key] == before[key]) || EntrySound(prefix, rows, key, after[key])
  }

  /** The cache lost entries, and only under `keys`. */
  predicate LostOnly(before: Cache, after: Cache, keys: set<string>) {
    && (forall key <- after :: key in before && after[key] == before[key])
    && (forall key <- before :: key in after || key in keys)
  }

  // ---------- effects ----------

  /** The cache after Put, given the rows before it. */
  function PutCache(prefix: string, rows: map<AKey, Art>, cache: Cache, a: Artifact, later: int): Cache {
    PutCacheOver(prefix, if KeyOf(a) in rows then rows[KeyOf(a)].acct else "", cache, a, later)
  }

  function PutCacheOver(prefix: string, previous: string, cache: Cache, a: Artifact, later: int): Cache {
    var stale := if previous == "" then {} else {KeyByAccount(prefix, previous, a.kind, a.scope)};
    var dropped := cache - stale - {KeyByAccount(prefix, a.acct, a.kind, a.scope)};
    FillCache(dropped, KeyByBinding(prefix, a.binding, a.kind, a.scope), a, later)
  }

  /** The cache after a read that found `a` in the database and copied it under `key`. */
  function FillCache(cache: Cache, key: string, a: Artifact, later: int): Cache {
    if a.expiresAt <= later then cache - {key} else cache[key := Entry(a, a.expiresAt)]
  }

  /** What Redis serves under `key` at time `now`. */
  function Hit(cache: Cache, key: string, now: int): Option<Artifact> {
    if key in cache && cache[key].until > now then Some(cache[key].payload) else None
  }

  /** The row of the database's answer, if it has not expired. */
  function ReadRow(rows: map<AKey, Art>, k: AKey, now: int): Option<Artifact> {
    if k in rows && rows[k].expiresAt > now then Some(FromRow(k, rows[k])) else None
  }

  /** The unexpired rows that a by-account query matches; LIMIT 1 returns any one of them. */
  function Matching(rows: map<AKey, Art>, acct: string, kind: string, scope: string, now: int): set<AKey> {
    set k | k in rows && rows[k].acct == acct && k.kind == kind && k.scope == scope && rows[k].expiresAt > now
  }

  /** What the database answers when it picks the row `pick` (None: no row matched). */
  function ReadPicked(rows: map<AKey, Art>, pick: Option<AKey>, now: int): Option<Artifact> {
    if pick.None? then None else ReadRow(rows, pick.value, now)
  }

  predicate PickOk(rows: map<AKey, Art>, acct: string, kind: string, scope: string, now: int, pick: Option<AKey>) {
    if pick.None? then Matching(rows, acct, kind, scope, now) == {} else pick.value in Matching(rows, acct, kind, scope, now)
  }

  /** A read-through cache: Redis first, then the database's answer, copied back under the key. */
  function Through(cache: Cache, key: string, stored: Option<Artifact>, now: int): Option<Artifact> {
    if Hit(cache, key, now).Some? then Hit(cache, key, now) else stored
  }

  function CacheAfterRead(cache: Cache, key: string, stored: Option<Artifact>, now: int, later: int): Cache {
    if Hit(cache, key, now).Some? || stored.None? then cache else FillCache(cache, key, stored.value, later)
  }

  // ---------- what reads and writes mean, column by column ----------

  /** The artifact is a stored row. */
  predicate IsRow(rows: map<AKey, Art>, a: Artifact) {
    var k := AKey(a.binding, a.kind, a.scope);
    k in rows && rows[k] == Art(a.acct, a.value, a.expiresAt)
  }

  /** Some row with this key is good at time `now`. */
  predicate HasLiveRow(rows: map<AKey, Art>, b: uint64, kind: string, scope: string, now: int) {
    AKey(b, kind, scope) in rows && now < rows[AKey(b, kind, scope)].expiresAt
  }

  /** Some row of the account is good at time `now`. */
  ghost predicate HasLiveRowOf(rows: map<AKey, Art>, acct: string, kind: string, scope: string, now: int) {
    exists b :: HasLiveRow(rows, b, kind, scope, now) && rows[AKey(b, kind, scope)].acct == acct
  }

  /** The key serves the artifact until it expires, and nothing afterwards. */
  predicate ServedUntilExpiry(cache: Cache, key: string, a: Artifact, now: int) {
    if now < a.expiresAt then key in cache && cache[key] == Entry(a, a.expiresAt) else key !in cache
  }

  /** The caches differ under these keys only. */
  ghost predicate SameBut(before: Cache, after: Cache, keys: set<string>) {
    forall key :: key !in keys ==> (key in before <==> key in after) && (key in before ==> after[key] == before[key])
  }

  lemma ReadByBindingMeans(rows: map<AKey, Art>, b: uint64, kind: string, scope: string, now: int)
    ensures match ReadRow(rows, AKey(b, kind, scope), now)
            case Some(a) => IsRow(rows, a) && a.binding == b && a.kind == kind && a.scope == scope && now < a.expiresAt
            case None => !HasLiveRow(rows, b, kind, scope, now)
  {
  }

  lemma ReadByAccountMeans(rows: map<AKey, Art>, acct: string, kind: string, scope: string, now: int, pick: Option<AKey>)
    requires PickOk(rows, acct, kind, scope, now, pick)
    ensures match ReadPicked(rows, pick, now)
            case Some(a) => IsRow(rows, a) && a.acct == acct && a.kind == kind && a.scope == scope && now < a.expiresAt
            case None => !HasLiveRowOf(rows, acct, kind, scope, now)
  {
    if b :| HasLiveRow(rows, b, kind, scope, now) && rows[AKey(b, kind, scope)].acct == acct {
      assert AKey(b, kind, scope) in Matching(rows, acct, kind, scope, now);
    }
  }

  /** What Redis serves from a sound cache is a row that has not expired. */
  lemma HitMeans(prefix: string, rows: map<AKey, Art>, cache: Cache, earlier: int, key: string, now: int)
    requires CacheSound(prefix, rows, cache, earlier) && earlier <= now
    ensures match Hit(cache, key, now)
            case Some(a) => IsRow(rows, a) && now < a.expiresAt && cache[key] == Entry(a, a.expiresAt)
            case None => key in cache ==> cache[key].until <= now
  {
  }

  /**
  So a read by account that found nothing under its key, or any from a sound cache, answers a
  live row, and nothing only when the account has no live row.
  */
  lemma AccountAnswerMeans(prefix: string, rows: map<AKey, Art>, cache: Cache, earlier: int, key: string,
                           acct: string, kind: string, scope: string, now: int, pick: Option<AKey>, answer: Option<Artifact>)
    requires PickOk(rows, acct, kind, scope, now, pick) && earlier <= now
    requires answer == ReadPicked(rows, pick, now) || answer == Through(cache, key, ReadPicked(rows, pick, now), now)
    ensures key !in cache ==>
              match answer
              case Some(a) => IsRow(rows, a) && a.acct == acct && a.kind == kind && a.scope == scope && now < a.expiresAt
              case None => !HasLiveRowOf(rows, acct, kind, scope, now)
    ensures CacheSound(prefix, rows, cache, earlier) ==>
              match answer
              case Some(a) => IsRow(rows, a) && now < a.expiresAt
              case None => !HasLiveRowOf(rows, acct, kind, scope, now)
  {
    ReadByAccountMeans(rows, acct, kind, scope, now, pick);
    if CacheSound(prefix, rows, cache, earlier) {
      HitMeans(prefix, rows, cache, earlier, key, now);
    }
  }

  /** After a read of a live row from a sound cache, the key serves the row. */
  lemma CopyMeans(prefix: string, rows: map<AKey, Art>, cache: Cache, earlier: int, key: string,
                  stored: Option<Artifact>, now: int, later: int)
    requires CacheSound(prefix, rows, cache, earlier) && earlier <= now <= later
    ensures match Through(cache, key, stored, now)
            case Some(a) => later < a.expiresAt ==> ServedUntilExpiry(CacheAfterRead(cache, key, stored, now, later), key, a, later)
            case None => CacheAfterRead(cache, key, stored, now, later) == cache
  {
    HitMeans(prefix, rows, cache, earlier, key, now);
  }

  /** The account that the row to be overwritten carries, if there is one. */
  function PreviousAccount(rows: map<AKey, Art>, a: Artifact): string {
    if AKey(a.binding, a.kind, a.scope) in rows then rows[AKey(a.binding, a.kind, a.scope)].acct else a.acct
  }

  lemma PutMeans(prefix: string, rows: map<AKey, Art>, cache: Cache, a: Artifact, later: int)
    ensures var after := PutCache(prefix, rows, cache, a, later);
            var key := KeyByBinding(prefix, a.binding, a.kind, a.scope);
            var own := KeyByAccount(prefix, a.acct, a.kind, a.scope);
            var previous := KeyByAccount(prefix, PreviousAccount(rows, a), a.kind, a.scope);
            && ServedUntilExpiry(after, key, a, later)
            && (own != key ==> own !in after) && (previous != key && PreviousAccount(rows, a) != "" ==> previous !in after)
            && SameBut(cache, after, {key, own, previous})
  {
  }

  function SelectByBinding(rows: map<AKey, Art>, b: uint64): set<AKey> {
    set k | k in rows && k.binding == b
  }

  function SelectByAccount(rows: map<AKey, Art>, acct: string): set<AKey> {
    set k | k in rows && rows[k].acct == acct
  }

  /** Both cache keys of every selected row. */
  function CacheKeysOf(prefix: string, rows: map<AKey, Art>, selected: set<AKey>): set<string>
    requires selected <= rows.Keys
  {
    (set k | k in selected :: KeyByAccount(prefix, rows[k].acct, k.kind, k.scope)) +
    (set k | k in selected :: KeyByBinding(prefix, k.binding, k.kind, k.scope))
  }

  /** Deleting rows together with both their keys leaves no entry of a deleted row behind. */
  lemma DeletionSound(prefix: string, rows: map<AKey, Art>, cache: Cache, now: int, selected: set<AKey>)
    requires CacheSound(prefix, rows, cache, now) && selected <= rows.Keys
    ensures CacheSound(prefix, rows - selected, cache - CacheKeysOf(prefix, rows, selected), now)
  {
  }

  function KeysOfBinding(prefix: string, rows: map<AKey, Art>, b: uint64): set<string> {
    CacheKeysOf(prefix, rows, SelectByBinding(rows, b))
  }

  function KeysOfAccount(prefix: string, rows: map<AKey, Art>, acct: string): set<string> {
    CacheKeysOf(prefix, rows, SelectByAccount(rows, acct))
  }
}
