/**
Histories of the artifact repository: every read through the string-keyed cache answers
what the repository without Redis answers, exactly when no two keys in use collide.
*/
module ArtifactHistory {
  import opened Basics
  import opened AccountKey
  import opened Db
  import opened Backend
  import opened CacheKeys
  import opened ArtifactSpec

  datatype Deletion = OfBinding(b: uint64) | OfAccount(acct: string)

  /**
  One repository call. Reads carry the instant of the lookup and the row that an unordered
  LIMIT 1 picks; calls that copy to the cache carry the later instant at which the TTL is taken.
  A transaction is a list of deletes that commits or rolls back.
  */
  datatype Event =
    | Put(a: Artifact, at: int, later: int)
    | ReadByBinding(b: uint64, kind: string, scope: string, at: int, later: int)
    | ReadByAccount(acct: string, kind: string, scope: string, at: int, later: int, pick: Option<AKey>)
    | Transaction(deletes: seq<Deletion>, commits: bool, at: int, later: int)

  datatype State = State(rows: map<AKey, Art>, cache: Cache)

  const Initial := State(map[], map[])

  function Delete(prefix: string, st: State, d: Deletion): State {
    match d
    case OfBinding(b) => State(ArtsWithout(st.rows, b), st.cache - KeysOfBinding(prefix, st.rows, b))
    case OfAccount(acct) => State(ArtsWithoutAcct(st.rows, acct), st.cache - KeysOfAccount(prefix, st.rows, acct))
  }

  function DeleteAll(prefix: string, st: State, deletes: seq<Deletion>): State
    decreases |deletes|
  {
    if deletes == [] then st else DeleteAll(prefix, Delete(prefix, st, deletes[0]), deletes[1..])
  }

  /** The database's own answer to a read: what the repository without Redis returns. */
  function Stored(rows: map<AKey, Art>, e: Event): Option<Artifact> {
    match e
    case ReadByBinding(b, kind, scope, at, _) => ReadRow(rows, AKey(b, kind, scope), at)
    case ReadByAccount(_, _, _, at, _, pick) => ReadPicked(rows, pick, at)
    case _ => None
  }

  function CacheKey(prefix: string, e: Event): string {
    match e
    case ReadByBinding(b, kind, scope, _, _) => KeyByBinding(prefix, b, kind, scope)
    case ReadByAccount(acct, kind, scope, _, _, _) => KeyByAccount(prefix, acct, kind, scope)
    case _ => ""
  }

  /** The answer of the repository with Redis. */
  function Answer(prefix: string, st: State, e: Event): Option<Artifact> {
    Through(st.cache, CacheKey(prefix, e), Stored(st.rows, e), e.at)
  }

  function Apply(prefix: string, st: State, e: Event): State {
    match e
    case Put(a, _, later) => State(st.rows[KeyOf(a) := RowOf(a)], PutCache(prefix, st.rows, st.cache, a, later))
    case Transaction(deletes, commits, _, _) =>
      var after := DeleteAll(prefix, st, deletes);
      // a rollback restores the rows, but not the cache
      if commits then after else State(st.rows, after.cache)
    case _ => State(st.rows, CacheAfterRead(st.cache, CacheKey(prefix, e), Stored(st.rows, e), e.at, e.later))
  }

  function Run(prefix: string, events: seq<Event>): State {
    if events == [] then Initial else Apply(prefix, Run(prefix, events[..|events| - 1]), events[|events| - 1])
  }

  /** The rows never depend on the cache, so these are also the effects without Redis. */
  function ApplyRows(rows: map<AKey, Art>, e: Event): map<AKey, Art> {
    match e
    case Put(a, _, _) => rows[KeyOf(a) := RowOf(a)]
    case Transaction(deletes, commits, _, _) => if commits then RowsAfter(rows, deletes) else rows
    case _ => rows
  }

  function RowsAfter(rows: map<AKey, Art>, deletes: seq<Deletion>): map<AKey, Art> {
    if deletes == [] then rows
    else
      var rest := match deletes[0]
        case OfBinding(b) => ArtsWithout(rows, b)
        case OfAccount(acct) => ArtsWithoutAcct(rows, acct);
      RowsAfter(rest, deletes[1..])
  }

  function RowsWithoutRedis(events: seq<Event>): map<AKey, Art> {
    if events == [] then map[] else ApplyRows(RowsWithoutRedis(events[..|events| - 1]), events[|events| - 1])
  }

  /** Time runs forward. */
  predicate Timed(events: seq<Event>) {
    && (forall i :: 0 <= i < |events| ==> events[i].at <= events[i].later)
    && (forall i, j :: 0 <= i < j < |events| ==> events[i].later <= events[j].at)
  }

  /** The account ids and types that the event names are among these. */
  ghost predicate Names(accts: iset<string>, kinds: iset<string>, e: Event) {
    match e
    case Put(a, _, _) => a.acct in accts && a.kind in kinds
    case ReadByBinding(_, kind, _, _, _) => kind in kinds
    case ReadByAccount(acct, kind, _, _, _, _) => acct in accts && kind in kinds
    case Transaction(_, _, _, _) => true
  }

  ghost predicate Over(accts: iset<string>, kinds: iset<string>, events: seq<Event>) {
    Timed(events) && forall i :: 0 <= i < |events| ==> Names(accts, kinds, events[i])
  }

  /** The ids and types are ones the key families are built for. */
  ghost predicate WellFormed(events: seq<Event>) {
    Over(PLAIN_ACCOUNTS, PLAIN_KINDS, events)
  }

  /** The row picked for a by-account read is one the query matches. */
  predicate PickedFrom(rows: map<AKey, Art>, e: Event) {
    e.ReadByAccount? ==> PickOk(rows, e.acct, e.kind, e.scope, e.at, e.pick)
  }

  predicate Picked(events: seq<Event>) {
    forall i :: 0 <= i < |events| ==> PickedFrom(RowsWithoutRedis(events[..i]), events[i])
  }

  /** An answer that the database itself could give at this instant. */
  predicate Allowed(rows: map<AKey, Art>, e: Event, answer: Option<Artifact>) {
    match e
    case ReadByBinding(_, _, _, _, _) => answer == Stored(rows, e)
    case ReadByAccount(acct, kind, scope, at, _, _) =>
      if answer.None? then Matching(rows, acct, kind, scope, at) == {}
      else KeyOf(answer.value) in Matching(rows, acct, kind, scope, at) && rows[KeyOf(answer.value)] == RowOf(answer.value)
    case _ => true
  }

  /** Call `i` of the history answers through the cache what the database could answer. */
  predicate AgreesAt(prefix: string, events: seq<Event>, i: nat)
    requires i < |events|
  {
    Allowed(RowsWithoutRedis(events[..i]), events[i], Answer(prefix, Run(prefix, events[..i]), events[i]))
  }

  /**
  Put takes an empty account id in the row it overwrites for a missing row, and then leaves
  that account's key behind. So either no account is empty, or all are.
  */
  ghost predicate Tracked(accts: iset<string>, kinds: iset<string>) {
    forall acct, kind :: "" in accts && acct in accts && kind in kinds ==> acct == ""
  }

  ghost predicate Safe(accts: iset<string>, kinds: iset<string>) {
    KeysApart(accts, kinds) && Tracked(accts, kinds)
  }

  // ---------- the invariant ----------

  ghost predicate RowsOver(accts: iset<string>, kinds: iset<string>, rows: map<AKey, Art>) {
    forall k <- rows :: rows[k].acct in accts && k.kind in kinds
  }

  ghost predicate Inv(prefix: string, accts: iset<string>, kinds: iset<string>, st: State, now: int) {
    RowsOver(accts, kinds, st.rows) && CacheSound(prefix, st.rows, st.cache, now)
  }

  lemma DeletedSound(prefix: string, accts: iset<string>, kinds: iset<string>, st: State, d: Deletion, now: int)
    requires Inv(prefix, accts, kinds, st, now)
    ensures Inv(prefix, accts, kinds, Delete(prefix, st, d), now)
  {
    var selected := match d
      case OfBinding(b) => SelectByBinding(st.rows, b)
      case OfAccount(acct) => SelectByAccount(st.rows, acct);
    DeletionSound(prefix, st.rows, st.cache, now, selected);
    assert Delete(prefix, st, d).rows == st.rows - selected;
  }

  lemma {:induction false} DeletedAllSound(prefix: string, accts: iset<string>, kinds: iset<string>, st: State,
                                           deletes: seq<Deletion>, now: int)
    requires Inv(prefix, accts, kinds, st, now)
    ensures Inv(prefix, accts, kinds, DeleteAll(prefix, st, deletes), now)
    ensures forall key <- DeleteAll(prefix, st, deletes).cache ::
              key in st.cache && DeleteAll(prefix, st, deletes).cache[key] == st.cache[key]
    decreases |deletes|
  {
    if deletes != [] {
      DeletedSound(prefix, accts, kinds, st, deletes[0], now);
      DeletedAllSound(prefix, accts, kinds, Delete(prefix, st, deletes[0]), deletes[1..], now);
    }
  }

  lemma {:induction false} DeletedRows(prefix: string, st: State, deletes: seq<Deletion>)
    ensures DeleteAll(prefix, st, deletes).rows == RowsAfter(st.rows, deletes)
    decreases |deletes|
  {
    if deletes != [] {
      DeletedRows(prefix, Delete(prefix, st, deletes[0]), deletes[1..]);
    }
  }

  /** A live entry under the new artifact's keys is a copy of the artifact itself. */
  lemma PutSound(prefix: string, accts: iset<string>, kinds: iset<string>, st: State, a: Artifact, now: int, later: int)
    requires Safe(accts, kinds) && Inv(prefix, accts, kinds, st, now) && now <= later
    requires a.acct in accts && a.kind in kinds
    ensures Inv(prefix, accts, kinds, State(st.rows[KeyOf(a) := RowOf(a)], PutCache(prefix, st.rows, st.cache, a, later)), later)
  {
    var rows := st.rows[KeyOf(a) := RowOf(a)];
    var cache := PutCache(prefix, st.rows, st.cache, a, later);
    forall key | key in cache && cache[key].until > later
      ensures EntrySound(prefix, rows, key, cache[key])
    {
      if key != KeyByBinding(prefix, a.binding, a.kind, a.scope) {
        assert EntrySound(prefix, st.rows, key, st.cache[key]);
        assert "" in accts ==> a.acct == "";
      }
    }
  }

  lemma SameBindingKey(prefix: string, accts: iset<string>, kinds: iset<string>, binding1: uint64, kind1: string, scope1: string,
                       binding2: uint64, kind2: string, scope2: string)
    requires KeysApart(accts, kinds) && kind1 in kinds && kind2 in kinds
    requires KeyByBinding(prefix, binding1, kind1, scope1) == KeyByBinding(prefix, binding2, kind2, scope2)
    ensures binding1 == binding2 && kind1 == kind2 && scope1 == scope2
  {
    KeyByStem(prefix, "", binding1, kind1, scope1);
    KeyByStem(prefix, "", binding2, kind2, scope2);
    EqualKeysAreComparable(prefix, BindingOwner(binding1), kind1, scope1, BindingOwner(binding2), kind2, scope2);
    SameScope(prefix, BindingOwner(binding1), kind1, scope1, scope2);
  }

  lemma SameAccountKey(prefix: string, accts: iset<string>, kinds: iset<string>, acct1: string, kind1: string, scope1: string,
                       acct2: string, kind2: string, scope2: string)
    requires KeysApart(accts, kinds) && acct1 in accts && kind1 in kinds && acct2 in accts && kind2 in kinds
    requires KeyByAccount(prefix, acct1, kind1, scope1) == KeyByAccount(prefix, acct2, kind2, scope2)
    ensures acct1 == acct2 && kind1 == kind2 && scope1 == scope2
  {
    EqualKeysAreComparable(prefix, acct1, kind1, scope1, acct2, kind2, scope2);
    SameScope(prefix, acct1, kind1, scope1, scope2);
  }

  lemma SameScope(prefix: string, owner: string, kind: string, scope1: string, scope2: string)
    requires KeyByAccount(prefix, owner, kind, scope1) == KeyByAccount(prefix, owner, kind, scope2)
    ensures scope1 == scope2
  {
    KeyByStem(prefix, owner, 0, kind, scope1);
    KeyByStem(prefix, owner, 0, kind, scope2);
    DropPrefix(prefix + "artifact:", Stem(owner, kind) + scope1, Stem(owner, kind) + scope2);
    DropPrefix(Stem(owner, kind), scope1, scope2);
  }

  lemma OtherFamily(prefix: string, accts: iset<string>, kinds: iset<string>, acct: string, kind1: string, scope1: string,
                    binding: uint64, kind2: string, scope2: string)
    requires KeysApart(accts, kinds) && acct in accts && kind1 in kinds && kind2 in kinds
    ensures KeyByAccount(prefix, acct, kind1, scope1) != KeyByBinding(prefix, binding, kind2, scope2)
  {
    if KeyByAccount(prefix, acct, kind1, scope1) == KeyByBinding(prefix, binding, kind2, scope2) {
      KeyByStem(prefix, "", binding, kind2, scope2);
      EqualKeysAreComparable(prefix, acct, kind1, scope1, BindingOwner(binding), kind2, scope2);
      assert false;
    }
  }

  /** A live entry under a key that some artifact is asked for by is that artifact's. */
  lemma HitNames(prefix: string, accts: iset<string>, kinds: iset<string>, e: Event, a: Artifact)
    requires KeysApart(accts, kinds) && Names(accts, kinds, e) && a.acct in accts && a.kind in kinds
    requires e.ReadByBinding? || e.ReadByAccount?
    requires CacheKey(prefix, e) == KeyByBinding(prefix, a.binding, a.kind, a.scope) ||
             CacheKey(prefix, e) == KeyByAccount(prefix, a.acct, a.kind, a.scope)
    ensures e.ReadByBinding? ==> KeyOf(a) == AKey(e.b, e.kind, e.scope)
    ensures e.ReadByAccount? ==> a.acct == e.acct && a.kind == e.kind && a.scope == e.scope
  {
    match e
    case ReadByBinding(b, kind, scope, _, _) =>
      OtherFamily(prefix, accts, kinds, a.acct, a.kind, a.scope, b, kind, scope);
      SameBindingKey(prefix, accts, kinds, a.binding, a.kind, a.scope, b, kind, scope);
    case ReadByAccount(acct, kind, scope, _, _, _) =>
      OtherFamily(prefix, accts, kinds, acct, kind, scope, a.binding, a.kind, a.scope);
      SameAccountKey(prefix, accts, kinds, a.acct, a.kind, a.scope, acct, kind, scope);
  }

  lemma AnswerAllowed(prefix: string, accts: iset<string>, kinds: iset<string>, st: State, e: Event)
    requires Safe(accts, kinds) && Inv(prefix, accts, kinds, st, e.at) && Names(accts, kinds, e)
    requires e.ReadByBinding? || (e.ReadByAccount? && PickedFrom(st.rows, e))
    ensures Allowed(st.rows, e, Answer(prefix, st, e))
  {
    var key := CacheKey(prefix, e);
    if Hit(st.cache, key, e.at).Some? {
      assert EntrySound(prefix, st.rows, key, st.cache[key]);
      HitNames(prefix, accts, kinds, e, st.cache[key].payload);
    }
  }

  lemma ReadKeepsSound(prefix: string, accts: iset<string>, kinds: iset<string>, st: State, e: Event)
    requires Inv(prefix, accts, kinds, st, e.at) && e.at <= e.later
    requires e.ReadByBinding? || (e.ReadByAccount? && PickedFrom(st.rows, e))
    ensures Inv(prefix, accts, kinds, Apply(prefix, st, e), e.later)
  {
    var cache := Apply(prefix, st, e).cache;
    forall k | k in cache && cache[k].until > e.later
      ensures EntrySound(prefix, st.rows, k, cache[k])
    {
    }
  }

  lemma StepSound(prefix: string, accts: iset<string>, kinds: iset<string>, st: State, e: Event)
    requires Safe(accts, kinds) && Inv(prefix, accts, kinds, st, e.at)
    requires Names(accts, kinds, e) && e.at <= e.later && PickedFrom(st.rows, e)
    ensures Inv(prefix, accts, kinds, Apply(prefix, st, e), e.later)
  {
    match e
    case Put(a, at, later) => PutSound(prefix, accts, kinds, st, a, at, later);
    case Transaction(deletes, _, at, _) => DeletedAllSound(prefix, accts, kinds, st, deletes, at);
    case _ => ReadKeepsSound(prefix, accts, kinds, st, e);
  }

  lemma ApplyChangesRows(prefix: string, st: State, e: Event)
    ensures Apply(prefix, st, e).rows == ApplyRows(st.rows, e)
  {
    if e.Transaction? {
      DeletedRows(prefix, st, e.deletes);
    }
  }

  lemma {:induction false} RunRows(prefix: string, events: seq<Event>)
    ensures Run(prefix, events).rows == RowsWithoutRedis(events)
  {
    if events != [] {
      RunRows(prefix, events[..|events| - 1]);
      ApplyChangesRows(prefix, Run(prefix, events[..|events| - 1]), events[|events| - 1]);
    }
  }

  lemma ExtendSound(prefix: string, accts: iset<string>, kinds: iset<string>, before: seq<Event>, e: Event, now: int)
    requires Safe(accts, kinds) && Inv(prefix, accts, kinds, Run(prefix, before), e.at)
    requires Names(accts, kinds, e) && e.at <= e.later <= now && PickedFrom(RowsWithoutRedis(before), e)
    ensures Inv(prefix, accts, kinds, Run(prefix, before + [e]), now)
  {
    RunRows(prefix, before);
    StepSound(prefix, accts, kinds, Run(prefix, before), e);
    assert (before + [e])[..|before|] == before;
  }

  lemma {:induction false} RunSound(prefix: string, accts: iset<string>, kinds: iset<string>, events: seq<Event>, n: nat, now: int)
    requires Safe(accts, kinds) && Over(accts, kinds, events) && Picked(events) && n <= |events|
    requires n > 0 ==> events[n - 1].later <= now
    ensures Inv(prefix, accts, kinds, Run(prefix, events[..n]), now)
  {
    if n > 0 {
      var e := events[n - 1];
      RunSound(prefix, accts, kinds, events, n - 1, e.at);
      ExtendSound(prefix, accts, kinds, events[..n - 1], e, now);
      assert events[..n] == events[..n - 1] + [e];
    }
  }

  /** Over safe ids and types, every read of every history agrees with the database. */
  lemma SafeAgrees(prefix: string, accts: iset<string>, kinds: iset<string>, events: seq<Event>, i: nat)
    requires Safe(accts, kinds) && Over(accts, kinds, events) && Picked(events) && i < |events|
    ensures AgreesAt(prefix, events, i)
  {
    var st, e := Run(prefix, events[..i]), events[i];
    RunSound(prefix, accts, kinds, events, i, e.at);
    RunRows(prefix, events[..i]);
    if e.ReadByBinding? || e.ReadByAccount? {
      AnswerAllowed(prefix, accts, kinds, st, e);
    }
  }

  /**
  For every history, each read through the cache gives an answer that the repository
  without Redis could have given at the same instant.
  */
  lemma CacheAgreesWithDatabase(prefix: string, events: seq<Event>, i: nat)
    requires WellFormed(events) && Picked(events) && i < |events|
    ensures Allowed(RowsWithoutRedis(events[..i]), events[i], Answer(prefix, Run(prefix, events[..i]), events[i]))
  {
    PlainKeysApart();
    SafeAgrees(prefix, PLAIN_ACCOUNTS, PLAIN_KINDS, events, i);
  }

  // ---------- every answer is unexpired ----------

  /** Each entry dies with its artifact. */
  predicate EntriesTimed(cache: Cache) {
    forall key <- cache :: cache[key].until == cache[key].payload.expiresAt
  }

  lemma {:induction false} DeletedEntriesTimed(prefix: string, st: State, deletes: seq<Deletion>)
    requires EntriesTimed(st.cache)
    ensures EntriesTimed(DeleteAll(prefix, st, deletes).cache)
    decreases |deletes|
  {
    if deletes != [] {
      DeletedEntriesTimed(prefix, Delete(prefix, st, deletes[0]), deletes[1..]);
    }
  }

  lemma {:induction false} RunEntriesTimed(prefix: string, events: seq<Event>)
    ensures EntriesTimed(Run(prefix, events).cache)
  {
    if events != [] {
      var before, e := events[..|events| - 1], events[|events| - 1];
      RunEntriesTimed(prefix, before);
      if e.Transaction? {
        DeletedEntriesTimed(prefix, Run(prefix, before), e.deletes);
      }
    }
  }

  /** In every history whatsoever, what a read answers has not expired at the moment of the read. */
  lemma AnswerUnexpired(prefix: string, events: seq<Event>, i: nat)
    requires i < |events|
    ensures var answer := Answer(prefix, Run(prefix, events[..i]), events[i]);
            answer.Some? ==> events[i].at < answer.value.expiresAt
  {
    RunEntriesTimed(prefix, events[..i]);
  }

  /** In histories of agreeing accounts, a read answers exactly the live row with its key, and nothing when there is none. */
  lemma AnswerIsTheLiveRow(prefix: string, events: seq<Event>, i: nat)
    requires WellFormed(events) && Picked(events) && PutsAgree(events) && i < |events|
    ensures var rows, e := RowsWithoutRedis(events[..i]), events[i];
            var answer := Answer(prefix, Run(prefix, events[..i]), e);
            && (e.ReadByBinding? ==>
                  match answer
                  case Some(a) => IsRow(rows, a) && a.binding == e.b && a.kind == e.kind && a.scope == e.scope && e.at < a.expiresAt
                  case None => !HasLiveRow(rows, e.b, e.kind, e.scope, e.at))
            && (e.ReadByAccount? ==>
                  match answer
                  case Some(a) => IsRow(rows, a) && a.acct == e.acct && a.kind == e.kind && a.scope == e.scope && e.at < a.expiresAt
                  case None => !HasLiveRowOf(rows, e.acct, e.kind, e.scope, e.at))
  {
    var rows, e := RowsWithoutRedis(events[..i]), events[i];
    if e.ReadByBinding? {
      CacheEqualsDatabase(prefix, events, i);
      ReadByBindingMeans(rows, e.b, e.kind, e.scope, e.at);
    } else if e.ReadByAccount? {
      CacheEqualsDatabase(prefix, events, i);
      ReadByAccountMeans(rows, e.acct, e.kind, e.scope, e.at, e.pick);
    }
  }

  // ---------- other bindings' entries ----------

  /** Deleting a binding leaves every live entry of another binding's artifact in the cache. */
  lemma OtherEntriesSurvive(prefix: string, accts: iset<string>, kinds: iset<string>, st: State, now: int, b: uint64, key: string)
    requires KeysApart(accts, kinds) && Inv(prefix, accts, kinds, st, now) && ArtsNamed(st.rows)
    requires key in st.cache && now < st.cache[key].until && st.cache[key].payload.binding != b
    ensures key in Delete(prefix, st, OfBinding(b)).cache
  {
    var a := st.cache[key].payload;
    assert EntrySound(prefix, st.rows, key, st.cache[key]);
    forall k | k in SelectByBinding(st.rows, b)
      ensures key != KeyByAccount(prefix, st.rows[k].acct, k.kind, k.scope) && key != KeyByBinding(prefix, k.binding, k.kind, k.scope)
    {
      OtherKey(prefix, accts, kinds, st.rows, a, k);
    }
  }

  lemma OtherKey(prefix: string, accts: iset<string>, kinds: iset<string>, rows: map<AKey, Art>, a: Artifact, k: AKey)
    requires KeysApart(accts, kinds) && RowsOver(accts, kinds, rows) && ArtsNamed(rows)
    requires KeyOf(a) in rows && rows[KeyOf(a)] == RowOf(a) && k in rows && k.binding != a.binding
    ensures KeyByBinding(prefix, a.binding, a.kind, a.scope) != KeyByBinding(prefix, k.binding, k.kind, k.scope)
    ensures KeyByAccount(prefix, a.acct, a.kind, a.scope) != KeyByAccount(prefix, rows[k].acct, k.kind, k.scope)
    ensures KeyByBinding(prefix, a.binding, a.kind, a.scope) != KeyByAccount(prefix, rows[k].acct, k.kind, k.scope)
    ensures KeyByAccount(prefix, a.acct, a.kind, a.scope) != KeyByBinding(prefix, k.binding, k.kind, k.scope)
  {
    assert Db.Names(rows[KeyOf(a)].acct, a.binding) && Db.Names(rows[k].acct, k.binding);
    OtherFamily(prefix, accts, kinds, a.acct, a.kind, a.scope, k.binding, k.kind, k.scope);
    OtherFamily(prefix, accts, kinds, rows[k].acct, k.kind, k.scope, a.binding, a.kind, a.scope);
    if KeyByBinding(prefix, a.binding, a.kind, a.scope) == KeyByBinding(prefix, k.binding, k.kind, k.scope) {
      SameBindingKey(prefix, accts, kinds, a.binding, a.kind, a.scope, k.binding, k.kind, k.scope);
    }
    if KeyByAccount(prefix, a.acct, a.kind, a.scope) == KeyByAccount(prefix, rows[k].acct, k.kind, k.scope) {
      SameAccountKey(prefix, accts, kinds, a.acct, a.kind, a.scope, rows[k].acct, k.kind, k.scope);
    }
  }

  // ---------- ids and types that are not safe ----------

  /** One artifact, stored at time 0 and valid until time 10. */
  function Only(a: Artifact): map<AKey, Art> {
    map[KeyOf(a) := RowOf(a)]
  }

  /** A history that puts `a`, and copies it under its account key if the last read is for that key. */
  function Misreading(a: Artifact, byAccount: bool, last: Event): seq<Event> {
    if byAccount then [Put(a, 0, 0), ReadByAccount(a.acct, a.kind, a.scope, 1, 1, Some(KeyOf(a))), last]
    else [Put(a, 0, 0), last]
  }

  /** A read of some other artifact, at time 2, for which the database has no row. */
  predicate AsksForOther(a: Artifact, e: Event) {
    match e
    case ReadByBinding(b, kind, scope, at, later) => at == later == 2 && AKey(b, kind, scope) != KeyOf(a)
    case ReadByAccount(acct, kind, scope, at, later, pick) =>
      at == later == 2 && pick == None && !(acct == a.acct && kind == a.kind && scope == a.scope)
    case _ => false
  }

  lemma PutThenRead(prefix: string, a: Artifact, byAccount: bool, last: Event)
    requires a.expiresAt == 10
    ensures var events := Misreading(a, byAccount, last);
            var n := |events| - 1;
            && RowsWithoutRedis(events[..n]) == Only(a) && Run(prefix, events[..n]).rows == Only(a)
            && var key := if byAccount then KeyByAccount(prefix, a.acct, a.kind, a.scope)
                          else KeyByBinding(prefix, a.binding, a.kind, a.scope);
               key in Run(prefix, events[..n]).cache && Run(prefix, events[..n]).cache[key] == Entry(a, 10)
  {
    var events := Misreading(a, byAccount, last);
    var put := Put(a, 0, 0);
    var st := State(Only(a), PutCache(prefix, map[], map[], a, 0));
    assert [put][..0] == [] && [put][0] == put;
    assert Run(prefix, [put]) == Apply(prefix, Initial, put) == st;
    assert RowsWithoutRedis([put]) == Only(a);
    RunRows(prefix, [put]);
    if byAccount {
      var read := events[1];
      assert events[..2] == [put, read] && [put, read][..1] == [put];
      assert Run(prefix, [put, read]) == Apply(prefix, st, read);
      RunRows(prefix, [put, read]);
    } else {
      assert events[..1] == [put];
    }
  }

  lemma MisreadingOver(accts: iset<string>, kinds: iset<string>, a: Artifact, byAccount: bool, last: Event)
    requires a.acct in accts && a.kind in kinds && Names(accts, kinds, last) && AsksForOther(a, last) && a.expiresAt == 10
    ensures Over(accts, kinds, Misreading(a, byAccount, last)) && Picked(Misreading(a, byAccount, last))
  {
    var events := Misreading(a, byAccount, last);
    PutThenRead("", a, byAccount, last);
    PutThenRead("", a, false, last);
    forall i | 0 <= i < |events| ensures PickedFrom(RowsWithoutRedis(events[..i]), events[i]) {
      if i == 1 && byAccount {
        assert events[..1] == Misreading(a, false, last)[..1];
      }
    }
  }

  /** If that read's key is one of the artifact's keys, Redis answers it with the wrong artifact. */
  lemma Misreads(prefix: string, a: Artifact, byAccount: bool, last: Event)
    requires a.expiresAt == 10 && AsksForOther(a, last)
    requires CacheKey(prefix, last) == if byAccount then KeyByAccount(prefix, a.acct, a.kind, a.scope)
                                       else KeyByBinding(prefix, a.binding, a.kind, a.scope)
    ensures var events := Misreading(a, byAccount, last); !AgreesAt(prefix, events, |events| - 1)
  {
    var events := Misreading(a, byAccount, last);
    PutThenRead(prefix, a, byAccount, last);
    assert events[|events| - 1] == last;
    assert Answer(prefix, Run(prefix, events[..|events| - 1]), last) == Some(a);
  }

  /** Some history over these ids and types gets an answer from Redis that the database could not give. */
  ghost predicate SomeMisread(prefix: string, accts: iset<string>, kinds: iset<string>) {
    exists events, i {:trigger AgreesAt(prefix, events, i)} ::
      Over(accts, kinds, events) && Picked(events) && 0 <= i < |events| && !AgreesAt(prefix, events, i)
  }

  lemma MisreadExists(prefix: string, accts: iset<string>, kinds: iset<string>, a: Artifact, byAccount: bool, last: Event)
    requires a.acct in accts && a.kind in kinds && Names(accts, kinds, last) && AsksForOther(a, last) && a.expiresAt == 10
    requires CacheKey(prefix, last) == if byAccount then KeyByAccount(prefix, a.acct, a.kind, a.scope)
                                       else KeyByBinding(prefix, a.binding, a.kind, a.scope)
    ensures SomeMisread(prefix, accts, kinds)
  {
    var events := Misreading(a, byAccount, last);
    MisreadingOver(accts, kinds, a, byAccount, last);
    Misreads(prefix, a, byAccount, last);
    assert !AgreesAt(prefix, events, |events| - 1);
  }

  lemma AccountsMisread(prefix: string, accts: iset<string>, kinds: iset<string>,
                        acct1: string, kind1: string, acct2: string, kind2: string)
    requires acct1 in accts && acct2 in accts && kind1 in kinds && kind2 in kinds
    requires Comparable(Stem(acct1, kind1), Stem(acct2, kind2)) && !(acct1 == acct2 && kind1 == kind2)
    ensures SomeMisread(prefix, accts, kinds)
  {
    var scope1, scope2 := ComparableKeysMeet(prefix, acct1, kind1, acct2, kind2);
    MisreadExists(prefix, accts, kinds, Artifact(1, acct1, kind1, "", scope1, 10), true,
                  ReadByAccount(acct2, kind2, scope2, 2, 2, None));
  }

  lemma FamiliesMisread(prefix: string, accts: iset<string>, kinds: iset<string>,
                        acct: string, kind1: string, binding: uint64, kind2: string)
    requires acct in accts && kind1 in kinds && kind2 in kinds
    requires Comparable(Stem(acct, kind1), Stem(BindingOwner(binding), kind2))
    ensures SomeMisread(prefix, accts, kinds)
  {
    var scope1, scope2 := ComparableKeysMeet(prefix, acct, kind1, BindingOwner(binding), kind2);
    KeyByStem(prefix, "", binding, kind2, scope2);
    var other := if binding == 1 then 2 else 1;
    MisreadExists(prefix, accts, kinds, Artifact(other, acct, kind1, "", scope1, 10), true,
                  ReadByBinding(binding, kind2, scope2, 2, 2));
  }

  lemma BindingsMisread(prefix: string, accts: iset<string>, kinds: iset<string>, acct: string,
                        binding1: uint64, kind1: string, binding2: uint64, kind2: string)
    requires acct in accts && kind1 in kinds && kind2 in kinds && !(binding1 == binding2 && kind1 == kind2)
    requires Comparable(Stem(BindingOwner(binding1), kind1), Stem(BindingOwner(binding2), kind2))
    ensures SomeMisread(prefix, accts, kinds)
  {
    var scope1, scope2 := ComparableKeysMeet(prefix, BindingOwner(binding1), kind1, BindingOwner(binding2), kind2);
    KeyByStem(prefix, "", binding1, kind1, scope1);
    KeyByStem(prefix, "", binding2, kind2, scope2);
    MisreadExists(prefix, accts, kinds, Artifact(binding1, acct, kind1, "", scope1, 10), false,
                  ReadByBinding(binding2, kind2, scope2, 2, 2));
  }

  lemma AccountsNotApart(prefix: string, accts: iset<string>, kinds: iset<string>)
    requires !AccountsApart(accts, kinds)
    ensures SomeMisread(prefix, accts, kinds)
  {
    var acct1, acct2, kind1, kind2 :|
      acct1 in accts && acct2 in accts && kind1 in kinds && kind2 in kinds &&
      Comparable(Stem(acct1, kind1), Stem(acct2, kind2)) && !(acct1 == acct2 && kind1 == kind2);
    AccountsMisread(prefix, accts, kinds, acct1, kind1, acct2, kind2);
  }

  lemma FamiliesNotApart(prefix: string, accts: iset<string>, kinds: iset<string>)
    requires !FamiliesApart(accts, kinds)
    ensures SomeMisread(prefix, accts, kinds)
  {
    var acct, binding: uint64, kind1, kind2 :|
      acct in accts && kind1 in kinds && kind2 in kinds && Comparable(Stem(acct, kind1), Stem(BindingOwner(binding), kind2));
    FamiliesMisread(prefix, accts, kinds, acct, kind1, binding, kind2);
  }

  lemma BindingsNotApart(prefix: string, accts: iset<string>, kinds: iset<string>)
    requires accts != iset{} && !BindingsApart(kinds)
    ensures SomeMisread(prefix, accts, kinds)
  {
    var binding1: uint64, binding2: uint64, kind1, kind2 :|
      kind1 in kinds && kind2 in kinds && !(binding1 == binding2 && kind1 == kind2) &&
      Comparable(Stem(BindingOwner(binding1), kind1), Stem(BindingOwner(binding2), kind2));
    var acct :| acct in accts;
    BindingsMisread(prefix, accts, kinds, acct, binding1, kind1, binding2, kind2);
  }

  // ---------- an empty account id ----------

  /** A row with an empty account id is copied to the cache under its account key, and then moves to another account. */
  function Overwriting(acct: string, kind: string): seq<Event> {
    var a := Artifact(1, "", kind, "", "", 10);
    [Put(a, 0, 0), ReadByAccount("", kind, "", 1, 1, Some(KeyOf(a))),
     Put(a.(acct := acct), 2, 2), ReadByAccount("", kind, "", 3, 3, None)]
  }

  lemma OverwritingRun(prefix: string, acct: string, kind: string)
    requires KeyByAccount(prefix, "", kind, "") != KeyByBinding(prefix, 1, kind, "")
    requires KeyByAccount(prefix, "", kind, "") != KeyByAccount(prefix, acct, kind, "")
    ensures var events, a := Overwriting(acct, kind), Artifact(1, "", kind, "", "", 10);
            && RowsWithoutRedis(events[..0]) == map[] && RowsWithoutRedis(events[..1]) == Only(a)
            && RowsWithoutRedis(events[..2]) == Only(a) && RowsWithoutRedis(events[..3]) == Only(a.(acct := acct))
            && Hit(Run(prefix, events[..3]).cache, KeyByAccount(prefix, "", kind, ""), 3) == Some(a)
  {
    var events, a := Overwriting(acct, kind), Artifact(1, "", kind, "", "", 10);
    var key := KeyByAccount(prefix, "", kind, "");
    PutThenRead(prefix, a, false, events[1]);
    PutThenRead(prefix, a, true, events[3]);
    assert events[..1] == Misreading(a, false, events[1])[..1];
    assert events[..2] == Misreading(a, true, events[3])[..2];
    assert events[..3] == events[..2] + [events[2]] && events[..3][..2] == events[..2];
    assert Run(prefix, events[..3]) == Apply(prefix, Run(prefix, events[..2]), events[2]);
    assert Run(prefix, events[..2]).rows[KeyOf(a)].acct == "";
    assert key in Run(prefix, events[..3]).cache;
    assert RowsWithoutRedis(events[..3]) == ApplyRows(RowsWithoutRedis(events[..2]), events[2]);
  }

  lemma NotTracked(prefix: string, accts: iset<string>, kinds: iset<string>)
    requires KeysApart(accts, kinds) && !Tracked(accts, kinds)
    ensures SomeMisread(prefix, accts, kinds)
  {
    var acct, kind :| "" in accts && acct in accts && kind in kinds && acct != "";
    var events := Overwriting(acct, kind);
    KeysDiffer(prefix, accts, kinds, acct, kind);
    OverwritingRun(prefix, acct, kind);
    OverwritingOver(accts, kinds, acct, kind);
    assert !AgreesAt(prefix, events, 3);
  }

  lemma OverwritingOver(accts: iset<string>, kinds: iset<string>, acct: string, kind: string)
    requires "" in accts && acct in accts && kind in kinds && acct != ""
    requires var events, a := Overwriting(acct, kind), Artifact(1, "", kind, "", "", 10);
             RowsWithoutRedis(events[..1]) == Only(a) && RowsWithoutRedis(events[..3]) == Only(a.(acct := acct))
    ensures Over(accts, kinds, Overwriting(acct, kind)) && Picked(Overwriting(acct, kind))
  {
    var events := Overwriting(acct, kind);
    assert PickedFrom(RowsWithoutRedis(events[..1]), events[1]);
    assert PickedFrom(RowsWithoutRedis(events[..3]), events[3]);
  }

  lemma KeysDiffer(prefix: string, accts: iset<string>, kinds: iset<string>, acct: string, kind: string)
    requires KeysApart(accts, kinds) && "" in accts && acct in accts && kind in kinds && acct != ""
    ensures KeyByAccount(prefix, "", kind, "") != KeyByBinding(prefix, 1, kind, "")
    ensures KeyByAccount(prefix, "", kind, "") != KeyByAccount(prefix, acct, kind, "")
  {
    OtherFamily(prefix, accts, kinds, "", kind, "", 1, kind, "");
    if KeyByAccount(prefix, "", kind, "") == KeyByAccount(prefix, acct, kind, "") {
      SameAccountKey(prefix, accts, kinds, "", kind, "", acct, kind, "");
    }
  }

  /**
  Over any account ids and types, some history is misread through the cache exactly when the
  ids and types are not safe: some stem of a key begins another one's, or an empty account id
  is used beside another one.
  */
  lemma MisreadIffUnsafe(prefix: string, accts: iset<string>, kinds: iset<string>)
    requires accts != iset{}
    ensures SomeMisread(prefix, accts, kinds) <==> !Safe(accts, kinds)
  {
    if Safe(accts, kinds) {
      NoMisread(prefix, accts, kinds);
    } else if !AccountsApart(accts, kinds) {
      AccountsNotApart(prefix, accts, kinds);
    } else if !FamiliesApart(accts, kinds) {
      FamiliesNotApart(prefix, accts, kinds);
    } else if !BindingsApart(kinds) {
      BindingsNotApart(prefix, accts, kinds);
    } else {
      NotTracked(prefix, accts, kinds);
    }
  }

  lemma NoMisread(prefix: string, accts: iset<string>, kinds: iset<string>)
    requires Safe(accts, kinds)
    ensures !SomeMisread(prefix, accts, kinds)
  {
    forall events, i | Over(accts, kinds, events) && Picked(events) && 0 <= i < |events| ensures AgreesAt(prefix, events, i) {
      SafeAgrees(prefix, accts, kinds, events, i);
    }
  }

  /** An account id that the parser rejects, among authkeys: another binding's read is answered with its artifact. */
  lemma RejectedAccountMisreads(prefix: string) returns (events: seq<Event>)
    ensures Over(iset{"binding:42"}, iset{"authkey"}, events) && Picked(events)
    ensures |events| == 3 && events[2].ReadByBinding? && !AgreesAt(prefix, events, 2)
  {
    var a, last := Artifact(7, "binding:42", "authkey", "v", "p", 10), ReadByBinding(42, "authkey", "p", 2, 2);
    FamiliesCollide(prefix, "p");
    events := Misreading(a, true, last);
    MisreadingOver(iset{"binding:42"}, iset{"authkey"}, a, true, last);
    Misreads(prefix, a, true, last);
  }

  /** Two accounts of one binding, one with a colon, among authkeys: a by-account read gets the other account's artifact. */
  lemma ColonAccountMisreads(prefix: string) returns (events: seq<Event>)
    ensures Over(iset{"binding_1_a", "binding_1_a:authkey"}, iset{"authkey"}, events) && Picked(events)
    ensures |events| == 3 && events[2].ReadByAccount? && !AgreesAt(prefix, events, 2)
  {
    var a := Artifact(1, "binding_1_a:authkey", "authkey", "v", "p", 10);
    var last := ReadByAccount("binding_1_a", "authkey", "authkey:p", 2, 2, None);
    AccountKeysCollide(prefix);
    assert "binding_1_a" != "binding_1_a:authkey";
    events := Misreading(a, true, last);
    MisreadingOver(iset{"binding_1_a", "binding_1_a:authkey"}, iset{"authkey"}, a, true, last);
    Misreads(prefix, a, true, last);
  }

  // ---------- agreeing accounts ----------

  /** Every Put carries the binding that its account id names, as all the service's writes do. */
  predicate PutsAgree(events: seq<Event>) {
    forall i :: 0 <= i < |events| && events[i].Put? ==> Db.Names(events[i].a.acct, events[i].a.binding)
  }

  lemma {:induction false} RowsAgree(events: seq<Event>)
    requires PutsAgree(events)
    ensures ArtsNamed(RowsWithoutRedis(events))
  {
    if events != [] {
      var before, e := events[..|events| - 1], events[|events| - 1];
      assert forall i :: 0 <= i < |before| ==> before[i] == events[i];
      RowsAgree(before);
      if e.Transaction? {
        RowsAfterWithin(RowsWithoutRedis(before), e.deletes);
      }
    }
  }

  lemma {:induction false} RowsAfterWithin(rows: map<AKey, Art>, deletes: seq<Deletion>)
    ensures forall k <- RowsAfter(rows, deletes) :: k in rows && RowsAfter(rows, deletes)[k] == rows[k]
    decreases |deletes|
  {
    if deletes != [] {
      var rest := match deletes[0]
        case OfBinding(b) => ArtsWithout(rows, b)
        case OfAccount(acct) => ArtsWithoutAcct(rows, acct);
      RowsAfterWithin(rest, deletes[1..]);
    }
  }

  /** Then both repositories return the very same artifact, whatever row an unordered query picks. */
  lemma CacheEqualsDatabase(prefix: string, events: seq<Event>, i: nat)
    requires WellFormed(events) && Picked(events) && PutsAgree(events) && i < |events|
    ensures events[i].ReadByBinding? || events[i].ReadByAccount? ==>
              Answer(prefix, Run(prefix, events[..i]), events[i]) == Stored(RowsWithoutRedis(events[..i]), events[i])
  {
    CacheAgreesWithDatabase(prefix, events, i);
    assert forall j :: 0 <= j < i ==> events[..i][j] == events[j];
    RowsAgree(events[..i]);
    RunRows(prefix, events[..i]);
  }

  // ---------- what the repository's methods perform ----------

  /** A call without storage faults takes the rows and the cache from `before` to `after`. */
  predicate Performs(withRedis: bool, prefix: string, before: State, e: Event, after: State) {
    if withRedis then after == Apply(prefix, before, e) else after == State(ApplyRows(before.rows, e), before.cache)
  }

  /** What such a call answers. */
  function AnswerOf(withRedis: bool, prefix: string, before: State, e: Event): Option<Artifact> {
    if withRedis then Answer(prefix, before, e) else Stored(before.rows, e)
  }

  lemma OneDelete(prefix: string, st: State, d: Deletion)
    ensures DeleteAll(prefix, st, [d]) == Delete(prefix, st, d)
    ensures RowsAfter(st.rows, [d]) == Delete(prefix, st, d).rows
  {
    assert [d][1..] == [];
  }

  /** Deleting a binding's rows and keys in a transaction that commits, or only its keys in one that is rolled back. */
  lemma DeletePerforms(withRedis: bool, prefix: string, before: State, after: State, b: uint64, commits: bool, at: int, later: int)
    requires after.cache == before.cache - KeysOfBinding(prefix, before.rows, b) && (!withRedis ==> before.cache == map[])
    requires after.rows == if commits then ArtsWithout(before.rows, b) else before.rows
    ensures Performs(withRedis, prefix, before, Transaction([OfBinding(b)], commits, at, later), after)
  {
    OneDelete(prefix, before, OfBinding(b));
  }

  ghost predicate History(withRedis: bool, prefix: string, states: seq<State>, events: seq<Event>) {
    && |states| == |events| + 1 && states[0] == Initial
    && forall i :: 0 <= i < |events| ==> PerformsAt(withRedis, prefix, states, events, i)
  }

  ghost predicate PerformsAt(withRedis: bool, prefix: string, states: seq<State>, events: seq<Event>, i: nat)
    requires |states| == |events| + 1 && i < |events|
  {
    Performs(withRedis, prefix, states[i], events[i], states[i + 1])
  }

  lemma {:induction false} HistoryRuns(withRedis: bool, prefix: string, states: seq<State>, events: seq<Event>, n: nat)
    requires History(withRedis, prefix, states, events) && n <= |events|
    ensures states[n].rows == RowsWithoutRedis(events[..n])
    ensures withRedis ==> states[n] == Run(prefix, events[..n])
  {
    if n > 0 {
      HistoryRuns(withRedis, prefix, states, events, n - 1);
      assert PerformsAt(withRedis, prefix, states, events, n - 1);
      assert events[..n][..n - 1] == events[..n - 1] && events[..n][n - 1] == events[n - 1];
      ApplyChangesRows(prefix, states[n - 1], events[n - 1]);
    }
  }

  /** Two repositories, one with Redis and one without, that perform the same calls answer every read alike. */
  lemma RepositoriesAgree(prefix: string, cached: seq<State>, plain: seq<State>, events: seq<Event>, i: nat)
    requires History(true, prefix, cached, events) && History(false, prefix, plain, events)
    requires WellFormed(events) && Picked(events) && PutsAgree(events) && i < |events|
    ensures events[i].ReadByBinding? || events[i].ReadByAccount? ==>
              AnswerOf(true, prefix, cached[i], events[i]) == AnswerOf(false, prefix, plain[i], events[i])
  {
    HistoryRuns(true, prefix, cached, events, i);
    HistoryRuns(false, prefix, plain, events, i);
    CacheEqualsDatabase(prefix, events, i);
  }
}
