/**
Migrations 000005 to 000007 and their rollbacks: prechecks first, then ALTER and UPDATE
statements that a NULL or a duplicate would break halfway.
*/
module Migrations {
  import opened Basics
  import opened AccountKey
  import opened Db

  /** The identity of a row. The scripts never look inside it. */
  datatype RowId = Auto(n: nat) | OfCred(b: uint64) | OfDevice(d: DKey) | OfProfile(p: PKey) | OfArtifact(a: AKey)

  /**
  A row: its binding_id (None for NULL, or while the column does not exist), its
  platform_account_id, the columns that complete its unique key, and the whole row for the
  columns that no script touches.
  */
  datatype Row<K, V> = Row(binding: Option<uint64>, acct: string, key: K, rest: V)

  type Table<K, V> = map<RowId, Row<K, V>>

  type CredTable = Table<(string, string), Cred>
  type DeviceTable = Table<string, Dev>
  type ProfileTable = Table<(string, string), Prof>
  type ArtifactTable = Table<(string, string), Art>

  datatype Schema = Schema(creds: CredTable, devices: DeviceTable, profiles: ProfileTable, artifacts: ArtifactTable)

  datatype MigrationError =
    | MalformedCredentials | DuplicateParsedBindings | MalformedProfiles
    | DuplicateProfiles | UnmappedDevices
    | MultipleDefaults | UnmappedArtifacts | DuplicateArtifacts
    | DuplicatePlatformArtifacts
    | ConstraintFailed

  // ---------- unique keys and NOT NULL ----------

  predicate UniqueAcct<K, V>(t: Table<K, V>) {
    forall g <- t, h <- t {:trigger t[g].acct, t[h].acct} :: t[g].acct == t[h].acct ==> g == h
  }

  predicate UniqueBinding<K, V>(t: Table<K, V>) {
    forall g <- t, h <- t {:trigger t[g].binding, t[h].binding} :: t[g].binding == t[h].binding ==> g == h
  }

  predicate UniqueAcctKey<K(==), V>(t: Table<K, V>) {
    forall g <- t, h <- t {:trigger t[g].key, t[h].key} :: t[g].acct == t[h].acct && t[g].key == t[h].key ==> g == h
  }

  predicate UniqueBindingKey<K(==), V>(t: Table<K, V>) {
    forall g <- t, h <- t {:trigger t[g].key, t[h].key} :: t[g].binding == t[h].binding && t[g].key == t[h].key ==> g == h
  }

  predicate NotNull<K, V>(t: Table<K, V>) {
    forall h <- t :: t[h].binding.Some?
  }

  predicate NoBindings<K, V>(t: Table<K, V>) {
    forall h <- t :: t[h].binding.None?
  }

  // ---------- the UPDATE statements ----------

  /** SET binding_id = CASE ... END WHERE binding_id IS NULL. */
  function Parsed<K, V>(t: Table<K, V>): Table<K, V> {
    map h | h in t :: if t[h].binding.None? then t[h].(binding := SqlBindingID(t[h].acct)) else t[h]
  }

  predicate Mapped(creds: CredTable, acct: string) {
    exists c <- creds :: creds[c].acct == acct
  }

  /** The binding of the credential that a join on platform_account_id finds. */
  function JoinedBinding(creds: CredTable, acct: string): (b: Option<uint64>)
    requires UniqueAcct(creds)
    ensures Mapped(creds, acct) ==> exists c <- creds :: creds[c].acct == acct && creds[c].binding == b
  {
    if Mapped(creds, acct) then
      var c :| c in creds && creds[c].acct == acct;
      creds[c].binding
    else None
  }

  /** UPDATE ... JOIN credential_records c ON c.platform_account_id = platform_account_id SET binding_id = c.binding_id. */
  function Joined<K, V>(t: Table<K, V>, creds: CredTable): Table<K, V>
    requires UniqueAcct(creds)
  {
    map h | h in t :: if Mapped(creds, t[h].acct) then t[h].(binding := JoinedBinding(creds, t[h].acct)) else t[h]
  }

  /** DROP COLUMN binding_id. */
  function Unbound<K, V>(t: Table<K, V>): Table<K, V> {
    map h | h in t :: t[h].(binding := None)
  }

  // ---------- the prechecks ----------

  predicate AllMigratable<K, V>(t: Table<K, V>) {
    forall h <- t :: Migratable(t[h].acct)
  }

  predicate AllMapped<K, V>(t: Table<K, V>, creds: CredTable) {
    forall h <- t :: Mapped(creds, t[h].acct)
  }

  predicate OneDefaultPerBinding(t: ProfileTable) {
    forall g <- t, h <- t {:trigger t[g].rest, t[h].rest} ::
      t[g].binding == t[h].binding && t[g].rest.isDefault && t[h].rest.isDefault ==> g == h
  }

  /** The keys that the tables carry before migration 000005. */
  predicate LegacyKeys(s: Schema) {
    && UniqueAcct(s.creds) && UniqueAcctKey(s.devices) && UniqueAcctKey(s.profiles) && UniqueAcctKey(s.artifacts)
    && NoBindings(s.creds) && NoBindings(s.devices) && NoBindings(s.profiles) && NoBindings(s.artifacts)
  }

  /** What a credential table is after migration 000005: account and binding determine each other. */
  predicate CredsBound(creds: CredTable) {
    UniqueAcct(creds) && NotNull(creds) && UniqueBinding(creds)
  }

  predicate Precheck5(s: Schema) {
    AllMigratable(s.creds) && UniqueBinding(Parsed(s.creds)) && AllMigratable(s.profiles)
  }

  predicate Precheck6(s: Schema) {
    UniqueBindingKey(s.profiles) && AllMapped(s.devices, s.creds)
  }

  /** Without the third precheck, on duplicate artifacts, which Up7Succeeds shows can never fire. */
  predicate Precheck7(s: Schema) {
    OneDefaultPerBinding(s.profiles) && AllMapped(s.artifacts, s.creds)
  }

  /** The rows are the same but for their bindings. */
  ghost predicate BindingsWritten<K, V>(before: Table<K, V>, after: Table<K, V>) {
    && (forall h <- before :: h in after) && (forall h <- after :: h in before)
    && forall h <- after :: after[h].acct == before[h].acct && after[h].key == before[h].key && after[h].rest == before[h].rest
  }

  /** Every row's binding is now what its account id says to SQL. */
  ghost predicate BindingsParsed<K, V>(before: Table<K, V>, after: Table<K, V>) {
    BindingsWritten(before, after) && forall h <- after :: after[h].binding.Some? && after[h].binding == SqlBindingID(before[h].acct)
  }

  /** No two account ids are parsed to the same binding. */
  predicate ParsedApart<K, V>(t: Table<K, V>) {
    forall g <- t, h <- t {:trigger t[g].acct, t[h].acct} :: SqlBindingID(t[g].acct) == SqlBindingID(t[h].acct) ==> g == h
  }

  // ---------- why no later statement can fail ----------

  lemma ParsedNotNull<K, V>(t: Table<K, V>)
    requires AllMigratable(t)
    ensures NotNull(Parsed(t))
  {
  }

  lemma ParsedRows<K, V>(t: Table<K, V>)
    requires NoBindings(t)
    ensures UniqueBinding(Parsed(t)) <==> ParsedApart(t)
    ensures AllMigratable(t) ==> BindingsParsed(t, Parsed(t))
  {
    var parsed := Parsed(t);
    assert forall h <- t :: parsed[h].acct == t[h].acct && parsed[h].binding == SqlBindingID(t[h].acct);
  }

  /** A joined table gets no NULL, and its account key carries over to the binding. */
  lemma JoinedKeys<K, V>(t: Table<K, V>, creds: CredTable)
    requires CredsBound(creds) && AllMapped(t, creds) && UniqueAcctKey(t)
    ensures NotNull(Joined(t, creds)) && UniqueBindingKey(Joined(t, creds))
  {
  }

  // ---------- the scripts ----------

  /** The database that the scripts run on. */
  class MigrationDb {
    var creds: CredTable
    var devices: DeviceTable
    var profiles: ProfileTable
    var artifacts: ArtifactTable

    constructor (s: Schema)
      ensures Rows() == s
    {
      creds, devices, profiles, artifacts := s.creds, s.devices, s.profiles, s.artifacts;
    }

    function Rows(): Schema
      reads this
    {
      Schema(creds, devices, profiles, artifacts)
    }

    /** 000005: the binding of credentials and profiles is parsed from their account ids. */
    method Up5() returns (r: Option<MigrationError>)
      requires LegacyKeys(Rows())
      modifies this
      ensures r.None? <==> Precheck5(old(Rows()))
      ensures r != Some(ConstraintFailed)
      ensures r.Some? ==> Rows() == old(Rows())
      ensures r.None? ==> Rows() == Up5Of(old(Rows())) && CredsBound(creds) && NotNull(profiles)
      // row by row: when it goes through, and what it writes
      ensures r.None? <==>
                && (forall h <- old(creds) :: Migratable(old(creds)[h].acct))
                && (forall h <- old(profiles) :: Migratable(old(profiles)[h].acct))
                && ParsedApart(old(creds))
      ensures r.None? ==> BindingsParsed(old(creds), creds) && BindingsParsed(old(profiles), profiles)
    {
      ParsedRows(creds);
      ParsedRows(profiles);
      if !AllMigratable(creds) {
        return Some(MalformedCredentials);
      }
      if !UniqueBinding(Parsed(creds)) {
        return Some(DuplicateParsedBindings);
      }
      if !AllMigratable(profiles) {
        return Some(MalformedProfiles);
      }
      ParsedNotNull(creds);
      ParsedNotNull(profiles);
      creds := Parsed(creds);
      if !NotNull(creds) || !UniqueBinding(creds) {
        return Some(ConstraintFailed);
      }
      profiles := Parsed(profiles);
      if !NotNull(profiles) {
        return Some(ConstraintFailed);
      }
      return None;
    }

    /** 000006: the binding of devices comes from their credential; both keys move to the binding. */
    method Up6() returns (r: Option<MigrationError>)
      requires CredsBound(creds) && UniqueAcctKey(devices) && NoBindings(devices)
      modifies this
      ensures r.None? <==> Precheck6(old(Rows()))
      ensures r != Some(ConstraintFailed)
      ensures r.Some? ==> Rows() == old(Rows())
      ensures r.None? ==> Rows() == Up6Of(old(Rows())) && NotNull(devices) && UniqueBindingKey(devices) && UniqueBindingKey(profiles)
      // row by row
      ensures r.None? <==>
                && (forall g <- profiles, h <- profiles {:trigger profiles[g].key, profiles[h].key} ::
                      profiles[g].binding == profiles[h].binding && profiles[g].key == profiles[h].key ==> g == h)
                && (forall h <- old(devices) :: exists c <- creds :: creds[c].acct == old(devices)[h].acct)
      ensures r.None? ==> BindingsWritten(old(devices), devices)
      ensures r.None? ==> forall h <- devices ::
                devices[h].binding.Some? && exists c <- creds :: creds[c].acct == devices[h].acct && creds[c].binding == devices[h].binding
    {
      if !UniqueBindingKey(profiles) {
        return Some(DuplicateProfiles);
      }
      if !AllMapped(devices, creds) {
        return Some(UnmappedDevices);
      }
      JoinedKeys(devices, creds);
      devices := Joined(devices, creds);
      if !NotNull(devices) || !UniqueBindingKey(devices) {
        return Some(ConstraintFailed);
      }
      if !UniqueBindingKey(profiles) {
        return Some(ConstraintFailed);
      }
      return None;
    }

    /** 000007: the binding of artifacts comes from their credential; one default profile per binding. */
    method Up7() returns (r: Option<MigrationError>)
      requires CredsBound(creds) && UniqueAcctKey(artifacts) && NoBindings(artifacts)
      modifies this
      ensures r.None? <==> Precheck7(old(Rows()))
      ensures r != Some(ConstraintFailed) && r != Some(DuplicateArtifacts)
      ensures r.Some? ==> Rows() == old(Rows())
      ensures r.None? ==> Rows() == Up7Of(old(Rows())) && NotNull(artifacts) && UniqueBindingKey(artifacts)
                          && OneDefaultPerBinding(profiles)
      // row by row
      ensures r.None? <==>
                && (forall g <- profiles, h <- profiles {:trigger profiles[g].rest, profiles[h].rest} ::
                      profiles[g].binding == profiles[h].binding && profiles[g].rest.isDefault && profiles[h].rest.isDefault ==> g == h)
                && (forall h <- old(artifacts) :: exists c <- creds :: creds[c].acct == old(artifacts)[h].acct)
      ensures r.None? ==> BindingsWritten(old(artifacts), artifacts)
      ensures r.None? ==> forall h <- artifacts ::
                artifacts[h].binding.Some? &&
                exists c <- creds :: creds[c].acct == artifacts[h].acct && creds[c].binding == artifacts[h].binding
    {
      if !OneDefaultPerBinding(profiles) {
        return Some(MultipleDefaults);
      }
      if !AllMapped(artifacts, creds) {
        return Some(UnmappedArtifacts);
      }
      JoinedKeys(artifacts, creds);
      if !UniqueBindingKey(Joined(artifacts, creds)) {
        return Some(DuplicateArtifacts);
      }
      if !OneDefaultPerBinding(profiles) {
        return Some(ConstraintFailed);
      }
      artifacts := Joined(artifacts, creds);
      if !NotNull(artifacts) || !UniqueBindingKey(artifacts) {
        return Some(ConstraintFailed);
      }
      return None;
    }

    /** Rolls 000007 back: the artifact key returns to the account, after a precheck. */
    method Down7() returns (r: Option<MigrationError>)
      modifies this
      ensures r == if UniqueAcctKey(old(artifacts)) then None else Some(DuplicatePlatformArtifacts)
      ensures Rows() == if r.None? then Down7Of(old(Rows())) else old(Rows())
      ensures r.None? ==> UniqueAcctKey(artifacts) && NoBindings(artifacts)
      // row by row
      ensures r.None? <==> forall g <- old(artifacts), h <- old(artifacts) {:trigger old(artifacts)[g].key, old(artifacts)[h].key} ::
                old(artifacts)[g].acct == old(artifacts)[h].acct && old(artifacts)[g].key == old(artifacts)[h].key ==> g == h
      ensures r.None? ==> BindingsWritten(old(artifacts), artifacts) && forall h <- artifacts :: artifacts[h].binding.None?
    {
      if !UniqueAcctKey(artifacts) {
        return Some(DuplicatePlatformArtifacts);
      }
      UnboundKeys(artifacts);
      artifacts := Unbound(artifacts);
      return None;
    }

    /** Rolls 000006 back: both keys return to the account, without any precheck. */
    method Down6() returns (r: Option<MigrationError>)
      modifies this
      ensures r == if UniqueAcctKey(old(profiles)) && UniqueAcctKey(old(devices)) then None else Some(ConstraintFailed)
      ensures Rows() == if r.None? then Down6Of(old(Rows())) else old(Rows())
      ensures r.None? ==> UniqueAcctKey(devices) && NoBindings(devices)
      // row by row
      ensures r.None? <==>
                && (forall g <- profiles, h <- profiles {:trigger profiles[g].key, profiles[h].key} ::
                      profiles[g].acct == profiles[h].acct && profiles[g].key == profiles[h].key ==> g == h)
                && (forall g <- old(devices), h <- old(devices) {:trigger old(devices)[g].key, old(devices)[h].key} ::
                      old(devices)[g].acct == old(devices)[h].acct && old(devices)[g].key == old(devices)[h].key ==> g == h)
      ensures r.None? ==> BindingsWritten(old(devices), devices) && forall h <- devices :: devices[h].binding.None?
    {
      if !UniqueAcctKey(profiles) {
        return Some(ConstraintFailed);
      }
      if !UniqueAcctKey(devices) {
        return Some(ConstraintFailed);
      }
      UnboundKeys(devices);
      devices := Unbound(devices);
      return None;
    }

    /** Rolls 000005 back. */
    method Down5()
      modifies this
      ensures Rows() == Down5Of(old(Rows()))
      ensures BindingsWritten(old(creds), creds) && forall h <- creds :: creds[h].binding.None?
      ensures BindingsWritten(old(profiles), profiles) && forall h <- profiles :: profiles[h].binding.None?
    {
      profiles := Unbound(profiles);
      creds := Unbound(creds);
    }
  }

  lemma UnboundKeys<K, V>(t: Table<K, V>)
    ensures UniqueAcctKey(t) <==> UniqueAcctKey(Unbound(t))
    ensures NoBindings(Unbound(t))
  {
    var u := Unbound(t);
    assert forall h <- t :: u[h].key == t[h].key && u[h].acct == t[h].acct;
  }

  // ---------- what the scripts do, as functions ----------

  function Up5Of(s: Schema): Schema {
    s.(creds := Parsed(s.creds), profiles := Parsed(s.profiles))
  }

  function Up6Of(s: Schema): Schema
    requires UniqueAcct(s.creds)
  {
    s.(devices := Joined(s.devices, s.creds))
  }

  function Up7Of(s: Schema): Schema
    requires UniqueAcct(s.creds)
  {
    s.(artifacts := Joined(s.artifacts, s.creds))
  }

  function Down7Of(s: Schema): Schema {
    s.(artifacts := Unbound(s.artifacts))
  }

  function Down6Of(s: Schema): Schema {
    s.(devices := Unbound(s.devices))
  }

  function Down5Of(s: Schema): Schema {
    s.(creds := Unbound(s.creds), profiles := Unbound(s.profiles))
  }

  // ---------- key agreement after the migrations ----------

  predicate RowsNamed<K, V>(t: Table<K, V>) {
    forall h <- t :: t[h].binding.Some? && Names(t[h].acct, t[h].binding.value)
  }

  predicate NumbersFit<K, V>(t: Table<K, V>) {
    forall h <- t :: Migratable(t[h].acct) && WrittenNumber(t[h].acct) < TWO_TO_THE_64
  }

  /** Parsed bindings are those of the Go parser exactly when every written number fits 64 bits. */
  lemma ParsedNamedIff<K, V>(t: Table<K, V>)
    requires AllMigratable(t) && NoBindings(t)
    ensures RowsNamed(Parsed(t)) <==> NumbersFit(t)
  {
    var parsed := Parsed(t);
    forall h | h in t
      ensures parsed[h].binding.Some? && (Names(t[h].acct, parsed[h].binding.value) <==> WrittenNumber(t[h].acct) < TWO_TO_THE_64)
    {
      SqlAgreesWithGo(t[h].acct);
    }
    assert RowsNamed(parsed) ==> NumbersFit(t) by {
      if RowsNamed(parsed) {
        forall h | h in t ensures WrittenNumber(t[h].acct) < TWO_TO_THE_64 {
          assert h in parsed && parsed[h].acct == t[h].acct;
        }
      }
    }
  }

  lemma JoinedNamed<K, V>(t: Table<K, V>, creds: CredTable)
    requires CredsBound(creds) && RowsNamed(creds) && AllMapped(t, creds)
    ensures RowsNamed(Joined(t, creds))
  {
  }

  /** All three migrations go through. */
  predicate Migrates(s: Schema) {
    LegacyKeys(s) && Precheck5(s) && Precheck6(Up5Of(s)) && Precheck7(Up6Of(Up5Of(s)))
  }

  function Migrated(s: Schema): Schema
    requires UniqueAcct(s.creds)
  {
    ParsedAccts(s.creds);
    Up7Of(Up6Of(Up5Of(s)))
  }

  lemma ParsedAccts<K, V>(t: Table<K, V>)
    ensures UniqueAcct(t) ==> UniqueAcct(Parsed(t))
  {
  }

  /**
  When the prechecks pass, key agreement holds in all four tables exactly when every number
  written in a credential's or profile's account id fits 64 bits.
  */
  lemma MigratedNamedIff(s: Schema)
    requires Migrates(s)
    ensures var m := Migrated(s);
            RowsNamed(m.creds) && RowsNamed(m.devices) && RowsNamed(m.profiles) && RowsNamed(m.artifacts)
            <==> NumbersFit(s.creds) && NumbersFit(s.profiles)
  {
    ParsedAccts(s.creds);
    ParsedNotNull(s.creds);
    ParsedNamedIff(s.creds);
    ParsedNamedIff(s.profiles);
    var creds := Parsed(s.creds);
    if RowsNamed(creds) {
      JoinedNamed(s.devices, creds);
      JoinedNamed(s.artifacts, creds);
    }
  }

  /** Every row has the account and the binding of some credential. */
  predicate RowsOwned<K, V>(creds: CredTable, t: Table<K, V>) {
    forall h <- t :: exists c <- creds :: creds[c].acct == t[h].acct && creds[c].binding == t[h].binding
  }

  lemma JoinedOwned<K, V>(t: Table<K, V>, creds: CredTable)
    requires UniqueAcct(creds) && AllMapped(t, creds)
    ensures RowsOwned(creds, Joined(t, creds))
  {
  }

  /**
  Agreement with the credential is another matter: devices and artifacts get it from the join,
  profiles have it exactly when every profile's account is some credential's account, which no
  precheck looks at.
  */
  lemma MigratedOwnedIff(s: Schema)
    requires Migrates(s)
    ensures var m := Migrated(s);
            && RowsOwned(m.creds, m.devices) && RowsOwned(m.creds, m.artifacts)
            && (RowsOwned(m.creds, m.profiles) <==> AllMapped(s.profiles, s.creds))
  {
    ParsedAccts(s.creds);
    var creds := Parsed(s.creds);
    JoinedOwned(s.devices, creds);
    JoinedOwned(s.artifacts, creds);
    ProfilesOwnedIff(s.profiles, s.creds);
  }

  /** Two rows with one account are parsed to one binding. */
  lemma ProfilesOwnedIff<K, V>(t: Table<K, V>, creds: CredTable)
    requires NoBindings(t) && NoBindings(creds)
    ensures RowsOwned(Parsed(creds), Parsed(t)) <==> AllMapped(t, creds)
  {
    var parsed, bound := Parsed(t), Parsed(creds);
    if RowsOwned(bound, parsed) {
      forall h | h in t ensures Mapped(creds, t[h].acct) {
        assert h in parsed;
        var c :| c in bound && bound[c].acct == parsed[h].acct && bound[c].binding == parsed[h].binding;
        assert creds[c].acct == t[h].acct;
      }
    }
    if AllMapped(t, creds) {
      forall h | h in parsed ensures exists c <- bound :: bound[c].acct == parsed[h].acct && bound[c].binding == parsed[h].binding {
        assert Mapped(creds, t[h].acct);
        var c :| c in creds && creds[c].acct == t[h].acct;
        assert bound[c].acct == parsed[h].acct && bound[c].binding == parsed[h].binding;
      }
    }
  }
}
