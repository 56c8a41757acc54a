/**
The migrations and the service's states: rolling back, migrating again, and what a migrated
database can still refuse.
*/
module MigrationLaws {
  import opened Basics
  import opened AccountKey
  import opened Db
  import opened Migrations
  import BindSpec
  import BindLaws
  import DeviceRepo
  import Runs

  function CredRows(creds: map<uint64, Cred>): CredTable {
    map b | b in creds :: OfCred(b) := Row(Some(b), creds[b].acct, (creds[b].platform, creds[b].accountId), creds[b])
  }

  function DeviceRows(devices: map<DKey, Dev>): DeviceTable {
    map k | k in devices :: OfDevice(k) := Row(Some(k.binding), devices[k].acct, k.device, devices[k])
  }

  function ProfileRows(profiles: map<PKey, Prof>): ProfileTable {
    map k | k in profiles :: OfProfile(k) := Row(Some(k.binding), profiles[k].acct, (k.player, k.region), profiles[k])
  }

  function ArtifactRows(artifacts: map<AKey, Art>): ArtifactTable {
    map k | k in artifacts :: OfArtifact(k) := Row(Some(k.binding), artifacts[k].acct, (k.kind, k.scope), artifacts[k])
  }

  /** The tables of the service as the scripts see them. */
  function FromTables(t: Tables): Schema {
    Schema(CredRows(t.creds), DeviceRows(t.devices), ProfileRows(t.profiles), ArtifactRows(t.artifacts))
  }

  lemma FromTablesNamed(t: Tables)
    requires KeyAgree(t)
    ensures var s := FromTables(t); RowsNamed(s.creds) && RowsNamed(s.devices) && RowsNamed(s.profiles) && RowsNamed(s.artifacts)
    ensures var s := FromTables(t); UniqueBindingKey(s.devices) && UniqueBindingKey(s.profiles) && UniqueBindingKey(s.artifacts)
  {
  }

  /**
  From every state that any interleaving of requests can reach, rolling 000007 back never trips
  its precheck, and rolling 000006 back never breaks the account keys it restores unchecked.
  */
  lemma RollbackNeverFails(t: Tables)
    requires KeyAgree(t)
    ensures var s := FromTables(t);
            UniqueAcctKey(s.artifacts) && UniqueAcctKey(Down7Of(s).profiles) && UniqueAcctKey(Down7Of(s).devices)
    ensures forall k <- t.artifacts, l <- t.artifacts {:trigger t.artifacts[k].acct, t.artifacts[l].acct} ::
              t.artifacts[k].acct == t.artifacts[l].acct && k.kind == l.kind && k.scope == l.scope ==> k == l
    ensures forall k <- t.profiles, l <- t.profiles {:trigger t.profiles[k].acct, t.profiles[l].acct} ::
              t.profiles[k].acct == t.profiles[l].acct && k.player == l.player && k.region == l.region ==> k == l
    ensures forall k <- t.devices, l <- t.devices {:trigger t.devices[k].acct, t.devices[l].acct} ::
              t.devices[k].acct == t.devices[l].acct && k.device == l.device ==> k == l
  {
  }

  /** All three rollbacks in a row, from a state of the service. */
  method RollBack(db: MigrationDb, ghost t: Tables)
    requires KeyAgree(t) && db.Rows() == FromTables(t)
    modifies db
    ensures db.Rows() == Down5Of(Down6Of(Down7Of(FromTables(t))))
  {
    RollbackNeverFails(t);
    var r := db.Down7();
    r := db.Down6();
    db.Down5();
  }

  // ---------- rolling back and migrating again ----------

  lemma Reparsed<K, V>(t: Table<K, V>)
    requires RowsNamed(t) && AllMigratable(t)
    ensures Parsed(Unbound(t)) == t
  {
    forall h | h in t ensures SqlBindingID(t[h].acct) == t[h].binding {
      SqlAgreesWithGo(t[h].acct);
    }
  }

  lemma Rejoined<K, V>(t: Table<K, V>, creds: CredTable)
    requires UniqueAcct(creds) && RowsOwned(creds, t)
    ensures AllMapped(Unbound(t), creds) && Joined(Unbound(t), creds) == t
  {
  }

  lemma OwnedRows<K, V>(creds: map<uint64, Cred>, rows: Table<K, V>)
    requires forall h <- rows :: rows[h].binding.Some? && Owns(creds, rows[h].binding.value, rows[h].acct)
    ensures RowsOwned(CredRows(creds), rows)
  {
    var bound := CredRows(creds);
    forall h | h in rows ensures exists c <- bound :: bound[c].acct == rows[h].acct && bound[c].binding == rows[h].binding {
      var c := OfCred(rows[h].binding.value);
      assert c in bound && bound[c].acct == rows[h].acct && bound[c].binding == rows[h].binding;
    }
  }

  lemma DevicesOwned(creds: map<uint64, Cred>, devices: map<DKey, Dev>)
    requires DevsOwned(creds, devices)
    ensures RowsOwned(CredRows(creds), DeviceRows(devices))
  {
    OwnedRows(creds, DeviceRows(devices));
  }

  lemma ArtifactsOwned(creds: map<uint64, Cred>, artifacts: map<AKey, Art>)
    requires ArtsOwned(creds, artifacts)
    ensures RowsOwned(CredRows(creds), ArtifactRows(artifacts))
  {
    OwnedRows(creds, ArtifactRows(artifacts));
  }

  lemma FromTablesCredsBound(t: Tables)
    requires CredsNamed(t.creds)
    ensures CredsBound(FromTables(t).creds)
  {
  }

  lemma FromTablesOneDefault(t: Tables)
    requires OneDefault(t.profiles)
    ensures OneDefaultPerBinding(FromTables(t).profiles)
  {
  }

  /** Devices and artifacts belong to their binding's credential. Nothing is asked of profiles. */
  predicate JoinsAgree(t: Tables) {
    KeyAgree(t) && DevsOwned(t.creds, t.devices) && ArtsOwned(t.creds, t.artifacts)
  }

  /** Rolling back 000007 and 000006 and migrating again passes every precheck and restores every binding. */
  lemma TwoStepRoundTrip(t: Tables)
    requires JoinsAgree(t) && OneDefault(t.profiles)
    ensures var s := FromTables(t);
            var d := Down6Of(Down7Of(s));
            && UniqueAcct(d.creds) && Precheck6(d) && Precheck7(Up6Of(d)) && Up7Of(Up6Of(d)) == s
  {
    var s := FromTables(t);
    FromTablesNamed(t);
    DevicesOwned(t.creds, t.devices);
    ArtifactsOwned(t.creds, t.artifacts);
    FromTablesCredsBound(t);
    FromTablesOneDefault(t);
    Rejoined(s.devices, s.creds);
    Rejoined(s.artifacts, s.creds);
  }

  lemma UnboundMigratable<K, V>(t: Table<K, V>)
    ensures AllMigratable(Unbound(t)) <==> AllMigratable(t)
  {
    assert forall h <- t :: Unbound(t)[h].acct == t[h].acct;
  }

  lemma UnboundAccts<K, V>(t: Table<K, V>)
    requires UniqueAcct(t)
    ensures UniqueAcct(Unbound(t))
  {
  }

  /** Rolling everything back leaves the keys that the first migration expects. */
  lemma RolledBackKeys(t: Tables)
    requires KeyAgree(t)
    ensures LegacyKeys(Down5Of(Down6Of(Down7Of(FromTables(t)))))
  {
    var s := FromTables(t);
    RollbackNeverFails(t);
    FromTablesCredsBound(t);
    UnboundAccts(s.creds);
    UnboundKeys(s.creds);
    UnboundKeys(s.devices);
    UnboundKeys(s.profiles);
    UnboundKeys(s.artifacts);
  }

  /** Parsing again restores the bindings that rolling 000005 back dropped. */
  lemma BackToTwoSteps(s: Schema)
    requires RowsNamed(s.creds) && RowsNamed(s.profiles) && CredsBound(s.creds)
    requires AllMigratable(s.creds) && AllMigratable(s.profiles)
    ensures var d := Down5Of(Down6Of(Down7Of(s))); Precheck5(d) && Up5Of(d) == Down6Of(Down7Of(s))
  {
    UnboundMigratable(s.creds);
    UnboundMigratable(s.profiles);
    Reparsed(s.creds);
    Reparsed(s.profiles);
  }

  /**
  Rolling all three back and migrating again goes through exactly when the account ids of
  credentials and profiles have the shape that 000005 demands, and then it restores the tables.
  */
  lemma FullRoundTrip(t: Tables)
    requires JoinsAgree(t) && OneDefault(t.profiles)
    ensures var s := FromTables(t);
            var d := Down5Of(Down6Of(Down7Of(s)));
            && (Migrates(d) <==> AllMigratable(s.creds) && AllMigratable(s.profiles))
            && (Migrates(d) ==> Migrated(d) == s)
  {
    var s := FromTables(t);
    RolledBackKeys(t);
    UnboundMigratable(s.creds);
    UnboundMigratable(s.profiles);
    if AllMigratable(s.creds) && AllMigratable(s.profiles) {
      FromTablesNamed(t);
      FromTablesCredsBound(t);
      BackToTwoSteps(s);
      TwoStepRoundTrip(t);
    }
  }

  lemma RowsMigratable(t: Tables)
    requires forall b <- t.creds :: Migratable(t.creds[b].acct)
    requires forall k <- t.profiles :: Migratable(t.profiles[k].acct)
    ensures AllMigratable(FromTables(t).creds) && AllMigratable(FromTables(t).profiles)
  {
  }

  lemma MigratableRows(t: Tables)
    requires AcctAgree(t)
    ensures AllMigratable(FromTables(t).creds) && AllMigratable(FromTables(t).profiles)
            <==> forall b <- t.creds :: Migratable(t.creds[b].acct)
  {
    if AllMigratable(FromTables(t).creds) {
      var creds := FromTables(t).creds;
      forall b | b in t.creds ensures Migratable(t.creds[b].acct) {
        assert OfCred(b) in creds && creds[OfCred(b)].acct == t.creds[b].acct;
      }
    }
    if forall b <- t.creds :: Migratable(t.creds[b].acct) {
      forall k | k in t.profiles ensures Migratable(t.profiles[k].acct) {
        assert Owns(t.creds, k.binding, t.profiles[k].acct);
      }
      RowsMigratable(t);
    }
  }

  /**
  For the accounts that the service itself writes, that shape only asks that the upstream
  client never returned an empty account id.
  */
  lemma ServiceRoundTrip(t: Tables)
    requires AcctAgree(t) && OneDefault(t.profiles) && Runs.Formatted(t)
    ensures Migrates(Down5Of(Down6Of(Down7Of(FromTables(t))))) <==> forall b <- t.creds :: t.creds[b].accountId != ""
  {
    AcctAgreeImpliesKeyAgree(t);
    FullRoundTrip(t);
    MigratableRows(t);
    forall b | b in t.creds ensures Migratable(t.creds[b].acct) <==> t.creds[b].accountId != "" {
      FormattedMigratable(b, t.creds[b].accountId);
      assert Names(t.creds[b].acct, b);
    }
  }

  // ---------- what the prechecks let through ----------

  const LeftoverCred := Cred(7, "binding_7_1", "mihomo", "1", "r", Foreign(""), "v1", "active", None, None, None)
  const LeftoverProfile := Prof(1, "hoyo_ref_7_9", "g", "n", 1, true, 0)

  /** A binding with a credential and a default profile left over from another account id of that binding. */
  function Leftover(k: PKey): Tables
    requires k.binding == 7
  {
    Tables(map[7 := LeftoverCred], map[], map[k := LeftoverProfile], map[])
  }

  lemma LeftoverNames()
    ensures BindingIDFromPlatformAccountID("binding_7_1") == Some(7) && Migratable("binding_7_1")
    ensures BindingIDFromPlatformAccountID("hoyo_ref_7_9") == Some(7) && Migratable("hoyo_ref_7_9")
  {
    assert Dec(7) == "7";
    assert "binding_7_1" == FormatPlatformAccountID(7, "1");
    ParseFormat(7, "1");
    FormattedMigratable(7, "1");
    assert "hoyo_ref_7_9"[|LEGACY_PREFIX|..] == "7" + "_" + "9";
    BindingIDPartOf("7", "9");
    NatOfDec(7);
    assert !(BINDING_PREFIX <= "hoyo_ref_7_9") by {
      assert "hoyo_ref_7_9"[0] == 'h' && BINDING_PREFIX[0] == 'b';
    }
    assert "hoyo_ref_7_9"[|LEGACY_PREFIX|..10] == "7";
    assert MatchesAt(LEGACY_PREFIX, "hoyo_ref_7_9", 10);
  }

  lemma LeftoverNamed(k: PKey)
    requires k.binding == 7
    ensures JoinsAgree(Leftover(k))
  {
    LeftoverNames();
  }

  lemma LeftoverNotOwned(k: PKey)
    requires k.binding == 7
    ensures !ProfsOwned(Leftover(k).creds, Leftover(k).profiles)
  {
    var t := Leftover(k);
    assert k in t.profiles && !Owns(t.creds, 7, "hoyo_ref_7_9") by {
      assert "hoyo_ref_7_9"[0] != "binding_7_1"[0];
    }
  }

  lemma LeftoverOk(k: PKey)
    requires k.binding == 7
    ensures DbOk(Leftover(k), 2)
  {
  }

  lemma LeftoverAgrees(k: PKey)
    requires k.binding == 7
    ensures var t := Leftover(k); JoinsAgree(t) && !AcctAgree(t) && DbOk(t, 2)
  {
    LeftoverNamed(k);
    LeftoverNotOwned(k);
    LeftoverOk(k);
  }

  /** Some legacy database passes every precheck and migrates to it; its rows are named by their accounts, but not owned. */
  lemma LeftoverMigrates(k: PKey) returns (d: Schema)
    requires k.binding == 7
    ensures Migrates(d) && Migrated(d) == FromTables(Leftover(k))
    ensures KeyAgree(Leftover(k)) && !AcctAgree(Leftover(k)) && DbOk(Leftover(k), 2)
  {
    LeftoverAgrees(k);
    LeftoverMigratable(k);
    FullRoundTrip(Leftover(k));
    d := Down5Of(Down6Of(Down7Of(FromTables(Leftover(k)))));
  }

  lemma LeftoverMigratable(k: PKey)
    requires k.binding == 7
    ensures AllMigratable(FromTables(Leftover(k)).creds) && AllMigratable(FromTables(Leftover(k)).profiles)
  {
    LeftoverNames();
    RowsMigratable(Leftover(k));
  }

  /**
  So agreement after migration is not for free: in this migrated database, rebinding the
  account with any other first profile is refused for a second default, at every time.
  */
  lemma LeftoverRefusesBind(k: PKey, input: BindSpec.BindInput, prep: BindSpec.Preparation, at: int)
    requires k.binding == 7 && BindSpec.PreparedFor(input, prep) && input.binding == 7 && prep.accountId == "1"
    requires |prep.profiles| > 0 && BindSpec.IdentityAt(input, prep, 0) != k
    ensures BindSpec.BindOutcome(Leftover(k), 2, input, prep, at) == Err(DefaultProfileAlreadyExists)
  {
    assert Dec(7) == "7";
    assert prep.acct == "binding_7_1";
    var t := Leftover(k);
    assert k in t.profiles && t.profiles[k].acct != prep.acct by {
      assert "hoyo_ref_7_9"[0] != "binding_7_1"[0];
    }
    BindLaws.DefaultRefusedIff(t, 2, input, prep, at);
  }
}
