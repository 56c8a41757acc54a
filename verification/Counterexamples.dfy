/**
Concrete inputs on which the service does not do what one would expect: states it reaches, ids
it accepts, and what then goes wrong. The exact conditions are stated beside the code they are about.
*/
module Counterexamples {
  import opened Basics
  import opened AccountKey
  import opened Db
  import opened BindSpec
  import BindLaws
  import BindUsecase
  import CredentialRepo
  import ProfileRepo

  const INPUT := BindInput(1, "cookies", "device", "fp", "", "")

  function Profile(player: string, region: string): Discovered {
    Discovered("hkrpg", region, player, "nickname", 1)
  }

  /** The preparation for the upstream account "a" of binding 1. */
  function Prepared(profiles: seq<Discovered>): (prep: Preparation)
    ensures PreparedFor(INPUT, prep) && prep.profiles == profiles && prep.accountId == "a"
  {
    Preparation(FormatPlatformAccountID(1, "a"), "a", "", profiles, Sealed("nonce", "cookies"))
  }

  /** The first bind of an empty store, with these profiles. */
  lemma FirstBind(profiles: seq<Discovered>, at: int) returns (t: Tables, nextId: nat)
    ensures BindOutcome(EmptyTables, 1, INPUT, Prepared(profiles), at) == Ok((t, nextId))
    ensures AcctAgree(t) && DbOk(t, nextId)
    ensures t.creds == map[1 := NewCred(INPUT, Prepared(profiles), at)]
  {
    var prep := Prepared(profiles);
    BindLaws.BindLeavesExactly(EmptyTables, 1, INPUT, prep, at);
    BindLaws.BindKeepsInvariants(EmptyTables, 1, INPUT, prep, at);
    t, nextId := BindOutcome(EmptyTables, 1, INPUT, prep, at).value.0, BindOutcome(EmptyTables, 1, INPUT, prep, at).value.1;
  }

  /** A first bind that discovers one player in two regions leaves a player whom no confirm can choose. */
  lemma TwoRegionsCannotBeConfirmed(at: int)
    ensures var r := BindOutcome(EmptyTables, 1, INPUT, Prepared([Profile("p", "eu"), Profile("p", "us")]), at);
            && r.Ok?
            && ProfileRepo.SetDefaultOutcome(r.value.0.profiles, 1, FormatPlatformAccountID(1, "a"), "p")
               == Some(DefaultProfileAlreadyExists)
  {
    var prep := Prepared([Profile("p", "eu"), Profile("p", "us")]);
    var t, nextId := FirstBind(prep.profiles, at);
    assert BindLaws.PlayerAt(prep, "p", 0) && BindLaws.PlayerAt(prep, "p", 1);
    assert "eu"[0] != "us"[0];
    BindLaws.ConfirmableIff(EmptyTables, 1, INPUT, prep, at, "p");
  }

  /**
  After a first bind, a rebind of the same account whose device cannot be saved, without a
  transaction: its compensation, although nothing else fails, deletes the credential.
  */
  lemma SameAccountRebindLosesCredential(at: int, later: int)
    ensures var prep := Prepared([]);
            var r := BindOutcome(EmptyTables, 1, INPUT, prep, at);
            && r.Ok? && 1 in r.value.0.creds
            && var stopped := Started(r.value.0, INPUT, prep, later);
               var existing := CredentialRepo.FindByBinding(r.value.0.creds, 1);
               BindUsecase.Compensated(stopped, existing, prep.acct, Previous(r.value.0.creds, 1, prep.acct)).creds == map[]
  {
    var t, nextId := FirstBind([], at);
    assert Started(t, INPUT, Prepared([]), later).creds == map[1 := NewCred(INPUT, Prepared([]), later)];
  }

  /** An id that migration 000005 accepts, whose number SQL clamps to one binding and Go rejects. */
  lemma TwoToThe64IsClamped()
    ensures var acct := BINDING_PREFIX + Dec(TWO_TO_THE_64) + "_" + "a";
            && Migratable(acct)
            && SqlBindingID(acct) == Some(TWO_TO_THE_64 - 1) && BindingIDFromPlatformAccountID(acct) == None
  {
    HugeNumberIsClamped(TWO_TO_THE_64, "a");
  }

  /** In an agreeing state the row-by-row delete keeps a stale row that the by-binding delete removes. */
  lemma LoopKeepsAStaleRow()
    ensures var k, row := PKey(1, "1", "a:b"), Prof(1, FormatPlatformAccountID(1, "a"), "", "", 1, false, 0);
            var t := Tables(map[1 := NewCred(INPUT, Prepared([]), 0)], map[], map[k := row], map[]);
            var keep := [ProfileRepo.Identity("1:a", "b")];
            && AcctAgree(t) && DbOk(t, 2)
            && ProfileRepo.KeptByBinding(t.profiles, 1, keep) == map[]
            && ProfileRepo.KeptByAccount(t.profiles, t.creds[1].acct, keep) == t.profiles
  {
    ParseFormat(1, "a");
    ProfileRepo.JoinedKeysCollide();
    assert ProfileRepo.Identity("1:a", "b") in [ProfileRepo.Identity("1:a", "b")] && |"1:a"| != |"1"|;
  }
}
