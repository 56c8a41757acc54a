/**
The two families of Redis keys of internal/data/artifact_repo.go: one by account, one by
binding, and when a key names one artifact only.
*/
module CacheKeys {
  import opened Basics
  import opened AccountKey

  function KeyByAccount(prefix: string, acct: string, kind: string, scope: string): string {
    prefix + "artifact:" + acct + ":" + kind + ":" + scope
  }

  function KeyByBinding(prefix: string, binding: uint64, kind: string, scope: string): string {
    prefix + "artifact:binding:" + Dec(binding) + ":" + kind + ":" + scope
  }

  lemma DropPrefix(prefix: string, rest1: string, rest2: string)
    requires prefix + rest1 == prefix + rest2
    ensures rest1 == rest2
  {
    assert rest1 == (prefix + rest1)[|prefix|..];
    assert rest2 == (prefix + rest2)[|prefix|..];
  }

  /** Colon-free accounts and types: an account key names one (account, type, scope). */
  lemma AccountKeysInjective(prefix: string, acct1: string, kind1: string, scope1: string,
                             acct2: string, kind2: string, scope2: string)
    requires ':' !in acct1 && ':' !in kind1 && ':' !in acct2 && ':' !in kind2
    requires KeyByAccount(prefix, acct1, kind1, scope1) == KeyByAccount(prefix, acct2, kind2, scope2)
    ensures acct1 == acct2 && kind1 == kind2 && scope1 == scope2
  {
    var rest1, rest2 := kind1 + [':'] + scope1, kind2 + [':'] + scope2;
    var stem := prefix + "artifact:";
    assert KeyByAccount(prefix, acct1, kind1, scope1) == stem + (acct1 + [':'] + rest1);
    assert KeyByAccount(prefix, acct2, kind2, scope2) == stem + (acct2 + [':'] + rest2);
    DropPrefix(stem, acct1 + [':'] + rest1, acct2 + [':'] + rest2);
    SplitUnique(':', acct1, rest1, acct2, rest2);
    SplitUnique(':', kind1, scope1, kind2, scope2);
  }

  /** Colon-free types: a binding key names one (binding, type, scope). */
  lemma BindingKeysInjective(prefix: string, binding1: uint64, kind1: string, scope1: string,
                             binding2: uint64, kind2: string, scope2: string)
    requires ':' !in kind1 && ':' !in kind2
    requires KeyByBinding(prefix, binding1, kind1, scope1) == KeyByBinding(prefix, binding2, kind2, scope2)
    ensures binding1 == binding2 && kind1 == kind2 && scope1 == scope2
  {
    var rest1, rest2 := kind1 + [':'] + scope1, kind2 + [':'] + scope2;
    var stem := prefix + "artifact:binding:";
    assert KeyByBinding(prefix, binding1, kind1, scope1) == stem + (Dec(binding1) + [':'] + rest1);
    assert KeyByBinding(prefix, binding2, kind2, scope2) == stem + (Dec(binding2) + [':'] + rest2);
    DropPrefix(stem, Dec(binding1) + [':'] + rest1, Dec(binding2) + [':'] + rest2);
    DigitsFree(Dec(binding1), ':');
    DigitsFree(Dec(binding2), ':');
    SplitUnique(':', Dec(binding1), rest1, Dec(binding2), rest2);
    SplitUnique(':', kind1, scope1, kind2, scope2);
    NatOfDec(binding1);
    NatOfDec(binding2);
  }

  /** An account that the parser accepts never produces a binding key. */
  lemma FamiliesDisjoint(prefix: string, acct: string, kind1: string, scope1: string,
                         binding: uint64, kind2: string, scope2: string)
    requires BindingIDFromPlatformAccountID(acct).Some?
    ensures KeyByAccount(prefix, acct, kind1, scope1) != KeyByBinding(prefix, binding, kind2, scope2)
  {
    var stem := prefix + "artifact:";
    var key1, key2 := KeyByAccount(prefix, acct, kind1, scope1), KeyByBinding(prefix, binding, kind2, scope2);
    assert key2[|stem|..] == "binding:" + Dec(binding) + ":" + kind2 + ":" + scope2;
    assert key1[|stem|..] == acct + (":" + kind1 + ":" + scope1);
    ParsedPrefix(acct);
    if BINDING_PREFIX <= acct {
      assert key1[|stem|..][7] == acct[7] == BINDING_PREFIX[7] == '_';
    } else {
      assert key1[|stem|..][0] == acct[0] == LEGACY_PREFIX[0] == 'h';
    }
  }

  // ---------- exactly when keys collide ----------

  /** What a key says before its scope. */
  function Stem(owner: string, kind: string): string {
    owner + ":" + kind + ":"
  }

  /** The owner that a binding key spells. */
  function BindingOwner(binding: uint64): string {
    "binding:" + Dec(binding)
  }

  predicate Comparable(stem1: string, stem2: string) {
    stem1 <= stem2 || stem2 <= stem1
  }

  lemma KeyByStem(prefix: string, acct: string, binding: uint64, kind: string, scope: string)
    ensures KeyByAccount(prefix, acct, kind, scope) == prefix + "artifact:" + (Stem(acct, kind) + scope)
    ensures KeyByBinding(prefix, binding, kind, scope) == KeyByAccount(prefix, BindingOwner(binding), kind, scope)
  {
    assert "artifact:binding:" == "artifact:" + "binding:";
    assert prefix + "artifact:binding:" + Dec(binding) + ":" + kind + ":" + scope
        == prefix + "artifact:" + ("binding:" + Dec(binding)) + ":" + kind + ":" + scope;
  }

  /** Equal texts have comparable beginnings. */
  lemma ComparableStems(stem1: string, scope1: string, stem2: string, scope2: string)
    requires stem1 + scope1 == stem2 + scope2
    ensures Comparable(stem1, stem2)
  {
    var whole := stem1 + scope1;
    assert stem1 == whole[..|stem1|] && stem2 == whole[..|stem2|];
  }

  lemma EqualKeysAreComparable(prefix: string, acct1: string, kind1: string, scope1: string,
                               acct2: string, kind2: string, scope2: string)
    requires KeyByAccount(prefix, acct1, kind1, scope1) == KeyByAccount(prefix, acct2, kind2, scope2)
    ensures Comparable(Stem(acct1, kind1), Stem(acct2, kind2))
  {
    KeyByStem(prefix, acct1, 0, kind1, scope1);
    KeyByStem(prefix, acct2, 0, kind2, scope2);
    DropPrefix(prefix + "artifact:", Stem(acct1, kind1) + scope1, Stem(acct2, kind2) + scope2);
    ComparableStems(Stem(acct1, kind1), scope1, Stem(acct2, kind2), scope2);
  }

  lemma ComparableKeysMeet(prefix: string, acct1: string, kind1: string, acct2: string, kind2: string)
    returns (scope1: string, scope2: string)
    requires Comparable(Stem(acct1, kind1), Stem(acct2, kind2))
    ensures KeyByAccount(prefix, acct1, kind1, scope1) == KeyByAccount(prefix, acct2, kind2, scope2)
  {
    var stem1, stem2 := Stem(acct1, kind1), Stem(acct2, kind2);
    scope1 := if stem1 <= stem2 then stem2[|stem1|..] else "";
    scope2 := if stem1 <= stem2 then "" else stem1[|stem2|..];
    KeyByStem(prefix, acct1, 0, kind1, scope1);
    KeyByStem(prefix, acct2, 0, kind2, scope2);
    assert stem1 + scope1 == stem2 + scope2;
  }

  /** Two owners' keys collide for some scopes exactly when one stem starts with the other. */
  lemma AccountKeysCollideIff(prefix: string, acct1: string, kind1: string, acct2: string, kind2: string)
    ensures (exists scope1, scope2 :: KeyByAccount(prefix, acct1, kind1, scope1) == KeyByAccount(prefix, acct2, kind2, scope2))
            <==> Comparable(Stem(acct1, kind1), Stem(acct2, kind2))
  {
    if scope1, scope2 :| KeyByAccount(prefix, acct1, kind1, scope1) == KeyByAccount(prefix, acct2, kind2, scope2) {
      EqualKeysAreComparable(prefix, acct1, kind1, scope1, acct2, kind2, scope2);
    }
    if Comparable(Stem(acct1, kind1), Stem(acct2, kind2)) {
      var scope1, scope2 := ComparableKeysMeet(prefix, acct1, kind1, acct2, kind2);
    }
  }

  /** An account's key and a binding's key collide for some scopes exactly when one stem starts with the other. */
  lemma FamiliesCollideIff(prefix: string, acct: string, kind1: string, binding: uint64, kind2: string)
    ensures (exists scope1, scope2 :: KeyByAccount(prefix, acct, kind1, scope1) == KeyByBinding(prefix, binding, kind2, scope2))
            <==> Comparable(Stem(acct, kind1), Stem(BindingOwner(binding), kind2))
  {
    if scope1, scope2 :| KeyByAccount(prefix, acct, kind1, scope1) == KeyByBinding(prefix, binding, kind2, scope2) {
      KeyByStem(prefix, acct, binding, kind2, scope2);
      EqualKeysAreComparable(prefix, acct, kind1, scope1, BindingOwner(binding), kind2, scope2);
    }
    if Comparable(Stem(acct, kind1), Stem(BindingOwner(binding), kind2)) {
      var scope1, scope2 := ComparableKeysMeet(prefix, acct, kind1, BindingOwner(binding), kind2);
      KeyByStem(prefix, acct, binding, kind2, scope2);
    }
  }

  /** Account keys of different accounts or types never collide. */
  ghost predicate AccountsApart(accts: iset<string>, kinds: iset<string>) {
    forall acct1, acct2, kind1, kind2 {:trigger Comparable(Stem(acct1, kind1), Stem(acct2, kind2))} ::
      acct1 in accts && acct2 in accts && kind1 in kinds && kind2 in kinds && Comparable(Stem(acct1, kind1), Stem(acct2, kind2)) ==>
      acct1 == acct2 && kind1 == kind2
  }

  /** No account key is a binding key. */
  ghost predicate FamiliesApart(accts: iset<string>, kinds: iset<string>) {
    forall acct, binding: uint64, kind1, kind2 {:trigger Comparable(Stem(acct, kind1), Stem(BindingOwner(binding), kind2))} ::
      acct in accts && kind1 in kinds && kind2 in kinds ==> !Comparable(Stem(acct, kind1), Stem(BindingOwner(binding), kind2))
  }

  /** Binding keys of different bindings or types never collide. */
  ghost predicate BindingsApart(kinds: iset<string>) {
    forall binding1: uint64, binding2: uint64, kind1, kind2
      {:trigger Comparable(Stem(BindingOwner(binding1), kind1), Stem(BindingOwner(binding2), kind2))} ::
      kind1 in kinds && kind2 in kinds && Comparable(Stem(BindingOwner(binding1), kind1), Stem(BindingOwner(binding2), kind2)) ==>
      binding1 == binding2 && kind1 == kind2
  }

  /** No two different artifacts over these account ids and types can be asked for under one key. */
  ghost predicate KeysApart(accts: iset<string>, kinds: iset<string>) {
    AccountsApart(accts, kinds) && FamiliesApart(accts, kinds) && BindingsApart(kinds)
  }

  ghost const PLAIN_ACCOUNTS := iset acct: string | BindingIDFromPlatformAccountID(acct).Some? && ':' !in acct
  ghost const PLAIN_KINDS := iset kind: string | ':' !in kind

  lemma PlainAccountsApart()
    ensures AccountsApart(PLAIN_ACCOUNTS, PLAIN_KINDS)
  {
    forall acct1, acct2, kind1, kind2 | acct1 in PLAIN_ACCOUNTS && acct2 in PLAIN_ACCOUNTS &&
                                        kind1 in PLAIN_KINDS && kind2 in PLAIN_KINDS && Comparable(Stem(acct1, kind1), Stem(acct2, kind2))
      ensures acct1 == acct2 && kind1 == kind2
    {
      var scope1, scope2 := ComparableKeysMeet("", acct1, kind1, acct2, kind2);
      AccountKeysInjective("", acct1, kind1, scope1, acct2, kind2, scope2);
    }
  }

  lemma PlainFamiliesApart()
    ensures FamiliesApart(PLAIN_ACCOUNTS, PLAIN_KINDS)
  {
    forall acct, binding: uint64, kind1, kind2 | acct in PLAIN_ACCOUNTS && Comparable(Stem(acct, kind1), Stem(BindingOwner(binding), kind2))
      ensures false
    {
      var scope1, scope2 := ComparableKeysMeet("", acct, kind1, BindingOwner(binding), kind2);
      KeyByStem("", "", binding, kind2, scope2);
      FamiliesDisjoint("", acct, kind1, scope1, binding, kind2, scope2);
    }
  }

  lemma PlainBindingsApart()
    ensures BindingsApart(PLAIN_KINDS)
  {
    forall binding1: uint64, binding2: uint64, kind1, kind2 | kind1 in PLAIN_KINDS && kind2 in PLAIN_KINDS &&
        Comparable(Stem(BindingOwner(binding1), kind1), Stem(BindingOwner(binding2), kind2))
      ensures binding1 == binding2 && kind1 == kind2
    {
      var scope1, scope2 := ComparableKeysMeet("", BindingOwner(binding1), kind1, BindingOwner(binding2), kind2);
      KeyByStem("", "", binding1, kind1, scope1);
      KeyByStem("", "", binding2, kind2, scope2);
      BindingKeysInjective("", binding1, kind1, scope1, binding2, kind2, scope2);
    }
  }

  /** Keys over colon-free types and accepted colon-free account ids never collide. */
  lemma PlainKeysApart()
    ensures KeysApart(PLAIN_ACCOUNTS, PLAIN_KINDS)
  {
    PlainAccountsApart();
    PlainFamiliesApart();
    PlainBindingsApart();
  }

  /** An account the parser rejects can spell another binding's key. */
  lemma FamiliesCollide(prefix: string, scope: string)
    ensures KeyByAccount(prefix, "binding:42", "authkey", scope) == KeyByBinding(prefix, 42, "authkey", scope)
  {
    assert Dec(4) == "4" && Dec(42) == "42";
    KeyByStem(prefix, "", 42, "authkey", scope);
    assert BindingOwner(42) == "binding:42";
  }

  /** With a colon, two accounts the parser accepts can share a key. */
  lemma AccountKeysCollide(prefix: string)
    ensures KeyByAccount(prefix, "binding_1_a:authkey", "authkey", "p") == KeyByAccount(prefix, "binding_1_a", "authkey", "authkey:p")
  {
  }
}
