/** internal/usecase/scope_guard.go: what a ticket lets its bearer touch. */
module ScopeGuard {
  import opened Basics
  import opened AccountKey
  import opened Db
  import ManagementRepo

  datatype Guard = Guard(binding: uint64, profileId: nat) {

    function RequirePlatformAccountID(acct: string): Option<Failure> {
      var parsed := BindingIDFromPlatformAccountID(acct);
      if parsed.None? || parsed.value == 0 || binding != parsed.value then Some(BindingScopeDenied) else None
    }

    function RequireBindingWide(): Option<Failure> {
      if profileId != 0 then Some(ProfileScopeDenied) else None
    }

    function RequireProfile(b: uint64, id: nat): Option<Failure> {
      if binding == 0 || binding != b then Some(BindingScopeDenied)
      else if profileId != 0 && profileId != id then Some(ProfileScopeDenied)
      else None
    }
  }

  /** The guard lets an account through exactly when the account names the guard's binding. */
  lemma AllowsExactlyItsAccounts(g: Guard, acct: string)
    ensures g.RequirePlatformAccountID(acct).None? <==> Names(acct, g.binding)
  {
  }

  /**
  Where every row's binding is the one its account names, a by-account call that passed the
  guard selects rows of the guard's binding only, in all four tables.
  */
  lemma GuardedAccountStaysInBinding(t: Tables, g: Guard, acct: string)
    requires KeyAgree(t) && g.RequirePlatformAccountID(acct).None?
    ensures forall b <- t.creds :: t.creds[b].acct == acct ==> b == g.binding
    ensures forall k <- t.devices :: t.devices[k].acct == acct ==> k.binding == g.binding
    ensures forall k <- t.profiles :: t.profiles[k].acct == acct ==> k.binding == g.binding
    ensures forall k <- t.artifacts :: t.artifacts[k].acct == acct ==> k.binding == g.binding
  {
    AllowsExactlyItsAccounts(g, acct);
  }

  /**
  Deleting by such an account leaves every other binding alone: row by row in each table, and
  in the graph delete, which removes artifacts by the bindings it finds.
  */
  lemma GuardedDeleteStaysInBinding(t: Tables, g: Guard, acct: string)
    requires KeyAgree(t) && g.RequirePlatformAccountID(acct).None?
    ensures CredsWithout(CredsWithoutAcct(t.creds, acct), g.binding) == CredsWithout(t.creds, g.binding)
    ensures DevsWithout(DevsWithoutAcct(t.devices, acct), g.binding) == DevsWithout(t.devices, g.binding)
    ensures ProfsWithout(ProfsWithoutAcct(t.profiles, acct), g.binding) == ProfsWithout(t.profiles, g.binding)
    ensures ArtsWithout(ArtsWithoutAcct(t.artifacts, acct), g.binding) == ArtsWithout(t.artifacts, g.binding)
    ensures Others(ManagementRepo.WithoutGraph(t, acct), g.binding) == Others(t, g.binding)
  {
    GuardedAccountStaysInBinding(t, g, acct);
    SelectedRowsOnly(t, acct, g.binding);
    GraphArtifactsWithin(t, acct, g.binding);
    var rest := t.artifacts - ManagementRepo.GraphArtifacts(t, acct);
    assert ArtsWithout(rest, g.binding) == ArtsWithout(t.artifacts, g.binding);
  }

  /** The artifacts that the graph delete dooms are of the one binding that the account's rows have. */
  lemma GraphArtifactsWithin(t: Tables, acct: string, b: uint64)
    requires forall x <- t.creds :: t.creds[x].acct == acct ==> x == b
    requires forall k <- t.devices :: t.devices[k].acct == acct ==> k.binding == b
    requires forall k <- t.profiles :: t.profiles[k].acct == acct ==> k.binding == b
    requires forall k <- t.artifacts :: t.artifacts[k].acct == acct ==> k.binding == b
    ensures forall k <- ManagementRepo.GraphArtifacts(t, acct) :: k.binding == b
  {
    assert forall x <- ManagementRepo.BindingIDs(t, acct) :: x == b;
  }

  lemma SelectedRowsOnly(t: Tables, acct: string, b: uint64)
    requires forall x <- t.creds :: t.creds[x].acct == acct ==> x == b
    requires forall k <- t.devices :: t.devices[k].acct == acct ==> k.binding == b
    requires forall k <- t.profiles :: t.profiles[k].acct == acct ==> k.binding == b
    requires forall k <- t.artifacts :: t.artifacts[k].acct == acct ==> k.binding == b
    ensures CredsWithout(CredsWithoutAcct(t.creds, acct), b) == CredsWithout(t.creds, b)
    ensures DevsWithout(DevsWithoutAcct(t.devices, acct), b) == DevsWithout(t.devices, b)
    ensures ProfsWithout(ProfsWithoutAcct(t.profiles, acct), b) == ProfsWithout(t.profiles, b)
    ensures ArtsWithout(ArtsWithoutAcct(t.artifacts, acct), b) == ArtsWithout(t.artifacts, b)
  {
  }
}
