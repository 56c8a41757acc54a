/**
internal/data/ticket_verifier.go: the claim checks of a ticket whose signature, audience,
issuer and expiry the JWT library has already accepted.
*/
module TicketVerifier {
  import opened Basics
  import opened Db
  import opened Backend
  import GrantRepo

  datatype Claims = Claims(actorType: string, actorId: string, ownerUserId: uint64, binding: uint64, platform: string,
                           acct: string, consumer: string, grantVersion: uint64, profileId: nat,
                           scopes: seq<string>, allowedActions: seq<string>, userId: uint64, accountRefId: uint64)

  /** What downstream code sees of an accepted ticket. */
  datatype Ticket = Ticket(actorType: string, binding: uint64, platform: string, acct: string, profileId: nat,
                           actions: seq<string>, userId: uint64, accountRefId: uint64)

  datatype Rejection =
    | MissingActorType | MissingActorId | MissingOwner | MissingBinding | AccountRefMismatch | MissingPlatform
    | MissingConsumer | MissingGrantVersion | GrantVersionRevoked | LookupFailed

  /** The claims every ticket must carry. */
  predicate Complete(c: Claims) {
    && c.actorType != "" && c.actorId != "" && c.ownerUserId != 0 && c.binding != 0
    && (c.accountRefId != 0 ==> c.accountRefId == c.binding)
    && c.platform != ""
  }

  /** The grant of a consumer ticket: named, versioned, and not below the minimum. */
  predicate GrantStands(c: Claims, minimum: uint64) {
    c.actorType == "consumer" ==> c.consumer != "" && c.grantVersion != 0 && c.grantVersion >= minimum
  }

  /** The checks that a ticket can fail, in the order in which they are made. */
  const CHECKS: seq<Rejection> :=
    [MissingActorType, MissingActorId, MissingOwner, MissingBinding, AccountRefMismatch, MissingPlatform,
     MissingConsumer, MissingGrantVersion, GrantVersionRevoked]

  predicate Fails(c: Claims, minimum: uint64, check: Rejection) {
    match check
    case MissingActorType => c.actorType == ""
    case MissingActorId => c.actorId == ""
    case MissingOwner => c.ownerUserId == 0
    case MissingBinding => c.binding == 0
    case AccountRefMismatch => c.accountRefId != 0 && c.accountRefId != c.binding
    case MissingPlatform => c.platform == ""
    case MissingConsumer => c.actorType == "consumer" && c.consumer == ""
    case MissingGrantVersion => c.actorType == "consumer" && c.grantVersion == 0
    case GrantVersionRevoked => c.actorType == "consumer" && c.grantVersion < minimum
    case LookupFailed => false
  }

  /** The ticket fails this check and none before it. */
  ghost predicate FirstFailure(c: Claims, minimum: uint64, check: Rejection) {
    exists i :: 0 <= i < |CHECKS| && CHECKS[i] == check && Fails(c, minimum, check) &&
      forall j :: 0 <= j < i ==> !Fails(c, minimum, CHECKS[j])
  }

  lemma FailureAt(c: Claims, minimum: uint64, i: nat)
    requires i < |CHECKS| && Fails(c, minimum, CHECKS[i]) && forall j :: 0 <= j < i ==> !Fails(c, minimum, CHECKS[j])
    ensures FirstFailure(c, minimum, CHECKS[i])
  {
  }

  /** The verifier with the grant lookup configured, as main configures it. */
  method VerifyClaims(s: Storage, c: Claims) returns (r: Result<Ticket, Rejection>)
    modifies s`faults
    ensures s.faults >= old(s.faults)
    ensures s.faults == old(s.faults) ==>
              (r.Ok? <==> Complete(c) && GrantStands(c, GrantRepo.Minimum(s.grants, c.binding, c.consumer)))
    ensures s.faults > old(s.faults) ==> r == Err(LookupFailed)
    ensures s.faults == old(s.faults) && r.Err? ==>
              FirstFailure(c, GrantRepo.Minimum(s.grants, c.binding, c.consumer), r.error)
    ensures s.faults == old(s.faults) ==>
              (r == Err(GrantVersionRevoked) <==>
                 Complete(c) && c.actorType == "consumer" && c.consumer != "" &&
                 0 < c.grantVersion < GrantRepo.Minimum(s.grants, c.binding, c.consumer))
    ensures r.Ok? ==> r.value.binding == r.value.accountRefId == c.binding
    ensures r.Ok? ==> r.value.actorType == c.actorType && r.value.platform == c.platform && r.value.acct == c.acct
                      && r.value.profileId == c.profileId
    ensures r.Ok? ==> r.value.userId == (if c.userId != 0 then c.userId else c.ownerUserId)
                      && r.value.actions == (if |c.allowedActions| > 0 then c.allowedActions else c.scopes)
  {
    ghost var minimumNow := GrantRepo.Minimum(s.grants, c.binding, c.consumer);
    if c.actorType == "" {
      FailureAt(c, minimumNow, 0);
      return Err(MissingActorType);
    }
    if c.actorId == "" {
      FailureAt(c, minimumNow, 1);
      return Err(MissingActorId);
    }
    if c.ownerUserId == 0 {
      FailureAt(c, minimumNow, 2);
      return Err(MissingOwner);
    }
    if c.binding == 0 {
      FailureAt(c, minimumNow, 3);
      return Err(MissingBinding);
    }
    if c.accountRefId != 0 && c.accountRefId != c.binding {
      FailureAt(c, minimumNow, 4);
      return Err(AccountRefMismatch);
    }
    if c.platform == "" {
      FailureAt(c, minimumNow, 5);
      return Err(MissingPlatform);
    }
    if c.actorType == "consumer" {
      if c.consumer == "" {
        FailureAt(c, minimumNow, 6);
        return Err(MissingConsumer);
      }
      if c.grantVersion == 0 {
        FailureAt(c, minimumNow, 7);
        return Err(MissingGrantVersion);
      }
      var minimum := GrantRepo.MinimumVersion(s, c.binding, c.consumer);
      if minimum.Err? {
        return Err(LookupFailed);
      }
      if minimum.value > 0 && c.grantVersion < minimum.value {
        FailureAt(c, minimumNow, 8);
        return Err(GrantVersionRevoked);
      }
    }
    var userId := c.ownerUserId;
    if c.userId != 0 {
      userId := c.userId;
    }
    var actions := c.scopes;
    if |c.allowedActions| > 0 {
      actions := c.allowedActions;
    }
    return Ok(Ticket(c.actorType, c.binding, c.platform, c.acct, c.profileId, actions, userId, c.binding));
  }
}
