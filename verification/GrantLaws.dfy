/**
Revocation over whole runs: InvalidateConsumerGrant of internal/service/platform_service_adapter.go
as a step, and what every later ticket check sees of it.
*/
module GrantLaws {
  import opened Basics
  import opened Db
  import opened Backend
  import opened Runs
  import opened GrantRepo
  import opened TicketVerifier

  datatype Request = Request(b: uint64, consumer: string, version: uint64)

  datatype Refusal = BadRequest | NotAllowed | Failed

  /** The request checks that come before and after the ticket's own verification. */
  predicate MayInvalidate(ticket: Ticket, q: Request) {
    && (ticket.actorType == "admin" || ticket.actorType == "user")
    && ticket.binding == q.b && ticket.platform == "mihomo"
    && "mihomo.consumer_grant.invalidate" in ticket.actions && ticket.profileId == 0
  }

  /** InvalidateConsumerGrant with an accepted ticket: one step of a run. */
  method InvalidateConsumerGrant(s: Storage, ticket: Ticket, q: Request) returns (r: Option<Refusal>, ghost e: Event)
    modifies s`faults, s`grants
    ensures s.faults >= old(s.faults)
    ensures Next(s.prefix, old(Snap(s)), e, Snap(s))
    ensures e == if r.None? then GrantRaised(q.b, q.consumer, q.version) else Idle
    ensures s.faults == old(s.faults) ==>
              (r.None? <==> q.b != 0 && q.consumer != "" && q.version != 0 && MayInvalidate(ticket, q))
    ensures r.None? ==> Minimum(s.grants, q.b, q.consumer) >= q.version
    // who may, and what stays: whatever the request names, only grants of the ticket's own binding change
    ensures r.None? ==> ticket.binding == q.b && ticket.profileId == 0 && ticket.actorType in {"admin", "user"}
                        && ticket.platform == "mihomo" && "mihomo.consumer_grant.invalidate" in ticket.actions
    ensures (&& s.faults == old(s.faults) && q.b != 0 && q.consumer != "" && q.version != 0
             && ticket.binding == q.b && ticket.profileId == 0 && ticket.actorType in {"admin", "user"}
             && ticket.platform == "mihomo" && "mihomo.consumer_grant.invalidate" in ticket.actions) ==> r.None?
    ensures s.faults == old(s.faults) && (q.b == 0 || q.consumer == "" || q.version == 0) ==> r == Some(BadRequest)
    ensures forall b, consumer :: b != ticket.binding ==> Minimum(s.grants, b, consumer) == Minimum(old(s.grants), b, consumer)
    ensures forall b, consumer :: b != q.b || consumer != q.consumer ==>
              Minimum(s.grants, b, consumer) == Minimum(old(s.grants), b, consumer)
  {
    ghost var w := Snap(s);
    e := Idle;
    if q.b == 0 || q.consumer == "" || q.version == 0 {
      r := Some(BadRequest);
    } else if !MayInvalidate(ticket, q) {
      r := Some(NotAllowed);
    } else {
      var failure := Upsert(s, q.b, q.consumer, q.version);
      if failure.None? {
        GrantStep(s.prefix, w, Snap(s), q);
        return None, GrantRaised(q.b, q.consumer, q.version);
      }
      r := Some(Failed);
    }
    IdleStep(s.prefix, w, Snap(s));
  }

  lemma GrantStep(prefix: string, w: World, w': World, q: Request)
    requires w'.grants == Raised(w.grants, q.b, q.consumer, q.version)
    requires w'.t == w.t && w'.cache == w.cache && w'.issued == w.issued && w.now <= w'.now && w.nextId <= w'.nextId
    ensures Next(prefix, w, GrantRaised(q.b, q.consumer, q.version), w')
  {
  }

  /** The invalidations among the events of a run, in order. */
  function Invalidations(es: seq<Event>): seq<Invalidation> {
    if es == [] then []
    else
      var before, e := Invalidations(es[..|es| - 1]), es[|es| - 1];
      if e.GrantRaised? then before + [Invalidation(e.b, e.consumer, e.version)] else before
  }

  lemma RaisedLast(es: seq<Event>)
    requires es != []
    ensures var before, e := RaiseAll(Invalidations(es[..|es| - 1])), es[|es| - 1];
            RaiseAll(Invalidations(es)) == if e.GrantRaised? then Raised(before, e.b, e.consumer, e.version) else before
  {
    var before, e := Invalidations(es[..|es| - 1]), es[|es| - 1];
    if e.GrantRaised? {
      var all := Invalidations(es);
      assert all == before + [Invalidation(e.b, e.consumer, e.version)];
      assert all[..|all| - 1] == before;
    }
  }

  lemma GrantsOneStep(prefix: string, ws: seq<World>, es: seq<Event>, i: nat)
    requires |ws| == |es| + 1 && i < |es| && NextAt(prefix, ws, es, i)
    ensures ws[i + 1].grants ==
            if es[i].GrantRaised? then Raised(ws[i].grants, es[i].b, es[i].consumer, es[i].version) else ws[i].grants
  {
  }

  /** Whatever else a run does, its stored minimums come from its invalidations alone. */
  lemma {:induction false} GrantsOfRun(prefix: string, ws: seq<World>, es: seq<Event>, n: nat)
    requires Run(prefix, ws, es) && ws[0] == InitialWorld && n <= |es|
    ensures ws[n].grants == RaiseAll(Invalidations(es[..n]))
  {
    if n > 0 {
      GrantsOfRun(prefix, ws, es, n - 1);
      GrantsOneStep(prefix, ws, es, n - 1);
      assert es[..n][..n - 1] == es[..n - 1];
      RaisedLast(es[..n]);
    }
  }

  /**
  After any run, a complete consumer ticket with a consumer and a nonzero version passes the
  grant check exactly when its version is at least every version invalidated for its pair.
  */
  lemma GrantStandsIffNotInvalidated(prefix: string, ws: seq<World>, es: seq<Event>, n: nat, c: Claims)
    requires Run(prefix, ws, es) && ws[0] == InitialWorld && n <= |es|
    requires c.actorType == "consumer" && c.consumer != "" && c.grantVersion != 0
    ensures GrantStands(c, Minimum(ws[n].grants, c.binding, c.consumer)) <==>
            forall i :: 0 <= i < n && es[i].GrantRaised? && es[i].b == c.binding && es[i].consumer == c.consumer ==>
              c.grantVersion >= es[i].version
  {
    GrantsOfRun(prefix, ws, es, n);
    MinimumIsMaximum(Invalidations(es[..n]), c.binding, c.consumer);
    NoNewerInvalidation(es[..n], c.binding, c.consumer, c.grantVersion);
    assert forall i :: 0 <= i < n ==> es[..n][i] == es[i];
  }

  predicate Covers(requests: seq<Invalidation>, b: uint64, consumer: string, version: uint64) {
    forall i :: 0 <= i < |requests| && requests[i].b == b && requests[i].consumer == consumer ==> version >= requests[i].version
  }

  lemma NoNewerInvalidation(es: seq<Event>, b: uint64, consumer: string, version: uint64)
    ensures Covers(Invalidations(es), b, consumer, version) <==>
            forall i :: 0 <= i < |es| && es[i].GrantRaised? && es[i].b == b && es[i].consumer == consumer ==> version >= es[i].version
  {
    Recorded(es);
    if Covers(Invalidations(es), b, consumer, version) {
      forall i | 0 <= i < |es| && es[i].GrantRaised? && es[i].b == b && es[i].consumer == consumer ensures version >= es[i].version {
        assert Invalidation(b, consumer, es[i].version) in Invalidations(es);
      }
    }
  }

  lemma {:induction false} Recorded(es: seq<Event>)
    ensures forall i :: 0 <= i < |es| && es[i].GrantRaised? ==>
              Invalidation(es[i].b, es[i].consumer, es[i].version) in Invalidations(es)
    ensures forall q <- Invalidations(es) :: exists i :: 0 <= i < |es| && es[i] == GrantRaised(q.b, q.consumer, q.version)
  {
    if es != [] {
      var before, e := es[..|es| - 1], es[|es| - 1];
      Recorded(before);
      forall i | 0 <= i < |es| && es[i].GrantRaised?
        ensures Invalidation(es[i].b, es[i].consumer, es[i].version) in Invalidations(es)
      {
        if i < |before| {
          assert before[i] == es[i];
        }
      }
      forall q | q in Invalidations(es)
        ensures exists i :: 0 <= i < |es| && es[i] == GrantRaised(q.b, q.consumer, q.version)
      {
        if q in Invalidations(before) {
          var i :| 0 <= i < |before| && before[i] == GrantRaised(q.b, q.consumer, q.version);
          assert es[i] == before[i];
        } else {
          assert e == GrantRaised(q.b, q.consumer, q.version);
        }
      }
    }
  }

  /** A ticket whose grant is once revoked stays revoked over every later bind, delete and upsert. */
  lemma RevokedTicketStaysRevoked(prefix: string, ws: seq<World>, es: seq<Event>, i: nat, j: nat, c: Claims)
    requires Run(prefix, ws, es) && i <= j < |ws|
    requires !GrantStands(c, Minimum(ws[i].grants, c.binding, c.consumer))
    ensures !GrantStands(c, Minimum(ws[j].grants, c.binding, c.consumer))
  {
    RevokedStaysRevoked(prefix, ws, es, i, j, c.binding, c.consumer);
  }
}
