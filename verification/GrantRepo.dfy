/** internal/data/grant_invalidation_repo.go: the version below which a consumer's tickets are revoked. */
module GrantRepo {
  import opened Basics
  import opened Db
  import opened Backend

  type Grants = map<GrantKey, uint64>

  function Minimum(grants: Grants, b: uint64, consumer: string): uint64 {
    if GrantKey(b, consumer) in grants then grants[GrantKey(b, consumer)] else 0
  }

  /** The upsert's CASE expression: the stored minimum never goes down. */
  function Raised(grants: Grants, b: uint64, consumer: string, version: uint64): Grants {
    var key := GrantKey(b, consumer);
    if key !in grants then grants[key := version]
    else grants[key := if grants[key] > version then grants[key] else version]
  }

  method Upsert(s: Storage, b: uint64, consumer: string, version: uint64) returns (r: Option<Failure>)
    modifies s`faults, s`grants
    ensures s.faults >= old(s.faults)
    ensures r == if s.faults == old(s.faults) then None else Some(StorageFault)
    ensures s.grants == if r.None? then Raised(old(s.grants), b, consumer, version) else old(s.grants)
  {
    var failed := s.Call();
    if failed {
      return Some(StorageFault);
    }
    var key := GrantKey(b, consumer);
    if key in s.grants {
      if !(s.grants[key] > version) {
        s.grants := s.grants[key := version];
      }
    } else {
      s.grants := s.grants[key := version];
    }
    return None;
  }

  method MinimumVersion(s: Storage, b: uint64, consumer: string) returns (r: Result<uint64, Failure>)
    modifies s`faults
    ensures s.faults >= old(s.faults)
    ensures r == if s.faults == old(s.faults) then Ok(Minimum(s.grants, b, consumer)) else Err(StorageFault)
  {
    var failed := s.Call();
    r := if failed then Err(StorageFault) else Ok(Minimum(s.grants, b, consumer));
  }

  /** One invalidation request. */
  datatype Invalidation = Invalidation(b: uint64, consumer: string, version: uint64)

  function RaiseAll(requests: seq<Invalidation>): Grants {
    if requests == [] then map[]
    else
      var last := requests[|requests| - 1];
      Raised(RaiseAll(requests[..|requests| - 1]), last.b, last.consumer, last.version)
  }

  /** After any requests in any order, the minimum is the greatest version sent for the pair, or 0. */
  lemma {:induction false} MinimumIsMaximum(requests: seq<Invalidation>, b: uint64, consumer: string)
    ensures var m := Minimum(RaiseAll(requests), b, consumer);
            && (forall i :: 0 <= i < |requests| && requests[i].b == b && requests[i].consumer == consumer ==> requests[i].version <= m)
            && (m == 0 || exists i :: 0 <= i < |requests| && requests[i] == Invalidation(b, consumer, m))
  {
    if requests != [] {
      var before, last := requests[..|requests| - 1], requests[|requests| - 1];
      MinimumIsMaximum(before, b, consumer);
      var m := Minimum(RaiseAll(before), b, consumer);
      if i :| 0 <= i < |before| && before[i] == Invalidation(b, consumer, m) {
        assert requests[i] == Invalidation(b, consumer, m);
      }
      assert last == Invalidation(b, consumer, last.version) || last.b != b || last.consumer != consumer;
      forall i | 0 <= i < |requests| && requests[i].b == b && requests[i].consumer == consumer
        ensures requests[i].version <= Minimum(RaiseAll(requests), b, consumer)
      {
        if i < |before| {
          assert before[i] == requests[i];
        }
      }
    }
  }
}
