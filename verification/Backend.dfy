/**
What the repositories talk to: the MySQL tables, the Redis artifact cache, the wall clock
and the log of authkeys the upstream client has issued. Any storage call may fail, so a
contract on a method that makes several calls speaks about every failure point.
*/
module Backend {
  import opened Basics
  import opened Db

  /** The record that the artifact repository stores and caches as JSON. */
  datatype Artifact = Artifact(binding: uint64, acct: string, kind: string, value: string, scope: string, expiresAt: int)

  /** A Redis value and the moment at which its TTL runs out. */
  datatype Entry = Entry(payload: Artifact, until: int)

  type Cache = map<string, Entry>

  datatype GrantKey = GrantKey(binding: uint64, consumer: string)

  /** One answer of the upstream client's IssueAuthKey. */
  datatype Issue = Issue(cookies: string, player: string, authKey: string)

  class Storage {
    const withRedis: bool
    const prefix: string

    /** How many storage calls have failed so far. */
    var faults: nat
    var now: int

    var creds: map<uint64, Cred>
    var devices: map<DKey, Dev>
    var profiles: map<PKey, Prof>
    var artifacts: map<AKey, Art>
    var nextId: nat

    var grants: map<GrantKey, uint64>
    var cache: Cache

    ghost var issued: set<Issue>

    constructor (withRedis: bool, prefix: string)
      ensures this.withRedis == withRedis && this.prefix == prefix
      ensures Rows() == EmptyTables && cache == map[] && grants == map[] && issued == {}
      ensures faults == 0 && now == 0 && nextId == 1
      ensures Valid()
    {
      this.withRedis, this.prefix := withRedis, prefix;
      faults, now, nextId := 0, 0, 1;
      creds, devices, profiles, artifacts := map[], map[], map[], map[];
      grants, cache, issued := map[], map[], {};
    }

    function Rows(): Tables
      reads this`creds, this`devices, this`profiles, this`artifacts
    {
      Tables(creds, devices, profiles, artifacts)
    }

    predicate Valid()
      reads this`creds, this`devices, this`profiles, this`artifacts, this`nextId, this`cache
    {
      DbOk(Rows(), nextId) && (!withRedis ==> cache == map[])
    }

    /** One call to MySQL or Redis, which may fail at any time. */
    method Call() returns (failed: bool)
      modifies this`faults
      ensures faults == old(faults) + (if failed then 1 else 0)
    {
      failed := *;
      if failed {
        faults := faults + 1;
      }
    }

    /** time.Now(): never earlier than a previous reading. */
    method Clock() returns (t: int)
      modifies this`now
      ensures old(now) <= t == now
    {
      t :| t >= now;
      now := t;
    }

    /** Opens a transaction: remembers the tables, but not the cache. */
    method Begin() returns (r: Result<Tables, Failure>)
      modifies this`faults
      ensures faults >= old(faults)
      ensures r == if faults > old(faults) then Err(StorageFault) else Ok(Rows())
    {
      var failed := Call();
      r := if failed then Err(StorageFault) else Ok(Rows());
    }

    /** Commits a transaction whose body ended with `outcome`, or rolls its tables back. */
    method Finish(snapshot: Tables, outcome: Option<Failure>) returns (r: Option<Failure>)
      requires Valid() && DbOk(snapshot, nextId)
      modifies this`faults, this`creds, this`devices, this`profiles, this`artifacts
      ensures faults >= old(faults)
      ensures r.None? <==> outcome.None? && faults == old(faults)
      ensures outcome.Some? ==> r == outcome && faults == old(faults)
      ensures outcome.None? && r.Some? ==> r == Some(StorageFault)
      ensures Rows() == if r.None? then old(Rows()) else snapshot
      ensures Valid()
    {
      r := outcome;
      if outcome.None? {
        var failed := Call();
        if failed {
          r := Some(StorageFault);
        }
      }
      if r.Some? {
        creds, devices, profiles, artifacts := snapshot.creds, snapshot.devices, snapshot.profiles, snapshot.artifacts;
      }
    }
  }
}
