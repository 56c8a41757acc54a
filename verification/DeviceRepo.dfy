/** internal/data/device_repo.go. */
module DeviceRepo {
  import opened Basics
  import opened Listing
  import opened Db
  import opened Backend

  datatype Device = Device(binding: uint64, acct: string, device: string, fp: string,
                           name: Option<string>, valid: bool, seenAt: Option<int>)

  function KeyOf(d: Device): DKey {
    DKey(d.binding, d.device)
  }

  /** An upsert on (binding_id, device_id): an existing row keeps its id, but may change account. */
  function Saved(devices: map<DKey, Dev>, nextId: nat, d: Device): map<DKey, Dev> {
    devices[KeyOf(d) := Dev(if KeyOf(d) in devices then devices[KeyOf(d)].id else nextId,
                            d.acct, d.fp, d.name, d.valid, d.seenAt)]
  }

  /** The device's row has its columns, and the id it had or the next one; every other row is as before. */
  ghost predicate Stored(before: map<DKey, Dev>, nextId: nat, d: Device, after: map<DKey, Dev>) {
    var k := DKey(d.binding, d.device);
    && k in after && after[k] == Dev(if k in before then before[k].id else nextId, d.acct, d.fp, d.name, d.valid, d.seenAt)
    && forall l :: l != k ==> (l in before <==> l in after) && (l in before ==> after[l] == before[l])
  }

  function NextAfter(devices: map<DKey, Dev>, nextId: nat, d: Device): nat {
    if KeyOf(d) in devices then nextId else nextId + 1
  }

  lemma SavedIds(devices: map<DKey, Dev>, nextId: nat, d: Device)
    requires DevIds(devices, nextId)
    ensures DevIds(Saved(devices, nextId, d), NextAfter(devices, nextId, d))
  {
  }

  function FromRow(k: DKey, row: Dev): Device {
    Device(k.binding, row.acct, k.device, row.fp, row.name, row.valid, row.seenAt)
  }

  function Ids(devices: map<DKey, Dev>): map<DKey, nat> {
    map k | k in devices :: devices[k].id
  }

  function RowsOfBinding(devices: map<DKey, Dev>, b: uint64): map<DKey, Dev> {
    map k | k in devices && k.binding == b :: devices[k]
  }

  function RowsOfAccount(devices: map<DKey, Dev>, acct: string): map<DKey, Dev> {
    map k | k in devices && devices[k].acct == acct :: devices[k]
  }

  /** SELECT ... ORDER BY id over a selection of rows. */
  function Listed(rows: map<DKey, Dev>): seq<Device>
    requires Distinct(Ids(rows))
  {
    var keys := ByID(Ids(rows));
    seq(|keys|, i requires 0 <= i < |keys| => assert keys[i] in keys; FromRow(keys[i], rows[keys[i]]))
  }

  /**
  The list holds exactly the selected rows, each once, with its own columns, in increasing
  order of id.
  */
  ghost predicate ListsExactly(rows: map<DKey, Dev>, list: seq<Device>) {
    && (forall i :: 0 <= i < |list| ==> ShowsRow(rows, list[i]))
    && (forall k <- rows :: exists i :: 0 <= i < |list| && DKey(list[i].binding, list[i].device) == k)
    && (forall i, j :: 0 <= i < j < |list| ==> RowId(rows, list[i]) < RowId(rows, list[j]))
  }

  predicate ShowsRow(rows: map<DKey, Dev>, d: Device) {
    var k := DKey(d.binding, d.device);
    k in rows && rows[k] == Dev(rows[k].id, d.acct, d.fp, d.name, d.valid, d.seenAt)
  }

  /** The id of the row that a listed device shows. */
  function RowId(rows: map<DKey, Dev>, d: Device): nat {
    if DKey(d.binding, d.device) in rows then rows[DKey(d.binding, d.device)].id else 0
  }

  lemma ListedExactly(rows: map<DKey, Dev>)
    requires Distinct(Ids(rows))
    ensures ListsExactly(rows, Listed(rows))
  {
    var keys, list := ByID(Ids(rows)), Listed(rows);
    forall i | 0 <= i < |list| ensures DKey(list[i].binding, list[i].device) == keys[i] && keys[i] in rows && ShowsRow(rows, list[i]) {
      assert keys[i] in keys;
    }
    forall k | k in rows ensures exists i :: 0 <= i < |list| && DKey(list[i].binding, list[i].device) == k {
      assert k in Ids(rows);
      var i :| 0 <= i < |keys| && keys[i] == k;
      assert DKey(list[i].binding, list[i].device) == k;
    }
    forall i, j | 0 <= i < j < |list| ensures RowId(rows, list[i]) < RowId(rows, list[j]) {
      assert Ids(rows)[keys[i]] < Ids(rows)[keys[j]];
    }
  }

  method Save(s: Storage, d: Device) returns (r: Option<Failure>)
    requires s.Valid()
    modifies s`faults, s`devices, s`nextId
    ensures s.Valid() && s.faults >= old(s.faults)
    ensures r == if s.faults > old(s.faults) then Some(StorageFault) else None
    ensures s.devices == if r.None? then Saved(old(s.devices), old(s.nextId), d) else old(s.devices)
    ensures s.nextId == if r.None? then NextAfter(old(s.devices), old(s.nextId), d) else old(s.nextId)
    // column by column
    ensures r.None? ==> Stored(old(s.devices), old(s.nextId), d, s.devices)
  {
    var failed := s.Call();
    if failed {
      return Some(StorageFault);
    }
    SavedIds(s.devices, s.nextId, d);
    s.devices, s.nextId := Saved(s.devices, s.nextId, d), NextAfter(s.devices, s.nextId, d);
    return None;
  }

  method ListByBindingID(s: Storage, b: uint64) returns (r: Result<seq<Device>, Failure>)
    requires s.Valid()
    modifies s`faults
    ensures s.faults >= old(s.faults)
    ensures r == if s.faults > old(s.faults) then Err(StorageFault) else Ok(Listed(RowsOfBinding(s.devices, b)))
  {
    var failed := s.Call();
    r := if failed then Err(StorageFault) else Ok(Listed(RowsOfBinding(s.devices, b)));
  }

  method ListByPlatformAccountID(s: Storage, acct: string) returns (r: Result<seq<Device>, Failure>)
    requires s.Valid()
    modifies s`faults
    ensures s.faults >= old(s.faults)
    ensures r == if s.faults > old(s.faults) then Err(StorageFault) else Ok(Listed(RowsOfAccount(s.devices, acct)))
  {
    var failed := s.Call();
    r := if failed then Err(StorageFault) else Ok(Listed(RowsOfAccount(s.devices, acct)));
  }

  method DeleteByPlatformAccountID(s: Storage, acct: string) returns (r: Option<Failure>)
    requires s.Valid()
    modifies s`faults, s`devices
    ensures s.Valid() && s.faults >= old(s.faults)
    ensures r == if s.faults > old(s.faults) then Some(StorageFault) else None
    ensures s.devices == if r.None? then DevsWithoutAcct(old(s.devices), acct) else old(s.devices)
  {
    var failed := s.Call();
    if failed {
      return Some(StorageFault);
    }
    s.devices := DevsWithoutAcct(s.devices, acct);
    return None;
  }
}
