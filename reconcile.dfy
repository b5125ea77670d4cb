/** The disk inventory reconciliation of DiskMixin._update_disk_state
    (storageadmin/views/disk.py, lines 53-311) as a function of the stored Disk
    and Pool tables and one scan. The pass runs in three parts: every stored row
    is renamed to a placeholder, duplicate and fake-serial rows are deleted and
    rows whose serial was not scanned are marked offline; every scanned device
    then updates or creates its row, role and pool link; finally every online
    row has its SMART flags refreshed. The view runs inside one database
    transaction, so a failure anywhere leaves both tables as they were. */
module Reconcile {
  import opened Wrappers
  import opened Text
  import opened DiskModel
  import opened DiskRoles

  /** What smart.available reports for a device, or that it raised. */
  datatype SmartProbe = Probed(available: bool, enabled: bool) | ProbeFailed

  /** The system services the pass consults, as values. */
  datatype Collaborators = Collaborators(
    byIdName: string -> string,                   // get_dev_byid_name(name, True)[0]
    placeholder: nat -> string,                   // uuid4 hex drawn for the n-th stored row
    smartProbe: (string, string) -> SmartProbe,   // smart.available(name, options)
    btrfsUuid: string -> Option<string>,          // btrfs_uuid(by-id name)
    usageBound: string -> int)                    // usage_bound() of a new root pool

  /** The Disk table in its iteration order and the Pool table by name. */
  datatype Store = Store(disks: seq<Disk>, pools: map<string, Pool>)

  /** Every pool a disk refers to exists (the foreign key). */
  predicate PoolRefs(ds: seq<Disk>, pools: map<string, Pool>) {
    forall i :: 0 <= i < |ds| && ds[i].pool.Some? ==> ds[i].pool.value in pools
  }

  function ScannedSerials(scan: seq<Device>): set<string> {
    set d <- scan :: d.serial
  }

  lemma ScannedSerialsSnoc(scan: seq<Device>, d: Device)
    ensures ScannedSerials(scan + [d]) == ScannedSerials(scan) + {d.serial}
  {
    assert forall x <- scan + [d] :: x in scan || x == d;
  }

  // ---------------------------------------------------------------------
  // Part 1: scrub the stored rows (lines 77-104)
  // ---------------------------------------------------------------------

  /** One stored row after the first loop: a placeholder name and, when its
      serial was not scanned, marked offline with both SMART flags cleared. */
  function ScrubbedRow(row: Disk, placeholder: string, scanned: set<string>): Disk {
    var renamed := row.(name := "detached-" + placeholder);
    if row.serial in scanned then renamed
    else renamed.(offline := true, smartAvailable := false, smartEnabled := false)
  }

  /** The first loop over the stored rows in order: a row whose serial was
      already kept, or is fake, is deleted; every other row is scrubbed. */
  function Scrub(ds: seq<Disk>, scanned: set<string>, placeholder: nat -> string): seq<Disk>
    decreases |ds|
  {
    if ds == [] then []
    else
      var i := |ds| - 1;
      var kept := Scrub(ds[..i], scanned, placeholder);
      if ds[i].serial in SerialsOf(kept) || IsFakeSerial(ds[i].serial) then kept
      else kept + [ScrubbedRow(ds[i], placeholder(i), scanned)]
  }

  /** Row i is the first stored row with its serial, and the serial is real. */
  predicate Survives(ds: seq<Disk>, i: nat)
    requires i < |ds|
  {
    !IsFakeSerial(ds[i].serial) && ds[i].serial !in SerialsOf(ds[..i])
  }

  /** The scrubbed table has distinct, real serials: those of the stored
      table that are not fake. */
  lemma {:induction false} ScrubSerials(ds: seq<Disk>, scanned: set<string>, placeholder: nat -> string)
    ensures var r := Scrub(ds, scanned, placeholder);
      && DistinctSerials(r)
      && (forall s :: s in SerialsOf(r) <==> s in SerialsOf(ds) && !IsFakeSerial(s))
    decreases |ds|
  {
    if ds != [] {
      var n := |ds| - 1;
      var kept := Scrub(ds[..n], scanned, placeholder);
      ScrubSerials(ds[..n], scanned, placeholder);
      assert SerialsOf(ds) == SerialsOf(ds[..n]) + [ds[n].serial];
      if !(ds[n].serial in SerialsOf(kept) || IsFakeSerial(ds[n].serial)) {
        var r := kept + [ScrubbedRow(ds[n], placeholder(n), scanned)];
        assert SerialsOf(r) == SerialsOf(kept) + [ds[n].serial];
      }
    }
  }

  /** The first row of every real serial is kept, scrubbed. */
  lemma {:induction false} ScrubKeepsSurvivors(ds: seq<Disk>, scanned: set<string>, placeholder: nat -> string)
    ensures forall i :: 0 <= i < |ds| && Survives(ds, i) ==>
      ScrubbedRow(ds[i], placeholder(i), scanned) in Scrub(ds, scanned, placeholder)
    decreases |ds|
  {
    if ds != [] {
      var n := |ds| - 1;
      var front := ds[..n];
      ScrubKeepsSurvivors(front, scanned, placeholder);
      ScrubSerials(front, scanned, placeholder);
      assert forall i :: 0 <= i < n ==> front[..i] == ds[..i] && front[i] == ds[i];
      assert forall i :: 0 <= i < n && Survives(ds, i) ==> Survives(front, i);
    }
  }

  /** Every kept row is the scrubbed first row of its serial. */
  lemma {:induction false} ScrubRowsFromSurvivors(ds: seq<Disk>, scanned: set<string>, placeholder: nat -> string)
    ensures forall x <- Scrub(ds, scanned, placeholder) ::
      exists i :: 0 <= i < |ds| && Survives(ds, i) && x == ScrubbedRow(ds[i], placeholder(i), scanned)
    decreases |ds|
  {
    if ds != [] {
      var n := |ds| - 1;
      var front := ds[..n];
      var kept := Scrub(front, scanned, placeholder);
      ScrubRowsFromSurvivors(front, scanned, placeholder);
      ScrubSerials(front, scanned, placeholder);
      forall x <- Scrub(ds, scanned, placeholder)
        ensures exists i :: 0 <= i < |ds| && Survives(ds, i) && x == ScrubbedRow(ds[i], placeholder(i), scanned)
      {
        if x in kept {
          var i :| 0 <= i < |front| && Survives(front, i) && x == ScrubbedRow(front[i], placeholder(i), scanned);
          assert front[..i] == ds[..i];
          assert Survives(ds, i);
        } else {
          assert ds[..n] == front;
          assert Survives(ds, n);
        }
      }
    }
  }

  /** Facts about every kept row, from its origin. */
  lemma ScrubbedRows(ds: seq<Disk>, scanned: set<string>, placeholder: nat -> string, pools: map<string, Pool>)
    ensures var r := Scrub(ds, scanned, placeholder);
      forall k :: 0 <= k < |r| ==>
        && StartsWith(r[k].name, "detached-")
        && (r[k].serial !in scanned ==> r[k].offline && !r[k].smartAvailable && !r[k].smartEnabled)
        && (PoolRefs(ds, pools) && r[k].pool.Some? ==> r[k].pool.value in pools)
  {
    var r := Scrub(ds, scanned, placeholder);
    ScrubRowsFromSurvivors(ds, scanned, placeholder);
    forall k | 0 <= k < |r|
      ensures StartsWith(r[k].name, "detached-")
      ensures r[k].serial !in scanned ==> r[k].offline && !r[k].smartAvailable && !r[k].smartEnabled
      ensures PoolRefs(ds, pools) && r[k].pool.Some? ==> r[k].pool.value in pools
    {
      assert r[k] in r;
      var i :| 0 <= i < |ds| && Survives(ds, i) && r[k] == ScrubbedRow(ds[i], placeholder(i), scanned);
    }
  }

  // ---------------------------------------------------------------------
  // Part 2: update or create a row per scanned device (lines 108-272)
  // ---------------------------------------------------------------------

  /** The index of the first row with this serial, or |ds| when none has it. */
  function IndexOfSerial(ds: seq<Disk>, serial: string): nat {
    FirstIndex(ds, SerialColumn, serial)
  }

  /** The index of a serial depends only on the serials before and at it. */
  lemma {:induction false} IndexOfSerialStable(ds: seq<Disk>, es: seq<Disk>, serial: string)
    requires |ds| <= |es|
    requires forall k :: 0 <= k < |ds| ==> es[k].serial == ds[k].serial
    requires IndexOfSerial(ds, serial) < |ds|
    ensures IndexOfSerial(es, serial) == IndexOfSerial(ds, serial)
    decreases |ds|
  {
    if ds[0].serial != serial {
      IndexOfSerialStable(ds[1..], es[1..], serial);
    }
  }

  /** A row for a serial the table does not hold: no role, no pool and the
      SMART flags off until the third part decides them. */
  function NewDisk(name: string, serial: string): Disk {
    Disk(name, serial, 0, false, false, None, None, None, None, NoRole, false, false, "", None)
  }

  /** The btrfs uuid a row keeps: none when the device carries another
      filesystem. */
  function KeptBtrfsUuid(d: Device): Option<string> {
    if d.fstype.Some? && d.fstype.value != "btrfs" then None else d.uuid
  }

  /** `base` with the scanned facts of `d` copied in, before the pool link. */
  function DescribedRow(base: Disk, d: Device, byIdName: string -> string): Disk {
    base.(name := byIdName(d.name), size := d.size, parted := d.parted, offline := false,
          model := d.model, transport := d.transport, vendor := d.vendor,
          btrfsUuid := KeptBtrfsUuid(d), role := UpdatedRole(base.role, d, byIdName))
  }

  /** Overwrite row i, or append when i is one past the end. */
  function Put(ds: seq<Disk>, i: nat, row: Disk): (r: seq<Disk>)
    requires i <= |ds|
    ensures |r| == if i < |ds| then |ds| else |ds| + 1
    ensures r[i] == row
    ensures forall k :: 0 <= k < |ds| && k != i ==> r[k] == ds[k]
  {
    if i < |ds| then ds[i := row] else ds + [row]
  }

  /** The pool link of the second loop's body: the row takes the pool named
      by the device's label when that pool exists, and a root device marks it
      as the root pool; a root device whose label names no pool creates one.
      A root device without a label would create a pool named None, which
      cannot be saved, so the whole pass fails (None). Gives the disk's pool
      and the new Pool table. */
  function PoolLink(pools: map<string, Pool>, d: Device, byid: string, env: Collaborators)
    : (r: Option<(Option<string>, map<string, Pool>)>)
    ensures r.None? <==> d.root && d.fsLabel.None?
    ensures r.Some? ==> PoolsEvolve(pools, r.value.1)
    ensures r.Some? && r.value.0.Some? ==> r.value.0 == d.fsLabel && r.value.0.value in r.value.1
    ensures r.Some? && r.value.0.None? ==> !d.root && r.value.1 == pools
    ensures r.Some? && d.root ==> RootPoolOf(r.value.1, d)
    ensures r.Some? && d.fsLabel.Some? && d.fsLabel.value in pools ==> r.value.0 == d.fsLabel
  {
    if d.fsLabel.Some? && d.fsLabel.value in pools then
      var l := d.fsLabel.value;
      Some((Some(l), if d.root then pools[l := pools[l].(role := Some("root"))] else pools))
    else if !d.root then
      Some((None, pools))
    else if d.fsLabel.None? then
      None
    else
      var l := d.fsLabel.value;
      Some((Some(l), pools[l := Pool(l, "single", Some("root"), env.usageBound(l), env.btrfsUuid(byid))]))
  }

  /** The second loop's body for one device: its row, found by serial or
      created, records the scan and the pool link. */
  function UpsertDevice(st: Store, d: Device, env: Collaborators): Option<Store> {
    var byid := env.byIdName(d.name);
    var i := IndexOfSerial(st.disks, d.serial);
    var base := if i < |st.disks| then st.disks[i] else NewDisk(byid, d.serial);
    match PoolLink(st.pools, d, byid, env)
    case None => None
    case Some((pool, pools)) =>
      Some(Store(Put(st.disks, i, DescribedRow(base, d, env.byIdName).(pool := pool)), pools))
  }

  /** The second loop over the scan in order. */
  function UpsertAll(st: Store, scan: seq<Device>, env: Collaborators): Option<Store>
    decreases |scan|
  {
    if scan == [] then Some(st)
    else
      match UpsertAll(st, scan[..|scan| - 1], env)
      case None => None
      case Some(s) => UpsertDevice(s, scan[|scan| - 1], env)
  }

  /** What a row holds once device `d` has been recorded in it. */
  predicate RowDescribes(row: Disk, d: Device, byIdName: string -> string) {
    && row.name == byIdName(d.name)
    && row.serial == d.serial
    && row.size == d.size
    && row.parted == d.parted
    && !row.offline
    && row.model == d.model
    && row.transport == d.transport
    && row.vendor == d.vendor
    && row.btrfsUuid == KeptBtrfsUuid(d)
    && !row.role.Legacy?
    && (forall k :: k in ScanRoles(d, byIdName) ==>
          row.role.Roles? && k in row.role.roles && row.role.roles[k] == ScanRoles(d, byIdName)[k])
    && (row.pool.Some? ==> row.pool == d.fsLabel)
    && (d.root ==> row.pool.Some?)
  }

  /** Pools are never removed; an existing pool changes at most by being
      marked as the root pool. */
  predicate PoolsEvolve(before: map<string, Pool>, after: map<string, Pool>) {
    && before.Keys <= after.Keys
    && forall n :: n in before ==> after[n] == before[n] || after[n] == before[n].(role := Some("root"))
  }

  /** The pool named by a root device's label exists and has the root role. */
  predicate RootPoolOf(pools: map<string, Pool>, d: Device) {
    d.fsLabel.Some? && d.fsLabel.value in pools && pools[d.fsLabel.value].role == Some("root")
  }

  /** No later device in the scan has the serial of device j. */
  predicate LastOfSerial(scan: seq<Device>, j: nat)
    requires j < |scan|
  {
    forall k :: j < k < |scan| ==> scan[k].serial != scan[j].serial
  }

  /** The second part fails exactly when a root device has no label. */
  lemma {:induction false} UpsertAllFails(st: Store, scan: seq<Device>, env: Collaborators)
    ensures UpsertAll(st, scan, env).None? <==> exists d <- scan :: d.root && d.fsLabel.None?
    decreases |scan|
  {
    if scan != [] {
      var n := |scan| - 1;
      UpsertAllFails(st, scan[..n], env);
      assert scan == scan[..n] + [scan[n]];
      assert forall d <- scan :: d in scan[..n] || d == scan[n];
    }
  }

  /** A row updated from device `d` with a pool link allowed for it
      describes `d`. */
  lemma DescribedRowDescribes(base: Disk, d: Device, byIdName: string -> string, pool: Option<string>)
    requires base.serial == d.serial
    requires pool.Some? ==> pool == d.fsLabel
    requires d.root ==> pool.Some?
    ensures RowDescribes(DescribedRow(base, d, byIdName).(pool := pool), d, byIdName)
  {
  }

  /** One device's effect on the table. */
  lemma UpsertDeviceStep(st: Store, d: Device, env: Collaborators)
    requires DistinctSerials(st.disks) && PoolRefs(st.disks, st.pools)
    requires UpsertDevice(st, d, env).Some?
    ensures var t := UpsertDevice(st, d, env).value;
      var i := IndexOfSerial(t.disks, d.serial);
      && |st.disks| <= |t.disks|
      && (forall k :: |st.disks| <= k < |t.disks| ==> t.disks[k].serial == d.serial)
      && (forall k :: 0 <= k < |st.disks| ==> t.disks[k].serial == st.disks[k].serial)
      && (forall k :: 0 <= k < |st.disks| && st.disks[k].serial != d.serial ==> t.disks[k] == st.disks[k])
      && i < |t.disks| && RowDescribes(t.disks[i], d, env.byIdName)
      && DistinctSerials(t.disks)
      && PoolRefs(t.disks, t.pools)
      && PoolsEvolve(st.pools, t.pools)
      && (d.root ==> RootPoolOf(t.pools, d))
  {
    var t := UpsertDevice(st, d, env).value;
    var byid := env.byIdName(d.name);
    var i := IndexOfSerial(st.disks, d.serial);
    var base := if i < |st.disks| then st.disks[i] else NewDisk(byid, d.serial);
    var link := PoolLink(st.pools, d, byid, env).value;
    var row := DescribedRow(base, d, env.byIdName).(pool := link.0);
    assert t == Store(Put(st.disks, i, row), link.1);
    DescribedRowDescribes(base, d, env.byIdName, link.0);
    assert row.serial == d.serial;
    assert IndexOfSerial(t.disks, d.serial) == i;
    forall k | 0 <= k < |t.disks| && t.disks[k].pool.Some?
      ensures t.disks[k].pool.value in t.pools
    {
      if k != i {
        assert st.disks[k].pool.value in st.pools;
      }
    }
  }

  /** Rows of the table before the second part keep their place and serial;
      those whose serial was not scanned are untouched; added rows and rows
      with a scanned serial hold scanned serials and are online. */
  predicate RowsTracked(st: Store, u: Store, scan: seq<Device>) {
    && |st.disks| <= |u.disks|
    && (forall k :: 0 <= k < |st.disks| ==> u.disks[k].serial == st.disks[k].serial)
    && (forall k :: 0 <= k < |st.disks| && st.disks[k].serial !in ScannedSerials(scan) ==> u.disks[k] == st.disks[k])
    && (forall k :: |st.disks| <= k < |u.disks| ==> u.disks[k].serial in ScannedSerials(scan))
    && (forall k :: 0 <= k < |u.disks| && u.disks[k].serial in ScannedSerials(scan) ==> !u.disks[k].offline)
  }

  /** Every scanned serial has a row, and the last device of each serial is
      recorded in it. */
  predicate ScanRecorded(u: Store, scan: seq<Device>, byIdName: string -> string) {
    && (forall j :: 0 <= j < |scan| ==> IndexOfSerial(u.disks, scan[j].serial) < |u.disks|)
    && (forall j :: 0 <= j < |scan| && LastOfSerial(scan, j) ==>
          RowDescribes(u.disks[IndexOfSerial(u.disks, scan[j].serial)], scan[j], byIdName))
  }

  /** What the second part has established after a prefix of the scan. */
  predicate UpsertInv(st: Store, u: Store, scan: seq<Device>, byIdName: string -> string) {
    && RowsTracked(st, u, scan)
    && ScanRecorded(u, scan, byIdName)
    && DistinctSerials(u.disks)
    && PoolRefs(u.disks, u.pools)
    && PoolsEvolve(st.pools, u.pools)
    && (forall j :: 0 <= j < |scan| && scan[j].root ==> RootPoolOf(u.pools, scan[j]))
  }

  lemma RowsTrackedStep(st: Store, u: Store, scan: seq<Device>, d: Device, env: Collaborators)
    requires RowsTracked(st, u, scan) && DistinctSerials(u.disks) && PoolRefs(u.disks, u.pools)
    requires UpsertDevice(u, d, env).Some?
    ensures RowsTracked(st, UpsertDevice(u, d, env).value, scan + [d])
  {
    var t := UpsertDevice(u, d, env).value;
    UpsertDeviceStep(u, d, env);
    ScannedSerialsSnoc(scan, d);
    forall k | 0 <= k < |t.disks| && t.disks[k].serial in ScannedSerials(scan + [d])
      ensures !t.disks[k].offline
    {
      if t.disks[k].serial == d.serial {
        assert k == IndexOfSerial(t.disks, d.serial);
      }
    }
  }

  lemma ScanRecordedStep(u: Store, scan: seq<Device>, d: Device, env: Collaborators)
    requires ScanRecorded(u, scan, env.byIdName) && DistinctSerials(u.disks) && PoolRefs(u.disks, u.pools)
    requires UpsertDevice(u, d, env).Some?
    ensures ScanRecorded(UpsertDevice(u, d, env).value, scan + [d], env.byIdName)
  {
    var t := UpsertDevice(u, d, env).value;
    var scan' := scan + [d];
    UpsertDeviceStep(u, d, env);
    forall j | 0 <= j < |scan|
      ensures IndexOfSerial(t.disks, scan[j].serial) < |t.disks|
      ensures scan[j].serial != d.serial ==>
        IndexOfSerial(t.disks, scan[j].serial) == IndexOfSerial(u.disks, scan[j].serial)
    {
      if scan[j].serial != d.serial {
        IndexOfSerialStable(u.disks, t.disks, scan[j].serial);
      }
    }
    forall j | 0 <= j < |scan'| && LastOfSerial(scan', j)
      ensures RowDescribes(t.disks[IndexOfSerial(t.disks, scan'[j].serial)], scan'[j], env.byIdName)
    {
      if j < |scan| {
        assert scan'[j] == scan[j] && scan'[|scan|] == d;
        assert forall k :: j < k < |scan| ==> scan'[k] == scan[k];
        assert LastOfSerial(scan, j);
      }
    }
  }

  lemma UpsertInvStep(st: Store, u: Store, scan: seq<Device>, d: Device, env: Collaborators)
    requires UpsertInv(st, u, scan, env.byIdName)
    requires UpsertDevice(u, d, env).Some?
    ensures UpsertInv(st, UpsertDevice(u, d, env).value, scan + [d], env.byIdName)
  {
    var t := UpsertDevice(u, d, env).value;
    UpsertDeviceStep(u, d, env);
    RowsTrackedStep(st, u, scan, d, env);
    ScanRecordedStep(u, scan, d, env);
    PoolsEvolveTrans(st.pools, u.pools, t.pools);
    RootPoolsStep(u.pools, t.pools, scan, d);
  }

  lemma PoolsEvolveTrans(a: map<string, Pool>, b: map<string, Pool>, c: map<string, Pool>)
    requires PoolsEvolve(a, b) && PoolsEvolve(b, c)
    ensures PoolsEvolve(a, c)
  {
    forall n | n in a
      ensures c[n] == a[n] || c[n] == a[n].(role := Some("root"))
    {
      assert n in b;
    }
  }

  /** Root pools stay root pools as the pool table evolves. */
  lemma RootPoolsStep(p: map<string, Pool>, q: map<string, Pool>, scan: seq<Device>, d: Device)
    requires PoolsEvolve(p, q)
    requires forall j :: 0 <= j < |scan| && scan[j].root ==> RootPoolOf(p, scan[j])
    requires d.root ==> RootPoolOf(q, d)
    ensures forall j :: 0 <= j < |scan + [d]| && (scan + [d])[j].root ==> RootPoolOf(q, (scan + [d])[j])
  {
    forall j | 0 <= j < |scan + [d]| && (scan + [d])[j].root
      ensures RootPoolOf(q, (scan + [d])[j])
    {
      if j < |scan| {
        assert (scan + [d])[j] == scan[j];
        assert RootPoolOf(p, scan[j]);
      }
    }
  }

  /** What the second part establishes over the whole scan. */
  lemma {:induction false} UpsertAllFacts(st: Store, scan: seq<Device>, env: Collaborators)
    requires DistinctSerials(st.disks) && PoolRefs(st.disks, st.pools)
    requires UpsertAll(st, scan, env).Some?
    ensures UpsertInv(st, UpsertAll(st, scan, env).value, scan, env.byIdName)
    decreases |scan|
  {
    if scan == [] {
      UpsertInvStart(st, env.byIdName);
    } else {
      var n := |scan| - 1;
      var front := scan[..n];
      assert front + [scan[n]] == scan;
      var s := UpsertAll(st, front, env).value;
      assert UpsertAll(st, scan, env) == UpsertDevice(s, scan[n], env);
      UpsertAllFacts(st, front, env);
      UpsertInvStep(st, s, front, scan[n], env);
    }
  }

  /** Before any device is recorded the invariant holds of the store as read. */
  lemma UpsertInvStart(st: Store, byIdName: string -> string)
    requires DistinctSerials(st.disks) && PoolRefs(st.disks, st.pools)
    ensures UpsertInv(st, st, [], byIdName)
  {
    assert ScannedSerials([]) == {};
  }

  // ---------------------------------------------------------------------
  // Part 3: SMART flags of online rows (lines 274-309)
  // ---------------------------------------------------------------------

  /** Name prefixes of devices assumed to have no SMART support. */
  const NoSmartPrefixes: seq<string> := ["virtio-", "md-", "mmc-", "nvme-", "dm-name-luks-", "bcache", "nbd"]

  /** A row the third loop does not probe: a fake serial, or a by-id name
      of a device class without SMART. */
  predicate SkipsSmartProbe(row: Disk) {
    IsFakeSerial(row.serial) || exists p <- NoSmartPrefixes :: StartsWith(row.name, p)
  }

  /** The third loop's body as the source is written: a skipped row's
      cleared flags are never saved, because its `continue` jumps over
      `do.save()`, so the stored row keeps its old flags. */
  function SmartRefreshedAsWritten(row: Disk, probe: (string, string) -> SmartProbe): Disk {
    if row.offline || SkipsSmartProbe(row) then row
    else
      match probe(row.name, row.smartOptions)
      case Probed(a, e) => row.(smartAvailable := a, smartEnabled := e)
      case ProbeFailed => row.(smartAvailable := false, smartEnabled := false)
  }

  /** The third loop's body as intended: a skipped row is saved with both
      flags cleared. */
  function SmartRefreshed(row: Disk, probe: (string, string) -> SmartProbe): Disk {
    if row.offline then row
    else if SkipsSmartProbe(row) then row.(smartAvailable := false, smartEnabled := false)
    else
      match probe(row.name, row.smartOptions)
      case Probed(a, e) => row.(smartAvailable := a, smartEnabled := e)
      case ProbeFailed => row.(smartAvailable := false, smartEnabled := false)
  }

  /** The third loop as written, over the whole table. */
  function SmartRefresh(ds: seq<Disk>, probe: (string, string) -> SmartProbe): (r: seq<Disk>)
    ensures |r| == |ds|
    ensures forall i :: 0 <= i < |ds| ==> r[i] == SmartRefreshedAsWritten(ds[i], probe)
  {
    seq(|ds|, i requires 0 <= i < |ds| => SmartRefreshedAsWritten(ds[i], probe))
  }

  /** The third loop as intended, over the whole table. */
  function SmartRefreshIntended(ds: seq<Disk>, probe: (string, string) -> SmartProbe): (r: seq<Disk>)
    ensures |r| == |ds|
    ensures forall i :: 0 <= i < |ds| ==> r[i] == SmartRefreshed(ds[i], probe)
  {
    seq(|ds|, i requires 0 <= i < |ds| => SmartRefreshed(ds[i], probe))
  }

  /** As written, the refresh changes nothing but the two flags, and a flag
      is on afterwards only where the probe of an online, probed device
      reported it, or where it was already on in a row the pass does not
      probe. */
  lemma SmartFlagsAsWritten(row: Disk, probe: (string, string) -> SmartProbe)
    ensures var r := SmartRefreshedAsWritten(row, probe);
      && r == row.(smartAvailable := r.smartAvailable, smartEnabled := r.smartEnabled)
      && (r.smartAvailable ==>
            || (!r.offline && !SkipsSmartProbe(r) && probe(r.name, r.smartOptions) == Probed(true, r.smartEnabled))
            || (row.smartAvailable && (row.offline || SkipsSmartProbe(row))))
      && ((row.offline || SkipsSmartProbe(row)) ==> r == row)
  {
  }

  /** As intended, SMART flags are on only where the probe of an online,
      probed device reported them; the refresh changes nothing but the two
      flags. */
  lemma SmartFlagsOnlyFromProbe(row: Disk, probe: (string, string) -> SmartProbe)
    requires !row.offline || !row.smartAvailable
    ensures var r := SmartRefreshed(row, probe);
      && r == row.(smartAvailable := r.smartAvailable, smartEnabled := r.smartEnabled)
      && (r.smartAvailable ==>
            !r.offline && !SkipsSmartProbe(r) && probe(r.name, r.smartOptions) == Probed(true, r.smartEnabled))
  {
  }

  /** The skipped row's stale flag survives the pass as written: an online
      NVMe disk whose stored row says SMART is available keeps saying so,
      although the pass treats it as a device without SMART. */
  lemma SmartSkipKeepsStaleFlags(probe: (string, string) -> SmartProbe)
    ensures var row := Disk("nvme-Samsung_SSD_970_EVO_S1", "S1", 500, false, false, None, None, None,
                            None, NoRole, true, true, "", None);
      && SkipsSmartProbe(row)
      && SmartRefreshedAsWritten(row, probe).smartAvailable
      && !SmartRefreshed(row, probe).smartAvailable
  {
    var row := Disk("nvme-Samsung_SSD_970_EVO_S1", "S1", 500, false, false, None, None, None,
                    None, NoRole, true, true, "", None);
    assert NoSmartPrefixes[3] == "nvme-" && StartsWith(row.name, NoSmartPrefixes[3]);
  }

  // ---------------------------------------------------------------------
  // The whole pass
  // ---------------------------------------------------------------------

  /** The tables after one pass as written, or None when the pass fails and
      the transaction is rolled back. */
  function Reconciled(st: Store, scan: seq<Device>, env: Collaborators): Option<Store> {
    var scrubbed := Scrub(st.disks, ScannedSerials(scan), env.placeholder);
    match UpsertAll(Store(scrubbed, st.pools), scan, env)
    case None => None
    case Some(u) => Some(Store(SmartRefresh(u.disks, env.smartProbe), u.pools))
  }

  /** The tables after one pass with the intended third loop. */
  function ReconciledIntended(st: Store, scan: seq<Device>, env: Collaborators): Option<Store> {
    var scrubbed := Scrub(st.disks, ScannedSerials(scan), env.placeholder);
    match UpsertAll(Store(scrubbed, st.pools), scan, env)
    case None => None
    case Some(u) => Some(Store(SmartRefreshIntended(u.disks, env.smartProbe), u.pools))
  }

  /** The pass as written and as intended fail together, and differ only in
      the SMART flags of online rows the third loop does not probe: the
      intended pass clears them, the pass as written keeps what the second
      pass left. */
  lemma IntendedDiffersOnlyInSkippedFlags(st: Store, scan: seq<Device>, env: Collaborators)
    ensures ReconciledIntended(st, scan, env).Some? <==> Reconciled(st, scan, env).Some?
    ensures Reconciled(st, scan, env).Some? ==>
      var r := Reconciled(st, scan, env).value;
      var i := ReconciledIntended(st, scan, env).value;
      && i.pools == r.pools && |i.disks| == |r.disks|
      && forall k :: 0 <= k < |r.disks| ==>
           i.disks[k] == if !r.disks[k].offline && SkipsSmartProbe(r.disks[k])
                         then r.disks[k].(smartAvailable := false, smartEnabled := false)
                         else r.disks[k]
  {
  }

  /** The refresh changes nothing but the SMART flags. */
  lemma SmartRefreshKeepsRows(ds: seq<Disk>, probe: (string, string) -> SmartProbe)
    ensures var r := SmartRefresh(ds, probe);
      forall k :: 0 <= k < |ds| ==>
        r[k] == ds[k].(smartAvailable := r[k].smartAvailable, smartEnabled := r[k].smartEnabled)
  {
  }

  /** The tables between the second and third parts. */
  function Upserted(st: Store, scan: seq<Device>, env: Collaborators): Option<Store> {
    UpsertAll(Store(Scrub(st.disks, ScannedSerials(scan), env.placeholder), st.pools), scan, env)
  }

  /** What the first two parts establish together. */
  lemma UpsertedFacts(st: Store, scan: seq<Device>, env: Collaborators)
    requires PoolRefs(st.disks, st.pools)
    requires Upserted(st, scan, env).Some?
    ensures var s0 := Store(Scrub(st.disks, ScannedSerials(scan), env.placeholder), st.pools);
      var u := Upserted(st, scan, env).value;
      && UpsertInv(s0, u, scan, env.byIdName)
      && (forall k :: 0 <= k < |u.disks| && u.disks[k].serial !in ScannedSerials(scan) ==>
            && u.disks[k].offline && !u.disks[k].smartAvailable && !u.disks[k].smartEnabled
            && StartsWith(u.disks[k].name, "detached-")
            && !IsFakeSerial(u.disks[k].serial)
            && u.disks[k].serial in SerialsOf(st.disks))
  {
    var scanned := ScannedSerials(scan);
    var scrubbed := Scrub(st.disks, scanned, env.placeholder);
    var s0 := Store(scrubbed, st.pools);
    ScrubSerials(st.disks, scanned, env.placeholder);
    ScrubbedRows(st.disks, scanned, env.placeholder, st.pools);
    UpsertAllFacts(s0, scan, env);
    var u := Upserted(st, scan, env).value;
    forall k | 0 <= k < |u.disks| && u.disks[k].serial !in scanned
      ensures u.disks[k].serial in SerialsOf(scrubbed)
    {
      assert u.disks[k] == scrubbed[k];
    }
  }

  lemma ReconciledIsRefreshed(st: Store, scan: seq<Device>, env: Collaborators)
    ensures Reconciled(st, scan, env).Some? <==> Upserted(st, scan, env).Some?
    ensures Reconciled(st, scan, env).Some? ==>
      Reconciled(st, scan, env).value ==
        Store(SmartRefresh(Upserted(st, scan, env).value.disks, env.smartProbe), Upserted(st, scan, env).value.pools)
  {
  }

  /** The pass fails exactly when a scanned root device has no label. */
  lemma ReconcileFails(st: Store, scan: seq<Device>, env: Collaborators)
    ensures Reconciled(st, scan, env).None? <==> exists d <- scan :: d.root && d.fsLabel.None?
  {
    ReconciledIsRefreshed(st, scan, env);
    UpsertAllFails(Store(Scrub(st.disks, ScannedSerials(scan), env.placeholder), st.pools), scan, env);
  }

  /** After a pass: serials are distinct and every scanned serial has a row,
      which is online; every other row is offline, comes from the old table,
      has a real serial, a placeholder name and SMART off. */
  lemma ReconciledInventory(st: Store, scan: seq<Device>, env: Collaborators)
    requires PoolRefs(st.disks, st.pools)
    requires Reconciled(st, scan, env).Some?
    ensures var r := Reconciled(st, scan, env).value;
      && DistinctSerials(r.disks)
      && (forall d <- scan :: d.serial in SerialsOf(r.disks))
      && (forall k :: 0 <= k < |r.disks| ==> (!r.disks[k].offline <==> r.disks[k].serial in ScannedSerials(scan)))
      && (forall k :: 0 <= k < |r.disks| && r.disks[k].offline ==>
            && !r.disks[k].smartAvailable && !r.disks[k].smartEnabled
            && StartsWith(r.disks[k].name, "detached-")
            && !IsFakeSerial(r.disks[k].serial)
            && r.disks[k].serial in SerialsOf(st.disks))
  {
    ReconciledIsRefreshed(st, scan, env);
    UpsertedFacts(st, scan, env);
    var u := Upserted(st, scan, env).value;
    var r := Reconciled(st, scan, env).value;
    SmartRefreshKeepsRows(u.disks, env.smartProbe);
    assert forall k :: 0 <= k < |r.disks| ==> r.disks[k].serial == u.disks[k].serial && r.disks[k].offline == u.disks[k].offline;
    forall d <- scan
      ensures d.serial in SerialsOf(r.disks)
    {
      var j :| 0 <= j < |scan| && scan[j] == d;
      assert r.disks[IndexOfSerial(u.disks, d.serial)].serial == d.serial;
    }
  }

  /** After a pass every disk's pool exists, no pool is lost or changed
      except by being marked root, and every root device's label names a
      pool marked root. */
  lemma ReconciledPools(st: Store, scan: seq<Device>, env: Collaborators)
    requires PoolRefs(st.disks, st.pools)
    requires Reconciled(st, scan, env).Some?
    ensures var r := Reconciled(st, scan, env).value;
      && PoolRefs(r.disks, r.pools)
      && PoolsEvolve(st.pools, r.pools)
      && (forall d <- scan :: d.root ==> RootPoolOf(r.pools, d))
  {
    ReconciledIsRefreshed(st, scan, env);
    UpsertedFacts(st, scan, env);
    var u := Upserted(st, scan, env).value;
    SmartRefreshKeepsRows(u.disks, env.smartProbe);
    forall d <- scan | d.root
      ensures RootPoolOf(u.pools, d)
    {
      var j :| 0 <= j < |scan| && scan[j] == d;
    }
  }

  /** After a pass, the row of every scanned device (the last device, when
      several share a serial) records what the scan reported. */
  lemma ReconciledDescribesScan(st: Store, scan: seq<Device>, env: Collaborators)
    requires PoolRefs(st.disks, st.pools)
    requires Reconciled(st, scan, env).Some?
    ensures var r := Reconciled(st, scan, env).value;
      forall j :: 0 <= j < |scan| && LastOfSerial(scan, j) ==>
        IndexOfSerial(r.disks, scan[j].serial) < |r.disks| &&
        RowDescribes(r.disks[IndexOfSerial(r.disks, scan[j].serial)], scan[j], env.byIdName)
  {
    ReconciledIsRefreshed(st, scan, env);
    UpsertedFacts(st, scan, env);
    var u := Upserted(st, scan, env).value;
    var r := Reconciled(st, scan, env).value;
    SmartRefreshKeepsRows(u.disks, env.smartProbe);
    forall j | 0 <= j < |scan| && LastOfSerial(scan, j)
      ensures IndexOfSerial(r.disks, scan[j].serial) < |r.disks|
      ensures RowDescribes(r.disks[IndexOfSerial(r.disks, scan[j].serial)], scan[j], env.byIdName)
    {
      IndexOfSerialStable(u.disks, r.disks, scan[j].serial);
    }
  }

  /** After a pass the SMART flags of every online row come from the probe,
      and are off for devices the pass does not probe. */
  lemma ReconciledSmart(st: Store, scan: seq<Device>, env: Collaborators)
    requires ReconciledIntended(st, scan, env).Some?
    ensures var r := ReconciledIntended(st, scan, env).value;
      forall k :: 0 <= k < |r.disks| && !r.disks[k].offline ==>
        var p := env.smartProbe(r.disks[k].name, r.disks[k].smartOptions);
        && r.disks[k].smartAvailable == (!SkipsSmartProbe(r.disks[k]) && p.Probed? && p.available)
        && r.disks[k].smartEnabled == (!SkipsSmartProbe(r.disks[k]) && p.Probed? && p.enabled)
  {
  }

  /** After a pass as written the SMART flags of every online, probed row
      come from the probe; an online row the pass does not probe keeps the
      flags the second pass left it with. */
  lemma ReconciledSmartAsWritten(st: Store, scan: seq<Device>, env: Collaborators)
    requires Reconciled(st, scan, env).Some?
    ensures var r := Reconciled(st, scan, env).value;
      var u := Upserted(st, scan, env).value;
      && |r.disks| == |u.disks|
      && forall k :: 0 <= k < |r.disks| && !r.disks[k].offline ==>
        var p := env.smartProbe(r.disks[k].name, r.disks[k].smartOptions);
        && (!SkipsSmartProbe(r.disks[k]) ==>
              && r.disks[k].smartAvailable == (p.Probed? && p.available)
              && r.disks[k].smartEnabled == (p.Probed? && p.enabled))
        && (SkipsSmartProbe(r.disks[k]) ==> r.disks[k] == u.disks[k])
  {
    ReconciledIsRefreshed(st, scan, env);
  }
}
