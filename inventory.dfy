/** The Disk and Pool tables as the disk views change them in place
    (storageadmin/views/disk.py): the rescan, the wipe, the role change with
    its guarded wipe, and the removal of an offline disk. Each view runs in
    one database transaction, so the methods work on local copies and write
    the fields only when the view succeeds. */
module Inventory {
  import opened Wrappers
  import opened Text
  import opened DiskModel
  import opened DiskRoles
  import opened DiskNames
  import opened Reconcile

  /** Why a disk view refused or failed. */
  datatype DiskError =
    | NoSuchDisk                                          // no row, or several rows, with the name
    | BadRole(reason: NameError)                          // the role column cannot be read
    | NameMismatch(redirected: string, reversed: string)  // the redirect does not lead back to the disk
    | WipeFailed                                          // wipe_disk raised
    | RedirectWithWipe                                    // a redirect change and a wipe in one request
    | PoolMemberWipe                                      // a wipe of a disk that belongs to a pool
    | NotOffline                                          // removal of an attached disk

  // ---------------------------------------------------------------------
  // Looking a disk up by name
  // ---------------------------------------------------------------------

  /** The index of the first row with this name, or |ds| when none has it. */
  function FirstNamed(ds: seq<Disk>, name: string): nat {
    FirstIndex(ds, NameColumn, name)
  }

  /** Disk.objects.get(name=...): the row when exactly one row has the name;
      with none or several, get raises. */
  function FindByName(ds: seq<Disk>, name: string): (r: Option<nat>)
    ensures r.Some? ==> r.value < |ds| && ds[r.value].name == name
    ensures r.Some? ==> forall j :: 0 <= j < |ds| && j != r.value ==> ds[j].name != name
  {
    var i := FirstNamed(ds, name);
    if i == |ds| then None
    else if FirstNamed(ds[i + 1..], name) < |ds| - i - 1 then None
    else
      assert forall j :: i < j < |ds| ==> ds[j] == ds[i + 1..][j - i - 1];
      Some(i)
  }

  /** get finds a row exactly when one row has the name. */
  lemma FindByNameUnique(ds: seq<Disk>, name: string, i: nat)
    requires i < |ds| && ds[i].name == name
    requires forall j :: 0 <= j < |ds| && j != i ==> ds[j].name != name
    ensures FindByName(ds, name) == Some(i)
  {
    var tail := ds[i + 1..];
    assert FirstNamed(ds, name) == i;
    assert forall j :: 0 <= j < |tail| ==> tail[j] == ds[i + 1 + j];
  }

  // ---------------------------------------------------------------------
  // _wipe (lines 456-480)
  // ---------------------------------------------------------------------

  /** The checks of the wipe view: the row named `dname`, the device its
      role redirects to, and whether that device is a partition. The
      redirected name must reverse to the row's own name. */
  function WipeTarget(ds: seq<Disk>, dname: string): (r: Result<(nat, string, bool), DiskError>)
    ensures r.Ok? ==> r.value.0 < |ds|
  {
    match FindByName(ds, dname)
    case None => Err(NoSuchDisk)
    case Some(i) =>
      match RoleFilterDiskName(ds[i])
      case Err(e) => Err(BadRole(e))
      case Ok(target) =>
        var (reversed, isPartition) := ReverseRoleFilterName(target);
        if reversed != ds[i].name then Err(NameMismatch(target, reversed))
        else Ok((i, target, isPartition))
  }

  /** A wipe only ever reaches the named disk itself, or one of its
      partitions (its name, a dash, and a `part<N>` field). */
  lemma WipeTargetIsDiskOrPartition(ds: seq<Disk>, dname: string)
    requires WipeTarget(ds, dname).Ok?
    ensures var (i, target, isPartition) := WipeTarget(ds, dname).value;
      && FindByName(ds, dname) == Some(i)
      && (!isPartition ==> target == dname)
      && (isPartition ==>
            IsPartitionField(LastField(target)) &&
            (target == dname + "-" + LastField(target) || (dname == "" && target == LastField(target))))
  {
  }

  /** A disk without a redirect is wiped as a whole exactly when its name
      does not itself end in a `part<N>` field. */
  lemma WipeWholeDisk(ds: seq<Disk>, i: nat)
    requires i < |ds| && FindByName(ds, ds[i].name) == Some(i)
    requires ds[i].role.NoRole? || (ds[i].role.Roles? && "redirect" !in ds[i].role.roles)
    ensures WipeTarget(ds, ds[i].name).Ok? <==> !IsPartitionField(LastField(ds[i].name))
    ensures WipeTarget(ds, ds[i].name).Ok? ==> WipeTarget(ds, ds[i].name) == Ok((i, ds[i].name, false))
  {
  }

  /** A disk redirected to one of its partitions is wiped at that partition. */
  lemma WipePartitionRedirect(ds: seq<Disk>, i: nat, n: string)
    requires i < |ds| && FindByName(ds, ds[i].name) == Some(i)
    requires n != [] && '-' !in n && n[0] != '\n'
    requires ds[i].role.Roles? && "redirect" in ds[i].role.roles
    requires ds[i].role.roles["redirect"] == Str(ds[i].name + "-part" + n)
    ensures WipeTarget(ds, ds[i].name) == Ok((i, ds[i].name + "-part" + n, true))
  {
    ReversePartitionRedirect(ds[i].name, n);
  }

  /** The wipe view's result, table and log of wiped devices. `wipeOk` says
      whether wipe_disk succeeded. */
  function WipeResult(ds: seq<Disk>, log: seq<string>, dname: string, wipeOk: bool)
    : (Result<Disk, DiskError>, seq<Disk>, seq<string>)
  {
    match WipeTarget(ds, dname)
    case Err(e) => (Err(e), ds, log)
    case Ok((i, target, isPartition)) =>
      if !wipeOk then (Err(WipeFailed), ds, log)
      else
        var row := ds[i].(parted := isPartition, btrfsUuid := None);
        (Ok(row), ds[i := row], log + [target])
  }

  // ---------------------------------------------------------------------
  // _role_disk (lines 538-612)
  // ---------------------------------------------------------------------

  /** What the role view decides to do. */
  datatype RoleStep = KeepRole | SaveRole(role: Role) | WipeDisk

  /** The redirect a disk has, "" standing for none. */
  function PriorRedirect(disk: Disk): RoleValue {
    var roles := PreviousRoles(disk.role);
    if "redirect" in roles then roles["redirect"] else Str("")
  }

  /** The role view's decision for one request: a redirect change is saved
      unless a wipe is also ticked; a wipe alone is refused for pool
      members. */
  function RolePlan(disk: Disk, redirectPart: string, deleteTick: bool): Result<RoleStep, DiskError> {
    if disk.role.Legacy? then Err(BadRole(RoleNotJson))
    else
      var roles := PreviousRoles(disk.role);
      if PriorRedirect(disk) != Str(redirectPart) then
        if deleteTick then Err(RedirectWithWipe)
        else if redirectPart != "" then Ok(SaveRole(Roles(roles["redirect" := Str(redirectPart)])))
        else Ok(SaveRole(Roles(roles - {"redirect"})))
      else if deleteTick then
        if disk.pool.Some? then Err(PoolMemberWipe) else Ok(WipeDisk)
      else Ok(KeepRole)
  }

  /** A redirect is never changed and wiped in one request, and pool
      members are never wiped: each outcome, for every request. */
  lemma RolePlanOutcomes(disk: Disk, redirectPart: string, deleteTick: bool)
    requires !disk.role.Legacy?
    ensures var r := RolePlan(disk, redirectPart, deleteTick);
      var change := PriorRedirect(disk) != Str(redirectPart);
      && (r == Err(RedirectWithWipe) <==> deleteTick && change)
      && (r == Err(PoolMemberWipe) <==> deleteTick && !change && disk.pool.Some?)
      && (r == Ok(WipeDisk) <==> deleteTick && !change && disk.pool.None?)
      && (r == Ok(KeepRole) <==> !deleteTick && !change)
      && (r.Ok? && r.value.SaveRole? <==> !deleteTick && change)
  {
  }

  /** A saved role carries the requested redirect, or none for "", and
      every other role unchanged; the name filter then leads to it. */
  lemma SavedRoleRedirects(disk: Disk, redirectPart: string, deleteTick: bool)
    requires RolePlan(disk, redirectPart, deleteTick).Ok?
    requires RolePlan(disk, redirectPart, deleteTick).value.SaveRole?
    ensures var role := RolePlan(disk, redirectPart, deleteTick).value.role;
      && role.Roles?
      && (redirectPart != "" ==> "redirect" in role.roles && role.roles["redirect"] == Str(redirectPart))
      && (redirectPart == "" ==> "redirect" !in role.roles)
      && (forall k :: k != "redirect" ==>
            (k in role.roles <==> k in PreviousRoles(disk.role)) &&
            (k in role.roles ==> role.roles[k] == PreviousRoles(disk.role)[k]))
      && RoleFilterDiskName(disk.(role := role)) == Ok(if redirectPart == "" then disk.name else redirectPart)
  {
  }

  /** Repeating a saved request changes nothing; repeated with the wipe
      ticked it now proceeds to the wipe, unless the disk is in a pool. */
  lemma SavedRoleSettles(disk: Disk, redirectPart: string)
    requires RolePlan(disk, redirectPart, false).Ok?
    requires RolePlan(disk, redirectPart, false).value.SaveRole?
    ensures var d2 := disk.(role := RolePlan(disk, redirectPart, false).value.role);
      && RolePlan(d2, redirectPart, false) == Ok(KeepRole)
      && RolePlan(d2, redirectPart, true) == (if disk.pool.Some? then Err(PoolMemberWipe) else Ok(WipeDisk))
  {
  }

  /** The role view's result, table and log of wiped devices. */
  function RoleDiskResult(ds: seq<Disk>, log: seq<string>, dname: string, redirectPart: string,
                          deleteTick: bool, wipeOk: bool): (Result<Disk, DiskError>, seq<Disk>, seq<string>)
  {
    match FindByName(ds, dname)
    case None => (Err(NoSuchDisk), ds, log)
    case Some(i) =>
      match RolePlan(ds[i], redirectPart, deleteTick)
      case Err(e) => (Err(e), ds, log)
      case Ok(KeepRole) => (Ok(ds[i]), ds, log)
      case Ok(SaveRole(role)) =>
        var row := ds[i].(role := role);
        (Ok(row), ds[i := row], log)
      case Ok(WipeDisk) => WipeResult(ds, log, dname, wipeOk)
  }

  /** Redirecting a disk to a partition and then asking for the wipe wipes
      that partition and nothing else. */
  lemma RedirectThenWipe(ds: seq<Disk>, i: nat, n: string, log: seq<string>)
    requires i < |ds| && FindByName(ds, ds[i].name) == Some(i)
    requires n != [] && '-' !in n && n[0] != '\n'
    requires ds[i].pool.None?
    requires RoleDiskResult(ds, log, ds[i].name, ds[i].name + "-part" + n, false, true).0.Ok?
    ensures var (_, ds2, log2) := RoleDiskResult(ds, log, ds[i].name, ds[i].name + "-part" + n, false, true);
      var (r, ds3, log3) := RoleDiskResult(ds2, log2, ds[i].name, ds[i].name + "-part" + n, true, true);
      && r.Ok? && r.value.parted
      && log3 == log + [ds[i].name + "-part" + n]
      && |ds3| == |ds|
      && (forall k :: 0 <= k < |ds| && k != i ==> ds3[k] == ds[k])
  {
    var dname := ds[i].name;
    var part := dname + "-part" + n;
    var (_, ds2, log2) := RoleDiskResult(ds, log, dname, part, false, true);
    RedirectSaved(ds, i, part, log);
    FindByNameUnique(ds2, dname, i);
    WipePartitionRedirect(ds2, i, n);
  }

  /** The first request of RedirectThenWipe: the row keeps its place and
      name, now redirects to `part`, and nothing else changes. */
  lemma RedirectSaved(ds: seq<Disk>, i: nat, part: string, log: seq<string>)
    requires i < |ds| && FindByName(ds, ds[i].name) == Some(i)
    requires part != "" && ds[i].pool.None?
    requires RoleDiskResult(ds, log, ds[i].name, part, false, true).0.Ok?
    ensures var (_, ds2, log2) := RoleDiskResult(ds, log, ds[i].name, part, false, true);
      && |ds2| == |ds| && ds2[i].name == ds[i].name && ds2[i].pool.None? && log2 == log
      && (forall k :: 0 <= k < |ds| && k != i ==> ds2[k] == ds[k])
      && ds2[i].role.Roles? && "redirect" in ds2[i].role.roles && ds2[i].role.roles["redirect"] == Str(part)
  {
    if RolePlan(ds[i], part, false) != Ok(KeepRole) {
      SavedRoleRedirects(ds[i], part, false);
    }
  }

  // ---------------------------------------------------------------------
  // delete (lines 406-423)
  // ---------------------------------------------------------------------

  /** The row the delete view removes: the one named `dname`, if offline. */
  function DeleteTarget(ds: seq<Disk>, dname: string): (r: Result<nat, DiskError>)
    ensures r.Ok? ==> r.value < |ds|
  {
    match FindByName(ds, dname)
    case None => Err(NoSuchDisk)
    case Some(i) => if !ds[i].offline then Err(NotOffline) else Ok(i)
  }

  /** Removal takes away exactly the one offline row with the name and keeps
      the others in order. */
  lemma DeleteRemovesOneOfflineRow(ds: seq<Disk>, dname: string)
    requires DeleteTarget(ds, dname).Ok?
    ensures var i := DeleteTarget(ds, dname).value;
      var rest := ds[..i] + ds[i + 1..];
      && ds[i].offline && ds[i].name == dname
      && (forall x <- rest :: x.name != dname)
      && multiset(rest) + multiset{ds[i]} == multiset(ds)
  {
    var i := DeleteTarget(ds, dname).value;
    var rest := ds[..i] + ds[i + 1..];
    assert ds == ds[..i] + [ds[i]] + ds[i + 1..];
    forall x <- rest
      ensures x.name != dname
    {
      var k :| 0 <= k < |rest| && rest[k] == x;
      assert x == if k < i then ds[k] else ds[k + 1];
    }
  }

  /** Removing a row keeps every remaining disk's pool reference. */
  lemma RemovePreservesPoolRefs(ds: seq<Disk>, i: nat, pools: map<string, Pool>)
    requires i < |ds| && PoolRefs(ds, pools)
    ensures PoolRefs(ds[..i] + ds[i + 1..], pools)
  {
    var rest := ds[..i] + ds[i + 1..];
    assert forall k :: 0 <= k < |rest| ==> rest[k] == if k < i then ds[k] else ds[k + 1];
  }

  // ---------------------------------------------------------------------
  // The three loops of _update_disk_state
  // ---------------------------------------------------------------------

  /** The first loop: rename every row, delete duplicate and fake serials,
      mark the rows of missing disks offline with SMART off. */
  method ScrubRows(ds: seq<Disk>, scanned: set<string>, placeholder: nat -> string) returns (kept: seq<Disk>)
    ensures kept == Scrub(ds, scanned, placeholder)
  {
    kept := [];
    var seen: seq<string> := [];
    var i := 0;
    while i < |ds|
      invariant 0 <= i <= |ds|
      invariant kept == Scrub(ds[..i], scanned, placeholder)
      invariant seen == SerialsOf(kept)
    {
      var row := ds[i].(name := "detached-" + placeholder(i));
      assert ds[..i + 1][..i] == ds[..i];
      if row.serial in seen || IsFakeSerial(row.serial) {
        // the row is deleted
      } else {
        seen := seen + [row.serial];
        if row.serial !in scanned {
          row := row.(offline := true, smartAvailable := false, smartEnabled := false);
        }
        assert SerialsOf(kept + [row]) == SerialsOf(kept) + [row.serial];
        kept := kept + [row];
      }
      i := i + 1;
    }
    assert ds[..i] == ds;
  }

  /** The body of the second loop: update or create the row of one device
      and link it to its pool. None when a root pool named None would have
      to be saved. */
  method UpsertOne(st: Store, d: Device, env: Collaborators) returns (r: Option<Store>)
    ensures r == UpsertDevice(st, d, env)
  {
    var byid := env.byIdName(d.name);
    var idx := IndexOfSerial(st.disks, d.serial);
    var dob: Disk;
    if idx < |st.disks| {
      dob := st.disks[idx].(name := byid);
    } else {
      dob := NewDisk(byid, d.serial);
    }
    dob := dob.(size := d.size, parted := d.parted, offline := false, model := d.model,
                transport := d.transport, vendor := d.vendor, btrfsUuid := d.uuid);
    if d.fstype.Some? && d.fstype.value != "btrfs" {
      dob := dob.(btrfsUuid := None);
    }
    dob := dob.(role := UpdatedRole(dob.role, d, env.byIdName));
    var newPools := st.pools;
    if d.fsLabel.Some? && d.fsLabel.value in newPools {
      var l := d.fsLabel.value;
      dob := dob.(pool := Some(l));
      if d.root {
        newPools := newPools[l := newPools[l].(role := Some("root"))];
      }
    } else {
      dob := dob.(pool := None);
    }
    if dob.pool.None? && d.root {
      if d.fsLabel.None? {
        return None;
      }
      var l := d.fsLabel.value;
      newPools := newPools[l := Pool(l, "single", Some("root"), env.usageBound(l), env.btrfsUuid(dob.name))];
      dob := dob.(pool := Some(l));
    }
    r := Some(Store(Put(st.disks, idx, dob), newPools));
  }

  /** The second loop: every scanned device in order; the first failure
      ends the pass. */
  method UpsertDevices(st: Store, scan: seq<Device>, env: Collaborators) returns (r: Option<Store>)
    ensures r == UpsertAll(st, scan, env)
  {
    var cur := st;
    var j := 0;
    while j < |scan|
      invariant 0 <= j <= |scan|
      invariant UpsertAll(st, scan[..j], env) == Some(cur)
    {
      assert scan[..j + 1][..j] == scan[..j];
      var next := UpsertOne(cur, scan[j], env);
      if next.None? {
        UpsertAllFails(st, scan[..j + 1], env);
        UpsertAllFails(st, scan, env);
        assert scan[j] in scan;
        return None;
      }
      cur := next.value;
      j := j + 1;
    }
    assert scan[..j] == scan;
    r := Some(cur);
  }

  /** The third loop: the SMART flags of every online row. A row the loop
      does not probe gets its flags cleared, but its `continue` skips the
      save, so the stored row keeps its flags. */
  method RefreshSmartFlags(ds: seq<Disk>, probe: (string, string) -> SmartProbe) returns (r: seq<Disk>)
    ensures r == SmartRefresh(ds, probe)
  {
    r := ds;
    var k := 0;
    while k < |r|
      invariant 0 <= k <= |r| == |ds|
      invariant forall m :: 0 <= m < k ==> r[m] == SmartRefreshedAsWritten(ds[m], probe)
      invariant forall m :: k <= m < |r| ==> r[m] == ds[m]
    {
      var row := r[k];
      k := k + 1;
      if !row.offline {
        if SkipsSmartProbe(row) {
          row := row.(smartAvailable := false, smartEnabled := false);
          continue;
        }
        match probe(row.name, row.smartOptions) {
          case Probed(a, e) =>
            row := row.(smartAvailable := a, smartEnabled := e);
          case ProbeFailed =>
            row := row.(smartAvailable := false, smartEnabled := false);
        }
      }
      r := r[k - 1 := row];
    }
  }

  class Inventory {
    /** The Disk table in its iteration order. */
    var disks: seq<Disk>
    /** The Pool table by name. */
    var pools: map<string, Pool>
    /** The devices wipe_disk was run on, in order. */
    var wiped: seq<string>

    /** The foreign key from a disk to its pool holds. */
    predicate Valid()
      reads this
    {
      PoolRefs(disks, pools)
    }

    constructor (disks0: seq<Disk>, pools0: map<string, Pool>)
      requires PoolRefs(disks0, pools0)
      ensures Valid()
      ensures disks == disks0 && pools == pools0 && wiped == []
    {
      disks := disks0;
      pools := pools0;
      wiped := [];
    }

    /** _update_disk_state: reconcile the tables with one scan. */
    method UpdateDiskState(scan: seq<Device>, env: Collaborators) returns (ok: bool)
      requires Valid()
      modifies this
      ensures ok <==> Reconciled(old(Store(disks, pools)), scan, env).Some?
      ensures ok ==> Store(disks, pools) == Reconciled(old(Store(disks, pools)), scan, env).value
      ensures !ok ==> disks == old(disks) && pools == old(pools)
      ensures wiped == old(wiped)
      ensures Valid()
      ensures ok ==> DistinctSerials(disks)
    {
      var st := Store(disks, pools);
      var scanned := set d <- scan :: d.serial;
      var kept := ScrubRows(disks, scanned, env.placeholder);
      var upserted := UpsertDevices(Store(kept, pools), scan, env);
      if upserted.None? {
        return false;
      }
      var refreshed := RefreshSmartFlags(upserted.value.disks, env.smartProbe);
      ReconciledInventory(st, scan, env);
      ReconciledPools(st, scan, env);
      disks := refreshed;
      pools := upserted.value.pools;
      ok := true;
    }

    /** _wipe: wipe the device the named disk redirects to. */
    method Wipe(dname: string, wipeOk: bool) returns (r: Result<Disk, DiskError>)
      requires Valid()
      modifies this
      ensures (r, disks, wiped) == WipeResult(old(disks), old(wiped), dname, wipeOk)
      ensures pools == old(pools)
      ensures Valid()
    {
      var found := FindByName(disks, dname);
      if found.None? {
        return Err(NoSuchDisk);
      }
      var i := found.value;
      var disk := disks[i];
      var filtered := RoleFilterDiskName(disk);
      if filtered.Err? {
        return Err(BadRole(filtered.error));
      }
      var diskName := filtered.value;
      var (reverseName, isPartition) := ReverseRoleFilterName(diskName);
      if reverseName != disk.name {
        return Err(NameMismatch(diskName, reverseName));
      }
      if !wipeOk {
        return Err(WipeFailed);
      }
      wiped := wiped + [diskName];
      disk := disk.(parted := isPartition, btrfsUuid := None);
      disks := disks[i := disk];
      r := Ok(disk);
    }

    /** _role_disk: change the redirect role, or wipe, but not both. */
    method RoleDisk(dname: string, redirectPart: string, deleteTick: bool, wipeOk: bool)
      returns (r: Result<Disk, DiskError>)
      requires Valid()
      modifies this
      ensures (r, disks, wiped) == RoleDiskResult(old(disks), old(wiped), dname, redirectPart, deleteTick, wipeOk)
      ensures pools == old(pools)
      ensures Valid()
    {
      var found := FindByName(disks, dname);
      if found.None? {
        return Err(NoSuchDisk);
      }
      var i := found.value;
      var disk := disks[i];
      if disk.role.Legacy? {
        return Err(BadRole(RoleNotJson));
      }
      var roles := PreviousRoles(disk.role);
      var priorRedirect := Str("");
      if "redirect" in roles {
        priorRedirect := roles["redirect"];
      }
      var redirectRoleChange := false;
      if Str(redirectPart) != priorRedirect {
        redirectRoleChange := true;
        if redirectPart != "" {
          roles := roles["redirect" := Str(redirectPart)];
        } else if "redirect" in roles {
          roles := roles - {"redirect"};
        }
      }
      if redirectRoleChange {
        if deleteTick {
          return Err(RedirectWithWipe);
        }
        disk := disk.(role := Roles(roles));
        disks := disks[i := disk];
        return Ok(disk);
      } else if deleteTick {
        if disk.pool.Some? {
          return Err(PoolMemberWipe);
        }
        r := Wipe(dname, wipeOk);
        return;
      }
      r := Ok(disk);
    }

    /** delete: remove the named disk's row when it is offline. */
    method Delete(dname: string) returns (err: Option<DiskError>)
      requires Valid()
      modifies this
      ensures match DeleteTarget(old(disks), dname)
        case Err(e) => err == Some(e) && disks == old(disks)
        case Ok(i) => err.None? && disks == old(disks)[..i] + old(disks)[i + 1..]
      ensures pools == old(pools) && wiped == old(wiped)
      ensures Valid()
    {
      var found := FindByName(disks, dname);
      if found.None? {
        return Some(NoSuchDisk);
      }
      var i := found.value;
      if !disks[i].offline {
        return Some(NotOffline);
      }
      RemovePreservesPoolRefs(disks, i, pools);
      disks := disks[..i] + disks[i + 1..];
      err := None;
    }
  }
}
