/** The role field update that each scan applies to a disk row
    (storageadmin/views/disk.py, lines 149-241). */
module DiskRoles {
  import opened Wrappers
  import opened Text
  import opened DiskModel

  /** The roles scan_disks findings can assign, as listed at lines 44-45. The
      derivation below writes the keys "bcachecdev" and "nbd", which are not in
      this list. */
  const ScanDisksKnownRoles: seq<string> :=
    ["mdraid", "root", "LUKS", "openLUKS", "bcache", "bcache-cdev", "partitions"]

  /** The partitions dict re-keyed by by-id names; when two partitions get the
      same by-id name the one iterated later wins. */
  function ByIdPartitions(parts: seq<(string, string)>, byIdName: string -> string): (r: map<string, string>)
    ensures r.Keys == set p <- parts :: byIdName(p.0)
  {
    if parts == [] then map[]
    else
      var n := |parts| - 1;
      var r := ByIdPartitions(parts[..n], byIdName)[byIdName(parts[n].0) := parts[n].1];
      assert parts == parts[..n] + [parts[n]];
      r
  }

  /** Each by-id name keeps the value of the last partition with that name. */
  lemma {:induction false} ByIdPartitionsValues(parts: seq<(string, string)>, byIdName: string -> string, key: string)
    requires key in ByIdPartitions(parts, byIdName)
    ensures exists j ::
      0 <= j < |parts| && LastById(parts, byIdName, j, key) && ByIdPartitions(parts, byIdName)[key] == parts[j].1
    decreases |parts|
  {
    var n := |parts| - 1;
    var front := ByIdPartitions(parts[..n], byIdName);
    var r := ByIdPartitions(parts, byIdName);
    assert r == front[byIdName(parts[n].0) := parts[n].1];
    if key == byIdName(parts[n].0) {
      assert LastById(parts, byIdName, n, key);
    } else {
      assert key in front;
      ByIdPartitionsValues(parts[..n], byIdName, key);
      var j :| 0 <= j < n && LastById(parts[..n], byIdName, j, key) && front[key] == parts[..n][j].1;
      ByIdPartitionsLastStep(parts, byIdName, j, key);
      assert r[key] == parts[j].1;
    }
  }

  lemma ByIdPartitionsLastStep(parts: seq<(string, string)>, byIdName: string -> string, j: nat, key: string)
    requires j < |parts| - 1 && LastById(parts[..|parts| - 1], byIdName, j, key)
    requires byIdName(parts[|parts| - 1].0) != key
    ensures LastById(parts, byIdName, j, key)
  {
    var n := |parts| - 1;
    forall i | j < i < |parts|
      ensures byIdName(parts[i].0) != key
    {
      if i < n {
        assert parts[..n][i] == parts[i];
      }
    }
  }

  /** Pair `j` is the last of `parts` whose partition has by-id name `key`. */
  predicate LastById(parts: seq<(string, string)>, byIdName: string -> string, j: nat, key: string)
    requires j < |parts|
  {
    byIdName(parts[j].0) == key && forall i :: j < i < |parts| ==> byIdName(parts[i].0) != key
  }

  /** The roles this scan's findings assign to a device. Every condition is
      evaluated; none excludes another. */
  function ScanRoles(d: Device, byIdName: string -> string): map<string, RoleValue> {
    var mdraid := if d.fstype == Some("isw_raid_member") || d.fstype == Some("linux_raid_member")
                  then map["mdraid" := Str(PyStr(d.fstype))] else map[];
    var luks := if d.fstype == Some("crypto_LUKS") then map["LUKS" := Str(PyStr(d.uuid))] else map[];
    var openLuks := if d.kind == "crypt" then map["openLUKS" := Str("dm-name-" + d.name)] else map[];
    var bcache := if d.fstype == Some("bcache") then map["bcache" := Str("bcache-" + PyStr(d.uuid))] else map[];
    var cacheDev := if d.fstype == Some("bcache-cdev") then map["bcachecdev" := Str("bcache-" + PyStr(d.uuid))] else map[];
    var nbd := if StartsWith(d.name, "nbd") then map["nbd" := Str(d.name)] else map[];
    var root := if d.root then map["root" := Str(PyStr(d.fstype))] else map[];
    var parts := if d.partitions != [] then map["partitions" := Partitions(ByIdPartitions(d.partitions, byIdName))] else map[];
    mdraid + luks + openLuks + bcache + cacheDev + nbd + root + parts
  }

  /** The previous roles as a dict: a legacy plain string is reset to None
      first, and None reads as no roles. */
  function PreviousRoles(previous: Role): map<string, RoleValue> {
    match previous
    case Roles(m) => m
    case _ => map[]
  }

  /** The role column after a scan saw device `d`: previous keys outside
      ScanDisksKnownRoles are kept, this scan's findings are laid over them, and
      an empty result is stored as NULL rather than as an empty object. */
  function UpdatedRole(previous: Role, d: Device, byIdName: string -> string): (r: Role)
    ensures !r.Legacy?
    ensures r.NoRole? <==>
              ScanRoles(d, byIdName) == map[] &&
              forall k :: k in PreviousRoles(previous) ==> k in ScanDisksKnownRoles
    ensures r.Roles? ==> forall k ::
              k in r.roles <==>
                k in ScanRoles(d, byIdName) || (k in PreviousRoles(previous) && k !in ScanDisksKnownRoles)
    ensures r.Roles? ==> forall k :: k in r.roles ==>
              r.roles[k] == if k in ScanRoles(d, byIdName) then ScanRoles(d, byIdName)[k]
                            else PreviousRoles(previous)[k]
  {
    var prev := PreviousRoles(previous);
    var kept := map k | k in prev && k !in ScanDisksKnownRoles :: prev[k];
    var found := ScanRoles(d, byIdName);
    assert forall k :: k in prev && k !in ScanDisksKnownRoles ==> k in kept;
    if kept == map[] && found == map[] then
      NoRole
    else
      Roles(kept + found)
  }

  /** A second scan of the same device leaves the role column as the first
      scan left it. */
  lemma UpdatedRoleIdempotent(previous: Role, d: Device, byIdName: string -> string)
    ensures UpdatedRole(UpdatedRole(previous, d, byIdName), d, byIdName) == UpdatedRole(previous, d, byIdName)
  {
    var once := UpdatedRole(previous, d, byIdName);
    var twice := UpdatedRole(once, d, byIdName);
    var found := ScanRoles(d, byIdName);
    if once.Roles? {
      assert twice.Roles? by {
        var k :| k in once.roles;
        assert k in found || k !in ScanDisksKnownRoles;
      }
      forall k
        ensures k in twice.roles <==> k in once.roles
        ensures k in once.roles ==> twice.roles[k] == once.roles[k]
      {
      }
      assert twice.roles == once.roles;
    } else {
      assert found == map[];
    }
  }

  /** The "bcachecdev" and "nbd" keys are written by the derivation but are not
      ScanDisksKnownRoles, so once stored they survive every later scan, even
      of a device that is no longer a bcache cache or a network block device. */
  lemma StaleUnlistedRolesSurvive(previous: map<string, RoleValue>, d: Device, byIdName: string -> string)
    requires "nbd" in previous && "bcachecdev" in previous
    requires !StartsWith(d.name, "nbd") && d.fstype != Some("bcache-cdev")
    ensures var r := UpdatedRole(Roles(previous), d, byIdName);
            r.Roles? && r.roles["nbd"] == previous["nbd"] && r.roles["bcachecdev"] == previous["bcachecdev"]
  {
    assert "nbd" !in ScanDisksKnownRoles && "bcachecdev" !in ScanDisksKnownRoles;
    var found := ScanRoles(d, byIdName);
    assert "nbd" !in found && "bcachecdev" !in found;
    var r := UpdatedRole(Roles(previous), d, byIdName);
    assert r.Roles?;
  }

  /** A LUKS container that is also opened, on the root device, with partitions
      and an nbd kernel name gets all five roles at once. */
  lemma AllMatchingRolesAssigned(d: Device, byIdName: string -> string)
    requires d.fstype == Some("crypto_LUKS") && d.kind == "crypt" && d.root
    requires d.partitions != [] && StartsWith(d.name, "nbd")
    ensures ScanRoles(d, byIdName).Keys == {"LUKS", "openLUKS", "nbd", "root", "partitions"}
  {
  }
}
