/** The records the disk views work on: a device as scan_disks reports it, a row
    of the Disk table, a row of the Pool table, and the Disk.role column. */
module DiskModel {
  import opened Wrappers
  import opened Text

  /** The value under one key of a Disk's JSON role object. */
  datatype RoleValue =
    | Str(text: string)
      /** by-id partition name -> filesystem type, under the `partitions` key */
    | Partitions(byIdNames: map<string, string>)

  /** The two plain strings the role column held before it held JSON. */
  datatype LegacyRole = IswRaidMember | LinuxRaidMember

  /** The Disk.role column: NULL, a legacy plain string, or a JSON object. */
  datatype Role =
    | NoRole
    | Legacy(marker: LegacyRole)
    | Roles(roles: map<string, RoleValue>)

  /** One attached device as scan_disks reports it. `kind` is lsblk's TYPE
      column; `partitions` is the partitions dict in its iteration order. */
  datatype Device = Device(
    name: string,
    model: Option<string>,
    serial: string,
    size: int,
    transport: Option<string>,
    vendor: Option<string>,
    kind: string,
    fstype: Option<string>,
    fsLabel: Option<string>,
    uuid: Option<string>,
    parted: bool,
    root: bool,
    partitions: seq<(string, string)>)

  /** A row of the Disk table. A disk refers to its pool by the pool's name. */
  datatype Disk = Disk(
    name: string,
    serial: string,
    size: int,
    parted: bool,
    offline: bool,
    model: Option<string>,
    transport: Option<string>,
    vendor: Option<string>,
    btrfsUuid: Option<string>,
    role: Role,
    smartAvailable: bool,
    smartEnabled: bool,
    smartOptions: string,
    pool: Option<string>)

  /** A row of the Pool table. */
  datatype Pool = Pool(
    name: string,
    raid: string,
    role: Option<string>,
    size: int,
    uuid: Option<string>)

  /** Python's `str(x)` for an optional string: None prints as "None". */
  function PyStr(o: Option<string>): string {
    match o
    case None => "None"
    case Some(s) => s
  }

  /** scan_disks marks serials it had to invent with this prefix. */
  predicate IsFakeSerial(serial: string) {
    StartsWith(serial, "fake-serial-")
  }

  function SerialsOf(ds: seq<Disk>): (r: seq<string>)
    ensures |r| == |ds|
    ensures forall i :: 0 <= i < |ds| ==> r[i] == ds[i].serial
  {
    seq(|ds|, i requires 0 <= i < |ds| => ds[i].serial)
  }

  /** The column a row lookup matches on. */
  datatype Column = NameColumn | SerialColumn

  function ColumnOf(d: Disk, c: Column): string {
    match c
    case NameColumn => d.name
    case SerialColumn => d.serial
  }

  /** The index of the first row whose column `c` holds `v`, or |ds| when
      none does. */
  function FirstIndex(ds: seq<Disk>, c: Column, v: string): (i: nat)
    ensures i <= |ds|
    ensures i < |ds| ==> ColumnOf(ds[i], c) == v
    ensures forall j :: 0 <= j < i ==> ColumnOf(ds[j], c) != v
    decreases |ds|
  {
    if ds == [] then 0
    else if ColumnOf(ds[0], c) == v then 0
    else 1 + FirstIndex(ds[1..], c, v)
  }

  /** No two rows share a serial. */
  predicate DistinctSerials(ds: seq<Disk>) {
    forall i, j :: 0 <= i < j < |ds| ==> ds[i].serial != ds[j].serial
  }
}
