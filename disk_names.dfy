/** The partition redirect naming of the disk detail view
    (storageadmin/views/disk.py, lines 341-395): a disk whose role carries a
    `redirect` is addressed by the redirect value, normally its by-id name with
    a `-part<N>` suffix, and the reverse mapping strips that suffix again. */
module DiskNames {
  import opened Wrappers
  import opened Text
  import opened DiskModel

  /** Why a disk's role could not give it a name. */
  datatype NameError =
    | RoleNotJson       // the role column holds a legacy plain string
    | RedirectNotText   // the redirect value is not a string

  /** _role_filter_disk_name: the redirect value when the role has one, the
      disk's own name otherwise. */
  function RoleFilterDiskName(disk: Disk): (r: Result<string, NameError>)
    ensures r == Err(RoleNotJson) <==> disk.role.Legacy?
    ensures r == Err(RedirectNotText) <==>
              disk.role.Roles? && "redirect" in disk.role.roles && disk.role.roles["redirect"].Partitions?
    ensures r.Ok? && disk.role.Roles? && "redirect" in disk.role.roles ==>
              disk.role.roles["redirect"] == Str(r.value)
    ensures r.Ok? && !(disk.role.Roles? && "redirect" in disk.role.roles) ==> r.value == disk.name
  {
    match disk.role
    case NoRole => Ok(disk.name)
    case Legacy(_) => Err(RoleNotJson)
    case Roles(m) =>
      if "redirect" !in m then Ok(disk.name)
      else
        match m["redirect"]
        case Str(t) => Ok(t)
        case Partitions(_) => Err(RedirectNotText)
  }

  /** `re.match('part.+', f)`: "part" followed by a character other than a
      newline; `.+` needs only that first character, whatever follows it. */
  predicate IsPartitionField(f: string) {
    |f| >= 5 && f[..4] == "part" && f[4] != '\n'
  }

  /** `name.split('-')[-1]`. */
  function LastField(name: string): (f: string)
    ensures '-' !in f
  {
    Last(Split(name, '-'))
  }

  /** _reverse_role_filter_name: a name whose last `-` field looks like
      `part<N>` loses that field and is reported as a partition; any other name
      comes back unchanged and is not a partition. */
  function ReverseRoleFilterName(diskName: string): (r: (string, bool))
    ensures r.1 <==> IsPartitionField(LastField(diskName))
    ensures !r.1 ==> r.0 == diskName
    ensures r.1 && '-' in diskName ==> diskName == r.0 + "-" + LastField(diskName)
    ensures r.1 && '-' !in diskName ==> r.0 == "" && diskName == LastField(diskName)
  {
    var fields := Split(diskName, '-');
    var n := |fields| - 1;
    if IsPartitionField(fields[n]) then
      JoinSplit(diskName, '-');
      SplitSingle(diskName, '-');
      assert fields == fields[..n] + [fields[n]];
      if n > 0 then
        JoinSnoc(fields[..n], fields[n], '-');
        (Join(fields[..n], '-'), true)
      else
        (Join(fields[..n], '-'), true)
    else
      (diskName, false)
  }

  /** Reversing a partition redirect `<base>-part<N>` gives back the base name
      and says it is a partition. */
  lemma {:induction false} ReversePartitionRedirect(base: string, n: string)
    requires n != [] && '-' !in n && n[0] != '\n'
    ensures ReverseRoleFilterName(base + "-part" + n) == (base, true)
  {
    var p := "part" + n;
    assert base + "-part" + n == base + ['-'] + p;
    assert '-' !in p by {
      assert forall i :: 0 <= i < |p| ==> p[i] == if i < 4 then "part"[i] else n[i - 4];
    }
    SplitAppend(base, '-', p);
    JoinSplit(base, '-');
    var fields := Split(base, '-') + [p];
    assert fields[..|fields| - 1] == Split(base, '-');
    assert p[..4] == "part" && p[4] == n[0];
  }

  /** The round trip needs `n` not to start with a newline: `.` does not
      match one, so a name whose partition number starts with a newline is
      not recognised as a redirect and comes back unchanged. */
  lemma NewlineAfterPartKeepsName(base: string, n: string)
    requires '-' !in n
    ensures ReverseRoleFilterName(base + "-part\n" + n) == (base + "-part\n" + n, false)
  {
    var p := "part\n" + n;
    assert base + "-part\n" + n == base + ['-'] + p;
    assert '-' !in p by {
      assert forall i :: 0 <= i < |p| ==> p[i] == if i < 5 then "part\n"[i] else n[i - 5];
    }
    SplitAppend(base, '-', p);
    assert p[4] == '\n';
  }
}
