/** Readers of the device-mapper state (system/luks.py, lines 34-72 and
    113-164): the backing device of an open LUKS volume from `cryptsetup
    status` output, and the uuids of the LUKS containers behind all open
    volumes from `dmsetup info` output. Command output is given as its list
    of lines and its return code. */
module LuksStatus {
  import opened Wrappers
  import opened Text

  // ---------------------------------------------------------------------
  // get_open_luks_container_dev
  // ---------------------------------------------------------------------

  /** A `cryptsetup status` line naming the backing device: at least two
      fields, the first starting with "device:". */
  predicate IsDeviceLine(line: string) {
    line != "" && |Fields(line)| >= 2 && StartsWith(Fields(line)[0], "device:")
  }

  /** The scan of the status lines for the first device line. */
  function FirstDeviceField(lines: seq<string>): string
    decreases |lines|
  {
    if lines == [] then ""
    else if IsDeviceLine(lines[0]) then Fields(lines[0])[1]
    else FirstDeviceField(lines[1..])
  }

  /** The scan yields the second field of the first device line, and "" only
      when there is no device line. */
  lemma {:induction false} FirstDeviceFieldIsFirst(lines: seq<string>)
    ensures FirstDeviceField(lines) != "" <==> exists i :: 0 <= i < |lines| && IsDeviceLine(lines[i])
    ensures FirstDeviceField(lines) != "" ==>
      exists i :: 0 <= i < |lines| && IsDeviceLine(lines[i]) && FirstDeviceField(lines) == Fields(lines[i])[1] &&
        forall j :: 0 <= j < i ==> !IsDeviceLine(lines[j])
    decreases |lines|
  {
    if lines != [] {
      if IsDeviceLine(lines[0]) {
        assert Fields(lines[0])[1] in Fields(lines[0]);
      } else {
        var rest := lines[1..];
        FirstDeviceFieldIsFirst(rest);
        if exists i :: 0 <= i < |lines| && IsDeviceLine(lines[i]) {
          var i :| 0 <= i < |lines| && IsDeviceLine(lines[i]);
          assert rest[i - 1] == lines[i];
        }
        if FirstDeviceField(rest) != "" {
          var i :| 0 <= i < |rest| && IsDeviceLine(rest[i]) && FirstDeviceField(rest) == Fields(rest[i])[1] &&
            forall j :: 0 <= j < i ==> !IsDeviceLine(rest[j]);
          assert lines[i + 1] == rest[i];
          assert forall j :: 1 <= j < i + 1 ==> lines[j] == rest[j - 1];
        }
      }
    }
  }

  /** get_open_luks_container_dev: "" when cryptsetup failed, otherwise the
      second field of the first device line, or "" when there is none. */
  function OpenLuksContainerDev(out: seq<string>, rc: int): (r: string)
    ensures rc != 0 ==> r == ""
    ensures rc == 0 ==> r == FirstDeviceField(out)
  {
    if rc != 0 then "" else FirstDeviceField(out)
  }

  // ---------------------------------------------------------------------
  // get_unlocked_luks_containers_uuids
  // ---------------------------------------------------------------------

  /** get_uuid_name_map: device name (without path) to its uuid, if any. */
  type UuidNameMap = map<string, Option<string>>

  /** `cryptsetup status <name>` as lines and a return code. */
  type StatusCommand = string -> (seq<string>, int)

  /** The conventional mapped name `luks-<uuid>`: 41 characters, starting
      with "luks-". */
  predicate IsLuksName(line: string) {
    |line| == 41 && StartsWith(line, "luks-")
  }

  /** The backing device cryptsetup reports for a mapped name. */
  function ContainerDev(line: string, status: StatusCommand): string {
    OpenLuksContainerDev(status(line).0, status(line).1)
  }

  /** A dmsetup line whose uuid needs the device-name map. */
  predicate NeedsMap(line: string, status: StatusCommand) {
    line != "" && !IsLuksName(line) && ContainerDev(line, status) != ""
  }

  /** What one dmsetup line contributes. */
  datatype LineUuid =
    | NoUuid
    | FoundUuid(uuid: string)
    | UnknownDevice(dev: string)   // the map has no such device: a KeyError

  function LineContribution(line: string, status: StatusCommand, m: UuidNameMap): (r: LineUuid)
    ensures IsLuksName(line) ==> r == FoundUuid(line[5..]) && |r.uuid| == 36
    ensures line == "" ==> r == NoUuid
    ensures !r.NoUuid? && !IsLuksName(line) ==> NeedsMap(line, status)
  {
    if line == "" then NoUuid
    else if IsLuksName(line) then FoundUuid(line[5..])
    else if ContainerDev(line, status) == "" then NoUuid
    else
      var dev := Last(Split(ContainerDev(line, status), '/'));
      if dev !in m then UnknownDevice(dev)
      else if m[dev].None? then NoUuid
      else FoundUuid(m[dev].value)
  }

  /** The uuids the lines contribute, in order; the first unknown device
      ends the scan with an error. */
  function UnlockedUuids(lines: seq<string>, status: StatusCommand, m: UuidNameMap): Result<seq<string>, string>
    decreases |lines|
  {
    if lines == [] then Ok([])
    else
      match UnlockedUuids(lines[..|lines| - 1], status, m)
      case Err(dev) => Err(dev)
      case Ok(us) =>
        match LineContribution(lines[|lines| - 1], status, m)
        case NoUuid => Ok(us)
        case FoundUuid(u) => Ok(us + [u])
        case UnknownDevice(dev) => Err(dev)
  }

  /** Why get_unlocked_luks_containers_uuids raises: dmsetup exited non-zero
      (run_command is called without `throw=False`, so it raises), or a
      line's backing device is missing from the device map (KeyError). */
  datatype UuidsError = DmsetupFailed(rc: int) | UnknownBacking(dev: string)

  /** get_unlocked_luks_containers_uuids: a failed dmsetup raises, no output
      gives the empty list, and otherwise the lines are scanned. */
  function UnlockedLuksContainersUuids(out: seq<string>, rc: int, status: StatusCommand, m: UuidNameMap)
    : (r: Result<seq<string>, UuidsError>)
    ensures rc != 0 <==> r.Err? && r.error.DmsetupFailed?
    ensures r.Err? && r.error.DmsetupFailed? ==> r.error.rc == rc
    ensures rc == 0 && out == [] ==> r == Ok([])
  {
    if rc != 0 then Err(DmsetupFailed(rc))
    else if |out| == 0 then Ok([])
    else
      match UnlockedUuids(out, status, m)
      case Err(dev) => Err(UnknownBacking(dev))
      case Ok(us) => Ok(us)
  }

  /** The scan fails exactly when some line names a device the map lacks;
      otherwise it holds every contributed uuid, and only those. */
  lemma {:induction false} UnlockedUuidsContents(lines: seq<string>, status: StatusCommand, m: UuidNameMap)
    ensures UnlockedUuids(lines, status, m).Err? <==>
      exists i :: 0 <= i < |lines| && LineContribution(lines[i], status, m).UnknownDevice?
    ensures UnlockedUuids(lines, status, m).Ok? ==>
      var us := UnlockedUuids(lines, status, m).value;
      && |us| <= |lines|
      && (forall i :: 0 <= i < |lines| && LineContribution(lines[i], status, m).FoundUuid? ==>
            LineContribution(lines[i], status, m).uuid in us)
      && (forall u <- us :: exists i :: 0 <= i < |lines| && LineContribution(lines[i], status, m) == FoundUuid(u))
    decreases |lines|
  {
    if lines != [] {
      var n := |lines| - 1;
      var front := lines[..n];
      UnlockedUuidsContents(front, status, m);
      assert forall i :: 0 <= i < n ==> lines[i] == front[i];
      if UnlockedUuids(lines, status, m).Ok? {
        var us := UnlockedUuids(lines, status, m).value;
        var fs := UnlockedUuids(front, status, m).value;
        forall u <- us
          ensures exists i :: 0 <= i < |lines| && LineContribution(lines[i], status, m) == FoundUuid(u)
        {
          if u in fs {
            var i :| 0 <= i < |front| && LineContribution(front[i], status, m) == FoundUuid(u);
            assert lines[i] == front[i];
          } else {
            assert LineContribution(lines[n], status, m) == FoundUuid(u);
          }
        }
      }
    }
  }

  /** Every conventionally named open volume contributes its 36-character
      uuid. */
  lemma FastPathUuids(out: seq<string>, rc: int, status: StatusCommand, m: UuidNameMap)
    requires UnlockedLuksContainersUuids(out, rc, status, m).Ok?
    ensures forall i :: 0 <= i < |out| && IsLuksName(out[i]) ==>
      out[i][5..] in UnlockedLuksContainersUuids(out, rc, status, m).value && |out[i][5..]| == 36
  {
    UnlockedUuidsContents(out, status, m);
    forall i | 0 <= i < |out| && IsLuksName(out[i])
      ensures out[i][5..] in UnlockedLuksContainersUuids(out, rc, status, m).value
    {
      assert LineContribution(out[i], status, m).FoundUuid?;
    }
  }

  /** The whole call: it raises a KeyError exactly when dmsetup succeeded and
      some line's backing device is missing from the map; a returned list
      holds exactly the uuids the lines contribute. */
  lemma UnlockedContainersOutcome(out: seq<string>, rc: int, status: StatusCommand, m: UuidNameMap)
    ensures var r := UnlockedLuksContainersUuids(out, rc, status, m);
      && ((r.Err? && r.error.UnknownBacking?) <==>
            rc == 0 && exists i :: 0 <= i < |out| && LineContribution(out[i], status, m).UnknownDevice?)
      && (r.Ok? ==> forall u :: u in r.value <==>
            exists i :: 0 <= i < |out| && LineContribution(out[i], status, m) == FoundUuid(u))
  {
    UnlockedUuidsContents(out, status, m);
  }

  /** A failed scan stays failed whatever lines follow. */
  lemma {:induction false} UnlockedUuidsErrSticks(lines: seq<string>, n: nat, status: StatusCommand, m: UuidNameMap)
    requires n <= |lines|
    requires UnlockedUuids(lines[..n], status, m).Err?
    ensures UnlockedUuids(lines, status, m) == UnlockedUuids(lines[..n], status, m)
    decreases |lines| - n
  {
    if n < |lines| {
      var m1 := |lines| - 1;
      if n < m1 {
        assert lines[..m1][..n] == lines[..n];
        UnlockedUuidsErrSticks(lines[..m1], n, status, m);
      } else {
        assert lines[..m1] == lines[..n];
      }
    } else {
      assert lines[..n] == lines;
    }
  }

  /** The loop of get_unlocked_luks_containers_uuids: the device-name map is
      fetched at most once, and only when some line needs it. */
  method GetUnlockedLuksContainersUuids(out: seq<string>, rc: int, status: StatusCommand, fetchMap: UuidNameMap)
    returns (r: Result<seq<string>, UuidsError>, fetches: nat)
    ensures r == UnlockedLuksContainersUuids(out, rc, status, fetchMap)
    ensures fetches == if |out| > 0 && rc == 0 && exists j :: 0 <= j < |out| && NeedsMap(out[j], status) then 1 else 0
  {
    var uuids: seq<string> := [];
    var mapFetched := false;
    var uuidNameMap: UuidNameMap := map[];
    fetches := 0;
    if rc != 0 {
      // run_command raises CommandException
      return Err(DmsetupFailed(rc)), fetches;
    }
    if |out| > 0 {
      var i := 0;
      while i < |out|
        invariant 0 <= i <= |out|
        invariant UnlockedUuids(out[..i], status, fetchMap) == Ok(uuids)
        invariant mapFetched ==> uuidNameMap == fetchMap
        invariant fetches == if mapFetched then 1 else 0
        invariant mapFetched <==> exists j :: 0 <= j < i && NeedsMap(out[j], status)
      {
        var line := out[i];
        assert out[..i + 1][..i] == out[..i];
        var backing: Option<string> := None;
        if line == "" {
          // skipped
        } else if |line| == 41 && StartsWith(line, "luks-") {
          backing := Some(line[5..]);
        } else {
          var (statusOut, statusRc) := status(line);
          var containerDev := OpenLuksContainerDev(statusOut, statusRc);
          if containerDev != "" {
            containerDev := Last(Split(containerDev, '/'));
            if !mapFetched {
              uuidNameMap := fetchMap;
              mapFetched := true;
              fetches := fetches + 1;
            }
            if containerDev !in uuidNameMap {
              // the KeyError of the lookup ends the call
              UnlockedUuidsErrSticks(out, i + 1, status, fetchMap);
              return Err(UnknownBacking(containerDev)), fetches;
            }
            backing := uuidNameMap[containerDev];
          }
        }
        if backing.Some? {
          uuids := uuids + [backing.value];
        }
        i := i + 1;
      }
      assert out[..i] == out;
    }
    r := Ok(uuids);
  }
}
