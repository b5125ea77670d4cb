/** The file-system side of system/luks.py: the crypttab rewrite through a
    temp file, keyfile creation and registration, and luksFormat. The host's
    files are a map from path to contents and every external command run is
    logged in order. mkstemp's fresh path, each command's return code, the
    random bytes and the outcome of each copy are parameters. */
module LuksHost {
  import opened Wrappers
  import opened Text
  import opened LuksStatus
  import opened Crypttab

  const Cryptsetup: string := "/usr/sbin/cryptsetup"
  const Dd: string := "/usr/bin/dd"
  /** dd's bs=512 count=4. */
  const KeyfileSize: nat := 2048

  /** Why an operation raised. */
  datatype Fault =
    | MissingDevice(dev: string)     // KeyError: a device absent from the uuid/name map
    | CopyFailed                     // shutil.copy2 onto the target failed
    | CommandFailed(message: string) // an external command returned non-zero

  /** What shutil.copy2 did to its target: the temp file was copied onto it,
      or the copy raised part way and left the target as `left` (None: no
      file). copy2 opens the target for writing before it copies, so a failed
      copy may leave it truncated, partly written or already replaced. */
  datatype Copy = Copied | CopyAborted(left: Option<string>)

  /** The files once a failed copy left `target` as `left`. */
  function Leftover(files: map<string, string>, target: string, left: Option<string>): (r: map<string, string>)
    ensures r - {target} == files - {target}
    ensures left.None? <==> target !in r
    ensures left.Some? ==> r[target] == left.value
  {
    if left.None? then files - {target} else files[target := left.value]
  }

  /** How an operation ended: it returned a boolean or it raised. */
  datatype Outcome = Returned(value: bool) | Raised(fault: Fault)

  /** add_keyfile's message for a failed luksAddKey, by return code. */
  function RcMessage(rc: int): (msg: string)
    ensures rc == 1 ==> msg == "Wrong Parameters exception"
    ensures rc == 2 ==> msg == "No Permission (Bad Passphrase) exception"
    ensures rc == 3 ==> msg == "Out of Memory exception"
    ensures rc == 4 ==> msg == "Wrong Device Specified"
    ensures rc == 5 ==> msg == "Device already exists or device is busy"
    ensures !(1 <= rc <= 5) ==> msg == "Exception"
  {
    if rc == 1 then "Wrong Parameters exception"
    else if rc == 2 then "No Permission (Bad Passphrase) exception"
    else if rc == 3 then "Out of Memory exception"
    else if rc == 4 then "Wrong Device Specified"
    else if rc == 5 then "Device already exists or device is busy"
    else "Exception"
  }

  /** The five known return codes have five different messages, none of them
      the generic one. */
  lemma RcMessagesDistinct(rc1: int, rc2: int)
    requires 1 <= rc1 <= 5 && 1 <= rc2 <= 5 && rc1 != rc2
    ensures RcMessage(rc1) != RcMessage(rc2)
    ensures RcMessage(rc1) != "Exception"
  {
    assert |RcMessage(1)| == 26 && |RcMessage(2)| == 40 && |RcMessage(3)| == 23;
    assert |RcMessage(4)| == 22 && |RcMessage(5)| == 39 && |"Exception"| == 9;
  }

  /** The keyfile Rockstor creates for a container. */
  function NativeKeyfilePath(uuid: string): string {
    "/root/keyfile-" + uuid
  }

  function DdCommand(npath: string): seq<string> {
    [Dd, "bs=512", "count=4", "if=/dev/urandom", "of=" + npath]
  }

  function AddKeyCommand(devByid: string, keyfile: string, npath: string): seq<string> {
    [Cryptsetup, "luksAddKey", "/dev/disk/by-id/" + devByid, keyfile, "--key-file", npath]
  }

  function FormatCommand(diskByid: string, npath: string): seq<string> {
    [Cryptsetup, "luksFormat", "/dev/disk/by-id/" + diskByid, npath]
  }

  /** What add_keyfile makes of luksAddKey's return code. */
  function AddKeyOutcome(rc: int): Outcome {
    if rc == 0 then Returned(true) else Raised(CommandFailed(RcMessage(rc)))
  }

  // ---------------------------------------------------------------------
  // update_crypttab on the crypttab's contents
  // ---------------------------------------------------------------------

  /** update_crypttab's result and the crypttab afterwards (None: no file),
      from the crypttab before. `terminate` chooses the intended rewrite
      over the one as written. */
  function UpdatedCrypttab(current: Option<string>, uuid: Option<string>, k: string,
                           m: UuidNameMap, copy: Copy, terminate: bool): (Outcome, Option<string>)
  {
    if uuid.None? || uuid.value == "" then (Returned(false), current)
    else
      var u := uuid.value;
      if current.None? then
        if k == "false" then (Returned(true), None)
        else if copy.Copied? then (Returned(true), Some(EntryLine(u, k, [])))
        else (Raised(CopyFailed), copy.left)
      else
        match Rewrite(ReadLines(current.value), u, k, m, terminate)
        case Err(dev) => (Raised(MissingDevice(dev)), current)
        case Ok(out) => if copy.Copied? then (Returned(true), Some(Concat(out))) else (Raised(CopyFailed), copy.left)
  }

  /** As written, a KeyError escapes before the try/finally that removes the
      temp file: the temp file is left behind exactly in this case. */
  predicate LeaksTemp(current: Option<string>, uuid: Option<string>, k: string, m: UuidNameMap) {
    && uuid.Some? && uuid.value != "" && current.Some?
    && RewriteLinesAsWritten(ReadLines(current.value), uuid.value, k, m).Err?
  }

  /** A missing or empty uuid is refused and nothing changes. */
  lemma UpdateNeedsUuid(current: Option<string>, uuid: Option<string>, k: string, m: UuidNameMap, copy: Copy, terminate: bool)
    ensures UpdatedCrypttab(current, uuid, k, m, copy, terminate).0 == Returned(false) <==> uuid.None? || uuid.value == ""
    ensures (uuid.None? || uuid.value == "") ==> UpdatedCrypttab(current, uuid, k, m, copy, terminate).1 == current
  {
    if uuid.Some? && uuid.value != "" && current.Some? {
      match Rewrite(ReadLines(current.value), uuid.value, k, m, terminate)
      case Err(dev) =>
      case Ok(out) =>
    }
  }

  /** Without a crypttab, "false" leaves no file and any other keyfile column
      creates the file holding just the native line, read back as u -> k. */
  lemma UpdateWithoutCrypttab(u: string, k: string, m: UuidNameMap, terminate: bool)
    requires IsWord(u) && |u| == 36 && '=' !in u
    requires IsWord(k)
    ensures k == "false" ==> UpdatedCrypttab(None, Some(u), k, m, Copied, terminate) == (Returned(true), None)
    ensures k != "false" ==>
      && UpdatedCrypttab(None, Some(u), k, m, Copied, terminate) == (Returned(true), Some(EntryLine(u, k, [])))
      && Entries(ReadLines(EntryLine(u, k, []))) == map[u := k]
  {
    if k != "false" {
      SingleEntryReadsBack(u, k);
    }
  }

  /** A successful update of an existing crypttab, read back: the container's
      entry is gone after "false" and is `k` otherwise; every other
      container keeps its entry. */
  lemma UpdateReadsBack(text: string, u: string, k: string, m: UuidNameMap)
    requires IsWord(u) && |u| == 36 && '=' !in u
    requires IsWord(k)
    requires UpdatedCrypttab(Some(text), Some(u), k, m, Copied, true).0 == Returned(true)
    ensures UpdatedCrypttab(Some(text), Some(u), k, m, Copied, true).1.Some?
    ensures var after := Entries(ReadLines(UpdatedCrypttab(Some(text), Some(u), k, m, Copied, true).1.value));
      && (k == "false" ==> u !in after)
      && (k != "false" ==> u in after && after[u] == k)
      && (forall x :: x != u && !StartsWith(x, "/dev") ==>
            (x in after <==> x in Entries(ReadLines(text))) &&
            (x in after ==> after[x] == Entries(ReadLines(text))[x]))
  {
    RewriteSetsEntry(ReadLines(text), u, k, m);
  }

  /** On a crypttab that is empty or ends with a newline, the update as
      written does just what the intended one does. */
  lemma UpdateAsWrittenOnTerminatedText(text: string, uuid: Option<string>, k: string, m: UuidNameMap, copy: Copy)
    requires text == [] || text[|text| - 1] == '\n'
    ensures UpdatedCrypttab(Some(text), uuid, k, m, copy, false) == UpdatedCrypttab(Some(text), uuid, k, m, copy, true)
  {
    if uuid.Some? && uuid.value != "" {
      ReadLinesTerminated(text);
      RewriteLoopTerminatedLines(ReadLines(text), uuid.value, k, m);
    }
  }

  /** A successful update as written, read back, on a crypttab that is empty
      or ends with a newline: the container's entry is gone after "false" and
      is `k` otherwise; every other container keeps its entry. */
  lemma UpdateAsWrittenReadsBack(text: string, u: string, k: string, m: UuidNameMap)
    requires text == [] || text[|text| - 1] == '\n'
    requires IsWord(u) && |u| == 36 && '=' !in u
    requires IsWord(k)
    requires UpdatedCrypttab(Some(text), Some(u), k, m, Copied, false).0 == Returned(true)
    ensures UpdatedCrypttab(Some(text), Some(u), k, m, Copied, false).1.Some?
    ensures var after := Entries(ReadLines(UpdatedCrypttab(Some(text), Some(u), k, m, Copied, false).1.value));
      && (k == "false" ==> u !in after)
      && (k != "false" ==> u in after && after[u] == k)
      && (forall x :: x != u && !StartsWith(x, "/dev") ==>
            (x in after <==> x in Entries(ReadLines(text))) &&
            (x in after ==> after[x] == Entries(ReadLines(text))[x]))
  {
    UpdateAsWrittenOnTerminatedText(text, Some(u), k, m, Copied);
    UpdateReadsBack(text, u, k, m);
  }

  /** The update raises on a device lookup exactly when a line names a
      device missing from the map, and then leaves the crypttab as it was:
      the lookup raises before the copy. A failed copy leaves the crypttab as
      copy2 left it. */
  lemma UpdateFailsOnUnknownDevice(text: string, u: string, k: string, m: UuidNameMap, copy: Copy, terminate: bool)
    requires u != ""
    ensures UpdatedCrypttab(Some(text), Some(u), k, m, copy, terminate).0 == Raised(CopyFailed) ==>
      UpdatedCrypttab(Some(text), Some(u), k, m, copy, terminate).1 == copy.left
    ensures UpdatedCrypttab(Some(text), Some(u), k, m, copy, terminate).0.Raised? &&
            UpdatedCrypttab(Some(text), Some(u), k, m, copy, terminate).0.fault.MissingDevice? ==>
      UpdatedCrypttab(Some(text), Some(u), k, m, copy, terminate).1 == Some(text)
    ensures (UpdatedCrypttab(Some(text), Some(u), k, m, copy, terminate).0.Raised? &&
             UpdatedCrypttab(Some(text), Some(u), k, m, copy, terminate).0.fault.MissingDevice?)
            <==> NamesUnknownDevice(ReadLines(text), u, m)
  {
    RewriteFails(ReadLines(text), u, k, m, terminate);
  }

  /** As written, a crypttab whose one line names a device missing from the
      map leaves the temp file behind. */
  lemma UnknownDeviceLeaksTemp(u: string, k: string, dev: string, m: UuidNameMap)
    requires IsWord(dev) && '/' !in dev && '=' !in dev && dev !in m
    requires u != "" && u != "/dev/" + dev
    ensures LeaksTemp(Some(ColumnsLine("luks-x", "UUID=" + ("/dev/" + dev), "none", "luks\n")), Some(u), k, m)
  {
    var line := ColumnsLine("luks-x", "UUID=" + ("/dev/" + dev), "none", "luks\n");
    UnknownDeviceLineFails(u, k, dev, m);
    assert NoSpace(dev);
    assert IsWord("luks-x") && IsWord("UUID=" + ("/dev/" + dev)) && IsWord("none");
    assert IsTerminatedLine("luks\n");
    ColumnsLineIsLine("luks-x", "UUID=" + ("/dev/" + dev), "none", "luks\n");
    ReadLinesOfLine(line);
  }

  /** Two file maps that agree outside `y` agree outside `x` and `y`, and
      on `x` itself. */
  lemma SameBesides(a: map<string, string>, b: map<string, string>, x: string, y: string)
    requires a - {y} == b - {y}
    ensures a - {x, y} == b - {x, y}
    ensures x != y && x in b ==> x in a && a[x] == b[x]
  {
    assert a - {x, y} == (a - {y}) - {x};
    assert b - {x, y} == (b - {y}) - {x};
    if x != y && x in b {
      assert x in b - {y};
      assert (a - {y})[x] == (b - {y})[x];
    }
  }

  // ---------------------------------------------------------------------
  // The host
  // ---------------------------------------------------------------------

  class Host {
    var files: map<string, string>
    var commands: seq<seq<string>>

    constructor (initial: map<string, string>)
      ensures files == initial && commands == []
    {
      files := initial;
      commands := [];
    }

    /** The crypttab's contents, None when there is no such file. */
    function Crypttab(): Option<string>
      reads this
    {
      if CrypttabFile in files then Some(files[CrypttabFile]) else None
    }

    /** native_keyfile_exists: whether /root/keyfile-<uuid> is a file. */
    function NativeKeyfileExists(uuid: string): (r: bool)
      reads this
      ensures r <==> NativeKeyfilePath(uuid) in files
    {
      NativeKeyfilePath(uuid) in files
    }

    /** get_crypttab_entries: the crypttab's lines read into a dictionary,
        empty when there is no crypttab. */
    method GetCrypttabEntries() returns (entries: map<string, string>)
      ensures Crypttab().None? ==> entries == map[]
      ensures Crypttab().Some? ==> entries == Entries(ReadLines(Crypttab().value))
    {
      entries := map[];
      if CrypttabFile !in files {
        return;
      }
      var lines := ReadLines(files[CrypttabFile]);
      var i := 0;
      while i < |lines|
        invariant 0 <= i <= |lines|
        invariant entries == Entries(lines[..i])
      {
        assert lines[..i + 1][..i] == lines[..i];
        match LineEntry(lines[i]) {
          case None =>
          case Some((u, k)) => entries := entries[u := k];
        }
        i := i + 1;
      }
      assert lines[..i] == lines;
    }

    /** shutil.copy2 of the temp file onto `target`, then the finally clause
        removing the temp file. */
    method CommitTemp(npath: string, target: string, copy: Copy) returns (r: Outcome)
      requires npath in files && npath != target
      modifies this
      ensures commands == old(commands)
      ensures copy.Copied? ==> r == Returned(true) && files == old(files)[target := old(files)[npath]] - {npath}
      ensures copy.CopyAborted? ==> r == Raised(CopyFailed) && files == Leftover(old(files), target, copy.left) - {npath}
    {
      if copy.Copied? {
        files := files[target := files[npath]];
        r := Returned(true);
      } else {
        files := Leftover(files, target, copy.left);
        r := Raised(CopyFailed);
      }
      files := files - {npath};
    }

    /** new_crypttab_single_entry: a fresh crypttab holding the native line
        of container u, written through a temp file. */
    method NewCrypttabSingleEntry(u: string, k: string, npath: string, copy: Copy) returns (r: Outcome)
      requires npath !in files && npath != CrypttabFile
      modifies this
      ensures commands == old(commands)
      ensures copy.Copied? ==> r == Returned(true) && files == old(files)[CrypttabFile := EntryLine(u, k, [])]
      ensures copy.CopyAborted? ==> r == Raised(CopyFailed) && files == Leftover(old(files), CrypttabFile, copy.left)
    {
      files := files[npath := EntryLine(u, k, [])];
      r := CommitTemp(npath, CrypttabFile, copy);
      assert old(files)[npath := EntryLine(u, k, [])] - {npath} == old(files);
      assert old(files)[npath := EntryLine(u, k, [])][CrypttabFile := EntryLine(u, k, [])] - {npath}
        == old(files)[CrypttabFile := EntryLine(u, k, [])];
    }

    /** The loop of update_crypttab: each line's replacement is written to
        the temp file `npath` as it is produced. On a device lookup failure
        the partly written temp file is left as it is. */
    method WriteRewrite(lines: seq<string>, u: string, k: string, m: UuidNameMap, npath: string, terminate: bool)
      returns (failed: Option<string>, written: bool)
      requires npath in files && files[npath] == ""
      modifies this
      ensures commands == old(commands)
      ensures npath in files && files - {npath} == old(files) - {npath}
      ensures RewriteLoop(lines, u, k, m, terminate).Err? <==> failed.Some?
      ensures failed.Some? ==> RewriteLoop(lines, u, k, m, terminate) == Err(failed.value)
      ensures failed.None? ==>
        && RewriteLoop(lines, u, k, m, terminate).value.1 == written
        && files == old(files)[npath := Concat(RewriteLoop(lines, u, k, m, terminate).value.0)]
    {
      var out: seq<string> := [];
      written := false;
      var i := 0;
      while i < |lines|
        invariant 0 <= i <= |lines|
        invariant RewriteLoop(lines[..i], u, k, m, terminate) == Ok((out, written))
        invariant files == old(files)[npath := Concat(out)]
        invariant commands == old(commands)
      {
        var line := lines[i];
        assert lines[..i + 1][..i] == lines[..i];
        var step := Resolve(line, u, m);
        if step.Err? {
          RewriteLoopErrSticks(lines, i + 1, u, k, m, terminate);
          return Some(step.error), written;
        }
        RewriteLoopNext(lines, i, u, k, m, terminate);
        if step.value.Match? && k != "false" {
          var entry := EntryLine(u, k, Fields(line)[3..]);
          ConcatSnoc(out, entry);
          out := out + [entry];
          written := true;
          files := files[npath := files[npath] + entry];
        } else if step.value.Copy? {
          var copied := if terminate then Terminated(line) else line;
          ConcatSnoc(out, copied);
          out := out + [copied];
          files := files[npath := files[npath] + copied];
        }
        i := i + 1;
      }
      assert lines[..i] == lines;
      failed := None;
    }

    /** The temp file of update_crypttab filled from the crypttab: the
        rewritten lines, then the native line when no line matched. On a
        device lookup failure the temp file holds what was written so far. */
    method StageRewrite(u: string, k: string, m: UuidNameMap, npath: string, terminate: bool)
      returns (failed: Option<string>)
      requires CrypttabFile in files && npath !in files && npath != CrypttabFile
      modifies this
      ensures commands == old(commands)
      ensures npath in files && files - {npath} == old(files) - {npath}
      ensures failed.Some? ==> Rewrite(ReadLines(old(files)[CrypttabFile]), u, k, m, terminate) == Err(failed.value)
      ensures failed.None? ==>
        && Rewrite(ReadLines(old(files)[CrypttabFile]), u, k, m, terminate).Ok?
        && files == old(files)[npath := Concat(Rewrite(ReadLines(old(files)[CrypttabFile]), u, k, m, terminate).value)]
    {
      var lines := ReadLines(files[CrypttabFile]);
      files := files[npath := ""];
      var written;
      failed, written := WriteRewrite(lines, u, k, m, npath, terminate);
      if failed.Some? {
        return;
      }
      var out := RewriteLoop(lines, u, k, m, terminate).value.0;
      if k != "false" && !written {
        assert (out + [EntryLine(u, k, [])])[..|out|] == out;
        files := files[npath := files[npath] + EntryLine(u, k, [])];
      }
    }

    /** update_crypttab as intended: the rewrite restores missing newlines
        and the temp file is removed on every path. */
    method UpdateCrypttab(uuid: Option<string>, k: string, m: UuidNameMap, npath: string, copy: Copy)
      returns (r: Outcome)
      requires npath !in files && npath != CrypttabFile
      modifies this
      ensures commands == old(commands)
      ensures npath !in files
      ensures files - {CrypttabFile} == old(files) - {CrypttabFile}
      ensures (r, Crypttab()) == UpdatedCrypttab(old(Crypttab()), uuid, k, m, copy, true)
    {
      if uuid.None? || uuid.value == "" {
        return Returned(false);
      }
      var u := uuid.value;
      if CrypttabFile !in files {
        if k == "false" {
          return Returned(true);
        }
        r := NewCrypttabSingleEntry(u, k, npath, copy);
        return;
      }
      var failed := StageRewrite(u, k, m, npath, true);
      if failed.Some? {
        files := files - {npath};
        return Raised(MissingDevice(failed.value));
      }
      r := CommitTemp(npath, CrypttabFile, copy);
    }

    /** update_crypttab as written: copied lines keep their text exactly, and
        a KeyError leaves the temp file behind. */
    method UpdateCrypttabAsWritten(uuid: Option<string>, k: string, m: UuidNameMap, npath: string, copy: Copy)
      returns (r: Outcome)
      requires npath !in files && npath != CrypttabFile
      modifies this
      ensures commands == old(commands)
      ensures npath in files <==> LeaksTemp(old(Crypttab()), uuid, k, m)
      ensures files - {CrypttabFile, npath} == old(files) - {CrypttabFile, npath}
      ensures (r, Crypttab()) == UpdatedCrypttab(old(Crypttab()), uuid, k, m, copy, false)
    {
      if uuid.None? || uuid.value == "" {
        return Returned(false);
      }
      var u := uuid.value;
      if CrypttabFile !in files {
        if k == "false" {
          return Returned(true);
        }
        r := NewCrypttabSingleEntry(u, k, npath, copy);
        return;
      }
      var failed := StageRewrite(u, k, m, npath, false);
      if failed.Some? {
        SameBesides(files, old(files), CrypttabFile, npath);
        return Raised(MissingDevice(failed.value));
      }
      r := CommitTemp(npath, CrypttabFile, copy);
    }

    /** create_keyfile: an existing target is kept as it is; otherwise dd
        fills a temp file with 2048 random bytes, which is copied onto the
        target. The temp file is removed on every path. */
    method CreateKeyfile(path: string, npath: string, ddRc: int, random: string, copy: Copy)
      returns (r: Outcome)
      requires npath !in files && npath != path && |random| >= KeyfileSize
      modifies this
      ensures npath !in files
      ensures r == Returned(true) ==> path in files
      ensures old(path in files) ==> r == Returned(true) && files == old(files) && commands == old(commands)
      ensures old(path !in files) ==> commands == old(commands) + [DdCommand(npath)]
      ensures old(path !in files) && ddRc != 0 ==> r == Returned(false) && files == old(files)
      ensures old(path !in files) && ddRc == 0 && copy.CopyAborted? ==>
        r == Raised(CopyFailed) && files == Leftover(old(files), path, copy.left)
      ensures old(path !in files) && ddRc == 0 && copy.Copied? ==>
        r == Returned(true) && files == old(files)[path := random[..KeyfileSize]]
    {
      if path in files {
        return Returned(true);
      }
      files := files[npath := ""];
      commands := commands + [DdCommand(npath)];
      if ddRc != 0 {
        files := files - {npath};
        assert files == old(files);
        return Returned(false);
      }
      files := files[npath := random[..KeyfileSize]];
      r := CommitTemp(npath, path, copy);
      assert old(files)[npath := random[..KeyfileSize]] - {npath} == old(files);
      assert old(files)[npath := random[..KeyfileSize]][path := random[..KeyfileSize]] - {npath}
        == old(files)[path := random[..KeyfileSize]];
    }

    /** create_keyfile on a container's native keyfile path, twice: once it
        has returned True, native_keyfile_exists holds, and the second call
        returns True without touching a file or running a command. */
    method CreateNativeKeyfileTwice(u: string, npath: string, ddRc: int, random: string, copy: Copy)
      returns (first: Outcome, second: Outcome)
      requires npath !in files && npath != NativeKeyfilePath(u) && |random| >= KeyfileSize
      modifies this
      ensures first == Returned(true) ==> NativeKeyfileExists(u) && second == Returned(true)
      ensures first == Returned(true) ==>
        && files == (if old(NativeKeyfileExists(u)) then old(files) else old(files)[NativeKeyfilePath(u) := random[..KeyfileSize]])
        && commands == (if old(NativeKeyfileExists(u)) then old(commands) else old(commands) + [DdCommand(npath)])
    {
      first := CreateKeyfile(NativeKeyfilePath(u), npath, ddRc, random, copy);
      second := CreateKeyfile(NativeKeyfilePath(u), npath, ddRc, random, copy);
    }

    /** add_keyfile: make sure the keyfile exists (creating it if needed),
        then register it with luksAddKey, passing the passphrase in a temp
        file that is removed on every path. */
    method AddKeyfile(devByid: string, keyfile: string, passphrase: string, keyNpath: string,
                      npath: string, ddRc: int, random: string, copy: Copy, addKeyRc: int)
      returns (r: Outcome)
      requires npath !in files && keyNpath !in files && npath != keyNpath
      requires npath != keyfile && keyNpath != keyfile && |random| >= KeyfileSize
      modifies this
      ensures npath !in files && keyNpath !in files
      ensures old(keyfile in files) ==>
        && files == old(files)
        && commands == old(commands) + [AddKeyCommand(devByid, keyfile, npath)]
        && r == AddKeyOutcome(addKeyRc)
      ensures old(keyfile !in files) && ddRc != 0 ==>
        r == Returned(false) && files == old(files) && commands == old(commands) + [DdCommand(keyNpath)]
      ensures old(keyfile !in files) && ddRc == 0 && copy.CopyAborted? ==>
        && r == Raised(CopyFailed) && files == Leftover(old(files), keyfile, copy.left)
        && commands == old(commands) + [DdCommand(keyNpath)]
      ensures old(keyfile !in files) && ddRc == 0 && copy.Copied? ==>
        && files == old(files)[keyfile := random[..KeyfileSize]]
        && commands == old(commands) + [DdCommand(keyNpath), AddKeyCommand(devByid, keyfile, npath)]
        && r == AddKeyOutcome(addKeyRc)
    {
      if keyfile !in files {
        var created := CreateKeyfile(keyfile, keyNpath, ddRc, random, copy);
        if created.Raised? {
          return created;
        }
        if !created.value {
          return Returned(false);
        }
      }
      var before := files;
      files := files[npath := passphrase];
      commands := commands + [AddKeyCommand(devByid, keyfile, npath)];
      files := files - {npath};
      assert files == before;
      r := AddKeyOutcome(addKeyRc);
    }

    /** luks_format_disk: luksFormat on the by-id device with the passphrase
        in a temp file, which is removed on every path; a non-zero return
        code raises. */
    method LuksFormatDisk(diskByid: string, passphrase: string, npath: string, formatRc: int)
      returns (r: Outcome)
      requires npath !in files
      modifies this
      ensures files == old(files)
      ensures commands == old(commands) + [FormatCommand(diskByid, npath)]
      ensures r == if formatRc == 0 then Returned(true) else Raised(CommandFailed("Exception"))
    {
      files := files[npath := passphrase];
      commands := commands + [FormatCommand(diskByid, npath)];
      r := if formatRc == 0 then Returned(true) else Raised(CommandFailed("Exception"));
      files := files - {npath};
      assert files == old(files);
    }
  }
}
