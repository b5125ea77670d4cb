# Rockstor disk inventory and LUKS helpers, modelled in Dafny

This project models two parts of Rockstor, a NAS appliance built on btrfs:

- **The disk views** (`storageadmin/views/disk.py`). `_update_disk_state` reconciles the Disk table with a fresh `scan_disks()` result in three passes. The first pass renames and scrubs the existing rows. The second upserts one row per attached device, with its role column and pool link. The third refreshes the S.M.A.R.T. flags. Also modelled:
  - the partition-redirect name filter and its reversal;
  - the wipe view, with its name guard;
  - the role view, with its guarded wipe;
  - the removal of offline disks.
- **The LUKS helpers** (`system/luks.py`):
  - parsing of `cryptsetup status` and `dmsetup info` output;
  - reading `/etc/crypttab` into a uuid-to-keyfile dictionary;
  - the line-by-line rewrite of `/etc/crypttab` through a temp file;
  - keyfile creation and `luksAddKey` registration;
  - `luksFormat`.

## Modules

| Module | Models |
|---|---|
| `Wrappers` | `Option` and `Result` types |
| `Text` | Python 2 `str.split()`, `str.split(c)`, `sep.join`, `readlines` |
| `DiskModel` | Disk and Pool rows, scanned devices |
| `DiskRoles` | role-column update |
| `DiskNames` | redirect filter and its reversal |
| `Reconcile` | the three passes as functions, with their theorems |
| `Inventory` | `class Inventory` holding the tables; the views as methods, with one loop method per pass |
| `LuksStatus` | status parsers |
| `Crypttab` | entries and the rewrite, on lines |
| `LuksHost` | `class Host`, whose `files` map and `commands` log the file operations update |

Each view is one database transaction, so each `Inventory` method works on local copies and assigns the fields only on success. Collaborators are parameters (`Reconcile.Collaborators`):
- the by-id name lookup;
- the `uuid4` placeholder;
- `smart.available`;
- `btrfs_uuid`;
- `usage_bound`.

External commands, their return codes, `mkstemp`'s fresh path, the random bytes and whether a copy succeeds are also parameters.

## Model

| member | source | states |
|---|---|---|
| DiskRoles.ByIdPartitions | src/rockstor/storageadmin/views/disk.py:220-230 | The partitions dict re-keyed by by-id name has exactly the by-id names of the scanned partitions as keys. |
| DiskRoles.ByIdPartitionsValues | src/rockstor/storageadmin/views/disk.py:226-228 | Each key holds the value of the last partition whose by-id name it is: a later partition with the same by-id name overwrites an earlier one. |
| DiskRoles.UpdatedRole | src/rockstor/storageadmin/views/disk.py:149-240 | The role column is never a legacy string. It is NULL exactly when nothing was derived and every previous key is a known scan role. Otherwise its keys are the derived keys plus the previous keys outside SCAN_DISKS_KNOWN_ROLES, and derived values override kept ones. |
| DiskRoles.UpdatedRoleIdempotent | src/rockstor/storageadmin/views/disk.py:149-240 | A second scan of the same device leaves the role column as the first scan left it. |
| DiskRoles.StaleUnlistedRolesSurvive | src/rockstor/storageadmin/views/disk.py:44-45 | `nbd` and `bcachecdev` are derived but not listed as known roles, so once stored they survive a scan of a device that no longer has them. |
| DiskRoles.AllMatchingRolesAssigned | src/rockstor/storageadmin/views/disk.py:176-230 | The derivation has no early exit: an opened LUKS root device with partitions and an `nbd` name gets all five roles. |
| DiskNames.RoleFilterDiskName | src/rockstor/storageadmin/views/disk.py:342-362 | Returns the `redirect` value when the role has one, and the disk's name otherwise. It is an error exactly when the role is a legacy non-JSON string or the redirect is not text. |
| DiskNames.LastField | src/rockstor/storageadmin/views/disk.py:384-387 | The last `-`-separated field contains no dash. |
| DiskNames.ReverseRoleFilterName | src/rockstor/storageadmin/views/disk.py:364-395 | The flag is set exactly when the last `-` field is `part` followed by a character other than a newline (what comes after that character does not matter). The name is then the other fields joined by `-`; otherwise the input is returned unchanged. |
| DiskNames.ReversePartitionRedirect | src/rockstor/storageadmin/views/disk.py:364-395 | Round trip: `base + "-part" + n` reverses to `(base, true)` for a non-empty, dash-free `n` whose first character is not a newline. |
| DiskNames.NewlineAfterPartKeepsName | src/rockstor/storageadmin/views/disk.py:384-392 | The boundary of that round trip: `base + "-part\n" + n` is not a redirect, because `.` does not match the newline, and the name comes back unchanged with the flag false. |
| Reconcile.ScrubSerials | src/rockstor/storageadmin/views/disk.py:77-96 | After the first pass, serials are pairwise distinct. A serial survives exactly when it was in the table and is not a `fake-serial-`. |
| Reconcile.ScrubKeepsSurvivors | src/rockstor/storageadmin/views/disk.py:77-104 | Every row whose serial was not seen earlier and is not fake is kept, renamed and updated. |
| Reconcile.ScrubRowsFromSurvivors | src/rockstor/storageadmin/views/disk.py:77-104 | Every kept row comes from such a surviving row. |
| Reconcile.ScrubbedRows | src/rockstor/storageadmin/views/disk.py:78-104 | Kept rows have a `detached-` name. Rows whose serial was not scanned are offline with both SMART flags false. Pool references still resolve. |
| DiskModel.FirstIndex | src/rockstor/storageadmin/views/disk.py:120-121 | Finds the first row holding the serial (or, for the name lookups, the name), or the table length when none does; no earlier row holds it. |
| Reconcile.PoolLink | src/rockstor/storageadmin/views/disk.py:243-270 | Fails exactly for a root device without a label. The pool is the one named by the label, or none for a non-root device without such a pool. A root device always ends linked to a pool with role `root`, created with raid `single` when missing. Existing pools are kept, apart from a role set to `root`. |
| Reconcile.UpsertAllFails | src/rockstor/storageadmin/views/disk.py:108-272 | The second pass fails exactly when some scanned root device has no label. |
| Reconcile.DescribedRowDescribes | src/rockstor/storageadmin/views/disk.py:117-148 | An upserted row has the by-id name and is online. Its size, parted, model, transport and vendor are copied from the scan. `btrfs_uuid` is None for a non-btrfs filesystem and the scanned uuid otherwise. Every derived role is present. |
| Reconcile.UpsertDeviceStep | src/rockstor/storageadmin/views/disk.py:108-272 | One device upsert keeps serials distinct, leaves other serials' rows alone, appends only rows with this serial, keeps pool references resolvable, and makes this device's row describe it. |
| Reconcile.UpsertAllFacts | src/rockstor/storageadmin/views/disk.py:108-272 | The upsert-loop invariant holds after the whole scan. Each scanned serial has a row describing its last device. Unscanned rows are untouched. Every root device's pool has role `root`. |
| Reconcile.SmartRefresh | src/rockstor/storageadmin/views/disk.py:274-309 | The third pass as written keeps the number of rows and treats each row on its own, by the as-written body. |
| Reconcile.SmartFlagsAsWritten | src/rockstor/storageadmin/views/disk.py:276-309 | As written, the refresh changes only the two flags. A flag is on afterwards only where the probe of an online, probed row reported it, or where it was already on in an offline or skip-listed row. Offline and skip-listed rows are left exactly as they were. |
| Reconcile.SmartFlagsOnlyFromProbe | src/rockstor/storageadmin/views/disk.py:276-308 | With the intended third pass, the refresh changes only the two flags, and a row ends SMART-available only if it is online, not skip-listed, and the probe said available. |
| Reconcile.SmartSkipKeepsStaleFlags | src/rockstor/storageadmin/views/disk.py:289-309 | An online `nvme-` row with both flags true keeps them as written; the intended refresh clears them. |
| Reconcile.SmartRefreshKeepsRows | src/rockstor/storageadmin/views/disk.py:274-309 | The third pass as written changes nothing but the SMART flags. |
| Reconcile.UpsertedFacts | src/rockstor/storageadmin/views/disk.py:77-272 | After the first two passes the upsert invariant holds. Every unscanned row is offline, has both flags false and a `detached-` name, and has a genuine serial taken from the old table. |
| Reconcile.ReconcileFails | src/rockstor/storageadmin/views/disk.py:258-272 | The whole pass fails, leaving the tables unchanged, exactly when a scanned root device has no label. |
| Reconcile.ReconciledInventory | src/rockstor/storageadmin/views/disk.py:77-148 | Afterwards serials are distinct and every scanned serial has a row. A row is online exactly when its serial was scanned. Offline rows have both flags false, a `detached-` name, a non-fake serial, and a serial from the old table. |
| Reconcile.ReconciledPools | src/rockstor/storageadmin/views/disk.py:243-272 | Afterwards every pool reference resolves, no pool is lost, and each scanned root device's pool has role `root`. |
| Reconcile.ReconciledDescribesScan | src/rockstor/storageadmin/views/disk.py:108-240 | Afterwards each scanned serial's row describes the last scanned device with that serial. |
| Reconcile.ReconciledSmart | src/rockstor/storageadmin/views/disk.py:274-309 | After a pass with the intended third loop, each online row's flags are exactly the probe's answer, or false when skip-listed or when the probe raised. |
| Reconcile.ReconciledSmartAsWritten | src/rockstor/storageadmin/views/disk.py:274-309 | After a pass as written, each online probed row's flags are exactly the probe's answer (false when it raised); an online skip-listed row is exactly as the second pass left it. |
| Reconcile.IntendedDiffersOnlyInSkippedFlags | src/rockstor/storageadmin/views/disk.py:289-309 | The pass as written and the intended pass fail together, produce the same pools, and differ only in that the intended pass clears both flags of online skip-listed rows. |
| Inventory.FindByName | src/rockstor/storageadmin/views/disk.py:334-340 | `Disk.objects.get(name=...)` finds a row only when no other row has the name. |
| Inventory.FindByNameUnique | src/rockstor/storageadmin/views/disk.py:334-340 | The converse: a uniquely named row is found. |
| Inventory.WipeTarget | src/rockstor/storageadmin/views/disk.py:457-473 | The wipe view's checks pick a row of the table. |
| Inventory.WipeTargetIsDiskOrPartition | src/rockstor/storageadmin/views/disk.py:457-473 | A wipe reaches only the named disk itself, or a `<name>-part<N>` partition of it. |
| Inventory.WipeWholeDisk | src/rockstor/storageadmin/views/disk.py:457-473 | A disk without a redirect passes the guard exactly when its own name has no `part<N>` last field, and is then wiped whole. |
| Inventory.WipePartitionRedirect | src/rockstor/storageadmin/views/disk.py:457-473 | A disk redirected to `<name>-part<N>` is wiped at that partition, flagged as a partition. |
| Inventory.RolePlanOutcomes | src/rockstor/storageadmin/views/disk.py:560-606 | For every request there are five cases, each exact. A redirect change with the wipe tick is refused. A wipe of a pool member is refused. A wipe alone of a disk outside any pool proceeds. Neither change nor tick keeps the role. A change alone saves it. |
| Inventory.SavedRoleRedirects | src/rockstor/storageadmin/views/disk.py:575-595 | A saved role holds the requested redirect, or has no `redirect` key for `""`. Every other key is unchanged, and the name filter then yields the redirect. |
| Inventory.SavedRoleSettles | src/rockstor/storageadmin/views/disk.py:575-606 | Repeating a saved request keeps the role. Repeating it with the tick proceeds to the wipe unless the disk is in a pool. |
| Inventory.RedirectThenWipe | src/rockstor/storageadmin/views/disk.py:457-606 | Redirecting a disk outside any pool to a partition and then requesting the wipe logs exactly that partition and changes no other row. |
| Inventory.DeleteTarget | src/rockstor/storageadmin/views/disk.py:407-416 | The removed row is a row of the table. |
| Inventory.DeleteRemovesOneOfflineRow | src/rockstor/storageadmin/views/disk.py:407-424 | Removal takes exactly the one offline row with the name; no remaining row has the name; the rest is kept as a multiset. |
| Inventory.RemovePreservesPoolRefs | src/rockstor/storageadmin/views/disk.py:419 | Removing a row keeps the other rows' pool references resolvable. |
| Inventory.ScrubRows | src/rockstor/storageadmin/views/disk.py:69-104 | The first loop, with the `serial_numbers_seen` list, computes the scrubbed table. |
| Inventory.UpsertOne | src/rockstor/storageadmin/views/disk.py:108-272 | One iteration of the second loop, updating the row's fields in place, computes the device upsert. |
| Inventory.UpsertDevices | src/rockstor/storageadmin/views/disk.py:108-272 | The second loop computes the upsert of the whole scan, stopping at the first failure. |
| Inventory.RefreshSmartFlags | src/rockstor/storageadmin/views/disk.py:274-309 | The third loop, including the `continue` that skips saving a skip-listed row, computes the SMART refresh as written. |
| Inventory.Inventory.UpdateDiskState | src/rockstor/storageadmin/views/disk.py:53-309 | Succeeds exactly when the reconciliation as written does, and then holds its tables; on failure nothing changes. Pool references stay resolvable, and on success serials are distinct. |
| Inventory.Inventory.Wipe | src/rockstor/storageadmin/views/disk.py:457-481 | Result, table and wipe log equal the wipe view's outcome on the old state. |
| Inventory.Inventory.RoleDisk | src/rockstor/storageadmin/views/disk.py:540-614 | Result, table and wipe log equal the role view's outcome on the old state. |
| Inventory.Inventory.Delete | src/rockstor/storageadmin/views/disk.py:407-424 | Refuses missing and attached disks, leaving the table unchanged. Otherwise it removes exactly that row. |
| LuksStatus.FirstDeviceFieldIsFirst | src/rockstor/system/luks.py:58-72 | The container is found exactly when some line has at least two fields and starts with `device:`. It is that first line's second field. |
| LuksStatus.OpenLuksContainerDev | src/rockstor/system/luks.py:34-72 | A non-zero rc gives `''`. Otherwise the result is the first device line's second field, or `''` when there is none. |
| LuksStatus.LineContribution | src/rockstor/system/luks.py:138-162 | A 41-character `luks-` line contributes its 36-character tail and a blank line contributes nothing. Any other contribution needs the device lookup. |
| LuksStatus.UnlockedLuksContainersUuids | src/rockstor/system/luks.py:130-164 | A non-zero dmsetup rc raises (run_command is called without `throw=False`) carrying that rc, and only that raises this error. With rc 0 and no output the list is empty. |
| LuksStatus.UnlockedContainersOutcome | src/rockstor/system/luks.py:130-164 | The call raises a KeyError exactly when dmsetup succeeded and some line's backing device is missing from the map. A returned list holds a uuid exactly when some line contributes it. |
| LuksStatus.UnlockedUuidsContents | src/rockstor/system/luks.py:140-164 | Raises exactly when a line's backing device is missing from the map. Otherwise the list has at most one uuid per line, holding each contributed uuid and nothing else. |
| LuksStatus.FastPathUuids | src/rockstor/system/luks.py:142-145 | Every `luks-<uuid>` line's uuid is in the result. |
| LuksStatus.UnlockedUuidsErrSticks | src/rockstor/system/luks.py:160 | A KeyError stops the scan: later lines do not change the outcome. |
| LuksStatus.GetUnlockedLuksContainersUuids | src/rockstor/system/luks.py:113-164 | The loop with its map-fetched flag computes the outcome, including the raise on a non-zero rc and on a KeyError. The map is fetched once when some line needs it and never otherwise. |
| Crypttab.UuidValue | src/rockstor/system/luks.py:193-196 | A `UUID=` column yields a value exactly when the rest has no `=`, and the column is then `UUID=` plus that value. |
| Crypttab.EntriesLastLineWins | src/rockstor/system/luks.py:182-203 | A uuid has an entry exactly when some line gives it one. Its value is the third column of the last such line. |
| Crypttab.Classify | src/rockstor/system/luks.py:236-263 | Dropped lines (blank, under three fields, or a malformed `UUID=`) give no entry. A copied or device-checked line is never an entry for the container being updated. A matched line is that container's entry. |
| Crypttab.Resolve | src/rockstor/system/luks.py:262-274 | The lookup raises exactly for a `UUID=/dev/<dev>` line whose device is missing from the map. |
| Crypttab.RewriteFails | src/rockstor/system/luks.py:233-307 | The rewrite fails exactly when some line names such a device. |
| Crypttab.EntryLineReadsBack | src/rockstor/system/luks.py:284-307 | The native line `luks-<u> UUID=<u> <k> <options or luks>` is one newline-terminated line and reads back as `u -> k`. |
| Crypttab.TerminatedSameEntry | src/rockstor/system/luks.py:300 | A copied line reads back as the same entry, with or without its newline restored. |
| Crypttab.RewriteSetsEntry | src/rockstor/system/luks.py:233-307 | Read back after the rewrite, the container has no entry with `false`, and entry `k` otherwise. Every other container's entry is unchanged. |
| Crypttab.SingleEntryReadsBack | src/rockstor/system/luks.py:340-350 | The single-entry crypttab reads back as exactly `{u: k}`. |
| Crypttab.UnterminatedLastLineSwallowsEntry | src/rockstor/system/luks.py:300-307 | With a last line lacking its newline, the rewrite as written loses the appended entry; the intended rewrite keeps both entries. |
| Crypttab.RewriteLoopTerminatedLines | src/rockstor/system/luks.py:300-307 | When every line ends with a newline, the rewrite as written and the intended rewrite produce the same lines. |
| Crypttab.UnknownDeviceLineFails | src/rockstor/system/luks.py:262-269 | A `UUID=/dev/<dev>` line with `dev` missing from the map makes the rewrite raise with `dev`. |
| LuksHost.RcMessage | src/rockstor/system/luks.py:405-416 | rc 1 to 5 map to their five messages, anything else to `Exception`. |
| LuksHost.RcMessagesDistinct | src/rockstor/system/luks.py:405-416 | The five messages are pairwise different and differ from the generic one. |
| LuksHost.UpdateNeedsUuid | src/rockstor/system/luks.py:213-215 | The update returns False exactly for a None or empty uuid, and then leaves the crypttab alone. |
| LuksHost.UpdateWithoutCrypttab | src/rockstor/system/luks.py:217-226 | Without a crypttab, `false` returns True and creates nothing. Any other `k` creates exactly the native line, which reads back as `{u: k}`. |
| LuksHost.UpdateReadsBack | src/rockstor/system/luks.py:206-330 | After a successful intended update of an existing crypttab, reading it back gives no entry for the container with `false`, or `k` otherwise. Other containers keep their entries. |
| LuksHost.UpdateAsWrittenOnTerminatedText | src/rockstor/system/luks.py:229-311 | On a crypttab that is empty or ends with a newline, the update as written has the same result and crypttab as the intended update. |
| LuksHost.UpdateAsWrittenReadsBack | src/rockstor/system/luks.py:206-330 | After a successful update as written of a crypttab that is empty or ends with a newline, reading it back gives no entry for the container with `false`, or `k` otherwise. Other containers keep their entries. |
| LuksHost.UpdateFailsOnUnknownDevice | src/rockstor/system/luks.py:262-269 | The update raises a KeyError exactly when a line names a device missing from the map, and then leaves the crypttab unchanged. A failed copy leaves the crypttab as the copy left it. |
| LuksHost.UnknownDeviceLeaksTemp | src/rockstor/system/luks.py:229-329 | As written, a crypttab line naming an unknown device leaves the temp file behind. |
| LuksHost.Host.NativeKeyfileExists | src/rockstor/system/luks.py:481-490 | True exactly when `/root/keyfile-<uuid>` exists; see CreateNativeKeyfileTwice for its tie to keyfile creation. |
| LuksHost.Host.GetCrypttabEntries | src/rockstor/system/luks.py:167-203 | The dictionary loop computes the entries of the crypttab's lines, or nothing when there is no crypttab. |
| LuksHost.Host.CommitTemp | src/rockstor/system/luks.py:310-329 | The target receives the whole temp file when the copy succeeds. A failed copy raises and leaves the target as the copy left it. The temp file is removed either way. |
| LuksHost.Host.NewCrypttabSingleEntry | src/rockstor/system/luks.py:333-363 | The crypttab becomes exactly the native line with `luks`. A failed copy raises and leaves the crypttab as the copy left it. The temp file is gone. |
| LuksHost.Host.StageRewrite | src/rockstor/system/luks.py:229-311 | The temp file ends up holding the text of the computed rewrite, including the native line appended when no line matched. On a KeyError only the temp file has changed. |
| LuksHost.Host.WriteRewrite | src/rockstor/system/luks.py:233-303 | The loop writes into the temp file exactly the lines the rewrite computes. On a KeyError it stops, leaving only the temp file changed. |
| LuksHost.Host.UpdateCrypttab | src/rockstor/system/luks.py:206-330 | Result and crypttab are those of the intended update. The temp file is removed on every path, and no other file changes. |
| LuksHost.Host.UpdateCrypttabAsWritten | src/rockstor/system/luks.py:206-330 | Result and crypttab are those of the update as written. The temp file remains exactly in the KeyError case. |
| LuksHost.Host.CreateKeyfile | src/rockstor/system/luks.py:431-478 | An existing target returns True untouched. Otherwise dd is run. A failing dd returns False with nothing changed. A failed copy raises, leaving the target as the copy left it. Success makes the keyfile the 2048 random bytes. The temp file is always removed. |
| LuksHost.Host.CreateNativeKeyfileTwice | src/rockstor/system/luks.py:431-490 | Once keyfile creation at `/root/keyfile-<uuid>` has returned True, native_keyfile_exists holds, and creating it again returns True without touching a file or running a command. |
| LuksHost.Host.AddKeyfile | src/rockstor/system/luks.py:366-428 | A missing keyfile is created first. If creation fails, it returns False without running luksAddKey; a failed copy during creation leaves the keyfile as the copy left it. Otherwise luksAddKey runs with the passphrase in a temp file. A non-zero rc raises with that rc's message. The temp files are removed. |
| LuksHost.Host.LuksFormatDisk | src/rockstor/system/luks.py:75-110 | Runs luksFormat on the by-id path with the passphrase in a temp file, which is removed afterwards. A non-zero rc raises. |

## Left out

- `scan_disks`, `get_dev_byid_name`, `smart.available`, `wipe_disk`, `btrfs_uuid`, `usage_bound`, `run_command` (cryptsetup, dmsetup, dd) and `get_uuid_name_map` are external. Their answers are parameters.
- `enable_quota` on a new root pool is not modelled: it is an external side effect.
- The `uuid4` placeholder name is a parameter (`placeholder`), not randomness.
- Logging, REST responses, serializers and `handle_exception` wrapping are not modelled.
- Errors are reduced to kinds (`DiskError`, `Fault`), without their message text.
- Database transactions are modelled as all-or-nothing: each view either commits its whole new state or leaves the tables unchanged.
- Reconcile.PoolLink, Reconcile.UpsertAllFails, Reconcile.ReconcileFails: a scanned root device without a label is modelled as failing the whole pass. Nothing in `_update_disk_state` raises there: `Pool(name=d.label, …)` with a None label fails at `p.save()` only because the Pool table's name column is NOT NULL, a constraint of the ORM schema, which is not part of this model. The model assumes that constraint, so the save raises and `@transaction.atomic` rolls the pass back.
- DiskNames.RoleFilterDiskName: a non-text `redirect` value is reported as the `RedirectNotText` error here. In the source the filter returns it, and the failure comes later, at the reverse step's `.split`.
- `json.loads` of a malformed role column is not modelled. The role column is a datatype, and only the two legacy strings are non-JSON.
- `re.match(line, '#')` has its arguments swapped: each crypttab line is used as the pattern and `'#'` as the text. It is modelled as never skipping a line. Not modelled: a line that is not a valid pattern (an unbalanced `(` or `[`) makes `re` raise `re.error` in `get_crypttab_entries` and in `update_crypttab`, where the raise also leaves the temp file behind; and a line whose pattern does match at the start of `'#'`, such as a last line that is exactly `#` without a newline, is skipped. Other uses of `re` are modelled as the prefix and shape checks they perform.
- `container_dev is not ''` and `len(...) is not 2` are modelled as `!=`.
- Python 2 `split()` is modelled on its six ASCII whitespace characters; Unicode whitespace is not modelled.
- File modes, tmpfs placement, the quality of `/dev/urandom`, and failures of `os.remove` or `open` are not modelled. What a failed `shutil.copy2` leaves at its target (nothing, the old file, or part of the new one) is a parameter (`Copy.CopyAborted`), not derived.
- In `update_crypttab` the device map is passed in, not fetched once through a flag; the fetch-once flag is modelled in `get_unlocked_luks_containers_uuids`.
- LuksHost.Host.AddKeyfile: the raised message is the rc's message only, without the command and error text.
- LuksHost.Host.LuksFormatDisk: returns success instead of the `(out, err, rc)` tuple, whose rc is 0 whenever it returns.
- Crypttab.RewriteSetsEntry: holds for a 36-character uuid without whitespace or `=` and a non-empty, whitespace-free keyfile column. It says nothing about entries whose own uuid column starts with `/dev`, since those can be rewritten through the device map.
- LuksHost.UpdateReadsBack: follows from Crypttab.RewriteSetsEntry and carries the same limits on the uuid, the keyfile column and `/dev`-keyed entries.
- LuksHost.UpdateAsWrittenReadsBack: follows from Crypttab.RewriteSetsEntry and carries the same limits on the uuid, the keyfile column and `/dev`-keyed entries.
- The third pass of `_update_disk_state` is modelled as written (`Reconcile.Reconciled`, `Inventory.Inventory.UpdateDiskState`); the intended pass (`Reconcile.ReconciledIntended`) is kept beside it, see Findings.
- LuksStatus.UnlockedLuksContainersUuids: the docstring promises an empty list when an error occurred; the code raises instead, because `run_command` is called without `throw=False`. The model follows the code.
- The thin SMART and drive wrappers, `_btrfs_disk_import`, `replication/util.py` and `storageadmin/util.py` are not part of this model.

## Findings

| source | as written | input that shows it | evidently intended | confidence | as-written member | corrected member |
|---|---|---|---|---|---|---|
| src/rockstor/storageadmin/views/disk.py:299-300 | For a skip-listed device, both SMART flags are set to False, then `continue` skips the `do.save()` at line 309, so the stored flags keep their old values. | An online row named `nvme-Samsung_SSD_970_EVO_S1` with both flags true | The stored flags become False | medium, not executed | Reconcile.SmartSkipKeepsStaleFlags, Reconcile.IntendedDiffersOnlyInSkippedFlags | Reconcile.SmartFlagsOnlyFromProbe, Reconcile.ReconciledSmart |
| src/rockstor/system/luks.py:300-307 | A copied line is written verbatim. When the crypttab's last line has no newline, the appended entry continues that line, and the new container gets no entry. With every line terminated the two agree (Crypttab.RewriteLoopTerminatedLines). | A crypttab `luks-<a> UUID=<a> none luks` without a final newline, updated for another container `b` | `b`'s entry on a line of its own | high, not executed | Crypttab.RewriteLinesAsWritten, Crypttab.UnterminatedLastLineSwallowsEntry | Crypttab.RewriteLines, Crypttab.RewriteSetsEntry |
| src/rockstor/system/luks.py:229-329 | The `KeyError` from `uuid_name_map[dev_no_path]` escapes before the `try/finally` that removes the temp file, so the temp file is left behind. | A crypttab line `luks-x UUID=/dev/<dev> none luks` with `<dev>` missing from the device map | The temp file removed on every path | high, not executed | LuksHost.Host.UpdateCrypttabAsWritten, LuksHost.UnknownDeviceLeaksTemp | LuksHost.Host.UpdateCrypttab |
