# Edison sample operation supervisor, in Dafny

This project models the core of the Intel Edison device-management sample
(`c/iotdm_client/samples/iotdm_edison_sample/edison.c`): the
single-outstanding-operation supervisor that admits at most one long-running
maintenance worker (firmware download, firmware update, factory reset) at a time,
and the pure byte transforms of the device-metadata readers.

- `supervisor.dfy`, module `Supervisor`. The three process-handle slots
  `child_download`, `child_update` and `child_factory_reset` are the record `Slots`.
  Each slot starts at -1, and a slot is live when it holds a positive pid. The
  non-blocking probe, the three per-kind liveness queries, the admission check and
  the launchers are pure transitions on that record. The operating system's answers
  are parameters: the `waitpid(..., WNOHANG)` result of each probe and the `fork()`
  result of each spawn. A call sequence is a list of `Event`s, and `Run` replays it.
  The main theorem is `RunKeepsExclusive`: whatever the OS answers, at most one slot
  is live after any sequence of calls.
- `firmware.dfy`, module `Firmware`. This models what `get_firmware_version` and
  `get_serial_number` do to the file contents once they are read. The last byte is
  overwritten by the terminator and the buffer is read as a C string. The version is
  also cut before its first `'@'`.

The three tracked launchers `spawn_download_process`, `spawn_update_process` and
`spawn_factoryreset_process` share one parent-side logic, so they are modelled once
as `Launch`, with the operation kind as a parameter. The branches taken after the
admission check are the helper `Admit`. The slots and the three `waitpid` answers
of an admission check are both a `PerKind` record, with one integer per kind.

Where the admission check falls off the end of the function without returning its
result, the model returns the computed result (see Findings).

## Model

| member | source | states |
|---|---|---|
| Supervisor.ProbeHandle | c/iotdm_client/samples/iotdm_edison_sample/edison.c:27-47 | an empty handle (<= 0) is reported not running and left unchanged; a live handle is reported running iff waitpid answers 0, in which case it keeps the pid; any other answer reaps it to -1; the answer is true exactly when the handle left behind is live |
| Supervisor.IsRunning | c/iotdm_client/samples/iotdm_edison_sample/edison.c:49-62 | each per-kind query reports true iff its slot was live and waitpid answered 0, agrees with the slot it leaves behind, can only clear its own slot to -1, and leaves the other two slots untouched |
| Supervisor.AnyRunning | c/iotdm_client/samples/iotdm_edison_sample/edison.c:64-82 | the admission check answers true iff some slot was live with a waitpid answer of 0; it probes all three slots with no short-circuit, so every live slot whose worker finished is reaped even when another is still running; slots change only to -1; its answer is true iff a slot is still live afterwards |
| Supervisor.Launch | c/iotdm_client/samples/iotdm_edison_sample/edison.c:175-316 | a tracked launch succeeds iff admission found nothing live and fork returned a positive pid; when refused, nothing beyond the admission reaping changes; on success the pid sits in the launching kind's slot and that is the only live slot; a failed fork resets the launching slot to -1; other slots are as admission left them |
| Supervisor.Admit | c/iotdm_client/samples/iotdm_edison_sample/edison.c:211-220 | once admission has answered, a launcher succeeds iff admission reported nothing live and fork gave a positive pid; a refused launch keeps the slots admission left; a positive pid goes only into the launching slot, and a failed fork resets that slot to -1; every other slot stays as admission left it |
| Supervisor.SpawnReboot | c/iotdm_client/samples/iotdm_edison_sample/edison.c:140-173 | reboot changes the slots only by the admission check's reaping, assigns no slot, and succeeds iff fork returned a positive pid, whatever the admission check answered |
| Supervisor.StepKeepsExclusive | c/iotdm_client/samples/iotdm_edison_sample/edison.c:175-316 | every single probe, admission check, tracked launch or reboot keeps "at most one slot live" |
| Supervisor.RunKeepsExclusive | c/iotdm_client/samples/iotdm_edison_sample/edison.c:16-18 | starting from slots with at most one live handle (such as the initial all -1 slots), every sequence of calls leaves at most one slot live |
| Supervisor.InitialRunExclusive | c/iotdm_client/samples/iotdm_edison_sample/edison.c:16-18 | the slots start all empty, and from there every interleaving of calls keeps at most one slot live |
| Supervisor.ProbeOnlyClears | c/iotdm_client/samples/iotdm_edison_sample/edison.c:27-82 | neither a single probe nor the admission check makes a slot live that was not live before |
| Supervisor.ReapIsFinal | c/iotdm_client/samples/iotdm_edison_sample/edison.c:29-44 | once a probe has reported false, a later probe of the same kind also reports false and changes nothing, whatever waitpid would answer |
| Supervisor.LiveWorkerBlocksLaunch | c/iotdm_client/samples/iotdm_edison_sample/edison.c:180-183 | while any tracked worker still runs, a launch of any kind (including the same kind) is refused, forks nothing, and keeps the running worker's pid in its slot |
| Supervisor.FailedSpawnLeavesNoHandle | c/iotdm_client/samples/iotdm_edison_sample/edison.c:216-220 | after an admitted launch whose fork failed, the launch reports false and the kind's liveness query reports false |
| Supervisor.RebootIgnoresAdmission | c/iotdm_client/samples/iotdm_edison_sample/edison.c:145-150 | reboot succeeds when fork does, even while the admission check reports a live worker |
| Supervisor.DownloadThenUpdate | c/iotdm_client/samples/iotdm_edison_sample/edison.c:225-316 | from the initial slots a download is admitted; an update is refused while the download worker runs; after the worker exits, the update is admitted and is then the only live slot |
| Supervisor.AnyRunningAsWritten | c/iotdm_client/samples/iotdm_edison_sample/edison.c:64-82 | the admission check as written reaps exactly like the corrected one: a slot stays live iff it was live and waitpid answered 0, and slots change only to -1; but its answer is an indeterminate value, not the computed result |
| Supervisor.LaunchAsWritten | c/iotdm_client/samples/iotdm_edison_sample/edison.c:175-223 | a launcher on top of the as-written admission check proceeds whenever the indeterminate answer reads false, whatever the slots hold |
| Supervisor.AsWrittenAdmitsSecondWorker | c/iotdm_client/samples/iotdm_edison_sample/edison.c:64-82 | with the as-written admission check, an update can be forked while a download worker still runs, which leaves two live slots |
| Firmware.PrefixBefore | c/iotdm_client/samples/iotdm_edison_sample/edison.c:131-132 | the result is a prefix of the input that contains no stop byte, and it ends either at the input's end or just before a stop byte |
| Firmware.PrefixBeforeUnique | c/iotdm_client/samples/iotdm_edison_sample/edison.c:131-132 | any prefix with those two properties equals the computed one, so the cut is the longest stop-free prefix |
| Firmware.CString | c/iotdm_client/samples/iotdm_edison_sample/edison.c:129-131 | the string a buffer denotes is the prefix before its first terminator |
| Firmware.DropLastByte | c/iotdm_client/samples/iotdm_edison_sample/edison.c:127-129 | overwriting the final byte with the terminator gives a proper, terminator-free prefix of the contents, which ends at the final byte or at an earlier terminator |
| Firmware.SerialNumber | c/iotdm_client/samples/iotdm_edison_sample/edison.c:101-102 | the serial number is a proper prefix of the non-empty contents with no terminator, and is all but the last byte unless a terminator comes earlier |
| Firmware.FirmwareVersion | c/iotdm_client/samples/iotdm_edison_sample/edison.c:127-132 | the version is a proper prefix of the non-empty contents that contains no '@' and no terminator; it ends at the final byte or just before an '@' or a terminator |
| Firmware.ReadFirmwareVersion | c/iotdm_client/samples/iotdm_edison_sample/edison.c:115-132 | a missing file gives the empty string; for a file that exists, the version is a proper prefix of the contents with no '@' and no terminator, and it ends at the final byte or just before the first '@' or terminator |
| Firmware.FirmwareVersionIsOneCut | c/iotdm_client/samples/iotdm_edison_sample/edison.c:127-132 | the two-step transform equals one cut of the contents minus their last byte at the first '@' or terminator |
| Firmware.FirmwareVersionKeepsPlainBody | c/iotdm_client/samples/iotdm_edison_sample/edison.c:127-132 | the version is all but the last byte of the contents iff that part holds neither '@' nor a terminator |
| Firmware.FirmwareVersionStopsAtFirstAt | c/iotdm_client/samples/iotdm_edison_sample/edison.c:131-132 | when an '@' occurs before the final byte with no '@' or terminator ahead of it, the version is exactly the bytes before it |

## Left out

- Child-side bodies of every spawn are left out. These are the `system` shell sequences (wget, unzip, losetup, mount, rm), `setuid`, `sync`, `reboot`, the sleeps and the `unlink` calls. They are OS side effects whose results the code never checks.
- The `fork()` result 0 is the child's own return path. The model assigns no slot there and returns false, which is what the child of the factory-reset and update launchers does after its shell sequence. The download child calls `exit(0)` and never returns, which is not modelled.
- The `unlink` of the staged firmware file before the download fork is a file-system side effect. It does not touch the slots.
- The `uri` argument of `spawn_download_process` is not modelled. It is only logged, and the `wget` that would use it is compiled out by `#if 0`.
- The `_system` wrapper and all logging are left out. They are foreign calls with no effect on the slots.
- File opening, `fseek`, `ftell`, `malloc`, `fread` and `fclose` are left out as I/O. `fread` is assumed to read the whole file, so `count` equals the file size. A failed `malloc`, which returns a null pointer, is not modelled.
- Firmware.FirmwareVersion: an empty file is excluded by a precondition. In C, `count == 0` writes index -1, which is out of bounds and undefined behaviour.
- Firmware.SerialNumber: the same precondition excludes an empty serial-number file, for the same reason.
- Concurrent callers are not modelled. The code has no locking, so calls are taken to be strictly sequential, with each `waitpid` and `fork` outcome an input.
- Process ids are unbounded integers, not the platform's `pid_t` width. Every comparison the code makes is against 0, which no width changes.

## Findings

| source | as written | input that shows it | evidently intended | confidence | as-written member | corrected member |
|---|---|---|---|---|---|---|
| c/iotdm_client/samples/iotdm_edison_sample/edison.c:64-82 | `is_any_child_process_running` computes `ret` but ends without `return ret;`, so its caller reads an indeterminate value (undefined behaviour in C) | download slot holds pid 100 and waitpid answers 0 (still running), and the indeterminate answer reads false; `spawn_update_process` with fork returning 200 then records the update worker, leaving two live slots | return `ret`, so a launch is refused while any tracked worker runs | high that the return is missing; not executed | Supervisor.AsWrittenAdmitsSecondWorker | Supervisor.RunKeepsExclusive |
