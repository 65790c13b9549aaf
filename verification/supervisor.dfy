/** The single-outstanding-operation supervisor of the Edison device-management sample.

The supervisor keeps one process-handle slot per tracked operation kind (download,
update, factory reset). A slot holding a positive value tracks a live worker; any
other value (the source uses -1) means "no process". Every operation is modelled as
a pure transition on the three slots. The operating system's answers are parameters:
`waitResult` is what `waitpid(pid, &status, WNOHANG)` returned for one probe and
`forkResult` is what `fork()` returned for one spawn.
 */
module Supervisor {

  /** The operation kinds whose worker is tracked by a slot. Reboot is not tracked. */
  datatype Kind = Download | Update | FactoryReset

  /** One integer per tracked kind. */
  datatype PerKind = PerKind(download: int, update: int, factoryReset: int)

  /** The three process-handle slots (`child_download`, `child_update`, `child_factory_reset`). */
  type Slots = PerKind

  /** The `waitpid` results seen by the three probes of one admission check. */
  type WaitResults = PerKind

  /** The value a slot holds when no worker is tracked. */
  const NoProcess: int := -1

  /** All three slots start out empty. */
  const Initial: Slots := PerKind(NoProcess, NoProcess, NoProcess)

  /** A slot tracks a worker exactly when it holds a positive process id. */
  predicate Live(pid: int) {
    pid > 0
  }

  /** The entry of kind `k`. */
  function Get(s: PerKind, k: Kind): int {
    match k
    case Download => s.download
    case Update => s.update
    case FactoryReset => s.factoryReset
  }

  function Set(s: Slots, k: Kind, v: int): (r: Slots)
    ensures Get(r, k) == v
    ensures forall j :: j != k ==> Get(r, j) == Get(s, j)
  {
    match k
    case Download => s.(download := v)
    case Update => s.(update := v)
    case FactoryReset => s.(factoryReset := v)
  }

  /** The exclusivity invariant: no two distinct kinds track a live worker. */
  predicate AtMostOneLive(s: Slots) {
    forall j, k :: Live(Get(s, j)) && Live(Get(s, k)) ==> j == k
  }

  /** No slot tracks a live worker. */
  predicate NoneLive(s: Slots) {
    forall k :: !Live(Get(s, k))
  }

  /** What a query or a launcher returns, together with the slots it leaves behind. */
  datatype Outcome = Outcome(result: bool, slots: Slots)

  /** The non-blocking liveness probe of one handle (`is_process_running`): returns
      whether the worker still runs and the new handle value. A handle that holds no
      process is left alone and never waited on; a tracked worker is reported running
      exactly when `waitpid` answers 0, and any other answer (the worker exited, or an
      error) reaps the handle to `NoProcess`. */
  function ProbeHandle(pid: int, waitResult: int): (r: (bool, int))
    ensures !Live(pid) ==> r == (false, pid)
    ensures Live(pid) ==> (r.0 <==> waitResult == 0)
    ensures r.0 ==> r.1 == pid
    ensures r.0 <==> Live(r.1)
    ensures r.1 == pid || r.1 == NoProcess
  {
    if pid <= 0 then
      (false, pid)
    else if waitResult == 0 then
      (true, pid)
    else
      (false, NoProcess)
  }

  /** The per-kind liveness queries (`is_download_happening`, `is_update_happening`,
      `is_factory_reset_happening`): probe the slot of kind `k` and nothing else. */
  function IsRunning(s: Slots, k: Kind, waitResult: int): (r: Outcome)
    ensures r.result <==> Live(Get(s, k)) && waitResult == 0
    ensures r.result <==> Live(Get(r.slots, k))
    ensures Get(r.slots, k) == Get(s, k) || Get(r.slots, k) == NoProcess
    ensures forall j :: j != k ==> Get(r.slots, j) == Get(s, j)
  {
    var (running, pid) := ProbeHandle(Get(s, k), waitResult);
    Outcome(running, Set(s, k, pid))
  }

  /** The admission check (`is_any_child_process_running`). It probes download, update
      and factory reset in that order, and it does not stop at the first live worker,
      so that every finished worker is reaped.
      The source computes `ret` but falls off the end of the function without
      `return ret;`, which is undefined behaviour in C; this definition returns `ret`,
      the evident intent. `AnyRunningAsWritten` below models the code as written. */
  function AnyRunning(s: Slots, w: WaitResults): (r: Outcome)
    ensures r.result <==> exists k :: Live(Get(s, k)) && Get(w, k) == 0
    ensures r.result <==> exists k :: Live(Get(r.slots, k))
    ensures forall k :: Live(Get(r.slots, k)) <==> Live(Get(s, k)) && Get(w, k) == 0
    ensures forall k :: Get(r.slots, k) == Get(s, k) || Get(r.slots, k) == NoProcess
  {
    var d := IsRunning(s, Download, w.download);
    var u := IsRunning(d.slots, Update, w.update);
    var f := IsRunning(u.slots, FactoryReset, w.factoryReset);
    Outcome(d.result || u.result || f.result, f.slots)
  }

  /** The three tracked launchers (`spawn_download_process`, `spawn_update_process`,
      `spawn_factoryreset_process`), parent side. A launch is refused when the
      admission check reports a live worker; then nothing is forked and no slot is
      assigned. Otherwise a positive `forkResult` is stored in the slot of `k` and the
      launch succeeds, and a negative one resets that slot to `NoProcess`.
      A `forkResult` of 0 is the child's own return path: the child's copy of the
      slots is not assigned and the result stays false. */
  function Launch(s: Slots, k: Kind, w: WaitResults, forkResult: int): (r: Outcome)
    ensures r.result <==> !AnyRunning(s, w).result && forkResult > 0
    ensures AnyRunning(s, w).result ==> r.slots == AnyRunning(s, w).slots
    ensures r.result ==> Get(r.slots, k) == forkResult
    ensures r.result ==> forall j :: Live(Get(r.slots, j)) <==> j == k
    ensures !AnyRunning(s, w).result && forkResult < 0 ==> Get(r.slots, k) == NoProcess
    ensures !r.result ==> r.slots == AnyRunning(s, w).slots || Get(r.slots, k) == NoProcess
    ensures forall j :: j != k ==> Get(r.slots, j) == Get(AnyRunning(s, w).slots, j)
  {
    Admit(AnyRunning(s, w), k, forkResult)
  }

  /** The parent-side branches a tracked launcher takes once the admission check has
      answered `admission.result` and left `admission.slots`: refuse when it answered
      true, otherwise store a positive fork result in the slot of `k`, reset that slot
      to `NoProcess` on a negative one, and assign nothing on 0. */
  function Admit(admission: Outcome, k: Kind, forkResult: int): (r: Outcome)
    ensures r.result <==> !admission.result && forkResult > 0
    ensures admission.result ==> r.slots == admission.slots
    ensures r.result ==> Get(r.slots, k) == forkResult
    ensures !admission.result && forkResult < 0 ==> Get(r.slots, k) == NoProcess
    ensures !r.result ==> r.slots == admission.slots || Get(r.slots, k) == NoProcess
    ensures forall j :: j != k ==> Get(r.slots, j) == Get(admission.slots, j)
  {
    if admission.result then
      Outcome(false, admission.slots)
    else if forkResult > 0 then
      Outcome(true, Set(admission.slots, k, forkResult))
    else if forkResult < 0 then
      Outcome(false, Set(admission.slots, k, NoProcess))
    else
      Outcome(false, admission.slots)
  }

  /** The reboot launcher (`spawn_reboot_process`), parent side. It runs the admission
      check only for its logging and its reaping, forks whatever the check answered,
      never assigns a slot, and succeeds exactly when the fork gave a child pid. */
  function SpawnReboot(s: Slots, w: WaitResults, forkResult: int): (r: Outcome)
    ensures r.slots == AnyRunning(s, w).slots
    ensures forall k :: Get(r.slots, k) == Get(s, k) || Get(r.slots, k) == NoProcess
    ensures r.result <==> forkResult > 0
  {
    var admission := AnyRunning(s, w);
    Outcome(forkResult > 0, admission.slots)
  }

  /** One call into the supervisor, with the operating-system answers it will see. */
  datatype Event =
    | Query(kind: Kind, waitResult: int)
    | AdmissionCheck(waits: WaitResults)
    | Spawn(kind: Kind, waits: WaitResults, forkResult: int)
    | Reboot(waits: WaitResults, forkResult: int)

  /** The slots after one call. */
  function Step(s: Slots, e: Event): Slots {
    match e
    case Query(k, wr) => IsRunning(s, k, wr).slots
    case AdmissionCheck(w) => AnyRunning(s, w).slots
    case Spawn(k, w, f) => Launch(s, k, w, f).slots
    case Reboot(w, f) => SpawnReboot(s, w, f).slots
  }

  /** The slots after a sequence of calls made one after another. */
  function Run(s: Slots, events: seq<Event>): Slots
    decreases |events|
  {
    if |events| == 0 then s else Run(Step(s, events[0]), events[1..])
  }

  /** A probe or an admission check never makes a slot live, it only clears slots. */
  lemma ProbeOnlyClears(s: Slots, k: Kind, waitResult: int, w: WaitResults)
    ensures forall j :: Live(Get(IsRunning(s, k, waitResult).slots, j)) ==> Live(Get(s, j))
    ensures forall j :: Live(Get(AnyRunning(s, w).slots, j)) ==> Live(Get(s, j))
  {
  }

  /** Every call keeps the exclusivity invariant. A passed admission check leaves all
      three slots non-live, so the single assignment that follows makes one slot live. */
  lemma StepKeepsExclusive(s: Slots, e: Event)
    requires AtMostOneLive(s)
    ensures AtMostOneLive(Step(s, e))
  {
  }

  /** Exclusivity: after any sequence of probes, admission checks and spawns started
      from a state with at most one live slot, at most one slot is live. */
  lemma {:induction false} RunKeepsExclusive(s: Slots, events: seq<Event>)
    requires AtMostOneLive(s)
    ensures AtMostOneLive(Run(s, events))
    decreases |events|
  {
    if |events| > 0 {
      StepKeepsExclusive(s, events[0]);
      RunKeepsExclusive(Step(s, events[0]), events[1..]);
    }
  }

  /** From the initial slots, every interleaving of calls keeps at most one slot live. */
  lemma InitialRunExclusive(events: seq<Event>)
    ensures NoneLive(Initial)
    ensures AtMostOneLive(Run(Initial, events))
  {
    RunKeepsExclusive(Initial, events);
  }

  /** Once a probe has reaped a handle, probing the same kind again reports false and
      changes nothing, whatever `waitpid` would answer. */
  lemma ReapIsFinal(s: Slots, k: Kind, waitResult: int, later: int)
    requires !IsRunning(s, k, waitResult).result
    ensures IsRunning(IsRunning(s, k, waitResult).slots, k, later)
            == IsRunning(s, k, waitResult)
  {
  }

  /** While the worker of kind `a` is alive, a launch of any kind `b` is refused, forks
      nothing, and leaves the handle of `a` in place. */
  lemma LiveWorkerBlocksLaunch(s: Slots, a: Kind, b: Kind, w: WaitResults, forkResult: int)
    requires Live(Get(s, a)) && Get(w, a) == 0
    ensures !Launch(s, b, w, forkResult).result
    ensures Launch(s, b, w, forkResult).slots == AnyRunning(s, w).slots
    ensures Get(Launch(s, b, w, forkResult).slots, a) == Get(s, a)
  {
  }

  /** After a launch whose fork failed, the kind's handle is empty and its liveness
      query reports false. */
  lemma FailedSpawnLeavesNoHandle(s: Slots, k: Kind, w: WaitResults, forkResult: int, later: int)
    requires !AnyRunning(s, w).result && forkResult < 0
    ensures !Launch(s, k, w, forkResult).result
    ensures !IsRunning(Launch(s, k, w, forkResult).slots, k, later).result
  {
  }

  /** Reboot is never blocked: even with a live worker it succeeds when `fork` does. */
  lemma RebootIgnoresAdmission(s: Slots, w: WaitResults, forkResult: int)
    requires AnyRunning(s, w).result && forkResult > 0
    ensures SpawnReboot(s, w, forkResult).result
  {
  }

  /** A download started from the initial slots blocks an update while the download
      worker runs, and the update is admitted once the download worker has exited. */
  lemma DownloadThenUpdate(p: int, q: int, w: WaitResults)
    requires p > 0 && q > 0
    ensures var s := Launch(Initial, Download, w, p);
            s.result && Get(s.slots, Download) == p
            && (Get(w, Download) == 0 ==> !Launch(s.slots, Update, w, q).result)
            && (Get(w, Download) != 0 ==>
                  Launch(s.slots, Update, w, q).result
                  && Launch(s.slots, Update, w, q).slots == PerKind(NoProcess, q, NoProcess))
  {
  }

  // The admission check as written: the value the caller reads is whatever happens
  // to be in the return register, which the model takes as the parameter `garbage`.

  /** `is_any_child_process_running` as written: it reaps like the corrected version but
      its answer is indeterminate. */
  function AnyRunningAsWritten(s: Slots, w: WaitResults, garbage: bool): (r: Outcome)
    ensures forall k :: Live(Get(r.slots, k)) <==> Live(Get(s, k)) && Get(w, k) == 0
    ensures forall k :: Get(r.slots, k) == Get(s, k) || Get(r.slots, k) == NoProcess
    ensures r.result == garbage
  {
    Outcome(garbage, AnyRunning(s, w).slots)
  }

  /** A tracked launcher built on the admission check as written: the same branches
      as `Launch`, taken on the indeterminate answer instead of the computed one. */
  function LaunchAsWritten(s: Slots, k: Kind, w: WaitResults, forkResult: int, garbage: bool): (r: Outcome)
    ensures r.result <==> !garbage && forkResult > 0
    ensures r.result ==> Get(r.slots, k) == forkResult
  {
    Admit(AnyRunningAsWritten(s, w, garbage), k, forkResult)
  }

  /** With the admission check as written, a download worker that is still running does
      not stop an update from being forked: two slots end up live. */
  lemma AsWrittenAdmitsSecondWorker()
    ensures var r := LaunchAsWritten(PerKind(100, NoProcess, NoProcess), Update,
                                     PerKind(0, 0, 0), 200, false);
            r.result && !AtMostOneLive(r.slots)
  {
  }
}
