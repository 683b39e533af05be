/** Per-process bookkeeping shared by the detection engine and the process tree. */
module Processes {
  type Pid = nat

  datatype ProcStats = ProcStats(
    pid: Pid,
    ppid: Pid,
    comm: string,
    windowOpens: nat,
    totalOpens: nat,
    totalExecs: nat,
    alerts: nat,
    extensions: map<string, nat>)

  /** `ProcStats::default()`. */
  const NewStats := ProcStats(0, 0, "", 0, 0, 0, 0, map[])
}
