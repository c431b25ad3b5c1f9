/** Threads and processes, and the kernel's view of all of them as one value. */
module Tasks {
  datatype ThreadState = Ready | Running | Blocked | Terminated

  datatype ProcessState = Alive | Dead

  /** An address space, by identity. */
  type Space = nat

  class Process {
    const pid: nat
    const space: Space
    var state: ProcessState
    var threadCount: nat
    var next: Process?

    constructor (pid: nat, space: Space)
      ensures this.pid == pid && this.space == space && state == Alive && threadCount == 0 && next == null
    {
      this.pid, this.space, state, threadCount, next := pid, space, Alive, 0, null;
    }
  }

  class Thread {
    const process: Process
    var state: ThreadState
    var next: Thread?

    constructor (process: Process, state: ThreadState)
      ensures this.process == process && this.state == state && next == null
    {
      this.process, this.state, next := process, state, null;
    }
  }

  /** Where the threads are that have not been freed; `created` are those not yet put into a queue. */
  datatype Roster = Roster(
    states: map<Thread, ThreadState>,
    ready: seq<Thread>,
    terminated: seq<Thread>,
    created: set<Thread>,
    current: Thread,
    idle: Thread,
    bootstrap: Thread)

  /** The process list, and what the processes in it record. */
  datatype Registry = Registry(
    processes: seq<Process>,
    conditions: map<Process, ProcessState>,
    counts: map<Process, nat>,
    pids: map<Process, nat>,
    kernel: Process,
    nextPid: nat,
    wrapped: bool)

  /** The address spaces that exist, the one of each process, and which process and which space are current. */
  datatype Mapping = Mapping(
    spaceOf: map<Process, Space>,
    live: set<Space>,
    process: Process?,
    active: Space)

  datatype System = System(threads: Roster, registry: Registry, mapping: Mapping)
}
