// The event path of the native target: the fixed pool of debugger messages,
// the kernel debug hook that fills one and posts it on the debugger's port,
// and the wait loop that drains the port and turns a message into a GDB wait
// status. The kernel services (message port, list, signals, task suspension)
// are represented by the state they change: the port is a queue of messages,
// the pool a list of slot numbers, the message storage a sequence of records.
module DebugTarget {
  import opened NatDefs
  import opened TrapClassifier

  /** Number of preallocated debugger messages. */
  const MAX_DEBUG_MESSAGES: nat := 20

  /** Node type a message is stamped with (`NT_MESSAGE` of exec/nodes.h). */
  const NT_MESSAGE: int := 5
  /** `sizeof(struct debugger_message)`: a 20-byte exec Message and four 4-byte words. */
  const SIZEOF_DEBUGGER_MESSAGE: int := 36

  /** A task (process) address; 0 is NULL. */
  type Process = int
  /** A library base address; 0 is NULL. */
  type Library = int

  /** One slot of the message storage: the exec message header fields the
      pool stamps, and the payload the hook fills in. */
  datatype DebuggerMessage = DebuggerMessage(
    nodeType: int,
    name: Option<string>,
    replyPort: Option<int>,
    length: int,
    process: Process,
    flags: bv32,
    signal: uint32,
    library: Library)

  /** Storage content before any slot has been used (the storage is not
      cleared, so no field of it is relied on). */
  const UnusedSlot: DebuggerMessage := DebuggerMessage(0, None, None, 0, 0, 0, 0, 0)

  /** What can sit on the debugger's port: a pool slot posted by the hook, or
      the out-of-band death message the kernel returns when the inferior
      exits (recognised by its name "DeathMessage"; a pool slot is stamped
      with a NULL name and never matches). */
  datatype PortMessage = Slot(id: nat) | Death(returnCode: int)

  /** The message the kernel hands the hook, by type (DBHMT_*). */
  datatype KernelEvent =
    | Exception(context: Option<ExceptionContext>)
    | AddTask
    | RemTask
    | OpenLib(lib: Library)
    | CloseLib(lib: Library)
    | SharedObjectOpen
    | SharedObjectClose
    | UnknownEvent(code: int)

  datatype Ptid = MinusOne | Pid(pid: int)

  /** The wait status GDB receives; `StatusUnchanged` is the case where the
      loop returns without setting the status at all. */
  datatype WaitStatus = Exited(code: int) | Stopped(sig: int) | Signalled(sig: int) | StatusUnchanged

  /** What happens while the debugger is blocked in `Wait`: the kernel runs
      the debug hook for an event of some task, or returns the death message
      of the inferior. */
  datatype Arrival = HookCall(task: Process, event: KernelEvent) | ProcessDied(returnCode: int)

  /** One return of the blocking `Wait`: the arrivals since the previous
      one, in order, and the break signals set when it returns. */
  datatype Wakeup = Wakeup(arrivals: seq<Arrival>, ctrlD: bool, ctrlC: bool)

  /** `Blocked` stands for the source's loop waiting on: every wake-up given
      was consumed without a status to return. `PoolExhausted` is the hook
      finding the free list empty, where the source dereferences NULL. */
  datatype WaitOutcome = Returned(ptid: Ptid, status: WaitStatus) | Blocked | PoolExhausted

  /** The state the hook and the wait loop share: the free list, the port
      and the message storage. */
  datatype Queue = Queue(pool: seq<nat>, port: seq<PortMessage>, slots: seq<DebuggerMessage>)

  datatype DrainResult = Reported(status: WaitStatus, consumed: nat) | Exhausted

  /** Slot numbers 0 .. MAX_DEBUG_MESSAGES-1. */
  function AllSlots(): seq<nat>
  {
    seq(MAX_DEBUG_MESSAGES, i => i)
  }

  /** The pool after the constructor's seeding loop: each slot is added at
      the head, so the last slot of the storage ends up first. */
  function SeededPool(): seq<nat>
  {
    seq(MAX_DEBUG_MESSAGES, i => MAX_DEBUG_MESSAGES - 1 - i)
  }

  /** The pool slots on the port, in port order. */
  function PortSlots(port: seq<PortMessage>): seq<nat>
  {
    if port == [] then []
    else if port[0].Slot? then [port[0].id] + PortSlots(port[1..])
    else PortSlots(port[1..])
  }

  /** The header `alloc_message` writes into a slot it hands out. */
  function Stamp(m: DebuggerMessage, process: Process): DebuggerMessage
  {
    m.(nodeType := NT_MESSAGE, name := None, replyPort := None,
       length := SIZEOF_DEBUGGER_MESSAGE, process := process)
  }

  predicate Stamped(m: DebuggerMessage)
  {
    m.nodeType == NT_MESSAGE && m.name == None && m.replyPort == None &&
    m.length == SIZEOF_DEBUGGER_MESSAGE
  }

  /** Kernel events the hook answers with a message. */
  predicate Posts(e: KernelEvent)
  {
    e.Exception? || e.AddTask? || e.RemTask? || e.OpenLib? || e.CloseLib?
  }

  /** The payload the hook writes into a freshly allocated slot. */
  function Fill(m: DebuggerMessage, e: KernelEvent): DebuggerMessage
    requires Posts(e)
  {
    match e
    case Exception(ctx) => m.(flags := 0, signal := ToUint32(TrapToSignal(ctx, 0)))
    case AddTask => m.(flags := DM_FLAGS_TASK_ATTACHED, signal := SIGNAL_NONE)
    case RemTask => m.(flags := DM_FLAGS_TASK_TERMINATED, signal := SIGNAL_NONE)
    case OpenLib(lib) => m.(flags := DM_FLAGS_TASK_OPENLIB, signal := SIGNAL_NONE, library := lib)
    case CloseLib(lib) => m.(flags := DM_FLAGS_TASK_CLOSELIB, signal := SIGNAL_NONE, library := lib)
  }

  /** The signals a message can carry other than the sentinel. */
  function ReportedSignals(): set<int>
  {
    ClassifierResults() - {-1}
  }

  /** What every in-flight slot looks like. */
  predicate WellFormed(m: DebuggerMessage)
  {
    Stamped(m) && (m.signal == SIGNAL_NONE || m.signal as int in ReportedSignals())
  }

  /** The wait loop's switch on a message's signal, as a table: CHLD is
      reported as signalled with signal 0, QUIT as signalled with QUIT, TRAP
      as stopped with TRAP, and the six fault signals as stopped with
      signal 0, not with the fault. */
  function StatusTable(): map<int, WaitStatus>
  {
    map[GDB_SIGNAL_CHLD := Signalled(GDB_SIGNAL_0),
        GDB_SIGNAL_QUIT := Signalled(GDB_SIGNAL_QUIT),
        GDB_SIGNAL_TRAP := Stopped(GDB_SIGNAL_TRAP),
        GDB_SIGNAL_SEGV := Stopped(GDB_SIGNAL_0),
        GDB_SIGNAL_BUS := Stopped(GDB_SIGNAL_0),
        GDB_SIGNAL_INT := Stopped(GDB_SIGNAL_0),
        GDB_SIGNAL_FPE := Stopped(GDB_SIGNAL_0),
        GDB_SIGNAL_ILL := Stopped(GDB_SIGNAL_0),
        GDB_SIGNAL_ALRM := Stopped(GDB_SIGNAL_0)]
  }

  /** The status the wait loop sets for a message that carries a signal:
      the table's entry, and no status for a signal the switch has no case
      for. */
  function StatusFor(signal: uint32): (r: WaitStatus)
    ensures signal as int in StatusTable() ==> r == StatusTable()[signal as int]
    ensures signal as int !in StatusTable() ==> r == StatusUnchanged
    ensures r != StatusUnchanged <==> signal as int in ReportedSignals()
    ensures r.Signalled? <==> signal as int in {GDB_SIGNAL_CHLD, GDB_SIGNAL_QUIT}
    ensures r.Stopped? ==> r.sig == GDB_SIGNAL_TRAP || r.sig == GDB_SIGNAL_0
    ensures !r.Exited?
  {
    var s := signal as int;
    if s == GDB_SIGNAL_CHLD then Signalled(GDB_SIGNAL_0)
    else if s == GDB_SIGNAL_QUIT then Signalled(GDB_SIGNAL_QUIT)
    else if s == GDB_SIGNAL_TRAP then Stopped(GDB_SIGNAL_TRAP)
    else if s in {GDB_SIGNAL_SEGV, GDB_SIGNAL_BUS, GDB_SIGNAL_INT, GDB_SIGNAL_FPE,
                  GDB_SIGNAL_ILL, GDB_SIGNAL_ALRM} then Stopped(GDB_SIGNAL_0)
    else StatusUnchanged
  }

  predicate SlotsInRange(port: seq<PortMessage>, slots: seq<DebuggerMessage>)
  {
    forall k :: 0 <= k < |port| && port[k].Slot? ==> port[k].id < |slots|
  }

  /** What taking one message off the port does to the wait: a death
      message ends it with its return code; a slot whose signal is the
      informational sentinel does not end it; any other slot ends it with
      the status of its signal. */
  function StepStatus(m: PortMessage, slots: seq<DebuggerMessage>): Option<WaitStatus>
    requires m.Slot? ==> m.id < |slots|
  {
    match m
    case Death(code) => Some(Exited(code))
    case Slot(id) =>
      if slots[id].signal == SIGNAL_NONE then None else Some(StatusFor(slots[id].signal))
  }

  /** One pass of the inner `GetMsg` loop: messages are taken until one ends
      the wait. `consumed` counts the messages taken from the port. */
  function Drain(port: seq<PortMessage>, slots: seq<DebuggerMessage>): (r: DrainResult)
    requires SlotsInRange(port, slots)
    ensures r.Reported? ==> 1 <= r.consumed <= |port|
    decreases |port|
  {
    if port == [] then Exhausted
    else match StepStatus(port[0], slots)
      case Some(st) => Reported(st, 1)
      case None =>
        assert SlotsInRange(port[1..], slots) by {
          forall k | 0 <= k < |port[1..]| && port[1..][k].Slot?
            ensures port[1..][k].id < |slots|
          {
            assert port[1..][k] == port[k + 1];
          }
        }
        ShiftBy(Drain(port[1..], slots), 1)
  }

  /** A drain result for a suffix of the port, seen from `k` messages earlier. */
  function ShiftBy(d: DrainResult, k: nat): DrainResult
  {
    match d
    case Reported(st, n) => Reported(st, n + k)
    case Exhausted => Exhausted
  }

  /** The hook would find the free list empty for this arrival. */
  predicate Exhausts(q: Queue, current: Process, a: Arrival)
  {
    a.HookCall? && a.task == current && Posts(a.event) && q.pool == []
  }

  /** The effect of one arrival: a death message joins the port; the hook
      called for an event of the observed process that it answers takes the
      head of the free list, fills it and posts it; other hook calls change
      nothing. */
  function Arrive(q: Queue, current: Process, a: Arrival): (r: Queue)
    requires QueueValid(q) && !Exhausts(q, current, a)
    ensures QueueValid(r)
    ensures |r.port| == |q.port| + (if a.ProcessDied? || (a.task == current && Posts(a.event)) then 1 else 0)
    ensures r.port[..|q.port|] == q.port
    ensures a.ProcessDied? ==> r.port[|q.port|] == Death(a.returnCode) && r.pool == q.pool
    ensures a.HookCall? && a.task == current && Posts(a.event) ==>
      r.port[|q.port|] == Slot(q.pool[0]) && r.pool == q.pool[1..] &&
      r.slots[q.pool[0]].signal == Fill(q.slots[q.pool[0]], a.event).signal
  {
    match a
    case ProcessDied(code) =>
      DeathKeepsInvariant(q, code);
      Queue(q.pool, q.port + [Death(code)], q.slots)
    case HookCall(task, e) =>
      if task != current || !Posts(e) then q
      else
        PostKeepsInvariant(q.pool, q.port, q.slots, task, e);
        Queue(q.pool[1..], q.port + [Slot(q.pool[0])],
              q.slots[q.pool[0] := Fill(Stamp(q.slots[q.pool[0]], task), e)])
  }

  /** The arrivals of one wake-up, in order; `false` when the hook ran out of
      free messages on the way. Messages already on the port stay where they
      are. */
  function ArriveAll(q: Queue, current: Process, arrivals: seq<Arrival>): (r: (Queue, bool))
    requires QueueValid(q)
    ensures QueueValid(r.0)
    ensures |r.0.port| >= |q.port| && r.0.port[..|q.port|] == q.port
    ensures !r.1 ==> |PortSlots(r.0.port)| == MAX_DEBUG_MESSAGES
    decreases |arrivals|
  {
    if arrivals == [] then (q, true)
    else if Exhausts(q, current, arrivals[0]) then
      PoolAccounting(q.pool, q.port);
      (q, false)
    else
      var q1 := Arrive(q, current, arrivals[0]);
      var r := ArriveAll(q1, current, arrivals[1..]);
      assert r.0.port[..|q.port|] == r.0.port[..|q1.port|][..|q.port|];
      r
  }

  /** One arrival of a fold: either the hook runs out of messages there,
      or the rest of the fold starts from the arrival's effect. */
  lemma ArriveAllStep(q: Queue, current: Process, arrivals: seq<Arrival>, j: nat)
    requires QueueValid(q) && j < |arrivals|
    ensures Exhausts(q, current, arrivals[j]) ==> ArriveAll(q, current, arrivals[j..]) == (q, false)
    ensures !Exhausts(q, current, arrivals[j]) ==>
      ArriveAll(q, current, arrivals[j..]) == ArriveAll(Arrive(q, current, arrivals[j]), current, arrivals[j + 1..])
  {
    assert arrivals[j..][0] == arrivals[j] && arrivals[j..][1..] == arrivals[j + 1..];
  }

  /** The queue once the wait loop has taken the first `n` messages off the
      port and returned their slots to the free list. */
  function After(q: Queue, n: nat): Queue
    requires n <= |q.port|
  {
    Queue(q.pool + PortSlots(q.port[..n]), q.port[n..], q.slots)
  }

  /** The wait loop as a function of the state it starts from: the outcome,
      the state it leaves, and whether it suspends the inferior (on CTRL_C).
      On each wake-up the arrivals since the previous one have been posted;
      CTRL_D is tested before CTRL_C, and both before the port. */
  function WaitSpec(p: Ptid, current: Process, q: Queue, wakeups: seq<Wakeup>): (r: (WaitOutcome, Queue, bool))
    requires QueueValid(q)
    ensures QueueValid(r.1)
    ensures r.0.Returned? ==> r.0.ptid == p && r.0.status != StatusUnchanged
    ensures r.2 ==> r.0 == Returned(p, Stopped(GDB_SIGNAL_TRAP))
    decreases |wakeups|
  {
    if wakeups == [] then (Blocked, q, false)
    else
      var arrived := ArriveAll(q, current, wakeups[0].arrivals);
      var q1 := arrived.0;
      if !arrived.1 then (PoolExhausted, q1, false)
      else if wakeups[0].ctrlD then (Returned(p, Exited(0)), q1, false)
      else if wakeups[0].ctrlC then (Returned(p, Stopped(GDB_SIGNAL_TRAP)), q1, true)
      else match Drain(q1.port, q1.slots)
        case Reported(st, n) =>
          DrainOfWellFormedSetsStatus(q1.port, q1.slots);
          DrainKeepsInvariant(q1, n);
          (Returned(p, st), After(q1, n), false)
        case Exhausted =>
          DrainKeepsInvariant(q1, |q1.port|);
          WaitSpec(p, current, After(q1, |q1.port|), wakeups[1..])
  }

  /** Every slot is either free or on the port, exactly once, and every
      slot on the port holds a message the hook built. */
  predicate PoolInvariant(pool: seq<nat>, port: seq<PortMessage>, slots: seq<DebuggerMessage>)
  {
    |slots| == MAX_DEBUG_MESSAGES &&
    multiset(pool) + multiset(PortSlots(port)) == multiset(AllSlots()) &&
    SlotsInRange(port, slots) &&
    (forall k :: 0 <= k < |pool| ==> pool[k] < MAX_DEBUG_MESSAGES) &&
    (forall k :: 0 <= k < |port| && port[k].Slot? ==> WellFormed(slots[port[k].id]))
  }

  predicate QueueValid(q: Queue)
  {
    PoolInvariant(q.pool, q.port, q.slots)
  }

  class NatTarget {
    /** The free list of message slots, head first. */
    var pool: seq<nat>
    /** The message storage: MAX_DEBUG_MESSAGES records. */
    var slots: seq<DebuggerMessage>
    /** The debugger's message port, oldest message first. */
    var port: seq<PortMessage>
    /** The process under observation (`current_process`); 0 before one is created. */
    var currentProcess: Process
    /** Tasks the wait loop has suspended, in order. */
    var suspended: seq<Process>

    /** Every slot is either free or on the port, exactly once, and every
        slot on the port holds a message the hook built. */
    ghost predicate Valid()
      reads this
    {
      QueueValid(State())
    }

    /** The fields the hook and the wait loop share. */
    function State(): Queue
      reads this
    {
      Queue(pool, port, slots)
    }

    /** The constructor's seeding loop: every storage slot is added to the
        head of the free list. */
    constructor ()
      ensures Valid()
      ensures pool == SeededPool() && port == [] && currentProcess == 0 && suspended == []
    {
      var free: seq<nat> := [];
      var i := 0;
      while i < MAX_DEBUG_MESSAGES
        invariant 0 <= i <= MAX_DEBUG_MESSAGES
        invariant free == seq(i, k requires 0 <= k < i => i - 1 - k)
      {
        free := [i] + free;
        i := i + 1;
      }
      assert free == SeededPool();
      pool := free;
      slots := seq(MAX_DEBUG_MESSAGES, _ => UnusedSlot);
      port := [];
      currentProcess := 0;
      suspended := [];
      SeededPoolIsPermutation();
    }

    /** alloc_message: take the head of the free list and stamp its header.
        There is no check for an empty list; the source dereferences NULL. */
    method AllocMessage(process: Process) returns (id: nat)
      requires |pool| > 0 && pool[0] < |slots|
      modifies this
      ensures id == old(pool[0]) && pool == old(pool[1..])
      ensures slots == old(slots)[id := Stamp(old(slots[id]), process)]
      ensures port == old(port) && currentProcess == old(currentProcess) && suspended == old(suspended)
    {
      id := pool[0];
      pool := pool[1..];
      slots := slots[id := Stamp(slots[id], process)];
    }

    /** free_message: append a slot to the tail of the free list; NULL is ignored. */
    method FreeMessage(message: Option<nat>)
      modifies this
      ensures pool == if message.Some? then old(pool) + [message.value] else old(pool)
      ensures slots == old(slots) && port == old(port)
      ensures currentProcess == old(currentProcess) && suspended == old(suspended)
    {
      if message.Some? {
        pool := pool + [message.value];
      }
    }

    /** The process is the one create_inferior started. */
    method Observe(process: Process)
      modifies this
      ensures currentProcess == process
      ensures pool == old(pool) && slots == old(slots) && port == old(port) && suspended == old(suspended)
    {
      currentProcess := process;
    }

    /** The kernel returns the death message armed at process creation. */
    method DeliverDeathMessage(returnCode: int)
      requires Valid()
      modifies this
      ensures Valid()
      ensures port == old(port) + [Death(returnCode)]
      ensures pool == old(pool) && slots == old(slots)
      ensures currentProcess == old(currentProcess) && suspended == old(suspended)
    {
      DeathKeepsInvariant(State(), returnCode);
      port := port + [Death(returnCode)];
    }

    /** amigaos_debug_callback. Events of other tasks are ignored; an
        exception posts one message with the classified signal and suspends
        the task (result 1); task and library events post one informational
        message and let it run (result 0); shared-object and unknown events
        post nothing. Pool exhaustion is not checked by the source, so the
        caller must leave a free slot. */
    method DebugCallback(task: Process, event: KernelEvent) returns (r: int)
      requires Valid()
      requires task == currentProcess && Posts(event) ==> |pool| > 0
      modifies this
      ensures Valid()
      ensures currentProcess == old(currentProcess) && suspended == old(suspended)
      ensures r == (if task == currentProcess && event.Exception? then 1 else 0)
      ensures task != currentProcess || !Posts(event) ==>
        pool == old(pool) && port == old(port) && slots == old(slots)
      ensures task == currentProcess && Posts(event) ==>
        var id := old(pool[0]);
        pool == old(pool[1..]) &&
        port == old(port) + [Slot(id)] &&
        slots == old(slots)[id := Fill(Stamp(old(slots[id]), task), event)]
    {
      if task != currentProcess {
        return 0;
      }
      if !Posts(event) {
        return 0;
      }
      ghost var next := Queue(pool[1..], port + [Slot(pool[0])],
                              slots[pool[0] := Fill(Stamp(slots[pool[0]], task), event)]);
      PostKeepsInvariant(pool, port, slots, task, event);
      assert QueueValid(next);
      var id := AllocMessage(task);
      slots := slots[id := Fill(slots[id], event)];
      port := port + [Slot(id)];
      assert State() == next;
      r := if event.Exception? then 1 else 0;
    }

    /** Take the oldest message off the port. An informational or
        signal-carrying slot goes back to the tail of the pool; a death
        message is released with its own allocation, not into the pool. */
    method TakeMessage() returns (status: Option<WaitStatus>)
      requires Valid() && port != []
      modifies this
      ensures Valid()
      ensures slots == old(slots) && currentProcess == old(currentProcess) && suspended == old(suspended)
      ensures port == old(port[1..]) && pool == old(pool) + PortSlots([old(port[0])])
      ensures status == StepStatus(old(port[0]), old(slots))
    {
      var m := port[0];
      TakeKeepsInvariant(pool, port, slots);
      port := port[1..];
      if m.Death? {
        assert PortSlots([m]) == [];
        return Some(Exited(m.returnCode));
      }
      assert PortSlots([m]) == [m.id];
      var signal := slots[m.id].signal;
      FreeMessage(Some(m.id));
      if signal == SIGNAL_NONE {
        status := None;
      } else {
        status := Some(StatusFor(signal));
      }
    }

    /** The inner loop of the wait method: take messages off the port until
        one ends the wait or the port is empty. */
    method DrainPort() returns (d: DrainResult)
      requires Valid()
      modifies this
      ensures Valid()
      ensures slots == old(slots) && currentProcess == old(currentProcess) && suspended == old(suspended)
      ensures d == Drain(old(port), old(slots))
      ensures
        var n := if d.Reported? then d.consumed else |old(port)|;
        port == old(port)[n..] && pool == old(pool) + PortSlots(old(port)[..n])
    {
      ghost var port0 := port;
      var taken := 0;
      while port != []
        invariant 0 <= taken <= |port0| && port == port0[taken..]
        invariant Valid() && slots == old(slots) && currentProcess == old(currentProcess)
        invariant suspended == old(suspended)
        invariant pool == old(pool) + PortSlots(port0[..taken])
        invariant Drain(port0, slots) == ShiftBy(Drain(port, slots), taken)
        decreases |port|
      {
        DrainStep(port0, taken, slots, old(pool));
        var status := TakeMessage();
        taken := taken + 1;
        if status.Some? {
          return Reported(status.value, taken);
        }
      }
      assert port0[..taken] == port0;
      d := Exhausted;
    }

    /** What the kernel does while the debugger is blocked: it runs the
        hook for each event, or returns the death message, in order. Stops
        with `false` where the hook would find the free list empty. */
    method DeliverArrivals(arrivals: seq<Arrival>) returns (ok: bool)
      requires Valid()
      modifies this
      ensures Valid()
      ensures currentProcess == old(currentProcess) && suspended == old(suspended)
      ensures (State(), ok) == ArriveAll(old(State()), currentProcess, arrivals)
    {
      var j := 0;
      while j < |arrivals|
        invariant 0 <= j <= |arrivals|
        invariant Valid() && currentProcess == old(currentProcess) && suspended == old(suspended)
        invariant ArriveAll(old(State()), currentProcess, arrivals) == ArriveAll(State(), currentProcess, arrivals[j..])
      {
        ArriveAllStep(State(), currentProcess, arrivals, j);
        var a := arrivals[j];
        if a.HookCall? && a.task == currentProcess && Posts(a.event) && pool == [] {
          return false;
        }
        Receive(a);
        j := j + 1;
      }
      assert arrivals[j..] == [];
      ok := true;
    }

    /** One arrival: the kernel returns the death message, or runs the
        hook, which has a free message whenever it needs one. */
    method Receive(a: Arrival)
      requires Valid() && !Exhausts(State(), currentProcess, a)
      modifies this
      ensures Valid()
      ensures currentProcess == old(currentProcess) && suspended == old(suspended)
      ensures State() == Arrive(old(State()), currentProcess, a)
    {
      if a.ProcessDied? {
        DeliverDeathMessage(a.returnCode);
      } else {
        var _ := DebugCallback(a.task, a.event);
      }
    }

    /** The wait method: on each return of the blocking `Wait`, with the
        arrivals since the previous one posted, CTRL_D first (exited 0),
        then CTRL_C (suspend the process, stopped TRAP), both without
        touching the port; otherwise drain the port, and if that ends
        nothing, wait again. */
    method Wait(ptid: Ptid, wakeups: seq<Wakeup>) returns (r: WaitOutcome)
      requires Valid()
      modifies this
      ensures Valid()
      ensures currentProcess == old(currentProcess)
      ensures
        var p := if ptid.MinusOne? then Pid(old(currentProcess)) else ptid;
        var spec := WaitSpec(p, old(currentProcess), old(State()), wakeups);
        r == spec.0 && State() == spec.1 &&
        suspended == old(suspended) + (if spec.2 then [p.pid] else [])
    {
      var p := if ptid.MinusOne? then Pid(currentProcess) else ptid;
      var process := p.pid;
      var i := 0;
      while i < |wakeups|
        invariant 0 <= i <= |wakeups|
        invariant Valid() && currentProcess == old(currentProcess) && suspended == old(suspended)
        invariant WaitSpec(p, currentProcess, old(State()), wakeups) == WaitSpec(p, currentProcess, State(), wakeups[i..])
      {
        assert wakeups[i..][0] == wakeups[i] && wakeups[i..][1..] == wakeups[i + 1..];
        var w := wakeups[i];
        var ok := DeliverArrivals(w.arrivals);
        if !ok {
          return PoolExhausted;
        }
        if w.ctrlD {
          return Returned(p, Exited(0));
        }
        if w.ctrlC {
          suspended := suspended + [process];
          return Returned(p, Stopped(GDB_SIGNAL_TRAP));
        }
        ghost var before := State();
        var d := DrainPort();
        if d.Reported? {
          return Returned(p, d.status);
        }
        assert before.port[..|before.port|] == before.port;
        assert State() == After(before, |before.port|);
        i := i + 1;
      }
      assert wakeups[i..] == [];
      r := Blocked;
    }
  }

  // ---------------------------------------------------------------------
  // Pool accounting.

  lemma PortSlotsAppend(a: seq<PortMessage>, b: seq<PortMessage>)
    ensures PortSlots(a + b) == PortSlots(a) + PortSlots(b)
  {
    if a == [] {
      assert a + b == b;
    } else {
      assert (a + b)[0] == a[0];
      assert (a + b)[1..] == a[1..] + b;
      PortSlotsAppend(a[1..], b);
    }
  }

  lemma PortSlotsPrefix(port: seq<PortMessage>, n: nat)
    requires n < |port|
    ensures port[..n + 1] == port[..n] + [port[n]]
    ensures PortSlots(port[..n + 1]) == PortSlots(port[..n]) + PortSlots([port[n]])
  {
    assert port[..n + 1] == port[..n] + [port[n]];
    PortSlotsAppend(port[..n], [port[n]]);
  }

  /** Posting a freshly allocated slot keeps the invariant: the slot leaves
      the free list and joins the port, and since it was on neither before,
      no other in-flight message is overwritten. */
  lemma PostKeepsInvariant(pool: seq<nat>, port: seq<PortMessage>, slots: seq<DebuggerMessage>,
                           task: Process, event: KernelEvent)
    requires PoolInvariant(pool, port, slots)
    requires |pool| > 0 && Posts(event)
    ensures pool[0] < |slots|
    ensures PoolInvariant(pool[1..], port + [Slot(pool[0])],
                          slots[pool[0] := Fill(Stamp(slots[pool[0]], task), event)])
  {
    var id := pool[0];
    NoDoubleIssue(pool, PortSlots(port));
    InFlightAreOnPort(port);
    PortSlotsAppend(port, [Slot(id)]);
    assert PortSlots([Slot(id)]) == [id];
    assert pool == [id] + pool[1..];
    var port', slots' := port + [Slot(id)], slots[id := Fill(Stamp(slots[id], task), event)];
    assert WellFormed(slots'[id]) by {
      if event.Exception? {
        var sig := TrapToSignal(event.context, 0);
        assert sig in ClassifierResults();
      }
    }
    forall k | 0 <= k < |port'| && port'[k].Slot?
      ensures WellFormed(slots'[port'[k].id])
    {
      if k < |port| {
        assert port'[k] == port[k];
      }
    }
  }

  /** A death message joining the port keeps the invariant: it is not a
      pool slot. */
  lemma DeathKeepsInvariant(q: Queue, code: int)
    requires QueueValid(q)
    ensures QueueValid(Queue(q.pool, q.port + [Death(code)], q.slots))
  {
    PortSlotsAppend(q.port, [Death(code)]);
    assert PortSlots([Death(code)]) == [];
    var port' := q.port + [Death(code)];
    forall k | 0 <= k < |port'| && port'[k].Slot?
      ensures port'[k].id < |q.slots| && WellFormed(q.slots[port'[k].id])
    {
      if k < |q.port| {
        assert port'[k] == q.port[k];
      }
    }
  }

  /** Taking the first `n` messages off the port and returning their slots
      to the free list keeps the invariant. */
  lemma {:induction false} DrainKeepsInvariant(q: Queue, n: nat)
    requires QueueValid(q) && n <= |q.port|
    ensures QueueValid(After(q, n))
  {
    if n > 0 {
      DrainKeepsInvariant(q, n - 1);
      var a := After(q, n - 1);
      TakeKeepsInvariant(a.pool, a.port, a.slots);
      AfterStep(q, n);
    }
  }

  /** Taking one more message: the n-th state is the (n-1)-th with the head
      of its port taken and returned to the free list. */
  lemma AfterStep(q: Queue, n: nat)
    requires 0 < n <= |q.port|
    ensures After(q, n - 1).port != []
    ensures After(q, n) ==
      Queue(After(q, n - 1).pool + PortSlots([After(q, n - 1).port[0]]), After(q, n - 1).port[1..], q.slots)
  {
    var a := After(q, n - 1);
    PortSlotsPrefix(q.port, n - 1);
    assert a.port[0] == q.port[n - 1] && a.port[1..] == q.port[n..];
    assert a.pool + PortSlots([a.port[0]])
        == (q.pool + PortSlots(q.port[..n - 1])) + PortSlots([q.port[n - 1]]);
    assert q.pool + PortSlots(q.port[..n])
        == q.pool + (PortSlots(q.port[..n - 1]) + PortSlots([q.port[n - 1]]));
  }

  /** Taking the head of the port and returning it to the pool (a death
      message is not a pool slot and is not returned) keeps the invariant. */
  lemma TakeKeepsInvariant(pool: seq<nat>, port: seq<PortMessage>, slots: seq<DebuggerMessage>)
    requires PoolInvariant(pool, port, slots)
    requires port != []
    ensures PortSlots(port) == PortSlots([port[0]]) + PortSlots(port[1..])
    ensures PoolInvariant(pool + PortSlots([port[0]]), port[1..], slots)
  {
    assert port == [port[0]] + port[1..];
    PortSlotsAppend([port[0]], port[1..]);
    var freed := PortSlots([port[0]]);
    assert port[0].Slot? ==> freed == [port[0].id] && port[0].id < MAX_DEBUG_MESSAGES;
    assert port[0].Death? ==> freed == [];
    forall k | 0 <= k < |port[1..]| && port[1..][k].Slot?
      ensures port[1..][k].id < |slots| && WellFormed(slots[port[1..][k].id])
    {
      assert port[1..][k] == port[k + 1];
    }
  }

  /** One step of the drain loop, at position `taken` of the port: what
      the whole drain is, and what the pool has received, once the message
      at `taken` has been taken. */
  lemma DrainStep(port: seq<PortMessage>, taken: nat, slots: seq<DebuggerMessage>, pool0: seq<nat>)
    requires SlotsInRange(port, slots) && taken < |port|
    requires SlotsInRange(port[taken..], slots)
    requires Drain(port, slots) == ShiftBy(Drain(port[taken..], slots), taken)
    ensures port[taken..][0] == port[taken] && port[taken..][1..] == port[taken + 1..]
    ensures pool0 + PortSlots(port[..taken]) + PortSlots([port[taken]]) == pool0 + PortSlots(port[..taken + 1])
    ensures SlotsInRange(port[taken + 1..], slots)
    ensures StepStatus(port[taken], slots).Some? ==>
      Drain(port, slots) == Reported(StepStatus(port[taken], slots).value, taken + 1)
    ensures StepStatus(port[taken], slots).None? ==>
      Drain(port, slots) == ShiftBy(Drain(port[taken + 1..], slots), taken + 1)
  {
    PortSlotsPrefix(port, taken);
    assert port[taken..][1..] == port[taken + 1..];
    SlotsInRangeSuffix(port, slots, taken + 1);
  }

  lemma SlotsInRangeSuffix(port: seq<PortMessage>, slots: seq<DebuggerMessage>, i: nat)
    requires SlotsInRange(port, slots) && i <= |port|
    ensures SlotsInRange(port[i..], slots)
  {
    forall k | 0 <= k < |port[i..]| && port[i..][k].Slot?
      ensures port[i..][k].id < |slots|
    {
      assert port[i..][k] == port[i + k];
    }
  }

  /** Every slot message on the port appears in PortSlots. */
  lemma {:induction false} InFlightAreOnPort(port: seq<PortMessage>)
    ensures forall k :: 0 <= k < |port| && port[k].Slot? ==> port[k].id in PortSlots(port)
  {
    if port != [] {
      InFlightAreOnPort(port[1..]);
      forall k | 0 <= k < |port| && port[k].Slot?
        ensures port[k].id in PortSlots(port)
      {
        if k > 0 {
          assert port[k] == port[1..][k - 1];
        }
      }
    }
  }

  /** The slot alloc_message hands out is on neither the port nor anywhere
      else in the free list: no slot is issued twice. */
  lemma NoDoubleIssue(pool: seq<nat>, inFlight: seq<nat>)
    requires multiset(pool) + multiset(inFlight) == multiset(AllSlots())
    requires |pool| > 0
    ensures pool[0] < MAX_DEBUG_MESSAGES
    ensures pool[0] !in inFlight && pool[0] !in pool[1..]
  {
    var h := pool[0];
    assert h in multiset(AllSlots());
    assert multiset(AllSlots())[h] == 1 by {
      AllSlotsOnce(h);
    }
    assert pool == [h] + pool[1..];
    assert multiset(pool)[h] == 1 + multiset(pool[1..])[h];
  }

  lemma AllSlotsOnce(x: nat)
    requires x in multiset(AllSlots())
    ensures x < MAX_DEBUG_MESSAGES
    ensures multiset(AllSlots())[x] == 1
  {
    var s := AllSlots();
    assert s == seq(x, i => i) + [x] + seq(MAX_DEBUG_MESSAGES - x - 1, i => x + 1 + i);
    assert x !in seq(x, i => i);
    assert x !in seq(MAX_DEBUG_MESSAGES - x - 1, i => x + 1 + i);
  }

  /** Free slots plus in-flight slots are always the 20 slots of the storage. */
  lemma PoolAccounting(pool: seq<nat>, port: seq<PortMessage>)
    requires multiset(pool) + multiset(PortSlots(port)) == multiset(AllSlots())
    ensures |pool| + |PortSlots(port)| == MAX_DEBUG_MESSAGES
    ensures |pool| <= MAX_DEBUG_MESSAGES
  {
    assert |multiset(pool) + multiset(PortSlots(port))| == |multiset(AllSlots())|;
  }

  /** The seeded free list holds each slot once. */
  lemma SeededPoolIsPermutation()
    ensures multiset(SeededPool()) == multiset(AllSlots())
  {
    var s, a := SeededPool(), AllSlots();
    var i := 0;
    while i < MAX_DEBUG_MESSAGES
      invariant 0 <= i <= MAX_DEBUG_MESSAGES
      invariant multiset(s[..i]) == multiset(a[MAX_DEBUG_MESSAGES - i..])
    {
      assert s[..i + 1] == s[..i] + [s[i]];
      assert a[MAX_DEBUG_MESSAGES - i - 1..] == [a[MAX_DEBUG_MESSAGES - i - 1]] + a[MAX_DEBUG_MESSAGES - i..];
      i := i + 1;
    }
    assert s[..MAX_DEBUG_MESSAGES] == s;
    assert a[0..] == a;
  }

  // ---------------------------------------------------------------------
  // Properties of the wait loop.

  /** The drain stops at the first message that is a death message or
      carries a signal; everything before it was informational. */
  lemma {:induction false} DrainStopsAtFirstReport(port: seq<PortMessage>, slots: seq<DebuggerMessage>)
    requires SlotsInRange(port, slots)
    ensures Drain(port, slots).Reported? <==>
      exists k :: 0 <= k < |port| && (port[k].Death? || slots[port[k].id].signal != SIGNAL_NONE)
    ensures Drain(port, slots).Reported? ==>
      var n := Drain(port, slots).consumed;
      (forall k :: 0 <= k < n - 1 ==> port[k].Slot? && slots[port[k].id].signal == SIGNAL_NONE) &&
      (port[n - 1].Death? || slots[port[n - 1].id].signal != SIGNAL_NONE) &&
      Drain(port, slots).status ==
        (match port[n - 1]
         case Death(code) => Exited(code)
         case Slot(id) => StatusFor(slots[id].signal))
  {
    if port != [] {
      DrainStopsAtFirstReport(port[1..], slots);
      if port[0].Slot? && slots[port[0].id].signal == SIGNAL_NONE {
        if Drain(port, slots).Reported? {
          var n := Drain(port, slots).consumed;
          assert port[n - 1] == port[1..][n - 2];
          forall k | 0 <= k < n - 1
            ensures port[k].Slot? && slots[port[k].id].signal == SIGNAL_NONE
          {
            if k > 0 { assert port[k] == port[1..][k - 1]; }
          }
        }
        if exists k :: 0 <= k < |port| && (port[k].Death? || slots[port[k].id].signal != SIGNAL_NONE) {
          var k :| 0 <= k < |port| && (port[k].Death? || slots[port[k].id].signal != SIGNAL_NONE);
          assert port[1..][k - 1] == port[k];
        }
      }
    }
  }

  /** Messages built by the hook always produce a status: the status is
      never left unset, because every classifier result other than -1 has a
      case in the wait loop's switch. */
  lemma {:induction false} DrainOfWellFormedSetsStatus(port: seq<PortMessage>, slots: seq<DebuggerMessage>)
    requires SlotsInRange(port, slots)
    requires forall k :: 0 <= k < |port| && port[k].Slot? ==> WellFormed(slots[port[k].id])
    ensures Drain(port, slots).Reported? ==> Drain(port, slots).status != StatusUnchanged
  {
    if port != [] && port[0].Slot? && slots[port[0].id].signal == SIGNAL_NONE {
      forall k | 0 <= k < |port[1..]| && port[1..][k].Slot?
        ensures WellFormed(slots[port[1..][k].id])
      {
        assert port[1..][k] == port[k + 1];
      }
      DrainOfWellFormedSetsStatus(port[1..], slots);
    }
  }

  /** A wake-up with CTRL_D wins over CTRL_C and over a non-empty port: the
      wait returns exited(0) and takes nothing from the port. A wake-up
      with only CTRL_C returns stopped(TRAP), suspends, and takes nothing. */
  lemma WaitPriority(p: Ptid, current: Process, q: Queue, wakeups: seq<Wakeup>)
    requires QueueValid(q) && wakeups != []
    requires ArriveAll(q, current, wakeups[0].arrivals).1
    ensures var q1 := ArriveAll(q, current, wakeups[0].arrivals).0;
      wakeups[0].ctrlD ==> WaitSpec(p, current, q, wakeups) == (Returned(p, Exited(0)), q1, false)
    ensures var q1 := ArriveAll(q, current, wakeups[0].arrivals).0;
      !wakeups[0].ctrlD && wakeups[0].ctrlC ==>
        WaitSpec(p, current, q, wakeups) == (Returned(p, Stopped(GDB_SIGNAL_TRAP)), q1, true)
  {
  }

  /** Events posted while the debugger is blocked reach it: a task or
      library event arriving before one wake-up is drained without ending
      the wait, and an exception of the observed process arriving before the
      next ends it with the status of its signal. */
  lemma LateExceptionIsReported(p: Ptid, current: Process, q: Queue, info: KernelEvent,
                                ctx: Option<ExceptionContext>, rest: seq<Wakeup>)
    requires QueueValid(q) && q.port == []
    requires info.AddTask? || info.RemTask? || info.OpenLib? || info.CloseLib?
    requires TrapToSignal(ctx, 0) != -1
    ensures
      var ws := [Wakeup([HookCall(current, info)], false, false),
                 Wakeup([HookCall(current, Exception(ctx))], false, false)] + rest;
      WaitSpec(p, current, q, ws).0 == Returned(p, StatusFor(ToUint32(TrapToSignal(ctx, 0))))
  {
    var w1, w2 := Wakeup([HookCall(current, info)], false, false), Wakeup([HookCall(current, Exception(ctx))], false, false);
    assert [w1, w2] + rest == [w1] + ([w2] + rest);
    var q2 := InformationalWakeupPasses(p, current, q, info, [w2] + rest);
    ExceptionWakeupIsReported(p, current, q2, ctx, rest);
  }

  /** On an idle port, a wake-up that brings only a task or library event
      of the observed process drains its message silently: the wait goes on
      with an idle port and the message's slot back in the free list. */
  lemma InformationalWakeupPasses(p: Ptid, current: Process, q: Queue, info: KernelEvent, rest: seq<Wakeup>)
    returns (q2: Queue)
    requires QueueValid(q) && q.port == []
    requires info.AddTask? || info.RemTask? || info.OpenLib? || info.CloseLib?
    ensures QueueValid(q2) && q2.port == [] && multiset(q2.pool) == multiset(q.pool)
    ensures WaitSpec(p, current, q, [Wakeup([HookCall(current, info)], false, false)] + rest) ==
            WaitSpec(p, current, q2, rest)
  {
    var ws := [Wakeup([HookCall(current, info)], false, false)] + rest;
    PoolAccounting(q.pool, q.port);
    var a := [HookCall(current, info)];
    var q1 := Arrive(q, current, a[0]);
    assert a[1..] == [];
    assert ArriveAll(q, current, a) == (q1, true);
    assert q1.port == [Slot(q.pool[0])];
    assert q1.slots[q.pool[0]].signal == SIGNAL_NONE;
    assert Drain(q1.port, q1.slots) == Exhausted by {
      assert Drain(q1.port[1..], q1.slots) == Exhausted;
    }
    DrainKeepsInvariant(q1, |q1.port|);
    q2 := After(q1, |q1.port|);
    assert q2.pool == q.pool[1..] + [q.pool[0]] by {
      assert q1.port[..1] == [Slot(q.pool[0])];
    }
    assert q.pool == [q.pool[0]] + q.pool[1..];
    assert ws[0] == Wakeup(a, false, false) && ws[1..] == rest;
  }

  /** On an idle port, a wake-up that brings an exception of the observed
      process whose vector the classifier knows ends the wait with the
      status of its signal. */
  lemma ExceptionWakeupIsReported(p: Ptid, current: Process, q: Queue, ctx: Option<ExceptionContext>, rest: seq<Wakeup>)
    requires QueueValid(q) && q.port == []
    requires TrapToSignal(ctx, 0) != -1
    ensures WaitSpec(p, current, q, [Wakeup([HookCall(current, Exception(ctx))], false, false)] + rest).0 ==
            Returned(p, StatusFor(ToUint32(TrapToSignal(ctx, 0))))
  {
    var ws := [Wakeup([HookCall(current, Exception(ctx))], false, false)] + rest;
    PoolAccounting(q.pool, q.port);
    var a := [HookCall(current, Exception(ctx))];
    var q1 := Arrive(q, current, a[0]);
    assert a[1..] == [];
    assert ArriveAll(q, current, a) == (q1, true);
    var id := q.pool[0];
    assert q1.port == [Slot(id)];
    var sig := ToUint32(TrapToSignal(ctx, 0));
    assert q1.slots[id].signal == sig;
    assert sig != SIGNAL_NONE by {
      assert TrapToSignal(ctx, 0) in ClassifierResults();
    }
    assert Drain(q1.port, q1.slots) == Reported(StatusFor(sig), 1);
    assert ws[0] == Wakeup(a, false, false);
  }

  /** The informational sentinel and the classifier's "no signal" are the
      same word, so an exception whose vector the classifier does not know
      is drained like an informational message: the wait reports nothing
      for it, although the hook left the task suspended. */
  lemma UnknownVectorDrainedSilently(m: DebuggerMessage, ctx: ExceptionContext, rest: seq<PortMessage>,
                                     slots: seq<DebuggerMessage>, id: nat)
    requires ctx.traptype !in HandledVectors()
    requires id < |slots| && slots[id] == Fill(m, Exception(Some(ctx)))
    requires SlotsInRange(rest, slots)
    ensures slots[id].signal == SIGNAL_NONE
    ensures SlotsInRange([Slot(id)] + rest, slots)
    ensures Drain([Slot(id)] + rest, slots) ==
      match Drain(rest, slots)
      case Reported(st, n) => Reported(st, n + 1)
      case Exhausted => Exhausted
  {
    assert ([Slot(id)] + rest)[1..] == rest;
  }

  /** An exception the classifier resolves ends the wait with the status of
      its signal; task and library events on the port before it are drained
      first without ending the wait. */
  lemma ExceptionAfterTaskEventsIsReported(infos: seq<nat>, id: nat, ctx: Option<ExceptionContext>,
                                            slots: seq<DebuggerMessage>, m: DebuggerMessage)
    requires id < |slots| && slots[id] == Fill(m, Exception(ctx))
    requires TrapToSignal(ctx, 0) != -1
    requires forall k :: 0 <= k < |infos| ==> infos[k] < |slots| && slots[infos[k]].signal == SIGNAL_NONE
    ensures
      var port := seq(|infos|, k requires 0 <= k < |infos| => Slot(infos[k])) + [Slot(id)];
      SlotsInRange(port, slots) &&
      Drain(port, slots) == Reported(StatusFor(ToUint32(TrapToSignal(ctx, 0))), |infos| + 1) &&
      Drain(port, slots).status != StatusUnchanged
  {
    var port := seq(|infos|, k requires 0 <= k < |infos| => Slot(infos[k])) + [Slot(id)];
    assert slots[id].signal != SIGNAL_NONE;
    assert port[|infos|] == Slot(id);
    DrainStopsAtFirstReport(port, slots);
    assert forall k :: 0 <= k < |infos| ==> port[k] == Slot(infos[k]);
    assert forall k :: 0 <= k < |infos| ==> slots[port[k].id].signal == SIGNAL_NONE;
    var n := Drain(port, slots).consumed;
    assert n - 1 == |infos|;
  }
}
