// What the scheduler, the process table and the devices that block threads
// remember, and what each kernel entry does to it.  The run queue holds pids:
// every process has exactly one thread.
module SchedState {
  import opened Common

  type Pid = nat

  const NO_SWITCH := -1
  const NOBODY := -1
  const IDLE: Pid := 1

  datatype ThreadState = New | Running | Waiting | Terminated

  datatype Process = Process(runState: ThreadState, execParent: Option<Pid>, currTerm: Option<nat>)

  datatype Terminal = Terminal(owner: int, waitingRead: bool)

  datatype Rtc = Rtc(opener: Pid, waiting: bool, thread: Pid, backlog: nat)

  datatype State = State(
    wantToSwitchTo: int,
    currentlyRunning: int,
    cpu: Pid,                   // the thread whose kernel stack is in use
    rrQueue: seq<Pid>,
    procs: map<Pid, Process>,
    nextNewProcess: Pid,
    terms: map<nat, Terminal>,
    rtcs: map<nat, Rtc>)

  // Timer: the periodic decision.  Exec, TermRead, KbClose, RtcOpen, RtcRead,
  // RtcClose and Halt are system calls of the thread on the CPU, each one step;
  // `executable` says whether the name can be executed, `enough` whether the
  // typed text already covers the read.  EnterKey and RtcTick are
  // the interrupts that wake readers.  Dispatch is the end of an interrupt,
  // nested or outermost.
  datatype Event =
    | Timer
    | Exec(executable: bool)
    | TermRead(enough: bool)
    | KbClose
    | RtcOpen(dev: nat)
    | RtcRead(dev: nat)
    | RtcClose(dev: nat)
    | Halt
    | EnterKey(term: nat)
    | RtcTick(dev: nat)
    | Dispatch(nested: bool)

  // ----- Pieces of the steps -----

  function SetRunState(s: State, p: Pid, r: ThreadState): State
    requires p in s.procs
  {
    s.(procs := s.procs[p := s.procs[p].(runState := r)])
  }

  // Index of the first thread in the queue that can run; |q| when there is none.
  function FirstRunning(q: seq<Pid>, procs: map<Pid, Process>): (j: nat)
    ensures j <= |q|
    ensures j < |q| ==> q[j] in procs && procs[q[j]].runState == Running
    ensures forall i :: 0 <= i < j && q[i] in procs ==> procs[q[i]].runState != Running
  {
    if q == [] then 0
    else if q[0] in procs && procs[q[0]].runState == Running then 0
    else 1 + FirstRunning(q[1..], procs)
  }

  function Rotated(q: seq<Pid>, j: nat): (r: seq<Pid>)
    requires j <= |q|
    ensures |r| == |q|
  {
    q[j..] + q[..j]
  }

  // A scheduling decision: the first thread that can run is chosen and goes,
  // with everything before it, to the back of the queue.
  function Decide(s: State): State {
    var j := FirstRunning(s.rrQueue, s.procs);
    if j == |s.rrQueue| then s
    else s.(wantToSwitchTo := s.rrQueue[j], rrQueue := Rotated(s.rrQueue, j + 1))
  }

  function Block(s: State, p: Pid): State
    requires p in s.procs
  {
    Decide(SetRunState(s, p, Waiting))
  }

  function SetOwner(s: State, t: Option<nat>, owner: int): State {
    if t.Some? && t.value in s.terms
    then s.(terms := s.terms[t.value := Terminal(owner, false)])
    else s
  }

  function NewProcess(s: State, parent: Option<Pid>, term: Option<nat>): State {
    s.(procs := s.procs[s.nextNewProcess := Process(New, parent, term)], nextNewProcess := s.nextNewProcess + 1)
  }

  function AttachThread(s: State, p: Pid, newState: ThreadState): State
    requires p in s.procs
  {
    SetRunState(s, p, newState).(rrQueue := s.rrQueue + [p])
  }

  function CanBeOwnedBy(s: State, t: Option<nat>, p: Pid): bool {
    t.Some? && t.value in s.terms && (s.terms[t.value].owner == NOBODY || s.terms[t.value].owner == p)
  }

  function AfterExec(s: State): State
    requires s.cpu in s.procs && s.cpu < s.nextNewProcess
  {
    var child := s.nextNewProcess;
    var term := s.procs[s.cpu].currTerm;
    var s1 := NewProcess(s, Some(s.cpu), term);
    var s2 := if CanBeOwnedBy(s1, term, s.cpu) then SetOwner(s1, term, child) else s1;
    Block(AttachThread(s2, child, Running), s.cpu)
  }

  function AfterTermRead(s: State, enough: bool): State
    requires s.cpu in s.procs
  {
    var term := s.procs[s.cpu].currTerm;
    if term.None? || term.value !in s.terms then s
    else
      var t := s.terms[term.value];
      if t.owner != NOBODY && t.owner != s.cpu then s
      else
        var t' := if t.owner == NOBODY then Terminal(s.cpu, false) else t;
        if enough then s.(terms := s.terms[term.value := t'])
        else Block(s.(terms := s.terms[term.value := t'.(waitingRead := true)]), s.cpu)
  }

  function AfterRtcRead(s: State, dev: nat): State
    requires s.cpu in s.procs && dev in s.rtcs
  {
    var d := s.rtcs[dev];
    if d.backlog > 0 then s.(rtcs := s.rtcs[dev := d.(backlog := d.backlog - 1)])
    else Block(s.(rtcs := s.rtcs[dev := d.(waiting := true, thread := s.cpu)]), s.cpu)
  }

  function AfterRtcTick(s: State, dev: nat): State
    requires dev in s.rtcs && (s.rtcs[dev].waiting ==> s.rtcs[dev].thread in s.procs)
  {
    var d := s.rtcs[dev];
    if d.waiting then SetRunState(s.(rtcs := s.rtcs[dev := d.(waiting := false)]), d.thread, Running)
    else s.(rtcs := s.rtcs[dev := d.(backlog := d.backlog + 1)])
  }

  function AfterEnterKey(s: State, term: nat): State
    requires term in s.terms
    requires s.terms[term].waitingRead ==> s.terms[term].owner >= 0 && s.terms[term].owner in s.procs
  {
    var t := s.terms[term];
    if t.waitingRead then SetRunState(s.(terms := s.terms[term := t.(waitingRead := false)]), t.owner, Running)
    else s
  }

  // Closing a process closes the clock devices it opened.
  function CloseAll(rtcs: map<nat, Rtc>, p: Pid): map<nat, Rtc> {
    map d | d in rtcs && rtcs[d].opener != p :: rtcs[d]
  }

  function IndexOf(q: seq<Pid>, p: Pid): (i: nat)
    requires p in q
    ensures i < |q| && q[i] == p && p !in q[..i]
  {
    if q[0] == p then 0 else 1 + IndexOf(q[1..], p)
  }

  // The process on the CPU goes away: it leaves the queue, which has turned
  // until it was in front, and its parent may run again.
  function RemoveAndWake(s: State, p: Pid, parent: Pid): State
    requires p in s.procs && parent in s.procs && p != parent
    requires p in s.rrQueue
  {
    var i := IndexOf(s.rrQueue, p);
    SetRunState(
      s.(procs := s.procs - {p}, rrQueue := s.rrQueue[i + 1..] + s.rrQueue[..i], rtcs := CloseAll(s.rtcs, p)),
      parent, Running)
  }

  function AfterHalt(s: State): State
    requires s.cpu in s.procs && s.cpu in s.rrQueue
    requires s.procs[s.cpu].execParent.Some? ==>
               s.procs[s.cpu].execParent.value in s.procs && s.procs[s.cpu].execParent.value != s.cpu
  {
    var me := s.procs[s.cpu];
    if me.execParent.None? then s
    else Decide(RemoveAndWake(SetOwner(s, me.currTerm, NOBODY), s.cpu, me.execParent.value))
  }

  function AfterDispatch(s: State, nested: bool): State {
    if nested || s.wantToSwitchTo < 0 || s.currentlyRunning == s.wantToSwitchTo then s
    else s.(cpu := s.wantToSwitchTo, currentlyRunning := s.wantToSwitchTo, wantToSwitchTo := NO_SWITCH)
  }

  // ----- Steps and runs -----

  // The thread on the CPU is in user mode and may enter the kernel.  The idle
  // thread only ever halts the CPU.
  predicate InUserMode(s: State) {
    s.cpu in s.procs && s.procs[s.cpu].runState == Running && s.cpu != IDLE
  }

  predicate Enabled(s: State, e: Event) {
    match e
    case Timer => true
    case Dispatch(_) => true
    case EnterKey(t) => t in s.terms
    case RtcTick(d) => d in s.rtcs
    case RtcOpen(d) => InUserMode(s) && d !in s.rtcs
    case RtcRead(d) => InUserMode(s) && d in s.rtcs && s.rtcs[d].opener == s.cpu
    case RtcClose(d) => InUserMode(s) && d in s.rtcs && s.rtcs[d].opener == s.cpu
    case _ => InUserMode(s)
  }

  // What the steps above ask of the state; every reachable state provides it.
  ghost predicate WellFormed(s: State) {
    && (forall p :: p in s.rrQueue <==> p in s.procs)
    && (forall p :: p in s.procs ==> p < s.nextNewProcess)
    && (forall p :: p in s.procs && s.procs[p].execParent.Some? ==>
          s.procs[p].execParent.value in s.procs && s.procs[p].execParent.value != p)
    && (forall t :: t in s.terms && s.terms[t].waitingRead ==> s.terms[t].owner >= 0 && s.terms[t].owner in s.procs)
    && (forall d :: d in s.rtcs && s.rtcs[d].waiting ==> s.rtcs[d].thread in s.procs)
  }

  function Step(s: State, e: Event): State
    requires WellFormed(s) && Enabled(s, e)
  {
    match e
    case Timer => Decide(s)
    case Exec(executable) => if executable then AfterExec(s) else s
    case TermRead(enough) => AfterTermRead(s, enough)
    case KbClose => SetOwner(s, s.procs[s.cpu].currTerm, NOBODY)
    case RtcOpen(d) => s.(rtcs := s.rtcs[d := Rtc(s.cpu, false, s.cpu, 0)])
    case RtcRead(d) => AfterRtcRead(s, d)
    case RtcClose(d) => s.(rtcs := s.rtcs - {d})
    case Halt => AfterHalt(s)
    case EnterKey(t) => AfterEnterKey(s, t)
    case RtcTick(d) => AfterRtcTick(s, d)
    case Dispatch(nested) => AfterDispatch(s, nested)
  }

  // The machine when interrupts come on: the idle thread, and one kernel thread
  // for each keyboard client.  The first textTerms of them guard a terminal.
  function KernelThread(p: Pid, textTerms: nat): Process {
    Process(Running, None, if 2 <= p < textTerms + 2 then Some(p - 2) else None)
  }

  function BootTerminal(t: nat, started: nat): Terminal {
    Terminal(if t < started then t + 2 else NOBODY, false)
  }

  // Boot with the threads of the first `started` clients in the queue.
  function Booting(textTerms: nat, started: nat): State {
    State(
      NO_SWITCH, NO_SWITCH, IDLE,
      seq(started + 1, i => i + 1),
      map p: Pid | 1 <= p <= started + 1 :: KernelThread(p, textTerms),
      started + 2,
      map t: nat | t < textTerms :: BootTerminal(t, started),
      map[])
  }

  function Boot(textTerms: nat, clients: nat): State {
    Booting(textTerms, clients)
  }
}
