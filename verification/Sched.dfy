// The kernel's scheduler as the program keeps it: globals updated in place by
// proc/sched.cpp, syscalls/exec.cpp and the devices that block threads.  Every
// entry is proved to take the step of SchedState that its name says.
module Sched {
  import opened Common
  import opened SchedState
  import opened SchedInvariant
  import SchedSteps

  // A kernel thread made and attached, owning its terminal if it has one.
  function GuardStarted(s: State, term: Option<nat>): State {
    var thread := s.nextNewProcess;
    SchedState.AttachThread(SetOwner(NewProcess(s, None, term), term, thread), thread, Running)
  }

  lemma BootingNext(textTerms: nat, i: nat, term: Option<nat>)
    requires term == if i < textTerms then Some(i) else None
    ensures GuardStarted(Booting(textTerms, i), term) == Booting(textTerms, i + 1)
  {
    var s, s' := GuardStarted(Booting(textTerms, i), term), Booting(textTerms, i + 1);
    assert s.rrQueue == s'.rrQueue;
    BootingProcs(textTerms, i);
    assert s.terms == s'.terms;
  }

  lemma BootingProcs(textTerms: nat, i: nat)
    ensures Booting(textTerms, i + 1).procs == Booting(textTerms, i).procs[i + 2 := KernelThread(i + 2, textTerms)]
  {
  }

  lemma TurnedOnceMore(q: seq<Pid>, k: nat)
    requires k < |q|
    ensures Rotated(Rotated(q, k), 1) == Rotated(q, k + 1) && Rotated(q, k)[0] == q[k]
    ensures Rotated(q, 0) == q
  {
    var r := Rotated(q, k);
    assert r[0] == q[k];
    assert r[1..] == q[k + 1..] + q[..k];
    assert q[..k + 1] == q[..k] + [q[k]];
    assert r[1..] + r[..1] == q[k + 1..] + q[..k + 1];
  }

  // A decision can be made: the loop that looks for a thread that can run finds
  // one, or there is no thread at all.
  ghost predicate CanDecide(s: State) {
    && (forall p :: p in s.rrQueue ==> p in s.procs)
    && (s.rrQueue == [] || FirstRunning(s.rrQueue, s.procs) < |s.rrQueue|)
  }

  // The idle thread never blocks, so a decision can always be made.
  lemma IdleCanRun(s: State, p: Pid)
    requires Members(s.rrQueue, s.procs) && Runnable(s, IDLE) && p in s.procs
    ensures CanDecide(s) && (p != IDLE ==> CanDecide(SetRunState(s, p, Waiting)))
  {
    FirstIsNotBehind(s.rrQueue, s.procs, IDLE);
    if p != IDLE {
      FirstIsNotBehind(s.rrQueue, SetRunState(s, p, Waiting).procs, IDLE);
    }
  }

  class Kernel {
    var wantToSwitchTo: int
    var currentlyRunning: int
    var cpu: Pid
    var rrQueue: seq<Pid>
    var procs: map<Pid, Process>
    var nextNewProcess: Pid
    var terms: map<nat, Terminal>
    var rtcs: map<nat, Rtc>

    ghost function Now(): State
      reads this
    {
      State(wantToSwitchTo, currentlyRunning, cpu, rrQueue, procs, nextNewProcess, terms, rtcs)
    }

    // ----- Boot: scheduler::init, forceStartThread and the loops of init_main -----

    constructor (textTerms: nat, clients: nat)
      requires textTerms <= clients
      ensures Now() == Boot(textTerms, clients)
    {
      wantToSwitchTo, currentlyRunning := NO_SWITCH, NO_SWITCH;
      rrQueue := [];
      procs := map[];
      nextNewProcess := 1;
      terms := map t: nat | t < textTerms :: BootTerminal(t, 0);
      rtcs := map[];
      cpu := IDLE;
      new;
      ForceStartIdle();
      assert Now() == Booting(textTerms, 0);
      StartTerminalGuards(textTerms);
      StartOtherClients(textTerms, clients);
    }

    method StartTerminalGuards(textTerms: nat)
      requires Now() == Booting(textTerms, 0)
      modifies this
      ensures Now() == Booting(textTerms, textTerms)
    {
      var i := 0;
      while i < textTerms
        invariant 0 <= i <= textTerms && Now() == Booting(textTerms, i)
      {
        StartGuard(Some(i));
        BootingNext(textTerms, i, Some(i));
        i := i + 1;
      }
    }

    method StartOtherClients(textTerms: nat, clients: nat)
      requires textTerms <= clients && Now() == Booting(textTerms, textTerms)
      modifies this
      ensures Now() == Booting(textTerms, clients)
    {
      hide GuardStarted;
      var i := textTerms;
      while i < clients
        invariant textTerms <= i <= clients && Now() == Booting(textTerms, i)
      {
        StartGuard(None);
        BootingNext(textTerms, i, None);
        i := i + 1;
      }
    }

    method ForceStartIdle()
      requires procs == map[] && rrQueue == [] && nextNewProcess == IDLE
      modifies this
      ensures Now() == old(Now()).(
                         procs := map[IDLE := Process(Running, None, None)],
                         rrQueue := [IDLE], nextNewProcess := IDLE + 1)
    {
      var idle := NewProcess(None, None);
      procs := procs[idle := procs[idle].(runState := Running)];
      rrQueue := rrQueue + [idle];
    }

    method StartGuard(term: Option<nat>)
      requires term.Some? ==> term.value in terms
      modifies this
      ensures Now() == GuardStarted(old(Now()), term)
    {
      var thread := NewProcess(None, term);
      if term.Some? {
        SetOwner(term.value, thread);
      }
      AttachThread(thread, Running);
    }

    // ----- Processes and the queue -----

    method NewProcess(parent: Option<Pid>, term: Option<nat>) returns (pid: Pid)
      modifies this`procs, this`nextNewProcess
      ensures pid == old(nextNewProcess)
      ensures Now() == SchedState.NewProcess(old(Now()), parent, term)
    {
      pid := nextNewProcess;
      procs := procs[pid := Process(New, parent, term)];
      nextNewProcess := nextNewProcess + 1;
    }

    method AttachThread(p: Pid, newState: ThreadState)
      requires p in procs
      modifies this`procs, this`rrQueue
      ensures Now() == SchedState.AttachThread(old(Now()), p, newState)
    {
      procs := procs[p := procs[p].(runState := newState)];
      rrQueue := rrQueue + [p];
    }

    // The queue turns until its front can run; that thread is chosen and goes
    // to the back.  The distance to the first runnable thread shrinks.
    method MakeDecisionNoLock()
      requires CanDecide(Now())
      modifies this`wantToSwitchTo, this`rrQueue
      ensures Now() == Decide(old(Now()))
    {
      hide FirstRunning;
      hide Rotated;
      if rrQueue == [] {
        return;
      }
      ghost var q, j := rrQueue, FirstRunning(rrQueue, procs);
      TurnToRunnable();
      TurnedOnceMore(q, j);
      wantToSwitchTo := rrQueue[0];
      TurnQueue();
    }

    // The distance to the first runnable thread shrinks with every turn.
    method TurnToRunnable()
      requires CanDecide(Now()) && rrQueue != []
      modifies this`rrQueue
      ensures var q := old(rrQueue); var j := FirstRunning(q, procs);
              j < |q| && rrQueue == Rotated(q, j)
    {
      ghost var q, j, k := rrQueue, FirstRunning(rrQueue, procs), 0;
      hide Rotated;
      hide IndexOf;
      hide FirstRunning;
      TurnedOnceMore(q, 0);
      var next := rrQueue[0];
      while procs[next].runState != Running
        invariant 0 <= k <= j && rrQueue == Rotated(q, k) && next == q[k]
        decreases j - k
      {
        TurnQueue();
        TurnedOnceMore(q, k);
        k := k + 1;
        TurnedOnceMore(q, k);
        next := rrQueue[0];
      }
    }

    // The front of the queue goes to its back.
    method TurnQueue()
      requires rrQueue != []
      modifies this`rrQueue
      ensures rrQueue == Rotated(old(rrQueue), 1)
    {
      var tmp := rrQueue[0];
      rrQueue := rrQueue[1..];
      rrQueue := rrQueue + [tmp];
    }

    method Block(p: Pid)
      requires p in procs && CanDecide(SetRunState(Now(), p, Waiting))
      modifies this`procs, this`wantToSwitchTo, this`rrQueue
      ensures Now() == SchedState.Block(old(Now()), p)
    {
      procs := procs[p := procs[p].(runState := Waiting)];
      MakeDecisionNoLock();
    }

    method Unblock(p: Pid)
      requires p in procs
      modifies this`procs
      ensures Now() == SetRunState(old(Now()), p, Running)
    {
      procs := procs[p := procs[p].(runState := Running)];
    }

    // ----- System calls -----

    method SetOwner(term: nat, owner: int)
      requires term in terms
      modifies this`terms
      ensures Now() == SchedState.SetOwner(old(Now()), Some(term), owner)
    {
      terms := terms[term := Terminal(owner, false)];
    }

    // `executable` stands for the checks of the name and of the file.
    method SysExec(executable: bool)
      requires QueueInv(Now()) && InUserMode(Now())
      modifies this
      ensures Now() == if executable then AfterExec(old(Now())) else old(Now())
    {
      hide Decide;
      if !executable {
        return;
      }
      var parent := cpu;
      var term := procs[parent].currTerm;
      var child := NewProcess(Some(parent), term);
      if term.Some? && term.value in terms {
        if terms[term.value].owner == NOBODY || terms[term.value].owner == parent {
          SetOwner(term.value, child);
        }
      }
      AttachThread(child, Running);
      IdleCanRun(Now(), parent);
      Block(parent);
    }

    // The queue turns until p is in front, and p is dropped.
    method RemoveFromQueue(p: Pid)
      requires p in rrQueue
      modifies this`rrQueue
      ensures var q := old(rrQueue); var i := IndexOf(q, p); rrQueue == q[i + 1..] + q[..i]
    {
      ghost var q, k, i := rrQueue, 0, IndexOf(rrQueue, p);
      while rrQueue[0] != p
        invariant 0 <= k <= i && rrQueue == Rotated(q, k)
        decreases i - k
      {
        TurnQueue();
        TurnedOnceMore(q, k);
        k := k + 1;
      }
      assert rrQueue[0] == q[k];
      assert p !in q[..i];
      assert k == i;
      rrQueue := rrQueue[1..];
      assert rrQueue == q[i + 1..] + q[..i];
    }

    // The thread is gone: its devices are closed, it leaves the queue, and its
    // parent may run.
    method LeaveQueue(me: Pid, parent: Pid)
      requires me in procs && parent in procs && me != parent && me in rrQueue
      modifies this
      ensures Now() == RemoveAndWake(old(Now()), me, parent)
    {
      hide IndexOf;
      hide CloseAll;
      procs := procs - {me};
      rtcs := CloseAll(rtcs, me);
      RemoveFromQueue(me);
      procs := procs[parent := procs[parent].(runState := Running)];
    }

    method Halt()
      requires QueueInv(Now()) && InUserMode(Now()) && WellFormed(Now())
      requires procs[cpu].execParent.Some? ==> procs[cpu].execParent.value != IDLE
      modifies this
      ensures Now() == AfterHalt(old(Now()))
    {
      ghost var s := Now();
      var me, term := cpu, procs[cpu].currTerm;
      if procs[me].execParent.None? {
        return;
      }
      var parent := procs[me].execParent.value;
      if term.Some? && term.value in terms {
        SetOwner(term.value, NOBODY);
      }
      LeaveQueue(me, parent);
      SchedSteps.HaltQueue(s, parent, Now());
      IdleCanRun(Now(), IDLE);
      hide QueueInv;
      hide WellFormed;
      hide CanDecide;
      hide RemoveAndWake;
      hide SchedState.SetOwner;
      hide Decide;
      MakeDecisionNoLock();
    }

    // ----- Reading from a terminal and from a clock device -----

    // `enough` stands for the comparison of the buffered text with the request.
    method TermRead(enough: bool)
      requires QueueInv(Now()) && InUserMode(Now())
      modifies this
      ensures Now() == AfterTermRead(old(Now()), enough)
    {
      assert Members(rrQueue, procs) && Runnable(Now(), IDLE);
      hide QueueInv;
      hide Members;
      hide CanDecide;
      hide FirstRunning;
      hide Decide;
      var me, term := cpu, procs[cpu].currTerm;
      if term.None? || term.value !in terms {
        return;
      }
      var t := term.value;
      if terms[t].owner == NOBODY {
        terms := terms[t := Terminal(me, false)];
      } else if terms[t].owner != me {
        return;
      }
      if !enough {
        terms := terms[t := terms[t].(waitingRead := true)];
        assert terms == old(terms)[t := Terminal(me, true)];
        IdleCanRun(Now(), me);
        Block(me);
      }
    }

    method RtcRead(dev: nat)
      requires QueueInv(Now()) && InUserMode(Now()) && dev in rtcs
      modifies this
      ensures Now() == AfterRtcRead(old(Now()), dev)
    {
      if rtcs[dev].backlog > 0 {
        rtcs := rtcs[dev := rtcs[dev].(backlog := rtcs[dev].backlog - 1)];
      } else {
        rtcs := rtcs[dev := rtcs[dev].(waiting := true, thread := cpu)];
        IdleCanRun(Now(), cpu);
        Block(cpu);
      }
    }

    // ----- The interrupts that wake readers -----

    method EnterHandler(term: nat)
      requires term in terms
      requires terms[term].waitingRead ==> terms[term].owner >= 0 && terms[term].owner in procs
      modifies this`terms, this`procs
      ensures Now() == AfterEnterKey(old(Now()), term)
    {
      if terms[term].waitingRead {
        var reader := terms[term].owner;
        terms := terms[term := terms[term].(waitingRead := false)];
        Unblock(reader);
      }
    }

    method TriggerIfPossible(dev: nat)
      requires dev in rtcs && (rtcs[dev].waiting ==> rtcs[dev].thread in procs)
      modifies this`rtcs, this`procs
      ensures Now() == AfterRtcTick(old(Now()), dev)
    {
      if rtcs[dev].waiting {
        rtcs := rtcs[dev := rtcs[dev].(waiting := false)];
        Unblock(rtcs[dev].thread);
      } else {
        rtcs := rtcs[dev := rtcs[dev].(backlog := rtcs[dev].backlog + 1)];
      }
    }

    // ----- The end of an interrupt -----

    method SchedDispatchExecution(nested: bool)
      requires wantToSwitchTo >= 0 ==> wantToSwitchTo in procs
      modifies this`cpu, this`currentlyRunning, this`wantToSwitchTo
      ensures Now() == AfterDispatch(old(Now()), nested)
    {
      if nested {
        return;
      }
      if wantToSwitchTo < 0 {
        return;
      }
      if currentlyRunning == wantToSwitchTo {
        return;
      }
      cpu := wantToSwitchTo;
      currentlyRunning := wantToSwitchTo;
      wantToSwitchTo := NO_SWITCH;
    }
  }
}
