// Whole runs of the scheduler: safety of every dispatch, exec chains, no lost
// wake-ups, and bounded waiting.
module SchedTheorems {
  import opened Common
  import opened SchedState
  import opened SchedInvariant
  import opened SchedSteps

  ghost predicate Next(s: State, e: Event, s': State) {
    Enabled(s, e) && WellFormed(s) && s' == Step(s, e)
  }

  // A run: states[i + 1] follows states[i] by events[i].
  ghost predicate IsRun(states: seq<State>, events: seq<Event>) {
    && |states| == |events| + 1
    && forall i :: 0 <= i < |events| ==> Next(states[i], events[i], states[i + 1])
  }

  ghost predicate FromBoot(states: seq<State>, events: seq<Event>) {
    && IsRun(states, events)
    && exists textTerms: nat, clients: nat :: textTerms <= clients && states[0] == Boot(textTerms, clients)
  }

  ghost predicate HasLiveChild(s: State, p: Pid) {
    exists c :: c in s.procs && s.procs[c].execParent == Some(p)
  }

  lemma NextKeepsInv(s: State, e: Event, s': State)
    requires Inv(s) && Next(s, e, s')
    ensures Inv(s')
  {
    var w :| InvWith(s, w);
    var w' := StepKeepsInv(s, w, e);
  }

  lemma {:induction false} RunKeepsInv(states: seq<State>, events: seq<Event>, i: nat)
    requires IsRun(states, events) && Inv(states[0]) && i < |states|
    ensures Inv(states[i])
  {
    if i > 0 {
      RunKeepsInv(states, events, i - 1);
      NextKeepsInv(states[i - 1], events[i - 1], states[i]);
    }
  }

  lemma BootRunInv(states: seq<State>, events: seq<Event>, i: nat)
    requires FromBoot(states, events) && i < |states|
    ensures Inv(states[i])
  {
    var textTerms: nat, clients: nat :| textTerms <= clients && states[0] == Boot(textTerms, clients);
    BootSatisfiesInv(textTerms, clients);
    RunKeepsInv(states, events, i);
  }

  // Runs from boot start with any number of terminals and clients, and go on with
  // every entry that is open.
  lemma RunsGoOn(states: seq<State>, events: seq<Event>, e: Event)
    requires FromBoot(states, events) && Enabled(states[|events|], e)
    ensures WellFormed(states[|events|])
    ensures FromBoot(states + [Step(states[|events|], e)], events + [e])
  {
    hide Step;
    var n := |events|;
    NothingGetsStuck(states, events, n);
    hide WellFormed;
    hide Boot;
    var more, on := states + [Step(states[n], e)], events + [e];
    forall i | 0 <= i < |on| ensures Next(more[i], on[i], more[i + 1]) {
      assert i < n ==> Next(states[i], events[i], states[i + 1]);
    }
    assert more[0] == states[0];
  }

  lemma RunsStart(textTerms: nat, clients: nat)
    requires textTerms <= clients
    ensures FromBoot([Boot(textTerms, clients)], [])
  {
  }

  // Interrupts may come at any time; a thread in user mode may make every system
  // call.
  lemma EntriesAreOpen(s: State)
    ensures Enabled(s, Timer) && Enabled(s, Event.Dispatch(true)) && Enabled(s, Event.Dispatch(false))
    ensures forall t :: t in s.terms ==> Enabled(s, EnterKey(t))
    ensures forall d :: d in s.rtcs ==> Enabled(s, RtcTick(d))
    ensures InUserMode(s) ==> Enabled(s, Halt) && Enabled(s, KbClose)
    ensures InUserMode(s) ==> forall b :: Enabled(s, Event.Exec(b)) && Enabled(s, Event.TermRead(b))
    ensures InUserMode(s) ==> forall d ::
              if d !in s.rtcs then Enabled(s, RtcOpen(d))
              else s.rtcs[d].opener == s.cpu ==> Enabled(s, Event.RtcRead(d)) && Enabled(s, RtcClose(d))
  {
  }

  // And in every run the thread on the CPU is in user mode when an outermost
  // interrupt has ended, unless it is the idle thread.
  lemma BackInUserMode(states: seq<State>, events: seq<Event>, i: nat)
    requires FromBoot(states, events) && i < |events| && events[i] == Event.Dispatch(false)
    ensures InUserMode(states[i + 1]) || states[i + 1].cpu == IDLE
  {
    DispatchIsSafe(states, events, i + 1);
    hide FromBoot;
    hide Step;
  }

  // In a run from boot every kernel entry finds the tables it needs, and every
  // decision finds a thread that can run, so its loop ends.
  lemma NothingGetsStuck(states: seq<State>, events: seq<Event>, i: nat)
    requires FromBoot(states, events) && i < |states|
    ensures WellFormed(states[i])
    ensures FirstRunning(states[i].rrQueue, states[i].procs) < |states[i].rrQueue|
  {
    var s := states[i];
    BootRunInv(states, events, i);
    var w :| InvWith(s, w);
    InvGivesWellFormed(s, w);
    assert s.rrQueue[IndexOf(s.rrQueue, IDLE)] == IDLE;
  }

  // ----- Safety of switching -----

  // At every moment a pending switch names a queued runnable thread; after an
  // outermost dispatch the thread that goes on is queued and runnable: it is
  // neither waiting nor gone.
  lemma DispatchIsSafe(states: seq<State>, events: seq<Event>, i: nat)
    requires FromBoot(states, events) && i < |states|
    ensures var s := states[i];
            s.wantToSwitchTo >= 0 ==> Runnable(s, s.wantToSwitchTo) && s.wantToSwitchTo in s.rrQueue
    ensures i > 0 && events[i - 1] == Event.Dispatch(false) ==>
              var s := states[i]; Runnable(s, s.cpu) && s.cpu in s.rrQueue
  {
    BootRunInv(states, events, i);
    if i > 0 {
      BootRunInv(states, events, i - 1);
      assert Next(states[i - 1], events[i - 1], states[i]);
    }
  }

  // A pending switch takes place at the end of the outermost interrupt, and at
  // no other: the CPU goes on with the thread chosen, and nothing else changes.
  lemma DispatchSwitches(s: State, nested: bool, s': State)
    requires Inv(s) && Next(s, Event.Dispatch(nested), s')
    ensures nested ==> s' == s
    ensures !nested ==>
              && s'.cpu == (if s.wantToSwitchTo >= 0 then s.wantToSwitchTo else s.cpu)
              && (s'.cpu != s.cpu ==> s'.currentlyRunning == s'.cpu && s'.wantToSwitchTo == NO_SWITCH)
              && s'.rrQueue == s.rrQueue && Tables(s') == Tables(s) && s'.nextNewProcess == s.nextNewProcess
  {
    hide WellFormed;
    hide WorldInv;
    var w :| InvWith(s, w);
  }

  // Without a pending switch, or with one, only an outermost dispatch changes
  // the thread on the CPU.
  lemma OnlyDispatchSwitches(s: State, e: Event, s': State)
    requires Next(s, e, s') && e != Event.Dispatch(false)
    ensures s'.cpu == s.cpu && s'.currentlyRunning == s.currentlyRunning
  {
    hide WellFormed;
    hide FirstRunning;
    hide IndexOf;
    hide CloseAll;
  }

  // ----- Exec chains and wake-ups -----

  // Every live exec'd process has a live, older, waiting parent, which has no
  // other live exec child.
  lemma ExecChains(states: seq<State>, events: seq<Event>, i: nat, p: Pid, q: Pid)
    requires FromBoot(states, events) && i < |states|
    requires p in states[i].procs && states[i].procs[p].execParent == Some(q)
    ensures var s := states[i];
            && q in s.procs && q < p && s.procs[q].runState == Waiting
            && forall c :: c in s.procs && s.procs[c].execParent == Some(q) ==> c == p
  {
    var s := states[i];
    BootRunInv(states, events, i);
    var w :| InvWith(s, w);
    var v := Tables(s);
    assert ProcAt(v, w, p);
    assert ProcAt(v, w, q);
    forall c | c in s.procs && s.procs[c].execParent == Some(q) ensures c == p {
      assert ProcAt(v, w, c);
    }
  }

  lemma ExecEffect(s: State, w: Witness)
    requires InvWith(s, w) && InUserMode(s) && WellFormed(s)
    ensures AfterExec(s).procs == s.procs[s.cpu := s.procs[s.cpu].(runState := Waiting)]
                                         [s.nextNewProcess := Process(Running, Some(s.cpu), s.procs[s.cpu].currTerm)]
  {
    var s3, w3 := ExecWorld(s, w);
    DecideKeeps(s3);
  }

  lemma HaltEffect(s: State, w: Witness)
    requires InvWith(s, w) && InUserMode(s) && s.procs[s.cpu].execParent.Some?
    ensures WellFormed(s)
    ensures var parent := s.procs[s.cpu].execParent.value;
            && parent in s.procs && parent != s.cpu && s.procs[parent].runState == Waiting
            && AfterHalt(s).procs == (s.procs - {s.cpu})[parent := s.procs[parent].(runState := Running)]
  {
    hide AfterHalt;
    hide WellFormed;
    hide RemoveAndWake;
    var s2, w2 := HaltWorld(s, w);
    DecideKeeps(s2);
  }

  // Whom a step wakes: the parent of a process that halts, the reader waiting
  // for a line, the reader waiting for a tick.
  ghost predicate RightToWake(s: State, e: Event, p: Pid) {
    match e
    case Halt => s.cpu in s.procs && s.procs[s.cpu].execParent == Some(p)
    case EnterKey(t) => t in s.terms && s.terms[t] == Terminal(p, true)
    case RtcTick(d) => d in s.rtcs && s.rtcs[d].waiting && s.rtcs[d].thread == p
    case _ => false
  }

  // A step wakes exactly these; an interrupt never wakes a thread that waits
  // for its child, and a process that halts is gone.
  lemma WakeUpsAreRight(s: State, e: Event, s': State, p: Pid)
    requires Inv(s) && Next(s, e, s') && p in s.procs && p in s'.procs
    ensures s.procs[p].runState == Waiting && s'.procs[p].runState == Running <==> RightToWake(s, e, p)
    ensures (e.EnterKey? || e.RtcTick?) && RightToWake(s, e, p) ==> !HasLiveChild(s, p)
    ensures e.Halt? && RightToWake(s, e, p) ==> s.cpu !in s'.procs
  {
    hide HasLiveChild;
    var w :| InvWith(s, w);
    if e.EnterKey? || e.RtcTick? {
      InterruptWakes(s, w, e, p);
    } else if e.Halt? {
      if s.procs[s.cpu].execParent.Some? {
        HaltEffect(s, w);
      }
    } else if e.Exec? {
      if e.executable {
        ExecEffect(s, w);
      }
    } else {
      OthersWakeNobody(s, e, p);
    }
  }

  lemma InterruptWakes(s: State, w: Witness, e: Event, p: Pid)
    requires InvWith(s, w) && WellFormed(s) && Enabled(s, e) && p in s.procs && (e.EnterKey? || e.RtcTick?)
    ensures p in Step(s, e).procs
    ensures s.procs[p].runState == Waiting && Step(s, e).procs[p].runState == Running <==> RightToWake(s, e, p)
    ensures RightToWake(s, e, p) ==> !HasLiveChild(s, p)
  {
    hide QueueInv;
    hide SwitchInv;
    hide WorldInv;
    hide WellFormed;
    ReasonIsReal(s, w, p);
    hide HasLiveChild;
    if e.EnterKey? {
      if s.terms[e.term].waitingRead {
        var w' := EnterWorld(s, w, e.term);
      }
    } else if s.rtcs[e.dev].waiting {
      var w' := TickWorld(s, w, e.dev);
    }
  }

  lemma OthersWakeNobody(s: State, e: Event, p: Pid)
    requires WellFormed(s) && Enabled(s, e) && p in s.procs
    requires !e.EnterKey? && !e.RtcTick? && !e.Halt? && !e.Exec?
    ensures p in Step(s, e).procs
    ensures s.procs[p].runState == Waiting ==> Step(s, e).procs[p].runState == Waiting
  {
    hide WellFormed;
    hide FirstRunning;
  }

  // The same the other way: a step puts to sleep exactly the thread on the CPU,
  // when it executes another program, reads a line that is not there yet from
  // its terminal, or a clock without backlog.
  ghost predicate RightToSleep(s: State, e: Event, p: Pid) {
    && p == s.cpu && p in s.procs
    && match e
       case Exec(executable) => executable
       case TermRead(enough) => !enough && s.procs[p].currTerm.Some?
       case RtcRead(d) => d in s.rtcs && s.rtcs[d].backlog == 0
       case _ => false
  }

  lemma SleepsAreRight(s: State, e: Event, s': State, p: Pid)
    requires Inv(s) && Next(s, e, s') && p in s.procs && p in s'.procs
    ensures s.procs[p].runState == Running && s'.procs[p].runState == Waiting <==> RightToSleep(s, e, p)
  {
    hide WellFormed;
    hide Decide;
    hide IndexOf;
    hide WorldInv;
    hide QueueInv;
    hide SwitchInv;
    DecideTouchesQueueOnly();
    hide CloseAll;
    var w :| InvWith(s, w);
    if e.Exec? && e.executable {
      ExecEffect(s, w);
    } else if e.Halt? && s.procs[s.cpu].execParent.Some? {
      HaltEffect(s, w);
    } else if e.TermRead? && s.procs[s.cpu].currTerm.Some? {
      TerminalIsFree(s, w);
    }
  }

  lemma DecideTouchesQueueOnly()
    ensures forall s {:trigger Decide(s)} ::
              Tables(Decide(s)) == Tables(s) && Decide(s).cpu == s.cpu && Decide(s).nextNewProcess == s.nextNewProcess
  {
    hide FirstRunning;
    hide Rotated;
  }

  // The table of terminals after a step, when the caller's own is free or its own.
  lemma TermsAfter(s: State, e: Event)
    requires WellFormed(s) && Enabled(s, e)
    requires InUserMode(s) && s.procs[s.cpu].currTerm.Some? ==> CanBeOwnedBy(s, s.procs[s.cpu].currTerm, s.cpu)
    ensures Step(s, e).terms ==
            if e.EnterKey? then
              s.terms[e.term := s.terms[e.term].(waitingRead := false)]
            else if !InUserMode(s) || s.procs[s.cpu].currTerm.None? then s.terms
            else
              var t := s.procs[s.cpu].currTerm.value;
              match e
              case Exec(executable) => if executable then s.terms[t := Terminal(s.nextNewProcess, false)] else s.terms
              case TermRead(enough) =>
                s.terms[t := Terminal(s.cpu, !enough || (s.terms[t].owner != NOBODY && s.terms[t].waitingRead))]
              case KbClose => s.terms[t := Terminal(NOBODY, false)]
              case Halt => if s.procs[s.cpu].execParent.Some? then s.terms[t := Terminal(NOBODY, false)] else s.terms
              case _ => s.terms
  {
    hide Decide;
    hide IndexOf;
    hide CloseAll;
    hide WellFormed;
    DecideTouchesQueueOnly();
  }

  // Who owns a terminal after a step: exec hands the caller's terminal on to
  // the child, a read takes it if it was free, closing and halting give it up,
  // and nothing else changes an owner.  A reader waits from its read to the
  // next Enter.
  lemma OwnersAreRight(s: State, e: Event, s': State, t: nat)
    requires Inv(s) && Next(s, e, s') && t in s.terms
    ensures t in s'.terms
    ensures var mine := s.cpu in s.procs && s.procs[s.cpu].currTerm == Some(t);
            && s'.terms[t].owner == (if mine && e == Event.Exec(true) then s.nextNewProcess
                                     else if mine && e.TermRead? then s.cpu
                                     else if mine && e.KbClose? then NOBODY
                                     else if mine && e.Halt? && s.procs[s.cpu].execParent.Some? then NOBODY
                                     else s.terms[t].owner)
            && (s'.terms[t].waitingRead <==>
                  if mine && e == Event.TermRead(false) then true
                  else s.terms[t].waitingRead && e != Event.EnterKey(t))
  {
    hide Step;
    hide WorldInv;
    hide WellFormed;
    hide CanBeOwnedBy;
    var w :| InvWith(s, w);
    if InUserMode(s) {
      CallerAtEnd(s, w);
      if s.procs[s.cpu].currTerm.Some? {
        TerminalIsFree(s, w);
      }
    }
    hide QueueInv;
    hide SwitchInv;
    TermsAfter(s, e);
  }

  // The table of clock devices after a step.
  lemma ClocksAfter(s: State, e: Event)
    requires WellFormed(s) && Enabled(s, e)
    ensures Step(s, e).rtcs ==
            match e
            case RtcOpen(d) => s.rtcs[d := Rtc(s.cpu, false, s.cpu, 0)]
            case RtcRead(d) =>
              var r := s.rtcs[d];
              s.rtcs[d := if r.backlog > 0 then r.(backlog := r.backlog - 1) else r.(waiting := true, thread := s.cpu)]
            case RtcClose(d) => s.rtcs - {d}
            case RtcTick(d) =>
              var r := s.rtcs[d];
              s.rtcs[d := if r.waiting then r.(waiting := false) else r.(backlog := r.backlog + 1)]
            case Halt => if s.procs[s.cpu].execParent.Some? then CloseAll(s.rtcs, s.cpu) else s.rtcs
            case _ => s.rtcs
  {
    hide Decide;
    hide IndexOf;
    hide CloseAll;
    hide WellFormed;
    DecideTouchesQueueOnly();
  }

  // Which clock devices are open after a step, who waits for them, and that a
  // tick that finds no reader is kept until one comes.
  lemma ClocksAreRight(s: State, e: Event, s': State, d: nat)
    requires Inv(s) && Next(s, e, s')
    ensures var halts := e.Halt? && s.procs[s.cpu].execParent.Some?;
            d in s'.rtcs <==>
              e == Event.RtcOpen(d)
              || (d in s.rtcs && e != Event.RtcClose(d) && !(halts && s.rtcs[d].opener == s.cpu))
    ensures e == Event.RtcOpen(d) ==> s'.rtcs[d] == Rtc(s.cpu, false, s.cpu, 0)
    ensures d in s.rtcs && d in s'.rtcs ==>
              var was, now := s.rtcs[d], s'.rtcs[d];
              && now.opener == was.opener
              && now.backlog + (if e == Event.RtcRead(d) && was.backlog > 0 then 1 else 0)
                 == was.backlog + (if e == Event.RtcTick(d) && !was.waiting then 1 else 0)
              && (now.waiting <==> if e == Event.RtcRead(d) && was.backlog == 0 then true
                                   else was.waiting && e != Event.RtcTick(d))
              && (now.waiting ==> now.thread == now.opener)
  {
    hide Step;
    hide WorldInv;
    var w :| InvWith(s, w);
    if d in s.rtcs {
      RtcFacts(s, w, d);
    }
    ClocksAfter(s, e);
    hide WellFormed;
    hide QueueInv;
    hide SwitchInv;
  }

  lemma RtcFacts(s: State, w: Witness, d: nat)
    requires InvWith(s, w) && d in s.rtcs
    ensures s.rtcs[d].waiting ==> s.rtcs[d].thread == s.rtcs[d].opener
    ensures InUserMode(s) && s.rtcs[d].opener == s.cpu ==> !s.rtcs[d].waiting
  {
    assert RtcAt(Tables(s), w, d);
    if InUserMode(s) {
      assert ProcAt(Tables(s), w, s.cpu);
    }
  }

  // Nobody waits for nothing: a waiting thread has a live exec child, or owns
  // the terminal it reads from, or has opened the clock device it reads from;
  // exactly one of these, and a runnable thread none.
  ghost predicate WaitsForTerm(s: State, p: Pid) {
    exists t :: t in s.terms && s.terms[t] == Terminal(p, true)
  }

  ghost predicate WaitsForRtc(s: State, p: Pid) {
    exists d :: d in s.rtcs && s.rtcs[d].waiting && s.rtcs[d].thread == p
  }

  lemma NoLostWakeUps(states: seq<State>, events: seq<Event>, i: nat, p: Pid)
    requires FromBoot(states, events) && i < |states| && p in states[i].procs
    ensures var s := states[i];
            && (s.procs[p].runState == Waiting <==> HasLiveChild(s, p) || WaitsForTerm(s, p) || WaitsForRtc(s, p))
            && !(HasLiveChild(s, p) && WaitsForTerm(s, p))
            && !(HasLiveChild(s, p) && WaitsForRtc(s, p))
            && !(WaitsForTerm(s, p) && WaitsForRtc(s, p))
  {
    var s := states[i];
    BootRunInv(states, events, i);
    var w :| InvWith(s, w);
    ReasonIsReal(s, w, p);
  }

  lemma ReasonIsReal(s: State, w: Witness, p: Pid)
    requires InvWith(s, w) && p in s.procs
    ensures HasLiveChild(s, p) <==> w.Why(p).OnChild?
    ensures WaitsForTerm(s, p) <==> w.Why(p).OnTerm?
    ensures WaitsForRtc(s, p) <==> w.Why(p).OnRtc?
    ensures s.procs[p].runState == Waiting <==> w.Why(p) != NoReason
  {
    var v := Tables(s);
    assert ProcAt(v, w, p);
    if HasLiveChild(s, p) {
      var c :| c in s.procs && s.procs[c].execParent == Some(p);
      assert ProcAt(v, w, c);
    }
    if WaitsForTerm(s, p) {
      var t :| t in s.terms && s.terms[t] == Terminal(p, true);
      assert TermAt(v, w, t);
    }
    if WaitsForRtc(s, p) {
      var d :| d in s.rtcs && s.rtcs[d].waiting && s.rtcs[d].thread == p;
      assert RtcAt(v, w, d);
    }
    match w.Why(p)
    case OnRtc(d) => assert RtcAt(v, w, d);
    case _ =>
  }

  // In every run a system call of the thread on the CPU finds its terminal
  // free or its own, so a read is never refused.
  lemma ReadsAreNeverRefused(states: seq<State>, events: seq<Event>, i: nat)
    requires FromBoot(states, events) && i < |states|
    requires InUserMode(states[i]) && states[i].procs[states[i].cpu].currTerm.Some?
    ensures CanBeOwnedBy(states[i], states[i].procs[states[i].cpu].currTerm, states[i].cpu)
  {
    BootRunInv(states, events, i);
    var w :| InvWith(states[i], w);
    TerminalIsFree(states[i], w);
  }
}
