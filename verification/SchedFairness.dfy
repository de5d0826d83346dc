// Bounded waiting.  A thread that stays runnable is chosen after a bounded
// number of decisions, even if other threads halt in between and turn the
// queue behind its back.
module SchedFairness {
  import opened Common
  import opened SchedState
  import opened SchedInvariant
  import opened SchedSteps
  import opened SchedTheorems

  // ----- Places in the queue -----

  lemma IndexIs(q: seq<Pid>, p: Pid, i: nat)
    requires NoDuplicates(q) && i < |q| && q[i] == p
    ensures IndexOf(q, p) == i
  {
  }

  // How many threads can come before t if the thread c halts: those in front
  // of t, and those behind c when c itself is behind t.
  function Ahead(q: seq<Pid>, c: Pid, t: Pid): (n: nat)
    requires t in q
  {
    var i := IndexOf(q, t);
    if c in q && IndexOf(q, c) > i then i + (|q| - 1 - IndexOf(q, c)) else i
  }

  // Turning the queue by k places, without t among them, brings t k places
  // forward and lets nobody in front of it.
  lemma RotatedAhead(q: seq<Pid>, k: nat, c: Pid, t: Pid)
    requires NoDuplicates(q) && t in q && k <= IndexOf(q, t)
    ensures t in Rotated(q, k) && IndexOf(Rotated(q, k), t) == IndexOf(q, t) - k
    ensures Ahead(Rotated(q, k), c, t) <= Ahead(q, c, t)
  {
    var r, i := Rotated(q, k), IndexOf(q, t);
    RotatedMembers(q, k);
    IndexIs(r, t, i - k);
    if c in q {
      var a := IndexOf(q, c);
      IndexIs(r, c, if a >= k then a - k else |q| - k + a);
    }
  }

  // A thread that joins at the back is behind t.
  lemma AppendedIndex(q: seq<Pid>, p: Pid, t: Pid)
    requires t in q
    ensures t in q + [p] && IndexOf(q + [p], t) == IndexOf(q, t)
  {
    if q[0] != t {
      assert (q + [p])[1..] == q[1..] + [p];
      AppendedIndex(q[1..], p, t);
    }
  }

  // After c has left by way of the front, t has Ahead threads before it.
  lemma RemovedIndex(q: seq<Pid>, c: Pid, t: Pid)
    requires NoDuplicates(q) && t in q && c in q && c != t
    ensures var r := q[IndexOf(q, c) + 1..] + q[..IndexOf(q, c)];
            t in r && IndexOf(r, t) <= Ahead(q, c, t)
  {
    var i, a := IndexOf(q, t), IndexOf(q, c);
    var r := q[a + 1..] + q[..a];
    RemoveAt(q, a);
    IndexIs(r, t, if i > a then i - a - 1 else |q| - a - 1 + i);
  }

  // ----- The potential of a waiting thread -----

  function Triangle(n: nat): nat {
    if n == 0 then 0 else n + Triangle(n - 1)
  }

  lemma TriangleGrows(m: nat, n: nat)
    requires m <= n
    ensures Triangle(m) <= Triangle(n)
    ensures m < n ==> Triangle(m) + m < Triangle(n)
  {
    if m < n {
      TriangleGrows(m, n - 1);
    }
  }

  // The most threads that can be in front of t from now on: a thread on the
  // CPU that waits for a child cannot halt before another dispatch.
  ghost function Level(s: State, t: Pid): nat
    requires t in s.rrQueue
  {
    if s.cpu == t || HasLiveChild(s, s.cpu) then IndexOf(s.rrQueue, t) else Ahead(s.rrQueue, s.cpu, t)
  }

  ghost function Potential(s: State, t: Pid): nat
    requires t in s.rrQueue
  {
    Triangle(Level(s, t)) + IndexOf(s.rrQueue, t)
  }

  lemma PotentialBound(s: State, t: Pid)
    requires QueueInv(s) && t in s.rrQueue
    ensures Potential(s, t) <= Triangle(|s.rrQueue|)
  {
    var i := IndexOf(s.rrQueue, t);
    if s.cpu in s.rrQueue {
      IndexIs(s.rrQueue, s.cpu, IndexOf(s.rrQueue, s.cpu));
    }
    assert Level(s, t) < |s.rrQueue|;
    TriangleGrows(Level(s, t), |s.rrQueue| - 1);
  }

  // ----- One decision -----

  lemma QueueAdvances(q: seq<Pid>, j: nat, t: Pid)
    requires NoDuplicates(q) && t in q && j < IndexOf(q, t)
    ensures var r := Rotated(q, j + 1);
            && t in r && IndexOf(r, t) < IndexOf(q, t)
            && forall c :: Ahead(r, c, t) <= Ahead(q, c, t)
  {
    RotatedAhead(q, j + 1, t, t);
    forall c ensures Ahead(Rotated(q, j + 1), c, t) <= Ahead(q, c, t) {
      RotatedAhead(q, j + 1, c, t);
    }
  }

  // A decision chooses t, or brings t forward.
  lemma DecideAdvances(s: State, t: Pid)
    requires QueueInv(s) && Runnable(s, t)
    ensures t in s.rrQueue && t in Decide(s).rrQueue
    ensures Decide(s).wantToSwitchTo != t ==>
              && IndexOf(Decide(s).rrQueue, t) < IndexOf(s.rrQueue, t)
              && forall c :: Ahead(Decide(s).rrQueue, c, t) <= Ahead(s.rrQueue, c, t)
  {
    hide NoDuplicates;
    hide PidsBelow;
    hide Ahead;
    hide Rotated;
    hide IndexOf;
    hide FirstRunning;
    var q, j := s.rrQueue, FirstRunning(s.rrQueue, s.procs);
    assert t in q;
    hide Members;
    FirstIsNotBehind(q, s.procs, t);
    RotatedMembers(q, j + 1);
    if j < IndexOf(q, t) {
      QueueAdvances(q, j, t);
    }
  }

  // ----- One step -----

  // Whether a step makes a scheduling decision.
  ghost predicate Decides(s: State, e: Event) {
    match e
    case Timer => true
    case Exec(executable) => executable
    case TermRead(enough) => s.cpu in s.procs && CanBeOwnedBy(s, s.procs[s.cpu].currTerm, s.cpu) && !enough
    case RtcRead(d) => d in s.rtcs && s.rtcs[d].backlog == 0
    case Halt => s.cpu in s.procs && s.procs[s.cpu].execParent.Some?
    case _ => false
  }

  // The part of a state the potential looks at is the same.
  ghost predicate SamePlaces(s: State, s': State) {
    && s'.rrQueue == s.rrQueue && s'.cpu == s.cpu
    && (HasLiveChild(s', s.cpu) <==> HasLiveChild(s, s.cpu))
  }

  lemma SameParents(s: State, s': State)
    requires s'.procs.Keys == s.procs.Keys
    requires forall p :: p in s.procs ==> p in s'.procs && s'.procs[p].execParent == s.procs[p].execParent
    ensures HasLiveChild(s', s.cpu) <==> HasLiveChild(s, s.cpu)
  {
    if HasLiveChild(s', s.cpu) {
      var c :| c in s'.procs && s'.procs[c].execParent == Some(s.cpu);
      assert c in s'.procs.Keys;
    }
  }

  lemma SamePlacesSamePotential(s: State, s': State, t: Pid)
    requires t in s.rrQueue && SamePlaces(s, s')
    ensures Potential(s', t) == Potential(s, t)
  {
  }

  lemma PotentialFalls(s: State, d: State, t: Pid)
    requires t in s.rrQueue && t in d.rrQueue
    requires Level(d, t) == IndexOf(d.rrQueue, t) < Level(s, t)
    ensures Potential(d, t) < Potential(s, t)
  {
    TriangleGrows(Level(d, t), Level(s, t));
  }

  lemma AheadOfAbsent(s: State, t: Pid)
    requires t in s.rrQueue && s.cpu !in s.rrQueue
    ensures Level(s, t) == IndexOf(s.rrQueue, t)
  {
  }

  // A decision taken after the tables changed without moving anybody.
  lemma DecideLowersPotential(s: State, s1: State, t: Pid)
    requires QueueInv(s) && QueueInv(s1) && t in s.rrQueue && Runnable(s1, t)
    requires SamePlaces(s, s1)
    ensures t in Decide(s1).rrQueue
    ensures Decide(s1).wantToSwitchTo != t ==> Potential(Decide(s1), t) < Potential(s, t)
  {
    hide NoDuplicates;
    hide Members;
    hide PidsBelow;
    hide FirstRunning;
    hide Rotated;
    DecideAdvances(s1, t);
    var d := Decide(s1);
    if d.wantToSwitchTo != t {
      SameParents(s1, d);
      hide QueueInv;
      hide Decide;
      PotentialFallsWithIndex(s, d, t);
    }
  }

  // After exec, before its decision: the new child is at the back, and the
  // caller cannot halt before it.
  lemma ExecMid(s: State, w: Witness, t: Pid) returns (s3: State)
    requires InvWith(s, w) && InUserMode(s) && t in s.rrQueue && t != s.cpu && Runnable(s, t)
    ensures AfterExec(s) == Decide(s3)
    ensures QueueInv(s3) && Runnable(s3, t) && t in s3.rrQueue
    ensures HasLiveChild(s3, s3.cpu)
    ensures IndexOf(s3.rrQueue, t) == IndexOf(s.rrQueue, t)
  {
    var w3;
    s3, w3 := ExecWorld(s, w);
    hide QueueInv;
    hide WorldInv;
    assert s3.procs[s.nextNewProcess].execParent == Some(s3.cpu);
    AppendedIndex(s.rrQueue, s.nextNewProcess, t);
  }

  lemma ExecLowersPotential(s: State, w: Witness, t: Pid)
    requires InvWith(s, w) && InUserMode(s) && t in s.rrQueue && t != s.cpu && Runnable(s, t)
    ensures t in AfterExec(s).rrQueue
    ensures AfterExec(s).wantToSwitchTo != t ==> Potential(AfterExec(s), t) < Potential(s, t)
  {
    var s3 := ExecMid(s, w, t);
    var d := Decide(s3);
    assert d.procs == s3.procs && d.cpu == s3.cpu;
    assert HasLiveChild(d, d.cpu);
    DecideAdvances(s3, t);
    hide *;
    if d.wantToSwitchTo != t {
      ChildMeansIndex(d, t);
      LevelIsAtLeastIndex(s, t);
      PotentialFallsWithIndex(s, d, t);
    }
  }

  lemma ChildMeansIndex(s: State, t: Pid)
    requires t in s.rrQueue && HasLiveChild(s, s.cpu)
    ensures Level(s, t) == IndexOf(s.rrQueue, t)
  {
  }

  lemma LevelIsAtLeastIndex(s: State, t: Pid)
    requires t in s.rrQueue
    ensures Level(s, t) >= IndexOf(s.rrQueue, t)
  {
  }

  lemma PotentialFallsWithIndex(s: State, d: State, t: Pid)
    requires t in s.rrQueue && t in d.rrQueue
    requires Level(d, t) <= Level(s, t) && IndexOf(d.rrQueue, t) < IndexOf(s.rrQueue, t)
    ensures Potential(d, t) < Potential(s, t)
  {
    TriangleGrows(Level(d, t), Level(s, t));
  }

  // After a halt, before its decision: the thread is still there, with at most
  // as many threads before it as its level said.
  lemma HaltMid(s: State, w: Witness, t: Pid) returns (s2: State)
    requires InvWith(s, w) && InUserMode(s) && s.procs[s.cpu].execParent.Some?
    requires t in s.rrQueue && t != s.cpu && Runnable(s, t)
    ensures WellFormed(s) && AfterHalt(s) == Decide(s2)
    ensures QueueInv(s2) && Runnable(s2, t) && t in s2.rrQueue
    ensures s2.cpu == s.cpu && s2.cpu !in s2.procs
    ensures IndexOf(s2.rrQueue, t) <= Level(s, t)
  {
    var w2;
    s2, w2 := HaltWorld(s, w);
    assert !HasLiveChild(s, s.cpu) by {
      ReasonIsReal(s, w, s.cpu);
    }
    RemovedIndex(s.rrQueue, s.cpu, t);
  }

  lemma HaltLowersPotential(s: State, w: Witness, t: Pid)
    requires InvWith(s, w) && InUserMode(s) && s.procs[s.cpu].execParent.Some?
    requires t in s.rrQueue && t != s.cpu && Runnable(s, t)
    ensures WellFormed(s) && t in AfterHalt(s).rrQueue
    ensures AfterHalt(s).wantToSwitchTo != t ==> Potential(AfterHalt(s), t) < Potential(s, t)
  {
    var s2 := HaltMid(s, w, t);
    var d := Decide(s2);
    DecideKeeps(s2);
    assert d.cpu == s.cpu && s.cpu !in d.rrQueue;
    DecideAdvances(s2, t);
    hide *;
    if d.wantToSwitchTo != t {
      AheadOfAbsent(d, t);
      PotentialFalls(s, d, t);
    }
  }

  // Any other decision is taken after the tables changed without moving anybody.
  lemma DecisionMid(s: State, w: Witness, e: Event) returns (s1: State)
    requires InvWith(s, w) && Enabled(s, e) && WellFormed(s)
    requires Decides(s, e) && (e.Timer? || e.TermRead? || e.RtcRead?)
    ensures Step(s, e) == Decide(s1) && QueueInv(s1) && SamePlaces(s, s1)
    ensures s1.procs == Decide(s1).procs
  {
    s1 := s;
    match e
    case TermRead(enough) =>
      TerminalIsFree(s, w);
      var term := s.procs[s.cpu].currTerm.value;
      s1 := SetRunState(s.(terms := s.terms[term := Terminal(s.cpu, true)]), s.cpu, Waiting);
      var w1 := TermReadWorld(s, w, term, s1);
      SameParents(s, s1);
    case RtcRead(d) =>
      s1 := SetRunState(s.(rtcs := s.rtcs[d := s.rtcs[d].(waiting := true, thread := s.cpu)]), s.cpu, Waiting);
      var w1 := RtcWaitWorld(s, w, d, s1);
      SameParents(s, s1);
    case _ =>
  }

  // What makes no decision moves nobody.
  lemma OthersKeepPlaces(s: State, e: Event)
    requires WellFormed(s) && Enabled(s, e) && !Decides(s, e) && !e.Dispatch?
    ensures SamePlaces(s, Step(s, e))
  {
    SameParents(s, Step(s, e));
  }

  // Decisions that do not choose t lower its potential; nothing raises it.
  lemma StepLowersPotential(s: State, e: Event, s': State, t: Pid)
    requires Inv(s) && Next(s, e, s') && Runnable(s, t) && Runnable(s', t)
    ensures t in s.rrQueue && t in s'.rrQueue
    ensures Decides(s, e) ==> s'.wantToSwitchTo == t || Potential(s', t) < Potential(s, t)
    ensures !Decides(s, e) ==> Potential(s', t) <= Potential(s, t)
  {
    NextKeepsInv(s, e, s');
    var w :| InvWith(s, w);
    hide WorldInv;
    hide NoDuplicates;
    hide Members;
    hide WellFormed;
    hide AfterExec;
    hide AfterHalt;
    hide AfterTermRead;
    hide AfterRtcRead;
    hide Decide;
    hide Potential;
    hide SamePlaces;
    if e.Dispatch? {
      DispatchKeepsPotential(s, e.nested, t);
    } else if !Decides(s, e) {
      OthersKeepPlaces(s, e);
      SamePlacesSamePotential(s, s', t);
    } else if e.Exec? {
      assert t != s.cpu by { ExecEffect(s, w); }
      ExecLowersPotential(s, w, t);
    } else if e.Halt? {
      assert t != s.cpu by { HaltEffect(s, w); }
      HaltLowersPotential(s, w, t);
    } else {
      var s1 := DecisionMid(s, w, e);
      DecideLowersPotential(s, s1, t);
    }
  }

  lemma DispatchKeepsPotential(s: State, nested: bool, t: Pid)
    requires QueueInv(s) && SwitchInv(s) && t in s.rrQueue
    ensures Potential(AfterDispatch(s, nested), t) <= Potential(s, t)
  {
    var s' := AfterDispatch(s, nested);
    if s' != s {
      IndexIs(s.rrQueue, s'.cpu, |s.rrQueue| - 1);
      assert Level(s', t) == IndexOf(s.rrQueue, t) <= Level(s, t);
      TriangleGrows(Level(s', t), Level(s, t));
    } else {
      assert SamePlaces(s, s');
    }
  }

  // ----- Whole runs -----

  ghost function Decisions(states: seq<State>, events: seq<Event>, a: nat, b: nat): nat
    requires a <= b <= |events| && |states| == |events| + 1
  {
    if a == b then 0 else Decisions(states, events, a, b - 1) + (if Decides(states[b - 1], events[b - 1]) then 1 else 0)
  }

  ghost predicate ChosenAt(states: seq<State>, events: seq<Event>, t: Pid, i: nat)
    requires i < |events| && |states| == |events| + 1
  {
    Decides(states[i], events[i]) && states[i + 1].wantToSwitchTo == t
  }

  lemma RunnableIsQueued(s: State, t: Pid)
    requires Inv(s) && Runnable(s, t)
    ensures t in s.rrQueue
  {
    var w :| InvWith(s, w);
    hide NoDuplicates;
    hide PidsBelow;
    hide WorldInv;
  }

  lemma {:induction false} PotentialPaysDecisions(states: seq<State>, events: seq<Event>, t: Pid, a: nat, b: nat)
    requires IsRun(states, events) && Inv(states[0]) && a <= b <= |events|
    requires forall i :: a <= i <= b ==> Runnable(states[i], t)
    requires forall i :: a <= i < b ==> !ChosenAt(states, events, t, i)
    ensures t in states[a].rrQueue && t in states[b].rrQueue
    ensures Decisions(states, events, a, b) + Potential(states[b], t) <= Potential(states[a], t)
  {
    hide Step;
    hide Next;
    hide Inv;
    hide Decides;
    hide Runnable;
    hide WellFormed;
    hide Potential;
    RunKeepsInv(states, events, a);
    RunnableIsQueued(states[a], t);
    if a < b {
      PotentialPaysDecisions(states, events, t, a, b - 1);
      RunKeepsInv(states, events, b - 1);
      assert Next(states[b - 1], events[b - 1], states[b]);
      StepLowersPotential(states[b - 1], events[b - 1], states[b], t);
      assert !ChosenAt(states, events, t, b - 1);
    }
  }

  // Over any stretch of a run from boot in which t stays runnable, more
  // decisions than the potential of t, and so more than the triangle of the
  // queue's length, choose t: whatever blocks, wakes, executes or halts.
  lemma BoundedWaiting(states: seq<State>, events: seq<Event>, t: Pid, a: nat, b: nat)
    requires FromBoot(states, events) && a <= b <= |events|
    requires forall i :: a <= i <= b ==> Runnable(states[i], t)
    requires Decisions(states, events, a, b) > Triangle(|states[a].rrQueue|)
    ensures exists i :: a <= i < b && ChosenAt(states, events, t, i)
  {
    BootRunInv(states, events, 0);
    if forall i :: a <= i < b ==> !ChosenAt(states, events, t, i) {
      PotentialPaysDecisions(states, events, t, a, b);
      BootRunInv(states, events, a);
      PotentialBound(states[a], t);
      assert false;
    }
  }

  // ----- Without halts: the length of the queue is enough -----

  lemma StepAdvances(s: State, e: Event, s': State, t: Pid)
    requires Inv(s) && Next(s, e, s') && Runnable(s, t) && Runnable(s', t) && !e.Halt?
    ensures t in s.rrQueue && t in s'.rrQueue
    ensures Decides(s, e) ==> s'.wantToSwitchTo == t || IndexOf(s'.rrQueue, t) < IndexOf(s.rrQueue, t)
    ensures !Decides(s, e) ==> s'.rrQueue == s.rrQueue
  {
    NextKeepsInv(s, e, s');
    var w :| InvWith(s, w);
    hide WorldInv;
    hide NoDuplicates;
    hide Members;
    hide WellFormed;
    hide AfterExec;
    hide AfterTermRead;
    hide AfterRtcRead;
    hide Ahead;
    if !Decides(s, e) {
      if !e.Dispatch? {
        OthersKeepPlaces(s, e);
      }
    } else if e.Exec? {
      var s3, w3 := ExecWorld(s, w);
      AppendedIndex(s.rrQueue, s.nextNewProcess, t);
      DecideKeeps(s3);
      DecideAdvances(s3, t);
    } else {
      var s1 := DecisionMid(s, w, e);
      DecideAdvances(s1, t);
    }
  }

  lemma {:induction false} IndexPaysDecisions(states: seq<State>, events: seq<Event>, t: Pid, a: nat, b: nat)
    requires IsRun(states, events) && Inv(states[0]) && a <= b <= |events|
    requires forall i :: a <= i <= b ==> Runnable(states[i], t)
    requires forall i :: a <= i < b ==> !events[i].Halt? && !ChosenAt(states, events, t, i)
    ensures t in states[a].rrQueue && t in states[b].rrQueue
    ensures Decisions(states, events, a, b) + IndexOf(states[b].rrQueue, t) <= IndexOf(states[a].rrQueue, t)
  {
    hide Step;
    hide Next;
    hide Inv;
    hide Decides;
    hide Runnable;
    hide WellFormed;
    hide IndexOf;
    RunKeepsInv(states, events, a);
    RunnableIsQueued(states[a], t);
    if a < b {
      IndexPaysDecisions(states, events, t, a, b - 1);
      RunKeepsInv(states, events, b - 1);
      assert Next(states[b - 1], events[b - 1], states[b]);
      StepAdvances(states[b - 1], events[b - 1], states[b], t);
      assert !ChosenAt(states, events, t, b - 1);
    }
  }

  // Counted from the last halt, as many decisions as the queue is long are
  // enough to choose a thread that stays runnable.
  lemma RoundRobinSinceLastHalt(states: seq<State>, events: seq<Event>, t: Pid, a: nat, b: nat)
    requires FromBoot(states, events) && a <= b <= |events|
    requires forall i :: a <= i <= b ==> Runnable(states[i], t)
    requires forall i :: a <= i < b ==> !events[i].Halt?
    requires Decisions(states, events, a, b) >= |states[a].rrQueue|
    ensures exists i :: a <= i < b && ChosenAt(states, events, t, i)
  {
    BootRunInv(states, events, 0);
    if forall i :: a <= i < b ==> !ChosenAt(states, events, t, i) {
      IndexPaysDecisions(states, events, t, a, b);
      assert false;
    }
  }

  // ----- From being chosen to running -----

  // Between the two steps nothing is decided and no outermost interrupt ends.
  ghost predicate Quiet(states: seq<State>, events: seq<Event>, i: nat, j: nat)
    requires |states| == |events| + 1
  {
    forall k :: i < k < j && k < |events| ==> !Decides(states[k], events[k]) && events[k] != Event.Dispatch(false)
  }

  lemma QuietKeepsSwitch(s: State, e: Event, s': State)
    requires Next(s, e, s') && !Decides(s, e) && e != Event.Dispatch(false)
    ensures s'.wantToSwitchTo == s.wantToSwitchTo
  {
    hide WellFormed;
    hide FirstRunning;
    hide IndexOf;
    hide CloseAll;
  }

  lemma {:induction false} ChosenStaysPending(states: seq<State>, events: seq<Event>, t: Pid, i: nat, j: nat)
    requires IsRun(states, events) && i < j <= |events| && ChosenAt(states, events, t, i)
    requires Quiet(states, events, i, j)
    ensures states[j].wantToSwitchTo == t
  {
    hide Step;
    hide WellFormed;
    hide Enabled;
    hide Decides;
    if i + 1 < j {
      ChosenStaysPending(states, events, t, i, j - 1);
      assert Next(states[j - 1], events[j - 1], states[j]);
      QuietKeepsSwitch(states[j - 1], events[j - 1], states[j]);
    }
  }

  // A thread that was chosen is on the CPU after the next outermost dispatch,
  // if no other decision comes in between.
  lemma ChosenRuns(states: seq<State>, events: seq<Event>, t: Pid, i: nat, j: nat)
    requires FromBoot(states, events) && i < j < |events| && ChosenAt(states, events, t, i)
    requires Quiet(states, events, i, j) && events[j] == Event.Dispatch(false)
    ensures states[j + 1].cpu == t && Runnable(states[j + 1], t)
  {
    ChosenStaysPending(states, events, t, i, j);
    BootRunInv(states, events, j);
    assert Next(states[j], events[j], states[j + 1]);
    DispatchIsSafe(states, events, j + 1);
    DispatchSwitches(states[j], false, states[j + 1]);
  }

  // Each decision from a to b is followed, before c and before the next
  // decision, by the end of an outermost interrupt.
  ghost predicate Prompt(states: seq<State>, events: seq<Event>, a: nat, b: nat, c: nat)
    requires |states| == |events| + 1 && b <= |events|
  {
    forall i :: a <= i < b && Decides(states[i], events[i]) ==> DispatchedAfter(states, events, i, c)
  }

  ghost predicate DispatchedAfter(states: seq<State>, events: seq<Event>, i: nat, c: nat)
    requires |states| == |events| + 1
  {
    exists j :: i < j < c && j < |events| && events[j] == Event.Dispatch(false) && Quiet(states, events, i, j)
  }

  // So a thread that stays runnable gets the CPU within the bound.
  lemma BoundedService(states: seq<State>, events: seq<Event>, t: Pid, a: nat, b: nat, c: nat)
    requires FromBoot(states, events) && a <= b <= c <= |events|
    requires forall i :: a <= i <= b ==> Runnable(states[i], t)
    requires Decisions(states, events, a, b) > Triangle(|states[a].rrQueue|)
    requires Prompt(states, events, a, b, c)
    ensures exists k :: a < k <= c && states[k].cpu == t
  {
    BoundedWaiting(states, events, t, a, b);
    var i :| a <= i < b && ChosenAt(states, events, t, i);
    assert DispatchedAfter(states, events, i, c);
    var j :| i < j < c && j < |events| && events[j] == Event.Dispatch(false) && Quiet(states, events, i, j);
    ChosenRuns(states, events, t, i, j);
    assert a < j + 1 <= c && states[j + 1].cpu == t;
  }
}
