// Every kernel entry keeps the invariant, so every run does.
module SchedSteps {
  import opened Common
  import opened SchedState
  import opened SchedInvariant

  // ----- What each entry does to the queue -----

  // Changing the entry of a live thread changes nothing about the queue.
  lemma SameKeys(q: seq<Pid>, procs: map<Pid, Process>, procs': map<Pid, Process>, next: Pid)
    requires Members(q, procs) && PidsBelow(procs, next) && procs'.Keys == procs.Keys
    ensures Members(q, procs') && PidsBelow(procs', next)
  {
    forall p ensures p in q <==> p in procs' {
      assert p in procs' <==> p in procs'.Keys;
    }
    forall p | p in procs' ensures p < next {
      assert p in procs.Keys;
    }
  }

  lemma QueueWith(q: seq<Pid>, procs: map<Pid, Process>, p: Pid, procs': map<Pid, Process>)
    requires NoDuplicates(q) && Members(q, procs) && PidsBelow(procs, p) && procs'.Keys == procs.Keys + {p}
    ensures NoDuplicates(q + [p]) && Members(q + [p], procs') && PidsBelow(procs', p + 1)
  {
    assert p !in q;
    forall x ensures x in q + [p] <==> x in procs' {
      assert x in procs' <==> x in procs'.Keys;
    }
    forall x | x in procs' ensures x < p + 1 {
      assert x in procs'.Keys;
    }
  }

  lemma RemoveAt(q: seq<Pid>, i: nat)
    requires i < |q| && NoDuplicates(q)
    ensures var r := q[i + 1..] + q[..i];
            NoDuplicates(r) && q[i] !in r && forall x :: x in q && x != q[i] ==> x in r
    ensures forall x :: x in q[i + 1..] + q[..i] ==> x in q
  {
    var r := q[i + 1..] + q[..i];
    var n := |q| - i - 1;
    forall k | 0 <= k < |r| ensures r[k] == q[if k < n then k + i + 1 else k - n] {}
    forall x | x in q && x != q[i] ensures x in r {
      var k :| 0 <= k < |q| && q[k] == x;
      assert r[if k > i then k - i - 1 else k + n] == x;
    }
  }

  lemma QueueWithout(q: seq<Pid>, procs: map<Pid, Process>, p: Pid, procs': map<Pid, Process>, next: Pid)
    requires p in q && NoDuplicates(q) && Members(q, procs) && PidsBelow(procs, next)
    requires procs'.Keys == procs.Keys - {p}
    ensures var i := IndexOf(q, p);
            var r := q[i + 1..] + q[..i];
            NoDuplicates(r) && Members(r, procs') && PidsBelow(procs', next)
  {
    hide NoDuplicates;
    hide IndexOf;
    RemoveAt(q, IndexOf(q, p));
    forall x ensures x in procs' <==> x in procs && x != p {
      assert x in procs' <==> x in procs'.Keys;
    }
  }

  lemma WakingKeepsQueue(s: State, p: Pid, s1: State)
    requires QueueInv(s) && SwitchInv(s) && p in s.procs
    requires s1 == s.(procs := s.procs[p := s.procs[p].(runState := Running)], terms := s1.terms, rtcs := s1.rtcs)
    ensures QueueInv(s1) && SwitchInv(s1)
  {
    hide NoDuplicates;
    hide Members;
    hide PidsBelow;
    SameKeys(s.rrQueue, s.procs, s1.procs, s.nextNewProcess);
  }

  // ----- What each entry does to the tables -----

  // On every reachable state the terminal of the thread on the CPU is its own
  // or nobody's: a read is never refused.
  lemma TerminalIsFree(s: State, w: Witness)
    requires InvWith(s, w) && InUserMode(s) && s.procs[s.cpu].currTerm.Some?
    ensures var t := s.procs[s.cpu].currTerm.value;
            && t in s.terms && w.Tip(t) == s.cpu
            && (s.terms[t].owner == NOBODY || s.terms[t].owner == s.cpu)
            && !s.terms[t].waitingRead
  {
    var v, t := Tables(s), s.procs[s.cpu].currTerm.value;
    assert ProcAt(v, w, s.cpu);
    assert TermAt(v, w, t);
    if s.terms[t].owner != NOBODY {
      assert ProcAt(v, w, s.terms[t].owner);
    }
  }

  // Exec: the caller waits for its new child, which takes its place at the end
  // of the chain and, the terminal being free or the caller's, the terminal.
  lemma ChainGrows(v: World, w: Witness, cpu: Pid, child: Pid, v': World) returns (w': Witness)
    requires WorldInv(v, w) && cpu in v.procs && w.Why(cpu) == NoReason && cpu != IDLE
    requires child !in v.procs && cpu < child && child != IDLE
    requires v'.procs == v.procs[cpu := v.procs[cpu].(runState := Waiting)]
                                [child := Process(Running, Some(cpu), v.procs[cpu].currTerm)]
    requires v'.rtcs == v.rtcs
    requires v'.terms == (match v.procs[cpu].currTerm
                          case None => v.terms
                          case Some(t) => v.terms[t := Terminal(child, false)])
    ensures WorldInv(v', w') && w'.Why(cpu) == OnChild(child)
    ensures v.procs[cpu].currTerm.Some? ==> w'.Tip(v.procs[cpu].currTerm.value) == child
  {
    var term := v.procs[cpu].currTerm;
    assert ProcAt(v, w, cpu);
    w' := Witness(w.why[cpu := OnChild(child)][child := NoReason],
                  if term.Some? then w.tips[term.value := child] else w.tips);
    forall p | p in v'.procs ensures ProcAt(v', w', p) {
      if p != child {
        assert ProcAt(v, w, p);
      }
    }
    forall t | t in v'.terms ensures TermAt(v', w', t) {
      if t in v.terms {
        assert TermAt(v, w, t);
      }
    }
    forall d | d in v'.rtcs ensures RtcAt(v', w', d) {
      assert RtcAt(v, w, d);
    }
  }

  lemma FreshPid(s: State)
    requires QueueInv(s) && s.cpu in s.procs
    ensures s.nextNewProcess !in s.procs && s.cpu < s.nextNewProcess && s.nextNewProcess != IDLE
  {
    hide NoDuplicates;
    hide Members;
  }

  // What exec makes of the queue and of each table.
  lemma ExecShape(s: State) returns (s3: State)
    requires s.cpu in s.procs && s.cpu < s.nextNewProcess
    requires s.procs[s.cpu].currTerm.Some? ==> CanBeOwnedBy(s, s.procs[s.cpu].currTerm, s.cpu)
    ensures AfterExec(s) == Decide(s3)
    ensures s3.procs == s.procs[s.cpu := s.procs[s.cpu].(runState := Waiting)]
                               [s.nextNewProcess := Process(Running, Some(s.cpu), s.procs[s.cpu].currTerm)]
    ensures s3.terms == match s.procs[s.cpu].currTerm
                        case None => s.terms
                        case Some(t) => s.terms[t := Terminal(s.nextNewProcess, false)]
    ensures s3 == s.(rrQueue := s.rrQueue + [s.nextNewProcess], procs := s3.procs, terms := s3.terms,
                     nextNewProcess := s.nextNewProcess + 1)
  {
    hide Decide;
    var cpu, child, term := s.cpu, s.nextNewProcess, s.procs[s.cpu].currTerm;
    var s1 := NewProcess(s, Some(cpu), term);
    var s2 := if CanBeOwnedBy(s1, term, cpu) then SetOwner(s1, term, child) else s1;
    s3 := SetRunState(AttachThread(s2, child, Running), cpu, Waiting);
    assert s3.procs == s.procs[cpu := s.procs[cpu].(runState := Waiting)][child := Process(Running, Some(cpu), term)];
  }

  lemma ExecWorld(s: State, w: Witness) returns (s3: State, w': Witness)
    requires InvWith(s, w) && InUserMode(s)
    ensures AfterExec(s) == Decide(s3)
    ensures s3.rrQueue == s.rrQueue + [s.nextNewProcess] && s3.cpu == s.cpu
    ensures QueueInv(s3) && WorldInv(Tables(s3), w')
    ensures s3.procs == s.procs[s.cpu := s.procs[s.cpu].(runState := Waiting)]
                               [s.nextNewProcess := Process(Running, Some(s.cpu), s.procs[s.cpu].currTerm)]
    ensures w'.Why(s.cpu) == OnChild(s.nextNewProcess)
  {
    hide NoDuplicates;
    hide Members;
    hide WorldInv;
    hide Decide;
    hide AfterExec;
    hide PidsBelow;
    var cpu, child := s.cpu, s.nextNewProcess;
    FreshPid(s);
    CallerAtEnd(s, w);
    hide CanBeOwnedBy;
    s3 := ExecShape(s);
    QueueWith(s.rrQueue, s.procs, child, s3.procs);
    w' := ChainGrows(Tables(s), w, cpu, child, Tables(s3));
  }

  lemma CallerAtEnd(s: State, w: Witness)
    requires InvWith(s, w) && InUserMode(s)
    ensures w.Why(s.cpu) == NoReason
    ensures var term := s.procs[s.cpu].currTerm; term.Some? ==> CanBeOwnedBy(s, term, s.cpu)
  {
    assert ProcAt(Tables(s), w, s.cpu);
    if s.procs[s.cpu].currTerm.Some? {
      TerminalIsFree(s, w);
    }
  }

  // A read that has to wait: the caller becomes the owner of its terminal, if
  // it was not, and the one reader waiting there.
  lemma TermReadWorld(s: State, w: Witness, term: nat, s1: State) returns (w': Witness)
    requires InvWith(s, w) && InUserMode(s)
    requires s.procs[s.cpu].currTerm == Some(term) && term in s.terms
    requires s1 == SetRunState(s.(terms := s.terms[term := Terminal(s.cpu, true)]), s.cpu, Waiting)
    ensures QueueInv(s1) && WorldInv(Tables(s1), w')
  {
    hide NoDuplicates;
    hide Members;
    hide PidsBelow;
    var v, v' := Tables(s), Tables(s1);
    SameKeys(s.rrQueue, s.procs, s1.procs, s.nextNewProcess);
    assert ProcAt(v, w, s.cpu);
    w' := w.(why := w.why[s.cpu := OnTerm(term)]);
    forall p | p in v'.procs ensures ProcAt(v', w', p) {
      assert ProcAt(v, w, p);
    }
    forall t | t in v'.terms ensures TermAt(v', w', t) {
      assert TermAt(v, w, t);
    }
    forall d | d in v'.rtcs ensures RtcAt(v', w', d) {
      assert RtcAt(v, w, d);
    }
  }

  // Changing only who owns the caller's terminal, with no reader waiting.
  lemma OwnerWorld(s: State, w: Witness, term: nat, owner: int, s1: State)
    requires InvWith(s, w) && InUserMode(s)
    requires s.procs[s.cpu].currTerm == Some(term) && (owner == NOBODY || owner == s.cpu)
    requires s1 == s.(terms := s.terms[term := Terminal(owner, false)])
    ensures InvWith(s1, w)
  {
    hide NoDuplicates;
    hide Members;
    hide PidsBelow;
    var v, v' := Tables(s), Tables(s1);
    TerminalIsFree(s, w);
    assert ProcAt(v, w, s.cpu);
    forall p | p in v'.procs ensures ProcAt(v', w, p) {
      assert ProcAt(v, w, p);
    }
    forall t | t in v'.terms ensures TermAt(v', w, t) {
      assert TermAt(v, w, t);
    }
    forall d | d in v'.rtcs ensures RtcAt(v', w, d) {
      assert RtcAt(v, w, d);
    }
  }

  lemma RtcWaitWorld(s: State, w: Witness, dev: nat, s1: State) returns (w': Witness)
    requires InvWith(s, w) && InUserMode(s) && dev in s.rtcs && s.rtcs[dev].opener == s.cpu
    requires s1 == SetRunState(
                     s.(rtcs := s.rtcs[dev := s.rtcs[dev].(waiting := true, thread := s.cpu)]), s.cpu, Waiting)
    ensures QueueInv(s1) && WorldInv(Tables(s1), w')
  {
    hide NoDuplicates;
    hide Members;
    hide PidsBelow;
    var v, v' := Tables(s), Tables(s1);
    SameKeys(s.rrQueue, s.procs, s1.procs, s.nextNewProcess);
    assert ProcAt(v, w, s.cpu);
    w' := w.(why := w.why[s.cpu := OnRtc(dev)]);
    forall p | p in v'.procs ensures ProcAt(v', w', p) {
      assert ProcAt(v, w, p);
    }
    forall t | t in v'.terms ensures TermAt(v', w', t) {
      assert TermAt(v, w, t);
    }
    forall d | d in v'.rtcs ensures RtcAt(v', w', d) {
      assert RtcAt(v, w, d);
    }
  }

  // Opening a device, counting a backlog, closing a device nobody waits for.
  lemma RtcTableWorld(s: State, w: Witness, s1: State)
    requires InvWith(s, w) && s1 == s.(rtcs := s1.rtcs)
    requires forall d :: d in s1.rtcs ==>
               if d in s.rtcs then s1.rtcs[d] == s.rtcs[d].(backlog := s1.rtcs[d].backlog)
               else !s1.rtcs[d].waiting && s1.rtcs[d].opener in s.procs && s1.rtcs[d].opener != IDLE
    requires forall d :: d in s.rtcs && s.rtcs[d].waiting ==> d in s1.rtcs
    ensures InvWith(s1, w)
  {
    hide NoDuplicates;
    hide Members;
    hide PidsBelow;
    var v, v' := Tables(s), Tables(s1);
    forall p | p in v'.procs ensures ProcAt(v', w, p) {
      assert ProcAt(v, w, p);
    }
    forall t | t in v'.terms ensures TermAt(v', w, t) {
      assert TermAt(v, w, t);
    }
    forall d | d in v'.rtcs ensures RtcAt(v', w, d) {
      if d in s.rtcs {
        assert RtcAt(v, w, d);
      }
    }
  }

  // Enter wakes the owner of the terminal, which was waiting for it.
  lemma EnterWorld(s: State, w: Witness, term: nat) returns (w': Witness)
    requires InvWith(s, w) && term in s.terms && s.terms[term].waitingRead
    ensures s.terms[term].owner >= 0 && s.terms[term].owner in s.procs
    ensures w.Why(s.terms[term].owner) == OnTerm(term)
    ensures InvWith(AfterEnterKey(s, term), w')
  {
    hide QueueInv;
    hide SwitchInv;
    var v, owner := Tables(s), s.terms[term].owner;
    assert TermAt(v, w, term);
    assert ProcAt(v, w, owner);
    var v' := Tables(AfterEnterKey(s, term));
    WakingKeepsQueue(s, owner, AfterEnterKey(s, term));
    w' := w.(why := w.why[owner := NoReason]);
    forall p | p in v'.procs ensures ProcAt(v', w', p) {
      assert ProcAt(v, w, p);
    }
    forall t | t in v'.terms ensures TermAt(v', w', t) {
      assert TermAt(v, w, t);
    }
    forall d | d in v'.rtcs ensures RtcAt(v', w', d) {
      assert RtcAt(v, w, d);
    }
  }

  // A tick wakes the thread waiting for this device.
  lemma TickWorld(s: State, w: Witness, dev: nat) returns (w': Witness)
    requires InvWith(s, w) && dev in s.rtcs && s.rtcs[dev].waiting
    ensures s.rtcs[dev].thread in s.procs && w.Why(s.rtcs[dev].thread) == OnRtc(dev)
    ensures InvWith(AfterRtcTick(s, dev), w')
  {
    hide QueueInv;
    hide SwitchInv;
    var v, p0 := Tables(s), s.rtcs[dev].thread;
    assert RtcAt(v, w, dev);
    assert ProcAt(v, w, p0);
    var v' := Tables(AfterRtcTick(s, dev));
    WakingKeepsQueue(s, p0, AfterRtcTick(s, dev));
    w' := w.(why := w.why[p0 := NoReason]);
    forall p | p in v'.procs ensures ProcAt(v', w', p) {
      assert ProcAt(v, w, p);
    }
    forall t | t in v'.terms ensures TermAt(v', w', t) {
      assert TermAt(v, w, t);
    }
    forall d | d in v'.rtcs ensures RtcAt(v', w', d) {
      assert RtcAt(v, w, d);
    }
  }

  // Halt: the parent was waiting for exactly this child and takes its place at
  // the end of the chain; nobody else is touched.
  lemma ChainShrinks(v: World, w: Witness, cpu: Pid, parent: Pid, v': World) returns (w': Witness)
    requires WorldInv(v, w) && cpu in v.procs && w.Why(cpu) == NoReason && cpu != IDLE
    requires v.procs[cpu].execParent == Some(parent) && parent in v.procs && parent != cpu
    requires v'.procs == (v.procs - {cpu})[parent := v.procs[parent].(runState := Running)]
    requires v'.rtcs == CloseAll(v.rtcs, cpu)
    requires v'.terms == (match v.procs[cpu].currTerm
                          case None => v.terms
                          case Some(t) => v.terms[t := Terminal(NOBODY, false)])
    ensures WorldInv(v', w')
    ensures v.procs[parent].runState == Waiting && w.Why(parent) == OnChild(cpu)
  {
    var term := v.procs[cpu].currTerm;
    assert ProcAt(v, w, cpu);
    assert ProcAt(v, w, parent);
    w' := Witness(w.why[parent := NoReason], if term.Some? then w.tips[term.value := parent] else w.tips);
    forall p | p in v'.procs ensures ProcAt(v', w', p) {
      ProcAfterHalt(v, w, cpu, parent, v', w', p);
    }
    forall t | t in v'.terms ensures TermAt(v', w', t) {
      assert TermAt(v, w, t);
    }
    forall d | d in v'.rtcs ensures RtcAt(v', w', d) {
      assert RtcAt(v, w, d);
    }
  }

  lemma ProcAfterHalt(v: World, w: Witness, cpu: Pid, parent: Pid, v': World, w': Witness, p: Pid)
    requires WorldInv(v, w) && cpu in v.procs && w.Why(cpu) == NoReason && cpu != IDLE
    requires v.procs[cpu].execParent == Some(parent) && parent in v.procs && parent != cpu
    requires v'.procs == (v.procs - {cpu})[parent := v.procs[parent].(runState := Running)]
    requires v'.rtcs == CloseAll(v.rtcs, cpu)
    requires v'.terms == (match v.procs[cpu].currTerm
                          case None => v.terms
                          case Some(t) => v.terms[t := Terminal(NOBODY, false)])
    requires w' == Witness(w.why[parent := NoReason],
                           match v.procs[cpu].currTerm case None => w.tips case Some(t) => w.tips[t := parent])
    requires p in v'.procs
    ensures ProcAt(v', w', p)
  {
    assert ProcAt(v, w, cpu);
    assert ProcAt(v, w, parent);
    assert ProcAt(v, w, p);
  }

  lemma HaltFacts(s: State, w: Witness)
    requires InvWith(s, w) && InUserMode(s) && s.procs[s.cpu].execParent.Some?
    ensures WellFormed(s) && s.cpu in s.rrQueue && w.Why(s.cpu) == NoReason
    ensures s.procs[s.cpu].currTerm.Some? ==> s.procs[s.cpu].currTerm.value in s.terms
    ensures var parent := s.procs[s.cpu].execParent.value;
            parent in s.procs && parent != s.cpu && parent != IDLE
  {
    InvGivesWellFormed(s, w);
    CallerAtEnd(s, w);
    ParentIsNotIdle(Tables(s), w, s.cpu);
  }

  lemma HaltQueue(s: State, parent: Pid, s2: State)
    requires QueueInv(s) && InUserMode(s) && s.cpu in s.rrQueue
    requires parent in s.procs && parent != s.cpu && parent != IDLE
    requires s2 == RemoveAndWake(SetOwner(s, s.procs[s.cpu].currTerm, NOBODY), s.cpu, parent)
    ensures QueueInv(s2) && s2.procs.Keys == s.procs.Keys - {s.cpu}
    ensures var i := IndexOf(s.rrQueue, s.cpu); s2.rrQueue == s.rrQueue[i + 1..] + s.rrQueue[..i]
  {
    hide NoDuplicates;
    hide Members;
    hide PidsBelow;
    hide IndexOf;
    hide CloseAll;
    assert s2.procs.Keys == s.procs.Keys - {s.cpu};
    QueueWithout(s.rrQueue, s.procs, s.cpu, s2.procs, s.nextNewProcess);
  }

  // What halting makes of the queue and of each table.
  lemma HaltShape(s: State, parent: Pid) returns (s2: State)
    requires InUserMode(s) && s.cpu in s.rrQueue && s.procs[s.cpu].execParent == Some(parent)
    requires parent in s.procs && parent != s.cpu
    requires s.procs[s.cpu].currTerm.Some? ==> s.procs[s.cpu].currTerm.value in s.terms
    ensures s2 == RemoveAndWake(SetOwner(s, s.procs[s.cpu].currTerm, NOBODY), s.cpu, parent)
    ensures AfterHalt(s) == Decide(s2) && s2.cpu == s.cpu
    ensures var i := IndexOf(s.rrQueue, s.cpu); s2.rrQueue == s.rrQueue[i + 1..] + s.rrQueue[..i]
    ensures s2.procs == (s.procs - {s.cpu})[parent := s.procs[parent].(runState := Running)]
    ensures s2.rtcs == CloseAll(s.rtcs, s.cpu)
    ensures s2.terms == match s.procs[s.cpu].currTerm
                        case None => s.terms
                        case Some(t) => s.terms[t := Terminal(NOBODY, false)]
  {
    hide Decide;
    hide CloseAll;
    hide IndexOf;
    s2 := RemoveAndWake(SetOwner(s, s.procs[s.cpu].currTerm, NOBODY), s.cpu, parent);
  }

  lemma HaltWorld(s: State, w: Witness) returns (s2: State, w': Witness)
    requires InvWith(s, w) && InUserMode(s) && s.procs[s.cpu].execParent.Some?
    ensures WellFormed(s) && s.cpu in s.rrQueue
    ensures var parent := s.procs[s.cpu].execParent.value;
            && parent in s.procs && parent != s.cpu
            && s.procs[parent].runState == Waiting && w.Why(parent) == OnChild(s.cpu)
            && s2 == RemoveAndWake(SetOwner(s, s.procs[s.cpu].currTerm, NOBODY), s.cpu, parent)
            && s2.procs == (s.procs - {s.cpu})[parent := s.procs[parent].(runState := Running)]
    ensures AfterHalt(s) == Decide(s2) && s2.cpu == s.cpu
    ensures var i := IndexOf(s.rrQueue, s.cpu); s2.rrQueue == s.rrQueue[i + 1..] + s.rrQueue[..i]
    ensures QueueInv(s2) && WorldInv(Tables(s2), w')
  {
    HaltFacts(s, w);
    hide WellFormed;
    hide WorldInv;
    hide IndexOf;
    hide CloseAll;
    hide Decide;
    hide AfterHalt;
    hide RemoveAndWake;
    hide SetOwner;
    var cpu, parent := s.cpu, s.procs[s.cpu].execParent.value;
    s2 := HaltShape(s, parent);
    HaltQueue(s, parent, s2);
    hide QueueInv;
    w' := ChainShrinks(Tables(s), w, cpu, parent, Tables(s2));
  }

  lemma ParentIsNotIdle(v: World, w: Witness, p: Pid)
    requires WorldInv(v, w) && p in v.procs && v.procs[p].execParent.Some?
    ensures v.procs[p].execParent.value != IDLE
  {
    assert ProcAt(v, w, p);
  }

  // ----- One step, and runs -----

  lemma TermReadKeeps(s: State, w: Witness, enough: bool) returns (w': Witness)
    requires InvWith(s, w) && InUserMode(s)
    ensures InvWith(AfterTermRead(s, enough), w')
  {
    w' := w;
    if s.procs[s.cpu].currTerm.Some? {
      var term := s.procs[s.cpu].currTerm.value;
      TerminalIsFree(s, w);
      if enough {
        OwnerWorld(s, w, term, s.cpu, AfterTermRead(s, enough));
      } else {
        var s1 := SetRunState(s.(terms := s.terms[term := Terminal(s.cpu, true)]), s.cpu, Waiting);
        w' := TermReadWorld(s, w, term, s1);
        DecideKeeps(s1);
      }
    }
  }

  lemma RtcReadKeeps(s: State, w: Witness, d: nat) returns (w': Witness)
    requires InvWith(s, w) && Enabled(s, Event.RtcRead(d))
    ensures InvWith(AfterRtcRead(s, d), w')
  {
    w' := w;
    if s.rtcs[d].backlog > 0 {
      RtcTableWorld(s, w, AfterRtcRead(s, d));
    } else {
      var s1 := SetRunState(s.(rtcs := s.rtcs[d := s.rtcs[d].(waiting := true, thread := s.cpu)]), s.cpu, Waiting);
      w' := RtcWaitWorld(s, w, d, s1);
      DecideKeeps(s1);
    }
  }

  lemma RtcCloseKeeps(s: State, w: Witness, d: nat)
    requires InvWith(s, w) && Enabled(s, Event.RtcClose(d))
    ensures InvWith(s.(rtcs := s.rtcs - {d}), w)
  {
    CallerAtEnd(s, w);
    assert RtcAt(Tables(s), w, d);
    RtcTableWorld(s, w, s.(rtcs := s.rtcs - {d}));
  }

  // Every kernel entry keeps the invariant.
  lemma StepKeepsInv(s: State, w: Witness, e: Event) returns (w': Witness)
    requires InvWith(s, w) && Enabled(s, e)
    ensures WellFormed(s)
    ensures InvWith(Step(s, e), w')
  {
    InvGivesWellFormed(s, w);
    w' := w;
    match e
    case Timer =>
      DecideKeeps(s);
    case Exec(executable) =>
      if executable {
        var s3, w3 := ExecWorld(s, w);
        DecideKeeps(s3);
        w' := w3;
      }
    case TermRead(enough) =>
      w' := TermReadKeeps(s, w, enough);
    case KbClose =>
      if s.procs[s.cpu].currTerm.Some? {
        TerminalIsFree(s, w);
        OwnerWorld(s, w, s.procs[s.cpu].currTerm.value, NOBODY, Step(s, e));
      }
    case RtcOpen(d) =>
      RtcTableWorld(s, w, Step(s, e));
    case RtcRead(d) =>
      w' := RtcReadKeeps(s, w, d);
    case RtcClose(d) =>
      RtcCloseKeeps(s, w, d);
    case Halt =>
      if s.procs[s.cpu].execParent.Some? {
        var s2, w2 := HaltWorld(s, w);
        DecideKeeps(s2);
        w' := w2;
      }
    case EnterKey(t) =>
      if s.terms[t].waitingRead {
        w' := EnterWorld(s, w, t);
      }
    case RtcTick(d) =>
      if s.rtcs[d].waiting {
        w' := TickWorld(s, w, d);
      } else {
        RtcTableWorld(s, w, Step(s, e));
      }
    case Dispatch(nested) =>
  }
}
