// What every reachable state of the scheduler and of the exec chains satisfies.
module SchedInvariant {
  import opened Common
  import opened SchedState

  // Why a thread waits: for its exec child to halt, for Enter on a terminal,
  // for a tick of a clock device; or not at all.
  datatype Reason = NoReason | OnChild(child: Pid) | OnTerm(term: nat) | OnRtc(dev: nat)

  // The witness of the invariant: why each thread waits, and which process is
  // at the end of the exec chain on each terminal.
  datatype Witness = Witness(why: map<int, Reason>, tips: map<nat, int>) {
    function Why(p: int): Reason {
      if p in why then why[p] else NoReason
    }

    function Tip(t: nat): int {
      if t in tips then tips[t] else NOBODY
    }
  }

  // The tables, without the queue and the pending switch.
  datatype World = World(procs: map<Pid, Process>, terms: map<nat, Terminal>, rtcs: map<nat, Rtc>)

  function Tables(s: State): World {
    World(s.procs, s.terms, s.rtcs)
  }

  // ----- The queue and the pending switch -----

  ghost predicate NoDuplicates(q: seq<Pid>) {
    forall i, j :: 0 <= i < j < |q| ==> q[i] != q[j]
  }

  ghost predicate Members(q: seq<Pid>, procs: map<Pid, Process>) {
    forall p :: p in q <==> p in procs
  }

  ghost predicate PidsBelow(procs: map<Pid, Process>, next: Pid) {
    forall p :: p in procs ==> p < next
  }

  // The queue holds each live thread once, and pids are not used twice.
  ghost predicate QueueInv(s: State) {
    && NoDuplicates(s.rrQueue)
    && Members(s.rrQueue, s.procs)
    && PidsBelow(s.procs, s.nextNewProcess)
    && Runnable(s, IDLE)
    && s.cpu < s.nextNewProcess
    && (s.currentlyRunning == s.cpu || (s.currentlyRunning == NO_SWITCH && s.cpu == IDLE))
  }

  ghost predicate Runnable(s: State, p: int) {
    p >= 0 && p in s.procs && s.procs[p].runState == Running
  }

  // A pending switch names the runnable thread chosen last; without one the
  // thread on the CPU can go on running.
  ghost predicate SwitchInv(s: State) {
    && (s.wantToSwitchTo >= 0 ==>
          Runnable(s, s.wantToSwitchTo) && s.rrQueue != [] && s.rrQueue[|s.rrQueue| - 1] == s.wantToSwitchTo)
    && (s.wantToSwitchTo < 0 ==> Runnable(s, s.cpu))
  }

  // ----- Processes, terminals and clock devices, one at a time -----

  // A thread is Running, or waits for exactly one reason that really is there.
  // Its exec parent is older, alive, on the same terminal, and waits for it.
  ghost predicate ProcAt(v: World, w: Witness, p: Pid)
    requires p in v.procs
  {
    var me := v.procs[p];
    && me.runState == (if w.Why(p) == NoReason then Running else Waiting)
    && (me.execParent.Some? ==>
          var q := me.execParent.value;
          q in v.procs && q < p && q != IDLE && v.procs[q].currTerm == me.currTerm && w.Why(q) == OnChild(p))
    && (me.currTerm.Some? ==> me.currTerm.value in v.terms && (w.Why(p).OnChild? || w.Tip(me.currTerm.value) == p))
    && match w.Why(p)
       case NoReason => true
       case OnChild(c) => c in v.procs && v.procs[c].execParent == Some(p)
       case OnTerm(t) => t in v.terms && v.terms[t] == Terminal(p, true) && me.currTerm == Some(t)
       case OnRtc(d) => d in v.rtcs && v.rtcs[d].waiting && v.rtcs[d].opener == p
  }

  // A terminal belongs to nobody or to the end of the one exec chain on it; a
  // waiting reader is its owner, and waits for it.
  ghost predicate TermAt(v: World, w: Witness, t: nat)
    requires t in v.terms
  {
    var owner := v.terms[t].owner;
    && (owner != NOBODY ==>
          && owner >= 0 && owner in v.procs && owner != IDLE
          && v.procs[owner].currTerm == Some(t) && !w.Why(owner).OnChild?)
    && (v.terms[t].waitingRead ==> owner != NOBODY && w.Why(owner) == OnTerm(t))
  }

  // A clock device belongs to a live process; a waiting reader is that process.
  ghost predicate RtcAt(v: World, w: Witness, d: nat)
    requires d in v.rtcs
  {
    && v.rtcs[d].opener in v.procs && v.rtcs[d].opener != IDLE
    && (v.rtcs[d].waiting ==> v.rtcs[d].thread == v.rtcs[d].opener && w.Why(v.rtcs[d].thread) == OnRtc(d))
  }

  ghost predicate WorldInv(v: World, w: Witness) {
    && (forall p {:trigger ProcAt(v, w, p)} :: p in v.procs ==> ProcAt(v, w, p))
    && (forall t {:trigger TermAt(v, w, t)} :: t in v.terms ==> TermAt(v, w, t))
    && (forall d {:trigger RtcAt(v, w, d)} :: d in v.rtcs ==> RtcAt(v, w, d))
  }

  ghost predicate InvWith(s: State, w: Witness) {
    QueueInv(s) && SwitchInv(s) && WorldInv(Tables(s), w)
  }

  ghost predicate Inv(s: State) {
    exists w: Witness :: InvWith(s, w)
  }

  lemma InvGivesWellFormed(s: State, w: Witness)
    requires QueueInv(s) && WorldInv(Tables(s), w)
    ensures WellFormed(s)
  {
    var v := Tables(s);
    forall p | p in s.procs && s.procs[p].execParent.Some?
      ensures s.procs[p].execParent.value in s.procs && s.procs[p].execParent.value != p
    {
      assert ProcAt(v, w, p);
    }
    forall t | t in s.terms && s.terms[t].waitingRead ensures s.terms[t].owner >= 0 && s.terms[t].owner in s.procs {
      assert TermAt(v, w, t);
    }
    forall d | d in s.rtcs && s.rtcs[d].waiting ensures s.rtcs[d].thread in s.procs {
      assert RtcAt(v, w, d);
    }
  }

  // Boot leaves one Running thread for each keyboard client beside the idle
  // thread, and each text terminal belongs to the thread that guards it.
  lemma BootHasGuards(textTerms: nat, clients: nat)
    requires textTerms <= clients
    ensures var s := Boot(textTerms, clients);
            && s.cpu == IDLE && |s.rrQueue| == clients + 1 && s.wantToSwitchTo < 0
            && (forall p :: p in s.rrQueue <==> p in s.procs)
            && (forall p :: p in s.procs ==> s.procs[p].runState == Running && s.procs[p].execParent == None)
            && (forall t :: t in s.terms <==> 0 <= t < textTerms)
            && forall t :: t in s.terms ==> Guarded(s, t)
  {
    BootQueue(textTerms, clients);
    var s := Boot(textTerms, clients);
    forall t | t in s.terms ensures Guarded(s, t) {
      assert s.terms[t].owner == t + 2 && t + 2 in s.procs;
    }
  }

  ghost predicate Guarded(s: State, t: nat)
    requires t in s.terms
  {
    var guard := s.terms[t].owner;
    guard >= 0 && guard in s.procs && guard != IDLE && s.procs[guard].currTerm == Some(t)
  }

  lemma BootQueue(textTerms: nat, clients: nat)
    ensures var s := Boot(textTerms, clients); forall p :: p in s.rrQueue <==> p in s.procs
  {
    var s := Boot(textTerms, clients);
    hide KernelThread;
    hide BootTerminal;
    forall p ensures p in s.rrQueue <==> p in s.procs {
      if p in s.procs {
        assert s.rrQueue[p - 1] == p;
      }
    }
  }

  lemma BootSatisfiesInv(textTerms: nat, clients: nat)
    requires textTerms <= clients
    ensures Inv(Boot(textTerms, clients))
  {
    var s := Boot(textTerms, clients);
    var w := Witness(map[], map t: nat | t < textTerms :: BootTerminal(t, clients).owner);
    forall p ensures p in s.rrQueue <==> p in s.procs {
      if p in s.procs {
        assert s.rrQueue[p - 1] == p;
      }
    }
    assert WorldInv(Tables(s), w);
    assert InvWith(s, w);
  }

  // ----- Decisions -----

  lemma RotatedMembers(q: seq<Pid>, j: nat)
    requires j <= |q|
    ensures forall p :: p in Rotated(q, j) <==> p in q
    ensures NoDuplicates(q) ==> NoDuplicates(Rotated(q, j))
  {
    var r := Rotated(q, j);
    assert q == q[..j] + q[j..];
    forall a, b | 0 <= a < b < |r| && NoDuplicates(q) ensures r[a] != r[b] {
      var a' := if a < |q| - j then a + j else a - (|q| - j);
      var b' := if b < |q| - j then b + j else b - (|q| - j);
      assert r[a] == q[a'] && r[b] == q[b'];
    }
  }

  lemma FirstIsNotBehind(q: seq<Pid>, procs: map<Pid, Process>, t: Pid)
    requires t in q && t in procs && procs[t].runState == Running
    ensures var j := FirstRunning(q, procs);
            j <= IndexOf(q, t) && (j == IndexOf(q, t) ==> q[j] == t)
  {
  }

  // Some thread can always be chosen, since the idle thread can; a decision
  // leaves the tables alone and turns the queue.
  lemma DecideKeeps(s: State)
    requires QueueInv(s)
    ensures var d := Decide(s);
            QueueInv(d) && SwitchInv(d) && Tables(d) == Tables(s) && Runnable(s, d.wantToSwitchTo)
  {
    var j := FirstRunning(s.rrQueue, s.procs);
    FirstIsNotBehind(s.rrQueue, s.procs, IDLE);
    RotatedMembers(s.rrQueue, j + 1);
  }
}
