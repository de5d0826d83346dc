// The virtual real-time clocks of drivers/rtc.cpp: each open device divides
// the frequency of the one hardware clock.
module Rtc {
  import opened Common

  // ----- One device -----

  datatype Device = Device(ourFreq: nat, counter: nat, divider: nat, waiting: bool, backlog: nat)

  // The register value for a frequency; 0 for one that cannot be set.
  function FrequencyConverter(freq: int): (rate: nat)
    ensures rate != 0 <==> IsFrequency(freq)
  {
    match freq
    case 1024 => 6
    case 512 => 7
    case 256 => 8
    case 128 => 9
    case 64 => 10
    case 32 => 11
    case 16 => 12
    case 8 => 13
    case 4 => 14
    case 2 => 15
    case _ => 0
  }

  function Power(n: nat): nat {
    if n == 0 then 1 else 2 * Power(n - 1)
  }

  // The chip divides 32768 Hz by 2 to the power of the rate less one.
  lemma RateMeansFrequency(freq: int)
    requires IsFrequency(freq)
    ensures 6 <= FrequencyConverter(freq) <= 15 && freq * Power(FrequencyConverter(freq) - 1) == 32768
  {
    assert Power(4) == 16;
    assert Power(7) == 128;
    assert Power(10) == 1024;
    assert Power(13) == 8192;
  }

  predicate IsFrequency(f: int) {
    f == 2 || f == 4 || f == 8 || f == 16 || f == 32 || f == 64 || f == 128 || f == 256 || f == 512 || f == 1024
  }

  predicate Fires(d: Device) {
    d.counter >= d.divider
  }

  // A hardware interrupt.  A tick wakes the reader, or waits for one.
  function Trigger(d: Device): Device {
    if !Fires(d) then d.(counter := d.counter + 1)
    else if d.waiting then d.(waiting := false, counter := 1)
    else d.(backlog := d.backlog + 1, counter := 1)
  }

  function Ticks(d: Device, k: nat): nat
    decreases k
  {
    if k == 0 then 0 else (if Fires(d) then 1 else 0) + Ticks(Trigger(d), k - 1)
  }

  lemma OneMoreWhole(n: nat, m: nat)
    requires n > 0
    ensures (n + m) / n == 1 + m / n
  {
    Times(n, m / n, 1);
    QuotientIsUnique(n + m, n, m / n + 1, m % n);
  }

  lemma Times(n: int, a: int, b: int)
    ensures n * (a + b) == n * a + n * b
  {
  }

  lemma QuotientIsUnique(x: nat, n: nat, q: nat, r: nat)
    requires n > 0 && x == n * q + r && r < n
    ensures x / n == q
  {
    var p := x / n;
    if p < q {
      Times(n, p, q - p);
      AtLeastOnce(n, q - p);
    } else if q < p {
      Times(n, q, p - q);
      AtLeastOnce(n, p - q);
    }
  }

  lemma AtLeastOnce(n: nat, k: nat)
    requires k > 0
    ensures n * k >= n
  {
  }

  lemma Fraction(n: nat, m: nat)
    requires m < n
    ensures m / n == 0
  {
  }

  // With a fixed divider n, k interrupts make a tick each n-th time, counted
  // from where the counter stands.
  lemma {:induction false} TicksAreDivided(d: Device, k: nat)
    requires d.divider > 0 && k > 0
    ensures Ticks(d, k) == (Min(d.counter, d.divider) + k - 1) / d.divider
    decreases k
  {
    var n := d.divider;
    if k > 1 {
      TicksAreDivided(Trigger(d), k - 1);
    }
    if Fires(d) {
      OneMoreWhole(n, k - 1);
      if k == 1 {
        Fraction(n, 0);
      }
    } else if k == 1 {
      Fraction(n, d.counter);
    }
  }

  // ----- Ticks are not lost -----

  datatype Event = Interrupt | Read | Rescaled(counter: nat, divider: nat)

  // A device with its history: ticks so far, reads asked for, and those that
  // were completed, by the backlog or by the tick they waited for.
  datatype History = History(d: Device, ticks: nat, asked: nat, completed: nat)

  function Reading(d: Device): Device {
    if d.backlog > 0 then d.(backlog := d.backlog - 1) else d.(waiting := true)
  }

  function Step(h: History, e: Event): History {
    match e
    case Interrupt =>
      var fires := Fires(h.d);
      History(Trigger(h.d), h.ticks + if fires then 1 else 0,
              h.asked, h.completed + if fires && h.d.waiting then 1 else 0)
    case Read => History(Reading(h.d), h.ticks, h.asked + 1, h.completed + if h.d.backlog > 0 then 1 else 0)
    case Rescaled(c, n) => h.(d := h.d.(counter := c, divider := n))
  }

  function Run(h: History, events: seq<Event>): History {
    if events == [] then h else Step(Run(h, events[..|events| - 1]), events[|events| - 1])
  }

  // Every tick has completed a read or waits in the backlog, and nobody waits
  // while there is a backlog; whatever happens to the divider.
  lemma {:induction false} NoTickIsLost(h: History, events: seq<Event>)
    requires h.ticks == h.completed + h.d.backlog && (h.d.waiting ==> h.d.backlog == 0)
    ensures var r := Run(h, events);
            r.ticks == r.completed + r.d.backlog && (r.d.waiting ==> r.d.backlog == 0)
  {
    if events != [] {
      NoTickIsLost(h, events[..|events| - 1]);
    }
  }

  // A reader that blocks does not read again before it is woken.
  ghost predicate InTurn(h: History, events: seq<Event>) {
    forall k :: 0 <= k < |events| && events[k] == Read ==> !Run(h, events[..k]).d.waiting
  }

  // So the reads that are completed are as many as were asked for, as long as
  // there were ticks for them: exactly one read may be waiting, it waits if and
  // only if the ticks have not sufficed, and the next tick ends that.
  lemma {:induction false} EachReadGetsATick(h: History, events: seq<Event>)
    requires h.ticks == h.completed + h.d.backlog && (h.d.waiting ==> h.d.backlog == 0)
    requires h.asked == h.completed + (if h.d.waiting then 1 else 0) && InTurn(h, events)
    ensures var r := Run(h, events);
            && r.completed == Min(r.asked, r.ticks) && r.asked <= r.completed + 1
            && (r.d.waiting <==> r.asked > r.ticks)
  {
    NoTickIsLost(h, events);
    ReadsAreCounted(h, events);
  }

  lemma {:induction false} ReadsAreCounted(h: History, events: seq<Event>)
    requires h.asked == h.completed + (if h.d.waiting then 1 else 0) && InTurn(h, events)
    ensures var r := Run(h, events); r.asked == r.completed + if r.d.waiting then 1 else 0
  {
    if events != [] {
      var n := |events| - 1;
      var front := events[..n];
      forall k | 0 <= k < n && front[k] == Read ensures !Run(h, front[..k]).d.waiting {
        assert front[..k] == events[..k];
      }
      ReadsAreCounted(h, front);
    }
  }

  // ----- Dividers -----

  // newHardwareRTCFrequencyNoLock.
  function Rescale(d: Device, freq: nat): Device {
    if freq > d.ourFreq then
      if d.ourFreq == 0 then d
      else
        var n := freq / d.ourFreq;
        d.(divider := n,
           counter := if n == 0 || d.divider == 0 then d.counter
                      else if n >= d.divider then d.counter * (n / d.divider)
                      else d.counter / (d.divider / n))
    else d.(divider := 1)
  }

  // The device divides the hardware frequency down to exactly its own.
  ghost predicate Synced(d: Device, hardware: nat) {
    d.ourFreq != 0 ==>
      IsFrequency(d.ourFreq) && d.ourFreq <= hardware && d.divider >= 1 && d.divider * d.ourFreq == hardware
  }

  lemma FrequenciesDivide(own: nat, freq: nat)
    requires IsFrequency(own) && IsFrequency(freq) && own <= freq
    ensures freq / own >= 1 && (freq / own) * own == freq
  {
    if own == 2 {
    } else if own == 4 {
    } else if own == 8 {
    } else if own == 16 {
    } else if own == 32 {
    } else if own == 64 {
    } else if own == 128 {
    } else if own == 256 {
    } else if own == 512 {
    }
  }

  lemma RescaleSyncs(d: Device, freq: nat)
    requires (d.ourFreq != 0 ==> IsFrequency(d.ourFreq) && d.ourFreq <= freq) && (freq == 0 || IsFrequency(freq))
    ensures Synced(Rescale(d, freq), freq) && Rescale(d, freq).ourFreq == d.ourFreq
  {
    if d.ourFreq != 0 {
      FrequenciesDivide(d.ourFreq, freq);
    }
  }

  // A faster hardware clock scales the counter with the divider, so the device
  // is as far through its period as before.
  lemma FasterKeepsPhase(d: Device, hardware: nat, freq: nat)
    requires Synced(d, hardware) && d.ourFreq != 0 && d.counter <= d.divider
    requires IsFrequency(hardware) && IsFrequency(freq) && hardware < freq
    ensures var r := Rescale(d, freq);
            r.counter <= r.divider && r.counter * d.divider == d.counter * r.divider
  {
    hide IsFrequency;
    FrequenciesDivide(hardware, freq);
    FrequenciesDivide(d.ourFreq, hardware);
    var q := freq / hardware;
    FactorOfFactor(freq, hardware, d.ourFreq, q, d.divider);
    MultipliedDivider(d.divider, q);
    ScaledPhase(d.counter, d.divider, q);
  }

  lemma FactorOfFactor(freq: nat, hardware: nat, own: nat, q: nat, n: nat)
    requires own > 0 && q * hardware == freq && n * own == hardware
    ensures freq / own == n * q
  {
    assert freq == (n * q) * own;
    ExactQuotient(n * q, own);
  }

  lemma ExactQuotient(a: nat, b: nat)
    requires b > 0
    ensures a * b / b == a
  {
    QuotientIsUnique(a * b, b, a, 0);
  }

  lemma MultipliedDivider(n: nat, q: nat)
    requires n >= 1 && q >= 1
    ensures n * q >= n && n * q / n == q
  {
    ExactQuotient(q, n);
  }

  lemma ScaledPhase(c: nat, n: nat, q: nat)
    requires c <= n
    ensures c * q <= n * q && (c * q) * n == c * (n * q)
  {
  }

  // ----- All devices -----

  class VirtualRTC {
    var ourFreq: nat
    var counter: nat
    var numCountToTriggerRTC: nat
    var waiting: bool
    var backlog: nat

    function Value(): Device
      reads this
    {
      Device(ourFreq, counter, numCountToTriggerRTC, waiting, backlog)
    }

    // Opened, with no frequency set.
    constructor ()
      ensures Value() == Device(0, 0, 2, false, 0)
    {
      ourFreq := 0;
      counter := 0;
      numCountToTriggerRTC := 2;
      waiting := false;
      backlog := 0;
    }

    method TriggerIfPossible() returns (woken: bool)
      modifies this
      ensures Value() == Trigger(old(Value())) && woken == (Fires(old(Value())) && old(waiting))
    {
      woken := false;
      if counter >= numCountToTriggerRTC {
        if waiting {
          waiting := false;
          woken := true;
        } else {
          backlog := backlog + 1;
        }
        counter := 0;
      }
      counter := counter + 1;
    }

    method NewHardwareRTCFrequency(freq: nat)
      modifies this
      ensures Value() == Rescale(old(Value()), freq)
    {
      if freq > ourFreq {
        if ourFreq == 0 {
          return;
        }
        var factor := freq / ourFreq;
        var oldNumCount := numCountToTriggerRTC;
        numCountToTriggerRTC := factor;
        if numCountToTriggerRTC >= oldNumCount {
          if numCountToTriggerRTC != 0 && oldNumCount != 0 {
            counter := counter * (numCountToTriggerRTC / oldNumCount);
          }
        } else {
          if numCountToTriggerRTC != 0 && oldNumCount != 0 {
            counter := counter / (oldNumCount / numCountToTriggerRTC);
          }
        }
      } else {
        numCountToTriggerRTC := 1;
      }
    }

    // True when the reader has to block.
    method Read() returns (blocks: bool)
      modifies this
      ensures Value() == Reading(old(Value())) && blocks == (old(backlog) == 0)
    {
      if backlog > 0 {
        backlog := backlog - 1;
        return false;
      }
      waiting := true;
      blocks := true;
    }
  }

  function Values(devices: seq<VirtualRTC>): (r: seq<Device>)
    reads devices
    ensures |r| == |devices| && forall k :: 0 <= k < |devices| ==> r[k] == devices[k].Value()
  {
    if devices == [] then [] else Values(devices[..|devices| - 1]) + [devices[|devices| - 1].Value()]
  }

  function MaxFreq(ds: seq<Device>): (max: nat)
    ensures forall k :: 0 <= k < |ds| ==> ds[k].ourFreq <= max
    ensures max == 0 || exists k :: 0 <= k < |ds| && ds[k].ourFreq == max
  {
    if ds == [] then 0
    else
      var rest, last := MaxFreq(ds[..|ds| - 1]), ds[|ds| - 1];
      if last.ourFreq > rest then last.ourFreq else rest
  }

  // The hardware runs at the highest frequency asked for, and every device
  // divides it down to its own.
  ghost predicate InSync(ds: seq<Device>, hardware: nat) {
    && (hardware == 0 || IsFrequency(hardware)) && hardware == MaxFreq(ds)
    && forall k :: 0 <= k < |ds| ==> Synced(ds[k], hardware)
  }

  lemma {:induction false} SameHighest(ds: seq<Device>, es: seq<Device>)
    requires |ds| == |es| && forall k :: 0 <= k < |ds| ==> ds[k].ourFreq == es[k].ourFreq
    ensures MaxFreq(ds) == MaxFreq(es)
  {
    if ds != [] {
      SameHighest(ds[..|ds| - 1], es[..|es| - 1]);
    }
  }

  // What telling the devices makes of them: all when the highest frequency is
  // new, else the one that asked.
  ghost predicate Told(ds: seq<Device>, hardware: nat, asking: int, es: seq<Device>) {
    |es| == |ds| && forall k :: 0 <= k < |ds| ==>
      es[k] == if MaxFreq(ds) != hardware || k == asking then Rescale(ds[k], MaxFreq(ds)) else ds[k]
  }

  lemma ToldAreInSync(ds: seq<Device>, hardware: nat, asking: int, es: seq<Device>)
    requires Told(ds, hardware, asking, es)
    requires forall k :: 0 <= k < |ds| ==> ds[k].ourFreq == 0 || IsFrequency(ds[k].ourFreq)
    requires forall k :: 0 <= k < |ds| && k != asking ==> Synced(ds[k], hardware)
    ensures InSync(es, MaxFreq(ds)) && forall k :: 0 <= k < |ds| ==> es[k].ourFreq == ds[k].ourFreq
  {
    hide IsFrequency;
    hide Rescale;
    hide Synced;
    var max := MaxFreq(ds);
    forall k | 0 <= k < |ds| ensures Synced(es[k], max) && es[k].ourFreq == ds[k].ourFreq {
      RescaleSyncs(ds[k], max);
    }
    SameHighest(ds, es);
  }

  class RtcDriver {
    var virtualRTCs: seq<VirtualRTC>
    var hardwareRTCFrequency: nat

    ghost predicate Distinct()
      reads this
    {
      forall i, j :: 0 <= i < j < |virtualRTCs| ==> virtualRTCs[i] != virtualRTCs[j]
    }

    ghost predicate Valid()
      reads this, virtualRTCs
    {
      Distinct() && InSync(Values(virtualRTCs), hardwareRTCFrequency)
    }

    constructor ()
      ensures virtualRTCs == [] && Valid()
    {
      virtualRTCs := [];
      hardwareRTCFrequency := 0;
    }

    method HighestFrequency() returns (max: nat)
      ensures max == MaxFreq(Values(virtualRTCs))
    {
      max := 0;
      for i := 0 to |virtualRTCs|
        invariant max == MaxFreq(Values(virtualRTCs)[..i])
      {
        assert Values(virtualRTCs)[..i + 1][..i] == Values(virtualRTCs)[..i];
        var freq := virtualRTCs[i].ourFreq;
        if freq > max {
          max := freq;
        }
      }
      assert Values(virtualRTCs)[..|virtualRTCs|] == Values(virtualRTCs);
    }

    method TellAll(freq: nat)
      requires Distinct()
      modifies virtualRTCs
      ensures forall k :: 0 <= k < |virtualRTCs| ==>
                virtualRTCs[k].Value() == Rescale(old(virtualRTCs[k].Value()), freq)
    {
      hide Rescale;
      for i := 0 to |virtualRTCs|
        invariant forall k :: 0 <= k < i ==> virtualRTCs[k].Value() == Rescale(old(virtualRTCs[k].Value()), freq)
        invariant forall k :: i <= k < |virtualRTCs| ==> virtualRTCs[k].Value() == old(virtualRTCs[k].Value())
      {
        virtualRTCs[i].NewHardwareRTCFrequency(freq);
      }
    }

    // Runs the hardware at the highest frequency and tells the devices.
    method EnsureHardwareFrequency(requester: VirtualRTC?, ghost asking: int)
      requires Distinct()
      requires if requester == null then asking == -1
               else 0 <= asking < |virtualRTCs| && virtualRTCs[asking] == requester
      modifies this`hardwareRTCFrequency, virtualRTCs
      ensures hardwareRTCFrequency == MaxFreq(old(Values(virtualRTCs)))
      ensures Told(old(Values(virtualRTCs)), old(hardwareRTCFrequency), asking, Values(virtualRTCs))
    {
      hide Rescale;
      hide MaxFreq;
      hide Values;
      var max := HighestFrequency();
      if max != hardwareRTCFrequency {
        hardwareRTCFrequency := max;
        TellAll(max);
      } else if requester != null {
        requester.NewHardwareRTCFrequency(hardwareRTCFrequency);
      }
    }

    // Sets a device's frequency; -1 and nothing else for one that cannot be.
    method Write(dev: VirtualRTC, freq: int, ghost asking: nat) returns (r: int)
      requires Valid() && asking < |virtualRTCs| && virtualRTCs[asking] == dev
      modifies this`hardwareRTCFrequency, virtualRTCs
      ensures Valid() && r == if IsFrequency(freq) then 0 else -1
      ensures r == -1 ==> hardwareRTCFrequency == old(hardwareRTCFrequency)
                          && Values(virtualRTCs) == old(Values(virtualRTCs))
      ensures r == 0 ==> forall k :: 0 <= k < |virtualRTCs| ==>
                           virtualRTCs[k].ourFreq == if k == asking then freq else old(virtualRTCs[k].ourFreq)
    {
      hide IsFrequency;
      hide InSync;
      hide Values;
      var rate := FrequencyConverter(freq);
      if rate == 0 {
        return -1;
      }
      FrequencyIsPositive(freq);
      ChangeFrequency(dev, freq, asking);
      r := 0;
    }

    method ChangeFrequency(dev: VirtualRTC, freq: nat, ghost asking: nat)
      requires Valid() && asking < |virtualRTCs| && virtualRTCs[asking] == dev && IsFrequency(freq)
      modifies this`hardwareRTCFrequency, virtualRTCs
      ensures Valid()
      ensures forall k :: 0 <= k < |virtualRTCs| ==>
                virtualRTCs[k].ourFreq == if k == asking then freq else old(virtualRTCs[k].ourFreq)
    {
      hide IsFrequency;
      hide InSync;
      hide Rescale;
      hide MaxFreq;
      hide Values;
      hide Told;
      hide Synced;
      ghost var was, before := hardwareRTCFrequency, Values(virtualRTCs);
      dev.ourFreq := freq;
      ghost var ds := Values(virtualRTCs);
      assert ds == before[asking := before[asking].(ourFreq := freq)];
      OthersAreSynced(before, was, asking, freq);
      EnsureHardwareFrequency(dev, asking);
      ToldAreInSync(ds, was, asking, Values(virtualRTCs));
    }

    // A device just opened.
    method Add(dev: VirtualRTC)
      requires Valid() && dev !in virtualRTCs && dev.ourFreq == 0
      modifies this, virtualRTCs, dev
      ensures Valid() && virtualRTCs == old(virtualRTCs) + [dev]
    {
      hide IsFrequency;
      hide Rescale;
      hide MaxFreq;
      hide Values;
      hide Told;
      ghost var was := hardwareRTCFrequency;
      AllSet(Values(virtualRTCs), was);
      virtualRTCs := virtualRTCs + [dev];
      ghost var ds := Values(virtualRTCs);
      EnsureHardwareFrequency(dev, |virtualRTCs| - 1);
      ToldAreInSync(ds, was, |virtualRTCs| - 1, Values(virtualRTCs));
    }

    // Turns the list until the device is in front.
    method TurnTo(dev: VirtualRTC, ghost at: nat)
      requires at < |virtualRTCs| && virtualRTCs[at] == dev && Distinct()
      modifies this`virtualRTCs
      ensures virtualRTCs == old(virtualRTCs)[at..] + old(virtualRTCs)[..at]
    {
      ghost var was, j: nat := virtualRTCs, 0;
      while virtualRTCs[0] != dev
        invariant j <= at && virtualRTCs == was[j..] + was[..j]
        decreases at - j
      {
        var tmp := virtualRTCs[0];
        virtualRTCs := virtualRTCs[1..] + [tmp];
        j := j + 1;
        assert virtualRTCs == was[j..] + was[..j];
      }
      assert was[j] == dev;
    }

    method TakeOff(dev: VirtualRTC, ghost at: nat)
      requires at < |virtualRTCs| && virtualRTCs[at] == dev && Distinct()
      modifies this`virtualRTCs
      ensures Distinct() && virtualRTCs == old(virtualRTCs)[at + 1..] + old(virtualRTCs)[..at]
    {
      ghost var list := virtualRTCs;
      TurnTo(dev, at);
      virtualRTCs := virtualRTCs[1..];
      assert virtualRTCs == list[at + 1..] + list[..at];
    }

    // Takes a device off the list.
    method Remove(dev: VirtualRTC, ghost at: nat)
      requires Valid() && at < |virtualRTCs| && virtualRTCs[at] == dev
      modifies this, virtualRTCs
      ensures Valid() && virtualRTCs == old(virtualRTCs)[at + 1..] + old(virtualRTCs)[..at]
    {
      hide InSync;
      hide MaxFreq;
      hide Values;
      hide Told;
      hide Synced;
      hide IsFrequency;
      ghost var was, list := hardwareRTCFrequency, virtualRTCs;
      TakeOff(dev, at);
      ghost var ds := Values(virtualRTCs);
      assert ds == Values(list)[at + 1..] + Values(list)[..at];
      RestIsSynced(Values(list), at, was);
      EnsureHardwareFrequency(null, -1);
      ToldAreInSync(ds, was, -1, Values(virtualRTCs));
    }

    // The interrupt handler: every device counts.
    method Handler()
      requires Valid()
      modifies virtualRTCs
      ensures Valid()
      ensures forall k :: 0 <= k < |virtualRTCs| ==> virtualRTCs[k].Value() == Trigger(old(virtualRTCs[k].Value()))
    {
      hide MaxFreq;
      hide Trigger;
      hide Values;
      hide Synced;
      ghost var ds := Values(virtualRTCs);
      for i := 0 to |virtualRTCs|
        invariant forall k :: 0 <= k < i ==> virtualRTCs[k].Value() == Trigger(old(virtualRTCs[k].Value()))
        invariant forall k :: i <= k < |virtualRTCs| ==> virtualRTCs[k].Value() == old(virtualRTCs[k].Value())
      {
        var _ := virtualRTCs[i].TriggerIfPossible();
      }
      CountingKeepsSync(ds, Values(virtualRTCs), hardwareRTCFrequency);
    }
  }

  lemma CountingKeepsSync(ds: seq<Device>, es: seq<Device>, hardware: nat)
    requires InSync(ds, hardware) && |es| == |ds| && forall k :: 0 <= k < |ds| ==> es[k] == Trigger(ds[k])
    ensures InSync(es, hardware)
  {
    hide IsFrequency;
    SameHighest(ds, es);
  }

  lemma OthersAreSynced(ds: seq<Device>, hardware: nat, asking: nat, freq: nat)
    requires InSync(ds, hardware) && asking < |ds| && IsFrequency(freq)
    ensures var es := ds[asking := ds[asking].(ourFreq := freq)];
            && (forall k :: 0 <= k < |es| ==> es[k].ourFreq == 0 || IsFrequency(es[k].ourFreq))
            && (forall k :: 0 <= k < |es| && k != asking ==> Synced(es[k], hardware))
  {
    AllSet(ds, hardware);
    hide Synced;
    hide IsFrequency;
  }

  lemma RestIsSynced(ds: seq<Device>, at: nat, hardware: nat)
    requires InSync(ds, hardware) && at < |ds|
    ensures var rest := ds[at + 1..] + ds[..at];
            forall k :: 0 <= k < |rest| ==>
              (rest[k].ourFreq == 0 || IsFrequency(rest[k].ourFreq)) && Synced(rest[k], hardware)
  {
    AllSet(ds, hardware);
    hide Synced;
    hide IsFrequency;
  }

  lemma AllSet(ds: seq<Device>, hardware: nat)
    requires InSync(ds, hardware)
    ensures forall k :: 0 <= k < |ds| ==> ds[k].ourFreq == 0 || IsFrequency(ds[k].ourFreq)
  {
    hide IsFrequency;
  }

  lemma FrequencyIsPositive(freq: int)
    requires IsFrequency(freq)
    ensures freq > 0
  {
  }
}
