/** The status poller of an open device and its owner, as interleaved steps
    (crates/libobsbot-core/src/device.rs). Every atomic load and store, every send, every
    sleep and every sample is one step. */
module Poller {
  datatype Cadence = Slow | Fast {
    function PeriodMs(): nat {
      if Slow? then 2500 else 25
    }
  }

  const POLLER_TICK := 25

  // ---- the states ----

  /** Where the poller thread is. */
  datatype Pc =
    | CheckStop
    | Sampling
    | Sending
    | LoadingCadence
    | CheckStopAsleep(target: nat, slept: nat)
    | Sleeping(target: nat, slept: nat)
    | Halted
  {
    predicate Asleep() { CheckStopAsleep? || Sleeping? }
  }

  /** Where the owner of the device is: using it, waiting in `drop` for the thread to end,
      or back from `drop`. */
  datatype Owner = Using | Joining | Joined

  /** What a send leaves in the shared channel: a status of this device, or an event of the
      watcher or of another device's poller. */
  datatype Event = OwnStatus | Other

  datatype State = State(pc: Pc, owner: Owner, stop: bool, cadenceMs: nat, open: bool, log: seq<Event>)

  function Start(log: seq<Event>): State {
    State(CheckStop, Using, false, Slow.PeriodMs(), true, log)
  }

  // ---- the steps ----

  /** The head of `while slept < target`. */
  function SleepLoop(target: nat, slept: nat): Pc {
    if slept < target then CheckStopAsleep(target, slept) else CheckStop
  }

  function PollerStep(s: State): State
    requires !s.pc.Halted?
  {
    match s.pc
    case CheckStop => s.(pc := if s.stop then Halted else Sampling)
    case Sampling => s.(pc := Sending)
    case Sending => if s.open then s.(pc := LoadingCadence, log := s.log + [OwnStatus]) else s.(pc := Halted)
    case LoadingCadence => s.(pc := SleepLoop(s.cadenceMs, 0))
    case CheckStopAsleep(target, slept) => s.(pc := if s.stop then Halted else Sleeping(target, slept))
    case Sleeping(target, slept) => s.(pc := SleepLoop(target, slept + POLLER_TICK))
  }

  datatype Outside =
    | SetCadence(cadence: Cadence)  // set_status_cadence
    | SetStop                       // drop stores the flag
    | Join                          // drop returns from join
    | SendOther                     // another sender
    | CloseChannel                  // the last receiver is gone

  predicate Enabled(s: State, o: Outside) {
    match o
    case SetCadence(_) => s.owner.Using?
    case SetStop => s.owner.Using?
    case Join => s.owner.Joining? && s.pc.Halted?
    case SendOther => s.open
    case CloseChannel => true
  }

  function OutsideStep(s: State, o: Outside): State {
    match o
    case SetCadence(c) => s.(cadenceMs := c.PeriodMs())
    case SetStop => s.(stop := true, owner := Joining)
    case Join => s.(owner := Joined)
    case SendOther => s.(log := s.log + [Other])
    case CloseChannel => s.(open := false)
  }

  datatype Step = Poll | Out(o: Outside)

  predicate CanStep(s: State, step: Step) {
    if step.Poll? then !s.pc.Halted? else Enabled(s, step.o)
  }

  function Do(s: State, step: Step): State
    requires CanStep(s, step)
  {
    if step.Poll? then PollerStep(s) else OutsideStep(s, step.o)
  }

  // ---- runs ----

  ghost predicate IsRun(s: State, steps: seq<Step>)
    decreases |steps|, 0
  {
    steps == [] || (IsRun(s, steps[..|steps| - 1]) && CanStep(End(s, steps[..|steps| - 1]), steps[|steps| - 1]))
  }

  ghost function End(s: State, steps: seq<Step>): State
    requires IsRun(s, steps)
    decreases |steps|, 1
  {
    if steps == [] then s else Do(End(s, steps[..|steps| - 1]), steps[|steps| - 1])
  }

  lemma RunSnoc(s: State, steps: seq<Step>, step: Step)
    requires IsRun(s, steps) && CanStep(End(s, steps), step)
    ensures IsRun(s, steps + [step]) && End(s, steps + [step]) == Do(End(s, steps), step)
  {
    assert (steps + [step])[..|steps + [step]| - 1] == steps;
  }

  /** What every step keeps. */
  ghost predicate Inv(s: State) {
    && (s.stop <==> !s.owner.Using?)
    && (s.owner.Joined? ==> s.pc.Halted?)
    && s.cadenceMs in {25, 2500}
    && (s.pc.Asleep() ==> s.pc.target in {25, 2500} && s.pc.slept % POLLER_TICK == 0 && s.pc.slept < s.pc.target)
  }

  lemma InvStep(s: State, step: Step)
    requires Inv(s) && CanStep(s, step)
    ensures Inv(Do(s, step))
  {
  }

  lemma {:induction false} InvRun(s: State, steps: seq<Step>)
    requires Inv(s) && IsRun(s, steps)
    ensures Inv(End(s, steps))
  {
    if steps != [] {
      InvRun(s, steps[..|steps| - 1]);
      InvStep(End(s, steps[..|steps| - 1]), steps[|steps| - 1]);
    }
  }

  // ---- after the stop flag is set ----

  function Own(log: seq<Event>): nat {
    if log == [] then 0 else Own(log[..|log| - 1]) + if log[|log| - 1].OwnStatus? then 1 else 0
  }

  /** A status is on its way: the poller has passed its stop check. */
  function InFlight(s: State): nat {
    if s.pc.Sampling? || s.pc.Sending? then 1 else 0
  }

  lemma OwnSnoc(log: seq<Event>, e: Event)
    ensures Own(log + [e]) == Own(log) + if e.OwnStatus? then 1 else 0
  {
    assert (log + [e])[..|log + [e]| - 1] == log;
  }

  lemma StopStep(s: State, step: Step)
    requires s.stop && CanStep(s, step)
    ensures var t := Do(s, step);
      && t.stop && (t.open ==> s.open)
      && Own(s.log) <= Own(t.log) && Own(t.log) + InFlight(t) <= Own(s.log) + InFlight(s)
      && (t.open ==> Own(t.log) + InFlight(t) == Own(s.log) + InFlight(s))
  {
    OwnSnoc(s.log, OwnStatus);
    OwnSnoc(s.log, Other);
    hide Own;
  }

  /** Once the flag is set, the only status still sent is one that was on its way, and it is
      sent for certain when the poller ends with the channel open. */
  lemma {:induction false} LastStatus(s: State, steps: seq<Step>)
    requires s.stop && IsRun(s, steps)
    ensures var t := End(s, steps);
      && t.stop && (t.open ==> s.open)
      && Own(s.log) <= Own(t.log) && Own(t.log) + InFlight(t) <= Own(s.log) + InFlight(s)
      && (t.open ==> Own(t.log) + InFlight(t) == Own(s.log) + InFlight(s))
  {
    if steps != [] {
      LastStatus(s, steps[..|steps| - 1]);
      StopStep(End(s, steps[..|steps| - 1]), steps[|steps| - 1]);
    }
  }

  /** After `drop` has returned, this device never sends again. */
  lemma SilentAfterDrop(log: seq<Event>, before: seq<Step>, after: seq<Step>)
    requires IsRun(Start(log), before) && End(Start(log), before).owner.Joined?
    requires IsRun(End(Start(log), before), after)
    ensures Own(End(End(Start(log), before), after).log) == Own(End(Start(log), before).log)
  {
    InvRun(Start(log), before);
    LastStatus(End(Start(log), before), after);
  }

  /** How many of its own steps the poller can still take once the flag is set. */
  function Remaining(s: State): nat {
    match s.pc
    case CheckStop => 1
    case Sampling => 4
    case Sending => 3
    case LoadingCadence => 2
    case CheckStopAsleep(_, _) => 1
    case Sleeping(_, _) => 2
    case Halted => 0
  }

  function Polls(steps: seq<Step>): nat {
    if steps == [] then 0 else Polls(steps[..|steps| - 1]) + if steps[|steps| - 1].Poll? then 1 else 0
  }

  /** Once the flag is set, every step of the poller uses up its measure and no other step
      gives any back; so it takes at most four more steps, and after that many it has ended
      and `join` returns. */
  lemma {:induction false} PollerHalts(s: State, steps: seq<Step>)
    requires s.stop && IsRun(s, steps)
    ensures Polls(steps) + Remaining(End(s, steps)) <= Remaining(s) <= 4
    ensures Polls(steps) == Remaining(s) ==> End(s, steps).pc.Halted?
  {
    if steps != [] {
      LastStatus(s, steps[..|steps| - 1]);
      PollerHalts(s, steps[..|steps| - 1]);
    }
  }

  /** Until it has ended, the poller can take its next step whatever the others do; and once
      it has, the waiting owner can return. */
  lemma NoDeadlock(log: seq<Event>, steps: seq<Step>)
    requires IsRun(Start(log), steps)
    ensures var s := End(Start(log), steps);
      && (s.pc.Halted? || CanStep(s, Poll))
      && (s.owner.Joining? ==> (CanStep(s, Out(Join)) <==> Remaining(s) == 0))
      && (s.owner.Joining? || s.owner.Joined? <==> s.stop)
      && (s.pc.Halted? ==> s.stop || !s.open)
  {
    InvRun(Start(log), steps);
    HaltedHasCause(Start(log), steps);
  }

  lemma {:induction false} HaltedHasCause(s: State, steps: seq<Step>)
    requires !s.pc.Halted? && IsRun(s, steps)
    ensures End(s, steps).pc.Halted? ==> End(s, steps).stop || !End(s, steps).open
  {
    if steps != [] {
      HaltedHasCause(s, steps[..|steps| - 1]);
    }
  }

  // ---- sleeps ----

  /** The sleeps that a run takes. */
  ghost function Sleeps(s: State, steps: seq<Step>): nat
    requires IsRun(s, steps)
  {
    if steps == [] then 0
    else
      var init := steps[..|steps| - 1];
      Sleeps(s, init) + if steps[|steps| - 1].Poll? && End(s, init).pc.Sleeping? then 1 else 0
  }

  /** Once the flag is set, at most one more tick is slept, and only if it had begun. */
  lemma {:induction false} AtMostOneMoreTick(s: State, steps: seq<Step>)
    requires s.stop && IsRun(s, steps)
    ensures Sleeps(s, steps) + (if End(s, steps).pc.Sleeping? then 1 else 0) <= if s.pc.Sleeping? then 1 else 0
  {
    if steps != [] {
      LastStatus(s, steps[..|steps| - 1]);
      AtMostOneMoreTick(s, steps[..|steps| - 1]);
    }
  }

  /** The poller is in its sleep loop after every proper prefix of the steps. */
  ghost predicate AsleepUntilEnd(s: State, steps: seq<Step>)
    requires IsRun(s, steps)
  {
    steps == [] || (AsleepUntilEnd(s, steps[..|steps| - 1]) && End(s, steps[..|steps| - 1]).pc.Asleep())
  }

  lemma AsleepStep(s: State, step: Step)
    requires Inv(s) && s.pc.Asleep() && CanStep(s, step)
    ensures var t, ticks := Do(s, step), if step.Poll? && s.pc.Sleeping? then 1 else 0;
      if t.pc.Asleep() then t.pc.target == s.pc.target && t.pc.slept == s.pc.slept + POLLER_TICK * ticks
      else t.pc.Halted? || (t.pc.CheckStop? && s.pc.slept + POLLER_TICK * ticks == s.pc.target)
  {
  }

  lemma {:induction false} SleepProgress(s: State, steps: seq<Step>)
    requires Inv(s) && s.pc.Asleep() && IsRun(s, steps) && AsleepUntilEnd(s, steps)
    ensures var t := End(s, steps);
      if t.pc.Asleep() then
        t.pc.target == s.pc.target && t.pc.slept == s.pc.slept + POLLER_TICK * Sleeps(s, steps)
      else
        t.pc.Halted? || (t.pc.CheckStop? && s.pc.slept + POLLER_TICK * Sleeps(s, steps) == s.pc.target)
  {
    hide Do, CanStep, Inv;
    if steps != [] {
      SleepProgress(s, steps[..|steps| - 1]);
      InvRun(s, steps[..|steps| - 1]);
      AsleepStep(End(s, steps[..|steps| - 1]), steps[|steps| - 1]);
    }
  }

  /** Between a send and the next sample the poller sleeps exactly the period that was set
      when it loaded the cadence, in ticks: a change made while it sleeps waits for the next
      load, and only the stop flag cuts the sleep short. */
  lemma CadenceActsAtLoad(s: State, steps: seq<Step>)
    requires Inv(s) && s.pc.LoadingCadence?
    requires IsRun(PollerStep(s), steps) && AsleepUntilEnd(PollerStep(s), steps)
    ensures var t := End(PollerStep(s), steps);
      && (t.pc.CheckStop? ==> POLLER_TICK * Sleeps(PollerStep(s), steps) == s.cadenceMs)
      && (t.pc.Asleep() ==> POLLER_TICK * Sleeps(PollerStep(s), steps) < s.cadenceMs)
      && (!t.pc.CheckStop? && !t.pc.Asleep() ==> t.pc.Halted? && t.stop)
  {
    InvStep(s, Poll);
    SleepProgress(PollerStep(s), steps);
    InvRun(PollerStep(s), steps);
    HaltedAsleep(PollerStep(s), steps);
  }

  lemma {:induction false} HaltedAsleep(s: State, steps: seq<Step>)
    requires s.pc.Asleep() && IsRun(s, steps) && AsleepUntilEnd(s, steps)
    ensures End(s, steps).pc.Halted? ==> End(s, steps).stop
  {
    if steps != [] {
      HaltedAsleep(s, steps[..|steps| - 1]);
    }
  }

  // ---- the cadence that was asked for ----

  /** The cadence that the last `set_status_cadence` of a run asked for; Slow before any. */
  function Requested(steps: seq<Step>): Cadence {
    if steps == [] then Slow
    else
      var last := steps[|steps| - 1];
      if last.Out? && last.o.SetCadence? then last.o.cadence else Requested(steps[..|steps| - 1])
  }

  lemma {:induction false} CadenceIsRequested(log: seq<Event>, steps: seq<Step>)
    requires IsRun(Start(log), steps)
    ensures End(Start(log), steps).cadenceMs == if Requested(steps).Fast? then 25 else 2500
  {
    if steps != [] {
      CadenceIsRequested(log, steps[..|steps| - 1]);
    }
  }

  /** From a load of the cadence to the next sample the poller of a run sleeps one tick when
      the last cadence asked for was Fast, and a hundred ticks when it was Slow or none was;
      fewer only when the stop flag ends it. */
  lemma {:induction false} TicksOfRequestedCadence(log: seq<Event>, before: seq<Step>, steps: seq<Step>)
    requires IsRun(Start(log), before) && End(Start(log), before).pc.LoadingCadence?
    requires var loaded := PollerStep(End(Start(log), before));
      IsRun(loaded, steps) && AsleepUntilEnd(loaded, steps)
    ensures var loaded := PollerStep(End(Start(log), before));
      var t, ticks := End(loaded, steps), if Requested(before).Fast? then 1 else 100;
      && (t.pc.CheckStop? ==> Sleeps(loaded, steps) == ticks)
      && (t.pc.Asleep() ==> Sleeps(loaded, steps) < ticks)
      && (!t.pc.CheckStop? && !t.pc.Asleep() ==> t.pc.Halted? && t.stop)
  {
    hide IsRun, End, AsleepUntilEnd, Sleeps, PollerStep;
    var s := End(Start(log), before);
    InvOfStart(log, before);
    CadenceIsRequested(log, before);
    CadenceActsAtLoad(s, steps);
  }

  lemma InvOfStart(log: seq<Event>, steps: seq<Step>)
    requires IsRun(Start(log), steps)
    ensures Inv(End(Start(log), steps))
  {
    InvRun(Start(log), steps);
  }

  // ---- one status for every sample ----

  /** The samples that a run takes. */
  ghost function Samples(s: State, steps: seq<Step>): nat
    requires IsRun(s, steps)
  {
    if steps == [] then 0
    else
      var init := steps[..|steps| - 1];
      Samples(s, init) + if steps[|steps| - 1].Poll? && End(s, init).pc.Sampling? then 1 else 0
  }

  /** As many statuses were sent as samples taken, but for one that is still to be sent or
      found the channel closed. */
  ghost predicate AllSent(s: State, samples: nat, sent: int) {
    if s.pc.Sending? then samples == sent + 1
    else samples == sent || (samples == sent + 1 && s.pc.Halted? && !s.open)
  }

  lemma StepSends(s: State, step: Step, samples: nat, sent: int)
    requires CanStep(s, step) && AllSent(s, samples, sent)
    ensures AllSent(Do(s, step), if step.Poll? && s.pc.Sampling? then samples + 1 else samples,
                    sent + Own(Do(s, step).log) - Own(s.log))
  {
    OwnSnoc(s.log, OwnStatus);
    OwnSnoc(s.log, Other);
    hide Own;
  }

  /** Every sample is sent, once, unless the send is still to come or the channel was closed in
      front of it; and no status is sent without a sample. */
  lemma {:induction false} OneStatusPerSample(log: seq<Event>, steps: seq<Step>)
    requires IsRun(Start(log), steps)
    ensures var s := End(Start(log), steps);
      AllSent(s, Samples(Start(log), steps), Own(s.log) - Own(log))
  {
    hide AllSent, Do, CanStep;
    if steps == [] {
      NothingSent(log);
    } else {
      var init, last := steps[..|steps| - 1], steps[|steps| - 1];
      OneStatusPerSample(log, init);
      var s := End(Start(log), init);
      StepSends(s, last, Samples(Start(log), init), Own(s.log) - Own(log));
    }
  }

  lemma NothingSent(log: seq<Event>)
    ensures AllSent(Start(log), 0, 0)
  {
  }

  /** A new device sends its first status at once, before it has slept at all; when the
      channel is closed by then, its thread ends instead. */
  lemma {:induction false} FirstStatus(log: seq<Event>)
    ensures var steps := [Poll, Poll, Poll];
      && IsRun(Start(log), steps)
      && End(Start(log), steps) == Start(log).(pc := LoadingCadence, log := log + [OwnStatus])
    ensures var steps := [Out(CloseChannel), Poll, Poll, Poll];
      && IsRun(Start(log), steps)
      && End(Start(log), steps) == Start(log).(pc := Halted, open := false)
  {
    var s := Start(log);
    ThreePolls(s, []);
    RunSnoc(s, [], Out(CloseChannel));
    ThreePolls(s, [] + [Out(CloseChannel)]);
    assert [] + [Poll] + [Poll] + [Poll] == [Poll, Poll, Poll];
    assert [] + [Out(CloseChannel)] + [Poll] + [Poll] + [Poll] == [Out(CloseChannel), Poll, Poll, Poll];
  }

  lemma ThreePolls(s: State, steps: seq<Step>)
    requires IsRun(s, steps) && End(s, steps).pc.CheckStop? && !End(s, steps).stop
    ensures IsRun(s, steps + [Poll] + [Poll] + [Poll])
    ensures End(s, steps + [Poll] + [Poll] + [Poll]) ==
      var t := End(s, steps);
      if t.open then t.(pc := LoadingCadence, log := t.log + [OwnStatus]) else t.(pc := Halted)
  {
    RunSnoc(s, steps, Poll);
    RunSnoc(s, steps + [Poll], Poll);
    RunSnoc(s, steps + [Poll] + [Poll], Poll);
  }

  // ---- the loop itself ----

  /** What the poller thread shares with the others, and a clock of its own steps. In front
      of its n-th step the others take the steps outside(n), as far as they can; in front of
      step number `deadline` and later the owner drops the device if it has not yet. */
  class World {
    const outside: nat -> seq<Outside>
    const deadline: nat
    var now: nat
    var s: State
    ghost const start: State
    ghost var steps: seq<Step>

    /** The steps taken so far are a run that leads here. */
    ghost predicate Valid()
      reads this
    {
      IsRun(start, steps) && End(start, steps) == s && Inv(s)
    }

    constructor (outside: nat -> seq<Outside>, deadline: nat, log: seq<Event>)
      ensures Valid() && s == start == Start(log) && now == 0
      ensures this.outside == outside && this.deadline == deadline
    {
      this.outside, this.deadline := outside, deadline;
      now, s := 0, Start(log);
      start, steps := Start(log), [];
    }

    method Take(step: Step)
      requires Valid() && CanStep(s, step)
      modifies this`s, this`steps
      ensures Valid() && s == Do(old(s), step) && steps == old(steps) + [step]
    {
      RunSnoc(start, steps, step);
      InvStep(s, step);
      s := Do(s, step);
      steps := steps + [step];
    }

    method Interfere()
      requires Valid() && !s.pc.Halted?
      modifies this`s, this`steps
      ensures Valid() && s.pc == old(s.pc) && old(steps) <= steps
      ensures now >= deadline ==> s.stop
    {
      var others := outside(now);
      for i := 0 to |others|
        invariant Valid() && s.pc == old(s.pc) && old(steps) <= steps
      {
        hide IsRun, End, Inv;
        if Enabled(s, others[i]) {
          Take(Out(others[i]));
        }
      }
      if now >= deadline && s.owner.Using? {
        Take(Out(SetStop));
      }
    }

    /** The poller's next step, after the others have had their turn. */
    method Poll() returns (ghost was: State)
      requires Valid() && !s.pc.Halted?
      modifies this`s, this`steps, this`now
      ensures Valid() && now == old(now) + 1
      ensures was.pc == old(s.pc) && s == PollerStep(was) && Inv(was)
      ensures old(now) >= deadline ==> was.stop
      ensures old(steps) < steps
    {
      Interfere();
      was := s;
      Take(Step.Poll);
      now := now + 1;
    }

    method LoadStop() returns (stopped: bool)
      requires Valid() && (s.pc.CheckStop? || s.pc.CheckStopAsleep?)
      modifies this`s, this`steps, this`now
      ensures Valid() && old(steps) < steps && now == old(now) + 1
      ensures stopped ==> s.pc.Halted? && s.stop
      ensures !stopped ==> old(now) < deadline
      ensures !stopped ==>
        s.pc == if old(s.pc).CheckStop? then Sampling else Sleeping(old(s.pc).target, old(s.pc).slept)
    {
      hide IsRun, End, Inv;
      ghost var was := Poll();
      stopped := s.pc.Halted?;
    }

    method Sample()
      requires Valid() && s.pc.Sampling?
      modifies this`s, this`steps, this`now
      ensures Valid() && old(steps) < steps && now == old(now) + 1 && s.pc.Sending?
    {
      hide IsRun, End, Inv;
      ghost var was := Poll();
    }

    method Send() returns (ok: bool)
      requires Valid() && s.pc.Sending?
      modifies this`s, this`steps, this`now
      ensures Valid() && old(steps) < steps && now == old(now) + 1
      ensures if ok then s.pc.LoadingCadence? else s.pc.Halted? && !s.open
    {
      hide IsRun, End, Inv;
      ghost var was := Poll();
      ok := !s.pc.Halted?;
    }

    method LoadCadence() returns (target: nat)
      requires Valid() && s.pc.LoadingCadence?
      modifies this`s, this`steps, this`now
      ensures Valid() && old(steps) < steps && now == old(now) + 1
      ensures s.pc == SleepLoop(target, 0) && target == s.cadenceMs
    {
      hide IsRun, End, Inv;
      ghost var was := Poll();
      target := s.cadenceMs;
    }

    method Sleep()
      requires Valid() && s.pc.Sleeping?
      modifies this`s, this`steps, this`now
      ensures Valid() && old(steps) < steps && now == old(now) + 1
      ensures s.pc == SleepLoop(old(s.pc).target, old(s.pc).slept + POLLER_TICK)
    {
      hide IsRun, End, Inv;
      ghost var was := Poll();
    }
  }

  /** `poll_loop`: whatever the others do, it takes the poller's steps of a run to its end. */
  method PollLoop(w: World)
    requires w.Valid() && w.s.pc.CheckStop?
    modifies w`s, w`steps, w`now
    ensures w.Valid() && old(w.steps) < w.steps
    ensures w.s.pc.Halted? && (w.s.stop || !w.s.open)
  {
    hide IsRun, End, Inv;
    var stopped := w.LoadStop();
    while !stopped
      invariant w.Valid() && old(w.steps) < w.steps
      invariant if stopped then w.s.pc.Halted? && w.s.stop else w.s.pc.Sampling? && w.now <= w.deadline
      decreases w.deadline - w.now
    {
      ghost var at := w.now;
      w.Sample();
      var ok := w.Send();
      if !ok {
        return;
      }
      var target := w.LoadCadence();
      var slept := 0;
      while slept < target
        invariant w.Valid() && old(w.steps) < w.steps
        invariant w.s.pc == SleepLoop(target, slept)
        invariant at < w.now
      {
        stopped := w.LoadStop();
        if stopped {
          return;
        }
        w.Sleep();
        slept := slept + POLLER_TICK;
      }
      stopped := w.LoadStop();
    }
  }
}
