/** The event channel as its receivers see it. `Devices::events` hands out clones of one
    receiver (crates/libobsbot-core/src/discovery.rs), and clones share one queue. */
module Subscribers {
  import opened Hotplug
  import opened HotplugLaws

  /** An event that a receiver took. */
  datatype Delivery = Delivery(receiver: nat, event: Event)

  datatype Step = Send(event: Event) | Receive(receiver: nat)

  /** All that was sent, what is still queued, and what was taken, in order. */
  datatype Queue = Queue(sent: seq<Event>, waiting: seq<Event>, taken: seq<Delivery>)

  /** A send appends; a receive takes the oldest event, if there is one, for one receiver. */
  function Do(q: Queue, step: Step): Queue {
    match step
    case Send(e) => q.(sent := q.sent + [e], waiting := q.waiting + [e])
    case Receive(r) =>
      if q.waiting == [] then q
      else q.(waiting := q.waiting[1..], taken := q.taken + [Delivery(r, q.waiting[0])])
  }

  function After(steps: seq<Step>): Queue {
    if steps == [] then Queue([], [], []) else Do(After(steps[..|steps| - 1]), steps[|steps| - 1])
  }

  /** The events that one receiver saw. */
  function Seen(taken: seq<Delivery>, r: nat): seq<Event> {
    if taken == [] then []
    else
      var last := taken[|taken| - 1];
      Seen(taken[..|taken| - 1], r) + if last.receiver == r then [last.event] else []
  }

  function EventsOf(taken: seq<Delivery>): (events: seq<Event>)
    ensures |events| == |taken|
  {
    if taken == [] then [] else EventsOf(taken[..|taken| - 1]) + [taken[|taken| - 1].event]
  }

  lemma EventsOfSnoc(taken: seq<Delivery>, d: Delivery)
    ensures EventsOf(taken + [d]) == EventsOf(taken) + [d.event]
  {
    assert (taken + [d])[..|taken + [d]| - 1] == taken;
  }

  lemma Passed<T>(a: seq<T>, b: seq<T>, c: seq<T>)
    requires b != [] && a + b == c
    ensures a + [b[0]] + b[1..] == c
  {
    assert b == [b[0]] + b[1..];
  }

  lemma Appended<T>(a: seq<T>, b: seq<T>, c: seq<T>, e: T)
    requires a + b == c
    ensures a + (b + [e]) == c + [e]
  {
  }

  ghost predicate Conserved(q: Queue) {
    EventsOf(q.taken) + q.waiting == q.sent
  }

  lemma StepConserves(q: Queue, step: Step)
    requires Conserved(q)
    ensures Conserved(Do(q, step))
  {
    hide EventsOf;
    if step.Send? {
      Appended(EventsOf(q.taken), q.waiting, q.sent, step.event);
    } else if q.waiting != [] {
      EventsOfSnoc(q.taken, Delivery(step.receiver, q.waiting[0]));
      Passed(EventsOf(q.taken), q.waiting, q.sent);
    }
  }

  /** Nothing is lost, repeated or reordered: what was taken, by whomever, and then what
      waits is what was sent. */
  lemma {:induction false} NothingIsLost(steps: seq<Step>)
    ensures Conserved(After(steps))
  {
    hide Conserved, Do;
    if steps == [] {
      StartConserves();
    } else {
      NothingIsLost(steps[..|steps| - 1]);
      StepConserves(After(steps[..|steps| - 1]), steps[|steps| - 1]);
    }
  }

  lemma StartConserves()
    ensures Conserved(Queue([], [], []))
  {
  }

  ghost predicate OnlyTaker(taken: seq<Delivery>, r: nat) {
    forall i :: 0 <= i < |taken| ==> taken[i].receiver == r
  }

  lemma {:induction false} SeenIsAll(taken: seq<Delivery>, r: nat)
    ensures |Seen(taken, r)| <= |taken|
    ensures |Seen(taken, r)| == |taken| <==> OnlyTaker(taken, r)
    ensures OnlyTaker(taken, r) ==> Seen(taken, r) == EventsOf(taken)
  {
    if taken != [] {
      var rest := taken[..|taken| - 1];
      SeenIsAll(rest, r);
      assert OnlyTaker(taken, r) <==> OnlyTaker(rest, r) && taken[|taken| - 1].receiver == r by {
        if OnlyTaker(rest, r) && taken[|taken| - 1].receiver == r {
          forall i | 0 <= i < |taken| ensures taken[i].receiver == r {
            if i < |rest| { assert rest[i] == taken[i]; }
          }
        }
      }
    }
  }

  lemma {:induction false} SeenAddsUp(taken: seq<Delivery>, a: nat, b: nat)
    requires a != b
    ensures |Seen(taken, a)| + |Seen(taken, b)| <= |taken|
  {
    if taken != [] {
      SeenAddsUp(taken[..|taken| - 1], a, b);
    }
  }

  /** A subscriber sees every event that was sent exactly when none is waiting and no other
      subscriber took one. */
  lemma SeesAllIffAlone(steps: seq<Step>, r: nat)
    ensures var q := After(steps);
      Seen(q.taken, r) == q.sent <==> q.waiting == [] && OnlyTaker(q.taken, r)
  {
    hide After, Seen, EventsOf;
    var q := After(steps);
    NothingIsLost(steps);
    SeenIsAll(q.taken, r);
    assert |q.sent| == |q.taken| + |q.waiting|;
    if q.waiting == [] {
      assert EventsOf(q.taken) + [] == EventsOf(q.taken);
    }
  }

  /** Events are not broadcast: what two subscribers see together is no more than was sent. */
  lemma NotBroadcast(steps: seq<Step>, a: nat, b: nat)
    requires a != b
    ensures var q := After(steps); |Seen(q.taken, a)| + |Seen(q.taken, b)| <= |q.sent|
  {
    hide After, Seen;
    NothingIsLost(steps);
    SeenAddsUp(After(steps).taken, a, b);
  }

  // ---- what a subscriber can count ----

  /** The events that all receivers but one saw. */
  function SeenByOthers(taken: seq<Delivery>, r: nat): seq<Event> {
    if taken == [] then []
    else
      var last := taken[|taken| - 1];
      SeenByOthers(taken[..|taken| - 1], r) + if last.receiver == r then [] else [last.event]
  }

  lemma OneMoreCounts(events: seq<Event>, e: Event, serial: string)
    ensures Balance(Changes(events + [e]), serial) == Balance(Changes(events), serial) + Balance(Changes([e]), serial)
  {
    hide *;
    ChangesConcat(events, [e]);
    BalanceConcat(Changes(events), Changes([e]), serial);
  }

  lemma NothingMoreCounts(events: seq<Event>)
    ensures events + [] == events
  {
  }

  /** What one receiver counts and what the others count adds up. */
  lemma {:induction false} BalancesAddUp(taken: seq<Delivery>, r: nat, serial: string)
    ensures Balance(Changes(Seen(taken, r)), serial) + Balance(Changes(SeenByOthers(taken, r)), serial)
         == Balance(Changes(EventsOf(taken)), serial)
  {
    hide Balance, Changes;
    if taken == [] {
      NothingCounts(serial);
    } else {
      var rest, last := taken[..|taken| - 1], taken[|taken| - 1];
      BalancesAddUp(rest, r, serial);
      OneMoreCounts(EventsOf(rest), last.event, serial);
      OneMoreCounts(Seen(rest, r), last.event, serial);
      OneMoreCounts(SeenByOthers(rest, r), last.event, serial);
      NothingMoreCounts(Seen(rest, r));
      NothingMoreCounts(SeenByOthers(rest, r));
    }
  }

  lemma NothingCounts(serial: string)
    ensures Balance(Changes([]), serial) == 0
  {
  }

  /** A subscriber of a watcher whose events have all been read counts the devices with a
      serial number, less the drift, less what the other subscribers count. */
  lemma {:induction false} SubscriberCounts(nodes: nat -> seq<Node>, rounds: nat, cs: seq<Change>, steps: seq<Step>,
                                            r: nat, serial: string)
    requires IsRun(nodes, rounds, cs) && Changes(After(steps).sent) == cs && After(steps).waiting == []
    ensures Balance(Changes(Seen(After(steps).taken, r)), serial)
         == Count(KnownAfter(nodes, rounds), serial) - DriftSoFar(nodes, rounds, serial)
            - Balance(Changes(SeenByOthers(After(steps).taken, r)), serial)
  {
    var q := After(steps);
    NothingIsLost(steps);
    assert EventsOf(q.taken) + q.waiting == EventsOf(q.taken) == q.sent;
    hide *;
    BalancesAddUp(q.taken, r, serial);
    SerialBalance(nodes, rounds, cs, serial);
  }

  /** The only subscriber of a watcher, having read everything, counts the devices with each
      serial number, less the drift: exactly when there is none. */
  lemma {:induction false} LoneSubscriberCounts(nodes: nat -> seq<Node>, rounds: nat, cs: seq<Change>, steps: seq<Step>,
                                                r: nat, serial: string)
    requires IsRun(nodes, rounds, cs) && Changes(After(steps).sent) == cs
    requires After(steps).waiting == [] && OnlyTaker(After(steps).taken, r)
    ensures var counted, present :=
        Balance(Changes(Seen(After(steps).taken, r)), serial), Count(KnownAfter(nodes, rounds), serial);
      && counted == present - DriftSoFar(nodes, rounds, serial)
      && (counted == present <==> DriftSoFar(nodes, rounds, serial) == 0)
  {
    hide *;
    SeesAllIffAlone(steps, r);
    SerialBalance(nodes, rounds, cs, serial);
  }

  lemma AfterSnoc(steps: seq<Step>, step: Step)
    ensures After(steps + [step]) == Do(After(steps), step)
  {
    assert (steps + [step])[..|steps + [step]| - 1] == steps;
  }

  lemma SeenOfTwo(d: Delivery, e: Delivery, r: nat)
    requires d.receiver == r && e.receiver != r
    ensures Seen([d, e], r) == [d.event]
  {
    assert [d, e][..1] == [d] && [d][..0] == [];
    assert Seen([d], r) == [d.event];
  }

  lemma BalanceOfTwo(c: Change)
    requires c.added
    ensures Balance(Changes([Hotplug(c)]), c.serial) == 1
    ensures Balance(Changes([Hotplug(c), Hotplug(c.(added := false))]), c.serial) == 0
  {
    var gone := c.(added := false);
    assert [Hotplug(c)][..0] == [] && [Hotplug(c), Hotplug(gone)][..1] == [Hotplug(c)];
    assert Changes([Hotplug(c)]) == [c];
    assert Changes([Hotplug(c), Hotplug(gone)]) == [c, gone];
    assert [c][..0] == [] && [c, gone][..1] == [c];
  }

  /** With two subscribers both may end up wrong: when one takes the addition and the other
      the removal, the first goes on counting a device that is gone. */
  lemma TwoSubscribersAreMisled(c: Change)
    requires c.added
    ensures var q := After([Send(Hotplug(c))] + [Send(Hotplug(c.(added := false)))] + [Receive(0)] + [Receive(1)]);
      && q.waiting == [] && Balance(Changes(q.sent), c.serial) == 0
      && Balance(Changes(Seen(q.taken, 0)), c.serial) == 1
  {
    hide Changes, Balance, Seen, After;
    var come, gone := Hotplug(c), Hotplug(c.(added := false));
    AfterNothing();
    AfterSnoc([], Send(come));
    assert [] + [Send(come)] == [Send(come)];
    AfterSnoc([Send(come)], Send(gone));
    AfterSnoc([Send(come)] + [Send(gone)], Receive(0));
    AfterSnoc([Send(come)] + [Send(gone)] + [Receive(0)], Receive(1));
    var q := After([Send(come)] + [Send(gone)] + [Receive(0)] + [Receive(1)]);
    assert q == Queue([come, gone], [], [Delivery(0, come), Delivery(1, gone)]);
    SeenOfTwo(Delivery(0, come), Delivery(1, gone), 0);
    BalanceOfTwo(c);
  }

  lemma AfterNothing()
    ensures After([]) == Queue([], [], [])
  {
  }
}
