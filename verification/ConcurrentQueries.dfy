/** Queries from several threads at once. The calls of an open device take it shared
    (crates/libobsbot-core/src/device.rs) and its transport is open to all threads
    (crates/libobsbot-core/src/transport/mod.rs), so the SETs and GETs of different queries
    interleave on one mailbox. */
module ConcurrentQueries {
  import opened Wrappers
  import opened Bytes
  import opened RpcFrame
  import opened Handshake
  import opened Session

  /** A query that has sent its SET: what its polls were shown so far, and its result once
      it has one. */
  datatype Query = Query(kind: Kind, seen: seq<Frame>, result: Option<Result<Answer, Error>>)

  datatype State = State(mailbox: Mailbox, queries: seq<Query>)

  datatype Event =
    | Begin(kind: Kind, reply: Frame)  // a thread's SET; the camera queues its reply
    | Publish                          // the camera shows the next reply of its queue
    | Poll(q: nat)                     // one GET of one query

  /** A poll: the decoded value ends the query, and so does the tenth poll. */
  function Polled(q: Query, shown: Frame): Query {
    var seen := q.seen + [shown];
    match DecodeAs(q.kind)(shown)
    case Some(value) => q.(seen := seen, result := Some(Ok(value)))
    case None =>
      if |seen| < RPC_REPLY_POLL_ATTEMPTS then q.(seen := seen)
      else q.(seen := seen, result := Some(Err(BadResponse(XU_SEL_RPC, shown))))
  }

  /** The camera answers truthfully; only a query without a result polls. */
  ghost predicate CanHappen(s: State, e: Event, identity: Kind -> Answer) {
    match e
    case Begin(kind, reply) => DecodeAs(kind)(reply) == Some(identity(kind))
    case Publish => s.mailbox.queue != []
    case Poll(q) => q < |s.queries| && s.queries[q].result.None?
  }

  function Happen(s: State, e: Event): State
    requires e.Publish? ==> s.mailbox.queue != []
    requires e.Poll? ==> e.q < |s.queries|
  {
    match e
    case Begin(kind, reply) =>
      State(Mailbox(s.mailbox.slot, s.mailbox.queue + [reply]), s.queries + [Query(kind, [], None)])
    case Publish => s.(mailbox := s.mailbox.Published(1))
    case Poll(q) => s.(queries := s.queries[q := Polled(s.queries[q], s.mailbox.slot)])
  }

  /** A run: states[i] is the state before event i. */
  ghost predicate IsRun(states: seq<State>, events: seq<Event>, identity: Kind -> Answer) {
    && |states| == |events| + 1
    && forall i :: 0 <= i < |events| ==>
         CanHappen(states[i], events[i], identity) && states[i + 1] == Happen(states[i], events[i])
  }

  // ---- what every event keeps ----

  /** The GETs of a query, as the handshake sees them. */
  function GetsOf(seen: seq<Frame>): Gets {
    (i: nat) => Ok(if i < |seen| then seen[i] else ZeroBytes(RPC_FRAME_LEN))
  }

  /** A query without a result has been shown fewer than ten frames, and none that decodes. A
      result is the handshake's outcome on what was shown, and the truth or BadResponse. */
  ghost predicate Sound(q: Query, identity: Kind -> Answer) {
    match q.result
    case None =>
      && |q.seen| < RPC_REPLY_POLL_ATTEMPTS
      && forall i :: 0 <= i < |q.seen| ==> DecodeAs(q.kind)(q.seen[i]) == None
    case Some(r) =>
      && Outcome(GetsOf(q.seen), 0, DecodeAs(q.kind), |q.seen|, r)
      && (r == Ok(identity(q.kind)) || (r.Err? && r.error.BadResponse?))
  }

  ghost predicate Inv(s: State, identity: Kind -> Answer) {
    HarmlessMailbox(s.mailbox, identity) && forall q :: 0 <= q < |s.queries| ==> Sound(s.queries[q], identity)
  }

  lemma ShownInTurn(seen: seq<Frame>, i: nat)
    requires i < |seen|
    ensures GetsOf(seen)(i).Ok? && BufferAfter(GetsOf(seen), 0, i + 1) == seen[i]
  {
    FullReadReplaces(GetsOf(seen), 0, i + 1);
  }

  lemma PollIsSound(q: Query, shown: Frame, identity: Kind -> Answer)
    requires Sound(q, identity) && q.result.None? && Harmless(shown, identity)
    ensures Sound(Polled(q, shown), identity)
  {
    hide DecodeAs, BufferAfter, GetsOf;
    var seen := q.seen + [shown];
    assert DecodeAs(q.kind)(shown) == None || DecodeAs(q.kind)(shown) == Some(identity(q.kind));
    forall i | 0 <= i < |q.seen| ensures Missed(GetsOf(seen), 0, DecodeAs(q.kind), i) {
      ShownInTurn(seen, i);
      assert seen[i] == q.seen[i];
    }
    ShownInTurn(seen, |q.seen|);
  }

  lemma PublishIsHarmless(m: Mailbox, identity: Kind -> Answer)
    requires HarmlessMailbox(m, identity) && m.queue != []
    ensures HarmlessMailbox(m.Published(1), identity)
  {
    hide Harmless;
    ShownIsHarmless(m, 1, identity);
  }

  lemma EventKeepsInv(s: State, e: Event, identity: Kind -> Answer)
    requires Inv(s, identity) && CanHappen(s, e, identity)
    ensures Inv(Happen(s, e), identity)
  {
    match e
    case Begin(kind, reply) =>
      TruthIsHarmless(reply, kind, identity);
      hide DecodeAs, Harmless, Sound;
      OneMoreIsHarmless(s.mailbox, reply, identity);
      FreshIsSound(kind, identity);
    case Publish =>
      hide DecodeAs, Harmless, Sound, HarmlessMailbox;
      PublishIsHarmless(s.mailbox, identity);
    case Poll(q) =>
      hide DecodeAs, Harmless, Sound, Polled;
      PollIsSound(s.queries[q], s.mailbox.slot, identity);
  }

  lemma FreshIsSound(kind: Kind, identity: Kind -> Answer)
    ensures Sound(Query(kind, [], None), identity)
  {
  }

  lemma {:induction false} RunKeepsInv(states: seq<State>, events: seq<Event>, identity: Kind -> Answer, i: nat)
    requires IsRun(states, events, identity) && Inv(states[0], identity) && i <= |events|
    ensures Inv(states[i], identity)
  {
    hide Inv, CanHappen, Happen;
    if i > 0 {
      RunKeepsInv(states, events, identity, i - 1);
      EventKeepsInv(states[i - 1], events[i - 1], identity);
    }
  }

  /** However the SETs, GETs and publications of any number of queries interleave, from a
      mailbox that holds no untruth every query that ends returns the truth or BadResponse,
      and just what the handshake makes of the frames it was shown. */
  lemma {:induction false} InterleavedQueriesAreRight(states: seq<State>, events: seq<Event>,
                                                      identity: Kind -> Answer, i: nat, q: nat)
    requires IsRun(states, events, identity) && i <= |events|
    requires HarmlessMailbox(states[0].mailbox, identity) && states[0].queries == []
    requires q < |states[i].queries| && states[i].queries[q].result.Some?
    ensures var query := states[i].queries[q];
      var r := query.result.value;
      && (r == Ok(identity(query.kind)) || (r.Err? && r.error.BadResponse?))
      && Outcome(GetsOf(query.seen), 0, DecodeAs(query.kind), |query.seen|, r)
  {
    hide DecodeAs, Outcome, HarmlessMailbox;
    RunKeepsInv(states, events, identity, i);
    assert Sound(states[i].queries[q], identity);
  }
}
