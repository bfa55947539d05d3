/** The publish-and-confirm protocol.  Callers are serialised by a mutex; the broker confirms
    messages in order on a channel whose readers cannot tell which message a confirmation is
    for.  The state is explored step by step, in every interleaving of callers, Close, the
    broker and the loss of the channel. */
module Publisher {
  import opened Prelude

  /** What the holder of the mutex is doing; `own` is the tag of its message. */
  datatype Phase = Free | Holding | Waiting(own: nat) | Draining(own: nat)

  /** How a call of Publish returned.  `seen` is the tag of the confirmation it read, and
      `lost` the number of drains that had timed out by then. */
  datatype Return =
    | ErrClosed
    | ErrSend
    | ErrAborted(own: nat)
    | ErrChannel(own: nat)
    | ErrNacked(own: nat, seen: nat, lost: nat)
    | Acked(own: nat, seen: nat, lost: nat)

  datatype State = State(
    phase: Phase,
    closed: bool,
    channelOpen: bool,
    sent: nat,        // messages accepted by the channel, numbered from 1: confirmations owed
    emitted: nat,     // confirmations the broker has put on the channel, in order
    consumed: nat,    // confirmations read from it, by a caller or by a drain
    lost: nat,        // drains that timed out
    results: seq<Return>
  )

  datatype Event =
    | Lock
    | FindClosed
    | SendFails
    | Send
    | Confirm
    | Receive
    | FindChannelClosed
    | GiveUp
    | DrainReceive
    | DrainFindsClosed
    | DrainTimesOut
    | ChannelLost
    | Close(channelStays: bool)

  predicate Initial(s: State) {
    s == State(Free, false, true, 0, 0, 0, 0, [])
  }

  predicate Enabled(s: State, e: Event) {
    match e
    case Lock => s.phase == Free
    case FindClosed => s.phase == Holding && s.closed
    case SendFails => s.phase == Holding && !s.closed
    case Send => s.phase == Holding && !s.closed && s.channelOpen
    case Confirm => s.channelOpen && s.emitted < s.sent
    case Receive => s.phase.Waiting? && s.consumed < s.emitted
    case FindChannelClosed => s.phase.Waiting? && !s.channelOpen && s.consumed == s.emitted
    case GiveUp => s.phase.Waiting?
    case DrainReceive => s.phase.Draining? && s.consumed < s.emitted
    case DrainFindsClosed => s.phase.Draining? && !s.channelOpen && s.consumed == s.emitted
    case DrainTimesOut => s.phase.Draining?
    case ChannelLost => s.channelOpen
    case Close(_) => s.phase == Free
  }

  function Release(s: State, r: Return): State {
    s.(phase := Free, results := s.results + [r])
  }

  /** `verdict` is the broker's answer to each message. */
  function Next(verdict: nat -> bool, s: State, e: Event): State
    requires Enabled(s, e)
  {
    match e
    case Lock => s.(phase := Holding)
    case FindClosed => Release(s, ErrClosed)
    case SendFails => Release(s, ErrSend)
    case Send => s.(sent := s.sent + 1, phase := Waiting(s.sent + 1))
    case Confirm => s.(emitted := s.emitted + 1)
    case Receive =>
      var own, seen := s.phase.own, s.consumed + 1;
      Release(s.(consumed := seen), if verdict(seen) then Acked(own, seen, s.lost) else ErrNacked(own, seen, s.lost))
    case FindChannelClosed => Release(s, ErrChannel(s.phase.own))
    case GiveUp => s.(phase := Draining(s.phase.own))
    case DrainReceive => Release(s.(consumed := s.consumed + 1), ErrAborted(s.phase.own))
    case DrainFindsClosed => Release(s, ErrAborted(s.phase.own))
    case DrainTimesOut => Release(s.(lost := s.lost + 1), ErrAborted(s.phase.own))
    case ChannelLost => s.(channelOpen := false)
    case Close(channelStays) =>
      if s.closed then s else s.(closed := true, channelOpen := s.channelOpen && channelStays)
  }

  predicate Run(verdict: nat -> bool, s: State, events: seq<Event>, s': State)
    decreases events
  {
    if events == [] then s' == s
    else Enabled(s, events[0]) && Run(verdict, Next(verdict, s, events[0]), events[1..], s')
  }

  /** What a return says about the confirmation it read. */
  predicate Attributed(verdict: nat -> bool, r: Return) {
    match r
    case Acked(own, seen, lost) => seen + lost == own && verdict(seen)
    case ErrNacked(own, seen, lost) => seen + lost == own && !verdict(seen)
    case _ => true
  }

  /** The confirmations outstanding are those of the timed-out drains, plus one while a caller
      waits for its own; a lost channel can only leave more behind. */
  predicate Balanced(s: State) {
    && s.consumed <= s.emitted <= s.sent
    && (if s.phase.Waiting? || s.phase.Draining?
        then s.phase.own == s.sent && s.sent == s.consumed + s.lost + 1
        else if s.channelOpen then s.sent == s.consumed + s.lost
        else s.sent >= s.consumed + s.lost)
  }

  predicate Inv(verdict: nat -> bool, s: State) {
    Balanced(s) && forall i :: 0 <= i < |s.results| ==> Attributed(verdict, s.results[i])
  }

  predicate ReadsConfirmation(r: Return) {
    r.Acked? || r.ErrNacked?
  }

  /** One step keeps the invariant; it adds at most one result, which knows how many drains
      had timed out. */
  lemma StepKeepsInv(verdict: nat -> bool, s: State, e: Event)
    requires Inv(verdict, s) && Enabled(s, e)
    ensures var s' := Next(verdict, s, e);
            && Inv(verdict, s') && s.lost <= s'.lost
            && (s'.results == s.results ||
                (exists r :: s'.results == s.results + [r] && (ReadsConfirmation(r) ==> r.lost == s.lost)))
  {
    var s' := Next(verdict, s, e);
    assert s'.results == s.results || s'.results == s.results + [s'.results[|s.results|]];
  }

  /** Over a run the invariant is kept, results are only added, and each added one knows a
      number of timed-out drains between the first and the last. */
  lemma {:induction false} RunKeepsInv(verdict: nat -> bool, s: State, events: seq<Event>, s': State)
    requires Inv(verdict, s) && Run(verdict, s, events, s')
    ensures Inv(verdict, s') && s.results <= s'.results && s.lost <= s'.lost
    ensures forall i :: |s.results| <= i < |s'.results| && ReadsConfirmation(s'.results[i]) ==>
              s.lost <= s'.results[i].lost <= s'.lost
    decreases events
  {
    if events != [] {
      StepKeepsInv(verdict, s, events[0]);
      RunKeepsInv(verdict, Next(verdict, s, events[0]), events[1..], s');
    }
  }

  lemma InitialInv(verdict: nat -> bool, s: State)
    requires Initial(s)
    ensures Inv(verdict, s)
  {
  }

  lemma FreeBalance(s: State)
    requires Balanced(s) && s.phase == Free && s.channelOpen
    ensures s.sent - s.consumed == s.lost
  {
  }

  lemma AttributedMeans(verdict: nat -> bool, r: Return)
    requires Attributed(verdict, r) && ReadsConfirmation(r)
    ensures r.seen + r.lost == r.own && (r.Acked? <==> verdict(r.seen)) && (r.seen == r.own <==> r.lost == 0)
  {
  }

  lemma {:induction false} ReachedInv(verdict: nat -> bool, s: State, events: seq<Event>, s': State)
    requires Initial(s) && Run(verdict, s, events, s')
    ensures Inv(verdict, s')
    ensures forall i :: 0 <= i < |s'.results| && ReadsConfirmation(s'.results[i]) ==> s'.results[i].lost <= s'.lost
  {
    InitialInv(verdict, s);
    RunKeepsInv(verdict, s, events, s');
  }

  lemma {:induction false} ReachedAttributed(verdict: nat -> bool, s: State, events: seq<Event>, s': State, i: nat)
    requires Initial(s) && Run(verdict, s, events, s') && i < |s'.results| && ReadsConfirmation(s'.results[i])
    ensures Attributed(verdict, s'.results[i]) && s'.results[i].lost <= s'.lost
  {
    ReachedInv(verdict, s, events, s');
  }

  // ----- Theorems -----

  /** In every interleaving, with the channel open and the mutex free, the confirmations owed
      but not consumed are exactly as many as the drains that timed out. */
  lemma {:induction false} OutstandingIsLostDrains(verdict: nat -> bool, s: State, events: seq<Event>, s': State)
    requires Initial(s) && Run(verdict, s, events, s') && s'.channelOpen && s'.phase == Free
    ensures s'.sent - s'.consumed == s'.lost
  {
    ReachedInv(verdict, s, events, s');
    FreeBalance(s');
  }

  /** In every interleaving, whatever happens to the channel, a return that read a confirmation
      read the one for the message sent `lost` messages before its own.  So it is the broker's
      answer to that very message exactly when no drain had timed out. */
  lemma {:induction false} ConfirmationIsShiftedByLostDrains(verdict: nat -> bool, s: State, events: seq<Event>, s': State, i: nat)
    requires Initial(s) && Run(verdict, s, events, s') && i < |s'.results| && ReadsConfirmation(s'.results[i])
    ensures var r := s'.results[i];
            && r.seen + r.lost == r.own
            && (r.Acked? <==> verdict(r.seen))
            && (r.seen == r.own <==> r.lost == 0)
            && r.lost <= s'.lost
  {
    ReachedAttributed(verdict, s, events, s', i);
    AttributedMeans(verdict, s'.results[i]);
  }

  /** Hence with no timed-out drain every nil return of Publish is the broker's acknowledgement
      of that very message, and every nack is that message's nack. */
  lemma {:induction false} NilMeansAcked(verdict: nat -> bool, s: State, events: seq<Event>, s': State, i: nat)
    requires Initial(s) && Run(verdict, s, events, s') && s'.lost == 0 && i < |s'.results|
    ensures s'.results[i].Acked? ==> verdict(s'.results[i].own)
    ensures s'.results[i].ErrNacked? ==> !verdict(s'.results[i].own)
  {
    if ReadsConfirmation(s'.results[i]) {
      ConfirmationIsShiftedByLostDrains(verdict, s, events, s', i);
    }
  }

  /** The shift is permanent: once a drain has timed out, no later return ever reads its own
      confirmation again. */
  lemma {:induction false} LostDrainIsNeverRepaired(verdict: nat -> bool, s: State, events: seq<Event>, s': State, i: nat)
    requires Inv(verdict, s) && s.lost > 0 && Run(verdict, s, events, s')
    requires |s.results| <= i < |s'.results| && ReadsConfirmation(s'.results[i])
    ensures s'.results[i].seen < s'.results[i].own
  {
    RunKeepsInv(verdict, s, events, s');
    assert Attributed(verdict, s'.results[i]);
  }

  /** The case is real: after one timed-out drain, Publish returns nil for a message the broker
      refused. */
  lemma NilForRefusedMessage(verdict: nat -> bool, s: State)
    requires Initial(s) && verdict(1) && !verdict(2)
    ensures exists events, s' :: Run(verdict, s, events, s') && s'.results == [ErrAborted(1), Acked(2, 1, 1)]
  {
    var events := [Lock, Send, GiveUp, DrainTimesOut, Confirm, Lock, Send, Receive];
    var s1 := State(Holding, false, true, 0, 0, 0, 0, []);
    var s2 := State(Waiting(1), false, true, 1, 0, 0, 0, []);
    var s3 := State(Draining(1), false, true, 1, 0, 0, 0, []);
    var s4 := State(Free, false, true, 1, 0, 0, 1, [ErrAborted(1)]);
    var s5 := State(Free, false, true, 1, 1, 0, 1, [ErrAborted(1)]);
    var s6 := State(Holding, false, true, 1, 1, 0, 1, [ErrAborted(1)]);
    var s7 := State(Waiting(2), false, true, 2, 1, 0, 1, [ErrAborted(1)]);
    var s8 := State(Free, false, true, 2, 1, 1, 1, [ErrAborted(1), Acked(2, 1, 1)]);
    RunCons(verdict, s7, events[7..], s8, s8);
    RunCons(verdict, s6, events[6..], s7, s8);
    RunCons(verdict, s5, events[5..], s6, s8);
    RunCons(verdict, s4, events[4..], s5, s8);
    RunCons(verdict, s3, events[3..], s4, s8);
    RunCons(verdict, s2, events[2..], s3, s8);
    RunCons(verdict, s1, events[1..], s2, s8);
    RunCons(verdict, s, events, s1, s8);
  }

  lemma RunCons(verdict: nat -> bool, s: State, events: seq<Event>, mid: State, s': State)
    requires events != [] && Enabled(s, events[0]) && Next(verdict, s, events[0]) == mid
    requires if |events| == 1 then s' == mid else Run(verdict, mid, events[1..], s')
    ensures Run(verdict, s, events, s')
  {
  }

  /** Once Close has run, nothing more is sent and every Publish that had not taken the mutex
      returns the closed error. */
  lemma {:induction false} ClosedIsFinal(verdict: nat -> bool, s: State, events: seq<Event>, s': State)
    requires s.closed && (s.phase == Free || s.phase == Holding) && Run(verdict, s, events, s')
    ensures s'.closed && s'.sent == s.sent && s.results <= s'.results
    ensures forall i :: |s.results| <= i < |s'.results| ==> s'.results[i] == ErrClosed
    decreases events
  {
    if events != [] {
      ClosedIsFinal(verdict, Next(verdict, s, events[0]), events[1..], s');
    }
  }

  // ----- The code -----

  lemma {:induction false} RunSnoc(verdict: nat -> bool, s: State, events: seq<Event>, mid: State, e: Event)
    requires Run(verdict, s, events, mid) && Enabled(mid, e)
    ensures Run(verdict, s, events + [e], Next(verdict, mid, e))
    decreases events
  {
    if events == [] {
      assert events + [e] == [e];
    } else {
      RunSnoc(verdict, Next(verdict, s, events[0]), events[1..], mid, e);
      assert (events + [e])[1..] == events[1..] + [e];
    }
  }

  /** The state once these things have happened outside, as far as they can. */
  function After(verdict: nat -> bool, s: State, happening: seq<Event>): State {
    if happening == [] then s
    else
      var mid, e := After(verdict, s, happening[..|happening| - 1]), happening[|happening| - 1];
      if (e.Confirm? || e.ChannelLost?) && Enabled(mid, e) then Next(verdict, mid, e) else mid
  }

  /** What happens outside while a caller waits: confirmations arrive, the channel may close. */
  lemma {:induction false} AfterOnlyConfirms(verdict: nat -> bool, s: State, happening: seq<Event>)
    ensures var s' := After(verdict, s, happening);
            && s' == s.(emitted := s'.emitted, channelOpen := s'.channelOpen)
            && s.emitted <= s'.emitted && (s.emitted <= s.sent ==> s'.emitted <= s.sent)
            && (s'.channelOpen ==> s.channelOpen)
  {
    if happening != [] {
      AfterOnlyConfirms(verdict, s, happening[..|happening| - 1]);
    }
  }

  function Sent(s: State): State {
    s.(sent := s.sent + 1, phase := Waiting(s.sent + 1))
  }

  /** How a wait ends, from what is there when it looks: a confirmation is read unless the
      caller aborts, and the oldest one; a closed channel is found only when it is empty; and
      otherwise, and only then, the caller gives up. */
  predicate Answered(verdict: nat -> bool, look: State, abort: bool, own: nat, r: Return) {
    if !abort && look.consumed < look.emitted then
      && (r.Acked? || r.ErrNacked?) && r.own == own && r.seen == look.consumed + 1
      && (r.Acked? <==> verdict(r.seen))
    else if !abort && !look.channelOpen then r == ErrChannel(own)
    else r == ErrAborted(own)
  }

  /** With no drain lost, the confirmation read is the one for the caller's own message. */
  lemma OwnConfirmation(verdict: nat -> bool, s: State, happening: seq<Event>, abort: bool, r: Return)
    requires Balanced(s) && s.phase == Free && s.channelOpen
    requires Answered(verdict, After(verdict, Sent(s), happening), abort, s.sent + 1, r)
    ensures ReadsConfirmation(r) ==> r.own == s.sent + 1 && r.seen == r.own - s.lost
    ensures ReadsConfirmation(r) && s.lost == 0 ==> (r.Acked? <==> verdict(r.own))
  {
    AfterOnlyConfirms(verdict, Sent(s), happening);
  }

  /** The publisher with its channel.  `world` says what the broker and the network do while
      a caller holds the mutex. */
  class Client {
    const verdict: nat -> bool
    const world: nat -> seq<Event>
    var turn: nat
    var s: State

    constructor (verdict: nat -> bool, world: nat -> seq<Event>)
      ensures this.verdict == verdict && Initial(s)
    {
      this.verdict, this.world, this.turn := verdict, world, 0;
      this.s := State(Free, false, true, 0, 0, 0, 0, []);
    }

    method Step(e: Event, ghost start: State, ghost events: seq<Event>) returns (ghost events': seq<Event>)
      requires Run(verdict, start, events, s) && Enabled(s, e)
      modifies this`s
      ensures s == Next(verdict, old(s), e) && Run(verdict, start, events', s)
    {
      RunSnoc(verdict, start, events, s, e);
      events' := events + [e];
      s := Next(verdict, s, e);
    }

    method Meanwhile(ghost start: State, ghost events: seq<Event>) returns (ghost events': seq<Event>)
      requires Run(verdict, start, events, s)
      modifies this
      ensures turn == old(turn) + 1 && s == After(verdict, old(s), world(old(turn)))
      ensures Run(verdict, start, events', s)
    {
      events' := events;
      var happening := world(turn);
      turn := turn + 1;
      for i := 0 to |happening|
        invariant turn == old(turn) + 1 && s == After(verdict, old(s), happening[..i])
        invariant Run(verdict, start, events', s)
      {
        assert happening[..i + 1][..i] == happening[..i];
        if (happening[i].Confirm? || happening[i].ChannelLost?) && Enabled(s, happening[i]) {
          events' := Step(happening[i], start, events');
        }
      }
      assert happening[..|happening|] == happening;
    }

    /** Publish: `sendFails` and `abort` are what the channel and the caller's deadline decide,
        `late` whether the drain's own deadline comes first.  A wait on a channel that has
        nothing to read ends with the deadline. */
    method Publish(sendFails: bool, abort: bool, late: bool) returns (r: Return, ghost events: seq<Event>)
      requires s.phase == Free && Inv(verdict, s)
      modifies this
      ensures Run(verdict, old(s), events, s)
      ensures s.phase == Free && Inv(verdict, s) && s.results == old(s.results) + [r]
      ensures r == ErrClosed <==> old(s.closed)
      ensures r == ErrSend <==> !old(s.closed) && (sendFails || !old(s.channelOpen))
      ensures !old(s.closed) && !sendFails && old(s.channelOpen) ==>
                var own, look := old(s.sent) + 1, After(verdict, Sent(old(s)), world(old(turn)));
                && s.sent == own && Answered(verdict, look, abort, own, r)
                && (ReadsConfirmation(r) && old(s.lost) == 0 ==> (r.Acked? <==> verdict(own)))
      ensures ReadsConfirmation(r) ==> r.lost == old(s.lost) == s.lost && r.own == old(s.sent) + 1
      ensures s.lost > old(s.lost) ==> r.ErrAborted? && s.lost == old(s.lost) + 1
    {
      r, events := Attempt(sendFails, abort, late);
      RunKeepsInv(verdict, old(s), events, s);
      if !old(s.closed) && !sendFails && old(s.channelOpen) {
        OwnConfirmation(verdict, old(s), world(old(turn)), abort, r);
      }
    }

    /** The critical section. */
    method Attempt(sendFails: bool, abort: bool, late: bool) returns (r: Return, ghost events: seq<Event>)
      requires s.phase == Free && s.consumed <= s.emitted <= s.sent
      modifies this
      ensures Run(verdict, old(s), events, s)
      ensures s.phase == Free && s.results == old(s.results) + [r]
      ensures r == ErrClosed <==> old(s.closed)
      ensures r == ErrSend <==> !old(s.closed) && (sendFails || !old(s.channelOpen))
      ensures !old(s.closed) && !sendFails && old(s.channelOpen) ==>
                && s.sent == old(s.sent) + 1
                && Answered(verdict, After(verdict, Sent(old(s)), world(old(turn))), abort, old(s.sent) + 1, r)
      ensures ReadsConfirmation(r) ==> r.lost == old(s.lost) == s.lost
      ensures s.lost == old(s.lost) || (r.ErrAborted? && s.lost == old(s.lost) + 1)
    {
      events := Step(Lock, s, []);
      if s.closed {
        events := Step(FindClosed, old(s), events);
        r := ErrClosed;
      } else if sendFails || !s.channelOpen {
        events := Step(SendFails, old(s), events);
        r := ErrSend;
      } else {
        events := Step(Send, old(s), events);
        r, events := Await(abort, late, old(s), events);
      }
    }

    method Await(abort: bool, late: bool, ghost start: State, ghost events: seq<Event>)
      returns (r: Return, ghost events': seq<Event>)
      requires Run(verdict, start, events, s) && s.phase.Waiting? && s.consumed <= s.emitted <= s.sent
      modifies this
      ensures Run(verdict, start, events', s)
      ensures s.phase == Free && s.results == old(s.results) + [r] && s.sent == old(s.sent)
      ensures Answered(verdict, After(verdict, old(s), world(old(turn))), abort, old(s.phase).own, r)
      ensures ReadsConfirmation(r) ==> r.lost == old(s.lost) == s.lost
      ensures s.lost == old(s.lost) || (r.ErrAborted? && s.lost == old(s.lost) + 1)
    {
      AfterOnlyConfirms(verdict, s, world(turn));
      events' := Meanwhile(start, events);
      if !abort && s.consumed < s.emitted {
        events' := Step(Receive, start, events');
      } else if !abort && !s.channelOpen {
        events' := Step(FindChannelClosed, start, events');
      } else {
        events' := Step(GiveUp, start, events');
        events' := DrainStaleConfirm(late, start, events');
      }
      r := s.results[|s.results| - 1];
    }

    /** The drain: if its deadline does not come first it takes a confirmation that is there,
        or finds the channel closed; otherwise the confirmation stays behind. */
    method DrainStaleConfirm(late: bool, ghost start: State, ghost events: seq<Event>) returns (ghost events': seq<Event>)
      requires Run(verdict, start, events, s) && s.phase.Draining? && s.consumed <= s.emitted <= s.sent
      modifies this
      ensures Run(verdict, start, events', s)
      ensures s.phase == Free && s.results == old(s.results) + [ErrAborted(old(s.phase).own)] && s.sent == old(s.sent)
      ensures var look := After(verdict, old(s), world(old(turn)));
              && s.consumed == old(s.consumed) + (if !late && look.consumed < look.emitted then 1 else 0)
              && s.lost == old(s.lost) + (if late || (look.consumed == look.emitted && look.channelOpen) then 1 else 0)
    {
      AfterOnlyConfirms(verdict, s, world(turn));
      events' := Meanwhile(start, events);
      if late {
        events' := Step(DrainTimesOut, start, events');
      } else if s.consumed < s.emitted {
        events' := Step(DrainReceive, start, events');
      } else if !s.channelOpen {
        events' := Step(DrainFindsClosed, start, events');
      } else {
        events' := Step(DrainTimesOut, start, events');
      }
    }

    /** Close: a second call changes nothing. */
    method Shutdown(channelStays: bool) returns (ghost events: seq<Event>)
      requires s.phase == Free
      modifies this`s
      ensures Run(verdict, old(s), events, s)
      ensures s == if old(s.closed) then old(s)
                   else old(s).(closed := true, channelOpen := old(s.channelOpen) && channelStays)
    {
      events := Step(Close(channelStays), s, []);
    }
  }
}
