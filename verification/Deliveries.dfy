/** What becomes of each message, told from the history alone.  The history of a run is read
    off its events: which message was handled under which tag, and whether the handler failed
    on it.  Nothing here looks at the consumer's counters or at the way it decides. */
module Deliveries {
  import opened Prelude
  import opened Consumer
  import opened ConsumerRuns

  /** One handled delivery; `fails` is what the handler answers if it is called. */
  datatype Delivery = Delivery(m: Message, tag: nat, fails: bool)

  /** The handled deliveries of the events, given the one in flight and the last tag. */
  function Handlings(events: seq<Event>, inFlight: Option<Message>, tag: nat): seq<Delivery>
    decreases events
  {
    if events == [] then []
    else match events[0]
      case Publish(_) => Handlings(events[1..], inFlight, tag)
      case Deliver(m) => Handlings(events[1..], Some(m), tag + 1)
      case Handle(fails) =>
        (if inFlight.Some? then [Delivery(inFlight.value, tag, fails)] else []) + Handlings(events[1..], None, tag)
  }

  /** How often in a row the handler has failed on this identity, up to now. */
  function Failures(history: seq<Delivery>, id: Identity): nat {
    if history == [] then 0
    else
      var d, before := history[|history| - 1], Failures(history[..|history| - 1], id);
      if !d.m.parseable || IdentityOf(d.m, d.tag) != id then before
      else if d.fails then before + 1
      else 0
  }

  /** What is left of n after taking away b as often as possible. */
  function Remainder(n: nat, b: nat): nat
    requires b > 0
    decreases n
  {
    if n < b then n else Remainder(n - b, b)
  }

  /** This failure is one too many: of the failures in a row on its identity, every one after
      `maxRetries` others. */
  predicate OneTooMany(maxRetries: int, history: seq<Delivery>, id: Identity) {
    maxRetries < 0 || Remainder(Failures(history, id) + 1, maxRetries + 1) == 0
  }

  /** What the history promises for its delivery number i. */
  function Fate(maxRetries: int, history: seq<Delivery>, i: nat): Action
    requires i < |history|
  {
    var d := history[i];
    if !d.m.parseable then DeadLetter
    else if !d.fails then Ack
    else if OneTooMany(maxRetries, history[..i], IdentityOf(d.m, d.tag)) then DeadLetter
    else Requeue
  }

  /** Some delivery of this message ended this way. */
  ghost predicate Ended(maxRetries: int, history: seq<Delivery>, m: Message, action: Action) {
    exists i :: 0 <= i < |history| && history[i].m == m && Fate(maxRetries, history, i) == action
  }

  function Calls(history: seq<Delivery>): nat {
    if history == [] then 0
    else Calls(history[..|history| - 1]) + if history[|history| - 1].m.parseable then 1 else 0
  }

  // ----- One more delivery -----

  lemma FateOfEarlier(maxRetries: int, history: seq<Delivery>, d: Delivery, i: nat)
    requires i < |history|
    ensures Fate(maxRetries, history + [d], i) == Fate(maxRetries, history, i)
  {
    assert (history + [d])[i] == history[i] && (history + [d])[..i] == history[..i];
  }

  lemma EndedAfter(maxRetries: int, history: seq<Delivery>, d: Delivery, m: Message, action: Action)
    ensures var all := history + [d];
            Ended(maxRetries, all, m, action) <==>
            Ended(maxRetries, history, m, action) || (d.m == m && Fate(maxRetries, all, |history|) == action)
  {
    var all := history + [d];
    if i :| 0 <= i < |history| && history[i].m == m && Fate(maxRetries, history, i) == action {
      FateOfEarlier(maxRetries, history, d, i);
      assert all[i].m == m;
    }
    if i :| 0 <= i < |all| && all[i].m == m && Fate(maxRetries, all, i) == action {
      if i < |history| {
        FateOfEarlier(maxRetries, history, d, i);
        assert history[i].m == m;
      }
    }
  }

  lemma FailuresAfter(history: seq<Delivery>, d: Delivery, id: Identity)
    ensures Failures(history + [d], id) ==
            if !d.m.parseable || IdentityOf(d.m, d.tag) != id then Failures(history, id)
            else if d.fails then Failures(history, id) + 1
            else 0
  {
    assert (history + [d])[..|history|] == history;
  }

  /** Counting around b: one more, or back to zero. */
  lemma {:induction false} NextRemainder(n: nat, b: nat)
    requires b > 0
    ensures Remainder(n, b) < b
    ensures Remainder(n + 1, b) == if Remainder(n, b) == b - 1 then 0 else Remainder(n, b) + 1
    decreases n
  {
    if n >= b {
      NextRemainder(n - b, b);
    }
  }

  // ----- The consumer keeps the history's promise -----

  /** The counter of a key is the number of failures in a row on its identity, modulo the
      allowance; a key without a counter stands at zero. */
  ghost predicate CountersTell(maxRetries: int, s: State, history: seq<Delivery>) {
    forall m: Message, tag: nat ::
      CounterOf(s.retries, MessageKey(m, tag)) == Standing(maxRetries, history, IdentityOf(m, tag))
  }

  function CounterOf(retries: map<string, int>, key: string): int {
    if key in retries then retries[key] else 0
  }

  function Standing(maxRetries: int, history: seq<Delivery>, id: Identity): int {
    if maxRetries < 0 then 0 else Remainder(Failures(history, id), maxRetries + 1)
  }

  ghost predicate Tells(maxRetries: int, s: State, history: seq<Delivery>) {
    && CountersTell(maxRetries, s, history)
    && (forall m :: m in s.acked <==> Ended(maxRetries, history, m, Ack))
    && (forall m :: m in s.dead <==> Ended(maxRetries, history, m, DeadLetter))
    && s.calls == Calls(history)
  }

  /** The consumer's answer to one delivery is its fate. */
  lemma AnswerIsFate(maxRetries: int, s: State, history: seq<Delivery>, m: Message, fails: bool)
    requires CountersTell(maxRetries, s, history)
    ensures var d := Delivery(m, s.nextTag, fails);
            HandleOutcome(s.retries, maxRetries, m, s.nextTag, fails).action == Fate(maxRetries, history + [d], |history|)
  {
    var d := Delivery(m, s.nextTag, fails);
    assert (history + [d])[..|history|] == history && (history + [d])[|history|] == d;
    var id := IdentityOf(m, s.nextTag);
    assert CounterOf(s.retries, MessageKey(m, s.nextTag)) == Standing(maxRetries, history, id);
    if maxRetries >= 0 {
      NextRemainder(Failures(history, id), maxRetries + 1);
    }
  }

  lemma CountersTellOn(maxRetries: int, s: State, history: seq<Delivery>, m: Message, fails: bool)
    requires CountersTell(maxRetries, s, history)
    ensures var retries := HandleOutcome(s.retries, maxRetries, m, s.nextTag, fails).retries;
            CountersTell(maxRetries, s.(retries := retries), history + [Delivery(m, s.nextTag, fails)])
  {
    var d := Delivery(m, s.nextTag, fails);
    var h := HandleOutcome(s.retries, maxRetries, m, s.nextTag, fails);
    forall m': Message, tag: nat
      ensures CounterOf(h.retries, MessageKey(m', tag)) == Standing(maxRetries, history + [d], IdentityOf(m', tag))
    {
      CounterTellsOn(maxRetries, s, history, d, m', tag);
    }
  }

  lemma CounterTellsOn(maxRetries: int, s: State, history: seq<Delivery>, d: Delivery, m': Message, tag: nat)
    requires CountersTell(maxRetries, s, history) && d.tag == s.nextTag
    ensures var h := HandleOutcome(s.retries, maxRetries, d.m, s.nextTag, d.fails);
            CounterOf(h.retries, MessageKey(m', tag)) == Standing(maxRetries, history + [d], IdentityOf(m', tag))
  {
    var id := IdentityOf(m', tag);
    KeyIsIdentity(d.m, d.tag, m', tag);
    FailuresAfter(history, d, id);
    assert CounterOf(s.retries, MessageKey(m', tag)) == Standing(maxRetries, history, id);
    if maxRetries >= 0 {
      NextRemainder(Failures(history, id), maxRetries + 1);
    }
  }

  lemma HandleTells(maxRetries: int, s: State, history: seq<Delivery>, m: Message, fails: bool)
    requires Tells(maxRetries, s, history) && s.inFlight == Some(m)
    ensures Tells(maxRetries, Next(maxRetries, s, Handle(fails)), history + [Delivery(m, s.nextTag, fails)])
  {
    var d, s' := Delivery(m, s.nextTag, fails), Next(maxRetries, s, Handle(fails));
    var all := history + [d];
    AnswerIsFate(maxRetries, s, history, m, fails);
    CountersTellOn(maxRetries, s, history, m, fails);
    forall x: Message
      ensures (x in s'.acked <==> Ended(maxRetries, all, x, Ack)) && (x in s'.dead <==> Ended(maxRetries, all, x, DeadLetter))
    {
      EndedAfter(maxRetries, history, d, x, Ack);
      EndedAfter(maxRetries, history, d, x, DeadLetter);
    }
    assert all[..|history|] == history;
  }

  lemma {:induction false} RunTells(maxRetries: int, s: State, history: seq<Delivery>, events: seq<Event>, s': State)
    requires Tells(maxRetries, s, history) && Run(maxRetries, s, events, s')
    ensures Tells(maxRetries, s', history + Handlings(events, s.inFlight, s.nextTag))
    decreases events
  {
    var rest := Handlings(events, s.inFlight, s.nextTag);
    if events == [] {
      assert history + rest == history;
    } else {
      var next := Next(maxRetries, s, events[0]);
      if events[0].Handle? {
        var m, fails := s.inFlight.value, events[0].fails;
        HandleTells(maxRetries, s, history, m, fails);
        var d := Delivery(m, s.nextTag, fails);
        RunTells(maxRetries, next, history + [d], events[1..], s');
        assert history + [d] + Handlings(events[1..], None, s.nextTag) == history + rest;
      } else {
        RunTells(maxRetries, next, history, events[1..], s');
      }
    }
  }

  lemma StartTells(maxRetries: int, messages: set<Message>)
    ensures Tells(maxRetries, Start(messages), [])
  {
  }

  lemma {:induction false} ReachedTells(maxRetries: int, messages: set<Message>, events: seq<Event>, s: State)
    requires Run(maxRetries, Start(messages), events, s)
    ensures Tells(maxRetries, s, Handlings(events, None, 0))
  {
    StartTells(maxRetries, messages);
    RunTells(maxRetries, Start(messages), [], events, s);
    assert [] + Handlings(events, None, 0) == Handlings(events, None, 0);
  }

  /** A handler call on the message succeeded. */
  ghost predicate Succeeded(history: seq<Delivery>, m: Message) {
    exists i :: 0 <= i < |history| && history[i].m == m && m.parseable && !history[i].fails
  }

  /** The message was handled and does not parse, or a call on it failed once too often. */
  ghost predicate GivenUp(maxRetries: int, history: seq<Delivery>, m: Message) {
    exists i :: && 0 <= i < |history| && history[i].m == m
                && (!m.parseable ||
                    (history[i].fails && OneTooMany(maxRetries, history[..i], IdentityOf(m, history[i].tag))))
  }

  /** In every run: a message is acknowledged exactly when it parses and a handler call on it
      succeeded; it is dead-lettered exactly when it was handled and does not parse, or a call
      on it failed after `maxRetries` other failures in a row on its identity, counted anew
      after every dead letter; and the handler is called once for every handled delivery that
      parses. */
  lemma {:induction false} FatesFollowFromHistory(maxRetries: int, messages: set<Message>, events: seq<Event>, s: State, m: Message)
    requires Run(maxRetries, Start(messages), events, s)
    ensures var history := Handlings(events, None, 0);
            && (m in s.acked <==> Succeeded(history, m))
            && (m in s.dead <==> GivenUp(maxRetries, history, m))
            && s.calls == Calls(history)
  {
    ReachedTells(maxRetries, messages, events, s);
    EndedMeans(maxRetries, Handlings(events, None, 0), m);
  }

  lemma EndedMeans(maxRetries: int, history: seq<Delivery>, m: Message)
    ensures Ended(maxRetries, history, m, Ack) <==> Succeeded(history, m)
    ensures Ended(maxRetries, history, m, DeadLetter) <==> GivenUp(maxRetries, history, m)
  {
    if Succeeded(history, m) {
      var i :| 0 <= i < |history| && history[i].m == m && m.parseable && !history[i].fails;
      assert Fate(maxRetries, history, i) == Ack;
    }
    if GivenUp(maxRetries, history, m) {
      var i :| && 0 <= i < |history| && history[i].m == m
               && (!m.parseable ||
                   (history[i].fails && OneTooMany(maxRetries, history[..i], IdentityOf(m, history[i].tag))));
      assert Fate(maxRetries, history, i) == DeadLetter;
    }
  }

  /** With an id of its own, the first `maxRetries` failures in a row are forgiven and the next
      one is not: for at most that many failures, one is too many exactly when they are that
      many. */
  lemma OneTooManyAtFirst(maxRetries: nat, history: seq<Delivery>, id: Identity)
    requires Failures(history, id) <= maxRetries
    ensures OneTooMany(maxRetries, history, id) <==> Failures(history, id) == maxRetries
  {
    NextRemainder(Failures(history, id), maxRetries + 1);
  }
}
