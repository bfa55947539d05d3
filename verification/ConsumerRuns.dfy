/** The broker and one consumer as a step system: messages are published, delivered one at a
    time under fresh tags in any order, handled with any outcome, and end up acknowledged or
    dead-lettered.  The bounds hold for every run. */
module ConsumerRuns {
  import opened Prelude
  import opened Consumer
  import opened Sums

  datatype State = State(
    published: set<Message>,
    queue: set<Message>,
    inFlight: Option<Message>,
    acked: set<Message>,
    dead: set<Message>,
    retries: map<string, int>,
    nextTag: nat,
    calls: nat,         // handler calls
    stableCalls: nat,   // handler calls on messages with a stable id
    handled: nat        // deliveries handled
  )

  datatype Event = Publish(m: Message) | Deliver(m: Message) | Handle(fails: bool)

  predicate Enabled(s: State, e: Event) {
    match e
    case Publish(m) => m !in s.published
    case Deliver(m) => m in s.queue && s.inFlight.None?
    case Handle(_) => s.inFlight.Some?
  }

  function Next(maxRetries: int, s: State, e: Event): State
    requires Enabled(s, e)
  {
    match e
    case Publish(m) => s.(published := s.published + {m}, queue := s.queue + {m})
    case Deliver(m) => s.(queue := s.queue - {m}, inFlight := Some(m), nextTag := s.nextTag + 1)
    case Handle(fails) =>
      var m := s.inFlight.value;
      var h := HandleOutcome(s.retries, maxRetries, m, s.nextTag, fails);
      s.(inFlight := None,
         retries := h.retries,
         queue := if h.action == Requeue then s.queue + {m} else s.queue,
         acked := if h.action == Ack then s.acked + {m} else s.acked,
         dead := if h.action == DeadLetter then s.dead + {m} else s.dead,
         calls := s.calls + (if h.called then 1 else 0),
         stableCalls := s.stableCalls + (if h.called && Stable(m) then 1 else 0),
         handled := s.handled + 1)
  }

  predicate Run(maxRetries: int, s: State, events: seq<Event>, s': State)
    decreases events
  {
    if events == [] then s' == s
    else Enabled(s, events[0]) && Run(maxRetries, Next(maxRetries, s, events[0]), events[1..], s')
  }

  /** A consumer that has just been created, with these messages waiting. */
  function Start(messages: set<Message>): State {
    State(messages, messages, None, {}, {}, map[], 0, 0, 0, 0)
  }

  // ----- Counting -----

  /** The messages whose handler calls are retry-counted. */
  predicate Countable(m: Message) {
    m.parseable && Stable(m)
  }

  ghost function Count(ms: set<Message>): nat {
    |set m | m in ms && Countable(m)|
  }

  lemma CountAdd(ms: set<Message>, m: Message)
    requires m !in ms
    ensures Count(ms + {m}) == Count(ms) + (if Countable(m) then 1 else 0)
  {
    var before, after := set x | x in ms && Countable(x), set x | x in ms + {m} && Countable(x);
    assert after == if Countable(m) then before + {m} else before;
  }

  lemma {:induction false} CountUnion(a: set<Message>, b: set<Message>)
    requires a !! b
    ensures Count(a + b) == Count(a) + Count(b)
  {
    if b == {} {
      assert a + b == a;
    } else {
      var m :| m in b;
      CountUnion(a, b - {m});
      CountAdd(a + (b - {m}), m);
      CountAdd(b - {m}, m);
      assert a + (b - {m}) + {m} == a + b && b - {m} + {m} == b;
    }
  }

  /** n times b, unfolded one at a time. */
  ghost function Times(b: nat, n: nat): nat {
    if n == 0 then 0 else b + Times(b, n - 1)
  }

  lemma {:induction false} TimesIsProduct(b: nat, n: nat)
    ensures Times(b, n) == b * n
  {
    if n > 0 {
      TimesIsProduct(b, n - 1);
      assert b * n == b * (n - 1) + b;
    }
  }

  lemma {:induction false} TimesAdd(b: nat, m: nat, n: nat)
    ensures Times(b, m + n) == Times(b, m) + Times(b, n)
  {
    if m > 0 {
      TimesAdd(b, m - 1, n);
    }
  }

  lemma {:induction false} TimesMore(b: nat, n: nat)
    ensures Times(b, n) <= Times(b + 1, n)
  {
    if n > 0 {
      TimesMore(b, n - 1);
    }
  }

  lemma {:induction false} SumAtMost(counters: map<string, int>, bound: nat)
    requires forall k :: k in counters ==> counters[k] <= bound
    ensures Sum(counters) <= Times(bound, |counters|)
    decreases |counters|
  {
    if counters != map[] {
      var k :| k in counters;
      SumRemove(counters, k);
      SumAtMost(counters - {k}, bound);
      assert |counters - {k}| == |counters| - 1 by {
        assert (counters - {k}).Keys == counters.Keys - {k};
      }
    }
  }

  /** Distinct keys need distinct messages. */
  lemma {:induction false} KeysNeedMessages(keys: set<string>, ms: set<Message>)
    requires forall k :: k in keys ==> exists m :: m in ms && Countable(m) && MessageKey(m, 0) == k
    ensures |keys| <= Count(ms)
    decreases |keys|
  {
    if keys != {} {
      var k :| k in keys;
      var m :| m in ms && Countable(m) && MessageKey(m, 0) == k;
      forall k' | k' in keys - {k}
        ensures exists m' :: m' in ms - {m} && Countable(m') && MessageKey(m', 0) == k'
      {
        var m' :| m' in ms && Countable(m') && MessageKey(m', 0) == k';
        assert m' in ms - {m};
      }
      KeysNeedMessages(keys - {k}, ms - {m});
      CountAdd(ms - {m}, m);
      assert ms - {m} + {m} == ms;
    }
  }

  // ----- The invariant -----

  ghost function Pending(s: State): set<Message> {
    s.queue + if s.inFlight.Some? then {s.inFlight.value} else {}
  }

  ghost function StablePart(retries: map<string, int>): map<string, int> {
    map k | k in retries && StableKey(k) :: retries[k]
  }

  function Budget(maxRetries: int): nat {
    if maxRetries < 0 then 0 else maxRetries
  }

  /** Each message is in exactly one place. */
  ghost predicate Conserved(s: State) {
    && s.published == Pending(s) + s.acked + s.dead
    && (s.inFlight.Some? ==> s.inFlight.value !in s.queue)
    && Pending(s) !! s.acked && Pending(s) !! s.dead && s.acked !! s.dead
  }

  /** Every stable key in the map belongs to a message still pending, with a count between
      one and the maximum. */
  ghost predicate CountersOwned(maxRetries: int, s: State) {
    forall k :: k in s.retries && StableKey(k) ==>
      && 1 <= s.retries[k] <= maxRetries
      && exists m :: m in Pending(s) && Countable(m) && MessageKey(m, 0) == k
  }

  /** What the calls so far have been spent on: a full allowance for each resolved message,
      and the counters of the pending ones. */
  ghost predicate Accounted(maxRetries: int, s: State) {
    && s.stableCalls <= Times(Budget(maxRetries) + 1, Count(s.acked + s.dead)) + Sum(StablePart(s.retries))
    && s.stableCalls <= s.calls <= s.handled
  }

  /** With no retries every call resolves its message. */
  ghost predicate NoRetries(s: State) {
    s.retries == map[] && s.calls <= |s.acked| + |s.dead|
  }

  ghost predicate Inv(maxRetries: int, s: State) {
    && Conserved(s) && CountersOwned(maxRetries, s) && Accounted(maxRetries, s)
    && (maxRetries <= 0 ==> NoRetries(s))
  }

  lemma StableKeyIgnoresTag(m: Message, tag: nat)
    requires Stable(m)
    ensures MessageKey(m, tag) == MessageKey(m, 0)
  {
  }

  /** How one handled delivery moves the stable counters. */
  lemma StablePartAfter(retries: map<string, int>, maxRetries: int, m: Message, tag: nat, fails: bool)
    ensures var h := HandleOutcome(retries, maxRetries, m, tag, fails);
            var key := MessageKey(m, tag);
            StablePart(h.retries) ==
              if !Countable(m) then StablePart(retries)
              else if h.action == Requeue then StablePart(retries)[key := h.retries[key]]
              else StablePart(retries) - {key}
  {
    KeyIsIdentity(m, tag, m, tag);
    var h := HandleOutcome(retries, maxRetries, m, tag, fails);
    var key := MessageKey(m, tag);
    if Countable(m) {
      if h.action == Requeue {
        assert StablePart(h.retries) == StablePart(retries)[key := h.retries[key]];
      } else {
        assert StablePart(h.retries) == StablePart(retries) - {key};
      }
    } else {
      assert StablePart(h.retries) == StablePart(retries);
    }
  }

  lemma ConservedKept(maxRetries: int, s: State, e: Event)
    requires Conserved(s) && Enabled(s, e)
    ensures Conserved(Next(maxRetries, s, e))
  {
  }

  lemma CountersOwnedKept(maxRetries: int, s: State, e: Event)
    requires Conserved(s) && CountersOwned(maxRetries, s) && Enabled(s, e)
    ensures CountersOwned(maxRetries, Next(maxRetries, s, e))
  {
    var s' := Next(maxRetries, s, e);
    forall k | k in s'.retries && StableKey(k)
      ensures 1 <= s'.retries[k] <= maxRetries
      ensures exists m :: m in Pending(s') && Countable(m) && MessageKey(m, 0) == k
    {
      if e.Handle? {
        var m := s.inFlight.value;
        var key := MessageKey(m, s.nextTag);
        KeyIsIdentity(m, s.nextTag, m, s.nextTag);
        if k == key && m.parseable {
          StableKeyIgnoresTag(m, s.nextTag);
          assert m in Pending(s');
        } else {
          var owner :| owner in Pending(s) && Countable(owner) && MessageKey(owner, 0) == k;
          if owner == m {
            StableKeyIgnoresTag(m, s.nextTag);
          }
          assert owner in Pending(s');
        }
      } else {
        var owner :| owner in Pending(s) && Countable(owner) && MessageKey(owner, 0) == k;
        assert owner in Pending(s');
      }
    }
  }

  /** A requeue adds one to the counters; a resolution takes away at most the budget. */
  lemma SumAfter(retries: map<string, int>, maxRetries: int, m: Message, tag: nat, fails: bool)
    requires MessageKey(m, tag) in retries && StableKey(MessageKey(m, tag)) ==>
               1 <= retries[MessageKey(m, tag)] <= maxRetries
    ensures var h := HandleOutcome(retries, maxRetries, m, tag, fails);
            var change := Sum(StablePart(h.retries)) - Sum(StablePart(retries));
            if !Countable(m) then change == 0
            else if h.action == Requeue then change == 1
            else change + Budget(maxRetries) >= 0
  {
    var key, before := MessageKey(m, tag), StablePart(retries);
    var h := HandleOutcome(retries, maxRetries, m, tag, fails);
    KeyIsIdentity(m, tag, m, tag);
    StablePartAfter(retries, maxRetries, m, tag, fails);
    if key in before {
      SumRemove(before, key);
    } else {
      assert before - {key} == before;
    }
    if h.action == Requeue {
      SumUpdate(before, key, h.retries[key]);
    }
  }

  lemma AccountedWhenHandled(maxRetries: int, s: State, m: Message, fails: bool)
    requires Accounted(maxRetries, s) && s.inFlight == Some(m) && m !in s.acked && m !in s.dead
    requires var key := MessageKey(m, s.nextTag);
             key in s.retries && StableKey(key) ==> 1 <= s.retries[key] <= maxRetries
    ensures Accounted(maxRetries, Next(maxRetries, s, Handle(fails)))
  {
    var s' := Next(maxRetries, s, Handle(fails));
    var resolved := s.acked + s.dead;
    SumAfter(s.retries, maxRetries, m, s.nextTag, fails);
    CountAdd(resolved, m);
    if HandleOutcome(s.retries, maxRetries, m, s.nextTag, fails).action != Requeue {
      assert s'.acked + s'.dead == resolved + {m};
    }
  }

  lemma OneMore(ms: set<Message>, m: Message)
    requires m !in ms
    ensures |ms + {m}| == |ms| + 1
  {
  }

  lemma NoRetriesKept(maxRetries: int, s: State, e: Event)
    requires maxRetries <= 0 && Conserved(s) && NoRetries(s) && Enabled(s, e)
    ensures NoRetries(Next(maxRetries, s, e))
  {
    if e.Handle? {
      var m := s.inFlight.value;
      assert m in Pending(s);
      OneMore(s.acked, m);
      OneMore(s.dead, m);
      NothingCounted(maxRetries, m, s.nextTag, e.fails);
    }
  }

  lemma NothingCounted(maxRetries: int, m: Message, tag: nat, fails: bool)
    requires maxRetries <= 0
    ensures var h := HandleOutcome(map[], maxRetries, m, tag, fails);
            h.retries == map[] && h.action != Requeue
  {
  }

  lemma AccountedKept(maxRetries: int, s: State, e: Event)
    requires Inv(maxRetries, s) && Enabled(s, e)
    ensures Accounted(maxRetries, Next(maxRetries, s, e))
  {
    if e.Handle? {
      assert s.inFlight.value in Pending(s);
      AccountedWhenHandled(maxRetries, s, s.inFlight.value, e.fails);
    }
  }

  lemma {:induction false} RunKeepsInv(maxRetries: int, s: State, events: seq<Event>, s': State)
    requires Inv(maxRetries, s) && Run(maxRetries, s, events, s')
    ensures Inv(maxRetries, s')
    decreases events
  {
    if events != [] {
      ConservedKept(maxRetries, s, events[0]);
      CountersOwnedKept(maxRetries, s, events[0]);
      AccountedKept(maxRetries, s, events[0]);
      if maxRetries <= 0 {
        NoRetriesKept(maxRetries, s, events[0]);
      }
      RunKeepsInv(maxRetries, Next(maxRetries, s, events[0]), events[1..], s');
    }
  }

  lemma StartInv(maxRetries: int, messages: set<Message>)
    ensures Inv(maxRetries, Start(messages))
  {
    assert StablePart(map[]) == map[];
  }

  // ----- Theorems -----

  /** In every run each message published so far is in exactly one of queued, in flight,
      acknowledged or dead-lettered, and every stable counter is owned and in range. */
  lemma {:induction false} MessagesConserved(maxRetries: int, messages: set<Message>, events: seq<Event>, s: State)
    requires Run(maxRetries, Start(messages), events, s)
    ensures Conserved(s) && CountersOwned(maxRetries, s)
  {
    StartInv(maxRetries, messages);
    RunKeepsInv(maxRetries, Start(messages), events, s);
  }

  /** In every run the handler is called on messages with a stable id at most MaxRetries + 1
      times per such message published, even when several of them share an id. */
  lemma {:induction false} StableCallsBounded(maxRetries: int, messages: set<Message>, events: seq<Event>, s: State)
    requires Run(maxRetries, Start(messages), events, s)
    ensures s.stableCalls <= (Budget(maxRetries) + 1) * Count(s.published)
  {
    StartInv(maxRetries, messages);
    RunKeepsInv(maxRetries, Start(messages), events, s);
    InvBoundsCalls(maxRetries, s);
  }

  lemma {:induction false} InvBoundsCalls(maxRetries: int, s: State)
    requires Inv(maxRetries, s)
    ensures s.stableCalls <= (Budget(maxRetries) + 1) * Count(s.published)
  {
    CountersFit(maxRetries, s);
    PublishedSplits(s);
    var b, pending, resolved := Budget(maxRetries), Count(Pending(s)), Count(s.acked + s.dead);
    TimesMore(b, pending);
    TimesAdd(b + 1, pending, resolved);
    TimesIsProduct(b + 1, pending + resolved);
  }

  lemma CountersFit(maxRetries: int, s: State)
    requires CountersOwned(maxRetries, s)
    ensures Sum(StablePart(s.retries)) <= Times(Budget(maxRetries), Count(Pending(s)))
  {
    var counters, b := StablePart(s.retries), Budget(maxRetries);
    SumAtMost(counters, b);
    KeysNeedMessages(counters.Keys, Pending(s));
    assert |counters| == |counters.Keys|;
    TimesAdd(b, |counters|, Count(Pending(s)) - |counters|);
  }

  lemma PublishedSplits(s: State)
    requires Conserved(s)
    ensures Count(s.published) == Count(Pending(s)) + Count(s.acked + s.dead)
  {
    CountUnion(Pending(s), s.acked + s.dead);
    assert s.published == Pending(s) + (s.acked + s.dead);
  }

  // ----- Every run ends -----

  predicate AllStable(ms: set<Message>) {
    forall m :: m in ms && m.parseable ==> Stable(m)
  }

  ghost function Unparseable(ms: set<Message>): nat {
    |set m | m in ms && !m.parseable|
  }

  ghost function Busy(s: State): nat {
    if s.inFlight.Some? then 1 else 0
  }

  lemma UnparseableAdd(ms: set<Message>, m: Message)
    requires m !in ms
    ensures Unparseable(ms + {m}) == Unparseable(ms) + (if m.parseable then 0 else 1)
  {
    var before, after := set x | x in ms && !x.parseable, set x | x in ms + {m} && !x.parseable;
    assert after == if m.parseable then before else before + {m};
  }

  lemma StepAddsUp(maxRetries: int, s: State, e: Event)
    requires Conserved(s) && Enabled(s, e)
    ensures var s' := Next(maxRetries, s, e);
            && s.published <= s'.published
            && 1 + Busy(s) == |s'.published| - |s.published| + 2 * (s'.handled - s.handled) + Busy(s')
            && (s'.handled - s.handled) - (s'.calls - s.calls) == Unparseable(s'.dead) - Unparseable(s.dead)
  {
    match e
    case Publish(m) =>
      assert |s.published + {m}| == |s.published| + 1;
    case Deliver(m) =>
    case Handle(fails) =>
      assert s.inFlight.value in Pending(s);
      UnparseableAdd(s.dead, s.inFlight.value);
  }

  /** Where the events of a run went: publications, deliveries and handled deliveries; a
      handled delivery that called no handler dead-lettered an unparseable message. */
  lemma {:induction false} EventsAddUp(maxRetries: int, s: State, events: seq<Event>, s': State)
    requires Conserved(s) && Run(maxRetries, s, events, s')
    ensures s.published <= s'.published
    ensures |events| + Busy(s) == |s'.published| - |s.published| + 2 * (s'.handled - s.handled) + Busy(s')
    ensures (s'.handled - s.handled) - (s'.calls - s.calls) == Unparseable(s'.dead) - Unparseable(s.dead)
    decreases events
  {
    if events != [] {
      StepAddsUp(maxRetries, s, events[0]);
      ConservedKept(maxRetries, s, events[0]);
      EventsAddUp(maxRetries, Next(maxRetries, s, events[0]), events[1..], s');
    }
  }

  lemma StableStep(maxRetries: int, s: State, e: Event)
    requires Enabled(s, e) && (s.inFlight.Some? && s.inFlight.value.parseable ==> Stable(s.inFlight.value))
    ensures var s' := Next(maxRetries, s, e); s'.calls - s.calls == s'.stableCalls - s.stableCalls
  {
  }

  lemma {:induction false} OnlyStableCalls(maxRetries: int, s: State, events: seq<Event>, s': State)
    requires Conserved(s) && Run(maxRetries, s, events, s') && AllStable(s'.published)
    ensures s'.calls - s.calls == s'.stableCalls - s.stableCalls
    decreases events
  {
    if events != [] {
      EventsAddUp(maxRetries, s, events, s');
      ConservedKept(maxRetries, s, events[0]);
      if s.inFlight.Some? {
        assert s.inFlight.value in Pending(s) && Pending(s) <= s.published <= s'.published;
      }
      StableStep(maxRetries, s, events[0]);
      OnlyStableCalls(maxRetries, Next(maxRetries, s, events[0]), events[1..], s');
    }
  }

  lemma SubsetCounts(a: set<Message>, b: set<Message>)
    requires a <= b
    ensures Unparseable(a) <= Unparseable(b)
  {
    var x, y := set m | m in a && !m.parseable, set m | m in b && !m.parseable;
    assert y == x + (y - x);
  }

  /** When every message that parses has a stable id, the handler is called at most
      MaxRetries + 1 times per message, and no run goes on for ever: its length is bounded by
      what was published. */
  lemma {:induction false} RunsAreFinite(maxRetries: int, messages: set<Message>, events: seq<Event>, s: State)
    requires Run(maxRetries, Start(messages), events, s) && AllStable(s.published)
    ensures s.calls <= (Budget(maxRetries) + 1) * Count(s.published)
    ensures |events| <= |s.published| - |messages|
                        + 2 * ((Budget(maxRetries) + 1) * Count(s.published) + Unparseable(s.published)) + 1
  {
    StartInv(maxRetries, messages);
    MessagesConserved(maxRetries, messages, events, s);
    StableCallsBounded(maxRetries, messages, events, s);
    EventsAddUp(maxRetries, Start(messages), events, s);
    OnlyStableCalls(maxRetries, Start(messages), events, s);
    SubsetCounts(s.dead, s.published);
  }

  // ----- A lone message that always fails -----

  predicate AlwaysFails(events: seq<Event>) {
    forall i :: 0 <= i < |events| ==> !events[i].Publish? && events[i] != Handle(false)
  }

  /** The message has failed `calls` times and is still pending with that count, or it is
      dead after MaxRetries + 1 calls. */
  ghost predicate Lone(maxRetries: nat, m: Message, s: State) {
    && s.acked == {}
    && (if s.dead == {} then
          && Pending(s) == {m} && (s.inFlight.Some? ==> s.queue == {})
          && s.calls <= maxRetries
          && s.retries == (if s.calls == 0 then map[] else map[MessageKey(m, 0) := s.calls])
        else s.dead == {m} && s.queue == {} && s.inFlight == None && s.calls == maxRetries + 1 && s.retries == map[])
  }

  lemma LoneStep(maxRetries: nat, m: Message, s: State, e: Event)
    requires Countable(m) && Lone(maxRetries, m, s) && Enabled(s, e) && !e.Publish? && e != Handle(false)
    ensures Lone(maxRetries, m, Next(maxRetries, s, e))
  {
    if e.Deliver? {
      assert s.queue <= Pending(s);
      assert e.m == m && s.queue - {m} == {};
    } else {
      assert s.inFlight.value in Pending(s);
      assert s.inFlight.value == m;
      StableKeyIgnoresTag(m, s.nextTag);
      var key := MessageKey(m, 0);
      assert s.retries - {key} == map[];
      assert s.retries[key := s.calls + 1] == map[key := s.calls + 1];
    }
  }

  lemma {:induction false} LoneRun(maxRetries: nat, m: Message, s: State, events: seq<Event>, s': State)
    requires Countable(m) && Lone(maxRetries, m, s) && AlwaysFails(events) && Run(maxRetries, s, events, s')
    ensures Lone(maxRetries, m, s')
    decreases events
  {
    if events != [] {
      LoneStep(maxRetries, m, s, events[0]);
      LoneRun(maxRetries, m, Next(maxRetries, s, events[0]), events[1..], s');
    }
  }

  /** A lone message with a stable id whose handler always fails is dead-lettered on exactly
      call MaxRetries + 1, not earlier and not later, and until then it can be delivered or
      handled. */
  lemma {:induction false} LoneMessageDeadLettered(maxRetries: nat, m: Message, events: seq<Event>, s: State)
    requires Countable(m) && AlwaysFails(events) && Run(maxRetries, Start({m}), events, s)
    ensures s.calls <= maxRetries + 1
    ensures m in s.dead <==> s.calls == maxRetries + 1
    ensures m in s.dead <==> forall e: Event :: !e.Publish? ==> !Enabled(s, e)
  {
    LoneRun(maxRetries, m, Start({m}), events, s);
    if m !in s.dead {
      assert m in Pending(s);
      assert Enabled(s, if s.inFlight.Some? then Handle(true) else Deliver(m));
    }
  }

  // ----- Without an id the bound fails -----

  ghost predicate Unseen(m: Message, s: State) {
    forall t: nat :: t > s.nextTag ==> MessageKey(m, t) !in s.retries
  }

  lemma {:induction false} RunSnoc(maxRetries: int, s: State, events: seq<Event>, mid: State, e: Event)
    requires Run(maxRetries, s, events, mid) && Enabled(mid, e)
    ensures Run(maxRetries, s, events + [e], Next(maxRetries, mid, e))
    decreases events
  {
    if events == [] {
      assert events + [e] == [e];
    } else {
      RunSnoc(maxRetries, Next(maxRetries, s, events[0]), events[1..], mid, e);
      assert (events + [e])[1..] == events[1..] + [e];
    }
  }

  /** One failure of a message without an id: it is requeued, and a counter stays behind. */
  lemma UnidentifiedCycle(maxRetries: int, m: Message, s: State)
    requires m.parseable && !Stable(m) && maxRetries >= 1
    requires m in s.queue && s.inFlight == None && Unseen(m, s)
    ensures var s' := Next(maxRetries, Next(maxRetries, s, Deliver(m)), Handle(true));
            && s'.queue == s.queue && s'.inFlight == None && s'.published == s.published && Unseen(m, s')
            && s'.calls == s.calls + 1 && |s'.retries| == |s.retries| + 1
  {
    var mid := Next(maxRetries, s, Deliver(m));
    var s' := Next(maxRetries, mid, Handle(true));
    var key := MessageKey(m, mid.nextTag);
    assert key !in s.retries;
    assert s'.retries.Keys == s.retries.Keys + {key};
    assert |s'.retries| == |s'.retries.Keys|;
    forall t: nat | t > s'.nextTag
      ensures MessageKey(m, t) !in s'.retries
    {
      KeyIsIdentity(m, t, m, mid.nextTag);
    }
  }

  /** A run can be extended by such a failure. */
  lemma OneMoreCycle(maxRetries: int, m: Message, start: State, events: seq<Event>, s: State)
    returns (events': seq<Event>, s': State)
    requires m.parseable && !Stable(m) && maxRetries >= 1 && Run(maxRetries, start, events, s)
    requires m in s.queue && s.inFlight == None && Unseen(m, s)
    ensures Run(maxRetries, start, events', s')
    ensures s'.queue == s.queue && s'.inFlight == None && s'.published == s.published && Unseen(m, s')
    ensures s'.calls == s.calls + 1 && |s'.retries| == |s.retries| + 1
  {
    UnidentifiedCycle(maxRetries, m, s);
    var mid := Next(maxRetries, s, Deliver(m));
    RunSnoc(maxRetries, start, events, s, Deliver(m));
    RunSnoc(maxRetries, start, events + [Deliver(m)], mid, Handle(true));
    events', s' := events + [Deliver(m)] + [Handle(true)], Next(maxRetries, mid, Handle(true));
  }

  /** A message without any id: each redelivery gets a fresh tag and with it a fresh counter,
      so it can fail and come back any number of times, leaving a counter behind each time. */
  lemma {:induction false} UnidentifiedCycles(maxRetries: int, m: Message, s: State, n: nat)
    returns (events: seq<Event>, s': State)
    requires m.parseable && !Stable(m) && maxRetries >= 1
    requires m in s.queue && s.inFlight == None && Unseen(m, s)
    ensures Run(maxRetries, s, events, s')
    ensures s'.queue == s.queue && s'.inFlight == None && s'.published == s.published && Unseen(m, s')
    ensures s'.calls == s.calls + n && |s'.retries| == |s.retries| + n
    decreases n
  {
    if n == 0 {
      events, s' := [], s;
    } else {
      events, s' := UnidentifiedCycles(maxRetries, m, s, n - 1);
      events, s' := OneMoreCycle(maxRetries, m, s, events, s');
    }
  }

  /** No number bounds the calls of all runs over a message without an id. */
  lemma UnidentifiedIsUnbounded(maxRetries: int, messages: set<Message>, m: Message, bound: nat)
    requires m in messages && m.parseable && !Stable(m) && maxRetries >= 1
    ensures exists events, s :: Run(maxRetries, Start(messages), events, s) && s.published == messages && s.calls > bound
  {
    var events, s := UnidentifiedCycles(maxRetries, m, Start(messages), bound + 1);
  }

  ghost predicate CallsBounded(maxRetries: int, messages: set<Message>) {
    forall events, s :: Run(maxRetries, Start(messages), events, s) && s.published == messages ==>
      s.calls <= (Budget(maxRetries) + 1) * |messages|
  }

  /** The bound on handler calls holds for all runs over these messages exactly when there
      are no retries at all or every message that parses has a stable id. */
  lemma {:induction false} CallsBoundedExactlyWhenStable(maxRetries: int, messages: set<Message>)
    ensures CallsBounded(maxRetries, messages) <==> maxRetries <= 0 || AllStable(messages)
  {
    var bound := (Budget(maxRetries) + 1) * |messages|;
    if maxRetries <= 0 || AllStable(messages) {
      forall events, s | Run(maxRetries, Start(messages), events, s) && s.published == messages
        ensures s.calls <= bound
      {
        CallsBoundedWhenStable(maxRetries, messages, events, s);
      }
    } else {
      var m :| m in messages && m.parseable && !Stable(m);
      UnidentifiedIsUnbounded(maxRetries, messages, m, bound);
    }
  }

  lemma {:induction false} CallsBoundedWhenStable(maxRetries: int, messages: set<Message>, events: seq<Event>, s: State)
    requires Run(maxRetries, Start(messages), events, s) && s.published == messages
    requires maxRetries <= 0 || AllStable(messages)
    ensures s.calls <= (Budget(maxRetries) + 1) * |messages|
  {
    StartInv(maxRetries, messages);
    RunKeepsInv(maxRetries, Start(messages), events, s);
    if AllStable(messages) {
      RunsAreFinite(maxRetries, messages, events, s);
      CountAtMost(messages);
      Monotone(Budget(maxRetries) + 1, Count(messages), |messages|);
    } else {
      ResolvedAtMost(s);
    }
  }

  lemma CountAtMost(ms: set<Message>)
    ensures Count(ms) <= |ms|
  {
    var countable := set m | m in ms && Countable(m);
    assert ms == countable + (ms - countable);
  }

  lemma ResolvedAtMost(s: State)
    requires Conserved(s)
    ensures |s.acked| + |s.dead| <= |s.published|
  {
    var resolved := s.acked + s.dead;
    assert |resolved| == |s.acked| + |s.dead|;
    assert s.published == resolved + (s.published - resolved);
  }

  lemma Monotone(a: nat, x: nat, y: nat)
    requires x <= y
    ensures a * x <= a * y
  {
  }
}
