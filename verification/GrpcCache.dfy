/** The response-caching interceptor: concurrent requests around one key-value store with
    expiry.  Requests advance step by step in any interleaving; time passes, entries are
    evicted or corrupted, and store operations fail, at any moment in between. */
module GrpcCache {
  import opened Prelude

  type Response = string

  datatype Request = Request(method_: string, suffix: string, isProto: bool)

  /** Serialisation: `unmarshal` reads data as the response type of a method. */
  datatype Codec = Codec(
    marshal: Response -> Option<string>,
    unmarshal: (string, string) -> Option<Response>,
    typed: (string, Response) -> bool
  )

  /** What a method's response marshals to, unmarshals to that response. */
  ghost predicate RoundTrips(codec: Codec) {
    forall m: string, r: Response :: codec.typed(m, r) && codec.marshal(r).Some? ==>
      codec.unmarshal(m, codec.marshal(r).value) == Some(r)
  }

  /** The cachable methods and their time to live, as the store's client takes it: a positive
      one sets an expiry, minus one keeps the expiry of the entry it replaces, and any other
      means none. */
  datatype Config = Config(ttl: map<string, int>, codec: Codec)

  function RedisKey(m: string, suffix: string): string {
    "grpc:" + m + ":" + suffix
  }

  predicate Cachable(cfg: Config, req: Request) {
    req.method_ in cfg.ttl && req.isProto && req.suffix != ""
  }

  datatype Entry = Entry(data: string, expires: Option<nat>)

  predicate Live(e: Entry, now: nat) {
    e.expires.Some? ==> now < e.expires.value
  }

  datatype Phase =
    | Looking                   // before the cache lookup
    | Calling                   // the real handler runs
    | Storing(resp: Response)   // the handler has answered, the store is next

  datatype Source = FromHandler | FromCache

  datatype Outcome = Returned(resp: Response) | ReturnedNil | Errored(error: string)

  /** The answer to one call, and when it was given. */
  datatype Answer = Answer(id: nat, req: Request, outcome: Outcome, source: Source, at: nat)

  /** The call whose response was stored, and when. */
  datatype Stored = Stored(id: nat, at: nat)

  datatype State = State(
    now: nat,
    store: map<string, Entry>,
    requests: map<nat, (Request, Phase)>,
    arrived: set<nat>,                      // the calls so far
    handled: map<nat, (Request, Outcome)>,  // what the real handler returned in each call
    stored: set<Stored>,
    answers: seq<Answer>
  )

  datatype Event =
    | Arrive(id: nat, req: Request)
    | Lookup(id: nat, storeFails: bool, deleteFails: bool)
    | HandlerFails(id: nat, error: string)
    | HandlerReturns(id: nat, resp: Response)
    | HandlerReturnsNil(id: nat)
    | Store(id: nat, storeFails: bool)
    | Tick
    | Evict(key: string)
    | Corrupt(key: string, entry: Entry)

  predicate InPhase(s: State, id: nat, p: Phase) {
    id in s.requests && s.requests[id].1 == p
  }

  predicate Enabled(cfg: Config, s: State, e: Event) {
    match e
    case Arrive(id, _) => id !in s.arrived
    case Lookup(id, _, _) => InPhase(s, id, Looking)
    case HandlerFails(id, _) => InPhase(s, id, Calling)
    case HandlerReturns(id, resp) => InPhase(s, id, Calling) && cfg.codec.typed(s.requests[id].0.method_, resp)
    case HandlerReturnsNil(id) => InPhase(s, id, Calling)
    case Store(id, _) => id in s.requests && s.requests[id].1.Storing?
    case Tick => true
    case Evict(_) => true
    case Corrupt(_, entry) => Garbage(cfg, entry.data)
  }

  /** Data that no cachable method can read. */
  predicate Garbage(cfg: Config, data: string) {
    forall m :: m in cfg.ttl ==> cfg.codec.unmarshal(m, data).None?
  }

  function Reply(s: State, id: nat, outcome: Outcome, source: Source): State
    requires id in s.requests
  {
    s.(requests := s.requests - {id}, answers := s.answers + [Answer(id, s.requests[id].0, outcome, source, s.now)])
  }

  function Enter(s: State, id: nat, req: Request, p: Phase): State {
    s.(requests := s.requests[id := (req, p)])
  }

  /** The real handler has returned in this call. */
  function Handled(s: State, id: nat, outcome: Outcome): State
    requires id in s.requests
  {
    s.(handled := s.handled[id := (s.requests[id].0, outcome)])
  }

  function Next(cfg: Config, s: State, e: Event): State
    requires Enabled(cfg, s, e)
  {
    match e
    case Arrive(id, req) =>
      Enter(s.(arrived := s.arrived + {id}), id, req, if Cachable(cfg, req) then Looking else Calling)
    case Lookup(id, storeFails, deleteFails) =>
      var req := s.requests[id].0;
      var key := RedisKey(req.method_, req.suffix);
      if storeFails || key !in s.store || !Live(s.store[key], s.now) then Enter(s, id, req, Calling)
      else
        var msg := cfg.codec.unmarshal(req.method_, s.store[key].data);
        if msg.Some? then Reply(s, id, Returned(msg.value), FromCache)
        else Enter(if deleteFails then s else s.(store := s.store - {key}), id, req, Calling)
    case HandlerFails(id, error) => Reply(Handled(s, id, Errored(error)), id, Errored(error), FromHandler)
    case HandlerReturns(id, resp) =>
      var req, s' := s.requests[id].0, Handled(s, id, Returned(resp));
      if Cachable(cfg, req) then Enter(s', id, req, Storing(resp)) else Reply(s', id, Returned(resp), FromHandler)
    case HandlerReturnsNil(id) => Reply(Handled(s, id, ReturnedNil), id, ReturnedNil, FromHandler)
    case Store(id, storeFails) =>
      var (req, p) := s.requests[id];
      var data := cfg.codec.marshal(p.resp);
      var s' := if storeFails || data.None? || !Cachable(cfg, req) then s
                else s.(store := s.store[RedisKey(req.method_, req.suffix) := Entry(data.value, Expiry(cfg, s, req))],
                        stored := s.stored + {Stored(id, s.now)});
      Reply(s', id, Returned(p.resp), FromHandler)
    case Tick => s.(now := s.now + 1)
    case Evict(key) => s.(store := s.store - {key})
    case Corrupt(key, entry) => s.(store := s.store[key := entry])
  }

  const KEEP_TTL := -1

  function Expiry(cfg: Config, s: State, req: Request): Option<nat>
    requires req.method_ in cfg.ttl
  {
    var ttl, key := cfg.ttl[req.method_], RedisKey(req.method_, req.suffix);
    if ttl > 0 then Some(s.now + ttl)
    else if ttl == KEEP_TTL && key in s.store && Live(s.store[key], s.now) then s.store[key].expires
    else None
  }

  predicate Run(cfg: Config, s: State, events: seq<Event>, s': State)
    decreases events
  {
    if events == [] then s' == s
    else Enabled(cfg, s, events[0]) && Run(cfg, Next(cfg, s, events[0]), events[1..], s')
  }

  predicate Initial(s: State) {
    && s.store == map[] && s.requests == map[] && s.arrived == {} && s.handled == map[]
    && s.stored == {} && s.answers == []
  }

  // ----- Keys -----

  /** One method name followed by a colon begins the other. */
  predicate Overlaps(m: string, m': string) {
    m + ":" <= m' || m' + ":" <= m
  }

  /** Two methods can share an entry exactly when one of them, followed by a colon, begins the
      other; a method never shares an entry with itself under two suffixes. */
  lemma KeysCollideExactlyWhenMethodsOverlap(m: string, m': string)
    ensures (exists x, x' :: x != "" && x' != "" && (m, x) != (m', x') && RedisKey(m, x) == RedisKey(m', x'))
            <==> m != m' && Overlaps(m, m')
  {
    if m != m' && Overlaps(m, m') {
      if m + ":" <= m' {
        CollisionFor(m, m', m'[|m| + 1..]);
      } else {
        CollisionFor(m', m, m[|m'| + 1..]);
      }
    }
    forall x, x' | RedisKey(m, x) == RedisKey(m', x') && (m, x) != (m', x')
      ensures m != m' && Overlaps(m, m')
    {
      SameKeyOverlaps(m, x, m', x');
    }
  }

  lemma CollisionFor(m: string, m': string, rest: string)
    requires m' == m + ":" + rest
    ensures RedisKey(m, rest + ":a") == RedisKey(m', "a")
  {
    assert m' + ":" + "a" == m + ":" + (rest + ":a");
    assert RedisKey(m', "a") == "grpc:" + (m' + ":" + "a");
    assert RedisKey(m, rest + ":a") == "grpc:" + (m + ":" + (rest + ":a"));
  }

  lemma SameKeyOverlaps(m: string, x: string, m': string, x': string)
    requires RedisKey(m, x) == RedisKey(m', x')
    ensures (m, x) == (m', x') || (m != m' && Overlaps(m, m'))
  {
    var a, b := m + ":" + x, m' + ":" + x';
    assert RedisKey(m, x)[5..] == a && RedisKey(m', x')[5..] == b;
    if |m| == |m'| {
      assert m == a[..|m|] == b[..|m|] == m';
      assert x == a[|m| + 1..] == b[|m| + 1..] == x';
    } else if |m| < |m'| {
      assert (m + ":") == a[..|m| + 1] == b[..|m| + 1] == m'[..|m| + 1];
    } else {
      assert (m' + ":") == b[..|m'| + 1] == a[..|m'| + 1] == m[..|m'| + 1];
    }
  }

  /** In particular, method names without a colon never overlap. */
  lemma ColonFreeMethodsDoNotOverlap(m: string, m': string)
    requires ':' !in m && ':' !in m'
    ensures !Overlaps(m, m')
  {
    OverlapShowsColon(m, m');
    OverlapShowsColon(m', m);
  }

  lemma OverlapShowsColon(m: string, m': string)
    ensures m + ":" <= m' ==> ':' in m'
  {
    if m + ":" <= m' {
      assert m'[|m|] == ':';
    }
  }

  predicate NoOverlap(cfg: Config) {
    forall m, m' :: m in cfg.ttl && m' in cfg.ttl && m != m' ==> !Overlaps(m, m')
  }

  // ----- The invariant -----

  /** What the real handler returned in this call was a response to this method and suffix. */
  predicate Responded(s: State, id: nat, method_: string, suffix: string, resp: Response) {
    && id in s.handled
    && s.handled[id].0.method_ == method_ && s.handled[id].0.suffix == suffix
    && s.handled[id].1 == Returned(resp)
  }

  /** The entry was stored by a call of exactly this method and suffix. */
  ghost predicate EntryFrom(cfg: Config, s: State, st: Stored, key: string, entry: Entry) {
    exists m: string, x: string, resp: Response ::
      Responded(s, st.id, m, x, resp) && Holds(cfg, st.at, m, x, resp, key, entry)
  }

  ghost predicate Holds(cfg: Config, at: nat, m: string, x: string, resp: Response, key: string, entry: Entry) {
    && m in cfg.ttl && key == RedisKey(m, x)
    && cfg.codec.typed(m, resp) && cfg.codec.marshal(resp) == Some(entry.data)
    && (cfg.ttl[m] > 0 ==> entry.expires == Some(at + cfg.ttl[m]))
  }

  ghost predicate EntriesKnown(cfg: Config, s: State) {
    forall key :: key in s.store ==>
      Garbage(cfg, s.store[key].data) || exists st :: st in s.stored && EntryFrom(cfg, s, st, key, s.store[key])
  }

  ghost predicate StoresKnown(cfg: Config, s: State) {
    forall st :: st in s.stored ==> st.id in s.handled && st.at <= s.now && Cachable(cfg, s.handled[st.id].0)
  }

  /** A call that waits for the handler has nothing from it yet; one that is about to store
      holds what its own handler returned. */
  ghost predicate CallsKnown(cfg: Config, s: State) {
    && s.handled.Keys <= s.arrived && s.requests.Keys <= s.arrived
    && forall id :: id in s.requests ==>
         match s.requests[id].1
         case Storing(resp) =>
           && id in s.handled && s.handled[id] == (s.requests[id].0, Returned(resp))
           && cfg.codec.typed(s.requests[id].0.method_, resp)
         case Looking => id !in s.handled && Cachable(cfg, s.requests[id].0)
         case Calling => id !in s.handled
  }

  /** The answer refines the handler.  Without the cache it is what the real handler returned
      in this very call, error or not; from the cache it is a response that the real handler
      returned for the same method and suffix in a call stored less than the time to live
      ago. */
  ghost predicate Refines(cfg: Config, s: State, a: Answer) {
    match a.source
    case FromHandler => a.id in s.handled && s.handled[a.id] == (a.req, a.outcome)
    case FromCache =>
      && a.outcome.Returned?
      && Cachable(cfg, a.req)
      && exists st :: st in s.stored && RecentStore(cfg, s, st, a)
  }

  ghost predicate RecentStore(cfg: Config, s: State, st: Stored, a: Answer) {
    && a.outcome.Returned?
    && a.req.method_ in cfg.ttl
    && Responded(s, st.id, a.req.method_, a.req.suffix, a.outcome.resp)
    && st.at <= a.at
    && (cfg.ttl[a.req.method_] > 0 ==> a.at < st.at + cfg.ttl[a.req.method_])
  }

  ghost predicate AllRefine(cfg: Config, s: State) {
    forall i :: 0 <= i < |s.answers| ==> Refines(cfg, s, s.answers[i])
  }

  ghost predicate Inv(cfg: Config, s: State) {
    EntriesKnown(cfg, s) && StoresKnown(cfg, s) && CallsKnown(cfg, s) && AllRefine(cfg, s)
  }

  lemma HitRefines(cfg: Config, s: State, id: nat, req: Request)
    requires RoundTrips(cfg.codec) && NoOverlap(cfg) && EntriesKnown(cfg, s) && StoresKnown(cfg, s) && Cachable(cfg, req)
    requires var key := RedisKey(req.method_, req.suffix);
             key in s.store && Live(s.store[key], s.now) && cfg.codec.unmarshal(req.method_, s.store[key].data).Some?
    ensures var msg := cfg.codec.unmarshal(req.method_, s.store[RedisKey(req.method_, req.suffix)].data).value;
            Refines(cfg, s, Answer(id, req, Returned(msg), FromCache, s.now))
  {
    var key := RedisKey(req.method_, req.suffix);
    var entry := s.store[key];
    var st :| st in s.stored && EntryFrom(cfg, s, st, key, entry);
    var m: string, x: string, resp: Response :|
      Responded(s, st.id, m, x, resp) && Holds(cfg, st.at, m, x, resp, key, entry);
    SameKeyOverlaps(m, x, req.method_, req.suffix);
    assert cfg.codec.unmarshal(m, entry.data) == Some(resp);
    assert RecentStore(cfg, s, st, Answer(id, req, Returned(resp), FromCache, s.now));
  }

  /** The history of the handler only grows. */
  ghost predicate Extends(s: State, s': State) {
    && s.stored <= s'.stored
    && forall id :: id in s.handled ==> id in s'.handled && s'.handled[id] == s.handled[id]
  }

  lemma StepExtends(cfg: Config, s: State, e: Event)
    requires CallsKnown(cfg, s) && Enabled(cfg, s, e)
    ensures Extends(s, Next(cfg, s, e))
  {
  }

  /** Answers already given stay justified as the history grows, and one more joins them. */
  lemma RefinementGrows(cfg: Config, s: State, s': State, a: Answer)
    requires AllRefine(cfg, s) && Extends(s, s')
    requires s'.answers == s.answers || (s'.answers == s.answers + [a] && Refines(cfg, s', a))
    ensures AllRefine(cfg, s')
  {
    forall i | 0 <= i < |s.answers|
      ensures Refines(cfg, s', s.answers[i])
    {
      var b := s.answers[i];
      assert Refines(cfg, s, b);
      if b.source == FromCache {
        var st :| st in s.stored && RecentStore(cfg, s, st, b);
        assert RecentStore(cfg, s', st, b);
      }
    }
  }

  lemma EntryStays(cfg: Config, s: State, s': State, st: Stored, key: string, entry: Entry)
    requires Extends(s, s') && EntryFrom(cfg, s, st, key, entry)
    ensures EntryFrom(cfg, s', st, key, entry)
  {
    var m: string, x: string, resp: Response :|
      Responded(s, st.id, m, x, resp) && Holds(cfg, st.at, m, x, resp, key, entry);
    assert Responded(s', st.id, m, x, resp);
  }

  lemma NewEntry(cfg: Config, s: State, e: Event)
    requires CallsKnown(cfg, s) && Enabled(cfg, s, e) && e.Store?
    requires var req := s.requests[e.id].0;
             !e.storeFails && cfg.codec.marshal(s.requests[e.id].1.resp).Some? && Cachable(cfg, req)
    ensures var s', req := Next(cfg, s, e), s.requests[e.id].0;
            var key := RedisKey(req.method_, req.suffix);
            key in s'.store && EntryFrom(cfg, s', Stored(e.id, s.now), key, s'.store[key])
  {
    var s' := Next(cfg, s, e);
    var (req, p) := s.requests[e.id];
    var key := RedisKey(req.method_, req.suffix);
    assert Responded(s', e.id, req.method_, req.suffix, p.resp);
    assert Holds(cfg, s.now, req.method_, req.suffix, p.resp, key, s'.store[key]);
  }

  lemma StepKeepsStore(cfg: Config, s: State, e: Event)
    requires Inv(cfg, s) && Enabled(cfg, s, e)
    ensures EntriesKnown(cfg, Next(cfg, s, e))
  {
    var s' := Next(cfg, s, e);
    StepExtends(cfg, s, e);
    forall key | key in s'.store
      ensures Garbage(cfg, s'.store[key].data) || exists st :: st in s'.stored && EntryFrom(cfg, s', st, key, s'.store[key])
    {
      if e.Store? && (key !in s.store || s'.store[key] != s.store[key]) {
        NewEntry(cfg, s, e);
        assert Stored(e.id, s.now) in s'.stored;
      } else if !(e.Corrupt? && e.key == key) && !Garbage(cfg, s.store[key].data) {
        var st :| st in s.stored && EntryFrom(cfg, s, st, key, s.store[key]);
        EntryStays(cfg, s, s', st, key, s.store[key]);
      }
    }
  }

  lemma StepKeepsCalls(cfg: Config, s: State, e: Event)
    requires StoresKnown(cfg, s) && CallsKnown(cfg, s) && Enabled(cfg, s, e)
    ensures StoresKnown(cfg, Next(cfg, s, e)) && CallsKnown(cfg, Next(cfg, s, e))
  {
  }

  lemma StepKeepsAnswers(cfg: Config, s: State, e: Event)
    requires RoundTrips(cfg.codec) && NoOverlap(cfg) && Inv(cfg, s) && Enabled(cfg, s, e)
    ensures AllRefine(cfg, Next(cfg, s, e))
  {
    var s' := Next(cfg, s, e);
    StepExtends(cfg, s, e);
    if s'.answers == s.answers {
      RefinementGrows(cfg, s, s', Answer(0, Request("", "", false), ReturnedNil, FromHandler, 0));
    } else {
      var a := NewAnswer(cfg, s, e);
      RefinementGrows(cfg, s, s', a);
    }
  }

  lemma NewAnswer(cfg: Config, s: State, e: Event) returns (a: Answer)
    requires RoundTrips(cfg.codec) && NoOverlap(cfg) && Inv(cfg, s) && Enabled(cfg, s, e)
    requires Next(cfg, s, e).answers != s.answers
    ensures Next(cfg, s, e).answers == s.answers + [a] && Refines(cfg, Next(cfg, s, e), a)
  {
    var s' := Next(cfg, s, e);
    a := s'.answers[|s.answers|];
    if e.Lookup? {
      HitRefines(cfg, s, e.id, s.requests[e.id].0);
      var st :| st in s.stored && RecentStore(cfg, s, st, a);
      assert RecentStore(cfg, s', st, a);
    }
  }

  lemma {:induction false} RunKeepsInv(cfg: Config, s: State, events: seq<Event>, s': State)
    requires RoundTrips(cfg.codec) && NoOverlap(cfg) && Inv(cfg, s) && Run(cfg, s, events, s')
    ensures Inv(cfg, s')
    decreases events
  {
    if events != [] {
      StepKeepsStore(cfg, s, events[0]);
      StepKeepsCalls(cfg, s, events[0]);
      StepKeepsAnswers(cfg, s, events[0]);
      RunKeepsInv(cfg, Next(cfg, s, events[0]), events[1..], s');
    }
  }

  /** In every interleaving every answer refines the handler: it is what the handler returned in
      this very call, or a response it returned for the same method and suffix in a call
      stored less than its time to live ago; errors are never served from the cache. */
  lemma {:induction false} CacheRefinesHandler(cfg: Config, s: State, events: seq<Event>, s': State, i: nat)
    requires RoundTrips(cfg.codec) && NoOverlap(cfg)
    requires Initial(s) && Run(cfg, s, events, s') && i < |s'.answers|
    ensures Refines(cfg, s', s'.answers[i])
    ensures s'.answers[i].outcome.Errored? ==> s'.answers[i].source == FromHandler
  {
    InitialInv(cfg, s);
    RunKeepsInv(cfg, s, events, s');
    assert Refines(cfg, s', s'.answers[i]);
  }

  lemma InitialInv(cfg: Config, s: State)
    requires Initial(s)
    ensures Inv(cfg, s)
  {
  }

  // ----- What is cached at all -----

  /** In every run, only requests for a listed method, with a proto message and a key suffix, are
      answered from the cache or have their responses stored; every other one is answered by
      its own handler. */
  lemma {:induction false} OnlyCachableRequestsAreCached(cfg: Config, s: State, events: seq<Event>, s': State)
    requires RoundTrips(cfg.codec) && NoOverlap(cfg) && Initial(s) && Run(cfg, s, events, s')
    ensures forall i :: 0 <= i < |s'.answers| ==>
              var req := s'.answers[i].req;
              req.method_ !in cfg.ttl || !req.isProto || req.suffix == "" ==> s'.answers[i].source == FromHandler
    ensures forall st :: st in s'.stored ==>
              && st.id in s'.handled
              && var req := s'.handled[st.id].0;
                 req.method_ in cfg.ttl && req.isProto && req.suffix != ""
  {
    InitialInv(cfg, s);
    RunKeepsInv(cfg, s, events, s');
    forall i | 0 <= i < |s'.answers|
      ensures var req := s'.answers[i].req;
              req.method_ !in cfg.ttl || !req.isProto || req.suffix == "" ==> s'.answers[i].source == FromHandler
    {
      assert Refines(cfg, s', s'.answers[i]);
    }
  }

  /** A response just stored is served to the next lookup of the same method and suffix, exactly
      while its time to live has not passed, if nobody touches the entry; afterwards the
      handler is called. */
  lemma StoredIsServedExactlyWhileFresh(cfg: Config, s: State, id: nat, n: nat, id': nat, req: Request)
    requires RoundTrips(cfg.codec) && InPhaseStoring(s, id) && s.requests[id].0.method_ in cfg.ttl
    requires var stored, resp := s.requests[id].0, s.requests[id].1.resp;
             && stored.isProto && stored.suffix != "" && cfg.ttl[stored.method_] > 0
             && cfg.codec.typed(stored.method_, resp) && cfg.codec.marshal(resp).Some?
             && req.method_ == stored.method_ && req.suffix == stored.suffix && req.isProto
    requires id' !in s.arrived && id' != id
    ensures var resp := s.requests[id].1.resp;
            var s1 := Next(cfg, s, Store(id, false));
            var s2 := s1.(now := s1.now + n);
            var s3 := Next(cfg, s2, Arrive(id', req));
            var s4 := Next(cfg, s3, Lookup(id', false, false));
            if n < cfg.ttl[req.method_]
            then s4.answers == s1.answers + [Answer(id', req, Returned(resp), FromCache, s1.now + n)]
            else s4.answers == s1.answers && InPhase(s4, id', Calling)
  {
    var resp := s.requests[id].1.resp;
    var s1 := Next(cfg, s, Store(id, false));
    var key := RedisKey(req.method_, req.suffix);
    assert s1.store[key] == Entry(cfg.codec.marshal(resp).value, Some(s.now + cfg.ttl[req.method_]));
    assert cfg.codec.unmarshal(req.method_, s1.store[key].data) == Some(resp);
  }

  /** A live entry that cannot be read is deleted by the lookup that finds it, unless the delete
      fails, and the handler is called. */
  lemma CorruptedIsEvicted(cfg: Config, s: State, id: nat, deleteFails: bool)
    requires InPhase(s, id, Looking)
    requires var req := s.requests[id].0;
             var key := RedisKey(req.method_, req.suffix);
             && key in s.store && (s.store[key].expires.None? || s.now < s.store[key].expires.value)
             && cfg.codec.unmarshal(req.method_, s.store[key].data).None?
    ensures var key, s' := RedisKey(s.requests[id].0.method_, s.requests[id].0.suffix), Next(cfg, s, Lookup(id, false, deleteFails));
            InPhase(s', id, Calling) && s'.answers == s.answers && s'.store == if deleteFails then s.store else s.store - {key}
  {
  }

  predicate InPhaseStoring(s: State, id: nat) {
    id in s.requests && s.requests[id].1.Storing?
  }

  // ----- How old an answer can be -----

  lemma {:induction false} RunSnoc(cfg: Config, s: State, events: seq<Event>, mid: State, e: Event)
    requires Run(cfg, s, events, mid) && Enabled(cfg, mid, e)
    ensures Run(cfg, s, events + [e], Next(cfg, mid, e))
    decreases events
  {
    if events == [] {
      assert events + [e] == [e];
    } else {
      RunSnoc(cfg, Next(cfg, s, events[0]), events[1..], mid, e);
      assert (events + [e])[1..] == events[1..] + [e];
    }
  }

  /** Every answer of this method from the cache was stored at most so long before. */
  ghost predicate AgeBounded(cfg: Config, m: string, bound: nat) {
    forall s, events, s', i ::
      Initial(s) && Run(cfg, s, events, s') && 0 <= i < |s'.answers|
      && s'.answers[i].source == FromCache && s'.answers[i].req.method_ == m ==>
        exists st :: st in s'.stored && RecentStore(cfg, s', st, s'.answers[i]) && s'.answers[i].at <= st.at + bound
  }

  /** The age of the answers of a method is bounded, over all runs, exactly when its time to
      live is positive. */
  lemma AgeBoundedExactlyWhenTtlPositive(cfg: Config, req: Request, resp: Response)
    requires RoundTrips(cfg.codec) && NoOverlap(cfg) && Cachable(cfg, req)
    requires cfg.codec.typed(req.method_, resp) && cfg.codec.marshal(resp).Some?
    ensures (exists bound :: AgeBounded(cfg, req.method_, bound)) <==> cfg.ttl[req.method_] > 0
  {
    if cfg.ttl[req.method_] > 0 {
      TtlBoundsAge(cfg, req.method_);
    } else {
      forall bound: nat
        ensures !AgeBounded(cfg, req.method_, bound)
      {
        var events, s' := OldAnswer(cfg, req, resp, bound + 1);
        assert Initial(START) && s'.answers[1].source == FromCache;
      }
    }
  }

  lemma TtlBoundsAge(cfg: Config, m: string)
    requires RoundTrips(cfg.codec) && NoOverlap(cfg) && m in cfg.ttl && cfg.ttl[m] > 0
    ensures AgeBounded(cfg, m, cfg.ttl[m])
  {
    forall s, events, s', i |
      Initial(s) && Run(cfg, s, events, s') && 0 <= i < |s'.answers|
      && s'.answers[i].source == FromCache && s'.answers[i].req.method_ == m
      ensures exists st :: st in s'.stored && RecentStore(cfg, s', st, s'.answers[i])
                           && s'.answers[i].at <= st.at + cfg.ttl[m]
    {
      CacheRefinesHandler(cfg, s, events, s', i);
    }
  }

  const START := State(0, map[], map[], {}, map[], {}, [])

  lemma {:induction false} RunTicks(cfg: Config, s: State, events: seq<Event>, mid: State, n: nat) returns (events': seq<Event>)
    requires Run(cfg, s, events, mid)
    ensures Run(cfg, s, events', mid.(now := mid.now + n))
  {
    if n == 0 {
      events' := events;
    } else {
      events' := RunTicks(cfg, s, events, mid, n - 1);
      RunSnoc(cfg, s, events', mid.(now := mid.now + n - 1), Tick);
      events' := events' + [Tick];
    }
  }

  /** Without an expiry an answer can be as old as one likes: stored at time zero and served
      at time n. */
  lemma OldAnswer(cfg: Config, req: Request, resp: Response, n: nat) returns (events: seq<Event>, s: State)
    requires RoundTrips(cfg.codec) && Cachable(cfg, req) && cfg.ttl[req.method_] <= 0
    requires cfg.codec.typed(req.method_, resp) && cfg.codec.marshal(resp).Some?
    ensures Run(cfg, START, events, s) && s.stored == {Stored(0, 0)}
    ensures |s.answers| == 2 && s.answers[1] == Answer(1, req, Returned(resp), FromCache, n)
  {
    var key := RedisKey(req.method_, req.suffix);
    events, s := FirstCall(cfg, req, resp);
    events := RunTicks(cfg, START, events, s, n);
    s := s.(now := n);
    RunSnoc(cfg, START, events, s, Arrive(1, req));
    events, s := events + [Arrive(1, req)], Next(cfg, s, Arrive(1, req));
    assert key in s.store && Live(s.store[key], s.now);
    RunSnoc(cfg, START, events, s, Lookup(1, false, false));
    events, s := events + [Lookup(1, false, false)], Next(cfg, s, Lookup(1, false, false));
  }

  lemma FirstCall(cfg: Config, req: Request, resp: Response) returns (events: seq<Event>, s: State)
    requires Cachable(cfg, req) && cfg.ttl[req.method_] <= 0
    requires cfg.codec.typed(req.method_, resp) && cfg.codec.marshal(resp).Some?
    ensures Run(cfg, START, events, s) && s.now == 0 && s.stored == {Stored(0, 0)} && s.arrived == {0}
    ensures s.store == map[RedisKey(req.method_, req.suffix) := Entry(cfg.codec.marshal(resp).value, None)]
    ensures |s.answers| == 1 && s.requests == map[]
  {
    var todo := [Arrive(0, req), Lookup(0, false, false), HandlerReturns(0, resp), Store(0, false)];
    var s1 := Next(cfg, START, todo[0]);
    var s2 := Next(cfg, s1, todo[1]);
    var s3 := Next(cfg, s2, todo[2]);
    s := Next(cfg, s3, todo[3]);
    RunSnoc(cfg, START, [], START, todo[0]);
    RunSnoc(cfg, START, [] + [todo[0]], s1, todo[1]);
    RunSnoc(cfg, START, [] + [todo[0]] + [todo[1]], s2, todo[2]);
    RunSnoc(cfg, START, [] + [todo[0]] + [todo[1]] + [todo[2]], s3, todo[3]);
    events := [] + [todo[0]] + [todo[1]] + [todo[2]] + [todo[3]];
  }

  // ----- The code -----

  /** An event of another request, of the store or of the clock. */
  predicate Foreign(e: Event, id: nat) {
    match e
    case Tick => true
    case Evict(_) => true
    case Corrupt(_, _) => true
    case _ => e.id != id
  }

  datatype HandlerReply = Fails(error: string) | Answers(resp: Response) | AnswersNil

  function Direct(reply: HandlerReply): Outcome {
    match reply
    case Fails(error) => Errored(error)
    case Answers(resp) => Returned(resp)
    case AnswersNil => ReturnedNil
  }

  /** The interceptor in front of a handler; `world` says what everyone else does between two
      steps of a request. */
  class Server {
    const cfg: Config
    const world: nat -> seq<Event>
    var turn: nat
    var s: State

    constructor (cfg: Config, world: nat -> seq<Event>)
      ensures this.cfg == cfg && Initial(s)
    {
      this.cfg, this.world, this.turn := cfg, world, 0;
      this.s := START;
    }

    method Step(e: Event, ghost start: State, ghost events: seq<Event>) returns (ghost events': seq<Event>)
      requires Run(cfg, start, events, s) && Enabled(cfg, s, e)
      modifies this`s
      ensures s == Next(cfg, old(s), e) && Run(cfg, start, events', s)
    {
      RunSnoc(cfg, start, events, s, e);
      events' := events + [e];
      s := Next(cfg, s, e);
    }

    method Meanwhile(id: nat, ghost start: State, ghost events: seq<Event>) returns (ghost events': seq<Event>)
      requires Run(cfg, start, events, s) && id in s.requests
      modifies this
      ensures Run(cfg, start, events', s)
      ensures id in s.requests && s.requests[id] == old(s.requests)[id]
    {
      events' := events;
      var happening := world(turn);
      turn := turn + 1;
      for i := 0 to |happening|
        invariant Run(cfg, start, events', s)
        invariant id in s.requests && s.requests[id] == old(s.requests)[id]
      {
        if Foreign(happening[i], id) && Enabled(cfg, s, happening[i]) {
          events' := Step(happening[i], start, events');
        }
      }
    }

    /** One request, while others go on: the handler is bypassed only by a cache hit. */
    method Intercept(id: nat, req: Request, reply: HandlerReply, getFails: bool, delFails: bool, setFails: bool)
      returns (a: Answer, ghost events: seq<Event>)
      requires id !in s.arrived && (reply.Answers? ==> cfg.codec.typed(req.method_, reply.resp))
      modifies this
      ensures Run(cfg, old(s), events, s)
      ensures s.answers != [] && s.answers[|s.answers| - 1] == a && a.id == id && a.req == req
      ensures a.source == FromHandler ==> a.outcome == Direct(reply)
      ensures a.source == FromCache ==> Cachable(cfg, req) && !getFails
    {
      events := Step(Arrive(id, req), s, []);
      events := Meanwhile(id, old(s), events);
      if Cachable(cfg, req) {
        events := Step(Lookup(id, getFails, delFails), old(s), events);
        if id !in s.requests {
          a := s.answers[|s.answers| - 1];
          return;
        }
        events := Meanwhile(id, old(s), events);
      }
      a, events := CallHandler(id, reply, setFails, old(s), events);
    }

    method CallHandler(id: nat, reply: HandlerReply, setFails: bool, ghost start: State, ghost events: seq<Event>)
      returns (a: Answer, ghost events': seq<Event>)
      requires Run(cfg, start, events, s) && InPhase(s, id, Calling)
      requires reply.Answers? ==> cfg.codec.typed(s.requests[id].0.method_, reply.resp)
      modifies this
      ensures Run(cfg, start, events', s)
      ensures s.answers != [] && s.answers[|s.answers| - 1] == a
      ensures a.id == id && a.req == old(s.requests)[id].0 && a.outcome == Direct(reply) && a.source == FromHandler
    {
      match reply {
        case Fails(error) =>
          events' := Step(HandlerFails(id, error), start, events);
        case AnswersNil =>
          events' := Step(HandlerReturnsNil(id), start, events);
        case Answers(resp) =>
          var req := s.requests[id].0;
          events' := Step(HandlerReturns(id, resp), start, events);
          if Cachable(cfg, req) {
            events' := Meanwhile(id, start, events');
            events' := Step(Store(id, setFails), start, events');
          }
      }
      a := s.answers[|s.answers| - 1];
    }
  }
}
