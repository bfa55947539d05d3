/** One delivery: the retry counter of the message decides between acknowledging, requeueing
    and dead-lettering it. */
module Consumer {
  import opened Prelude
  import Decimal

  /** A message: its identity at the broker, the id property, the id in the body, and whether
      the body parses at all. */
  datatype Message = Message(uid: nat, messageId: string, eventId: string, parseable: bool)

  datatype Action = Ack | Requeue | DeadLetter

  /** What handling one delivery leaves behind. */
  datatype Handled = Handled(retries: map<string, int>, action: Action, called: bool)

  function MessageKey(m: Message, tag: nat): string {
    if m.messageId != "" then "mid:" + m.messageId
    else if m.eventId != "" then "eid:" + m.eventId
    else "tag:" + Decimal.Print(tag)
  }

  /** The message carries an id that survives redelivery. */
  predicate Stable(m: Message) {
    m.messageId != "" || m.eventId != ""
  }

  predicate StableKey(key: string) {
    key != "" && key[0] != 't'
  }

  function HandleOutcome(retries: map<string, int>, maxRetries: int, m: Message, tag: nat, fails: bool): Handled {
    var key := MessageKey(m, tag);
    var count := if key in retries then retries[key] else 0;
    if !m.parseable then Handled(retries, DeadLetter, false)
    else if !fails then Handled(retries - {key}, Ack, true)
    else if count >= maxRetries then Handled(retries - {key}, DeadLetter, true)
    else Handled(retries[key := count + 1], Requeue, true)
  }

  class Consumer {
    var retries: map<string, int>
    const maxRetries: int

    /** The zero of the configuration stands for the default. */
    constructor (configured: int)
      ensures retries == map[] && maxRetries == if configured == 0 then 3 else configured
    {
      retries := map[];
      maxRetries := if configured == 0 then 3 else configured;
    }

    /** Handle one delivery; `fails` is what the handler answers if it is called. */
    method Handle(m: Message, tag: nat, fails: bool) returns (action: Action, called: bool)
      modifies this`retries
      ensures Handled(retries, action, called) == HandleOutcome(old(retries), maxRetries, m, tag, fails)
      ensures action == Ack <==> m.parseable && !fails
      ensures called <==> m.parseable
    {
      if !m.parseable {
        return DeadLetter, false;
      }
      var key := MessageKey(m, tag);
      if fails {
        var count := 0;
        if key in retries {
          count := retries[key];
        }
        if count >= maxRetries {
          retries := retries - {key};
          return DeadLetter, true;
        }
        retries := retries[key := count + 1];
        return Requeue, true;
      }
      retries := retries - {key};
      return Ack, true;
    }
  }

  /** What distinguishes messages for the counter: the id and where it was found, or the tag. */
  datatype Identity = ByMessageId(id: string) | ByEventId(id: string) | ByTag(tag: nat)

  function IdentityOf(m: Message, tag: nat): Identity {
    if m.messageId != "" then ByMessageId(m.messageId)
    else if m.eventId != "" then ByEventId(m.eventId)
    else ByTag(tag)
  }

  /** Two deliveries share a key exactly when they share an identity: never across id
      sources, never for two different ids or tags. */
  lemma KeyIsIdentity(m: Message, tag: nat, m': Message, tag': nat)
    ensures MessageKey(m, tag) == MessageKey(m', tag') <==> IdentityOf(m, tag) == IdentityOf(m', tag')
    ensures StableKey(MessageKey(m, tag)) <==> Stable(m)
  {
    var k, k' := MessageKey(m, tag), MessageKey(m', tag');
    if k == k' {
      assert k[0] == k'[0] && k[4..] == k'[4..];
      if !Stable(m) {
        assert k[4..] == Decimal.Print(tag) && k'[4..] == Decimal.Print(tag');
        Decimal.PrintInjective(tag, tag');
      } else if m.messageId != "" {
        assert k[4..] == m.messageId && k'[4..] == m'.messageId;
      } else {
        assert k[4..] == m.eventId && k'[4..] == m'.eventId;
      }
    }
  }
}
