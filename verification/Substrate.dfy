/** The append-only container of chained events. */
module Substrate {
  import opened Utf16
  import opened World
  import opened Canonical
  import opened AuditEvents
  import opened HashChain

  class AttestSubstrate {
    const env: Env
    var events: seq<ChainedEvent>
    var tip: ChainHead

    /** The stored events verify, and the tip is their head. */
    ghost predicate Valid()
      reads this
    {
      Verify(env, events).Accepted? && tip == HeadOf(events)
    }

    constructor (env: Env)
      ensures Valid() && this.env == env && events == []
    {
      this.env := env;
      events := [];
      tip := GenesisHead();
    }

    /**
     * `now` and `eventId` are what the clock and the UUID generator gave; nothing is returned where the
     * source throws.
     */
    method Append(draft: EventDraft, now: Stamp, eventId: JsString) returns (r: Option<ChainedEvent>)
      requires Valid() && !now.NotADate?
      modifies this
      ensures Valid()
      ensures r == ChainExtend(env, old(tip), draft, now, eventId)
      ensures r.None? <==> now.InvalidDate? || !Accepts(EventJs(EventOf(draft, now, eventId)), env.nfc)
      ensures r.None? ==> events == old(events) && tip == old(tip)
      ensures r.Some? ==> events == old(events) + [r.value] && tip == ChainHead(|old(events)|, r.value.eventHash)
    {
      r := ChainExtend(env, tip, draft, now, eventId);
      if r.Some? {
        ExtendKeepsChain(env, events, draft, now, eventId);
        var chained := r.value;
        events := events + [chained];
        tip := ChainHead(chained.seqNo, chained.eventHash);
      }
    }

    method Tip() returns (head: ChainHead)
      requires Valid()
      ensures head == HeadOf(events) && head.seqNo == |events| - 1
    {
      HeadSeqNo(env, events);
      head := tip;
    }

    /** A substrate always verifies. */
    method VerifyAll() returns (verdict: Verdict)
      requires Valid()
      ensures verdict == Accepted
    {
      verdict := VerifyChain(env, events);
    }

    method Snapshot() returns (items: seq<ChainedEvent>)
      requires Valid()
      ensures items == events && Verify(env, items).Accepted?
    {
      items := events;
    }

    /** Nothing is returned where the source throws: exactly on a list that does not verify. */
    static method FromEvents(env: Env, items: seq<ChainedEvent>) returns (r: AttestSubstrate?)
      ensures r != null <==> Verify(env, items).Accepted?
      ensures r != null ==> fresh(r) && r.Valid() && r.env == env && r.events == items
    {
      var result := VerifyChain(env, items);
      if !result.Accepted? {
        return null;
      }
      var instance := new AttestSubstrate(env);
      instance.events := items;
      instance.tip := HeadOf(items);
      r := instance;
    }
  }

  /** An item that `chainExtend` makes from the head of a verified chain can be appended to it. */
  lemma ExtendKeepsChain(env: Env, items: seq<ChainedEvent>, draft: EventDraft, now: Stamp, eventId: JsString)
    requires Verify(env, items).Accepted? && !now.NotADate?
    ensures var next := ChainExtend(env, HeadOf(items), draft, now, eventId);
      next.Some? ==>
        && Verify(env, items + [next.value]).Accepted?
        && HeadOf(items + [next.value]) == ChainHead(|items|, next.value.eventHash)
        && Extendable(next.value.event)
  {
    HeadSeqNo(env, items);
    var next := ChainExtend(env, HeadOf(items), draft, now, eventId);
    if next.Some? {
      var extended := items + [next.value];
      assert extended[..|items|] == items;
      assert CheckItem(env, extended, |items|).Accepted?;
      AcceptedKeepsPrefix(env, extended);
    }
  }

  // ----- Whole runs -----

  datatype Append = Append(draft: EventDraft, now: Stamp, eventId: JsString)

  type Run = run: seq<Append> | forall i :: 0 <= i < |run| ==> !run[i].now.NotADate?

  /** The events after a run of appends, of which any may throw. */
  function EventsAfter(env: Env, start: seq<ChainedEvent>, run: Run): seq<ChainedEvent>
    decreases |run|
  {
    if run == [] then start
    else
      var before := EventsAfter(env, start, run[..|run| - 1]);
      var last := run[|run| - 1];
      var next := ChainExtend(env, HeadOf(before), last.draft, last.now, last.eventId);
      if next.None? then before else before + [next.value]
  }

  /** Whatever is appended, the events stay verifiable and only extend what was there at any earlier time. */
  lemma {:induction false} RunKeepsChain(env: Env, start: seq<ChainedEvent>, run: Run, n: nat)
    requires Verify(env, start).Accepted? && n <= |run|
    ensures Verify(env, EventsAfter(env, start, run)).Accepted?
    ensures EventsAfter(env, start, run[..n]) <= EventsAfter(env, start, run)
    ensures |EventsAfter(env, start, run)| <= |start| + |run|
    decreases |run|
  {
    if run == [] {
      assert run[..n] == run;
    } else {
      var shorter, last := run[..|run| - 1], run[|run| - 1];
      RunKeepsChain(env, start, shorter, if n == |run| then n - 1 else n);
      ExtendKeepsChain(env, EventsAfter(env, start, shorter), last.draft, last.now, last.eventId);
      if n < |run| {
        assert shorter[..n] == run[..n];
      } else {
        assert run[..n] == run;
      }
    }
  }

  /** A run that starts empty holds exactly the chain that building from its own events gives. */
  lemma {:induction false} RunIsBuilt(env: Env, run: Run)
    ensures var items := EventsAfter(env, [], run);
      Build(env, EventsOf(items)) == Some(items)
  {
    RunKeepsChain(env, [], run, 0);
    RunExtendable(env, run);
    AcceptedExactlyBuilt(env, EventsAfter(env, [], run));
  }

  lemma {:induction false} RunExtendable(env: Env, run: Run)
    ensures forall item <- EventsAfter(env, [], run) :: Extendable(item.event)
    decreases |run|
  {
    if run != [] {
      var shorter, last := run[..|run| - 1], run[|run| - 1];
      RunExtendable(env, shorter);
      RunKeepsChain(env, [], shorter, 0);
      ExtendKeepsChain(env, EventsAfter(env, [], shorter), last.draft, last.now, last.eventId);
    }
  }
}
