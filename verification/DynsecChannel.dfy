/** How dynsec's send waits for its answer: a channel with room for one response, filled by the message handler,
    which drops whatever arrives while it is full, and drained by the waiting call.
  */
module DynsecChannel {
  import opened Bytes

  datatype Item = Item(correlation: string, error: string)

  type Response = seq<Item>

  /** The first item of a response that carries the correlation id. */
  function FirstFor(r: Response, correlation: string): Option<Item> {
    if r == [] then None
    else if r[0].correlation == correlation then Some(r[0])
    else FirstFor(r[1..], correlation)
  }

  datatype Event =
    | Arrives(response: Response)   // the handler offers a response to the channel
    | Receives                      // the waiting call takes what the channel holds, if anything
    | ContextDone                   // the deadline of the call passes

  datatype Outcome = Accepted | Rejected(error: string) | Cancelled | Waiting

  function Verdict(r: Response, correlation: string): Option<Outcome> {
    match FirstFor(r, correlation)
    case None => None
    case Some(item) => Some(if item.error == "" then Accepted else Rejected(item.error))
  }

  /** The outcome of waiting, given what the channel holds and what happens next. */
  function Await(slot: Option<Response>, events: seq<Event>, correlation: string): Outcome
    decreases |events|
  {
    if events == [] then Waiting
    else
      match events[0]
      case Arrives(r) => Await(if slot.None? then Some(r) else slot, events[1..], correlation)
      case ContextDone => Cancelled
      case Receives =>
        if slot.None? then Await(None, events[1..], correlation)
        else
          match Verdict(slot.value, correlation)
          case Some(outcome) => outcome
          case None => Await(None, events[1..], correlation)
  }

  /** What is left in the channel when the wait ends. */
  function SlotAfter(slot: Option<Response>, events: seq<Event>, correlation: string): Option<Response>
    decreases |events|
  {
    if events == [] then slot
    else
      match events[0]
      case Arrives(r) => SlotAfter(if slot.None? then Some(r) else slot, events[1..], correlation)
      case ContextDone => slot
      case Receives =>
        if slot.Some? && Verdict(slot.value, correlation).Some? then None else SlotAfter(None, events[1..], correlation)
  }

  /** No item of the response is about one of these commands. */
  ghost predicate Avoids(r: Response, ids: set<string>) {
    forall k :: 0 <= k < |r| ==> r[k].correlation !in ids
  }

  ghost predicate SlotAvoids(slot: Option<Response>, ids: set<string>) {
    slot.Some? ==> Avoids(slot.value, ids)
  }

  ghost predicate EventsAvoid(events: seq<Event>, ids: set<string>) {
    forall k :: 0 <= k < |events| && events[k].Arrives? ==> Avoids(events[k].response, ids)
  }

  class Channel {
    var slot: Option<Response>

    /** The handler: a non-blocking send on a channel of capacity one. */
    method Offer(r: Response)
      modifies this
      ensures slot == if old(slot).None? then Some(r) else old(slot)
    {
      if slot.None? {
        slot := Some(r);
      }
    }

    /** As made by connect. */
    constructor ()
      ensures slot == None
    {
      slot := None;
    }

    /** The waiting loop of send. */
    method AwaitReply(correlation: string, events: seq<Event>) returns (r: Outcome)
      modifies this
      ensures r == Await(old(slot), events, correlation) && slot == SlotAfter(old(slot), events, correlation)
    {
      for i := 0 to |events|
        invariant Await(slot, events[i..], correlation) == Await(old(slot), events, correlation)
        invariant SlotAfter(slot, events[i..], correlation) == SlotAfter(old(slot), events, correlation)
      {
        assert events[i..][1..] == events[i + 1..];
        match events[i]
        case Arrives(response) => Offer(response);
        case ContextDone => return Cancelled;
        case Receives =>
          if slot.Some? {
            var result := slot.value;
            slot := None;
            var k := 0;
            while k < |result|
              invariant k <= |result| && FirstFor(result[k..], correlation) == FirstFor(result, correlation)
            {
              assert result[k..][1..] == result[k + 1..];
              if result[k].correlation == correlation {
                return if result[k].error != "" then Rejected(result[k].error) else Accepted;
              }
              k := k + 1;
            }
          }
      }
      r := Waiting;
    }
  }

  /** Some response with an item for the correlation id and this verdict is around. */
  ghost predicate Answers(slot: Option<Response>, events: seq<Event>, correlation: string, outcome: Outcome) {
    (slot.Some? && Verdict(slot.value, correlation) == Some(outcome))
    || exists k :: 0 <= k < |events| && events[k].Arrives? && Verdict(events[k].response, correlation) == Some(outcome)
  }

  /** A verdict is never taken from a stale or foreign response. */
  lemma {:induction false} VerdictIsOwn(slot: Option<Response>, events: seq<Event>, correlation: string)
    requires Await(slot, events, correlation).Accepted? || Await(slot, events, correlation).Rejected?
    ensures Answers(slot, events, correlation, Await(slot, events, correlation))
    decreases |events|
  {
    var outcome := Await(slot, events, correlation);
    var next := match events[0]
      case Arrives(r) => if slot.None? then Some(r) else slot
      case _ => None;
    if !(events[0].Receives? && slot.Some? && Verdict(slot.value, correlation).Some?) {
      VerdictIsOwn(next, events[1..], correlation);
      if !(next.Some? && Verdict(next.value, correlation) == Some(outcome)) {
        var k :| 0 <= k < |events[1..]| && events[1..][k].Arrives?
                 && Verdict(events[1..][k].response, correlation) == Some(outcome);
        assert events[k + 1] == events[1..][k];
      }
    }
  }

  /** A response with the verdict is taken out of the channel, which is then empty. */
  lemma {:induction false} VerdictEmptiesTheSlot(slot: Option<Response>, events: seq<Event>, correlation: string)
    requires Await(slot, events, correlation).Accepted? || Await(slot, events, correlation).Rejected?
    ensures SlotAfter(slot, events, correlation) == None
    decreases |events|
  {
    if !(events[0].Receives? && slot.Some? && Verdict(slot.value, correlation).Some?) {
      var next := match events[0]
        case Arrives(r) => if slot.None? then Some(r) else slot
        case _ => None;
      VerdictEmptiesTheSlot(next, events[1..], correlation);
    }
  }

  /** The two runs differ only in what other calls' responses say. */
  ghost predicate SameForUs(e: Event, f: Event, correlation: string) {
    if e.Arrives? && f.Arrives? then Verdict(e.response, correlation) == Verdict(f.response, correlation) else e == f
  }

  /** What foreign responses contain makes no difference; only the room they take does. */
  lemma {:induction false} ForeignContentsAreIgnored(s: Option<Response>, t: Option<Response>, es: seq<Event>,
                                                     fs: seq<Event>, correlation: string)
    requires |es| == |fs| && forall k :: 0 <= k < |es| ==> SameForUs(es[k], fs[k], correlation)
    requires s.Some? == t.Some? && (s.Some? ==> Verdict(s.value, correlation) == Verdict(t.value, correlation))
    ensures Await(s, es, correlation) == Await(t, fs, correlation)
    decreases |es|
  {
    if es != [] {
      assert SameForUs(es[0], fs[0], correlation);
      forall k | 0 <= k < |es[1..]|
        ensures SameForUs(es[1..][k], fs[1..][k], correlation)
      {
        assert SameForUs(es[k + 1], fs[k + 1], correlation);
      }
      match es[0]
      case Arrives(r) =>
        ForeignContentsAreIgnored(if s.None? then Some(r) else s, if t.None? then Some(fs[0].response) else t,
                                  es[1..], fs[1..], correlation);
      case ContextDone =>
      case Receives => ForeignContentsAreIgnored(None, None, es[1..], fs[1..], correlation);
    }
  }

  /** No event before the deadline decides the call. */
  ghost predicate Quiet(events: seq<Event>, correlation: string) {
    forall k :: 0 <= k < |events| ==>
      !events[k].ContextDone? && (events[k].Arrives? ==> Verdict(events[k].response, correlation).None?)
  }

  lemma {:induction false} QuietRun(slot: Option<Response>, before: seq<Event>, after: seq<Event>, correlation: string)
      returns (full: Option<Response>)
    requires Quiet(before, correlation) && (slot.Some? ==> Verdict(slot.value, correlation).None?)
    ensures Await(slot, before + after, correlation) == Await(full, after, correlation)
    ensures full.Some? ==> Verdict(full.value, correlation).None?
    ensures full.Some? <==> Occupied(slot.Some?, before)
    decreases |before|
  {
    if before == [] {
      full := slot;
      assert before + after == after;
    } else {
      assert (before + after)[1..] == before[1..] + after;
      assert forall k :: 0 <= k < |before[1..]| ==> before[1..][k] == before[k + 1];
      var next := match before[0]
        case Arrives(r) => if slot.None? then Some(r) else slot
        case _ => None;
      full := QuietRun(next, before[1..], after, correlation);
    }
  }

  /** The slot is full after the events. */
  predicate Occupied(full: bool, events: seq<Event>)
    decreases |events|
  {
    if events == [] then full
    else Occupied(if events[0].Arrives? then true else if events[0].Receives? then false else full, events[1..])
  }

  predicate OnlyLooks(events: seq<Event>) {
    forall k :: 0 <= k < |events| ==> events[k].Receives?
  }

  lemma {:induction false} LooksInVain(events: seq<Event>, correlation: string)
    requires OnlyLooks(events)
    ensures Await(None, events, correlation) == Waiting
  {
    if events != [] {
      LooksInVain(events[1..], correlation);
    }
  }

  /** After only foreign responses, the call's own answer counts exactly when it meets an empty slot;
      otherwise the handler drops it and the call waits on, however often it looks. */
  lemma OwnAnswerCounts(before: seq<Event>, own: Response, looks: seq<Event>, correlation: string)
    requires Quiet(before, correlation) && Verdict(own, correlation).Some? && OnlyLooks(looks) && looks != []
    ensures Await(None, before + ([Arrives(own)] + looks), correlation)
         == if Occupied(false, before) then Waiting else Verdict(own, correlation).value
  {
    var after := [Arrives(own)] + looks;
    var full := QuietRun(None, before, after, correlation);
    assert after[1..] == looks;
    LooksInVain(looks[1..], correlation);
  }

  lemma {:induction false} SlotStillAvoids(slot: Option<Response>, events: seq<Event>, correlation: string,
                                           ids: set<string>)
    requires SlotAvoids(slot, ids) && EventsAvoid(events, ids)
    ensures SlotAvoids(SlotAfter(slot, events, correlation), ids)
    decreases |events|
  {
    hide Avoids, Verdict;
    if events != [] && !events[0].ContextDone? {
      var next := match events[0]
        case Arrives(r) => if slot.None? then Some(r) else slot
        case _ => None;
      assert forall k :: 0 <= k < |events[1..]| ==> events[1..][k] == events[k + 1];
      SlotStillAvoids(next, events[1..], correlation, ids);
    }
  }

  lemma {:induction false} AvoidedSaysNothing(r: Response, correlation: string)
    requires Avoids(r, {correlation})
    ensures Verdict(r, correlation) == None
  {
    if r != [] {
      assert r[0].correlation != correlation;
      assert forall k :: 0 <= k < |r[1..]| ==> r[1..][k] == r[k + 1];
      AvoidedSaysNothing(r[1..], correlation);
    }
  }

  lemma {:induction false} OwnItemSpeaks(before: Response, own: Item, after: Response)
    requires Avoids(before, {own.correlation})
    ensures FirstFor(before + [own] + after, own.correlation) == Some(own)
  {
    var r := before + [own] + after;
    if before == [] {
      assert r[0] == own;
    } else {
      assert before[0].correlation != own.correlation;
      assert r[1..] == before[1..] + [own] + after;
      assert forall k :: 0 <= k < |before[1..]| ==> before[1..][k] == before[k + 1];
      OwnItemSpeaks(before[1..], own, after);
    }
  }
}
