/** Button reports and callback events of the panel driver, as the methods of one
    object, each the body of one lock or of one thread left undisturbed. */
module LcdEvents {
  import opened Core
  import opened A125

  datatype Name = SwitchStatus | ReportId | ProtocolVersion | ResetOk | Acknowledged | Refused

  datatype Data = NoData | Value(n: nat) | Yes

  /** A decoded callback event. */
  datatype Event = Event(name: Name, data: Data)

  /** What the dispatcher queue holds: events, and the sentinel that ends the dispatcher. */
  datatype Item = Deliver(event: Event) | Stop

  // ---- Buttons ----

  datatype Buttons = Buttons(queue: seq<nat>, releasePending: bool, state: nat, reports: nat, lastMask: nat, lastPressed: nat)

  function OptionData(v: Option<nat>): Data {
    if v.Some? then Value(v.value) else NoData
  }

  /** The event that a reply stands for, if any. */
  function ReplyEvent(r: Reply): Option<Event> {
    if r.response == BUTTON_STATUS then Some(Event(SwitchStatus, OptionData(ValueU16(r))))
    else if r.response == BOARD_ID then Some(Event(ReportId, OptionData(ValueU16(r))))
    else if r.response == PROTOCOL_VERSION then Some(Event(ProtocolVersion, OptionData(ValueU16(r))))
    else if r.response == RESET_OK then Some(Event(ResetOk, Yes))
    else if r.response == ACK then Some(Event(Acknowledged, NoData))
    else if r.response == NACK then Some(Event(Refused, if r.payload == [] then NoData else Value(r.payload[0])))
    else None
  }

  /** The press that a reply reports, zero for none. */
  function Press(r: Reply): nat {
    if r.response == BUTTON_STATUS && ValueU16(r).Some? then ValueU16(r).value else 0
  }

  function RecordReply(b: Buttons, r: Reply): Buttons {
    if r.response != BUTTON_STATUS || ValueU16(r).None? then b
    else
      var v := ValueU16(r).value;
      var c := b.(state := v, reports := b.reports + 1, lastMask := v);
      if v == 0 then c else c.(lastPressed := v, queue := c.queue + [v])
  }

  /** One `read_button_event`. */
  function Poll(b: Buttons): (Buttons, nat) {
    if b.releasePending then (b.(releasePending := false), 0)
    else if b.queue == [] then (b, 0)
    else (b.(releasePending := true, queue := b.queue[1..]), b.queue[0])
  }

  // ---- The queue up to its sentinel ----

  /** The events ahead of the first sentinel. */
  function EventsAhead(items: seq<Item>): seq<Event> {
    if items == [] || items[0].Stop? then [] else [items[0].event] + EventsAhead(items[1..])
  }

  /** What is left behind the first sentinel. */
  function ItemsBehind(items: seq<Item>): seq<Item> {
    if items == [] then [] else if items[0].Stop? then items[1..] else ItemsBehind(items[1..])
  }

  function Delivers(events: seq<Event>): seq<Item> {
    seq(|events|, i requires 0 <= i < |events| => Deliver(events[i]))
  }

  lemma {:induction false} EventsAheadOf(events: seq<Event>, rest: seq<Item>)
    ensures EventsAhead(Delivers(events) + rest) == events + EventsAhead(rest)
  {
    var items := Delivers(events) + rest;
    if events == [] {
      assert items == rest;
    } else {
      assert items[1..] == Delivers(events[1..]) + rest;
      EventsAheadOf(events[1..], rest);
    }
  }

  /** A queue without a sentinel, once sealed, is events only. */
  lemma {:induction false} SealedQueue(items: seq<Item>)
    requires Stop !in items
    ensures Delivers(EventsAhead(items + [Stop])) == items && ItemsBehind(items + [Stop]) == []
  {
    if items == [] {
      assert items + [Stop] == [Stop];
    } else {
      assert items[0] in items && items[0].Deliver?;
      assert (items + [Stop])[1..] == items[1..] + [Stop];
      SealedQueue(items[1..]);
      var rest := EventsAhead(items[1..] + [Stop]);
      assert EventsAhead(items + [Stop]) == [items[0].event] + rest;
      assert Delivers([items[0].event] + rest) == [items[0]] + Delivers(rest);
    }
  }

  // ---- The driver object ----

  /** `failing` says of each event whether the handler raises on it. */
  class EventHub {
    const failing: Event -> bool
    var queue: seq<Item>
    var dispatcherAlive: bool
    var stopRequested: bool
    var dispatcherEvents: nat
    var callbackCount: nat
    var callbackErrors: nat
    var readerReplies: nat
    var buttonEvents: seq<nat>
    var releasePending: bool
    var buttonState: nat
    var buttonReports: nat
    var lastMask: nat
    var lastPressed: nat
    var handled: seq<Event>

    constructor (failing: Event -> bool, dispatcherAlive: bool)
      ensures this.failing == failing && this.dispatcherAlive == dispatcherAlive && !stopRequested
      ensures queue == [] && handled == [] && dispatcherEvents == callbackCount == callbackErrors == readerReplies == 0
      ensures CurrentButtons() == Buttons([], false, 0, 0, 0, 0)
    {
      this.failing, this.dispatcherAlive, stopRequested := failing, dispatcherAlive, false;
      queue, handled := [], [];
      dispatcherEvents, callbackCount, callbackErrors, readerReplies := 0, 0, 0, 0;
      buttonEvents, releasePending, buttonState, buttonReports, lastMask, lastPressed := [], false, 0, 0, 0, 0;
    }

    function CurrentButtons(): Buttons
      reads this
    {
      Buttons(buttonEvents, releasePending, buttonState, buttonReports, lastMask, lastPressed)
    }

    method ReadButtonEvent() returns (mask: nat)
      modifies this`releasePending, this`buttonEvents
      ensures (CurrentButtons(), mask) == Poll(old(CurrentButtons()))
    {
      if releasePending {
        releasePending := false;
        return 0;
      }
      if buttonEvents == [] { return 0; }
      releasePending := true;
      mask := buttonEvents[0];
      buttonEvents := buttonEvents[1..];
    }

    /** `_invoke_handler`: a raising handler is counted and goes no further. */
    method InvokeHandler(e: Event)
      modifies this`handled, this`callbackCount, this`callbackErrors
      ensures handled == old(handled) + [e] && callbackCount == old(callbackCount) + 1
      ensures callbackErrors == old(callbackErrors) + if failing(e) then 1 else 0
    {
      handled := handled + [e];
      callbackCount := callbackCount + 1;
      if failing(e) {
        callbackErrors := callbackErrors + 1;
      }
    }

    method QueueHandlerEvent(e: Event)
      modifies this`queue, this`handled, this`callbackCount, this`callbackErrors
      ensures dispatcherAlive ==> queue == old(queue) + [Deliver(e)] && handled == old(handled)
      ensures dispatcherAlive ==> callbackCount == old(callbackCount) && callbackErrors == old(callbackErrors)
      ensures !dispatcherAlive ==> queue == old(queue) && handled == old(handled) + [e]
      ensures !dispatcherAlive ==> callbackCount == old(callbackCount) + 1
    {
      if !dispatcherAlive {
        InvokeHandler(e);
        return;
      }
      queue := queue + [Deliver(e)];
    }

    method SubmitButtonEvent(mask: int, fromWeb: bool) returns (accepted: bool)
      modifies this`queue, this`handled, this`callbackCount, this`callbackErrors
      ensures accepted <==> (mask == 1 || mask == 2) && fromWeb && dispatcherAlive && !stopRequested
      ensures handled == old(handled) && callbackCount == old(callbackCount) && callbackErrors == old(callbackErrors)
      ensures queue == old(queue) + if accepted then [Deliver(Event(SwitchStatus, Value(mask)))] else []
    {
      if mask != 1 && mask != 2 { return false; }
      if !fromWeb || !dispatcherAlive || stopRequested { return false; }
      QueueHandlerEvent(Event(SwitchStatus, Value(mask)));
      return true;
    }

    method DispatchReply(r: Reply)
      modifies this
      ensures readerReplies == old(readerReplies) + 1 && CurrentButtons() == RecordReply(old(CurrentButtons()), r)
      ensures dispatcherAlive == old(dispatcherAlive) && stopRequested == old(stopRequested)
      ensures dispatcherEvents == old(dispatcherEvents)
      ensures
        match ReplyEvent(r)
        case None => queue == old(queue) && handled == old(handled) && callbackCount == old(callbackCount)
        case Some(e) =>
          if dispatcherAlive then queue == old(queue) + [Deliver(e)] && handled == old(handled)
          else queue == old(queue) && handled == old(handled) + [e]
    {
      readerReplies := readerReplies + 1;
      var value := ValueU16(r);
      if r.response == BUTTON_STATUS && value.Some? {
        buttonState, buttonReports, lastMask := value.value, buttonReports + 1, value.value;
        if value.value != 0 {
          lastPressed := value.value;
          buttonEvents := buttonEvents + [value.value];
        }
      }
      var event := ReplyEvent(r);
      if event.Some? {
        QueueHandlerEvent(event.value);
      }
    }

    /** `event_dispatcher` with nobody else putting: every event ahead of the first
        sentinel is handled once and in order, raising handlers or not; without a
        sentinel the dispatcher is left waiting on an empty queue. */
    method EventDispatcher()
      modifies this`queue, this`handled, this`dispatcherEvents, this`callbackCount, this`callbackErrors, this`dispatcherAlive
      ensures handled == old(handled) + EventsAhead(old(queue))
      ensures dispatcherEvents == old(dispatcherEvents) + |EventsAhead(old(queue))|
      ensures callbackCount == old(callbackCount) + |EventsAhead(old(queue))|
      ensures queue == ItemsBehind(old(queue))
      ensures Stop in old(queue) ==> !dispatcherAlive
      ensures Stop !in old(queue) ==> queue == [] && dispatcherAlive == old(dispatcherAlive)
    {
      ghost var start, done := queue, 0;
      while queue != []
        invariant dispatcherAlive == old(dispatcherAlive)
        invariant 0 <= done <= |EventsAhead(start)|
        invariant EventsAhead(queue) == EventsAhead(start)[done..] && ItemsBehind(queue) == ItemsBehind(start)
        invariant Stop in queue <==> Stop in start
        invariant handled == old(handled) + EventsAhead(start)[..done]
        invariant dispatcherEvents == old(dispatcherEvents) + done && callbackCount == old(callbackCount) + done
        decreases |queue|
      {
        var item := queue[0];
        queue := queue[1..];
        if item.Stop? {
          dispatcherAlive := false;
          return;
        }
        dispatcherEvents := dispatcherEvents + 1;
        assert EventsAhead(start)[..done + 1] == EventsAhead(start)[..done] + [item.event];
        InvokeHandler(item.event);
        done := done + 1;
      }
    }

    /** `close` with every other thread at rest: the sentinel goes behind what is already
        queued, and the dispatcher handles all of that before it stops. */
    method Close()
      modifies this
      ensures stopRequested && !dispatcherAlive
      ensures handled == old(handled) + if old(dispatcherAlive) then EventsAhead(old(queue) + [Stop]) else []
      ensures old(dispatcherAlive) && Stop !in old(queue) ==> queue == [] && Delivers(EventsAhead(old(queue) + [Stop])) == old(queue)
      ensures CurrentButtons() == old(CurrentButtons()) && readerReplies == old(readerReplies)
    {
      stopRequested := true;
      if dispatcherAlive {
        ghost var waiting := queue;
        if Stop !in waiting { SealedQueue(waiting); }
        queue := queue + [Stop];
        assert queue[|queue| - 1] == Stop;
        EventDispatcher();
      }
    }
  }
}
