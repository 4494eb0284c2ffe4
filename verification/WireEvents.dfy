/** From the bytes a panel sends to the events and presses they become, in the
    numbers of the wire. */
module WireEvents {
  import opened Core
  import opened A125
  import opened SerialReader
  import opened LcdEvents

  /** What the two bytes of a report can say. */
  type mask = m: int | 0 <= m < 0x10000

  /** A press or release report: two bytes of mask, the high one first. The mask becomes
      the event, the state and the last mask, and joins the waiting presses unless zero. */
  lemma PressReport(p: byte, m: mask, rest: bytes, b: Buttons)
    requires p in {0x53, 0x83}
    ensures var (r, left) := TakeReply([p, 0x05, m / 0x100, m % 0x100] + rest);
            && r.Some? && left == rest
            && ReplyEvent(r.value) == Some(Event(SwitchStatus, Value(m))) && Press(r.value) == m
            && RecordReply(b, r.value)
               == if m == 0 then Buttons(b.queue, b.releasePending, 0, b.reports + 1, 0, b.lastPressed)
                  else Buttons(b.queue + [m], b.releasePending, m, b.reports + 1, m, m)
  {
    TakeBytes(p, 0x05, [m / 0x100, m % 0x100], rest);
  }

  lemma TakeBytes(p: byte, code: byte, payload: bytes, rest: bytes)
    requires p in {0x53, 0x83}
    requires |payload| == if code in {0x01, 0x05, 0x08} then 2 else if code == 0xFB then 1 else 0
    ensures TakeReply([p, code] + payload + rest) == (Some(Reply(p, code, payload)), rest)
    ensures [p, code] + [] + rest == [p, code] + rest
    ensures |payload| == 1 ==> [p, code] + payload + rest == [p, code, payload[0]] + rest
    ensures |payload| == 2 ==> [p, code] + payload + rest == [p, code, payload[0], payload[1]] + rest
  {
    var r := Reply(p, code, payload);
    TakeSegment(Packet(r), rest);
  }

  /** The next poll after a press of a hub that holds and owes nothing returns the
      mask, the one after it the zero of the release, and then nothing is left. */
  lemma PressIsPolled(p: byte, m: mask, rest: bytes, b: Buttons)
    requires p in {0x53, 0x83} && m > 0 && b.queue == [] && !b.releasePending
    ensures var r := TakeReply([p, 0x05, m / 0x100, m % 0x100] + rest).0;
            && r.Some?
            && var (first, mask) := Poll(RecordReply(b, r.value));
               var (second, zero) := Poll(first);
               && mask == m && zero == 0
               && Poll(second) == (second, 0)
               && second == b.(state := m, reports := b.reports + 1, lastMask := m, lastPressed := m)
  {
    PressReport(p, m, rest, b);
    hide RecordReply;
    hide TakeReply;
  }

  /** The other reports: each hands over its event, and none touches the buttons. */
  lemma OtherReport(p: byte, code: byte, m: mask, rest: bytes, b: Buttons)
    requires p in {0x53, 0x83} && code in {0x01, 0x08}
    ensures var (r, left) := TakeReply([p, code, m / 0x100, m % 0x100] + rest);
            && r.Some? && left == rest && RecordReply(b, r.value) == b && Press(r.value) == 0
            && ReplyEvent(r.value) == Some(Event(if code == 0x01 then ReportId else ProtocolVersion, Value(m)))
  {
    TakeBytes(p, code, [m / 0x100, m % 0x100], rest);
  }

  lemma ShortReply(p: byte, code: byte, rest: bytes, b: Buttons)
    requires p in {0x53, 0x83} && code !in {0x01, 0x05, 0x08, 0xFB}
    ensures var (r, left) := TakeReply([p, code] + rest);
            && r.Some? && left == rest && RecordReply(b, r.value) == b && Press(r.value) == 0
            && ReplyEvent(r.value) == if code == 0xAA then Some(Event(ResetOk, Yes))
                                      else if code == 0xFA then Some(Event(Acknowledged, NoData))
                                      else None
  {
    TakeBytes(p, code, [], rest);
  }

  lemma RefusedReply(p: byte, reason: byte, rest: bytes, b: Buttons)
    requires p in {0x53, 0x83}
    ensures var (r, left) := TakeReply([p, 0xFB, reason] + rest);
            && r.Some? && left == rest && RecordReply(b, r.value) == b && Press(r.value) == 0
            && ReplyEvent(r.value) == Some(Event(Refused, Value(reason)))
  {
    TakeBytes(p, 0xFB, [reason], rest);
  }

  /** A byte that begins no reply is passed over alone, and a reply whose end never
      came takes what there is of it. */
  lemma NoReply(s: bytes)
    ensures TakeReply(s).0 == None <==>
            || s == [] || s[0] !in {0x53, 0x83} || |s| == 1
            || (s[1] in {0x01, 0x05, 0x08} && |s| < 4) || (s[1] == 0xFB && |s| < 3)
    ensures TakeReply(s).0 == None ==> TakeReply(s).1 == if s != [] && s[0] !in {0x53, 0x83} then s[1..] else []
  {
  }

  /** What `decode_reply` accepts, code by code. */
  lemma DecodesExactlyWhen(data: bytes)
    ensures DecodeReply(data) ==
            if |data| >= 2 && data[0] in {0x53, 0x83}
               && (data[1] in {0x01, 0x05, 0x08} ==> |data| == 4)
               && (data[1] in {0xAA, 0xFA} ==> |data| == 2)
               && (data[1] == 0xFB ==> |data| == 3)
            then Ok(Reply(data[0], data[1], data[2..]))
            else Err(InvalidPacket)
  {
  }

  // ---- A whole stream of reports ----

  /** One report after the other, as the panel sends them. */
  function Reports(p: byte, masks: seq<mask>): bytes
  {
    if masks == [] then [] else [p, 0x05, masks[0] / 0x100, masks[0] % 0x100] + Reports(p, masks[1..])
  }

  function RecordAll(b: Buttons, replies: seq<Reply>): Buttons
    decreases |replies|
  {
    if replies == [] then b else RecordAll(RecordReply(b, replies[0]), replies[1..])
  }

  function Events(replies: seq<Reply>): seq<Event> {
    if replies == [] then []
    else (if ReplyEvent(replies[0]).Some? then [ReplyEvent(replies[0]).value] else []) + Events(replies[1..])
  }

  /** The results of `n` polls in a row. */
  function Polls(b: Buttons, n: nat): seq<nat>
    decreases n
  {
    if n == 0 then [] else [Poll(b).1] + Polls(Poll(b).0, n - 1)
  }

  function Pressed(masks: seq<mask>): seq<nat> {
    if masks == [] then [] else (if masks[0] > 0 then [masks[0]] else []) + Pressed(masks[1..])
  }

  lemma FirstReport(p: byte, masks: seq<mask>, b: Buttons)
    requires p in {0x53, 0x83} && masks != []
    ensures var replies, m := Replies(Reports(p, masks)), masks[0];
            && replies != [] && replies[1..] == Replies(Reports(p, masks[1..]))
            && ReplyEvent(replies[0]) == Some(Event(SwitchStatus, Value(m)))
            && var c := RecordReply(b, replies[0]);
               && c.queue == b.queue + (if m > 0 then [m] else []) && c.releasePending == b.releasePending
               && c.reports == b.reports + 1 && c.state == c.lastMask == m
  {
    hide TakeReply;
    hide RecordReply;
    hide ReplyEvent;
    var rest := Reports(p, masks[1..]);
    PressReport(p, masks[0], rest, b);
    var r := TakeReply(Reports(p, masks)).0;
    assert Replies(Reports(p, masks)) == [r.value] + Replies(rest);
  }

  lemma {:induction false} EventsRead(p: byte, masks: seq<mask>)
    requires p in {0x53, 0x83}
    ensures var events := Events(Replies(Reports(p, masks)));
            |events| == |masks| && forall i :: 0 <= i < |masks| ==> events[i] == Event(SwitchStatus, Value(masks[i]))
  {
    if masks != [] {
      hide ReplyEvent;
      hide Replies;
      FirstReport(p, masks, Buttons([], false, 0, 0, 0, 0));
      hide Reports;
      EventsRead(p, masks[1..]);
    } else {
      assert Replies(Reports(p, masks)) == [];
    }
  }

  lemma {:induction false} PressesRecorded(p: byte, masks: seq<mask>, b: Buttons)
    requires p in {0x53, 0x83}
    ensures var c := RecordAll(b, Replies(Reports(p, masks)));
            && c.queue == b.queue + Pressed(masks) && c.releasePending == b.releasePending
            && c.reports == b.reports + |masks|
            && (masks != [] ==> c.state == c.lastMask == masks[|masks| - 1])
    decreases |masks|
  {
    if masks != [] {
      hide RecordReply;
      hide Replies;
      FirstReport(p, masks, b);
      hide Reports;
      var replies := Replies(Reports(p, masks));
      var c := RecordReply(b, replies[0]);
      PressesRecorded(p, masks[1..], c);
      assert RecordAll(b, replies) == RecordAll(c, Replies(Reports(p, masks[1..])));
      hide RecordAll;
      var first := if masks[0] > 0 then [masks[0]] else [];
      assert (b.queue + first) + Pressed(masks[1..]) == b.queue + (first + Pressed(masks[1..]));
      assert masks[1..] != [] ==> masks[1..][|masks| - 2] == masks[|masks| - 1];
    } else {
      assert Replies(Reports(p, masks)) == [];
    }
  }

  lemma {:induction false} QueueIsPolled(b: Buttons)
    requires !b.releasePending && forall i :: 0 <= i < |b.queue| ==> b.queue[i] > 0
    ensures |Polls(b, 2 * |b.queue|)| == 2 * |b.queue|
    ensures forall i :: 0 <= i < |b.queue| ==>
              Polls(b, 2 * |b.queue|)[2 * i] == b.queue[i] && Polls(b, 2 * |b.queue|)[2 * i + 1] == 0
    decreases |b.queue|
  {
    if b.queue != [] {
      var c := Poll(b).0;
      var d := Poll(c).0;
      var n := 2 * |b.queue|;
      QueueIsPolled(d);
      hide Poll;
      assert Polls(b, n) == [b.queue[0]] + ([0] + Polls(d, n - 2));
      forall i | 0 <= i < |b.queue|
        ensures Polls(b, n)[2 * i] == b.queue[i] && Polls(b, n)[2 * i + 1] == 0
      {
        if i > 0 {
          assert Polls(b, n)[2 * i] == Polls(d, n - 2)[2 * (i - 1)];
          assert Polls(b, n)[2 * i + 1] == Polls(d, n - 2)[2 * (i - 1) + 1];
        }
      }
    }
  }

  lemma {:induction false} PressedMasks(masks: seq<mask>)
    ensures forall i :: 0 <= i < |Pressed(masks)| ==> Pressed(masks)[i] > 0
    ensures (forall i :: 0 <= i < |masks| ==> masks[i] > 0) ==> Pressed(masks) == masks
  {
    if masks != [] {
      PressedMasks(masks[1..]);
      assert forall i :: 0 <= i < |masks| - 1 ==> masks[1..][i] == masks[i + 1];
      assert masks == [masks[0]] + masks[1..];
    }
  }

  /** End to end: reports on the wire, read until it is empty, become events in order;
      and polled from a fresh hub each press is returned once with a zero after it,
      releases reported on the wire or not. */
  lemma PressesFromWire(p: byte, masks: seq<mask>)
    requires p in {0x53, 0x83}
    ensures var replies := Replies(Reports(p, masks));
            var b := RecordAll(Buttons([], false, 0, 0, 0, 0), replies);
            var presses := Pressed(masks);
            var polls := Polls(b, 2 * |presses|);
            && |Events(replies)| == |masks| == b.reports
            && (forall i :: 0 <= i < |masks| ==> Events(replies)[i] == Event(SwitchStatus, Value(masks[i])))
            && |polls| == 2 * |presses|
            && forall i :: 0 <= i < |presses| ==> polls[2 * i] == presses[i] && polls[2 * i + 1] == 0
  {
    var b := Buttons([], false, 0, 0, 0, 0);
    EventsRead(p, masks);
    PressesRecorded(p, masks, b);
    PressedMasks(masks);
    hide RecordAll;
    hide Polls;
    assert [] + Pressed(masks) == Pressed(masks);
    QueueIsPolled(RecordAll(b, Replies(Reports(p, masks))));
  }
}
