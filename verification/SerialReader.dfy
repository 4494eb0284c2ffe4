/** The reader side of the serial line: replies picked out of a byte stream. */
module SerialReader {
  import opened Core
  import opened A125

  /** The bytes that have arrived and were not yet read. */
  class SerialPort {
    var incoming: bytes

    constructor (incoming: bytes)
      ensures this.incoming == incoming
    {
      this.incoming := incoming;
    }

    /** `connection.read(size)`: at most `size` bytes, fewer when the timeout strikes. */
    method Read(size: nat) returns (data: bytes)
      modifies this
      ensures data <= old(incoming) && incoming == old(incoming)[|data|..]
      ensures |data| == if size <= |old(incoming)| then size else |old(incoming)|
    {
      var n := if size <= |incoming| then size else |incoming|;
      data := incoming[..n];
      incoming := incoming[n..];
    }

    /** `_read_bytes`: a short read is discarded. */
    method ReadBytes(size: nat) returns (data: Option<bytes>)
      requires size > 0
      modifies this
      ensures
        if size <= |old(incoming)|
        then data == Some(old(incoming)[..size]) && incoming == old(incoming)[size..]
        else data == None && incoming == []
    {
      var got := Read(size);
      assert got == old(incoming)[..|got|];
      data := if |got| < size then None else Some(got);
    }

    /** `_read_reply`. */
    method ReadReply() returns (reply: Option<Reply>)
      modifies this
      ensures (reply, incoming) == TakeReply(old(incoming))
    {
      ghost var s := incoming;
      var preamble := ReadBytes(1);
      if preamble.None? || !IsDevicePreamble(preamble.value[0]) { return None; }
      var response := ReadBytes(1);
      if response.None? { return None; }
      var length := ExpectedPayload(response.value[0]);
      var payload: bytes := [];
      assert incoming == s[2..] && s[2..2] == [];
      if length.Some? && length.value > 0 {
        var got := ReadBytes(length.value);
        if got.None? { return None; }
        payload := got.value;
        assert payload == s[2..2 + length.value];
        assert incoming == s[2 + length.value..];
      }
      return Some(Reply(preamble.value[0], response.value[0], payload));
    }
  }

  /** One attempt to read a reply: what it returns and what it leaves. */
  function TakeReply(s: bytes): (Option<Reply>, bytes) {
    if s == [] then (None, [])
    else if !IsDevicePreamble(s[0]) then (None, s[1..])
    else if |s| == 1 then (None, [])
    else
      var n := PayloadLength(s[1]);
      if |s| < 2 + n then (None, []) else (Some(Reply(s[0], s[1], s[2..2 + n])), s[2 + n..])
  }

  /** What an attempt consumed. */
  datatype Segment = Junk(b: byte) | Packet(reply: Reply)

  predicate ValidSegment(g: Segment) {
    match g
    case Junk(b) => !IsDevicePreamble(b)
    case Packet(r) => WellFormed(r)
  }

  /** The start of a reply whose end never came. */
  predicate Truncated(s: bytes) {
    s == [] || (IsDevicePreamble(s[0]) && (|s| == 1 || |s| < 2 + PayloadLength(s[1])))
  }

  function SegmentBytes(g: Segment): bytes {
    match g
    case Junk(b) => [b]
    case Packet(r) => EncodeReply(r)
  }

  function Render(gs: seq<Segment>): bytes {
    if gs == [] then [] else SegmentBytes(gs[0]) + Render(gs[1..])
  }

  function Packets(gs: seq<Segment>): seq<Reply> {
    if gs == [] then [] else (if gs[0].Packet? then [gs[0].reply] else []) + Packets(gs[1..])
  }

  /** The replies of repeated attempts on a stream that is fully available. */
  function Replies(s: bytes): seq<Reply>
    decreases |s|
  {
    if s == [] then []
    else
      var (r, rest) := TakeReply(s);
      (if r.Some? then [r.value] else []) + Replies(rest)
  }

  /** The replies of the first `rounds` attempts. */
  function RepliesIn(s: bytes, rounds: nat): seq<Reply>
    decreases rounds
  {
    if rounds == 0 then []
    else
      var (r, rest) := TakeReply(s);
      (if r.Some? then [r.value] else []) + RepliesIn(rest, rounds - 1)
  }

  function LeftAfter(s: bytes, rounds: nat): bytes
    decreases rounds
  {
    if rounds == 0 then s else LeftAfter(TakeReply(s).1, rounds - 1)
  }

  /** The reader loop: attempts until a stop is requested, here after `rounds` of them. */
  method ReadUntilStopped(port: SerialPort, rounds: nat) returns (replies: seq<Reply>)
    modifies port
    ensures replies == RepliesIn(old(port.incoming), rounds) && port.incoming == LeftAfter(old(port.incoming), rounds)
  {
    replies := [];
    ghost var start := port.incoming;
    for i := 0 to rounds
      invariant replies + RepliesIn(port.incoming, rounds - i) == RepliesIn(start, rounds)
      invariant LeftAfter(port.incoming, rounds - i) == LeftAfter(start, rounds)
    {
      ghost var before := replies + RepliesIn(port.incoming, rounds - i);
      var r := port.ReadReply();
      if r.Some? {
        assert replies + ([r.value] + RepliesIn(port.incoming, rounds - i - 1)) == before;
        replies := replies + [r.value];
      } else {
        assert [] + RepliesIn(port.incoming, rounds - i - 1) == RepliesIn(port.incoming, rounds - i - 1);
      }
    }
    assert replies + [] == replies;
  }

  lemma TakeShrinks(s: bytes)
    ensures s != [] ==> |TakeReply(s).1| < |s|
    ensures TakeReply([]) == (None, [])
  {
  }

  /** However early the stop comes, what was read is the beginning of the stream's
      replies; and after as many attempts as there are bytes it is all of them. */
  lemma {:induction false} StoppedReaderReadsAPrefix(s: bytes, rounds: nat)
    ensures RepliesIn(s, rounds) <= Replies(s)
    ensures rounds >= |s| ==> RepliesIn(s, rounds) == Replies(s)
    decreases rounds
  {
    hide TakeReply;
    TakeShrinks(s);
    if rounds == 0 {
    } else if s == [] {
      StoppedReaderReadsAPrefix(s, rounds - 1);
      assert [] + RepliesIn(s, rounds - 1) == RepliesIn(s, rounds - 1);
    } else {
      StoppedReaderReadsAPrefix(TakeReply(s).1, rounds - 1);
    }
  }

  /** And what is left holds exactly the other replies. */
  lemma {:induction false} StoppedReaderLeavesTheRest(s: bytes, rounds: nat)
    ensures Replies(s) == RepliesIn(s, rounds) + Replies(LeftAfter(s, rounds))
    decreases rounds
  {
    hide TakeReply;
    TakeShrinks(s);
    if rounds == 0 {
      assert [] + Replies(s) == Replies(s);
    } else {
      var (r, rest) := TakeReply(s);
      StoppedReaderLeavesTheRest(rest, rounds - 1);
      var first := if r.Some? then [r.value] else [];
      assert first + (RepliesIn(rest, rounds - 1) + Replies(LeftAfter(rest, rounds - 1)))
          == (first + RepliesIn(rest, rounds - 1)) + Replies(LeftAfter(rest, rounds - 1));
      if s == [] {
        assert [] + Replies([]) == [];
      }
    }
  }

  lemma TakeSegment(g: Segment, rest: bytes)
    requires ValidSegment(g)
    ensures TakeReply(SegmentBytes(g) + rest) == (if g.Packet? then Some(g.reply) else None, rest)
  {
    var s := SegmentBytes(g) + rest;
    if g.Packet? {
      var r := g.reply;
      assert s[2..2 + |r.payload|] == r.payload;
      assert s[2 + |r.payload|..] == rest;
    } else {
      assert s[1..] == rest;
    }
  }

  /** Every stream of replies with junk between them, cut anywhere, is read back as
      exactly those replies in that order; the cut reply is dropped. */
  lemma {:induction false} RepliesOfStream(gs: seq<Segment>, tail: bytes)
    requires (forall g :: g in gs ==> ValidSegment(g)) && Truncated(tail)
    ensures Replies(Render(gs) + tail) == Packets(gs)
  {
    if gs == [] {
      assert Render(gs) + tail == tail;
      assert [] + Replies([]) == [];
    } else {
      var rest := Render(gs[1..]) + tail;
      assert Render(gs) + tail == SegmentBytes(gs[0]) + rest;
      TakeSegment(gs[0], rest);
      RepliesOfStream(gs[1..], tail);
    }
  }

  /** Every stream at all is such a stream, so that no byte is read twice and none
      but junk and a last unfinished reply is passed over. */
  lemma {:induction false} EveryStreamHasSegments(s: bytes) returns (gs: seq<Segment>, tail: bytes)
    ensures (forall g :: g in gs ==> ValidSegment(g)) && Truncated(tail)
    ensures s == Render(gs) + tail && Replies(s) == Packets(gs)
    decreases |s|
  {
    hide Replies;
    hide Packets;
    hide ValidSegment;
    hide Truncated;
    hide SegmentBytes;
    if Truncated(s) {
      gs, tail := [], s;
    } else {
      var g, rest := FirstSegment(s);
      var hs, t := EveryStreamHasSegments(rest);
      gs, tail := [g] + hs, t;
      assert gs[1..] == hs;
      assert s == SegmentBytes(g) + (Render(hs) + t);
    }
    RepliesOfStream(gs, tail);
  }

  lemma FirstSegment(s: bytes) returns (g: Segment, rest: bytes)
    requires !Truncated(s)
    ensures ValidSegment(g) && |rest| < |s| && s == SegmentBytes(g) + rest
  {
    var (r, left) := TakeReply(s);
    g, rest := if r.Some? then Packet(r.value) else Junk(s[0]), left;
  }

  /** A reply is what `decode_reply` makes of the bytes that the attempt consumed. */
  lemma ReplyDecodesItsBytes(s: bytes)
    requires TakeReply(s).0.Some?
    ensures
      var (r, rest) := TakeReply(s);
      |rest| < |s| && s == EncodeReply(r.value) + rest && DecodeReply(s[..|s| - |rest|]) == Ok(r.value)
  {
    var (r, rest) := TakeReply(s);
    var n := PayloadLength(s[1]);
    assert s[..2 + n][2..] == s[2..2 + n];
  }
}
