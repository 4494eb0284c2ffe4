/** The A125 serial protocol: packets sent to the panel and replies read from it. */
module A125 {
  import opened Core

  const HOST_PREAMBLE: byte := 0x4D

  const DISPLAY_WRITE: byte := 0x0C
  const DISPLAY_CLEAR: byte := 0x0D
  const BACKLIGHT: byte := 0x5E

  const BOARD_ID: byte := 0x01
  const BUTTON_STATUS: byte := 0x05
  const PROTOCOL_VERSION: byte := 0x08
  const RESET_OK: byte := 0xAA
  const ACK: byte := 0xFA
  const NACK: byte := 0xFB

  datatype ProtocolError = InvalidPacket | ByteOverflow

  predicate IsDevicePreamble(b: byte) {
    b == 0x53 || b == 0x83
  }

  // ---- Packets to the panel ----

  function EncodePacket(command: int, payload: bytes): Result<bytes, ProtocolError> {
    if 0 <= command <= 0xFF then Ok([HOST_PREAMBLE, command] + payload) else Err(InvalidPacket)
  }

  function NormalizeRow(row: int): Result<byte, ProtocolError> {
    if row == 0 then Ok(0) else if row == 1 || row == 2 then Ok(1) else Err(InvalidPacket)
  }

  function Clip(payload: bytes, width: nat): bytes {
    if |payload| <= width then payload else payload[..width]
  }

  function EncodeDisplayWrite(row: int, payload: bytes, width: nat): Result<bytes, ProtocolError> {
    var clipped := Clip(payload, width);
    match NormalizeRow(row)
    case Err(e) => Err(e)
    case Ok(rowByte) =>
      if |clipped| > 0xFF then Err(ByteOverflow)
      else EncodePacket(DISPLAY_WRITE, [rowByte, |clipped|] + clipped)
  }

  /** What the driver asks of the panel. */
  datatype Command = Query(code: byte) | Light(on: bool) | Write(row: byte, payload: bytes)

  predicate ValidCommand(c: Command) {
    match c
    case Query(code) => code != DISPLAY_WRITE && code != BACKLIGHT
    case Light(_) => true
    case Write(row, payload) => row <= 1 && |payload| <= 0xFF
  }

  function EncodeCommand(c: Command): bytes
    requires ValidCommand(c)
  {
    match c
    case Query(code) => [HOST_PREAMBLE, code]
    case Light(on) => [HOST_PREAMBLE, BACKLIGHT, if on then 1 else 0]
    case Write(row, payload) => [HOST_PREAMBLE, DISPLAY_WRITE, row, |payload|] + payload
  }

  /** For every row, text and width: a display write is the encoding of the command it
      stands for, and fails exactly on a row out of range or a clipped text whose length
      does not fit a byte. */
  lemma EncodersAgree(row: int, payload: bytes, width: nat)
    ensures
      var clipped := Clip(payload, width);
      EncodeDisplayWrite(row, payload, width)
      == if !(0 <= row <= 2) then Err(InvalidPacket)
         else if |clipped| > 0xFF then Err(ByteOverflow)
         else Ok(EncodeCommand(Write(NormalizeRow(row).value, clipped)))
  {
    var c := Clip(payload, width);
    if 0 <= row <= 2 && |c| <= 0xFF {
      var r := NormalizeRow(row).value;
      assert [HOST_PREAMBLE, DISPLAY_WRITE] + ([r, |c|] + c) == [HOST_PREAMBLE, DISPLAY_WRITE, r, |c|] + c;
    }
  }

  /** The bytes of every command, in the numbers of the wire. */
  lemma CommandBytes(row: int, payload: bytes, width: nat, code: byte)
    ensures 0 <= row <= 2 && (|payload| <= 0xFF || width <= 0xFF) ==>
              var n := if |payload| <= width then |payload| else width;
              EncodeDisplayWrite(row, payload, width)
              == Ok([0x4D, 0x0C, if row == 0 then 0 else 1, n] + payload[..n])
    ensures EncodePacket(code, []) == Ok([0x4D, code])
    ensures EncodeCommand(Light(true)) == [0x4D, 0x5E, 1] && EncodeCommand(Light(false)) == [0x4D, 0x5E, 0]
    ensures code !in {0x0C, 0x5E} ==> ValidCommand(Query(code)) && EncodeCommand(Query(code)) == [0x4D, code]
  {
    EncodersAgree(row, payload, width);
    assert [0x4D, code] + [] == [0x4D, code];
    if |payload| <= width {
      assert payload[..|payload|] == payload;
    }
  }

  // ---- Reading the wire as a panel does ----

  /** The size of a display write whose payload has `length` bytes. */
  function WriteSize(length: int): int {
    4 + length
  }

  /** The first command on the wire and the number of bytes it takes, if it is all there. */
  function TakeCommand(w: bytes): Option<(Command, nat)> {
    if |w| < 2 || w[0] != HOST_PREAMBLE then None
    else if w[1] == BACKLIGHT then
      if |w| < 3 || w[2] > 1 then None else Some((Light(w[2] == 1), 3))
    else if w[1] == DISPLAY_WRITE then
      if |w| < 4 || w[2] > 1 || |w| < WriteSize(w[3]) then None
      else Some((Write(w[2], w[4..WriteSize(w[3])]), WriteSize(w[3])))
    else Some((Query(w[1]), 2))
  }

  function ParseWire(w: bytes): (seq<Command>, bytes)
    decreases |w|
  {
    match TakeCommand(w)
    case None => ([], w)
    case Some((c, n)) =>
      var (cs, tail) := ParseWire(w[n..]);
      ([c] + cs, tail)
  }

  function EncodeAll(cs: seq<Command>): bytes
    requires forall c :: c in cs ==> ValidCommand(c)
  {
    if cs == [] then [] else EncodeCommand(cs[0]) + EncodeAll(cs[1..])
  }

  /** A proper prefix of some command: what a panel waits to see the rest of. */
  predicate Unfinished(w: bytes) {
    || |w| == 0
    || (w[0] == HOST_PREAMBLE
        && (|| |w| == 1
            || (w[1] == BACKLIGHT && |w| == 2)
            || (w[1] == DISPLAY_WRITE && (|w| == 2 || (w[2] <= 1 && (|w| == 3 || |w| < WriteSize(w[3])))))))
  }

  lemma TakeEncoded(c: Command, rest: bytes)
    requires ValidCommand(c)
    ensures TakeCommand(EncodeCommand(c) + rest) == Some((c, |EncodeCommand(c)|))
  {
    if c.Write? {
      assert (EncodeCommand(c) + rest)[4..4 + |c.payload|] == c.payload;
    }
  }

  lemma TakeUnfinished(w: bytes)
    requires Unfinished(w)
    ensures TakeCommand(w) == None
  {
  }

  lemma PrefixIsUnfinished(c: Command, w: bytes)
    requires ValidCommand(c) && w < EncodeCommand(c)
    ensures Unfinished(w)
  {
    var e := EncodeCommand(c);
    assert forall i :: 0 <= i < |w| ==> w[i] == e[i];
  }

  /** And nothing else is: what counts as unfinished is the beginning of some command. */
  lemma UnfinishedIsPrefix(w: bytes) returns (c: Command)
    requires Unfinished(w)
    ensures ValidCommand(c) && w < EncodeCommand(c)
  {
    if |w| < 2 {
      c := Query(0);
    } else if w[1] == BACKLIGHT {
      c := Light(true);
    } else if |w| < 4 {
      c := Write(if |w| == 3 then w[2] else 0, []);
    } else {
      c := Write(w[2], w[4..] + Zeros(WriteSize(w[3]) - |w|));
    }
  }

  function Zeros(n: nat): (z: bytes)
    ensures |z| == n
  {
    if n == 0 then [] else [0] + Zeros(n - 1)
  }

  /** Commands sent one after the other, with the beginning of one more, are read
      back as exactly those commands: the encoding can be parsed in one way only. */
  lemma {:induction false} WireRoundTrip(cs: seq<Command>, tail: bytes)
    requires (forall c :: c in cs ==> ValidCommand(c)) && Unfinished(tail)
    ensures ParseWire(EncodeAll(cs) + tail) == (cs, tail)
  {
    if cs == [] {
      assert EncodeAll(cs) + tail == tail;
      TakeUnfinished(tail);
    } else {
      var head, rest := EncodeCommand(cs[0]), EncodeAll(cs[1..]) + tail;
      assert EncodeAll(cs) + tail == head + rest;
      TakeEncoded(cs[0], rest);
      assert (head + rest)[|head|..] == rest;
      WireRoundTrip(cs[1..], tail);
      assert [cs[0]] + cs[1..] == cs;
    }
  }

  lemma ParseFirst(w: bytes)
    requires TakeCommand(w).Some?
    ensures var (c, n) := TakeCommand(w).value;
            ParseWire(w) == ([c] + ParseWire(w[n..]).0, ParseWire(w[n..]).1)
  {
    hide TakeCommand;
  }

  lemma ParseNothing(w: bytes)
    requires TakeCommand(w).None?
    ensures ParseWire(w) == ([], w) && EncodeAll([]) + w == w
  {
    hide TakeCommand;
  }

  /** Nothing the panel reads is made up: it is the encoding of what was parsed. */
  lemma {:induction false} ParseIsFaithful(w: bytes)
    ensures
      var (cs, tail) := ParseWire(w);
      (forall c :: c in cs ==> ValidCommand(c)) && w == EncodeAll(cs) + tail
    decreases |w|
  {
    hide TakeCommand;
    hide EncodeCommand;
    hide ValidCommand;
    hide ParseWire;
    hide EncodeAll;
    if TakeCommand(w).None? {
      ParseNothing(w);
    } else {
      var (c, n) := TakeCommand(w).value;
      TakenIsEncoded(w);
      ParseFirst(w);
      ParseIsFaithful(w[n..]);
      var (cs, tail) := ParseWire(w[n..]);
      EncodeAllCons(c, cs);
      assert EncodeCommand(c) + (EncodeAll(cs) + tail) == EncodeAll([c] + cs) + tail;
    }
  }

  lemma EncodeAllCons(c: Command, cs: seq<Command>)
    requires ValidCommand(c) && forall d :: d in cs ==> ValidCommand(d)
    ensures (forall d :: d in [c] + cs ==> ValidCommand(d)) && EncodeAll([c] + cs) == EncodeCommand(c) + EncodeAll(cs)
  {
    hide EncodeCommand;
    hide ValidCommand;
    assert ([c] + cs)[1..] == cs;
  }

  lemma TakenIsEncoded(w: bytes)
    requires TakeCommand(w).Some?
    ensures
      var (c, n) := TakeCommand(w).value;
      ValidCommand(c) && 0 < n <= |w| && w == EncodeCommand(c) + w[n..]
  {
    var (c, n) := TakeCommand(w).value;
    assert w[..n] == EncodeCommand(c);
    assert w == w[..n] + w[n..];
  }

  // ---- Replies from the panel ----

  datatype Reply = Reply(preamble: byte, response: byte, payload: bytes)

  function ExpectedPayload(response: byte): Option<nat> {
    if response in {BOARD_ID, BUTTON_STATUS, PROTOCOL_VERSION} then Some(2)
    else if response == RESET_OK || response == ACK then Some(0)
    else if response == NACK then Some(1)
    else None
  }

  function DecodeReply(data: bytes): Result<Reply, ProtocolError> {
    if |data| < 2 || !IsDevicePreamble(data[0]) then Err(InvalidPacket)
    else
      var expected := ExpectedPayload(data[1]);
      if expected.Some? && |data| != 2 + expected.value then Err(InvalidPacket)
      else Ok(Reply(data[0], data[1], data[2..]))
  }

  function EncodeReply(r: Reply): bytes {
    [r.preamble, r.response] + r.payload
  }

  function ValueU16(r: Reply): Option<nat> {
    if |r.payload| != 2 then None else Some(0x100 * (r.payload[0] as int) + r.payload[1] as int)
  }

  /** A reply as the reader can see one: an unknown response carries no payload. */
  predicate WellFormed(r: Reply) {
    IsDevicePreamble(r.preamble) && |r.payload| == PayloadLength(r.response)
  }

  function PayloadLength(response: byte): nat {
    match ExpectedPayload(response)
    case None => 0
    case Some(n) => n
  }
}
