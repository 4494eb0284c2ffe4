/** Writing to the panel: frames of two rows, the guarded transport of the driver,
    and what the panel shows for the commands it has read. */
module Panel {
  import opened Core
  import opened A125

  const COLUMNS := 16
  const BLANK: byte := 0x20

  // ---- Frames ----

  /** A row as callers give it: raw character bytes, or text. */
  datatype Line = Raw(data: bytes) | Text(text: string)

  /** Latin-1 with unsupported characters replaced by a question mark. */
  function Latin1(text: string): (b: bytes)
    ensures |b| == |text|
  {
    seq(|text|, i requires 0 <= i < |text| => Latin1Byte(text[i]))
  }

  function Latin1Byte(c: char): byte {
    if c as int < 0x100 then c as int else 0x3F
  }

  function LinePayload(line: Line): (b: bytes)
    ensures |b| <= COLUMNS
  {
    match line
    case Raw(data) => Clip(data, COLUMNS)
    case Text(text) => Latin1(if |text| <= COLUMNS then text else text[..COLUMNS])
  }

  function Padded(payload: bytes): (row: bytes)
    requires |payload| <= COLUMNS
    ensures |row| == COLUMNS
  {
    payload + Blanks(COLUMNS - |payload|)
  }

  function Blanks(n: nat): (row: bytes)
    ensures |row| == n && forall i :: 0 <= i < n ==> row[i] == BLANK
  {
    if n == 0 then [] else Blanks(n - 1) + [BLANK]
  }

  /** The driver's convention: odd lines are the first row. */
  function RowAddress(line: int): byte {
    if line % 2 != 0 then 0 else 1
  }

  function FrameLine(lines: seq<Line>, i: nat): Line {
    if i < |lines| then lines[i] else Raw([])
  }

  function FrameCommands(lines: seq<Line>): (cs: seq<Command>)
    ensures forall c :: c in cs ==> ValidCommand(c)
  {
    [Write(RowAddress(1), LinePayload(FrameLine(lines, 0))), Write(RowAddress(2), LinePayload(FrameLine(lines, 1)))]
  }

  /** What the panel shows, and equally the two rows that a frame observer is told. */
  datatype Screen = Screen(first: bytes, second: bytes)

  function FrameRows(lines: seq<Line>): Screen {
    Screen(Padded(LinePayload(FrameLine(lines, 0))), Padded(LinePayload(FrameLine(lines, 1))))
  }

  /** The characters of one row as bytes: at most sixteen, none for a missing line. */
  predicate CarriesLine(payload: bytes, lines: seq<Line>, i: nat) {
    if i >= |lines| then payload == []
    else match lines[i]
      case Raw(data) => payload <= data && |payload| == if |data| < 16 then |data| else 16
      case Text(text) =>
        && |payload| == (if |text| < 16 then |text| else 16)
        && forall k :: 0 <= k < |payload| ==>
             payload[k] == if text[k] as int < 0x100 then text[k] as int else '?' as int
  }

  /** A cell row: the characters and then spaces up to sixteen. */
  predicate FillsRow(row: bytes, payload: bytes) {
    payload <= row && |row| == 16 && forall k :: |payload| <= k < 16 ==> row[k] == 0x20
  }

  /** A frame on the wire: two display writes, the first line to row 0 and the second to
      row 1. The observer is told the same characters, filled up with spaces. */
  lemma FrameBytes(lines: seq<Line>)
    returns (p: bytes, q: bytes)
    ensures CarriesLine(p, lines, 0) && CarriesLine(q, lines, 1)
    ensures EncodeAll(FrameCommands(lines)) == [0x4D, 0x0C, 0x00, |p|] + p + [0x4D, 0x0C, 0x01, |q|] + q
    ensures FillsRow(FrameRows(lines).first, p) && FillsRow(FrameRows(lines).second, q)
  {
    p, q := LinePayload(FrameLine(lines, 0)), LinePayload(FrameLine(lines, 1));
    LineCarried(lines, 0);
    LineCarried(lines, 1);
    PaddedFills(p);
    PaddedFills(q);
    var first, second := Write(0, p), Write(1, q);
    hide LinePayload;
    hide CarriesLine;
    hide Padded;
    assert [first, second][1..] == [second] && [second][1..] == [];
    assert EncodeCommand(second) + [] == EncodeCommand(second);
    assert EncodeAll([second]) == EncodeCommand(second);
  }

  lemma LineCarried(lines: seq<Line>, i: nat)
    ensures CarriesLine(LinePayload(FrameLine(lines, i)), lines, i)
  {
  }

  lemma PaddedFills(payload: bytes)
    requires |payload| <= COLUMNS
    ensures FillsRow(Padded(payload), payload)
  {
  }

  // ---- The panel ----

  predicate ValidScreen(s: Screen) {
    |s.first| == COLUMNS && |s.second| == COLUMNS
  }

  const BLANK_ROW: bytes := Blanks(COLUMNS)

  function Overwrite(row: bytes, payload: bytes): bytes {
    var p := Clip(payload, |row|);
    p + row[|p|..]
  }

  /** A clear blanks the panel; a write overwrites the first cells of one row. */
  function ShowCommand(s: Screen, c: Command): Screen {
    match c
    case Query(code) => if code == DISPLAY_CLEAR then Screen(BLANK_ROW, BLANK_ROW) else s
    case Light(_) => s
    case Write(row, payload) =>
      if row == 0 then s.(first := Overwrite(s.first, payload)) else s.(second := Overwrite(s.second, payload))
  }

  function Show(s: Screen, cs: seq<Command>): Screen {
    if cs == [] then s else ShowCommand(Show(s, cs[..|cs| - 1]), cs[|cs| - 1])
  }

  const CLEAR := Query(DISPLAY_CLEAR)

  /** The clear command is two bytes, and no other query changes what the panel shows. */
  lemma OnlyClearClears(s: Screen, code: byte)
    ensures EncodeAll([CLEAR]) == [0x4D, 0x0D]
    ensures code == 0x0D ==> ShowCommand(s, Query(code)) == Screen(BLANK_ROW, BLANK_ROW)
    ensures code != 0x0D ==> ShowCommand(s, Query(code)) == s
  {
    assert [CLEAR][1..] == [];
  }

  lemma {:induction false} ShowAppend(s: Screen, cs: seq<Command>, ds: seq<Command>)
    ensures Show(s, cs + ds) == Show(Show(s, cs), ds)
  {
    if ds == [] {
      assert cs + ds == cs;
    } else {
      ShowAppend(s, cs, ds[..|ds| - 1]);
      assert (cs + ds)[..|cs + ds| - 1] == cs + ds[..|ds| - 1];
    }
  }

  predicate BlankFrom(row: bytes, n: nat) {
    forall i :: n <= i < |row| ==> row[i] == BLANK
  }

  lemma OverwriteIsPadded(row: bytes, payload: bytes)
    requires |row| == COLUMNS && |payload| <= COLUMNS
    ensures Overwrite(row, payload) == Padded(payload) <==> BlankFrom(row, |payload|)
  {
    var a, b := Overwrite(row, payload), Padded(payload);
    assert forall i :: |payload| <= i < COLUMNS ==> a[i] == row[i] && b[i] == BLANK;
    assert forall i :: 0 <= i < |payload| ==> a[i] == b[i];
  }

  lemma ShowTwo(s: Screen, c: Command, d: Command)
    ensures Show(s, [c, d]) == ShowCommand(ShowCommand(s, c), d)
  {
    assert [c, d][..1] == [c] && [c][..0] == [];
    assert Show(s, [c]) == ShowCommand(s, c);
  }

  /** A frame leaves the panel showing exactly the padded rows told to the observer
      if, and only if, the cells past the text of each row were blank already. */
  lemma FrameShowsRowsExactlyWhen(s: Screen, lines: seq<Line>)
    requires ValidScreen(s)
    ensures Show(s, FrameCommands(lines)) == FrameRows(lines)
       <==> BlankFrom(s.first, |LinePayload(FrameLine(lines, 0))|) && BlankFrom(s.second, |LinePayload(FrameLine(lines, 1))|)
  {
    hide Padded;
    hide BlankFrom;
    hide Overwrite;
    var p, q := LinePayload(FrameLine(lines, 0)), LinePayload(FrameLine(lines, 1));
    ShowTwo(s, Write(0, p), Write(1, q));
    OverwriteIsPadded(s.first, p);
    OverwriteIsPadded(s.second, q);
  }

  /** Right after a clear, whatever was sent before, the panel shows those rows. */
  lemma FrameAfterClear(s: Screen, before: seq<Command>, lines: seq<Line>)
    requires ValidScreen(s)
    ensures Show(s, before + [CLEAR] + FrameCommands(lines)) == FrameRows(lines)
  {
    hide Padded;
    var blank := Show(s, before + [CLEAR]);
    assert (before + [CLEAR])[..|before|] == before;
    assert blank == Screen(BLANK_ROW, BLANK_ROW);
    ShowAppend(s, before + [CLEAR], FrameCommands(lines));
    FrameShowsRowsExactlyWhen(blank, lines);
  }

  // ---- Transactions ----

  /** The fragments that the driver writes for one command: a display write keeps its
      header and its characters apart. */
  function CommandParts(c: Command): seq<bytes>
    requires ValidCommand(c)
  {
    var e := EncodeCommand(c);
    if c.Write? then [e[..4], e[4..]] else [e]
  }

  function Parts(cs: seq<Command>): seq<bytes>
    requires forall c :: c in cs ==> ValidCommand(c)
  {
    if cs == [] then [] else CommandParts(cs[0]) + Parts(cs[1..])
  }

  lemma CommandPartsEncode(c: Command)
    requires ValidCommand(c)
    ensures Flatten(CommandParts(c)) == EncodeCommand(c)
  {
    var e, p := EncodeCommand(c), CommandParts(c);
    assert p[..0] == [] && Flatten(p[..0]) == [];
    FlattenTake(p, 0);
    if c.Write? {
      FlattenTake(p, 1);
      assert p[..2] == p;
      assert e[..4] + e[4..] == e;
    } else {
      assert p[..1] == p;
    }
  }

  lemma {:induction false} PartsEncode(cs: seq<Command>)
    requires forall c :: c in cs ==> ValidCommand(c)
    ensures Flatten(Parts(cs)) == EncodeAll(cs)
  {
    if cs != [] {
      PartsEncode(cs[1..]);
      FlattenAppend(CommandParts(cs[0]), Parts(cs[1..]));
      CommandPartsEncode(cs[0]);
    }
  }

  /** What the transport does to one transaction. `fails` is the part at which a
      write raises, with the bytes of it that still went out; `flushes` are the
      results of the successive drain calls, the last of which counts for ever. */
  datatype Drain = Drained | Interrupted | DrainFails

  datatype Weather = Weather(fails: Option<(nat, nat)>, flushes: seq<Drain>)

  datatype IoError = WriteError | FlushError

  predicate WriteFails(parts: seq<bytes>, w: Weather) {
    w.fails.Some? && w.fails.value.0 < |parts| && w.fails.value.1 <= |parts[w.fails.value.0]|
  }

  function SentBytes(parts: seq<bytes>, w: Weather): bytes {
    if WriteFails(parts, w)
    then Flatten(parts[..w.fails.value.0]) + parts[w.fails.value.0][..w.fails.value.1]
    else Flatten(parts)
  }

  /** The drain loop: interruptions are retried until a stop is requested. */
  function DrainResult(flushes: seq<Drain>, stopping: bool): Result<bool, IoError> {
    if flushes == [] then Ok(true)
    else match flushes[0]
      case Drained => Ok(true)
      case DrainFails => Err(FlushError)
      case Interrupted => if stopping then Ok(false) else DrainResult(flushes[1..], stopping)
  }

  function WriteResult(parts: seq<bytes>, flush: bool, w: Weather, stopping: bool): Result<bool, IoError> {
    if WriteFails(parts, w) then Err(WriteError)
    else if flush then DrainResult(w.flushes, stopping)
    else Ok(true)
  }

  /** What goes out is a beginning of the transaction: all of it, unless a write of one of
      its parts raises; then the parts before and the bytes of that one. */
  lemma SentIsAPrefix(parts: seq<bytes>, w: Weather)
    ensures SentBytes(parts, w) <= Flatten(parts)
    ensures w.fails == None ==> SentBytes(parts, w) == Flatten(parts)
    ensures forall i: nat, k: nat :: w.fails == Some((i, k)) ==>
              if i < |parts| && k <= |parts[i]|
              then |SentBytes(parts, w)| == |Flatten(parts[..i])| + k && forall flush, stopping ::
                     WriteResult(parts, flush, w, stopping) == Err(WriteError)
              else SentBytes(parts, w) == Flatten(parts)
  {
    if WriteFails(parts, w) {
      var i := w.fails.value.0;
      FlattenTake(parts, i);
      FlattenAppend(parts[..i + 1], parts[i + 1..]);
      assert parts == parts[..i + 1] + parts[i + 1..];
    }
  }

  /** A drain ends at the first call that is not interrupted; a stop request makes the
      first interruption its end. */
  lemma {:induction false} DrainMeans(flushes: seq<Drain>, stopping: bool, n: nat)
    requires n <= |flushes| && forall i :: 0 <= i < n ==> flushes[i].Interrupted?
    requires n < |flushes| ==> !flushes[n].Interrupted?
    ensures DrainResult(flushes, stopping)
         == if stopping && n > 0 then Ok(false)
            else if n < |flushes| && flushes[n].DrainFails? then Err(FlushError)
            else Ok(true)
  {
    if n > 0 && !stopping {
      DrainMeans(flushes[1..], stopping, n - 1);
    }
  }

  /** The writing half of the driver. `wire` is everything that has gone out. */
  class LcdWriter {
    var wire: bytes
    var connected: bool
    var stopping: bool
    var observing: bool
    var observed: seq<Screen>

    constructor (connected: bool, observing: bool)
      ensures wire == [] && this.connected == connected && !stopping
      ensures this.observing == observing && observed == []
    {
      wire, this.connected, stopping := [], connected, false;
      this.observing, observed := observing, [];
    }

    /** `_write_parts`, while the lock is held. */
    method WriteParts(parts: seq<bytes>, flush: bool, w: Weather) returns (r: Result<bool, IoError>)
      modifies this`wire
      ensures !connected ==> r == Ok(false) && wire == old(wire)
      ensures connected ==> r == WriteResult(parts, flush, w, stopping) && wire == old(wire) + SentBytes(parts, w)
    {
      if !connected { return Ok(false); }
      ghost var start := wire;
      for i := 0 to |parts|
        invariant wire == start + Flatten(parts[..i])
        invariant WriteFails(parts, w) ==> i <= w.fails.value.0
      {
        if WriteFails(parts, w) && w.fails.value.0 == i {
          wire := wire + parts[i][..w.fails.value.1];
          return Err(WriteError);
        }
        FlattenTake(parts, i);
        wire := wire + parts[i];
      }
      assert parts[..|parts|] == parts;
      if flush {
        var attempts := w.flushes;
        while attempts != []
          invariant DrainResult(attempts, stopping) == DrainResult(w.flushes, stopping)
        {
          match attempts[0] {
            case Drained => return Ok(true);
            case DrainFails => return Err(FlushError);
            case Interrupted => if stopping { return Ok(false); }
          }
          attempts := attempts[1..];
        }
      }
      return Ok(true);
    }

    method Clear(w: Weather) returns (r: Result<bool, IoError>)
      modifies this`wire
      ensures connected ==> r == WriteResult(Parts([CLEAR]), false, w, stopping)
      ensures connected ==> wire == old(wire) + SentBytes(Parts([CLEAR]), w)
      ensures r == Ok(true) ==> connected && wire == old(wire) + EncodeAll([CLEAR])
      ensures !connected ==> r == Ok(false) && wire == old(wire)
    {
      var parts := [EncodePacket(DISPLAY_CLEAR, []).value];
      assert Parts([CLEAR]) == parts by {
        assert [CLEAR][1..] == [] && Parts([]) == [];
        assert [HOST_PREAMBLE, DISPLAY_CLEAR] + [] == [HOST_PREAMBLE, DISPLAY_CLEAR];
      }
      PartsEncode([CLEAR]);
      r := WriteParts(parts, false, w);
    }

    /** `write_frame`: both rows in one transaction; the observer hears of it
        exactly when the transaction succeeded. */
    method WriteFrame(lines: seq<Line>, w: Weather) returns (r: Result<bool, IoError>)
      modifies this`wire, this`observed
      ensures connected ==> r == WriteResult(Parts(FrameCommands(lines)), true, w, stopping)
      ensures connected ==> wire == old(wire) + SentBytes(Parts(FrameCommands(lines)), w)
      ensures !connected ==> r == Ok(false) && wire == old(wire)
      ensures observed == old(observed) + if r == Ok(true) && observing then [FrameRows(lines)] else []
      ensures r == Ok(true) ==> wire == old(wire) + EncodeAll(FrameCommands(lines))
    {
      var packets: seq<bytes>, rows := [], [];
      for number := 1 to 3
        invariant packets == Parts(FrameCommands(lines)[..number - 1])
        invariant wire == old(wire) && observed == old(observed) && |rows| == number - 1
        invariant forall i :: 0 <= i < |rows| ==> rows[i] == Padded(LinePayload(FrameLine(lines, i)))
      {
        var payload := LinePayload(FrameLine(lines, number - 1));
        var row := RowAddress(number);
        EncodersAgree(row, payload, COLUMNS);
        var packet := EncodeDisplayWrite(row, payload, COLUMNS).value;
        PartsSnoc(FrameCommands(lines)[..number - 1], FrameCommands(lines)[number - 1]);
        assert FrameCommands(lines)[..number] == FrameCommands(lines)[..number - 1] + [FrameCommands(lines)[number - 1]];
        packets := packets + [packet[..4], packet[4..]];
        rows := rows + [Padded(payload)];
      }
      assert FrameCommands(lines)[..2] == FrameCommands(lines);
      r := WriteParts(packets, true, w);
      if r == Ok(true) {
        PartsEncode(FrameCommands(lines));
        if observing {
          observed := observed + [Screen(rows[0], rows[1])];
        }
      }
    }
  }

  lemma {:induction false} PartsSnoc(cs: seq<Command>, c: Command)
    requires (forall d :: d in cs ==> ValidCommand(d)) && ValidCommand(c)
    ensures Parts(cs + [c]) == Parts(cs) + CommandParts(c)
  {
    if cs == [] {
      assert cs + [c] == [c] && [c][1..] == [];
    } else {
      PartsSnoc(cs[1..], c);
      assert (cs + [c])[1..] == cs[1..] + [c];
    }
  }
}
