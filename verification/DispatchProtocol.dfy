/** The threads of the panel driver as one transition system: a serial reader, any
    number of web submitters, of closers and of pollers, and the dispatcher. A run
    is any sequence of their steps; a step that is not possible changes nothing. */
module DispatchProtocol {
  import opened Core
  import opened A125
  import opened LcdEvents

  /** Who put an item on the queue; a closer also knows whether the reader had ended. */
  datatype Origin = FromReader | FromWeb | FromClose(readerEnded: bool)

  datatype Put = Put(item: Item, origin: Origin)

  datatype DispatcherPc = Waiting | Got(item: Item) | Counted(event: Event) | Running(event: Event) | Exiting | Dead

  datatype ReaderPc =
    | Idle
    | Reading
    | GotReply(reply: Reply)
    | CountedReply(reply: Reply)
    | Deciding(event: Event)
    | Putting(event: Event)
    | Calling(event: Event)
    | Ended

  datatype WebPc = WebDeciding(event: Event) | WebPutting(event: Event) | WebCalling(event: Event)

  datatype ClosePc =
    | Joining(captured: bool)
    | Checking(captured: bool, readerEnded: bool)
    | Sealing(readerEnded: bool)
    | Ending
    | Closed

  /** The shared state. `puts`, `calls`, `readerCalls`, `otherCalls`, `decoded`,
      `presses` and `polls` are the histories that the results speak about. */
  datatype State = State(
    queue: seq<Item>, puts: seq<Put>,
    dispatcher: DispatcherPc, calls: seq<Event>, dispatcherEvents: nat,
    dispatcherSet: bool, stopRequested: bool,
    callbackCount: nat, callbackErrors: nat, readerCalls: seq<Event>, otherCalls: seq<Event>,
    reader: ReaderPc, replies: nat, decoded: seq<Event>,
    buttons: Buttons, presses: seq<nat>, polls: seq<nat>,
    webs: map<nat, WebPc>, closers: map<nat, ClosePc>)

  const INITIAL := State([], [], Waiting, [], 0, true, false, 0, 0, [], [], Idle, 0, [],
                         Buttons([], false, 0, 0, 0, 0), [], [], map[], map[])

  datatype Step =
    | DispatcherGet
    | DispatcherCount
    | DispatcherCall
    | DispatcherReturn(raised: bool)
    | DispatcherExit
    | ReaderCheck
    | ReaderReply(reply: Reply)
    | ReaderNothing
    | ReaderCount
    | ReaderRecord
    | ReaderDecide
    | ReaderHandOver(raised: bool)
    | WebSubmit(thread: nat, mask: int, fromWeb: bool)
    | WebDecide(thread: nat)
    | WebHandOver(thread: nat, raised: bool)
    | CloseBegin(thread: nat)
    | CloseJoined(thread: nat)
    | CloseCheck(thread: nat)
    | CloseSeal(thread: nat)
    | CloseEnd(thread: nat)
    | PollButton

  /** `dispatcher is not None and dispatcher.is_alive()`. */
  predicate Open(s: State) {
    s.dispatcherSet && !s.dispatcher.Dead?
  }

  function PutItem(s: State, item: Item, origin: Origin): State {
    s.(queue := s.queue + [item], puts := s.puts + [Put(item, origin)])
  }

  function CountCall(s: State, raised: bool): State {
    s.(callbackCount := s.callbackCount + 1, callbackErrors := s.callbackErrors + if raised then 1 else 0)
  }

  function DispatcherNext(s: State, step: Step): State {
    match step
    case DispatcherGet =>
      if s.dispatcher.Waiting? && s.queue != [] then s.(dispatcher := Got(s.queue[0]), queue := s.queue[1..]) else s
    case DispatcherCount =>
      if s.dispatcher.Got? && s.dispatcher.item.Deliver?
      then s.(dispatcher := Counted(s.dispatcher.item.event), dispatcherEvents := s.dispatcherEvents + 1) else s
    case DispatcherCall =>
      if s.dispatcher.Counted?
      then s.(dispatcher := Running(s.dispatcher.event), calls := s.calls + [s.dispatcher.event]) else s
    case DispatcherReturn(raised) =>
      if s.dispatcher.Running? then CountCall(s, raised).(dispatcher := Waiting) else s
    case DispatcherExit =>
      if s.dispatcher == Got(Stop) then s.(dispatcher := Exiting)
      else if s.dispatcher.Exiting? then s.(dispatcher := Dead)
      else s
    case _ => s
  }

  function ReaderNext(s: State, step: Step): State {
    match step
    case ReaderCheck => if s.reader.Idle? then s.(reader := if s.stopRequested then Ended else Reading) else s
    case ReaderReply(r) => if s.reader.Reading? then s.(reader := GotReply(r)) else s
    case ReaderNothing => if s.reader.Reading? then s.(reader := Idle) else s
    case ReaderCount =>
      if s.reader.GotReply? then s.(reader := CountedReply(s.reader.reply), replies := s.replies + 1) else s
    case ReaderRecord =>
      if s.reader.CountedReply? then
        var r := s.reader.reply;
        var e := ReplyEvent(r);
        s.(buttons := RecordReply(s.buttons, r),
           presses := s.presses + (if Press(r) > 0 then [Press(r)] else []),
           decoded := s.decoded + (if e.Some? then [e.value] else []),
           reader := if e.Some? then Deciding(e.value) else Idle)
      else s
    case ReaderDecide =>
      if s.reader.Deciding?
      then s.(reader := if Open(s) then Putting(s.reader.event) else Calling(s.reader.event)) else s
    case ReaderHandOver(raised) =>
      if s.reader.Putting? then PutItem(s, Deliver(s.reader.event), FromReader).(reader := Idle)
      else if s.reader.Calling? then CountCall(s, raised).(readerCalls := s.readerCalls + [s.reader.event], reader := Idle)
      else s
    case _ => s
  }

  function WebNext(s: State, step: Step): State {
    match step
    case WebSubmit(t, mask, fromWeb) =>
      if t !in s.webs && (mask == 1 || mask == 2) && fromWeb && Open(s) && !s.stopRequested
      then s.(webs := s.webs[t := WebDeciding(Event(SwitchStatus, Value(mask)))]) else s
    case WebDecide(t) =>
      if t in s.webs && s.webs[t].WebDeciding?
      then s.(webs := s.webs[t := if Open(s) then WebPutting(s.webs[t].event) else WebCalling(s.webs[t].event)]) else s
    case WebHandOver(t, raised) =>
      if t in s.webs && s.webs[t].WebPutting?
      then PutItem(s, Deliver(s.webs[t].event), FromWeb).(webs := s.webs - {t})
      else if t in s.webs && s.webs[t].WebCalling?
      then CountCall(s, raised).(otherCalls := s.otherCalls + [s.webs[t].event], webs := s.webs - {t})
      else s
    case _ => s
  }

  function CloseNext(s: State, step: Step): State {
    match step
    case CloseBegin(t) =>
      if t !in s.closers then s.(stopRequested := true, closers := s.closers[t := Joining(s.dispatcherSet)]) else s
    case CloseJoined(t) =>
      if t in s.closers && s.closers[t].Joining?
      then s.(closers := s.closers[t := Checking(s.closers[t].captured, s.reader.Ended?)]) else s
    case CloseCheck(t) =>
      if t in s.closers && s.closers[t].Checking?
      then s.(closers := s.closers[t := if s.closers[t].captured && !s.dispatcher.Dead?
                                        then Sealing(s.closers[t].readerEnded) else Ending]) else s
    case CloseSeal(t) =>
      if t in s.closers && s.closers[t].Sealing?
      then PutItem(s, Stop, FromClose(s.closers[t].readerEnded)).(closers := s.closers[t := Ending]) else s
    case CloseEnd(t) =>
      if t in s.closers && s.closers[t].Ending?
      then s.(dispatcherSet := false, closers := s.closers[t := Closed]) else s
    case _ => s
  }

  function PollNext(s: State): State {
    var (b, v) := Poll(s.buttons);
    s.(buttons := b, polls := s.polls + [v])
  }

  function Next(s: State, step: Step): State {
    match step
    case DispatcherGet | DispatcherCount | DispatcherCall | DispatcherReturn(_) | DispatcherExit => DispatcherNext(s, step)
    case WebSubmit(_, _, _) | WebDecide(_) | WebHandOver(_, _) => WebNext(s, step)
    case CloseBegin(_) | CloseJoined(_) | CloseCheck(_) | CloseSeal(_) | CloseEnd(_) => CloseNext(s, step)
    case PollButton => PollNext(s)
    case _ => ReaderNext(s, step)
  }

  function Run(s: State, steps: seq<Step>): State {
    if steps == [] then s else Next(Run(s, steps[..|steps| - 1]), steps[|steps| - 1])
  }

  // ---- The invariant ----

  function Items(puts: seq<Put>): seq<Item> {
    seq(|puts|, i requires 0 <= i < |puts| => puts[i].item)
  }

  /** What the dispatcher has taken off the queue, in terms of what it has done. */
  function Consumed(pc: DispatcherPc, calls: seq<Event>): seq<Item> {
    match pc
    case Waiting => Delivers(calls)
    case Running(_) => Delivers(calls)
    case Got(item) => Delivers(calls) + [item]
    case Counted(e) => Delivers(calls) + [Deliver(e)]
    case Exiting => Delivers(calls) + [Stop]
    case Dead => Delivers(calls) + [Stop]
  }

  /** Nothing on the queue is lost, repeated or reordered, and the counters agree. */
  predicate QueueInv(s: State) {
    && Items(s.puts) == Consumed(s.dispatcher, s.calls) + s.queue
    && s.dispatcherEvents == |s.calls| + (if s.dispatcher.Counted? then 1 else 0)
    && s.callbackCount + (if s.dispatcher.Running? then 1 else 0) == |s.calls| + |s.readerCalls| + |s.otherCalls|
    && s.callbackErrors <= s.callbackCount
    && (s.dispatcher.Running? ==> s.calls != [])
  }

  function NonZero(s: seq<nat>): seq<nat> {
    if s == [] then []
    else NonZero(s[..|s| - 1]) + (if s[|s| - 1] > 0 then [s[|s| - 1]] else [])
  }

  predicate ZeroBetween(s: seq<nat>) {
    forall i :: 0 <= i < |s| - 1 ==> s[i] == 0 || s[i + 1] == 0
  }

  /** Presses leave the deque once and in order, with a zero after each. */
  predicate ReadInOrder(b: Buttons, presses: seq<nat>, polls: seq<nat>) {
    && presses == NonZero(polls) + b.queue
    && (forall i :: 0 <= i < |b.queue| ==> b.queue[i] > 0)
    && ZeroBetween(polls)
    && (b.releasePending <==> polls != [] && polls[|polls| - 1] > 0)
  }

  predicate ButtonInv(s: State) {
    ReadInOrder(s.buttons, s.presses, s.polls)
  }

  predicate Sealed(puts: seq<Put>) {
    exists p :: p in puts && p.item.Stop?
  }

  function ReaderPuts(puts: seq<Put>): seq<Event> {
    if puts == [] then []
    else
      var p := puts[|puts| - 1];
      ReaderPuts(puts[..|puts| - 1]) + (if p.origin.FromReader? && p.item.Deliver? then [p.item.event] else [])
  }

  function InHand(pc: ReaderPc): seq<Event> {
    match pc
    case Deciding(e) => [e]
    case Putting(e) => [e]
    case Calling(e) => [e]
    case _ => []
  }

  /** Sentinels come from closers, and nothing from the reader follows one whose
      closer had seen the reader end. */
  predicate OrderedPuts(puts: seq<Put>) {
    && (forall i :: 0 <= i < |puts| ==> (puts[i].item.Stop? <==> puts[i].origin.FromClose?))
    && (forall i, j :: 0 <= i < j < |puts| && puts[i].origin == FromClose(true) ==> !puts[j].origin.FromReader?)
  }

  predicate ReaderDone(puts: seq<Put>) {
    exists p :: p in puts && p.origin == FromClose(true)
  }

  function FirstSeal(puts: seq<Put>): (p: Put)
    requires Sealed(puts)
    ensures p in puts && p.item.Stop?
  {
    if puts[0].item.Stop? then puts[0] else FirstSeal(puts[1..])
  }

  /** The first sentinel was put by a closer that had seen the reader end. */
  predicate CleanSeal(puts: seq<Put>) {
    Sealed(puts) && FirstSeal(puts).origin == FromClose(true)
  }

  predicate ReaderInv(s: State) {
    && OrderedPuts(s.puts)
    && s.decoded == ReaderPuts(s.puts) + s.readerCalls + InHand(s.reader)
    && (s.reader.Calling? || s.readerCalls != [] ==> !Open(s))
    && (s.reader.Putting? ==> s.readerCalls == [])
    && (ReaderDone(s.puts) ==> s.reader.Ended?)
    && (s.reader.Ended? ==> s.stopRequested)
    && (CleanSeal(s.puts) ==> s.readerCalls == [])
  }

  predicate CloserOk(c: ClosePc, isSealed: bool, readerEnded: bool) {
    match c
    case Joining(captured) => captured || isSealed
    case Checking(captured, ended) => (captured || isSealed) && (ended ==> readerEnded)
    case Sealing(ended) => ended ==> readerEnded
    case _ => isSealed
  }

  /** The dispatcher is shut only behind a sentinel. */
  predicate CloseInv(s: State) {
    && (!Open(s) ==> Sealed(s.puts))
    && (forall t :: t in s.closers ==> CloserOk(s.closers[t], Sealed(s.puts), s.reader.Ended?))
  }

  // ---- Preservation ----

  lemma ItemsSnoc(puts: seq<Put>, p: Put)
    ensures Items(puts + [p]) == Items(puts) + [p.item]
  {
  }

  lemma DeliversSnoc(calls: seq<Event>, e: Event)
    ensures Delivers(calls + [e]) == Delivers(calls) + [Deliver(e)]
  {
  }

  lemma PutKeepsQueueInv(s: State, item: Item, origin: Origin)
    requires QueueInv(s)
    ensures QueueInv(PutItem(s, item, origin))
  {
    hide Items;
    hide Consumed;
    ItemsSnoc(s.puts, Put(item, origin));
    assert Consumed(s.dispatcher, s.calls) + s.queue + [item] == Consumed(s.dispatcher, s.calls) + (s.queue + [item]);
  }

  lemma DispatcherKeepsQueueInv(s: State, step: Step)
    requires QueueInv(s)
    ensures QueueInv(DispatcherNext(s, step))
  {
    hide Items;
    hide Delivers;
    match step
    case DispatcherGet =>
      if s.dispatcher.Waiting? && s.queue != [] {
        assert Delivers(s.calls) + s.queue == Delivers(s.calls) + [s.queue[0]] + s.queue[1..];
      }
    case DispatcherCall =>
      if s.dispatcher.Counted? { DeliversSnoc(s.calls, s.dispatcher.event); }
    case _ =>
  }

  lemma ThreadsKeepQueueInv(s: State, step: Step)
    requires QueueInv(s)
    ensures QueueInv(WebNext(s, step)) && QueueInv(CloseNext(s, step)) && QueueInv(PollNext(s))
  {
    hide Items;
    hide Consumed;
    hide Poll;
    match step
    case WebHandOver(t, raised) =>
      if t in s.webs && s.webs[t].WebPutting? { PutKeepsQueueInv(s, Deliver(s.webs[t].event), FromWeb); }
    case CloseSeal(t) =>
      if t in s.closers && s.closers[t].Sealing? { PutKeepsQueueInv(s, Stop, FromClose(s.closers[t].readerEnded)); }
    case _ =>
  }

  lemma ReaderKeepsQueueInv(s: State, step: Step)
    requires QueueInv(s)
    ensures QueueInv(ReaderNext(s, step))
  {
    hide Items;
    hide Consumed;
    hide RecordReply;
    hide ReplyEvent;
    if step.ReaderHandOver? && s.reader.Putting? {
      PutKeepsQueueInv(s, Deliver(s.reader.event), FromReader);
    }
  }

  lemma StepKeepsQueueInv(s: State, step: Step)
    requires QueueInv(s)
    ensures QueueInv(Next(s, step))
  {
    hide QueueInv;
    hide DispatcherNext;
    hide ReaderNext;
    hide WebNext;
    hide CloseNext;
    hide PollNext;
    DispatcherKeepsQueueInv(s, step);
    ReaderKeepsQueueInv(s, step);
    ThreadsKeepQueueInv(s, step);
  }

  lemma NonZeroSnoc(s: seq<nat>, v: nat)
    ensures NonZero(s + [v]) == NonZero(s) + (if v > 0 then [v] else [])
  {
    assert (s + [v])[..|s|] == s;
  }

  lemma PollKeepsButtonInv(s: State)
    requires ButtonInv(s)
    ensures ButtonInv(PollNext(s))
  {
    hide NonZero;
    var v := Poll(s.buttons).1;
    NonZeroSnoc(s.polls, v);
    var after := PollNext(s);
    assert ZeroBetween(after.polls) by {
      assert forall i :: 0 <= i < |s.polls| ==> after.polls[i] == s.polls[i];
    }
    if !s.buttons.releasePending && s.buttons.queue != [] {
      assert NonZero(s.polls) + s.buttons.queue == NonZero(s.polls) + [v] + s.buttons.queue[1..];
    }
  }

  lemma RecordKeepsButtonInv(s: State)
    requires ButtonInv(s)
    ensures ButtonInv(ReaderNext(s, ReaderRecord))
  {
    hide NonZero;
    if s.reader.CountedReply? {
      var r := s.reader.reply;
      var more := if Press(r) > 0 then [Press(r)] else [];
      assert RecordReply(s.buttons, r).queue == s.buttons.queue + more;
      assert NonZero(s.polls) + (s.buttons.queue + more) == NonZero(s.polls) + s.buttons.queue + more;
    }
  }

  lemma OthersKeepButtonInv(s: State, step: Step)
    requires ButtonInv(s)
    ensures ButtonInv(DispatcherNext(s, step)) && ButtonInv(WebNext(s, step)) && ButtonInv(CloseNext(s, step))
  {
    hide ReadInOrder;
  }

  lemma ReaderKeepsButtonInv(s: State, step: Step)
    requires ButtonInv(s)
    ensures ButtonInv(ReaderNext(s, step))
  {
    hide ReadInOrder;
    hide RecordReply;
    hide ReplyEvent;
    RecordKeepsButtonInv(s);
  }

  lemma StepKeepsButtonInv(s: State, step: Step)
    requires ButtonInv(s)
    ensures ButtonInv(Next(s, step))
  {
    hide ButtonInv;
    hide DispatcherNext;
    hide ReaderNext;
    hide WebNext;
    hide CloseNext;
    hide PollNext;
    OthersKeepButtonInv(s, step);
    ReaderKeepsButtonInv(s, step);
    PollKeepsButtonInv(s);
  }

  lemma ReaderPutsSnoc(puts: seq<Put>, p: Put)
    ensures ReaderPuts(puts + [p])
         == ReaderPuts(puts) + (if p.origin.FromReader? && p.item.Deliver? then [p.item.event] else [])
  {
    assert (puts + [p])[..|puts|] == puts;
  }

  lemma SealedSnoc(puts: seq<Put>, p: Put)
    ensures Sealed(puts + [p]) <==> Sealed(puts) || p.item.Stop?
  {
    if Sealed(puts) {
      var q :| q in puts && q.item.Stop?;
      assert q in puts + [p];
    }
    if p.item.Stop? {
      assert p in puts + [p];
    }
  }

  lemma {:induction false} FirstSealSnoc(puts: seq<Put>, p: Put)
    requires Sealed(puts) || p.item.Stop?
    ensures Sealed(puts + [p])
    ensures FirstSeal(puts + [p]) == if Sealed(puts) then FirstSeal(puts) else p
  {
    SealedSnoc(puts, p);
    if puts != [] && !puts[0].item.Stop? {
      assert Sealed(puts) <==> Sealed(puts[1..]) by {
        assert puts == [puts[0]] + puts[1..];
      }
      assert (puts + [p])[1..] == puts[1..] + [p];
      FirstSealSnoc(puts[1..], p);
    } else if puts != [] {
      assert puts[0] in puts;
    }
  }

  lemma CleanSealSnoc(puts: seq<Put>, p: Put)
    ensures CleanSeal(puts + [p])
       <==> if Sealed(puts) then CleanSeal(puts) else p.item.Stop? && p.origin == FromClose(true)
  {
    SealedSnoc(puts, p);
    if Sealed(puts) || p.item.Stop? {
      FirstSealSnoc(puts, p);
    }
  }

  lemma CleanMeansDone(puts: seq<Put>)
    requires CleanSeal(puts)
    ensures ReaderDone(puts)
  {
    assert FirstSeal(puts) in puts;
  }

  lemma ReaderDoneSnoc(puts: seq<Put>, p: Put)
    ensures ReaderDone(puts + [p]) <==> ReaderDone(puts) || p.origin == FromClose(true)
  {
    if ReaderDone(puts) {
      var q :| q in puts && q.origin == FromClose(true);
      assert q in puts + [p];
    }
    if p.origin == FromClose(true) {
      assert p in puts + [p];
    }
  }

  lemma OrderedSnoc(puts: seq<Put>, p: Put)
    requires OrderedPuts(puts) && (p.item.Stop? <==> p.origin.FromClose?)
    requires ReaderDone(puts) ==> !p.origin.FromReader?
    ensures OrderedPuts(puts + [p])
  {
    var after := puts + [p];
    forall i, j | 0 <= i < j < |after| && after[i].origin == FromClose(true)
      ensures !after[j].origin.FromReader?
    {
      assert after[i] == puts[i] && puts[i] in puts;
    }
  }

  lemma PutKeepsReaderInv(s: State, item: Item, origin: Origin)
    requires ReaderInv(s) && CloseInv(s) && !origin.FromReader? && (item.Stop? <==> origin.FromClose?)
    requires origin == FromClose(true) ==> s.reader.Ended?
    ensures ReaderInv(PutItem(s, item, origin))
  {
    hide OrderedPuts;
    hide ReaderPuts;
    hide ReaderDone;
    hide CleanSeal;
    hide Sealed;
    var p := Put(item, origin);
    ReaderPutsSnoc(s.puts, p);
    CleanSealSnoc(s.puts, p);
    ReaderDoneSnoc(s.puts, p);
    OrderedSnoc(s.puts, p);
  }

  lemma ReaderPutKeepsReaderInv(s: State)
    requires ReaderInv(s) && CloseInv(s) && s.reader.Putting?
    ensures ReaderInv(ReaderNext(s, ReaderHandOver(false)))
  {
    hide OrderedPuts;
    hide ReaderPuts;
    hide ReaderDone;
    hide CleanSeal;
    hide Sealed;
    var p := Put(Deliver(s.reader.event), FromReader);
    ReaderPutsSnoc(s.puts, p);
    CleanSealSnoc(s.puts, p);
    ReaderDoneSnoc(s.puts, p);
    OrderedSnoc(s.puts, p);
  }

  lemma ReaderKeepsReaderInv(s: State, step: Step)
    requires ReaderInv(s) && CloseInv(s)
    ensures ReaderInv(ReaderNext(s, step))
  {
    hide OrderedPuts;
    hide ReaderPuts;
    hide ReaderDone;
    hide CleanSeal;
    hide Sealed;
    hide RecordReply;
    hide ReplyEvent;
    var sofar := ReaderPuts(s.puts) + s.readerCalls;
    match step
    case ReaderHandOver(_) =>
      if s.reader.Putting? {
        ReaderPutKeepsReaderInv(s);
      } else if s.reader.Calling? {
        if CleanSeal(s.puts) { CleanMeansDone(s.puts); }
        assert sofar + [s.reader.event] == ReaderPuts(s.puts) + (s.readerCalls + [s.reader.event]) + [];
      }
    case ReaderRecord =>
      if s.reader.CountedReply? {
        var e := ReplyEvent(s.reader.reply);
        assert e.Some? ==> sofar + [] + [e.value] == sofar + [e.value];
      }
    case _ =>
  }

  lemma WebKeepsReaderInv(s: State, step: Step)
    requires ReaderInv(s) && CloseInv(s)
    ensures ReaderInv(WebNext(s, step)) && ReaderInv(PollNext(s))
  {
    hide OrderedPuts;
    hide ReaderPuts;
    hide ReaderDone;
    hide CleanSeal;
    hide Sealed;
    hide Poll;
    if step.WebHandOver? && step.thread in s.webs && s.webs[step.thread].WebPutting? {
      PutKeepsReaderInv(s, Deliver(s.webs[step.thread].event), FromWeb);
    }
  }

  lemma CloserKeepsReaderInv(s: State, step: Step)
    requires ReaderInv(s) && CloseInv(s)
    ensures ReaderInv(CloseNext(s, step))
  {
    hide OrderedPuts;
    hide ReaderPuts;
    hide ReaderDone;
    hide CleanSeal;
    hide Sealed;
    if step.CloseSeal? && step.thread in s.closers && s.closers[step.thread].Sealing? {
      PutKeepsReaderInv(s, Stop, FromClose(s.closers[step.thread].readerEnded));
    }
  }

  lemma DispatcherKeepsReaderInv(s: State, step: Step)
    requires ReaderInv(s)
    ensures ReaderInv(DispatcherNext(s, step))
  {
    hide OrderedPuts;
    hide ReaderPuts;
    hide ReaderDone;
    hide CleanSeal;
  }

  lemma StepKeepsReaderInv(s: State, step: Step)
    requires ReaderInv(s) && CloseInv(s)
    ensures ReaderInv(Next(s, step))
  {
    hide ReaderInv;
    hide DispatcherNext;
    hide ReaderNext;
    hide WebNext;
    hide CloseNext;
    hide PollNext;
    ReaderKeepsReaderInv(s, step);
    WebKeepsReaderInv(s, step);
    CloserKeepsReaderInv(s, step);
    DispatcherKeepsReaderInv(s, step);
  }

  /** A dispatcher that met a sentinel found it on the queue. */
  lemma StopWasPut(s: State)
    requires QueueInv(s) && (s.dispatcher == Got(Stop) || s.dispatcher.Exiting? || s.dispatcher.Dead?)
    ensures Sealed(s.puts)
  {
    var at := |s.calls|;
    assert Items(s.puts)[at] == Stop;
    assert s.puts[at] in s.puts && s.puts[at].item.Stop?;
  }

  lemma PutKeepsCloseInv(s: State, item: Item, origin: Origin)
    requires CloseInv(s)
    ensures CloseInv(PutItem(s, item, origin))
  {
    hide Sealed;
    SealedSnoc(s.puts, Put(item, origin));
  }

  lemma CloserKeepsCloseInv(s: State, step: Step)
    requires QueueInv(s) && CloseInv(s)
    ensures CloseInv(CloseNext(s, step))
  {
    hide QueueInv;
    hide Sealed;
    if s.dispatcher.Dead? {
      StopWasPut(s);
    }
    if step.CloseSeal? && step.thread in s.closers && s.closers[step.thread].Sealing? {
      var origin := FromClose(s.closers[step.thread].readerEnded);
      PutKeepsCloseInv(s, Stop, origin);
      SealedSnoc(s.puts, Put(Stop, origin));
    }
  }

  lemma DispatcherKeepsCloseInv(s: State, step: Step)
    requires QueueInv(s) && CloseInv(s)
    ensures CloseInv(DispatcherNext(s, step))
  {
    hide QueueInv;
    hide Sealed;
    hide CloserOk;
    if s.dispatcher.Exiting? {
      StopWasPut(s);
    }
  }

  lemma ReaderKeepsCloseInv(s: State, step: Step)
    requires CloseInv(s)
    ensures CloseInv(ReaderNext(s, step))
  {
    hide Sealed;
    hide RecordReply;
    hide ReplyEvent;
    if step.ReaderHandOver? && s.reader.Putting? {
      PutKeepsCloseInv(s, Deliver(s.reader.event), FromReader);
    }
  }

  lemma WebKeepsCloseInv(s: State, step: Step)
    requires CloseInv(s)
    ensures CloseInv(WebNext(s, step)) && CloseInv(PollNext(s))
  {
    hide Sealed;
    hide CloserOk;
    hide Poll;
    if step.WebHandOver? && step.thread in s.webs && s.webs[step.thread].WebPutting? {
      PutKeepsCloseInv(s, Deliver(s.webs[step.thread].event), FromWeb);
    }
  }

  lemma StepKeepsCloseInv(s: State, step: Step)
    requires QueueInv(s) && CloseInv(s)
    ensures CloseInv(Next(s, step))
  {
    hide CloseInv;
    hide DispatcherNext;
    hide ReaderNext;
    hide WebNext;
    hide CloseNext;
    hide PollNext;
    DispatcherKeepsCloseInv(s, step);
    ReaderKeepsCloseInv(s, step);
    WebKeepsCloseInv(s, step);
    CloserKeepsCloseInv(s, step);
  }

  predicate Inv(s: State) {
    QueueInv(s) && ButtonInv(s) && ReaderInv(s) && CloseInv(s)
  }

  lemma {:induction false} EveryRunKeepsInv(steps: seq<Step>)
    ensures Inv(Run(INITIAL, steps))
  {
    hide QueueInv;
    hide ButtonInv;
    hide ReaderInv;
    hide CloseInv;
    hide Next;
    if steps == [] {
      InitialInv();
    } else {
      var last := |steps| - 1;
      EveryRunKeepsInv(steps[..last]);
      var before := Run(INITIAL, steps[..last]);
      StepKeepsQueueInv(before, steps[last]);
      StepKeepsButtonInv(before, steps[last]);
      StepKeepsReaderInv(before, steps[last]);
      StepKeepsCloseInv(before, steps[last]);
    }
  }

  lemma InitialInv()
    ensures Inv(INITIAL)
  {
  }

  // ---- The results ----

  lemma {:induction false} DeliversOnly(events: seq<Event>, items: seq<Item>)
    requires Delivers(events) <= items
    ensures events <= EventsAhead(items)
  {
    assert items == Delivers(events) + items[|events|..];
    EventsAheadOf(events, items[|events|..]);
  }

  /** In every run the dispatcher's calls are a prefix of what was put, nothing lost,
      repeated or reordered, whatever raised; and the counters agree with them. */
  lemma CallsArePrefix(steps: seq<Step>)
    ensures var s := Run(INITIAL, steps);
            && Delivers(s.calls) <= Items(s.puts)
            && s.calls <= EventsAhead(Items(s.puts))
            && |s.calls| <= s.dispatcherEvents <= |s.calls| + 1
            && (!s.dispatcher.Counted? ==> s.dispatcherEvents == |s.calls|)
            && s.callbackCount <= |s.calls| + |s.readerCalls| + |s.otherCalls|
            && s.callbackErrors <= s.callbackCount
  {
    EveryRunKeepsInv(steps);
    var s := Run(INITIAL, steps);
    assert Delivers(s.calls) <= Items(s.puts);
    DeliversOnly(s.calls, Items(s.puts));
  }

  lemma {:induction false} ItemsBehindOf(events: seq<Event>, rest: seq<Item>)
    ensures ItemsBehind(Delivers(events) + ([Stop] + rest)) == rest
  {
    var items := Delivers(events) + ([Stop] + rest);
    if events == [] {
      assert items == [Stop] + rest;
    } else {
      assert items[1..] == Delivers(events[1..]) + ([Stop] + rest);
      ItemsBehindOf(events[1..], rest);
    }
  }

  lemma DrainedItems(items: seq<Item>, calls: seq<Event>, queue: seq<Item>)
    requires items == Delivers(calls) + [Stop] + queue
    ensures calls == EventsAhead(items) && queue == ItemsBehind(items)
  {
    hide Delivers;
    assert items == Delivers(calls) + ([Stop] + queue);
    EventsAheadOf(calls, [Stop] + queue);
    assert calls + [] == calls;
    ItemsBehindOf(calls, queue);
  }

  /** Once the dispatcher has stopped, exactly the events ahead of the first
      sentinel have been delivered, in order, and what followed it never is. */
  lemma StoppedDispatcherHasDrained(steps: seq<Step>)
    requires Run(INITIAL, steps).dispatcher.Dead?
    ensures var s := Run(INITIAL, steps);
            && s.calls == EventsAhead(Items(s.puts))
            && s.queue == ItemsBehind(Items(s.puts))
            && s.dispatcherEvents == |s.calls|
  {
    hide Items;
    hide Delivers;
    hide ButtonInv;
    hide ReaderInv;
    hide CloseInv;
    hide Run;
    EveryRunKeepsInv(steps);
    var s := Run(INITIAL, steps);
    DrainedItems(Items(s.puts), s.calls, s.queue);
  }

  /** So a put event was delivered, as the call of its own position, exactly when no
      sentinel was put before it. */
  lemma DeliveredExactlyWhen(steps: seq<Step>, i: nat)
    requires Run(INITIAL, steps).dispatcher.Dead?
    requires i < |Run(INITIAL, steps).puts| && Run(INITIAL, steps).puts[i].item.Deliver?
    ensures var s := Run(INITIAL, steps);
            (i < |s.calls| && s.calls[i] == s.puts[i].item.event)
            <==> (forall j :: 0 <= j < i ==> !s.puts[j].item.Stop?)
  {
    hide ButtonInv;
    hide ReaderInv;
    hide CloseInv;
    hide Run;
    EveryRunKeepsInv(steps);
    var s := Run(INITIAL, steps);
    hide QueueInv;
    ConsumedItems(s);
  }

  lemma {:induction false} FirstSealAt(puts: seq<Put>, n: nat)
    requires n < |puts| && puts[n].item.Stop? && forall i :: 0 <= i < n ==> !puts[i].item.Stop?
    ensures Sealed(puts) && FirstSeal(puts) == puts[n]
  {
    assert puts[n] in puts;
    if n > 0 {
      FirstSealAt(puts[1..], n - 1);
    }
  }

  /** When the first sentinel comes from a `close` that had seen the reader end, the
      stopped dispatcher has delivered every event the reader ever decoded, each as
      the call of its own position, and none went round the queue. */
  lemma CleanCloseDeliversAll(steps: seq<Step>)
    requires Run(INITIAL, steps).dispatcher.Dead? && CleanSeal(Run(INITIAL, steps).puts)
    ensures var s := Run(INITIAL, steps);
            && s.reader.Ended? && s.readerCalls == [] && s.decoded == ReaderPuts(s.puts)
            && forall i :: 0 <= i < |s.puts| && s.puts[i].origin.FromReader? ==>
                 i < |s.calls| && s.puts[i].item == Deliver(s.calls[i])
  {
    hide ButtonInv;
    hide CloseInv;
    hide Run;
    EveryRunKeepsInv(steps);
    var s := Run(INITIAL, steps);
    CleanMeansDone(s.puts);
    var n := |s.calls|;
    ConsumedItems(s);
    FirstSealAt(s.puts, n);
  }

  lemma ConsumedItems(s: State)
    requires QueueInv(s) && s.dispatcher.Dead?
    ensures |s.calls| < |s.puts| && s.puts[|s.calls|].item == Stop
    ensures forall i :: 0 <= i < |s.calls| ==> s.puts[i].item == Deliver(s.calls[i])
  {
    var n := |s.calls|;
    assert Items(s.puts)[n] == Stop;
    forall i | 0 <= i < n
      ensures s.puts[i].item == Deliver(s.calls[i])
    {
      assert Items(s.puts)[i] == Delivers(s.calls)[i];
    }
  }

  /** Every press the reader saw is returned by `read_button_event` once and in order,
      the rest is still waiting, and two presses never come back to back. */
  lemma PressesReadOnce(steps: seq<Step>)
    ensures var s := Run(INITIAL, steps);
            && s.presses == NonZero(s.polls) + s.buttons.queue
            && ZeroBetween(s.polls)
  {
    EveryRunKeepsInv(steps);
  }

  // ---- The dispatcher left alone ----

  function DispatcherStep(pc: DispatcherPc, raises: Event -> bool): Step {
    match pc
    case Waiting => DispatcherGet
    case Got(item) => if item.Stop? then DispatcherExit else DispatcherCount
    case Counted(_) => DispatcherCall
    case Running(e) => DispatcherReturn(raises(e))
    case _ => DispatcherExit
  }

  function Rank(pc: DispatcherPc): nat {
    match pc
    case Got(_) => 4
    case Counted(_) => 3
    case Exiting => 3
    case Running(_) => 2
    case Waiting => 1
    case Dead => 0
  }

  /** Only the dispatcher moves, until it has stopped or waits on an empty queue. */
  function Drain(s: State, raises: Event -> bool): State
    decreases |s.queue|, Rank(s.dispatcher)
  {
    if s.dispatcher.Dead? || (s.dispatcher.Waiting? && s.queue == []) then s
    else Drain(Next(s, DispatcherStep(s.dispatcher, raises)), raises)
  }

  lemma {:induction false} DrainKeeps(s: State, raises: Event -> bool)
    requires QueueInv(s)
    ensures var t := Drain(s, raises);
            && QueueInv(t) && t.puts == s.puts
            && t.readerCalls == s.readerCalls && t.otherCalls == s.otherCalls
            && (t.dispatcher.Dead? || (t.dispatcher.Waiting? && t.queue == []))
    decreases |s.queue|, Rank(s.dispatcher)
  {
    hide QueueInv;
    if !(s.dispatcher.Dead? || (s.dispatcher.Waiting? && s.queue == [])) {
      var step := DispatcherStep(s.dispatcher, raises);
      StepKeepsQueueInv(s, step);
      DrainKeeps(Next(s, step), raises);
    }
  }

  /** From any reachable state the dispatcher on its own delivers every event ahead of
      the first sentinel, whichever raise, and stops exactly when there is one. */
  lemma DispatcherAloneDeliversAll(steps: seq<Step>, raises: Event -> bool)
    ensures var s := Run(INITIAL, steps);
            var t := Drain(s, raises);
            && t.puts == s.puts && t.calls == EventsAhead(Items(s.puts))
            && t.dispatcherEvents == |t.calls|
            && (t.dispatcher.Dead? <==> Sealed(s.puts))
  {
    hide ButtonInv;
    hide ReaderInv;
    hide CloseInv;
    hide Run;
    hide Drain;
    EveryRunKeepsInv(steps);
    var s := Run(INITIAL, steps);
    DrainKeeps(s, raises);
    DrainedState(Drain(s, raises));
  }

  lemma DrainedState(t: State)
    requires QueueInv(t) && (t.dispatcher.Dead? || (t.dispatcher.Waiting? && t.queue == []))
    ensures t.calls == EventsAhead(Items(t.puts)) && (t.dispatcher.Dead? <==> Sealed(t.puts))
  {
    if t.dispatcher.Dead? {
      StopWasPut(t);
      DrainedItems(Items(t.puts), t.calls, t.queue);
    } else {
      assert Items(t.puts) == Delivers(t.calls) + [];
      EventsAheadOf(t.calls, []);
      assert t.calls + [] == t.calls;
      forall i | 0 <= i < |t.puts|
        ensures !t.puts[i].item.Stop?
      {
        assert Items(t.puts)[i] == Deliver(t.calls[i]);
      }
    }
  }

  lemma {:induction false} ItemsBehindEvents(events: seq<Event>, rest: seq<Item>)
    ensures ItemsBehind(Delivers(events) + rest) == ItemsBehind(rest)
  {
    var items := Delivers(events) + rest;
    if events == [] {
      assert items == rest;
    } else {
      assert items[1..] == Delivers(events[1..]) + rest;
      ItemsBehindEvents(events[1..], rest);
    }
  }

  /** What the dispatcher object does with a queue is what these steps do: the same
      calls, the same counters, the same rest, and the same end. */
  lemma DispatcherObjectIsARun(s: State, raises: Event -> bool)
    requires QueueInv(s) && s.dispatcher.Waiting?
    ensures var t := Drain(s, raises);
            && t.calls == s.calls + EventsAhead(s.queue)
            && t.queue == ItemsBehind(s.queue)
            && t.dispatcherEvents == s.dispatcherEvents + |EventsAhead(s.queue)|
            && t.callbackCount == s.callbackCount + |EventsAhead(s.queue)|
            && (t.dispatcher.Dead? <==> Stop in s.queue)
  {
    hide Drain;
    hide Delivers;
    hide Items;
    DrainKeeps(s, raises);
    var t := Drain(s, raises);
    DrainedState(t);
    EventsAheadOf(s.calls, s.queue);
    ItemsBehindEvents(s.calls, s.queue);
    SealedInQueue(s);
    if t.dispatcher.Dead? {
      DrainedItems(Items(t.puts), t.calls, t.queue);
    } else {
      NothingBehind(s.queue);
    }
  }

  lemma {:induction false} NothingBehind(items: seq<Item>)
    requires Stop !in items
    ensures ItemsBehind(items) == []
  {
    if items != [] {
      assert items[0] in items;
      NothingBehind(items[1..]);
    }
  }

  /** A waiting dispatcher has met no sentinel: one was put exactly if one is queued. */
  lemma SealedInQueue(s: State)
    requires QueueInv(s) && s.dispatcher.Waiting?
    ensures Sealed(s.puts) <==> Stop in s.queue
  {
    var n := |s.calls|;
    assert Items(s.puts) == Delivers(s.calls) + s.queue;
    assert forall k :: 0 <= k < n ==> Items(s.puts)[k].Deliver?;
    if Sealed(s.puts) {
      var p :| p in s.puts && p.item.Stop?;
      var i :| 0 <= i < |s.puts| && s.puts[i] == p;
      assert Items(s.puts)[i] == Stop;
      assert s.queue[i - n] == Stop;
    }
    if Stop in s.queue {
      var j :| 0 <= j < |s.queue| && s.queue[j] == Stop;
      assert Items(s.puts)[n + j] == Stop;
      assert s.puts[n + j] in s.puts;
    }
  }

  // ---- Runs put together ----

  lemma RunSnoc(s: State, steps: seq<Step>, step: Step)
    ensures Run(s, steps + [step]) == Next(Run(s, steps), step)
  {
    assert (steps + [step])[..|steps|] == steps;
  }

  lemma {:induction false} RunConcat(s: State, a: seq<Step>, b: seq<Step>)
    ensures Run(s, a + b) == Run(Run(s, a), b)
  {
    hide Next;
    if b == [] {
      assert a + b == a;
    } else {
      var last := |b| - 1;
      RunConcat(s, a, b[..last]);
      assert a + b == (a + b[..last]) + [b[last]];
      RunSnoc(s, a + b[..last], b[last]);
    }
  }

  lemma RunTwo(s: State, first: Step, second: Step)
    ensures Run(s, [first, second]) == Next(Next(s, first), second)
  {
    hide Next;
    RunSnoc(s, [], first);
    RunSnoc(s, [first], second);
    assert [] + [first] == [first] && [first] + [second] == [first, second];
  }

  // ---- One thread left alone ----

  lemma RunThree(s: State, a: Step, b: Step, c: Step)
    ensures Run(s, [a, b, c]) == Next(Next(Next(s, a), b), c)
  {
    hide Next;
    RunTwo(s, a, b);
    RunSnoc(s, [a, b], c);
    assert [a, b] + [c] == [a, b, c];
  }

  /** A web submission that nothing overtakes: accepted for the two buttons, from the
      web, while the dispatcher lives and no stop was requested; then queued. */
  lemma SubmissionAlone(s: State, t: nat, mask: int, fromWeb: bool, raised: bool)
    requires t !in s.webs
    ensures var e := Run(s, [WebSubmit(t, mask, fromWeb), WebDecide(t), WebHandOver(t, raised)]);
            if (mask == 1 || mask == 2) && fromWeb && s.dispatcherSet && !s.dispatcher.Dead? && !s.stopRequested
            then
              var press := Deliver(Event(SwitchStatus, Value(mask)));
              e == s.(queue := s.queue + [press], puts := s.puts + [Put(press, FromWeb)])
            else e == s
  {
    RunThree(s, WebSubmit(t, mask, fromWeb), WebDecide(t), WebHandOver(t, raised));
    var e := Run(s, [WebSubmit(t, mask, fromWeb), WebDecide(t), WebHandOver(t, raised)]);
    hide Run;
    assert e.webs == s.webs;
  }

  /** A submission that finds the dispatcher gone after it was accepted calls the handler
      on its own thread. */
  lemma LateSubmission(s: State, t: nat, raised: bool)
    requires t in s.webs && s.webs[t].WebDeciding? && (!s.dispatcherSet || s.dispatcher.Dead?)
    ensures Run(s, [WebDecide(t), WebHandOver(t, raised)])
         == s.(otherCalls := s.otherCalls + [s.webs[t].event], callbackCount := s.callbackCount + 1,
               callbackErrors := s.callbackErrors + (if raised then 1 else 0), webs := s.webs - {t})
  {
    RunTwo(s, WebDecide(t), WebHandOver(t, raised));
    var e := Run(s, [WebDecide(t), WebHandOver(t, raised)]);
    hide Run;
    assert e.webs == s.webs - {t};
  }

  /** A reply that nothing overtakes is counted and recorded, and its event, if it has
      one, is at hand. */
  lemma ReplyAlone(s: State, r: Reply)
    requires s.reader.Reading?
    ensures var e := ReplyEvent(r);
            Run(s, [ReaderReply(r), ReaderCount, ReaderRecord])
            == s.(replies := s.replies + 1, buttons := RecordReply(s.buttons, r),
                  presses := s.presses + (if Press(r) > 0 then [Press(r)] else []),
                  decoded := s.decoded + (if e.Some? then [e.value] else []),
                  reader := if e.Some? then Deciding(e.value) else Idle)
  {
    hide RecordReply;
    hide ReplyEvent;
    hide Press;
    RunThree(s, ReaderReply(r), ReaderCount, ReaderRecord);
    hide Run;
  }

  /** Between replies the reader looks for a stop request, and goes on without a reply
      when there was none to read. */
  lemma ReaderLoops(s: State)
    ensures s.reader.Idle? && s.stopRequested ==> Next(s, ReaderCheck) == s.(reader := Ended)
    ensures s.reader.Idle? && !s.stopRequested ==> Next(s, ReaderCheck) == s.(reader := Reading)
    ensures s.reader.Reading? ==> Next(s, ReaderNothing) == s.(reader := Idle)
  {
  }

  /** It then goes behind what is queued, or is handled at once when the dispatcher is gone. */
  lemma EventHandedOver(s: State, raised: bool)
    requires s.reader.Deciding?
    ensures var e, event := Run(s, [ReaderDecide, ReaderHandOver(raised)]), s.reader.event;
            if s.dispatcherSet && !s.dispatcher.Dead?
            then
              e == s.(queue := s.queue + [Deliver(event)], puts := s.puts + [Put(Deliver(event), FromReader)], reader := Idle)
            else
              e == s.(readerCalls := s.readerCalls + [event], callbackCount := s.callbackCount + 1,
                      callbackErrors := s.callbackErrors + (if raised then 1 else 0), reader := Idle)
  {
    RunTwo(s, ReaderDecide, ReaderHandOver(raised));
    hide Run;
  }

  lemma CloserIsBusy(s: State, t: nat)
    requires t in s.closers
    ensures Next(s, CloseBegin(t)) == s
  {
  }

  /** A `close` that nothing overtakes: the stop is requested, the sentinel goes behind
      what is queued exactly when there is a live dispatcher, which is then forgotten. */
  lemma CloseAlone(s: State, t: nat)
    requires t !in s.closers
    ensures var a := Run(s, [CloseBegin(t), CloseJoined(t), CloseCheck(t)]);
            var e := Run(a, [CloseSeal(t), CloseEnd(t)]);
            && e.stopRequested && !e.dispatcherSet && e.dispatcher == s.dispatcher
            && (if s.dispatcherSet && !s.dispatcher.Dead?
                then e.queue == s.queue + [Stop] && e.puts == s.puts + [Put(Stop, FromClose(s.reader.Ended?))]
                else e.queue == s.queue && e.puts == s.puts)
  {
    RunThree(s, CloseBegin(t), CloseJoined(t), CloseCheck(t));
    var a := Run(s, [CloseBegin(t), CloseJoined(t), CloseCheck(t)]);
    RunTwo(a, CloseSeal(t), CloseEnd(t));
    hide Run;
  }

  /** One turn of the dispatcher that nothing overtakes: the oldest event is counted,
      handled once and its raise counted; the sentinel ends it. */
  lemma DispatchAlone(s: State, raised: bool)
    requires s.dispatcher.Waiting? && s.queue != []
    ensures var a := Run(s, [DispatcherGet, DispatcherCount, DispatcherCall]);
            var e := Next(a, DispatcherReturn(raised));
            s.queue[0].Deliver? ==>
              e == s.(queue := s.queue[1..], calls := s.calls + [s.queue[0].event],
                      dispatcherEvents := s.dispatcherEvents + 1, callbackCount := s.callbackCount + 1,
                      callbackErrors := s.callbackErrors + if raised then 1 else 0)
    ensures var e := Run(s, [DispatcherGet, DispatcherExit, DispatcherExit]);
            s.queue[0].Stop? ==> e == s.(queue := s.queue[1..], dispatcher := Dead)
  {
    RunThree(s, DispatcherGet, DispatcherCount, DispatcherCall);
    RunThree(s, DispatcherGet, DispatcherExit, DispatcherExit);
    hide Run;
  }

  // ---- A submission overtaken by close ----

  const LATE := Event(SwitchStatus, Value(1))
  const ACCEPT: seq<Step> := [WebSubmit(0, 1, true), WebDecide(0)]
  const BEGIN: seq<Step> := [CloseBegin(0), CloseJoined(0)]
  const SEAL: seq<Step> := [CloseCheck(0), CloseSeal(0)]
  const LAND: seq<Step> := [WebHandOver(0, false), DispatcherGet]
  const LEAVE: seq<Step> := [DispatcherExit, DispatcherExit]
  const OVERTAKEN := ACCEPT + BEGIN + SEAL + LAND + LEAVE

  lemma OvertakenPhases()
    ensures Run(INITIAL, OVERTAKEN) == Run(Run(Run(Run(Run(INITIAL, ACCEPT), BEGIN), SEAL), LAND), LEAVE)
  {
    RunConcat(INITIAL, ACCEPT, BEGIN);
    RunConcat(INITIAL, ACCEPT + BEGIN, SEAL);
    RunConcat(INITIAL, ACCEPT + BEGIN + SEAL, LAND);
    RunConcat(INITIAL, ACCEPT + BEGIN + SEAL + LAND, LEAVE);
    hide Run;
  }

  lemma AcceptedThenClosed(s: State)
    requires s == Run(Run(INITIAL, ACCEPT), BEGIN)
    ensures s == INITIAL.(webs := map[0 := WebPutting(LATE)], stopRequested := true,
                          closers := map[0 := Checking(true, false)])
  {
    RunTwo(INITIAL, ACCEPT[0], ACCEPT[1]);
    var accepted := Run(INITIAL, ACCEPT);
    assert accepted.webs == map[0 := WebPutting(LATE)];
    RunTwo(accepted, BEGIN[0], BEGIN[1]);
    assert s.closers == map[0 := Checking(true, false)];
  }

  lemma ThenSealed(s: State)
    requires s == INITIAL.(webs := map[0 := WebPutting(LATE)], stopRequested := true,
                           closers := map[0 := Checking(true, false)])
    ensures var t := Run(s, SEAL);
            t == s.(queue := [Stop], puts := [Put(Stop, FromClose(false))], closers := map[0 := Ending])
  {
    RunTwo(s, SEAL[0], SEAL[1]);
    assert Run(s, SEAL).closers == map[0 := Ending];
  }

  lemma ThenLanded(s: State)
    requires s.webs == map[0 := WebPutting(LATE)] && s.dispatcher.Waiting? && s.calls == s.otherCalls == []
    requires s.queue == [Stop] && s.puts == [Put(Stop, FromClose(false))]
    ensures var t := Run(s, LAND);
            && t.dispatcher == Got(Stop) && t.calls == t.otherCalls == [] && t.webs == map[]
            && t.puts == [Put(Stop, FromClose(false)), Put(Deliver(LATE), FromWeb)]
  {
    hide Run;
    RunTwo(s, LAND[0], LAND[1]);
    assert Next(s, LAND[0]).queue == [Stop, Deliver(LATE)];
  }

  lemma OvertakenState()
    ensures var s := Run(INITIAL, OVERTAKEN);
            && s.dispatcher.Dead? && s.calls == [] && s.otherCalls == [] && s.webs == map[]
            && s.puts == [Put(Stop, FromClose(false)), Put(Deliver(LATE), FromWeb)]
  {
    hide Run;
    OvertakenPhases();
    var s := Run(Run(INITIAL, ACCEPT), BEGIN);
    AcceptedThenClosed(s);
    ThenSealed(s);
    ThenLanded(Run(s, SEAL));
    var t := Run(Run(s, SEAL), LAND);
    RunTwo(t, LEAVE[0], LEAVE[1]);
  }

  predicate StillDead(s: State, t: State) {
    && t.dispatcher.Dead? && t.calls == s.calls && s.puts <= t.puts
    && (s.webs == map[] ==> t.webs == map[] && t.otherCalls == s.otherCalls)
  }

  lemma DeadReaderStep(s: State, step: Step)
    requires s.dispatcher.Dead?
    ensures StillDead(s, ReaderNext(s, step))
  {
    hide RecordReply;
    hide ReplyEvent;
  }

  lemma DeadStays(s: State, step: Step)
    requires s.dispatcher.Dead?
    ensures StillDead(s, Next(s, step))
  {
    hide ReaderNext;
    hide Poll;
    DeadReaderStep(s, step);
  }

  /** A web press accepted before `close` began can be put behind the sentinel: the
      submitter is told it was queued, and however the run goes on neither the
      dispatcher nor any submitter ever calls the handler. */
  lemma {:induction false} AcceptedPressCanBeLost(more: seq<Step>)
    ensures var s := Run(INITIAL, OVERTAKEN + more);
            && s.dispatcher.Dead? && s.calls == [] && s.otherCalls == [] && s.webs == map[]
            && |s.puts| >= 2 && s.puts[1] == Put(Deliver(LATE), FromWeb)
  {
    hide Next;
    hide Run;
    if more == [] {
      OvertakenState();
      assert OVERTAKEN + more == OVERTAKEN;
    } else {
      var last := |more| - 1;
      AcceptedPressCanBeLost(more[..last]);
      var start := OVERTAKEN;
      assert start + more == (start + more[..last]) + [more[last]];
      RunSnoc(INITIAL, start + more[..last], more[last]);
      DeadStays(Run(INITIAL, start + more[..last]), more[last]);
    }
  }
}
