/** Many threads writing to one panel: every interleaving of their steps under the
    write lock, with failures, a stop request and a close at any moment. */
module WireTrace {
  import opened Core
  import opened A125
  import opened Panel

  /** One call of the guarded transport. */
  datatype Txn = Txn(thread: nat, commands: seq<Command>, flush: bool)

  predicate ValidTxn(t: Txn) {
    forall c :: c in t.commands ==> ValidCommand(c)
  }

  datatype Outcome = Succeeded | StoppedInDrain | DrainRaised | WriteRaised

  /** A finished transaction and the bytes of it that went out. */
  datatype Entry = Entry(txn: Txn, sent: bytes, outcome: Outcome)

  /** The transaction that holds the lock and the number of its parts written. */
  datatype Active = Active(txn: Txn, next: nat)

  /** `granted` records the order in which the lock was taken. */
  datatype State = State(wire: bytes, attached: bool, deviceOpen: bool, stopping: bool,
                         holder: Option<Active>, log: seq<Entry>, granted: seq<Txn>)

  const INITIAL := State([], true, true, false, None, [], [])

  datatype Step =
    | Begin(txn: Txn)
    | WritePart
    | WriteRaises(taken: nat)
    | Finish
    | DrainCall(result: Drain)
    | RequestStop
    | CloseDevice
    | Detach

  /** One step of one thread; a step that cannot happen changes nothing. */
  function Next(s: State, step: Step): State {
    match step
    case Begin(t) =>
      if s.holder.None? && s.attached && ValidTxn(t)
      then s.(holder := Some(Active(t, 0)), granted := s.granted + [t]) else s
    case RequestStop => s.(stopping := true)
    case CloseDevice => s.(deviceOpen := false)
    case Detach => s.(attached := false)
    case _ =>
      if s.holder.None? || !ValidTxn(s.holder.value.txn) then s else HolderStep(s, s.holder.value, step)
  }

  /** Asking for a stop, closing the device and letting go of it touch nothing else, and
      none of them is ever taken back. */
  lemma MarksStay(s: State, step: Step)
    ensures Next(s, RequestStop) == s.(stopping := true) && Next(s, CloseDevice) == s.(deviceOpen := false)
    ensures Next(s, Detach) == s.(attached := false)
    ensures s.stopping ==> Next(s, step).stopping
    ensures !s.deviceOpen ==> !Next(s, step).deviceOpen
    ensures !s.attached ==> !Next(s, step).attached
  {
  }

  function Release(s: State, a: Active, sent: bytes, outcome: Outcome): State {
    s.(holder := None, log := s.log + [Entry(a.txn, sent, outcome)])
  }

  function HolderStep(s: State, a: Active, step: Step): State
    requires ValidTxn(a.txn)
  {
    var parts := Parts(a.txn.commands);
    match step
    case WritePart =>
      if a.next < |parts| && s.deviceOpen
      then s.(wire := s.wire + parts[a.next], holder := Some(a.(next := a.next + 1))) else s
    case WriteRaises(taken) =>
      if a.next < |parts| && taken <= |parts[a.next]|
      then
        var got := parts[a.next][..taken];
        Release(s.(wire := s.wire + got), a, Flatten(parts[..a.next]) + got, WriteRaised)
      else s
    case Finish =>
      if a.next == |parts| && !a.txn.flush then Release(s, a, Flatten(parts), Succeeded) else s
    case DrainCall(result) =>
      if a.next != |parts| || !a.txn.flush then s
      else (match result
        case Drained => Release(s, a, Flatten(parts), Succeeded)
        case DrainFails => Release(s, a, Flatten(parts), DrainRaised)
        case Interrupted => if s.stopping then Release(s, a, Flatten(parts), StoppedInDrain) else s)
    case _ => s
  }

  function Run(s: State, steps: seq<Step>): State {
    if steps == [] then s else Next(Run(s, steps[..|steps| - 1]), steps[|steps| - 1])
  }

  // ---- The invariant ----

  function SentAll(log: seq<Entry>): bytes {
    if log == [] then [] else SentAll(log[..|log| - 1]) + log[|log| - 1].sent
  }

  function Txns(log: seq<Entry>): seq<Txn> {
    if log == [] then [] else Txns(log[..|log| - 1]) + [log[|log| - 1].txn]
  }

  function HolderSent(holder: Option<Active>): bytes {
    if holder.Some? && ValidTxn(holder.value.txn) && holder.value.next <= |Parts(holder.value.txn.commands)|
    then Flatten(Parts(holder.value.txn.commands)[..holder.value.next]) else []
  }

  function Holding(holder: Option<Active>): seq<Txn> {
    if holder.Some? then [holder.value.txn] else []
  }

  function Whole(t: Txn): bytes
    requires ValidTxn(t)
  {
    EncodeAll(t.commands)
  }

  predicate GoodEntry(e: Entry) {
    && ValidTxn(e.txn)
    && e.sent <= Whole(e.txn)
    && (e.outcome != WriteRaised ==> e.sent == Whole(e.txn))
  }

  /** The wire is what each transaction sent, in the order the lock was granted, and
      then what the present holder has written so far. */
  predicate Inv(s: State) {
    && s.wire == SentAll(s.log) + HolderSent(s.holder)
    && s.granted == Txns(s.log) + Holding(s.holder)
    && (forall e :: e in s.log ==> GoodEntry(e))
    && (s.holder.Some? ==> ValidTxn(s.holder.value.txn) && s.holder.value.next <= |Parts(s.holder.value.txn.commands)|)
  }

  lemma LogSnoc(log: seq<Entry>, e: Entry)
    ensures SentAll(log + [e]) == SentAll(log) + e.sent && Txns(log + [e]) == Txns(log) + [e.txn]
  {
    assert (log + [e])[..|log|] == log;
  }

  lemma PrefixOfWhole(t: Txn, n: nat, k: nat)
    requires ValidTxn(t) && n < |Parts(t.commands)| && k <= |Parts(t.commands)[n]|
    ensures Flatten(Parts(t.commands)[..n]) + Parts(t.commands)[n][..k] <= Whole(t)
  {
    var parts := Parts(t.commands);
    PartsEncode(t.commands);
    FlattenTake(parts, n);
    FlattenAppend(parts[..n + 1], parts[n + 1..]);
    assert parts[..n + 1] + parts[n + 1..] == parts;
    assert parts[n][..k] <= parts[n];
  }

  lemma ReleaseKeepsInv(s: State, a: Active, sent: bytes, outcome: Outcome)
    requires s.holder == Some(a) && ValidTxn(a.txn)
    requires s.wire == SentAll(s.log) + sent && s.granted == Txns(s.log) + [a.txn]
    requires (forall e :: e in s.log ==> GoodEntry(e)) && GoodEntry(Entry(a.txn, sent, outcome))
    ensures Inv(Release(s, a, sent, outcome))
  {
    hide GoodEntry;
    LogSnoc(s.log, Entry(a.txn, sent, outcome));
  }

  lemma StepKeepsInv(s: State, step: Step)
    requires Inv(s)
    ensures Inv(Next(s, step))
  {
    hide GoodEntry;
    match step
    case Begin(t) =>
      if Next(s, step) != s {
        assert Parts(t.commands)[..0] == [];
      }
    case RequestStop =>
    case CloseDevice =>
    case Detach =>
    case _ =>
      if s.holder.Some? {
        HolderStepKeepsInv(s, s.holder.value, step);
      }
  }

  lemma HolderStepKeepsInv(s: State, a: Active, step: Step)
    requires Inv(s) && s.holder == Some(a)
    ensures Inv(HolderStep(s, a, step))
  {
    hide GoodEntry;
    hide Inv;
    match step
    case WritePart => WriteKeepsInv(s, a);
    case WriteRaises(taken) => RaiseKeepsInv(s, a, taken);
    case Finish => FullRelease(s, a, Succeeded);
    case DrainCall(result) =>
      FullRelease(s, a, Succeeded);
      FullRelease(s, a, DrainRaised);
      FullRelease(s, a, StoppedInDrain);
    case _ =>
  }

  lemma WriteKeepsInv(s: State, a: Active)
    requires Inv(s) && s.holder == Some(a)
    ensures Inv(HolderStep(s, a, WritePart))
  {
    hide GoodEntry;
    hide SentAll;
    hide Txns;
    hide Parts;
    hide ValidCommand;
    hide Flatten;
    var parts := Parts(a.txn.commands);
    if a.next < |parts| && s.deviceOpen {
      FlattenTake(parts, a.next);
      assert s.wire + parts[a.next] == SentAll(s.log) + Flatten(parts[..a.next + 1]);
    }
  }

  lemma RaiseKeepsInv(s: State, a: Active, taken: nat)
    requires Inv(s) && s.holder == Some(a)
    ensures Inv(HolderStep(s, a, WriteRaises(taken)))
  {
    hide SentAll;
    hide Txns;
    hide Parts;
    hide ValidCommand;
    hide EncodeAll;
    hide Flatten;
    var parts := Parts(a.txn.commands);
    if a.next < |parts| && taken <= |parts[a.next]| {
      var got := parts[a.next][..taken];
      PrefixOfWhole(a.txn, a.next, taken);
      assert s.wire + got == SentAll(s.log) + (Flatten(parts[..a.next]) + got);
      ReleaseKeepsInv(s.(wire := s.wire + got), a, Flatten(parts[..a.next]) + got, WriteRaised);
    }
  }

  lemma FullRelease(s: State, a: Active, outcome: Outcome)
    requires Inv(s) && s.holder == Some(a)
    ensures a.next == |Parts(a.txn.commands)| ==> Inv(Release(s, a, Flatten(Parts(a.txn.commands)), outcome))
  {
    var parts := Parts(a.txn.commands);
    if a.next == |parts| {
      assert parts[..a.next] == parts;
      PartsEncode(a.txn.commands);
      ReleaseKeepsInv(s, a, Flatten(parts), outcome);
    }
  }

  /** The invariant holds in every state of every interleaving. */
  lemma {:induction false} EveryRunKeepsInv(steps: seq<Step>)
    ensures Inv(Run(INITIAL, steps))
  {
    if steps != [] {
      EveryRunKeepsInv(steps[..|steps| - 1]);
      StepKeepsInv(Run(INITIAL, steps[..|steps| - 1]), steps[|steps| - 1]);
    }
  }

  // ---- Whole transactions ----

  /** Every finished transaction went out in full; only a raising write can prevent it. */
  predicate AllWhole(log: seq<Entry>) {
    forall e :: e in log ==> WholeEntry(e)
  }

  predicate WholeEntry(e: Entry) {
    ValidTxn(e.txn) && e.sent == Whole(e.txn)
  }

  function Commands(ts: seq<Txn>): seq<Command> {
    if ts == [] then [] else Commands(ts[..|ts| - 1]) + ts[|ts| - 1].commands
  }

  lemma {:induction false} EncodeAppend(cs: seq<Command>, ds: seq<Command>)
    requires (forall c :: c in cs ==> ValidCommand(c)) && (forall d :: d in ds ==> ValidCommand(d))
    ensures EncodeAll(cs + ds) == EncodeAll(cs) + EncodeAll(ds)
  {
    hide EncodeCommand;
    hide ValidCommand;
    if cs == [] {
      assert cs + ds == ds;
    } else {
      EncodeAppend(cs[1..], ds);
      assert (cs + ds)[1..] == cs[1..] + ds;
    }
  }

  lemma CommandsSnoc(log: seq<Entry>, e: Entry)
    ensures Commands(Txns(log + [e])) == Commands(Txns(log)) + e.txn.commands
  {
    LogSnoc(log, e);
    var ts := Txns(log);
    hide Txns;
    assert (ts + [e.txn])[..|ts|] == ts;
  }

  predicate AllValid(cs: seq<Command>) {
    forall c :: c in cs ==> ValidCommand(c)
  }

  lemma {:induction false} LogBytes(log: seq<Entry>)
    requires forall e :: e in log ==> GoodEntry(e)
    ensures AllValid(Commands(Txns(log)))
    ensures |SentAll(log)| <= |EncodeAll(Commands(Txns(log)))|
    ensures |SentAll(log)| == |EncodeAll(Commands(Txns(log)))| <==> AllWhole(log)
    ensures AllWhole(log) ==> SentAll(log) == EncodeAll(Commands(Txns(log)))
  {
    hide EncodeAll;
    hide ValidCommand;
    hide WholeEntry;
    hide GoodEntry;
    hide AllWhole;
    hide Commands;
    hide SentAll;
    hide Txns;
    if log == [] {
      EmptyLog();
    } else {
      var init, e := log[..|log| - 1], log[|log| - 1];
      assert log == init + [e];
      LogBytes(init);
      LogSnoc(init, e);
      CommandsSnoc(init, e);
      WholeSnoc(init, e);
      EntryBytes(e);
      EncodeAppend(Commands(Txns(init)), e.txn.commands);
    }
  }

  lemma EmptyLog()
    ensures Commands(Txns([])) == [] && SentAll([]) == [] && EncodeAll([]) == [] && AllWhole([])
  {
  }

  lemma EntryBytes(e: Entry)
    requires GoodEntry(e)
    ensures forall c :: c in e.txn.commands ==> ValidCommand(c)
    ensures |e.sent| <= |EncodeAll(e.txn.commands)|
    ensures WholeEntry(e) <==> |e.sent| == |EncodeAll(e.txn.commands)|
    ensures WholeEntry(e) ==> e.sent == EncodeAll(e.txn.commands)
  {
  }

  /** A write that raises while some bytes of its transaction have not gone out. */
  predicate Cuts(s: State, step: Step) {
    && step.WriteRaises? && s.holder.Some? && ValidTxn(s.holder.value.txn)
    && var parts := Parts(s.holder.value.txn.commands);
       && s.holder.value.next < |parts| && step.taken <= |parts[s.holder.value.next]|
       && step.taken < |Flatten(parts[s.holder.value.next..])|
  }

  /** No write of the run raises in the middle of a transaction. */
  predicate NeverCut(steps: seq<Step>) {
    forall i :: 0 <= i < |steps| ==> !Cuts(Run(INITIAL, steps[..i]), steps[i])
  }

  /** What a raising write leaves is whole exactly when nothing was outstanding. */
  lemma RaisedIsWhole(a: Active, taken: nat)
    requires ValidTxn(a.txn) && a.next < |Parts(a.txn.commands)| && taken <= |Parts(a.txn.commands)[a.next]|
    ensures
      var parts := Parts(a.txn.commands);
      WholeEntry(Entry(a.txn, Flatten(parts[..a.next]) + parts[a.next][..taken], WriteRaised))
      <==> taken >= |Flatten(parts[a.next..])|
  {
    hide Parts;
    hide EncodeAll;
    hide ValidCommand;
    var parts := Parts(a.txn.commands);
    PrefixOfWhole(a.txn, a.next, taken);
    PartsEncode(a.txn.commands);
    FlattenAppend(parts[..a.next], parts[a.next..]);
    assert parts[..a.next] + parts[a.next..] == parts;
    var sent := Flatten(parts[..a.next]) + parts[a.next][..taken];
    assert |sent| == |Flatten(parts[..a.next])| + taken;
    assert sent == Whole(a.txn) <==> |sent| >= |Whole(a.txn)|;
  }

  lemma WholeSnoc(log: seq<Entry>, e: Entry)
    ensures AllWhole(log + [e]) <==> AllWhole(log) && WholeEntry(e)
  {
    hide WholeEntry;
    assert e in log + [e] && forall d :: d in log ==> d in log + [e];
  }

  lemma FullIsWhole(t: Txn, outcome: Outcome)
    requires ValidTxn(t)
    ensures WholeEntry(Entry(t, Flatten(Parts(t.commands)), outcome))
  {
    PartsEncode(t.commands);
  }

  /** A step keeps the log whole exactly when it cuts no transaction. */
  lemma StepWhole(s: State, step: Step)
    requires s.holder.Some? ==> ValidTxn(s.holder.value.txn)
    ensures AllWhole(Next(s, step).log) <==> AllWhole(s.log) && !Cuts(s, step)
  {
    hide AllWhole;
    hide WholeEntry;
    hide Parts;
    hide Flatten;
    hide ValidCommand;
    if s.holder.Some? {
      var a := s.holder.value;
      var parts := Parts(a.txn.commands);
      match step
      case WriteRaises(taken) =>
        if a.next < |parts| && taken <= |parts[a.next]| {
          RaisedIsWhole(a, taken);
          WholeSnoc(s.log, Entry(a.txn, Flatten(parts[..a.next]) + parts[a.next][..taken], WriteRaised));
        }
      case Finish =>
        FullIsWhole(a.txn, Succeeded);
        WholeSnoc(s.log, Entry(a.txn, Flatten(parts), Succeeded));
      case DrainCall(result) =>
        var outcome := if result.Drained? then Succeeded else if result.DrainFails? then DrainRaised else StoppedInDrain;
        FullIsWhole(a.txn, outcome);
        WholeSnoc(s.log, Entry(a.txn, Flatten(parts), outcome));
      case _ =>
    }
  }

  lemma NeverCutSnoc(steps: seq<Step>, step: Step)
    ensures NeverCut(steps + [step]) <==> NeverCut(steps) && !Cuts(Run(INITIAL, steps), step)
  {
    hide Cuts;
    hide Run;
    var more := steps + [step];
    assert more[..|steps|] == steps && more[|steps|] == step;
    assert forall i :: 0 <= i < |steps| ==> more[..i] == steps[..i] && more[i] == steps[i];
  }

  /** Every finished transaction is whole exactly when no write raised in the middle of one. */
  lemma {:induction false} WholeExactlyWhenNeverCut(steps: seq<Step>)
    ensures AllWhole(Run(INITIAL, steps).log) <==> NeverCut(steps)
  {
    hide Next;
    hide Cuts;
    hide AllWhole;
    if steps == [] {
      NothingLogged();
    } else {
      var last := |steps| - 1;
      var before := steps[..last];
      assert steps == before + [steps[last]];
      WholeExactlyWhenNeverCut(before);
      EveryRunKeepsInv(before);
      StepWhole(Run(INITIAL, before), steps[last]);
      NeverCutSnoc(before, steps[last]);
    }
  }

  lemma NothingLogged()
    ensures AllWhole(INITIAL.log)
  {
  }

  /** The wire is whole transactions in lock order, followed by what the holder has
      written, exactly when no write raised in the middle of a transaction. */
  lemma WholeTransactionsExactlyWhen(steps: seq<Step>)
    ensures
      var s := Run(INITIAL, steps);
      && AllValid(Commands(Txns(s.log)))
      && s.granted == Txns(s.log) + Holding(s.holder)
      && (s.wire == EncodeAll(Commands(Txns(s.log))) + HolderSent(s.holder) <==> NeverCut(steps))
  {
    hide NeverCut;
    hide AllWhole;
    WholeExactlyWhenNeverCut(steps);
    EveryRunKeepsInv(steps);
    var s := Run(INITIAL, steps);
    LogBytes(s.log);
    var whole, sent, rest := EncodeAll(Commands(Txns(s.log))), SentAll(s.log), HolderSent(s.holder);
    if sent + rest == whole + rest {
      assert |sent + rest| == |whole + rest|;
    }
  }

  lemma {:induction false} SplitPrefix(cs: seq<Command>, w: bytes) returns (k: nat, tail: bytes)
    requires (forall c :: c in cs ==> ValidCommand(c)) && w <= EncodeAll(cs)
    ensures k <= |cs| && Unfinished(tail) && w == EncodeAll(cs[..k]) + tail
  {
    hide EncodeCommand;
    hide ValidCommand;
    hide Unfinished;
    if cs == [] {
      k, tail := 0, w;
      NothingIsUnfinished();
      assert EncodeAll(cs[..0]) + w == w;
    } else {
      var e := EncodeCommand(cs[0]);
      if |w| < |e| {
        k, tail := 0, w;
        assert w < e;
        PrefixIsUnfinished(cs[0], w);
        assert cs[..0] == [] && [] + w == w;
      } else {
        var rest := w[|e|..];
        DropsHead(e, w, EncodeAll(cs[1..]));
        var n;
        n, tail := SplitPrefix(cs[1..], rest);
        k := n + 1;
        assert cs[..k] == [cs[0]] + cs[1..][..n];
        EncodeAllCons(cs[0], cs[1..][..n]);
        hide EncodeAll;
        assert e + (EncodeAll(cs[1..][..n]) + tail) == EncodeAll(cs[..k]) + tail;
      }
    }
  }

  lemma DropsHead(head: bytes, w: bytes, more: bytes)
    requires w <= head + more && |head| <= |w|
    ensures w == head + w[|head|..] && w[|head|..] <= more
  {
    assert head == (head + more)[..|head|] && more == (head + more)[|head|..];
  }

  lemma NothingIsUnfinished()
    ensures Unfinished([])
  {
  }

  /** An unfinished tail stops short of the next command. */
  lemma TailStopsShort(cs: seq<Command>, k: nat, w: bytes, tail: bytes)
    requires (forall c :: c in cs ==> ValidCommand(c)) && k < |cs| && w <= EncodeAll(cs)
    requires Unfinished(tail) && w == EncodeAll(cs[..k]) + tail
    ensures |w| < |EncodeAll(cs[..k + 1])|
  {
    hide EncodeCommand;
    hide ValidCommand;
    hide Unfinished;
    hide TakeCommand;
    var done, next, rest := EncodeAll(cs[..k]), EncodeCommand(cs[k]), EncodeAll(cs[k + 1..]);
    assert cs == cs[..k] + cs[k..] && cs[..k + 1] == cs[..k] + [cs[k]] && cs[k..][1..] == cs[k + 1..];
    EncodeAppend(cs[..k], cs[k..]);
    EncodeAppend(cs[..k], [cs[k]]);
    assert [cs[k]][1..] == [] && EncodeAll([cs[k]]) == next + EncodeAll([]);
    assert EncodeAll(cs) == done + (next + rest);
    DropsHead(done, w, next + rest);
    assert tail == w[|done|..];
    if |next| <= |tail| {
      DropsHead(next, tail, rest);
      TakeEncoded(cs[k], tail[|next|..]);
      TakeUnfinished(tail);
    }
  }

  /** The first `k` commands are those that have gone out whole. */
  predicate WentOutWhole(cs: seq<Command>, k: nat, sent: bytes)
    requires forall c :: c in cs ==> ValidCommand(c)
  {
    && k <= |cs| && EncodeAll(cs[..k]) <= sent
    && (k < |cs| ==> |sent| < |EncodeAll(cs[..k + 1])|)
  }

  /** The panel reads the commands of every finished transaction, in lock order and
      with none cut up by another, and then those of the holder's commands that have
      gone out whole so far. */
  lemma PanelReadsTransactions(steps: seq<Step>) returns (k: nat)
    requires NeverCut(steps)
    ensures
      var s := Run(INITIAL, steps);
      var current := Commands(Holding(s.holder));
      && (forall c :: c in current ==> ValidCommand(c))
      && WentOutWhole(current, k, HolderSent(s.holder))
      && ParseWire(s.wire).0 == Commands(Txns(s.log)) + current[..k]
  {
    hide NeverCut;
    var s := Run(INITIAL, steps);
    WholeExactlyWhenNeverCut(steps);
    EveryRunKeepsInv(steps);
    LogBytes(s.log);
    var done := Commands(Txns(s.log));
    if s.holder.None? {
      k := 0;
      WireRoundTrip(done, []);
      assert EncodeAll(done) + [] == EncodeAll(done);
      assert done + Commands(Holding(s.holder))[..0] == done;
    } else {
      HoldingCommands(s.holder.value);
      k := PanelReadsHolder(s.wire, done, s.holder.value);
    }
  }

  lemma PanelReadsHolder(wire: bytes, done: seq<Command>, a: Active) returns (k: nat)
    requires forall c :: c in done ==> ValidCommand(c)
    requires ValidTxn(a.txn) && a.next <= |Parts(a.txn.commands)| && wire == EncodeAll(done) + HolderSent(Some(a))
    ensures WentOutWhole(a.txn.commands, k, HolderSent(Some(a)))
    ensures ParseWire(wire).0 == done + a.txn.commands[..k]
  {
    hide EncodeAll;
    hide ValidCommand;
    hide Parts;
    hide Unfinished;
    var cs, sent := a.txn.commands, HolderSent(Some(a));
    HolderSentPrefix(a);
    var tail;
    k, tail := SplitPrefix(cs, sent);
    if k < |cs| { TailStopsShort(cs, k, sent, tail); }
    var some := cs[..k];
    EncodeAppend(done, some);
    assert EncodeAll(done) + (EncodeAll(some) + tail) == EncodeAll(done) + EncodeAll(some) + tail;
    assert wire == EncodeAll(done + some) + tail;
    WireRoundTrip(done + some, tail);
  }

  lemma HolderSentPrefix(a: Active)
    requires ValidTxn(a.txn) && a.next <= |Parts(a.txn.commands)|
    ensures HolderSent(Some(a)) <= EncodeAll(a.txn.commands)
  {
    hide EncodeAll;
    hide EncodeCommand;
    hide ValidCommand;
    hide Flatten;
    var parts := Parts(a.txn.commands);
    PartsEncode(a.txn.commands);
    FlattenAppend(parts[..a.next], parts[a.next..]);
    assert parts[..a.next] + parts[a.next..] == parts;
  }

  lemma HoldingCommands(a: Active)
    ensures Commands(Holding(Some(a))) == a.txn.commands
  {
    assert [a.txn][..0] == [];
    assert Commands([]) + a.txn.commands == a.txn.commands;
  }

  /** With nobody writing, the panel has read the finished transactions and no more. */
  lemma NothingHeld(steps: seq<Step>)
    requires NeverCut(steps) && Run(INITIAL, steps).holder.None?
    ensures ParseWire(Run(INITIAL, steps).wire).0 == Commands(Txns(Run(INITIAL, steps).log))
  {
    hide NeverCut;
    hide Run;
    hide ParseWire;
    hide Txns;
    hide HolderSent;
    var k := PanelReadsTransactions(steps);
    assert Commands(Holding(None)) == [];
  }

  /** Whatever else was going on, when the last two finished transactions are a
      clear and a frame, the panel shows the rows the frame's observer is told. */
  lemma FrameRightAfterClear(steps: seq<Step>, before: seq<Entry>, clear: Entry, frame: Entry, lines: seq<Line>,
                             blank: Screen)
    requires
      var s := Run(INITIAL, steps);
      NeverCut(steps) && s.holder.None? && s.log == before + [clear, frame]
    requires clear.txn.commands == [CLEAR] && frame.txn.commands == FrameCommands(lines)
    requires ValidScreen(blank)
    ensures Show(blank, ParseWire(Run(INITIAL, steps).wire).0) == FrameRows(lines)
  {
    hide *;
    var s := Run(INITIAL, steps);
    NothingHeld(steps);
    var earlier := Commands(Txns(before));
    CommandsSnoc(before, clear);
    CommandsSnoc(before + [clear], frame);
    assert s.log == before + [clear] + [frame];
    assert ParseWire(s.wire).0 == earlier + [CLEAR] + FrameCommands(lines);
    FrameAfterClear(blank, earlier, lines);
  }

  /** A write that raises leaves part of a packet behind, and the next transaction is
      then read as the rest of it: here a clear is swallowed by a cut display write. */
  lemma CutPacketSwallowsTheNext(steps: seq<Step>)
    requires steps == [Begin(Txn(1, [Write(0, [0x41, 0x42])], true)), WritePart, WriteRaises(0),
                       Begin(Txn(2, [CLEAR], false)), WritePart, Finish]
    ensures !NeverCut(steps)
    ensures ParseWire(Run(INITIAL, steps).wire).0 == [Write(0, [HOST_PREAMBLE, DISPLAY_CLEAR])]
  {
    hide Run;
    hide Next;
    hide Parts;
    hide AllWhole;
    hide NeverCut;
    RunSix(INITIAL, steps);
    WholeExactlyWhenNeverCut(steps);
    CutWire(steps[0].txn, steps[3].txn);
    var wire := Run(INITIAL, steps).wire;
    assert wire[6..] == [];
    assert wire[4..6] == [HOST_PREAMBLE, DISPLAY_CLEAR];
  }

  lemma CutWire(text: Txn, clear: Txn)
    requires text == Txn(1, [Write(0, [0x41, 0x42])], true) && clear == Txn(2, [CLEAR], false)
    ensures
      var s3 := Next(Next(Next(INITIAL, Begin(text)), WritePart), WriteRaises(0));
      var s6 := Next(Next(Next(s3, Begin(clear)), WritePart), Finish);
      && s6.wire == [HOST_PREAMBLE, DISPLAY_WRITE, 0, 2, HOST_PREAMBLE, DISPLAY_CLEAR]
      && !AllWhole(s6.log)
  {
    assert text.commands[1..] == [] && clear.commands[1..] == [];
    var parts := Parts(text.commands);
    assert parts == [[HOST_PREAMBLE, DISPLAY_WRITE, 0, 2], [0x41, 0x42]];
    assert Parts(clear.commands) == [[HOST_PREAMBLE, DISPLAY_CLEAR]];
    var s3 := Next(Next(Next(INITIAL, Begin(text)), WritePart), WriteRaises(0));
    FlattenTake(parts, 0);
    assert s3.log[0].sent == [HOST_PREAMBLE, DISPLAY_WRITE, 0, 2];
    var s6 := Next(Next(Next(s3, Begin(clear)), WritePart), Finish);
    assert s6.log[0] == s3.log[0];
    assert |Whole(text)| == 6;
    assert !WholeEntry(s6.log[0]);
  }

  lemma RunSix(s: State, t: seq<Step>)
    requires |t| == 6
    ensures Run(s, t) == Next(Next(Next(Next(Next(Next(s, t[0]), t[1]), t[2]), t[3]), t[4]), t[5])
  {
    hide Next;
    assert t[..6] == t;
    assert forall i :: 0 <= i < 6 ==> t[..i + 1][..i] == t[..i];
    assert t[..1][..0] == [];
    assert Run(s, t[..1]) == Next(s, t[0]);
    assert Run(s, t[..2]) == Next(Run(s, t[..1]), t[1]);
    assert Run(s, t[..3]) == Next(Run(s, t[..2]), t[2]);
    assert Run(s, t[..4]) == Next(Run(s, t[..3]), t[3]);
    assert Run(s, t[..5]) == Next(Run(s, t[..4]), t[4]);
  }

  // ---- One call left undisturbed ----

  lemma {:induction false} RunAppend(s: State, a: seq<Step>, b: seq<Step>)
    ensures Run(s, a + b) == Run(Run(s, a), b)
  {
    hide Next;
    if b == [] {
      assert a + b == a;
    } else {
      var last := |b| - 1;
      RunAppend(s, a, b[..last]);
      assert (a + b)[..|a + b| - 1] == a + b[..last] && (a + b)[|a + b| - 1] == b[last];
    }
  }

  lemma RunOne(s: State, step: Step)
    ensures Run(s, [step]) == Next(s, step)
  {
    hide Next;
    assert [step][..0] == [] && Run(s, []) == s;
  }

  function Writes(n: nat): seq<Step> {
    if n == 0 then [] else Writes(n - 1) + [WritePart]
  }

  /** The drain calls of one transaction, up to the one that decides. */
  function Drains(flushes: seq<Drain>, stopping: bool): seq<Step> {
    if flushes == [] then [DrainCall(Drained)]
    else if flushes[0].Interrupted? && !stopping then [DrainCall(Interrupted)] + Drains(flushes[1..], stopping)
    else [DrainCall(flushes[0])]
  }

  /** The steps of one call of the guarded transport that nothing interferes with. */
  function Undisturbed(t: Txn, w: Weather, stopping: bool): seq<Step>
    requires ValidTxn(t)
  {
    var parts := Parts(t.commands);
    [Begin(t)]
    + (if WriteFails(parts, w) then Writes(w.fails.value.0) + [WriteRaises(w.fails.value.1)]
       else Writes(|parts|) + if t.flush then Drains(w.flushes, stopping) else [Finish])
  }

  function ResultOf(outcome: Outcome): Result<bool, IoError> {
    match outcome
    case Succeeded => Ok(true)
    case StoppedInDrain => Ok(false)
    case DrainRaised => Err(FlushError)
    case WriteRaised => Err(WriteError)
  }

  /** The state in which the transaction has written `n` parts. */
  function Writing(s: State, t: Txn, n: nat): State
    requires ValidTxn(t) && n <= |Parts(t.commands)|
  {
    s.(holder := Some(Active(t, n)), granted := s.granted + [t], wire := s.wire + Flatten(Parts(t.commands)[..n]))
  }

  lemma WriteOne(s: State, t: Txn, n: nat)
    requires ValidTxn(t) && n < |Parts(t.commands)| && s.deviceOpen
    ensures Next(Writing(s, t, n), WritePart) == Writing(s, t, n + 1)
  {
    hide Parts;
    hide ValidCommand;
    hide Flatten;
    var parts := Parts(t.commands);
    FlattenTake(parts, n);
    assert s.wire + Flatten(parts[..n]) + parts[n] == s.wire + Flatten(parts[..n + 1]);
  }

  lemma {:induction false} WritesRun(s: State, t: Txn, n: nat)
    requires ValidTxn(t) && n <= |Parts(t.commands)| && s.deviceOpen
    ensures Run(Writing(s, t, 0), Writes(n)) == Writing(s, t, n)
  {
    hide Parts;
    hide ValidCommand;
    hide Next;
    hide Writing;
    hide Run;
    if n > 0 {
      WritesRun(s, t, n - 1);
      RunAppend(Writing(s, t, 0), Writes(n - 1), [WritePart]);
      RunOne(Writing(s, t, n - 1), WritePart);
      WriteOne(s, t, n - 1);
    } else {
      RunNone(Writing(s, t, 0));
    }
  }

  lemma RunNone(s: State)
    ensures Run(s, []) == s
  {
  }

  lemma BeginOne(s: State, t: Txn)
    requires ValidTxn(t) && s.holder.None? && s.attached
    ensures Next(s, Begin(t)) == Writing(s, t, 0)
  {
    hide Parts;
    hide ValidCommand;
    var parts := Parts(t.commands);
    assert parts[..0] == [] && s.wire + Flatten(parts[..0]) == s.wire;
  }

  function Done(s: State, t: Txn, sent: bytes, outcome: Outcome): State {
    s.(wire := s.wire + sent, granted := s.granted + [t], log := s.log + [Entry(t, sent, outcome)])
  }

  lemma RaiseOne(s: State, t: Txn, w: Weather)
    requires ValidTxn(t) && s.holder.None? && WriteFails(Parts(t.commands), w)
    ensures Next(Writing(s, t, w.fails.value.0), WriteRaises(w.fails.value.1))
         == Done(s, t, SentBytes(Parts(t.commands), w), WriteRaised)
  {
    hide Parts;
    hide ValidCommand;
    hide Flatten;
    var parts, n, taken := Parts(t.commands), w.fails.value.0, w.fails.value.1;
    assert s.wire + Flatten(parts[..n]) + parts[n][..taken] == s.wire + (Flatten(parts[..n]) + parts[n][..taken]);
  }

  lemma WrittenAll(s: State, t: Txn, outcome: Outcome)
    requires ValidTxn(t) && s.holder.None?
    ensures var n := |Parts(t.commands)|;
            Release(Writing(s, t, n), Active(t, n), Flatten(Parts(t.commands)), outcome)
            == Done(s, t, Flatten(Parts(t.commands)), outcome)
  {
    hide Parts;
    hide ValidCommand;
    hide Flatten;
    assert Parts(t.commands)[..|Parts(t.commands)|] == Parts(t.commands);
  }

  lemma {:induction false} DrainsRun(s: State, a: Active, flushes: seq<Drain>) returns (outcome: Outcome)
    requires s.holder == Some(a) && ValidTxn(a.txn) && a.next == |Parts(a.txn.commands)| && a.txn.flush
    ensures Run(s, Drains(flushes, s.stopping)) == Release(s, a, Flatten(Parts(a.txn.commands)), outcome)
    ensures ResultOf(outcome) == DrainResult(flushes, s.stopping)
  {
    hide Parts;
    hide ValidCommand;
    hide Flatten;
    if flushes != [] && flushes[0].Interrupted? && !s.stopping {
      RunOne(s, DrainCall(Interrupted));
      RunAppend(s, [DrainCall(Interrupted)], Drains(flushes[1..], s.stopping));
      outcome := DrainsRun(s, a, flushes[1..]);
    } else {
      var last := if flushes == [] then Drained else flushes[0];
      RunOne(s, DrainCall(last));
      outcome := if last.Drained? then Succeeded else if last.DrainFails? then DrainRaised else StoppedInDrain;
    }
  }

  /** What the driver's transport does in one call is one such run of the step model:
      the same bytes go out, and the call returns or raises what the log records. */
  lemma TransportIsARun(s: State, t: Txn, w: Weather) returns (outcome: Outcome)
    requires ValidTxn(t) && s.holder.None? && s.attached && s.deviceOpen
    ensures ResultOf(outcome) == WriteResult(Parts(t.commands), t.flush, w, s.stopping)
    ensures Run(s, Undisturbed(t, w, s.stopping)) == Done(s, t, SentBytes(Parts(t.commands), w), outcome)
  {
    hide Parts;
    hide ValidCommand;
    hide Writes;
    hide Drains;
    hide Next;
    hide Writing;
    hide Done;
    hide Run;
    hide Flatten;
    hide DrainResult;
    var parts := Parts(t.commands);
    var begun := Writing(s, t, 0);
    RunOne(s, Begin(t));
    BeginOne(s, t);
    if WriteFails(parts, w) {
      outcome := WriteRaised;
      var (n, taken) := w.fails.value;
      RunAppend(s, [Begin(t)], Writes(n) + [WriteRaises(taken)]);
      RunAppend(begun, Writes(n), [WriteRaises(taken)]);
      WritesRun(s, t, n);
      RunOne(Writing(s, t, n), WriteRaises(taken));
      RaiseOne(s, t, w);
    } else {
      outcome := WrittenRun(s, t, w);
      var ending := if t.flush then Drains(w.flushes, s.stopping) else [Finish];
      RunAppend(s, [Begin(t)], Writes(|parts|) + ending);
      RunAppend(begun, Writes(|parts|), ending);
      WritesRun(s, t, |parts|);
    }
  }

  lemma WrittenRun(s: State, t: Txn, w: Weather) returns (outcome: Outcome)
    requires ValidTxn(t) && s.holder.None? && !WriteFails(Parts(t.commands), w)
    ensures ResultOf(outcome) == WriteResult(Parts(t.commands), t.flush, w, s.stopping)
    ensures Run(Writing(s, t, |Parts(t.commands)|), if t.flush then Drains(w.flushes, s.stopping) else [Finish])
         == Done(s, t, Flatten(Parts(t.commands)), outcome)
  {
    hide Parts;
    hide ValidCommand;
    hide Drains;
    hide Done;
    hide Run;
    hide Flatten;
    hide DrainResult;
    var n := |Parts(t.commands)|;
    if t.flush {
      outcome := DrainsRun(Writing(s, t, n), Active(t, n), w.flushes);
    } else {
      outcome := Succeeded;
      RunOne(Writing(s, t, n), Finish);
    }
    WrittenAll(s, t, outcome);
  }
}
