/** The bounded middleware query cache: answers are reused while fresh, reused stale
    only when the middleware fails, and the least recently used entry makes room. */
module QueryCache {
  import opened Core
  import opened JsonValues

  const READ_ONLY_METHODS := {"disk.query", "replication.query", "cloud_backup.query"}
  const PASSIVE_METHODS := READ_ONLY_METHODS + {"auth.me", "system.version"}

  /** A call and its arguments; the program keys its entries by an injective digest of these. */
  datatype Query = Query(endpoint: string, arguments: seq<Json>)

  datatype Entry = Entry(value: Json, observedAt: real, lastAccessed: real)

  datatype Slot = Slot(query: Query, entry: Entry)

  datatype Source = NoSource | LiveRead | FromCache | StaleCache | Unavailable

  datatype Limits = Limits(ttl: real, stale: real, maxEntries: int)

  /** `slots` is in the insertion order of the dictionary. */
  datatype Cache = Cache(
    slots: seq<Slot>, delegateCalls: nat, cacheHits: nat, staleHits: nat, lastSource: Source, lastAge: Option<real>)

  const EMPTY := Cache([], 0, 0, 0, NoSource, None)

  /** What the delegate does: it answers, or raises something the cache does or does not catch. */
  datatype Outcome = Returned(value: Json) | Raised(caught: bool)

  datatype Fault = ValueError | DelegateFault

  predicate LimitsOk(l: Limits) {
    10.0 <= l.ttl <= 900.0 && 0.0 <= l.stale <= 3600.0 && 1 <= l.maxEntries <= 8
  }

  predicate DistinctQueries(slots: seq<Slot>) {
    forall i, j :: 0 <= i < j < |slots| ==> slots[i].query != slots[j].query
  }

  function IndexOf(slots: seq<Slot>, q: Query): (i: nat)
    ensures i <= |slots|
    ensures i < |slots| ==> slots[i].query == q
    ensures forall j :: 0 <= j < i ==> slots[j].query != q
  {
    if slots == [] || slots[0].query == q then 0
    else
      var rest := IndexOf(slots[1..], q);
      assert forall j :: 0 <= j < rest + 1 ==> slots[j].query != q by {
        assert forall j :: 0 < j < rest + 1 ==> slots[j] == slots[1..][j - 1];
      }
      rest + 1
  }

  function Touch(slots: seq<Slot>, i: nat, now: real): seq<Slot>
    requires i < |slots|
  {
    slots[i := Slot(slots[i].query, slots[i].entry.(lastAccessed := now))]
  }

  /** Storing under a present key keeps its place; a new key goes last. */
  function Store(slots: seq<Slot>, slot: Slot): seq<Slot> {
    var i := IndexOf(slots, slot.query);
    if i < |slots| then slots[i := slot] else slots + [slot]
  }

  /** The first of the entries least recently used, in dictionary order. */
  function Oldest(slots: seq<Slot>): (i: nat)
    requires slots != []
    ensures i < |slots|
    ensures forall j :: 0 <= j < |slots| ==> slots[i].entry.lastAccessed <= slots[j].entry.lastAccessed
    ensures forall j :: 0 <= j < i ==> slots[i].entry.lastAccessed < slots[j].entry.lastAccessed
  {
    var last := |slots| - 1;
    if last == 0 then 0
    else
      var i := Oldest(slots[..last]);
      assert forall j :: 0 <= j < last ==> slots[..last][j] == slots[j];
      if slots[last].entry.lastAccessed < slots[i].entry.lastAccessed then last else i
  }

  function RemoveAt(slots: seq<Slot>, i: nat): seq<Slot>
    requires i < |slots|
  {
    slots[..i] + slots[i + 1..]
  }

  function Evict(slots: seq<Slot>, max: nat): (kept: seq<Slot>)
    ensures |kept| == if |slots| <= max then |slots| else max
  {
    if |slots| <= max then slots else Evict(RemoveAt(slots, Oldest(slots)), max)
  }

  lemma EvictOne(slots: seq<Slot>, max: nat)
    requires |slots| == max + 1
    ensures Evict(slots, max) == RemoveAt(slots, Oldest(slots))
  {
    assert |RemoveAt(slots, Oldest(slots))| == max;
  }

  datatype Kind = Refused | Hit | Live | Stale | Missed | Escaped

  function Value(o: Outcome): Json {
    if o.Returned? then o.value else Null
  }

  predicate Failed(o: Outcome) {
    Value(o) == Null
  }

  datatype Request = Request(query: Query, at: real, outcome: Outcome)

  predicate Allowlisted(q: Query) {
    q.endpoint in PASSIVE_METHODS
  }

  /** How a request is served. */
  function Classify(l: Limits, c: Cache, r: Request): Kind {
    var i := IndexOf(c.slots, r.query);
    var present := i < |c.slots|;
    var age := if present then r.at - c.slots[i].entry.observedAt else 0.0;
    if !Allowlisted(r.query) then Refused
    else if present && 0.0 <= age < l.ttl then Hit
    else if r.outcome == Raised(false) then Escaped
    else if !Failed(r.outcome) then Live
    else if present && 0.0 <= age <= l.ttl + l.stale then Stale
    else Missed
  }

  /** One `call`: the new state and what is returned or raised. */
  function Respond(l: Limits, c: Cache, r: Request): (Cache, Result<Json, Fault>)
    requires LimitsOk(l)
  {
    var i := IndexOf(c.slots, r.query);
    var age := if i < |c.slots| then Some(r.at - c.slots[i].entry.observedAt) else None;
    match Classify(l, c, r)
    case Refused => (c, Err(ValueError))
    case Hit =>
      (c.(slots := Touch(c.slots, i, r.at), cacheHits := c.cacheHits + 1, lastSource := FromCache, lastAge := age),
       Ok(c.slots[i].entry.value))
    case Escaped => (c.(delegateCalls := c.delegateCalls + 1), Err(DelegateFault))
    case Live =>
      (c.(slots := Evict(Store(c.slots, Slot(r.query, Entry(r.outcome.value, r.at, r.at))), l.maxEntries),
          delegateCalls := c.delegateCalls + 1, lastSource := LiveRead, lastAge := Some(0.0)),
       Ok(r.outcome.value))
    case Stale =>
      (c.(slots := Touch(c.slots, i, r.at), delegateCalls := c.delegateCalls + 1, staleHits := c.staleHits + 1,
          lastSource := StaleCache, lastAge := age),
       Ok(c.slots[i].entry.value))
    case Missed =>
      (c.(delegateCalls := c.delegateCalls + 1, lastSource := Unavailable, lastAge := age), Ok(Null))
  }

  // ---- The object ----

  class BoundedQueryCache {
    const limits: Limits
    var slots: seq<Slot>
    var delegateCalls: nat
    var cacheHits: nat
    var staleHits: nat
    var lastSource: Source
    var lastAge: Option<real>

    predicate Valid() {
      LimitsOk(limits)
    }

    function Snapshot(): Cache
      reads this
    {
      Cache(slots, delegateCalls, cacheHits, staleHits, lastSource, lastAge)
    }

    constructor (limits: Limits)
      requires LimitsOk(limits)
      ensures Valid() && this.limits == limits && Snapshot() == EMPTY
    {
      this.limits := limits;
      slots, delegateCalls, cacheHits, staleHits, lastSource, lastAge := [], 0, 0, 0, NoSource, None;
    }

    method Call(r: Request) returns (answer: Result<Json, Fault>)
      requires Valid()
      modifies this
      ensures (Snapshot(), answer) == Respond(limits, old(Snapshot()), r)
    {
      if !Allowlisted(r.query) { return Err(ValueError); }
      var i := IndexOf(slots, r.query);
      var age := None;
      if i < |slots| {
        age := Some(r.at - slots[i].entry.observedAt);
        if 0.0 <= age.value < limits.ttl {
          answer := Ok(slots[i].entry.value);
          slots := Touch(slots, i, r.at);
          cacheHits, lastSource, lastAge := cacheHits + 1, FromCache, age;
          return;
        }
      }
      delegateCalls := delegateCalls + 1;
      if r.outcome == Raised(false) { return Err(DelegateFault); }
      var value := Value(r.outcome);
      if value == Null && age.Some? && 0.0 <= age.value <= limits.ttl + limits.stale {
        answer := Ok(slots[i].entry.value);
        slots := Touch(slots, i, r.at);
        staleHits, lastSource, lastAge := staleHits + 1, StaleCache, age;
        return;
      }
      if value == Null {
        lastSource, lastAge := Unavailable, age;
        return Ok(Null);
      }
      slots := Store(slots, Slot(r.query, Entry(value, r.at, r.at)));
      ghost var stored := slots;
      while |slots| > limits.maxEntries
        invariant Evict(slots, limits.maxEntries) == Evict(stored, limits.maxEntries)
        invariant delegateCalls == old(delegateCalls) + 1 && cacheHits == old(cacheHits) && staleHits == old(staleHits)
        decreases |slots|
      {
        slots := RemoveAt(slots, Oldest(slots));
      }
      lastSource, lastAge := LiveRead, Some(0.0);
      return Ok(value);
    }
  }

  /** Limits outside their ranges are refused before there is a cache. */
  method Create(limits: Limits) returns (made: Result<BoundedQueryCache, Fault>)
    ensures made.Ok? <==>
            10.0 <= limits.ttl <= 900.0 && 0.0 <= limits.stale <= 3600.0 && 1 <= limits.maxEntries <= 8
    ensures made.Err? ==> made.error == ValueError
    ensures made.Ok? ==> made.value.Valid() && made.value.limits == limits && made.value.Snapshot() == EMPTY
    ensures made.Ok? ==> fresh(made.value)
  {
    if !(10.0 <= limits.ttl <= 900.0) { return Err(ValueError); }
    if !(0.0 <= limits.stale <= 3600.0) { return Err(ValueError); }
    if !(1 <= limits.maxEntries <= 8) { return Err(ValueError); }
    var cache := new BoundedQueryCache(limits);
    return Ok(cache);
  }

  // ---- Whole runs ----

  datatype Access = Access(request: Request, kind: Kind)

  function After(l: Limits, requests: seq<Request>): Cache
    requires LimitsOk(l)
  {
    if requests == [] then EMPTY
    else Respond(l, After(l, requests[..|requests| - 1]), requests[|requests| - 1]).0
  }

  /** How each request of a run was served. */
  function History(l: Limits, requests: seq<Request>): (h: seq<Access>)
    requires LimitsOk(l)
    ensures |h| == |requests|
  {
    if requests == [] then []
    else
      var last := |requests| - 1;
      History(l, requests[..last])
      + [Access(requests[last], Classify(l, After(l, requests[..last]), requests[last]))]
  }

  /** The delegate's latest successful answer to a query, and when it gave it. */
  function LatestAnswer(history: seq<Access>, q: Query): Option<(Json, real)> {
    if history == [] then None
    else
      var a := history[|history| - 1];
      if a.request.query == q && a.kind.Live? then Some((Value(a.request.outcome), a.request.at))
      else LatestAnswer(history[..|history| - 1], q)
  }

  predicate Uses(k: Kind) {
    k.Hit? || k.Live? || k.Stale?
  }

  /** When a query last got an answer. */
  function LastUse(history: seq<Access>, q: Query): Option<real> {
    if history == [] then None
    else
      var a := history[|history| - 1];
      if a.request.query == q && Uses(a.kind) then Some(a.request.at) else LastUse(history[..|history| - 1], q)
  }

  function Count(history: seq<Access>, kinds: set<Kind>): nat {
    if history == [] then 0
    else Count(history[..|history| - 1], kinds) + if history[|history| - 1].kind in kinds then 1 else 0
  }

  predicate SlotAgrees(s: Slot, history: seq<Access>) {
    && LatestAnswer(history, s.query) == Some((s.entry.value, s.entry.observedAt))
    && LastUse(history, s.query) == Some(s.entry.lastAccessed)
    && s.entry.value != Null
  }

  predicate Agrees(slots: seq<Slot>, history: seq<Access>) {
    forall i :: 0 <= i < |slots| ==> SlotAgrees(slots[i], history)
  }

  predicate Counted(c: Cache, history: seq<Access>) {
    && c.cacheHits == Count(history, {Hit})
    && c.delegateCalls == Count(history, {Live, Stale, Missed, Escaped})
    && c.staleHits == Count(history, {Stale})
  }

  predicate Inv(l: Limits, c: Cache, history: seq<Access>) {
    && DistinctQueries(c.slots) && |c.slots| <= l.maxEntries
    && Agrees(c.slots, history)
    && Counted(c, history)
  }

  lemma OthersAgree(s: Slot, history: seq<Access>, a: Access)
    requires SlotAgrees(s, history)
    requires a.request.query != s.query || !Uses(a.kind)
    ensures SlotAgrees(s, history + [a])
  {
    assert (history + [a])[..|history|] == history;
  }

  lemma UsedAgrees(s: Slot, history: seq<Access>, a: Access)
    requires a.request.query == s.query && Uses(a.kind) && s.entry.lastAccessed == a.request.at && s.entry.value != Null
    requires if a.kind.Live? then s.entry.value == Value(a.request.outcome) && s.entry.observedAt == a.request.at
             else LatestAnswer(history, s.query) == Some((s.entry.value, s.entry.observedAt))
    ensures SlotAgrees(s, history + [a])
  {
    assert (history + [a])[..|history|] == history;
  }

  lemma CountSnoc(history: seq<Access>, a: Access, kinds: set<Kind>)
    ensures Count(history + [a], kinds) == Count(history, kinds) + if a.kind in kinds then 1 else 0
  {
    assert (history + [a])[..|history|] == history;
  }

  lemma TouchKeeps(slots: seq<Slot>, i: nat, history: seq<Access>, a: Access)
    requires DistinctQueries(slots) && Agrees(slots, history) && i < |slots|
    requires a.request.query == slots[i].query && (a.kind.Hit? || a.kind.Stale?)
    ensures DistinctQueries(Touch(slots, i, a.request.at)) && Agrees(Touch(slots, i, a.request.at), history + [a])
  {
    var after := Touch(slots, i, a.request.at);
    forall j | 0 <= j < |after|
      ensures SlotAgrees(after[j], history + [a])
    {
      assert SlotAgrees(slots[j], history);
      if j == i {
        UsedAgrees(after[i], history, a);
      } else {
        assert slots[j].query != slots[i].query;
        OthersAgree(slots[j], history, a);
      }
    }
  }

  lemma StoreKeeps(slots: seq<Slot>, history: seq<Access>, a: Access)
    requires DistinctQueries(slots) && Agrees(slots, history)
    requires a.kind.Live? && !Failed(a.request.outcome)
    ensures var s := Slot(a.request.query, Entry(Value(a.request.outcome), a.request.at, a.request.at));
            DistinctQueries(Store(slots, s)) && Agrees(Store(slots, s), history + [a])
  {
    hide SlotAgrees;
    var s := Slot(a.request.query, Entry(Value(a.request.outcome), a.request.at, a.request.at));
    var after := Store(slots, s);
    var i := IndexOf(slots, s.query);
    forall j | 0 <= j < |after|
      ensures SlotAgrees(after[j], history + [a])
    {
      if j == i {
        UsedAgrees(s, history, a);
      } else {
        assert after[j] == slots[j] && SlotAgrees(slots[j], history);
        if i < |slots| {
          assert slots[i].query == s.query && slots[j].query != slots[i].query;
        }
        OthersAgree(slots[j], history, a);
      }
    }
  }

  lemma RemoveAtKeeps(slots: seq<Slot>, i: nat, history: seq<Access>)
    requires DistinctQueries(slots) && Agrees(slots, history) && i < |slots|
    ensures DistinctQueries(RemoveAt(slots, i)) && Agrees(RemoveAt(slots, i), history)
  {
    hide SlotAgrees;
    var after := RemoveAt(slots, i);
    assert forall j :: 0 <= j < |after| ==> after[j] == slots[if j < i then j else j + 1];
  }

  lemma {:induction false} EvictKeeps(slots: seq<Slot>, max: nat, history: seq<Access>)
    requires DistinctQueries(slots) && Agrees(slots, history)
    ensures DistinctQueries(Evict(slots, max)) && Agrees(Evict(slots, max), history)
    decreases |slots|
  {
    hide DistinctQueries;
    hide Agrees;
    if |slots| > max {
      RemoveAtKeeps(slots, Oldest(slots), history);
      EvictKeeps(RemoveAt(slots, Oldest(slots)), max, history);
    }
  }

  lemma SlotsKept(l: Limits, c: Cache, history: seq<Access>, r: Request)
    requires LimitsOk(l) && DistinctQueries(c.slots) && |c.slots| <= l.maxEntries && Agrees(c.slots, history)
    ensures var after := Respond(l, c, r).0.slots;
            && DistinctQueries(after) && |after| <= l.maxEntries
            && Agrees(after, history + [Access(r, Classify(l, c, r))])
  {
    hide SlotAgrees;
    hide DistinctQueries;
    var a := Access(r, Classify(l, c, r));
    var i := IndexOf(c.slots, r.query);
    match a.kind
    case Hit => TouchKeeps(c.slots, i, history, a);
    case Stale => TouchKeeps(c.slots, i, history, a);
    case Live =>
      StoreKeeps(c.slots, history, a);
      EvictKeeps(Store(c.slots, Slot(r.query, Entry(r.outcome.value, r.at, r.at))), l.maxEntries, history + [a]);
    case _ =>
      forall j | 0 <= j < |c.slots|
        ensures SlotAgrees(c.slots[j], history + [a])
      {
        OthersAgree(c.slots[j], history, a);
      }
  }

  lemma CountersKept(l: Limits, c: Cache, history: seq<Access>, r: Request)
    requires LimitsOk(l) && Counted(c, history)
    ensures Counted(Respond(l, c, r).0, history + [Access(r, Classify(l, c, r))])
  {
    hide Count;
    hide Evict;
    hide Store;
    hide Touch;
    var a := Access(r, Classify(l, c, r));
    CountSnoc(history, a, {Hit});
    CountSnoc(history, a, {Live, Stale, Missed, Escaped});
    CountSnoc(history, a, {Stale});
  }

  lemma {:induction false} EveryRunAgrees(l: Limits, requests: seq<Request>)
    requires LimitsOk(l)
    ensures Inv(l, After(l, requests), History(l, requests))
  {
    if requests != [] {
      hide Counted;
      hide Agrees;
      hide DistinctQueries;
      hide Respond;
      var last := |requests| - 1;
      EveryRunAgrees(l, requests[..last]);
      SlotsKept(l, After(l, requests[..last]), History(l, requests[..last]), requests[last]);
      CountersKept(l, After(l, requests[..last]), History(l, requests[..last]), requests[last]);
    }
  }

  /** After any run, whatever the clock did: a value handed out is the delegate's
      latest successful answer to the same call; it comes from this very call, or is
      less than the time to live old, or the delegate has just failed and it is at
      most the stale allowance older. */
  lemma ServedAnswersAreTheLatest(l: Limits, requests: seq<Request>, r: Request)
    requires LimitsOk(l)
    ensures var (after, answer) := Respond(l, After(l, requests), r);
            answer.Ok? && answer.value != Null ==>
              var fetched := LatestAnswer(History(l, requests), r.query);
              match after.lastSource
              case LiveRead => r.outcome == Returned(answer.value)
              case FromCache =>
                fetched.Some? && fetched.value.0 == answer.value && 0.0 <= r.at - fetched.value.1 < l.ttl
              case StaleCache =>
                && fetched.Some? && fetched.value.0 == answer.value && Failed(r.outcome)
                && 0.0 <= r.at - fetched.value.1 <= l.ttl + l.stale
              case _ => false
  {
    hide After;
    hide History;
    EveryRunAgrees(l, requests);
    var c := After(l, requests);
    var i := IndexOf(c.slots, r.query);
    if i < |c.slots| {
      assert SlotAgrees(c.slots[i], History(l, requests));
    }
  }

  predicate Passive(endpoint: string) {
    endpoint in {"auth.me", "system.version", "disk.query", "replication.query", "cloud_backup.query"}
  }

  /** How a call must be served: by the age of the latest answer while its key is held,
      and by what the delegate does now. */
  function Served(l: Limits, held: bool, latest: Option<(Json, real)>, r: Request): Kind
    requires held ==> latest.Some?
  {
    var young := held && 0.0 <= r.at - latest.value.1 < l.ttl;
    var usable := held && 0.0 <= r.at - latest.value.1 <= l.ttl + l.stale;
    if !Passive(r.query.endpoint) then Refused
    else if young then Hit
    else match r.outcome
      case Raised(false) => Escaped
      case Raised(true) => if usable then Stale else Missed
      case Returned(v) => if v != Null then Live else if usable then Stale else Missed
  }

  predicate Holds(slots: seq<Slot>, q: Query) {
    exists i :: 0 <= i < |slots| && slots[i].query == q
  }

  /** After any run, how the next call is served, in terms of the key held, the
      delegate's latest answer to it, the time and what the delegate does now. */
  lemma ServedExactly(l: Limits, requests: seq<Request>, r: Request)
    requires LimitsOk(l)
    ensures var c, latest := After(l, requests), LatestAnswer(History(l, requests), r.query);
            var held := Holds(c.slots, r.query);
            var (after, answer) := Respond(l, c, r);
            && (held ==> latest.Some?)
            && match Served(l, held, latest, r)
               case Refused => answer == Err(ValueError) && after == c
               case Hit =>
                 && held && answer == Ok(latest.value.0)
                 && SourceCounted(c, after, 0, 1, 0, FromCache, Some(r.at - latest.value.1))
               case Live =>
                 r.outcome == Returned(answer.value) && SourceCounted(c, after, 1, 0, 0, LiveRead, Some(0.0))
               case Stale =>
                 && held && answer == Ok(latest.value.0)
                 && SourceCounted(c, after, 1, 0, 1, StaleCache, Some(r.at - latest.value.1))
               case Missed =>
                 && answer == Ok(Null) && after.slots == c.slots
                 && SourceCounted(c, after, 1, 0, 0, Unavailable, if held then Some(r.at - latest.value.1) else None)
               case Escaped => answer == Err(DelegateFault) && after == c.(delegateCalls := c.delegateCalls + 1)
  {
    hide After;
    hide History;
    hide Agrees;
    var c := After(l, requests);
    EveryRunAgrees(l, requests);
    KindExactly(l, c, History(l, requests), r);
    AnswerOfKind(l, c, r);
    hide Classify;
    hide Served;
    hide Respond;
    hide SourceCounted;
    hide LatestAnswer;
    hide Holds;
  }

  lemma KindExactly(l: Limits, c: Cache, history: seq<Access>, r: Request)
    requires Agrees(c.slots, history)
    ensures var i, latest, held := IndexOf(c.slots, r.query), LatestAnswer(history, r.query), Holds(c.slots, r.query);
            && (i < |c.slots| <==> held)
            && (held ==> latest == Some((c.slots[i].entry.value, c.slots[i].entry.observedAt)))
            && Classify(l, c, r) == Served(l, held, latest, r)
  {
    var i := IndexOf(c.slots, r.query);
    AllowlistMeans(r.query);
    hide Allowlisted;
    hide Passive;
    if i < |c.slots| {
      assert SlotAgrees(c.slots[i], history);
    }
    hide SlotAgrees;
    hide LatestAnswer;
    hide Agrees;
  }

  lemma AllowlistMeans(q: Query)
    ensures Allowlisted(q) <==> Passive(q.endpoint)
  {
  }

  lemma AnswerOfKind(l: Limits, c: Cache, r: Request)
    requires LimitsOk(l)
    ensures var i, (after, answer) := IndexOf(c.slots, r.query), Respond(l, c, r);
            var held := i < |c.slots|;
            var age := if held then Some(r.at - c.slots[i].entry.observedAt) else None;
            match Classify(l, c, r)
            case Refused => answer == Err(ValueError) && after == c
            case Hit => held && answer == Ok(c.slots[i].entry.value) && SourceCounted(c, after, 0, 1, 0, FromCache, age)
            case Live =>
              && r.outcome.Returned? && answer == Ok(r.outcome.value)
              && SourceCounted(c, after, 1, 0, 0, LiveRead, Some(0.0))
            case Stale =>
              held && answer == Ok(c.slots[i].entry.value) && SourceCounted(c, after, 1, 0, 1, StaleCache, age)
            case Missed =>
              answer == Ok(Null) && after.slots == c.slots && SourceCounted(c, after, 1, 0, 0, Unavailable, age)
            case Escaped => answer == Err(DelegateFault) && after == c.(delegateCalls := c.delegateCalls + 1)
  {
    hide Evict;
    hide Store;
    hide Touch;
    hide IndexOf;
    hide Allowlisted;
  }

  /** What a call adds to the counters, and where it says its answer came from. */
  predicate SourceCounted(c: Cache, after: Cache, calls: nat, hits: nat, stale: nat, source: Source, age: Option<real>) {
    && after.delegateCalls == c.delegateCalls + calls && after.cacheHits == c.cacheHits + hits
    && after.staleHits == c.staleHits + stale && after.lastSource == source && after.lastAge == age
  }

  /** The history of every run, kind by kind, from those same conditions; and with it
      the latest answer to every query. */
  lemma HistoryExactly(l: Limits, requests: seq<Request>, r: Request)
    requires LimitsOk(l)
    ensures var c, history := After(l, requests), History(l, requests);
            var latest, held := LatestAnswer(history, r.query), Holds(c.slots, r.query);
            && (held ==> latest.Some?)
            && var kind := Served(l, held, latest, r);
               && History(l, requests + [r]) == history + [Access(r, kind)]
               && (forall q :: LatestAnswer(History(l, requests + [r]), q)
                     == if q == r.query && kind == Live then Some((Value(r.outcome), r.at))
                        else LatestAnswer(history, q))
  {
    EveryRunAgrees(l, requests);
    assert (requests + [r])[..|requests|] == requests;
    var c, history := After(l, requests), History(l, requests);
    assert History(l, requests + [r]) == history + [Access(r, Classify(l, c, r))];
    hide After;
    hide History;
    hide Classify;
    hide Served;
    hide Holds;
    hide LatestAnswer;
    hide SlotAgrees;
    KindExactly(l, c, history, r);
    LatestSnoc(history, Access(r, Classify(l, c, r)));
  }

  lemma LatestSnoc(history: seq<Access>, a: Access)
    ensures forall q :: LatestAnswer(history + [a], q)
              == if q == a.request.query && a.kind.Live? then Some((Value(a.request.outcome), a.request.at))
                 else LatestAnswer(history, q)
  {
    assert (history + [a])[..|history|] == history;
  }

  /** A stale answer is counted, and nothing else is. */
  lemma StaleAnswersAreCounted(l: Limits, c: Cache, r: Request)
    requires LimitsOk(l)
    ensures var after := Respond(l, c, r).0;
            && c.staleHits <= after.staleHits <= c.staleHits + 1
            && (after.staleHits > c.staleHits <==> Classify(l, c, r).Stale?)
  {
  }

  /** The cache never outgrows its limit, and its counters account for every
      allowlisted call. */
  lemma CountersBalance(l: Limits, requests: seq<Request>)
    requires LimitsOk(l)
    ensures var c := After(l, requests);
            && |c.slots| <= l.maxEntries && DistinctQueries(c.slots)
            && c.delegateCalls + c.cacheHits == Count(History(l, requests), {Hit, Live, Stale, Missed, Escaped})
            && c.staleHits <= c.delegateCalls
  {
    hide After;
    hide History;
    EveryRunAgrees(l, requests);
    CountSplits(History(l, requests));
  }

  lemma {:induction false} CountSplits(history: seq<Access>)
    ensures Count(history, {Hit, Live, Stale, Missed, Escaped})
         == Count(history, {Hit}) + Count(history, {Live, Stale, Missed, Escaped})
    ensures Count(history, {Stale}) <= Count(history, {Live, Stale, Missed, Escaped})
  {
    if history != [] {
      CountSplits(history[..|history| - 1]);
    }
  }

  lemma RemovedKey(slots: seq<Slot>, out: nat, i: nat)
    requires DistinctQueries(slots) && out < |slots| && i < |slots|
    ensures !Holds(RemoveAt(slots, out), slots[i].query) <==> i == out
  {
    var after := RemoveAt(slots, out);
    if i < out {
      assert after[i] == slots[i];
    } else if out < i {
      assert after[i - 1] == slots[i];
    } else {
      assert forall j :: 0 <= j < |after| ==> after[j] == slots[if j < i then j else j + 1];
    }
  }

  /** Storing a new answer, in terms of the slots. */
  lemma SlotsAfter(l: Limits, c: Cache, r: Request)
    requires LimitsOk(l) && |c.slots| <= l.maxEntries
    ensures var after := Respond(l, c, r).0.slots;
            var stored := c.slots + [Slot(r.query, Entry(Value(r.outcome), r.at, r.at))];
            if !Classify(l, c, r).Live? || IndexOf(c.slots, r.query) < |c.slots|
            then |after| == |c.slots| && forall i :: 0 <= i < |after| ==> after[i].query == c.slots[i].query
            else if |stored| <= l.maxEntries then after == stored
            else after == RemoveAt(stored, Oldest(stored))
  {
    hide Oldest;
    hide RemoveAt;
    var stored := c.slots + [Slot(r.query, Entry(Value(r.outcome), r.at, r.at))];
    if |stored| == l.maxEntries + 1 {
      EvictOne(stored, l.maxEntries);
    }
  }

  /** A key leaves exactly when a new one is fetched into a full cache and it comes
      first among the least recently used, the new one included. */
  lemma KeyLeavesExactlyWhen(l: Limits, c: Cache, r: Request, i: nat)
    requires LimitsOk(l) && DistinctQueries(c.slots) && |c.slots| <= l.maxEntries && i < |c.slots|
    ensures !Holds(Respond(l, c, r).0.slots, c.slots[i].query)
      <==> Classify(l, c, r).Live? && !Holds(c.slots, r.query) && |c.slots| == l.maxEntries
           && Oldest(c.slots + [Slot(r.query, Entry(Value(r.outcome), r.at, r.at))]) == i
  {
    hide Respond;
    hide Classify;
    hide RemoveAt;
    SlotsAfter(l, c, r);
    var after := Respond(l, c, r).0.slots;
    var stored := c.slots + [Slot(r.query, Entry(Value(r.outcome), r.at, r.at))];
    assert stored[i] == c.slots[i];
    if !Classify(l, c, r).Live? || IndexOf(c.slots, r.query) < |c.slots| {
      assert after[i].query == c.slots[i].query;
    } else if |stored| <= l.maxEntries {
      assert after[i].query == c.slots[i].query;
    } else {
      RemovedKey(stored, Oldest(stored), i);
    }
  }

  /** So in every run the key that leaves is the least recently answered, the earliest
      stored among equals. */
  lemma EvictedIsLeastRecent(l: Limits, requests: seq<Request>, r: Request, i: nat)
    requires LimitsOk(l) && i < |After(l, requests).slots|
    requires !Holds(Respond(l, After(l, requests), r).0.slots, After(l, requests).slots[i].query)
    ensures var c := After(l, requests);
            var history := History(l, requests);
            var gone := LastUse(history, c.slots[i].query);
            && Classify(l, c, r).Live? && !Holds(c.slots, r.query) && |c.slots| == l.maxEntries
            && gone.Some? && gone.value <= r.at
            && forall j :: 0 <= j < |c.slots| && j != i ==>
                 var other := LastUse(history, c.slots[j].query);
                 other.Some? && gone.value <= other.value && (j < i ==> gone.value < other.value)
  {
    hide After;
    hide History;
    EveryRunAgrees(l, requests);
    var c := After(l, requests);
    assert forall j :: 0 <= j < |c.slots| ==> SlotAgrees(c.slots[j], History(l, requests));
    hide Respond;
    hide Classify;
    KeyLeavesExactlyWhen(l, c, r, i);
    var stored := c.slots + [Slot(r.query, Entry(Value(r.outcome), r.at, r.at))];
    assert stored[|c.slots|].entry.lastAccessed == r.at;
    assert forall j :: 0 <= j < |c.slots| ==> stored[j] == c.slots[j];
  }

  /** The key just fetched stays, exactly unless the cache was full and every other
      entry claims a later use; under a clock that never runs back, it always stays. */
  lemma FetchedKeyStaysExactlyWhen(l: Limits, c: Cache, r: Request)
    requires LimitsOk(l) && DistinctQueries(c.slots) && |c.slots| <= l.maxEntries && Classify(l, c, r).Live?
    ensures Holds(Respond(l, c, r).0.slots, r.query)
      <==> Holds(c.slots, r.query) || |c.slots| < l.maxEntries
           || exists j :: 0 <= j < |c.slots| && c.slots[j].entry.lastAccessed <= r.at
  {
    hide Respond;
    hide Classify;
    hide RemoveAt;
    SlotsAfter(l, c, r);
    var n := |c.slots|;
    var after := Respond(l, c, r).0.slots;
    var at := IndexOf(c.slots, r.query);
    var stored := c.slots + [Slot(r.query, Entry(Value(r.outcome), r.at, r.at))];
    assert forall j :: 0 <= j < n ==> stored[j] == c.slots[j];
    if at < n {
      assert after[at].query == r.query;
    } else if |stored| <= l.maxEntries {
      assert after[n].query == r.query;
    } else {
      var out := Oldest(stored);
      RemovedKey(stored, out, n);
      assert out < n ==> c.slots[out].entry.lastAccessed <= stored[n].entry.lastAccessed;
      assert out == n ==> forall j :: 0 <= j < n ==> stored[n].entry.lastAccessed < stored[j].entry.lastAccessed;
    }
  }

  predicate ClockRunsForward(requests: seq<Request>) {
    forall i, j :: 0 <= i < j < |requests| ==> requests[i].at <= requests[j].at
  }

  lemma {:induction false} UsesArePast(l: Limits, requests: seq<Request>, q: Query, limit: real)
    requires LimitsOk(l) && forall i :: 0 <= i < |requests| ==> requests[i].at <= limit
    ensures var use := LastUse(History(l, requests), q); use.Some? ==> use.value <= limit
  {
    if requests != [] {
      hide Classify;
      hide After;
      var last := |requests| - 1;
      UsesArePast(l, requests[..last], q, limit);
      assert History(l, requests)[..last] == History(l, requests[..last]);
    }
  }

  lemma FetchedKeyStays(l: Limits, requests: seq<Request>, r: Request)
    requires LimitsOk(l) && ClockRunsForward(requests + [r])
    requires Classify(l, After(l, requests), r).Live?
    ensures Holds(After(l, requests + [r]).slots, r.query)
  {
    EveryRunAgrees(l, requests);
    var c := After(l, requests);
    assert (requests + [r])[..|requests|] == requests;
    hide Respond;
    hide Classify;
    FetchedKeyStaysExactlyWhen(l, c, r);
    if c.slots != [] {
      assert SlotAgrees(c.slots[0], History(l, requests));
      forall i | 0 <= i < |requests|
        ensures requests[i].at <= r.at
      {
        assert (requests + [r])[i] == requests[i] && (requests + [r])[|requests|] == r;
      }
      UsesArePast(l, requests, c.slots[0].query, r.at);
    }
  }

  const EARLY := Request(Query("auth.me", []), 5.0, Returned(Int(1)))
  const LATER := Request(Query("system.version", []), 10.0, Returned(Int(1)))

  const ONLY := Limits(60.0, 300.0, 1)
  const STORED := Slot(LATER.query, Entry(Int(1), 10.0, 10.0))

  lemma FirstFetch()
    ensures After(ONLY, [LATER]).slots == [STORED]
  {
    assert [LATER][..0] == [];
    assert After(ONLY, [LATER]) == Respond(ONLY, EMPTY, LATER).0;
    hide After;
    AllowlistMeans(LATER.query);
    assert Classify(ONLY, EMPTY, LATER).Live?;
    hide Classify;
    assert Store([], STORED) == [STORED] && Evict([STORED], 1) == [STORED];
  }

  lemma EarlyIsFetched(c: Cache)
    requires c.slots == [STORED]
    ensures Classify(ONLY, c, EARLY).Live? && !Holds(c.slots, EARLY.query)
  {
    AllowlistMeans(EARLY.query);
    hide Allowlisted;
    assert "auth.me" != "system.version";
    assert EARLY.query.endpoint == "auth.me" && STORED.query.endpoint == "system.version";
    assert IndexOf(c.slots, EARLY.query) == 1;
  }

  /** The clock is read before the lock is taken, so a call may enter behind one that
      read the clock later. With a single entry it then evicts what it has just fetched. */
  lemma OvertakenFetchIsEvicted()
    ensures var l := Limits(60.0, 300.0, 1);
            var c := After(l, [LATER]);
            Classify(l, c, EARLY).Live? && !Holds(Respond(l, c, EARLY).0.slots, EARLY.query)
  {
    FirstFetch();
    var c := After(ONLY, [LATER]);
    EarlyIsFetched(c);
    hide After;
    hide Classify;
    hide Respond;
    hide Holds;
    FetchedKeyStaysExactlyWhen(ONLY, c, EARLY);
  }
}
