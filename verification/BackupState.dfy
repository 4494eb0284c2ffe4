/** Correlation of library items with validated backup evidence. */
module BackupState {
  import opened Core
  import opened JsonValues
  import opened LexicalPath
  import opened BackupProducer
  import opened BackupManifest

  datatype State = Verified | Awaiting | Stale | Mismatch | Invalid

  datatype Overall = NotTracked | OverallInvalid | Review | AllVerified | SomeAwaiting | Clear

  datatype Outcome = Outcome(
    title: Json, currentPath: Json, size: Json, importedAt: Json, state: State,
    backedUpAt: Option<Json>, sha256: Option<Json>)

  datatype Correlation = Correlation(
    tracking: bool, overall: Overall, verified: nat, awaiting: nat, stale: nat, mismatch: nat, invalid: nat,
    total: nat, createdAt: Json, source: Json, items: seq<Outcome>)

  datatype Error = NotIterable | NotANumber

  /** How values print, how timestamps and numbers are read. */
  datatype Reader = Reader(printer: Printer, clock: Clock, number: string -> Option<real>)

  /** `float(value)`, when it does not raise. */
  function Number(rd: Reader, v: Json): Option<real> {
    match v
    case Bool(b) => Some(if b then 1.0 else 0.0)
    case Int(i) => Some(i as real)
    case Real(r) => Some(r)
    case Str(s) => rd.number(s)
    case _ => None
  }

  function Timestamp(rd: Reader, v: Json): Option<real> {
    var text := Text(v, rd.printer);
    if text == "" then None else rd.clock(text)
  }

  function CanonicalText(rd: Reader, v: Json): Option<string> {
    var text := Text(v, rd.printer);
    if !StartsWith(text, "/") then None else Some(Render(Parse(text)))
  }

  /** What iterating `manifest.get("items", [])` yields of objects; text and objects
      iterate over text, which is passed over. */
  function EvidenceItems(m: Manifest): Result<seq<Json>, Error> {
    if "items" !in m then Ok([])
    else
      match m["items"]
      case Arr(a) => Ok(a)
      case Str(_) => Ok([])
      case Obj(_) => Ok([])
      case _ => Err(NotIterable)
  }

  function Filed(rd: Reader, filed: map<string, Item>, evidence: Json): map<string, Item> {
    if !evidence.Obj? then filed
    else
      var path := CanonicalText(rd, Get(evidence.m, "path"));
      if path.None? then filed else filed[path.value := evidence.m]
  }

  /** A later entry for one path replaces an earlier one. */
  function EvidenceByPath(rd: Reader, items: seq<Json>): map<string, Item> {
    if items == [] then map[]
    else Filed(rd, EvidenceByPath(rd, items[..|items| - 1]), items[|items| - 1])
  }

  function Lookup(filed: map<string, Item>, path: Option<string>): Option<Item> {
    if path.Some? && path.value in filed then Some(filed[path.value]) else None
  }

  function StateOf(rd: Reader, item: Item, evidence: Option<Item>): Result<State, Error> {
    if evidence.None? then Ok(Awaiting)
    else
      var size, importedAt := Get(item, "size_bytes"), Get(item, "imported_at");
      var at := Timestamp(rd, Get(evidence.value, "backed_up_at"));
      if !size.Null? && !PyEq(Get(evidence.value, "size_bytes"), size) then Ok(State.Mismatch)
      else if at.None? || importedAt.Null? then Ok(Stale)
      else
        var imported := Number(rd, importedAt);
        if imported.None? then Err(NotANumber)
        else if at.value < imported.value then Ok(Stale) else Ok(State.Verified)
  }

  function OutcomeOf(rd: Reader, filed: map<string, Item>, item: Item): Result<Outcome, Error> {
    var path := CanonicalText(rd, Get(item, "current_path"));
    var evidence := Lookup(filed, path);
    var state := StateOf(rd, item, evidence);
    if state.Err? then Err(state.error)
    else
      Ok(Outcome(Get(item, "title"), if path.Some? then Str(path.value) else Null,
                 Get(item, "size_bytes"), Get(item, "imported_at"), state.value,
                 if evidence.Some? then Some(Get(evidence.value, "backed_up_at")) else None,
                 if evidence.Some? && Truthy(Get(evidence.value, "sha256")) then Some(Get(evidence.value, "sha256"))
                 else None))
  }

  function OutcomesOf(rd: Reader, filed: map<string, Item>, items: seq<Item>): (r: Result<seq<Outcome>, Error>)
    ensures r.Ok? ==> |r.value| == |items|
  {
    if items == [] then Ok([])
    else
      var last := |items| - 1;
      var before := OutcomesOf(rd, filed, items[..last]);
      if before.Err? then before
      else
        var outcome := OutcomeOf(rd, filed, items[last]);
        if outcome.Err? then Err(outcome.error) else Ok(before.value + [outcome.value])
  }

  function InState(outcomes: seq<Outcome>, state: State): nat {
    if outcomes == [] then 0
    else InState(outcomes[..|outcomes| - 1], state) + if outcomes[|outcomes| - 1].state == state then 1 else 0
  }

  function OverallOf(verified: nat, stale: nat, mismatch: nat, total: nat): Overall {
    if mismatch > 0 || stale > 0 then Review
    else if verified == total && total > 0 then AllVerified
    else if total > 0 then SomeAwaiting
    else Clear
  }

  function Uncorrelated(items: seq<Item>): seq<Outcome> {
    if items == [] then []
    else
      var last := |items| - 1;
      Uncorrelated(items[..last])
      + [Outcome(Get(items[last], "title"), Get(items[last], "current_path"), Null, Null, Invalid, None, None)]
  }

  function Correlate(rd: Reader, items: seq<Item>, manifest: Option<Manifest>, tracking: bool): Result<Correlation, Error> {
    var n := |items|;
    if !tracking then Ok(Correlation(false, NotTracked, 0, n, 0, 0, 0, n, Null, Null, []))
    else if manifest.None? then
      Ok(Correlation(true, OverallInvalid, 0, n, 0, 0, n, n, Null, Null, Uncorrelated(items)))
    else
      var evidence := EvidenceItems(manifest.value);
      if evidence.Err? then Err(evidence.error)
      else
        var outcomes := OutcomesOf(rd, EvidenceByPath(rd, evidence.value), items);
        if outcomes.Err? then Err(outcomes.error)
        else
          var o := outcomes.value;
          var verified, stale, mismatch := InState(o, State.Verified), InState(o, Stale), InState(o, State.Mismatch);
          Ok(Correlation(true, OverallOf(verified, stale, mismatch, n), verified, InState(o, Awaiting), stale, mismatch,
                         0, n, Get(manifest.value, "created_at"), Get(manifest.value, "source"), o))
  }

  lemma {:induction false} OutcomeErrorStays(rd: Reader, filed: map<string, Item>, items: seq<Item>, k: nat)
    requires k <= |items| && OutcomesOf(rd, filed, items[..k]).Err?
    ensures OutcomesOf(rd, filed, items) == OutcomesOf(rd, filed, items[..k])
    decreases |items|
  {
    hide OutcomeOf;
    if k < |items| {
      var last := |items| - 1;
      assert items[..last][..k] == items[..k];
      OutcomeErrorStays(rd, filed, items[..last], k);
    } else {
      assert items[..k] == items;
    }
  }

  method FileEvidence(rd: Reader, items: seq<Json>) returns (filed: map<string, Item>)
    ensures filed == EvidenceByPath(rd, items)
  {
    hide CanonicalText;
    filed := map[];
    for i := 0 to |items|
      invariant filed == EvidenceByPath(rd, items[..i])
    {
      assert items[..i + 1][..i] == items[..i];
      if !items[i].Obj? { continue; }
      var path := CanonicalText(rd, Get(items[i].m, "path"));
      if path.Some? {
        filed := filed[path.value := items[i].m];
      }
    }
    assert items[..|items|] == items;
  }

  /** The correlating loop, with its four counters. */
  method CorrelateItems(rd: Reader, filed: map<string, Item>, items: seq<Item>)
    returns (r: Result<seq<Outcome>, Error>, verified: nat, awaiting: nat, stale: nat, mismatch: nat)
    ensures r == OutcomesOf(rd, filed, items)
    ensures r.Ok? ==> verified == InState(r.value, State.Verified) && awaiting == InState(r.value, Awaiting)
    ensures r.Ok? ==> stale == InState(r.value, Stale) && mismatch == InState(r.value, State.Mismatch)
  {
    hide CanonicalText;
    var results: seq<Outcome> := [];
    verified, awaiting, stale, mismatch := 0, 0, 0, 0;
    for i := 0 to |items|
      invariant OutcomesOf(rd, filed, items[..i]) == Ok(results)
      invariant verified == InState(results, State.Verified) && awaiting == InState(results, Awaiting)
      invariant stale == InState(results, Stale) && mismatch == InState(results, State.Mismatch)
    {
      assert items[..i + 1][..i] == items[..i];
      var outcome := OutcomeOf(rd, filed, items[i]);
      if outcome.Err? {
        OutcomeErrorStays(rd, filed, items, i + 1);
        return Err(outcome.error), 0, 0, 0, 0;
      }
      match outcome.value.state {
        case Verified => verified := verified + 1;
        case Awaiting => awaiting := awaiting + 1;
        case Stale => stale := stale + 1;
        case Mismatch => mismatch := mismatch + 1;
        case Invalid =>
      }
      assert (results + [outcome.value])[..|results|] == results;
      results := results + [outcome.value];
    }
    assert items[..|items|] == items;
    return Ok(results), verified, awaiting, stale, mismatch;
  }

  method CorrelateBackupManifest(rd: Reader, items: seq<Item>, manifest: Option<Manifest>, tracking: bool)
    returns (r: Result<Correlation, Error>)
    ensures r == Correlate(rd, items, manifest, tracking)
  {
    hide OutcomesOf;
    hide EvidenceByPath;
    var n := |items|;
    if !tracking { return Ok(Correlation(false, NotTracked, 0, n, 0, 0, 0, n, Null, Null, [])); }
    if manifest.None? {
      return Ok(Correlation(true, OverallInvalid, 0, n, 0, 0, n, n, Null, Null, Uncorrelated(items)));
    }
    var evidence := EvidenceItems(manifest.value);
    if evidence.Err? { return Err(evidence.error); }
    var filed := FileEvidence(rd, evidence.value);
    var results, verified, awaiting, stale, mismatch := CorrelateItems(rd, filed, items);
    if results.Err? { return Err(results.error); }
    var overall;
    if mismatch > 0 || stale > 0 {
      overall := Review;
    } else if verified == n && n > 0 {
      overall := AllVerified;
    } else if n > 0 {
      overall := SomeAwaiting;
    } else {
      overall := Clear;
    }
    return Ok(Correlation(true, overall, verified, awaiting, stale, mismatch, 0, n, Get(manifest.value, "created_at"),
                          Get(manifest.value, "source"), results.value));
  }

  // ---- For every input ----

  lemma {:induction false} FourStates(rd: Reader, filed: map<string, Item>, items: seq<Item>)
    requires OutcomesOf(rd, filed, items).Ok?
    ensures var o := OutcomesOf(rd, filed, items).value;
            InState(o, State.Verified) + InState(o, Awaiting) + InState(o, Stale) + InState(o, State.Mismatch) == |items|
  {
    hide CanonicalText;
    hide Timestamp;
    if items != [] {
      var last := |items| - 1;
      FourStates(rd, filed, items[..last]);
      var o := OutcomesOf(rd, filed, items).value;
      assert o[..last] == OutcomesOf(rd, filed, items[..last]).value;
    }
  }

  /** For every item list and manifest, the four counts add up to the total. */
  lemma CountsAddUp(rd: Reader, items: seq<Item>, manifest: Manifest)
    requires Correlate(rd, items, Some(manifest), true).Ok?
    ensures var c := Correlate(rd, items, Some(manifest), true).value;
            && c.verified + c.awaiting + c.stale + c.mismatch == c.total == |items| == |c.items|
            && (c.overall.AllVerified? <==> c.verified == c.total && c.total > 0)
            && (c.overall.Review? <==> c.stale + c.mismatch > 0)
  {
    hide OutcomesOf;
    hide EvidenceByPath;
    FourStates(rd, EvidenceByPath(rd, EvidenceItems(manifest).value), items);
  }

  // ---- What an item's state means ----

  /** The manifest's entry at this position is filed under the path. */
  predicate FiledAt(rd: Reader, entries: seq<Json>, i: int, path: string) {
    && 0 <= i < |entries| && entries[i].Obj? && "path" in entries[i].m
    && PrintsAs(rd, entries[i].m["path"], path)
  }

  /** The value is an absolute path text, and this is how the path prints. */
  predicate PrintsAs(rd: Reader, v: Json, path: string) {
    var text := Text(v, rd.printer);
    text != "" && text[0] == '/' && path == Render(Parse(text))
  }

  /** The entry is the last one filed under the path. */
  predicate LastFiled(rd: Reader, entries: seq<Json>, i: int, path: string) {
    FiledAt(rd, entries, i, path) && forall j :: i < j < |entries| ==> !FiledAt(rd, entries, j, path)
  }

  lemma CanonicalTextIs(rd: Reader, v: Json, path: string)
    ensures CanonicalText(rd, v) == Some(path) <==> PrintsAs(rd, v, path)
  {
    hide Render;
    hide Parse;
  }

  lemma NullPrintsNothing(rd: Reader, path: string)
    ensures !PrintsAs(rd, Null, path)
  {
  }

  /** Later entries replace earlier ones. */
  lemma {:induction false} LookupIsLast(rd: Reader, entries: seq<Json>, path: string, i: int)
    ensures LastFiled(rd, entries, i, path) ==> Lookup(EvidenceByPath(rd, entries), Some(path)) == Some(entries[i].m)
    ensures (forall j :: !FiledAt(rd, entries, j, path)) ==> Lookup(EvidenceByPath(rd, entries), Some(path)) == None
  {
    hide PrintsAs;
    hide CanonicalText;
    if entries != [] {
      var last := |entries| - 1;
      var before := entries[..last];
      LookupIsLast(rd, before, path, i);
      FiledOne(rd, EvidenceByPath(rd, before), entries[last], path);
      hide Lookup;
      hide Filed;
      forall j
        ensures j != last ==> (FiledAt(rd, before, j, path) <==> FiledAt(rd, entries, j, path))
        ensures j > last ==> !FiledAt(rd, entries, j, path)
      {
        assert 0 <= j < last ==> before[j] == entries[j];
      }
      if FiledAt(rd, entries, last, path) {
        assert LastFiled(rd, entries, i, path) ==> i == last;
      } else {
        assert LastFiled(rd, entries, i, path) ==> LastFiled(rd, before, i, path);
      }
    }
  }

  lemma FiledOne(rd: Reader, filed: map<string, Item>, entry: Json, path: string)
    ensures Lookup(Filed(rd, filed, entry), Some(path))
         == if entry.Obj? && "path" in entry.m && PrintsAs(rd, entry.m["path"], path) then Some(entry.m)
            else Lookup(filed, Some(path))
  {
    hide PrintsAs;
    hide CanonicalText;
    if entry.Obj? {
      CanonicalTextIs(rd, Get(entry.m, "path"), path);
      NullPrintsNothing(rd, path);
    }
  }

  /** What makes an item's state, given the last entry filed under its path, if any. */
  predicate StateIs(rd: Reader, item: Item, evidence: Option<Item>, state: State) {
    match evidence
    case None => state == Awaiting
    case Some(e) =>
      var resized := "size_bytes" in item && item["size_bytes"] != Null && !PyEq(Get(e, "size_bytes"), item["size_bytes"]);
      if resized then state == State.Mismatch
      else if "imported_at" in item && item["imported_at"] != Null && ReadsAsTime(rd, e)
      then
        && Number(rd, item["imported_at"]).Some?
        && state == if rd.clock(Text(e["backed_up_at"], rd.printer)).value < Number(rd, item["imported_at"]).value
                    then Stale else State.Verified
      else state == Stale
  }

  lemma NoEvidence(rd: Reader, item: Item, state: State)
    ensures StateIs(rd, item, None, state) <==> state == Awaiting
  {
  }

  predicate ReadsAsTime(rd: Reader, e: Item) {
    && "backed_up_at" in e && Text(e["backed_up_at"], rd.printer) != ""
    && rd.clock(Text(e["backed_up_at"], rd.printer)).Some?
  }

  lemma StateExactly(rd: Reader, item: Item, evidence: Option<Item>)
    ensures StateOf(rd, item, evidence).Ok? ==> StateIs(rd, item, evidence, StateOf(rd, item, evidence).value)
    ensures StateOf(rd, item, evidence).Err? <==>
            && evidence.Some?
            && !("size_bytes" in item && item["size_bytes"] != Null
                 && !PyEq(Get(evidence.value, "size_bytes"), item["size_bytes"]))
            && "imported_at" in item && item["imported_at"] != Null && ReadsAsTime(rd, evidence.value)
            && Number(rd, item["imported_at"]).None?
  {
    assert Text(Null, rd.printer) == "";
    hide Text;
    hide PyEq;
    hide Number;
  }

  /** Whenever a correlation succeeds, every item is reported in its own place with the
      state that the last entry filed under its path gives it, and with that entry's time. */
  lemma CorrelatedExactly(rd: Reader, items: seq<Item>, manifest: Manifest, entries: seq<Json>, k: nat)
    requires Correlate(rd, items, Some(manifest), true).Ok? && k < |items|
    requires "items" in manifest && manifest["items"] == Arr(entries)
    ensures var c := Correlate(rd, items, Some(manifest), true).value;
            && k < |c.items|
            && var o := c.items[k];
               && o.title == Get(items[k], "title") && o.size == Get(items[k], "size_bytes")
               && o.importedAt == Get(items[k], "imported_at")
               && (forall path :: PrintsAs(rd, Get(items[k], "current_path"), path) ==>
                     && o.currentPath == Str(path)
                     && (forall i :: LastFiled(rd, entries, i, path) ==>
                           && StateIs(rd, items[k], Some(entries[i].m), o.state)
                           && o.backedUpAt == Some(Get(entries[i].m, "backed_up_at"))
                           && o.sha256 == if Truthy(Get(entries[i].m, "sha256")) then Some(Get(entries[i].m, "sha256"))
                                          else None)
                     && ((forall i :: !FiledAt(rd, entries, i, path)) ==> o.state == Awaiting && o.backedUpAt == None))
               && ((forall path :: !PrintsAs(rd, Get(items[k], "current_path"), path)) ==>
                     o.currentPath == Null && o.state == Awaiting && o.backedUpAt == None)
  {
    hide EvidenceByPath;
    hide OutcomeOf;
    hide StateIs;
    hide PrintsAs;
    hide LastFiled;
    hide FiledAt;
    hide InState;
    OutcomeAt(rd, EvidenceByPath(rd, entries), items, k);
    hide OutcomesOf;
    OutcomeExactly(rd, entries, items[k]);
  }

  lemma OutcomeExactly(rd: Reader, entries: seq<Json>, item: Item)
    requires OutcomeOf(rd, EvidenceByPath(rd, entries), item).Ok?
    ensures var o := OutcomeOf(rd, EvidenceByPath(rd, entries), item).value;
            && o.title == Get(item, "title") && o.size == Get(item, "size_bytes")
            && o.importedAt == Get(item, "imported_at")
            && (forall path :: PrintsAs(rd, Get(item, "current_path"), path) ==>
                  && o.currentPath == Str(path)
                  && (forall i :: LastFiled(rd, entries, i, path) ==>
                        && StateIs(rd, item, Some(entries[i].m), o.state)
                        && o.backedUpAt == Some(Get(entries[i].m, "backed_up_at"))
                        && o.sha256 == if Truthy(Get(entries[i].m, "sha256")) then Some(Get(entries[i].m, "sha256"))
                                       else None)
                  && ((forall i :: !FiledAt(rd, entries, i, path)) ==> o.state == Awaiting && o.backedUpAt == None))
            && ((forall path :: !PrintsAs(rd, Get(item, "current_path"), path)) ==>
                  o.currentPath == Null && o.state == Awaiting && o.backedUpAt == None)
  {
    hide EvidenceByPath;
    hide StateOf;
    hide StateIs;
    hide CanonicalText;
    var filed, at := EvidenceByPath(rd, entries), Get(item, "current_path");
    var path := CanonicalText(rd, at);
    var o := OutcomeOf(rd, filed, item).value;
    StateExactly(rd, item, Lookup(filed, path));
    assert Lookup(filed, None) == None;
    hide OutcomeOf;
    hide Lookup;
    NoEvidence(rd, item, o.state);
    if path.None? {
      assert o.state == Awaiting;
    }
    forall p
      ensures path == Some(p) <==> PrintsAs(rd, at, p)
    {
      CanonicalTextIs(rd, at, p);
    }
    forall p, i
      ensures LastFiled(rd, entries, i, p) ==> Lookup(filed, Some(p)) == Some(entries[i].m)
    {
      LookupIsLast(rd, entries, p, i);
    }
    forall p | PrintsAs(rd, at, p) && forall i :: !FiledAt(rd, entries, i, p)
      ensures o.state == Awaiting && o.backedUpAt == None
    {
      LookupIsLast(rd, entries, p, 0);
    }
  }

  lemma {:induction false} OutcomeAt(rd: Reader, filed: map<string, Item>, items: seq<Item>, k: nat)
    requires OutcomesOf(rd, filed, items).Ok? && k < |items|
    ensures OutcomeOf(rd, filed, items[k]) == Ok(OutcomesOf(rd, filed, items).value[k])
  {
    hide OutcomeOf;
    if k < |items| - 1 {
      OutcomeAt(rd, filed, items[..|items| - 1], k);
    }
  }

  function InStateAt(outcomes: seq<Outcome>, state: State): set<nat> {
    set i: nat | i < |outcomes| && outcomes[i].state == state
  }

  lemma {:induction false} StatesCounted(outcomes: seq<Outcome>, state: State)
    ensures InState(outcomes, state) == |InStateAt(outcomes, state)|
  {
    if outcomes == [] {
      assert InStateAt(outcomes, state) == {};
    } else {
      var last := |outcomes| - 1;
      StatesCounted(outcomes[..last], state);
      assert InStateAt(outcomes, state)
          == InStateAt(outcomes[..last], state) + if outcomes[last].state == state then {last} else {};
    }
  }

  /** The counters of a correlation are those of its items, and decide the overall state. */
  lemma CountersExactly(rd: Reader, items: seq<Item>, manifest: Manifest)
    requires Correlate(rd, items, Some(manifest), true).Ok?
    ensures var c := Correlate(rd, items, Some(manifest), true).value;
            && c.verified == |InStateAt(c.items, State.Verified)| && c.awaiting == |InStateAt(c.items, Awaiting)|
            && c.stale == |InStateAt(c.items, Stale)| && c.mismatch == |InStateAt(c.items, State.Mismatch)|
            && c.tracking && c.invalid == 0 && c.total == |items|
            && c.createdAt == Get(manifest, "created_at") && c.source == Get(manifest, "source")
            && c.overall == if c.mismatch > 0 || c.stale > 0 then Review
                            else if items == [] then Clear
                            else if c.verified == |items| then AllVerified
                            else SomeAwaiting
  {
    hide OutcomesOf;
    hide EvidenceByPath;
    hide InState;
    var o := Correlate(rd, items, Some(manifest), true).value.items;
    StatesCounted(o, State.Verified);
    StatesCounted(o, Awaiting);
    StatesCounted(o, Stale);
    StatesCounted(o, State.Mismatch);
  }

  lemma {:induction false} UncorrelatedIs(items: seq<Item>)
    ensures |Uncorrelated(items)| == |items|
    ensures forall i :: 0 <= i < |items| ==>
              Uncorrelated(items)[i]
              == Outcome(Get(items[i], "title"), Get(items[i], "current_path"), Null, Null, Invalid, None, None)
  {
    if items != [] {
      UncorrelatedIs(items[..|items| - 1]);
    }
  }

  /** Without tracking nothing is reported but the number of items awaiting; without a
      manifest every item is invalid and awaiting; either way nothing is verified. */
  lemma NothingIsVerified(rd: Reader, items: seq<Item>, manifest: Option<Manifest>)
    ensures var n, c := |items|, Correlate(rd, items, manifest, false);
            c.Ok? && c.value == Correlation(false, NotTracked, 0, n, 0, 0, 0, n, Null, Null, [])
    ensures var n, c := |items|, Correlate(rd, items, None, true);
            && c.Ok? && c.value == Correlation(true, OverallInvalid, 0, n, 0, 0, n, n, Null, Null, c.value.items)
            && |c.value.items| == n
            && forall i :: 0 <= i < n ==>
                 c.value.items[i]
                 == Outcome(Get(items[i], "title"), Get(items[i], "current_path"), Null, Null, Invalid, None, None)
  {
    UncorrelatedIs(items);
  }

  /** What `float` makes of a value. */
  lemma NumberMeans(rd: Reader, s: string, i: int)
    ensures Number(rd, Bool(true)) == Some(1.0) && Number(rd, Bool(false)) == Some(0.0)
    ensures Number(rd, Int(i)) == Some(i as real) && Number(rd, Str(s)) == rd.number(s) && Number(rd, Null) == None
  {
  }
}
