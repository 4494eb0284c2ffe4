/** The three backup stages together: what the producer observes, the validator
    accepts, and the correlator reports back item by item. */
module BackupPipeline {
  import opened Core
  import opened JsonValues
  import opened LexicalPath
  import opened BackupProducer
  import opened BackupManifest
  import opened BackupState

  /** A printed instant reads back as itself, and has no outer white space. */
  predicate PrintsInstant(clock: Clock, timestamp: string, at: real) {
    clock(timestamp) == Some(at) && Strip(timestamp) == timestamp && timestamp != ""
  }

  // ---- What the observation leaves in its rows ----

  /** The path text of a cargo item, and the path it stands for. */
  function SourceOf(printer: Printer, item: Item): Path {
    Parse(Text(Get(item, "current_path"), printer))
  }

  predicate RowAgrees(site: Site, mappings: seq<Mapping>, item: Item, row: Row) {
    ObserveItem(site, mappings, item) == Ok(row)
  }

  lemma {:induction false} RowsAgree(site: Site, mappings: seq<Mapping>, items: seq<Item>)
    requires ObserveItems(site, mappings, items).Ok?
    ensures var rows := ObserveItems(site, mappings, items).value;
            |rows| == |items| && forall i :: 0 <= i < |items| ==> RowAgrees(site, mappings, items[i], rows[i])
  {
    hide ObserveItem;
    if items != [] {
      RowsAgree(site, mappings, items[..|items| - 1]);
    }
  }

  lemma RootedText(p: Path)
    requires Absolute(p)
    ensures StartsWith(Render(p), "/") && Render(p) != ""
  {
  }

  lemma AbsoluteText(text: string)
    ensures Absolute(Parse(text)) <==> StartsWith(text, "/")
  {
  }

  /** A row's source is the printed path of its item, and what was found depends on
      that path alone. */
  lemma RowFacts(site: Site, mappings: seq<Mapping>, item: Item, row: Row)
    requires RowAgrees(site, mappings, item, row)
    ensures row.source == Render(SourceOf(site.printer, item)) && Absolute(SourceOf(site.printer, item))
    ensures WellFormed(SourceOf(site.printer, item)) && Parse(row.source) == SourceOf(site.printer, item)
    ensures StartsWith(Text(Get(item, "current_path"), site.printer), "/")
    ensures Get(item, "size_bytes") == Int(row.expected) && row.expected >= 0
    ensures row.observed.Some? <==> row.state == RowState.Verified || row.state == RowState.Mismatch
    ensures row.observed.Some? ==> (row.state == RowState.Verified <==> row.observed.value == row.expected)
    ensures row.observed == FoundAt(site, mappings, row.source)
  {
    hide MapPath;
    hide Render;
    hide Split;
    hide Keep;
    ParseIsWellFormed(Text(Get(item, "current_path"), site.printer));
    ParseRender(SourceOf(site.printer, item));
    AbsoluteText(Text(Get(item, "current_path"), site.printer));
  }

  /** The size found for a printed source path. */
  function FoundAt(site: Site, mappings: seq<Mapping>, source: string): Option<nat> {
    var mapped := MapPath(Parse(source), mappings);
    if mapped.Err? || mapped.value.None? then None
    else
      var info := Inspect(site.files(mapped.value.value));
      if info.Err? then None else info.value
  }

  // ---- The manifest is accepted ----

  lemma OneIsNormal(clock: Clock, row: Row, timestamp: string, index: nat)
    requires IsTime(clock, Str(timestamp)) && row.observed.Some? && StartsWith(row.source, "/")
    ensures NormalItem(clock, Evidence(row, timestamp), index) == Ok(Evidence(row, timestamp))
  {
    hide IsTime;
    hide StartsWith;
  }

  lemma NoneIsNormal(clock: Clock)
    ensures NormalItems(clock, []) == Ok([])
  {
  }

  lemma NormalSnoc(clock: Clock, items: seq<Json>, item: Json)
    requires NormalItems(clock, items) == Ok(items) && NormalItem(clock, item, |items|) == Ok(item)
    ensures NormalItems(clock, items + [item]) == Ok(items + [item])
  {
    hide NormalItem;
    assert (items + [item])[..|items|] == items;
  }

  lemma {:induction false} EvidenceIsNormal(clock: Clock, rows: seq<Row>, timestamp: string)
    requires IsTime(clock, Str(timestamp))
    requires forall i :: 0 <= i < |rows| ==> StartsWith(rows[i].source, "/")
    ensures NormalItems(clock, EvidenceOf(rows, timestamp)) == Ok(EvidenceOf(rows, timestamp))
  {
    hide IsTime;
    hide NormalItem;
    hide NormalItems;
    hide Evidence;
    hide StartsWith;
    if rows == [] {
      NoneIsNormal(clock);
    } else {
      var last := |rows| - 1;
      EvidenceIsNormal(clock, rows[..last], timestamp);
      var before := EvidenceOf(rows[..last], timestamp);
      if rows[last].observed.Some? {
        OneIsNormal(clock, rows[last], timestamp, |before|);
        NormalSnoc(clock, before, Evidence(rows[last], timestamp));
      } else {
        assert before + [] == before;
      }
    }
  }

  lemma ManifestIsValid(clock: Clock, rows: seq<Row>, timestamp: string, sourceLabel: string)
    requires IsTime(clock, Str(timestamp))
    requires NormalItems(clock, EvidenceOf(rows, timestamp)) == Ok(EvidenceOf(rows, timestamp))
    ensures var m := ManifestOf(rows, timestamp, sourceLabel);
            && (Validate(clock, m).Ok? <==> Strip(sourceLabel) != "")
            && (Validate(clock, m).Ok? ==> Validate(clock, m).value == m)
  {
    hide EvidenceOf;
    hide NormalItems;
    hide IsTime;
    hide Strip;
  }

  /** Whenever the producer succeeds, its manifest is valid exactly when the source
      label is not blank, and validation then returns it unchanged. */
  lemma ProducedManifestValidates(
      site: Site, clock: Clock, payload: map<string, Json>, mappings: seq<Mapping>,
      timestamp: string, at: real, sourceLabel: string)
    requires PrintsInstant(clock, timestamp, at)
    requires Build(site, payload, mappings, timestamp, sourceLabel).Ok?
    ensures var m := Build(site, payload, mappings, timestamp, sourceLabel).value.0;
            && (Validate(clock, m).Ok? <==> Strip(sourceLabel) != "")
            && (Validate(clock, m).Ok? ==> Validate(clock, m).value == m)
  {
    var items := CargoItems(payload).value;
    var rows := ObserveItems(site, mappings, items).value;
    assert IsTime(clock, Str(timestamp));
    hide ObserveItems;
    hide ObserveItem;
    hide EvidenceOf;
    hide ManifestOf;
    hide ReportOf;
    hide Strip;
    hide IsTime;
    hide NormalItems;
    hide CargoItems;
    hide Validate;
    hide StartsWith;
    RowsAgree(site, mappings, items);
    forall i | 0 <= i < |rows|
      ensures StartsWith(rows[i].source, "/")
    {
      RowFacts(site, mappings, items[i], rows[i]);
      RootedText(SourceOf(site.printer, items[i]));
    }
    EvidenceIsNormal(clock, rows, timestamp);
    ManifestIsValid(clock, rows, timestamp, sourceLabel);
  }

  // ---- Where the correlator files the evidence ----

  /** A path text that stripping leaves alone. */
  predicate Stable(s: string) {
    Strip(s) == s
  }

  /** The key under which the correlator files the evidence of a row. */
  function Key(source: string): string {
    Render(Parse(Strip(source)))
  }

  lemma {:induction false} StripRightShort(s: string)
    ensures StripRight(s) <= s && (StripRight(s) != s ==> |StripRight(s)| < |s|)
    ensures s != "" && !IsSpace(s[0]) ==> StripRight(s) != "" && StripRight(s)[0] == s[0]
  {
    if s != "" && IsSpace(s[|s| - 1]) {
      StripRightShort(s[..|s| - 1]);
    }
  }

  /** Stripping an absolute path text takes white space off its end only. */
  lemma StripAbsolute(s: string)
    requires StartsWith(s, "/")
    ensures StartsWith(Strip(s), "/") && Strip(s) <= s && (!Stable(s) ==> |Strip(s)| < |s|)
  {
    assert s[0] == '/' && StripLeft(s) == s;
    StripRightShort(s);
  }

  function Weight(pieces: seq<string>): nat {
    if pieces == [] then 0 else |pieces[0]| + 1 + Weight(pieces[1..])
  }

  lemma {:induction false} SplitWeight(s: string)
    ensures Weight(Split(s)) == |s| + 1
  {
    if s != "" {
      SplitWeight(s[1..]);
      var rest := Split(s[1..]);
      assert ([""] + rest)[1..] == rest;
      assert ([[s[0]] + rest[0]] + rest[1..])[1..] == rest[1..];
    }
  }

  lemma {:induction false} KeepWeight(pieces: seq<string>)
    ensures Weight(Keep(pieces)) <= Weight(pieces)
  {
    if pieces != [] {
      KeepWeight(pieces[1..]);
      var kept := Keep(pieces[1..]);
      assert ([pieces[0]] + kept)[1..] == kept;
      assert [] + kept == kept;
    }
  }

  lemma {:induction false} JoinWeight(parts: seq<string>)
    ensures |Join(parts)| == if parts == [] then 0 else Weight(parts) - 1
  {
    if |parts| > 1 {
      JoinWeight(parts[1..]);
    } else if |parts| == 1 {
      assert parts[1..] == [];
    }
  }

  lemma LeadingPieces(s: string)
    requires StartsWith(s, "/")
    ensures Split(s) == [""] + Split(s[1..])
    ensures StartsWith(s, "//") ==> Split(s) == ["", ""] + Split(s[2..])
  {
    if StartsWith(s, "//") {
      assert s[1..][1..] == s[2..];
      assert [""] + ([""] + Split(s[2..])) == ["", ""] + Split(s[2..]);
    }
  }

  /** Reading an absolute path text and printing it again never makes it longer. */
  lemma PrintedNotLonger(s: string)
    requires StartsWith(s, "/")
    ensures |Render(Parse(s))| <= |s|
  {
    LeadingPieces(s);
    var skip := if RootOf(s).Double? then 2 else 1;
    var rest := Split(s[skip..]);
    SplitWeight(s[skip..]);
    KeepWeight(rest);
    JoinWeight(Keep(rest));
    assert Keep(Split(s)) == Keep(rest) by {
      assert ([""] + Split(s[1..]))[1..] == Split(s[1..]);
      if skip == 2 {
        assert s[1..][1..] == s[2..];
        LeadingPieces(s[1..]);
        assert ([""] + rest)[1..] == rest;
      }
    }
  }

  lemma KeyFacts(source: string, p: Path)
    requires source == Render(p) && WellFormed(p) && Absolute(p)
    ensures Stable(source) ==> Key(source) == source
    ensures !Stable(source) ==> |Key(source)| < |source|
    ensures StartsWith(Strip(source), "/")
  {
    hide Parse;
    hide Render;
    hide Strip;
    RootedText(p);
    ParseRender(p);
    StripAbsolute(source);
    PrintedNotLonger(Strip(source));
  }

  /** The last observed row whose evidence is filed under a key. */
  function LastUnder(rows: seq<Row>, key: string): (r: Option<Row>)
    ensures r.Some? ==> r.value.observed.Some?
  {
    if rows == [] then None
    else
      var last := rows[|rows| - 1];
      if last.observed.Some? && Key(last.source) == key then Some(last) else LastUnder(rows[..|rows| - 1], key)
  }

  predicate Sources(rows: seq<Row>) {
    forall i :: 0 <= i < |rows| ==> StartsWith(Strip(rows[i].source), "/") && rows[i].source != ""
  }

  lemma {:induction false} FiledUnder(rd: Reader, rows: seq<Row>, timestamp: string, key: string)
    requires Sources(rows)
    ensures var filed := EvidenceByPath(rd, EvidenceOf(rows, timestamp));
            Lookup(filed, Some(key))
            == match LastUnder(rows, key) case None => None case Some(r) => Some(Evidence(r, timestamp).m)
  {
    hide Key;
    if rows != [] {
      var last := |rows| - 1;
      FiledUnder(rd, rows[..last], timestamp, key);
      var before := EvidenceOf(rows[..last], timestamp);
      if rows[last].observed.Some? {
        var e := Evidence(rows[last], timestamp);
        assert (before + [e])[..|before|] == before;
        KeyOfEvidence(rd, rows[last], timestamp);
      } else {
        assert before + [] == before;
      }
    }
  }

  lemma KeyOfEvidence(rd: Reader, row: Row, timestamp: string)
    requires row.observed.Some? && StartsWith(Strip(row.source), "/") && row.source != ""
    ensures CanonicalText(rd, Get(Evidence(row, timestamp).m, "path")) == Some(Key(row.source))
  {
    hide Render;
    hide Parse;
    hide Strip;
  }

  lemma {:induction false} LastUnderFacts(rows: seq<Row>, key: string)
    ensures LastUnder(rows, key).Some? <==>
              exists i :: 0 <= i < |rows| && rows[i].observed.Some? && Key(rows[i].source) == key
    ensures LastUnder(rows, key).Some? ==>
              exists i :: 0 <= i < |rows| && rows[i].observed.Some? && Key(rows[i].source) == key
                          && LastUnder(rows, key) == Some(rows[i])
  {
    hide Key;
    if rows != [] {
      var last := |rows| - 1;
      LastUnderFacts(rows[..last], key);
      assert forall i :: 0 <= i < last ==> rows[..last][i] == rows[i];
      if LastUnder(rows[..last], key).Some? {
        var i :| 0 <= i < last && rows[..last][i].observed.Some? && Key(rows[..last][i].source) == key
                 && LastUnder(rows[..last], key) == Some(rows[..last][i]);
        assert rows[i].observed.Some? && Key(rows[i].source) == key;
      }
    }
  }

  // ---- The three stages agree ----

  /** Every row with evidence has a path text that stripping leaves alone. */
  predicate AllStable(rows: seq<Row>) {
    forall i :: 0 <= i < |rows| && rows[i].observed.Some? ==> Stable(rows[i].source)
  }

  predicate ImportReadable(rd: Reader, item: Item) {
    Get(item, "imported_at").Null? || Number(rd, Get(item, "imported_at")).Some?
  }

  /** The import time of every item verified by the producer can be read as a number. */
  predicate ImportsReadable(rd: Reader, rows: seq<Row>, items: seq<Item>)
    requires |rows| == |items|
  {
    forall i :: 0 <= i < |rows| && rows[i].state == RowState.Verified ==> ImportReadable(rd, items[i])
  }

  /** The state that matches a row of the producer's report. */
  predicate StateMatches(rd: Reader, row: Row, item: Item, at: real, state: State) {
    match row.state
    case Missing => state.Awaiting?
    case Unmapped => state.Awaiting?
    case Mismatch => state.Mismatch?
    case Verified =>
      var imported := Get(item, "imported_at");
      var number := Number(rd, imported);
      if imported.Null? then state.Stale?
      else number.Some? && (if at < number.value then state.Stale? else state.Verified?)
  }

  predicate AllMatch(rd: Reader, rows: seq<Row>, items: seq<Item>, at: real, c: Result<Correlation, Error>)
    requires |rows| == |items|
  {
    && c.Ok? && |c.value.items| == |rows|
    && forall i :: 0 <= i < |rows| ==> StateMatches(rd, rows[i], items[i], at, c.value.items[i].state)
  }

  /** What the correlator computes for one observed item. */
  lemma OutcomeOfRow(rd: Reader, site: Site, mappings: seq<Mapping>, rows: seq<Row>, item: Item, row: Row,
                     timestamp: string, at: real)
    requires PrintsInstant(rd.clock, timestamp, at) && rd.printer == site.printer
    requires RowAgrees(site, mappings, item, row) && Sources(rows)
    ensures var filed := EvidenceByPath(rd, EvidenceOf(rows, timestamp));
            var o := OutcomeOf(rd, filed, item);
            match LastUnder(rows, row.source)
            case None => o.Ok? && o.value.state.Awaiting?
            case Some(r) =>
              if r.observed.Some? && r.observed.value != row.expected then o.Ok? && o.value.state.Mismatch?
              else
                && (o.Ok? <==> ImportReadable(rd, item))
                && (o.Ok? ==> StateMatches(rd, row.(state := RowState.Verified), item, at, o.value.state))
  {
    hide EvidenceOf;
    hide EvidenceByPath;
    hide Parse;
    hide Render;
    hide ObserveItem;
    hide LastUnder;
    RowFacts(site, mappings, item, row);
    FiledUnder(rd, rows, timestamp, row.source);
    LastUnderFacts(rows, row.source);
    assert CanonicalText(rd, Get(item, "current_path")) == Some(row.source);
    if LastUnder(rows, row.source).Some? {
      assert Timestamp(rd, Str(timestamp)) == Some(at);
    }
  }

  lemma RowsHaveSources(site: Site, mappings: seq<Mapping>, items: seq<Item>, rows: seq<Row>)
    requires ObserveItems(site, mappings, items) == Ok(rows)
    ensures Sources(rows)
  {
    hide Strip;
    hide Parse;
    hide Render;
    RowsAgree(site, mappings, items);
    forall i | 0 <= i < |rows|
      ensures StartsWith(Strip(rows[i].source), "/") && rows[i].source != ""
    {
      RowFacts(site, mappings, items[i], rows[i]);
      KeyFacts(rows[i].source, SourceOf(site.printer, items[i]));
      RootedText(SourceOf(site.printer, items[i]));
    }
  }

  /** With stable paths a row finds its own evidence, or a copy of it. */
  lemma StableRowFindsItself(site: Site, mappings: seq<Mapping>, items: seq<Item>, rows: seq<Row>, i: nat)
    requires ObserveItems(site, mappings, items) == Ok(rows) && i < |rows| && AllStable(rows)
    ensures LastUnder(rows, rows[i].source).Some? <==> rows[i].observed.Some?
    ensures LastUnder(rows, rows[i].source).Some? ==>
              LastUnder(rows, rows[i].source).value.observed == rows[i].observed
  {
    hide Strip;
    hide Parse;
    hide Render;
    hide ObserveItem;
    hide LastUnder;
    hide FoundAt;
    RowsAgree(site, mappings, items);
    LastUnderFacts(rows, rows[i].source);
    forall k | 0 <= k < |rows|
      ensures rows[k].observed == FoundAt(site, mappings, rows[k].source)
      ensures rows[k].observed.Some? ==> Key(rows[k].source) == rows[k].source
    {
      RowFacts(site, mappings, items[k], rows[k]);
      KeyFacts(rows[k].source, SourceOf(site.printer, items[k]));
    }
  }

  predicate LongestUnstable(rows: seq<Row>, i: nat)
    requires i < |rows|
  {
    && rows[i].observed.Some? && !Stable(rows[i].source)
    && forall k :: 0 <= k < |rows| && rows[k].observed.Some? && !Stable(rows[k].source)
         ==> |rows[k].source| <= |rows[i].source|
  }

  /** The evidence of a longest unstable path is filed where nobody looks for it. */
  lemma UnstableRowFindsNothing(site: Site, mappings: seq<Mapping>, items: seq<Item>, rows: seq<Row>, i: nat)
    requires ObserveItems(site, mappings, items) == Ok(rows) && i < |rows| && LongestUnstable(rows, i)
    ensures LastUnder(rows, rows[i].source).None?
  {
    hide Strip;
    hide Parse;
    hide Render;
    hide ObserveItem;
    hide LastUnder;
    RowsAgree(site, mappings, items);
    LastUnderFacts(rows, rows[i].source);
    forall k | 0 <= k < |rows| && rows[k].observed.Some?
      ensures Key(rows[k].source) != rows[i].source
    {
      RowFacts(site, mappings, items[k], rows[k]);
      KeyFacts(rows[k].source, SourceOf(site.printer, items[k]));
    }
  }

  lemma {:induction false} SomeLongestUnstable(rows: seq<Row>)
    requires !AllStable(rows)
    ensures exists i :: 0 <= i < |rows| && LongestUnstable(rows, i)
  {
    hide Stable;
    var last := |rows| - 1;
    var before := rows[..last];
    assert rows == before + [rows[last]];
    if AllStable(before) {
      assert LongestUnstable(rows, last);
    } else {
      SomeLongestUnstable(before);
      var i :| 0 <= i < last && LongestUnstable(before, i);
      assert rows[i] == before[i];
      if rows[last].observed.Some? && !Stable(rows[last].source) && |rows[i].source| < |rows[last].source| {
        assert LongestUnstable(rows, last);
      } else {
        assert LongestUnstable(rows, i);
      }
    }
  }

  lemma {:induction false} OutcomesItemwise(rd: Reader, filed: map<string, Item>, items: seq<Item>)
    ensures OutcomesOf(rd, filed, items).Ok? <==> forall i :: 0 <= i < |items| ==> OutcomeOf(rd, filed, items[i]).Ok?
    ensures OutcomesOf(rd, filed, items).Ok? ==>
              forall i :: 0 <= i < |items| ==> Ok(OutcomesOf(rd, filed, items).value[i]) == OutcomeOf(rd, filed, items[i])
  {
    hide OutcomeOf;
    if items != [] {
      var last := |items| - 1;
      OutcomesItemwise(rd, filed, items[..last]);
      assert forall i :: 0 <= i < last ==> items[..last][i] == items[i];
    }
  }

  /** The result for all stages. Whenever the producer succeeds under a source label
      that is not blank, correlating its validated manifest with the same items gives
      every item the state that matches its report, exactly when no path with evidence
      ends in white space and the import times of the verified items are numbers. */
  lemma StagesAgreeExactlyWhen(
      rd: Reader, site: Site, payload: map<string, Json>, mappings: seq<Mapping>,
      timestamp: string, at: real, sourceLabel: string)
    requires PrintsInstant(rd.clock, timestamp, at) && rd.printer == site.printer
    requires Strip(sourceLabel) != ""
    requires Build(site, payload, mappings, timestamp, sourceLabel).Ok?
    ensures var (m, report) := Build(site, payload, mappings, timestamp, sourceLabel).value;
            var items := CargoItems(payload).value;
            && Validate(rd.clock, m).Ok?
            && |report.items| == |items|
            && (AllMatch(rd, report.items, items, at, Correlate(rd, items, Some(Validate(rd.clock, m).value), true))
                <==> AllStable(report.items) && ImportsReadable(rd, report.items, items))
  {
    hide ObserveItems;
    hide CargoItems;
    hide Validate;
    hide EvidenceOf;
    hide Correlate;
    hide AllMatch;
    hide AllStable;
    hide ImportsReadable;
    hide Strip;
    var (m, report) := Build(site, payload, mappings, timestamp, sourceLabel).value;
    var items := CargoItems(payload).value;
    ProducedManifestValidates(site, rd.clock, payload, mappings, timestamp, at, sourceLabel);
    AgreeForward(rd, site, items, report.items, mappings, timestamp, at, sourceLabel);
  }

  lemma CorrelationOf(rd: Reader, items: seq<Item>, rows: seq<Row>, timestamp: string, sourceLabel: string)
    ensures var c := Correlate(rd, items, Some(ManifestOf(rows, timestamp, sourceLabel)), true);
            var o := OutcomesOf(rd, EvidenceByPath(rd, EvidenceOf(rows, timestamp)), items);
            && (c.Ok? <==> o.Ok?)
            && (c.Ok? ==> c.value.items == o.value && c.value.total == |items|)
            && (c.Ok? ==> c.value.verified == InState(o.value, State.Verified))
            && (c.Ok? ==> c.value.mismatch == InState(o.value, State.Mismatch))
            && (c.Ok? ==> c.value.stale == InState(o.value, Stale) && c.value.awaiting == InState(o.value, Awaiting))
  {
    hide OutcomesOf;
    hide EvidenceByPath;
    hide EvidenceOf;
    hide InState;
  }

  lemma AgreeForward(
      rd: Reader, site: Site, items: seq<Item>, rows: seq<Row>, mappings: seq<Mapping>,
      timestamp: string, at: real, sourceLabel: string)
    requires PrintsInstant(rd.clock, timestamp, at) && rd.printer == site.printer
    requires ObserveItems(site, mappings, items) == Ok(rows)
    ensures var c := Correlate(rd, items, Some(ManifestOf(rows, timestamp, sourceLabel)), true);
            AllMatch(rd, rows, items, at, c) <==> AllStable(rows) && ImportsReadable(rd, rows, items)
  {
    hide Correlate;
    hide ManifestOf;
    hide PrintsInstant;
    hide ObserveItems;
    hide OutcomeOf;
    hide OutcomesOf;
    hide EvidenceByPath;
    hide EvidenceOf;
    hide ImportReadable;
    hide StateMatches;
    hide Stable;
    CorrelationOf(rd, items, rows, timestamp, sourceLabel);
    var filed := EvidenceByPath(rd, EvidenceOf(rows, timestamp));
    OutcomesItemwise(rd, filed, items);
    if AllStable(rows) {
      forall i | 0 <= i < |rows|
        ensures var o := OutcomeOf(rd, filed, items[i]);
                && (rows[i].state == RowState.Verified ==> (o.Ok? <==> ImportReadable(rd, items[i])))
                && (rows[i].state != RowState.Verified ==> o.Ok?)
                && (o.Ok? ==> StateMatches(rd, rows[i], items[i], at, o.value.state))
      {
        StableOutcome(rd, site, items, rows, mappings, timestamp, at, i);
      }
    } else {
      SomeLongestUnstable(rows);
      var i :| 0 <= i < |rows| && LongestUnstable(rows, i);
      UnstableOutcome(rd, site, items, rows, mappings, timestamp, at, i);
    }
  }

  lemma StableOutcome(
      rd: Reader, site: Site, items: seq<Item>, rows: seq<Row>, mappings: seq<Mapping>,
      timestamp: string, at: real, i: nat)
    requires PrintsInstant(rd.clock, timestamp, at) && rd.printer == site.printer
    requires ObserveItems(site, mappings, items) == Ok(rows) && AllStable(rows) && i < |rows|
    ensures var o := OutcomeOf(rd, EvidenceByPath(rd, EvidenceOf(rows, timestamp)), items[i]);
            && (rows[i].state == RowState.Verified ==> (o.Ok? <==> ImportReadable(rd, items[i])))
            && (rows[i].state != RowState.Verified ==> o.Ok?)
            && (o.Ok? ==> StateMatches(rd, rows[i], items[i], at, o.value.state))
  {
    hide PrintsInstant;
    hide EvidenceByPath;
    hide EvidenceOf;
    hide OutcomeOf;
    hide LastUnder;
    hide ObserveItem;
    hide Stable;
    hide FoundAt;
    hide SourceOf;
    hide Render;
    hide Parse;
    hide Sources;
    hide ImportReadable;
    RowsAgree(site, mappings, items);
    RowsHaveSources(site, mappings, items, rows);
    RowFacts(site, mappings, items[i], rows[i]);
    OutcomeOfRow(rd, site, mappings, rows, items[i], rows[i], timestamp, at);
    StableRowFindsItself(site, mappings, items, rows, i);
  }

  lemma AwaitingNeverMatchesEvidence(rd: Reader, row: Row, item: Item, at: real)
    requires row.state == RowState.Verified || row.state == RowState.Mismatch
    ensures !StateMatches(rd, row, item, at, Awaiting)
  {
  }

  lemma UnstableOutcome(
      rd: Reader, site: Site, items: seq<Item>, rows: seq<Row>, mappings: seq<Mapping>,
      timestamp: string, at: real, i: nat)
    requires PrintsInstant(rd.clock, timestamp, at) && rd.printer == site.printer
    requires ObserveItems(site, mappings, items) == Ok(rows) && i < |rows| && LongestUnstable(rows, i)
    ensures var o := OutcomeOf(rd, EvidenceByPath(rd, EvidenceOf(rows, timestamp)), items[i]);
            && o.Ok? && o.value.state.Awaiting?
            && !StateMatches(rd, rows[i], items[i], at, o.value.state)
  {
    assert rows[i].observed.Some?;
    hide PrintsInstant;
    hide StateMatches;
    hide ImportReadable;
    hide EvidenceByPath;
    hide EvidenceOf;
    hide OutcomeOf;
    hide LastUnder;
    hide ObserveItem;
    hide Stable;
    hide FoundAt;
    hide SourceOf;
    hide LongestUnstable;
    hide Render;
    hide Parse;
    hide Sources;
    RowsAgree(site, mappings, items);
    RowsHaveSources(site, mappings, items, rows);
    RowFacts(site, mappings, items[i], rows[i]);
    OutcomeOfRow(rd, site, mappings, rows, items[i], rows[i], timestamp, at);
    AwaitingNeverMatchesEvidence(rd, rows[i], items[i], at);
    UnstableRowFindsNothing(site, mappings, items, rows, i);
  }

  // ---- The counts agree ----

  lemma {:induction false} MatchingCounts(rd: Reader, rows: seq<Row>, items: seq<Item>, outcomes: seq<Outcome>, at: real)
    requires |rows| == |items| == |outcomes|
    requires forall i :: 0 <= i < |rows| ==> StateMatches(rd, rows[i], items[i], at, outcomes[i].state)
    ensures InState(outcomes, State.Mismatch) == CountOf(rows, RowState.Mismatch)
    ensures InState(outcomes, State.Verified) + InState(outcomes, Stale) == CountOf(rows, RowState.Verified)
    ensures InState(outcomes, Awaiting) == CountOf(rows, Missing) + CountOf(rows, Unmapped)
  {
    if rows != [] {
      var last := |rows| - 1;
      assert StateMatches(rd, rows[last], items[last], at, outcomes[last].state);
      MatchingCounts(rd, rows[..last], items[..last], outcomes[..last], at);
    }
  }

  lemma {:induction false} RowCountsAddUp(rows: seq<Row>)
    ensures CountOf(rows, RowState.Verified) + CountOf(rows, RowState.Mismatch) + CountOf(rows, Missing)
            + CountOf(rows, Unmapped) == |rows|
  {
    if rows != [] {
      RowCountsAddUp(rows[..|rows| - 1]);
    }
  }

  /** Under the same conditions the totals of the two reports balance. */
  lemma ReportsBalance(
      rd: Reader, site: Site, payload: map<string, Json>, mappings: seq<Mapping>,
      timestamp: string, at: real, sourceLabel: string)
    requires PrintsInstant(rd.clock, timestamp, at) && rd.printer == site.printer
    requires Strip(sourceLabel) != ""
    requires Build(site, payload, mappings, timestamp, sourceLabel).Ok?
    requires var report := Build(site, payload, mappings, timestamp, sourceLabel).value.1;
             && AllStable(report.items) && |report.items| == |CargoItems(payload).value|
             && ImportsReadable(rd, report.items, CargoItems(payload).value)
    ensures var (m, report) := Build(site, payload, mappings, timestamp, sourceLabel).value;
            var c := Correlate(rd, CargoItems(payload).value, Some(m), true);
            && report.verified + report.mismatch + report.missing + report.unmapped == report.total
            && c.Ok? && c.value.total == report.total
            && c.value.verified + c.value.stale == report.verified
            && c.value.mismatch == report.mismatch
            && c.value.awaiting == report.missing + report.unmapped
  {
    hide ObserveItems;
    hide CargoItems;
    hide EvidenceOf;
    hide Correlate;
    hide AllStable;
    hide ImportsReadable;
    hide PrintsInstant;
    hide CountOf;
    hide StateMatches;
    hide Strip;
    var (m, report) := Build(site, payload, mappings, timestamp, sourceLabel).value;
    var items := CargoItems(payload).value;
    AgreeForward(rd, site, items, report.items, mappings, timestamp, at, sourceLabel);
    CorrelationOf(rd, items, report.items, timestamp, sourceLabel);
    RowCountsAddUp(report.items);
    MatchingCounts(rd, report.items, items, Correlate(rd, items, Some(m), true).value.items, at);
  }

  // ---- A file name that ends in white space ----

  const BLANK_ITEM: Item := map["current_path" := Str("/a /"), "size_bytes" := Int(1)]
  const BLANK_PAYLOAD: map<string, Json> := map["groups" := Obj(map["movies" := Arr([Obj(BLANK_ITEM)])])]
  const ROOT := Path(Single, [])
  const EVERYTHING := [Mapping(ROOT, ROOT)]

  lemma BlankStrips()
    ensures Strip("/a /") == "/a /" && Strip("/a ") == "/a"
  {
    assert StripLeft("/a /") == "/a /" && StripLeft("/a ") == "/a ";
    assert "/a "[..2] == "/a" && StripRight("/a") == "/a";
  }

  lemma BlankParse()
    ensures Parse("/a /") == Path(Single, ["a "])
  {
    assert "/a /" == "" + "/" + ("a " + "/" + "");
    SplitAtSlash("", "a " + "/" + "");
    SplitAtSlash("a ", "");
    var pieces := ["", "a ", ""];
    assert Split("/a /") == pieces;
    hide Split;
    assert pieces[1..] == ["a ", ""] && ["a ", ""][1..] == [""];
    assert Keep([""]) == [] && Keep(["a ", ""]) == ["a "] && Keep(pieces) == ["a "];
    assert RootOf("/a /") == Single;
  }

  lemma BlankText(printer: Printer)
    ensures SourceOf(printer, BLANK_ITEM) == Path(Single, ["a "]) && Render(SourceOf(printer, BLANK_ITEM)) == "/a "
    ensures !Stable("/a ")
  {
    hide Strip;
    hide Parse;
    BlankStrips();
    BlankParse();
    assert Text(Str("/a /"), printer) == "/a /";
  }

  lemma BlankGroup(items: seq<Json>)
    requires items == [Obj(BLANK_ITEM)]
    ensures GroupItems("movies", items) == Ok([BLANK_ITEM])
  {
    assert items[..0] == [];
    assert GroupItems("movies", items[..0]) == Ok([]);
    assert [] + [BLANK_ITEM] == [BLANK_ITEM];
  }

  lemma BlankCargo()
    ensures CargoItems(BLANK_PAYLOAD) == Ok([BLANK_ITEM])
  {
    hide GroupItems;
    var items := [Obj(BLANK_ITEM)];
    var groups := map["movies" := Arr(items)];
    BlankGroup(items);
    assert Get(groups, "movies") == Arr(items) && "tv" != "movies";
    assert Group(groups, "movies") == Ok([BLANK_ITEM]);
    assert Group(groups, "tv") == Ok([]);
    assert [] + [BLANK_ITEM] == [BLANK_ITEM];
    assert Get(BLANK_PAYLOAD, "cargo_bay") == Null && Get(BLANK_PAYLOAD, "groups") == Obj(groups);
  }

  lemma PlainCanonical(p: Path)
    requires WellFormed(p) && Absolute(p) && NoDotDot(p.parts)
    ensures Canonical(p) == p
  {
    CanonicalIsFolded(p);
    FoldPlain(true, [], p.parts);
    assert [] + p.parts == p.parts;
  }

  lemma BlankMapped()
    ensures MapPath(Path(Single, ["a "]), EVERYTHING) == Ok(Some(Path(Single, ["a "])))
  {
    hide MapPath;
    hide Canonical;
    var source := Path(Single, ["a "]);
    PlainCanonical(source);
    PlainCanonical(ROOT);
    assert Matches(source, EVERYTHING[0]) && EVERYTHING[0] in EVERYTHING;
    MapsByLongestPrefix(source, EVERYTHING);
    assert source.parts[0..] == source.parts && [] + source.parts == source.parts;
    assert Append(ROOT, source.parts) == source;
  }

  lemma BlankRow(site: Site)
    requires site.files(Path(Single, ["a "])) == Regular(1)
    ensures ObserveItem(site, EVERYTHING, BLANK_ITEM) == Ok(Row("/a ", Some("/a "), RowState.Verified, 1, Some(1)))
  {
    hide Split;
    hide Keep;
    hide Strip;
    hide MapPath;
    BlankText(site.printer);
    BlankMapped();
    hide Render;
    hide Parse;
    assert Text(Get(BLANK_ITEM, "current_path"), site.printer) != "" by { BlankNotEmpty(site.printer); }
  }

  lemma BlankNotEmpty(printer: Printer)
    ensures Text(Str("/a /"), printer) != ""
  {
    BlankStrips();
  }

  /** A library file whose name ends in a blank: the producer verifies its copy, the
      validator accepts the manifest, and the correlator still awaits the backup. */
  lemma TrailingBlankIsAwaited(rd: Reader, site: Site, timestamp: string, at: real)
    requires PrintsInstant(rd.clock, timestamp, at) && rd.printer == site.printer
    requires site.files(Path(Single, ["a "])) == Regular(1)
    ensures var built := Build(site, BLANK_PAYLOAD, EVERYTHING, timestamp, "x");
            && built.Ok? && built.value.1.verified == 1 && Validate(rd.clock, built.value.0) == Ok(built.value.0)
            && var c := Correlate(rd, [BLANK_ITEM], Some(built.value.0), true);
               c.Ok? && c.value.verified == 0 && c.value.awaiting == 1
  {
    hide ObserveItem;
    hide Validate;
    hide PrintsInstant;
    hide Correlate;
    hide EvidenceByPath;
    hide OutcomeOf;
    hide Strip;
    hide CargoItems;
    BlankCargo();
    BlankRow(site);
    BlankText(site.printer);
    var items := [BLANK_ITEM];
    var row := Row("/a ", Some("/a "), RowState.Verified, 1, Some(1));
    assert items[..0] == [];
    var rows := [row];
    assert ObserveItems(site, EVERYTHING, items) == Ok([] + rows);
    assert CountOf(rows, RowState.Verified) == 1;
    BlankLabel();
    ProducedManifestValidates(site, rd.clock, BLANK_PAYLOAD, EVERYTHING, timestamp, at, "x");
    assert LongestUnstable(rows, 0);
    UnstableOutcome(rd, site, items, rows, EVERYTHING, timestamp, at, 0);
    CorrelationOf(rd, items, rows, timestamp, "x");
    var filed := EvidenceByPath(rd, EvidenceOf(rows, timestamp));
    var o := OutcomeOf(rd, filed, BLANK_ITEM).value;
    assert OutcomesOf(rd, filed, items) == Ok([] + [o]);
    assert InState([o], State.Verified) == 0 && InState([o], Awaiting) == 1;
  }

  lemma BlankLabel()
    ensures Strip("x") == "x"
  {
  }
}
