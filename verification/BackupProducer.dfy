/** The backup evidence producer: longest-prefix mapping of library paths to backup
    paths, and one observation of the backup copies. */
module BackupProducer {
  import opened Core
  import opened JsonValues
  import opened LexicalPath

  datatype BuildError =
    | NoMappings
    | GroupsUnavailable
    | GroupInvalid(name: string)
    | ItemInvalid(name: string)
    | NoCurrentPath
    | NotAbsolute
    | SizeInvalid
    | Escaped
    | Unreadable
    | IsSymlink
    | NotRegular

  // ---- Mapping ----

  datatype Mapping = Mapping(source: Path, backup: Path)

  /** What constructing a mapping demands. */
  predicate MappingOk(m: Mapping) {
    WellFormed(m.source) && WellFormed(m.backup) && Absolute(m.source) && Absolute(m.backup)
  }

  predicate MappingsOk(mappings: seq<Mapping>) {
    forall i :: 0 <= i < |mappings| ==> MappingOk(mappings[i])
  }

  predicate Matches(source: Path, m: Mapping) {
    IsUnder(Canonical(source), Canonical(m.source))
  }

  /** `len(path.parts)`, which counts the root. */
  function PartCount(p: Path): nat {
    |p.parts| + if Absolute(p) then 1 else 0
  }

  function MatchesOf(source: Path, mappings: seq<Mapping>): (r: seq<(nat, Mapping)>)
    ensures forall k :: 0 <= k < |r| ==> Matches(source, r[k].1) && r[k].0 == PartCount(Canonical(r[k].1.source))
  {
    if mappings == [] then []
    else
      var m := mappings[|mappings| - 1];
      MatchesOf(source, mappings[..|mappings| - 1])
      + if Matches(source, m) then [(PartCount(Canonical(m.source)), m)] else []
  }

  /** `max` by the first component: the first of the largest. */
  function FirstLargest(items: seq<(nat, Mapping)>): (i: nat)
    requires items != []
    ensures i < |items|
    ensures forall j :: 0 <= j < |items| ==> items[j].0 <= items[i].0
    ensures forall j :: 0 <= j < i ==> items[j].0 < items[i].0
  {
    var last := |items| - 1;
    if last == 0 then 0
    else
      var i := FirstLargest(items[..last]);
      assert forall j :: 0 <= j < last ==> items[..last][j] == items[j];
      if items[last].0 > items[i].0 then last else i
  }

  /** The destination under a chosen mapping. */
  function Destination(source: Path, m: Mapping): Path
    requires Matches(source, m)
  {
    Canonical(Append(Canonical(m.backup), Canonical(source).parts[|Canonical(m.source).parts|..]))
  }

  function MapPath(source: Path, mappings: seq<Mapping>): Result<Option<Path>, BuildError> {
    var matches := MatchesOf(source, mappings);
    if matches == [] then Ok(None)
    else
      var m := matches[FirstLargest(matches)].1;
      if !IsUnder(Destination(source, m), Canonical(m.backup)) then Err(Escaped)
      else Ok(Some(Destination(source, m)))
  }

  method MapBackupPath(source: Path, mappings: seq<Mapping>) returns (r: Result<Option<Path>, BuildError>)
    ensures r == MapPath(source, mappings)
  {
    hide Canonical;
    hide PartCount;
    hide Append;
    var matches: seq<(nat, Mapping)> := [];
    for i := 0 to |mappings|
      invariant matches == MatchesOf(source, mappings[..i])
    {
      assert mappings[..i + 1][..i] == mappings[..i];
      var prefix := Canonical(mappings[i].source);
      if IsUnder(Canonical(source), prefix) {
        matches := matches + [(PartCount(prefix), mappings[i])];
      }
    }
    assert mappings[..|mappings|] == mappings;
    if matches == [] { return Ok(None); }
    var best := 0;
    for i := 1 to |matches|
      invariant 0 <= best < |matches| && best == FirstLargest(matches[..i])
    {
      assert matches[..i + 1][..i] == matches[..i];
      if matches[i].0 > matches[best].0 { best := i; }
    }
    assert matches[..|matches|] == matches;
    var selected := matches[best].1;
    var backup := Canonical(selected.backup);
    var relative := Canonical(source).parts[|Canonical(selected.source).parts|..];
    var destination := Canonical(Append(backup, relative));
    if !IsUnder(destination, backup) { return Err(Escaped); }
    return Ok(Some(destination));
  }

  lemma {:induction false} MatchesOfHolds(source: Path, mappings: seq<Mapping>, m: Mapping)
    ensures m in mappings && Matches(source, m)
       <==> (PartCount(Canonical(m.source)), m) in MatchesOf(source, mappings)
    ensures forall k :: 0 <= k < |MatchesOf(source, mappings)| ==> MatchesOf(source, mappings)[k].1 in mappings
  {
    hide Canonical;
    hide PartCount;
    if mappings != [] {
      var last := |mappings| - 1;
      MatchesOfHolds(source, mappings[..last], m);
      assert mappings == mappings[..last] + [mappings[last]];
    }
  }

  /** A path under a normalised prefix keeps the components below it; nothing in them
      can climb out again. */
  lemma DestinationIs(source: Path, m: Mapping)
    requires WellFormed(source) && MappingOk(m) && Matches(source, m)
    ensures Absolute(source)
    ensures Destination(source, m)
         == Append(Canonical(m.backup), Canonical(source).parts[|Canonical(m.source).parts|..])
    ensures IsUnder(Destination(source, m), Canonical(m.backup))
    ensures WellFormed(Destination(source, m)) && Absolute(Destination(source, m))
  {
    CanonicalIsFolded(source);
    CanonicalIsFolded(m.source);
    CanonicalIsFolded(m.backup);
    var base, relative := Canonical(m.backup), Canonical(source).parts[|Canonical(m.source).parts|..];
    var joined := Append(base, relative);
    assert Components(joined.parts) && NoDotDot(joined.parts);
    CanonicalIsFolded(joined);
    FoldPlain(true, [], joined.parts);
    assert [] + joined.parts == joined.parts;
  }

  /** The mapping succeeds for every absolute mapping set: nothing when no prefix
      matches, else the backup prefix of a longest matching prefix followed by the
      remaining components. The escape error cannot happen. */
  lemma MapsByLongestPrefix(source: Path, mappings: seq<Mapping>)
    requires WellFormed(source) && MappingsOk(mappings)
    ensures MapPath(source, mappings).Ok?
    ensures MapPath(source, mappings).value.None? <==> forall m :: m in mappings ==> !Matches(source, m)
    ensures MapPath(source, mappings).value.Some? ==>
              exists m :: m in mappings && Longest(source, mappings, m)
                          && MapPath(source, mappings).value.value
                             == Append(Canonical(m.backup), Canonical(source).parts[|Canonical(m.source).parts|..])
  {
    hide Canonical;
    var matches := MatchesOf(source, mappings);
    if matches == [] {
      forall m | m in mappings
        ensures !Matches(source, m)
      {
        MatchesOfHolds(source, mappings, m);
      }
    } else {
      var m := matches[FirstLargest(matches)].1;
      MatchesOfHolds(source, mappings, m);
      assert MappingOk(m);
      DestinationIs(source, m);
      forall n | n in mappings && Matches(source, n)
        ensures |Canonical(n.source).parts| <= |Canonical(m.source).parts|
      {
        MatchesOfHolds(source, mappings, n);
        var k :| 0 <= k < |matches| && matches[k] == (PartCount(Canonical(n.source)), n);
      }
      assert Longest(source, mappings, m);
    }
  }

  predicate Longest(source: Path, mappings: seq<Mapping>, m: Mapping) {
    && Matches(source, m)
    && forall n :: n in mappings && Matches(source, n) ==> |Canonical(n.source).parts| <= |Canonical(m.source).parts|
  }

  /** Equal normalised source prefixes lead to equal normalised backup prefixes. */
  predicate Consistent(mappings: seq<Mapping>) {
    forall m, n :: m in mappings && n in mappings && Canonical(m.source) == Canonical(n.source)
      ==> Canonical(m.backup) == Canonical(n.backup)
  }

  /** For a consistent mapping set the order of the mappings does not matter. */
  lemma OrderDoesNotMatter(source: Path, a: seq<Mapping>, b: seq<Mapping>)
    requires WellFormed(source) && MappingsOk(a) && Consistent(a)
    requires forall m :: m in a <==> m in b
    ensures MapPath(source, a) == MapPath(source, b)
  {
    hide Canonical;
    hide MapPath;
    assert MappingsOk(b) by {
      forall i | 0 <= i < |b|
        ensures MappingOk(b[i])
      {
        assert b[i] in a;
      }
    }
    MapsByLongestPrefix(source, a);
    MapsByLongestPrefix(source, b);
    if MapPath(source, a).value.Some? {
      var m :| m in a && Longest(source, a, m)
               && MapPath(source, a).value.value
                  == Append(Canonical(m.backup), Canonical(source).parts[|Canonical(m.source).parts|..]);
      var n :| n in b && Longest(source, b, n)
               && MapPath(source, b).value.value
                  == Append(Canonical(n.backup), Canonical(source).parts[|Canonical(n.source).parts|..]);
      assert Canonical(m.source).parts == Canonical(n.source).parts;
    }
  }

  /** And consistency is what it takes: two mappings of one prefix to different places
      give their prefix a destination that depends on their order. */
  lemma InconsistentOrderMatters(m: Mapping, n: Mapping)
    requires MappingOk(m) && MappingOk(n)
    requires Canonical(m.source) == Canonical(n.source) && Canonical(m.backup) != Canonical(n.backup)
    ensures MapPath(m.source, [m, n]) == Ok(Some(Canonical(m.backup)))
    ensures MapPath(m.source, [n, m]) == Ok(Some(Canonical(n.backup)))
  {
    hide Canonical;
    FirstWins(m, n);
    FirstWins(n, m);
    assert MatchesOf(m.source, [n, m]) == MatchesOf(n.source, [n, m]);
  }

  lemma FirstWins(m: Mapping, n: Mapping)
    requires MappingOk(m) && MappingOk(n) && Canonical(m.source) == Canonical(n.source)
    ensures MapPath(m.source, [m, n]) == Ok(Some(Canonical(m.backup)))
    ensures MapPath(n.source, [m, n]) == Ok(Some(Canonical(m.backup)))
    ensures MatchesOf(m.source, [m, n]) == MatchesOf(n.source, [m, n])
  {
    hide Canonical;
    var size := PartCount(Canonical(m.source));
    forall source | source == m.source || source == n.source
      ensures MatchesOf(source, [m, n]) == [(size, m), (size, n)]
      ensures MapPath(source, [m, n]) == Ok(Some(Canonical(m.backup)))
    {
      assert [m, n][..1] == [m] && [m][..0] == [];
      assert MatchesOf(source, [m]) == [] + [(size, m)];
      assert MatchesOf(source, [m, n]) == [(size, m)] + [(size, n)];
      assert FirstLargest([(size, m), (size, n)]) == 0;
      DestinationIs(source, m);
      var base := Canonical(m.backup);
      assert Canonical(source).parts[|Canonical(m.source).parts|..] == [];
      assert Append(base, []) == base;
    }
  }

  // ---- Cargo payload ----

  type Item = map<string, Json>

  function GroupItems(name: string, items: seq<Json>): Result<seq<Item>, BuildError> {
    if items == [] then Ok([])
    else
      var last := |items| - 1;
      var before := GroupItems(name, items[..last]);
      if before.Err? then before
      else if !items[last].Obj? then Err(ItemInvalid(name))
      else Ok(before.value + [items[last].m])
  }

  function Group(groups: map<string, Json>, name: string): Result<seq<Item>, BuildError> {
    var items := Get(groups, name);
    if items.Null? then Ok([]) else if !items.Arr? then Err(GroupInvalid(name)) else GroupItems(name, items.a)
  }

  function CargoItems(payload: map<string, Json>): Result<seq<Item>, BuildError> {
    var cargo := Get(payload, "cargo_bay");
    var groups := Get(if cargo.Obj? then cargo.m else payload, "groups");
    if !groups.Obj? then Err(GroupsUnavailable)
    else
      var tv := Group(groups.m, "tv");
      if tv.Err? then tv
      else
        var movies := Group(groups.m, "movies");
        if movies.Err? then movies else Ok(tv.value + movies.value)
  }

  lemma {:induction false} GroupErrorStays(name: string, items: seq<Json>, k: nat)
    requires k <= |items| && GroupItems(name, items[..k]).Err?
    ensures GroupItems(name, items) == GroupItems(name, items[..k])
    decreases |items|
  {
    if k < |items| {
      var last := |items| - 1;
      assert items[..last][..k] == items[..k];
      GroupErrorStays(name, items[..last], k);
    } else {
      assert items[..k] == items;
    }
  }

  method CollectCargo(payload: map<string, Json>) returns (r: Result<seq<Item>, BuildError>)
    ensures r == CargoItems(payload)
  {
    var cargo := Get(payload, "cargo_bay");
    var groups := Get(if cargo.Obj? then cargo.m else payload, "groups");
    if !groups.Obj? { return Err(GroupsUnavailable); }
    var result: seq<Item> := [];
    var names := ["tv", "movies"];
    for n := 0 to 2
      invariant n == 0 ==> result == []
      invariant n == 1 ==> Group(groups.m, "tv") == Ok(result)
      invariant n == 2 ==> CargoItems(payload) == Ok(result)
    {
      var items := Get(groups.m, names[n]);
      if items.Null? {
        assert result + [] == result;
        continue;
      }
      if !items.Arr? { return Err(GroupInvalid(names[n])); }
      ghost var before := result;
      for i := 0 to |items.a|
        invariant GroupItems(names[n], items.a[..i]).Ok? && result == before + GroupItems(names[n], items.a[..i]).value
      {
        assert items.a[..i + 1][..i] == items.a[..i];
        if !items.a[i].Obj? {
          GroupErrorStays(names[n], items.a, i + 1);
          return Err(ItemInvalid(names[n]));
        }
        result := result + [items.a[i].m];
      }
      assert items.a[..|items.a|] == items.a;
      assert before == [] ==> result == GroupItems(names[n], items.a).value;
    }
    return Ok(result);
  }

  // ---- One observation ----

  /** What `lstat` says of a destination. */
  datatype FileInfo = Absent | Failing | Link | Special | Regular(size: nat)

  datatype RowState = Verified | Mismatch | Missing | Unmapped

  datatype Row = Row(source: string, backup: Option<string>, state: RowState, expected: int, observed: Option<nat>)

  /** The host: how values print, and the file system of this observation. */
  datatype Site = Site(printer: Printer, files: Path -> FileInfo)

  function Inspect(info: FileInfo): Result<Option<nat>, BuildError> {
    match info
    case Absent => Ok(None)
    case Failing => Err(Unreadable)
    case Link => Err(IsSymlink)
    case Special => Err(NotRegular)
    case Regular(size) => Ok(Some(size))
  }

  function ObserveMapped(site: Site, source: Path, expected: int, mapped: Option<Path>): Result<Row, BuildError> {
    if mapped.None? then Ok(Row(Render(source), None, Unmapped, expected, None))
    else
      var info := Inspect(site.files(mapped.value));
      if info.Err? then Err(info.error)
      else if info.value.None? then Ok(Row(Render(source), Some(Render(mapped.value)), Missing, expected, None))
      else
        var state := if info.value.value == expected then Verified else Mismatch;
        Ok(Row(Render(source), Some(Render(mapped.value)), state, expected, info.value))
  }

  function ObserveItem(site: Site, mappings: seq<Mapping>, item: Item): Result<Row, BuildError> {
    var text := Text(Get(item, "current_path"), site.printer);
    var source := Parse(text);
    var size := Get(item, "size_bytes");
    if text == "" then Err(NoCurrentPath)
    else if !Absolute(source) then Err(NotAbsolute)
    else if !size.Int? || size.i < 0 then Err(SizeInvalid)
    else
      var mapped := MapPath(source, mappings);
      if mapped.Err? then Err(mapped.error) else ObserveMapped(site, source, size.i, mapped.value)
  }

  function ObserveItems(site: Site, mappings: seq<Mapping>, items: seq<Item>): (r: Result<seq<Row>, BuildError>)
    ensures r.Ok? ==> |r.value| == |items|
  {
    if items == [] then Ok([])
    else
      var last := |items| - 1;
      var before := ObserveItems(site, mappings, items[..last]);
      if before.Err? then before
      else
        var row := ObserveItem(site, mappings, items[last]);
        if row.Err? then Err(row.error) else Ok(before.value + [row.value])
  }

  /** The manifest carries what was seen: one entry for each copy that exists. */
  function EvidenceOf(rows: seq<Row>, timestamp: string): seq<Json> {
    if rows == [] then []
    else
      var last := |rows| - 1;
      EvidenceOf(rows[..last], timestamp)
      + if rows[last].observed.Some? then [Evidence(rows[last], timestamp)] else []
  }

  function Evidence(row: Row, timestamp: string): Json
    requires row.observed.Some?
  {
    Obj(map["path" := Str(row.source), "size_bytes" := Int(row.observed.value), "backed_up_at" := Str(timestamp)])
  }

  function CountOf(rows: seq<Row>, state: RowState): nat {
    if rows == [] then 0
    else CountOf(rows[..|rows| - 1], state) + if rows[|rows| - 1].state == state then 1 else 0
  }

  const KIND := "truepanel.cargo_backup_manifest"

  type Manifest = map<string, Json>

  datatype Report = Report(
    observedAt: string, source: string, total: nat, evidenceItems: nat,
    verified: nat, mismatch: nat, missing: nat, unmapped: nat, items: seq<Row>)

  function ManifestOf(rows: seq<Row>, timestamp: string, sourceLabel: string): Manifest {
    map["schema_version" := Int(1), "kind" := Str(KIND), "created_at" := Str(timestamp), "source" := Str(sourceLabel),
        "items" := Arr(EvidenceOf(rows, timestamp))]
  }

  function ReportOf(rows: seq<Row>, timestamp: string, sourceLabel: string): Report {
    Report(timestamp, sourceLabel, |rows|, |EvidenceOf(rows, timestamp)|, CountOf(rows, Verified), CountOf(rows, Mismatch),
           CountOf(rows, Missing), CountOf(rows, Unmapped), rows)
  }

  function Build(site: Site, payload: map<string, Json>, mappings: seq<Mapping>, timestamp: string, sourceLabel: string)
    : Result<(Manifest, Report), BuildError>
  {
    if mappings == [] then Err(NoMappings)
    else
      var items := CargoItems(payload);
      if items.Err? then Err(items.error)
      else
        var rows := ObserveItems(site, mappings, items.value);
        if rows.Err? then Err(rows.error)
        else Ok((ManifestOf(rows.value, timestamp, sourceLabel), ReportOf(rows.value, timestamp, sourceLabel)))
  }

  lemma {:induction false} ObserveErrorStays(site: Site, mappings: seq<Mapping>, items: seq<Item>, k: nat)
    requires k <= |items| && ObserveItems(site, mappings, items[..k]).Err?
    ensures ObserveItems(site, mappings, items) == ObserveItems(site, mappings, items[..k])
    decreases |items|
  {
    hide ObserveItem;
    if k < |items| {
      var last := |items| - 1;
      assert items[..last][..k] == items[..k];
      ObserveErrorStays(site, mappings, items[..last], k);
    } else {
      assert items[..k] == items;
    }
  }

  method BuildBackupManifest(
      site: Site, payload: map<string, Json>, mappings: seq<Mapping>, timestamp: string, sourceLabel: string)
    returns (r: Result<(Manifest, Report), BuildError>)
    ensures r == Build(site, payload, mappings, timestamp, sourceLabel)
  {
    hide ObserveItem;
    hide CargoItems;
    if mappings == [] { return Err(NoMappings); }
    var cargo := CollectCargo(payload);
    if cargo.Err? { return Err(cargo.error); }
    var items := cargo.value;
    var evidence: seq<Json>, rows: seq<Row> := [], [];
    for i := 0 to |items|
      invariant ObserveItems(site, mappings, items[..i]) == Ok(rows)
      invariant evidence == EvidenceOf(rows, timestamp)
    {
      assert items[..i + 1][..i] == items[..i];
      var row := ObserveItem(site, mappings, items[i]);
      if row.Err? {
        ObserveErrorStays(site, mappings, items, i + 1);
        return Err(row.error);
      }
      assert (rows + [row.value])[..|rows|] == rows;
      if row.value.observed.Some? {
        evidence := evidence + [Evidence(row.value, timestamp)];
      }
      rows := rows + [row.value];
    }
    assert items[..|items|] == items;
    var verified, mismatch, missing, unmapped := CountRows(rows);
    var manifest := map["schema_version" := Int(1), "kind" := Str(KIND), "created_at" := Str(timestamp),
                        "source" := Str(sourceLabel), "items" := Arr(evidence)];
    return Ok((manifest, Report(timestamp, sourceLabel, |rows|, |evidence|, verified, mismatch, missing, unmapped, rows)));
  }

  method CountRows(rows: seq<Row>) returns (verified: nat, mismatch: nat, missing: nat, unmapped: nat)
    ensures verified == CountOf(rows, Verified) && mismatch == CountOf(rows, Mismatch)
    ensures missing == CountOf(rows, Missing) && unmapped == CountOf(rows, Unmapped)
  {
    verified, mismatch, missing, unmapped := 0, 0, 0, 0;
    for i := 0 to |rows|
      invariant verified == CountOf(rows[..i], Verified) && mismatch == CountOf(rows[..i], Mismatch)
      invariant missing == CountOf(rows[..i], Missing) && unmapped == CountOf(rows[..i], Unmapped)
    {
      assert rows[..i + 1][..i] == rows[..i];
      match rows[i].state
      case Verified => verified := verified + 1;
      case Mismatch => mismatch := mismatch + 1;
      case Missing => missing := missing + 1;
      case Unmapped => unmapped := unmapped + 1;
    }
    assert rows[..|rows|] == rows;
  }
}
