/** What a build covers: the items of the payload's own lists, each observed once and
    in order, and the contents of the manifest and the report. */
module BackupCoverage {
  import opened Core
  import opened JsonValues
  import opened LexicalPath
  import opened BackupProducer

  // ---- The payload ----

  /** The groups are those of the `cargo_bay` object when the payload has one. */
  predicate GroupsAre(payload: map<string, Json>, groups: map<string, Json>) {
    if "cargo_bay" in payload && payload["cargo_bay"].Obj?
    then "groups" in payload["cargo_bay"].m && payload["cargo_bay"].m["groups"] == Obj(groups)
    else "groups" in payload && payload["groups"] == Obj(groups)
  }

  /** A group that is absent or null counts as empty. */
  predicate ListIs(groups: map<string, Json>, name: string, items: seq<Json>) {
    if name in groups && groups[name] != Null then groups[name] == Arr(items) else items == []
  }

  predicate NotAList(groups: map<string, Json>, name: string) {
    name in groups && groups[name] != Null && !groups[name].Arr?
  }

  predicate AllObjects(items: seq<Json>) {
    forall i :: 0 <= i < |items| ==> items[i].Obj?
  }

  predicate SameItems(items: seq<Json>, objects: seq<Item>) {
    |objects| == |items| && forall i :: 0 <= i < |items| ==> items[i] == Obj(objects[i])
  }

  lemma {:induction false} GroupItemsAre(name: string, items: seq<Json>)
    ensures GroupItems(name, items).Ok? <==> AllObjects(items)
    ensures GroupItems(name, items).Ok? ==> SameItems(items, GroupItems(name, items).value)
    ensures GroupItems(name, items).Err? ==> GroupItems(name, items).error == ItemInvalid(name)
  {
    if items != [] {
      GroupItemsAre(name, items[..|items| - 1]);
    }
  }

  lemma GroupIs(groups: map<string, Json>, name: string, items: seq<Json>)
    requires ListIs(groups, name, items)
    ensures Group(groups, name).Ok? <==> AllObjects(items)
    ensures Group(groups, name).Ok? ==> SameItems(items, Group(groups, name).value)
    ensures Group(groups, name).Err? ==> Group(groups, name).error == ItemInvalid(name)
  {
    GroupItemsAre(name, items);
  }

  lemma NoList(groups: map<string, Json>, name: string)
    requires NotAList(groups, name)
    ensures Group(groups, name) == Err(GroupInvalid(name))
  {
  }

  lemma CargoItemsAre(payload: map<string, Json>, groups: map<string, Json>, tv: seq<Json>, movies: seq<Json>)
    requires GroupsAre(payload, groups) && ListIs(groups, "tv", tv) && ListIs(groups, "movies", movies)
    ensures CargoItems(payload).Ok? <==> AllObjects(tv + movies)
    ensures CargoItems(payload).Ok? ==> SameItems(tv + movies, CargoItems(payload).value)
  {
    hide Group;
    hide ListIs;
    GroupIs(groups, "tv", tv);
    GroupIs(groups, "movies", movies);
    assert AllObjects(tv + movies) <==> AllObjects(tv) && AllObjects(movies) by {
      var all := tv + movies;
      assert forall i :: 0 <= i < |tv| ==> all[i] == tv[i];
      assert forall i :: 0 <= i < |movies| ==> all[|tv| + i] == movies[i];
    }
  }

  lemma {:induction false} RowsObserved(site: Site, mappings: seq<Mapping>, items: seq<Item>)
    ensures ObserveItems(site, mappings, items).Ok?
       <==> forall i :: 0 <= i < |items| ==> ObserveItem(site, mappings, items[i]).Ok?
    ensures ObserveItems(site, mappings, items).Ok? ==>
              forall i :: 0 <= i < |items| ==>
                ObserveItem(site, mappings, items[i]) == Ok(ObserveItems(site, mappings, items).value[i])
  {
    hide ObserveItem;
    if items != [] {
      var last := |items| - 1;
      RowsObserved(site, mappings, items[..last]);
      assert forall i :: 0 <= i < last ==> items[..last][i] == items[i];
    }
  }

  /** A build observes every item of the two lists, the shows before the movies, and
      succeeds exactly when each of them is an object that can be observed. */
  lemma BuildCoversTheLists(
      site: Site, payload: map<string, Json>, mappings: seq<Mapping>, timestamp: string, sourceLabel: string,
      groups: map<string, Json>, tv: seq<Json>, movies: seq<Json>)
    requires GroupsAre(payload, groups) && ListIs(groups, "tv", tv) && ListIs(groups, "movies", movies)
    ensures var r := Build(site, payload, mappings, timestamp, sourceLabel);
            && (r.Ok? <==>
                  && mappings != []
                  && (forall i :: 0 <= i < |tv| ==> tv[i].Obj? && ObserveItem(site, mappings, tv[i].m).Ok?)
                  && (forall i :: 0 <= i < |movies| ==> movies[i].Obj? && ObserveItem(site, mappings, movies[i].m).Ok?))
            && (r.Ok? ==>
                  var rows := r.value.1.items;
                  && |rows| == |tv| + |movies|
                  && (forall i :: 0 <= i < |tv| ==> ObserveItem(site, mappings, tv[i].m) == Ok(rows[i]))
                  && (forall i :: 0 <= i < |movies| ==>
                        ObserveItem(site, mappings, movies[i].m) == Ok(rows[|tv| + i])))
  {
    hide ObserveItem;
    hide ObserveItems;
    hide CargoItems;
    hide ManifestOf;
    hide GroupsAre;
    hide ListIs;
    CargoItemsAre(payload, groups, tv, movies);
    var all := tv + movies;
    assert forall i :: 0 <= i < |tv| ==> all[i] == tv[i];
    assert forall i :: 0 <= i < |movies| ==> all[|tv| + i] == movies[i];
    if CargoItems(payload).Ok? {
      RowsObserved(site, mappings, CargoItems(payload).value);
    }
  }

  /** Without those lists there is no build: with no mapping, no groups object, or a group
      that is neither null nor a list. */
  lemma BuildNeedsTheLists(
      site: Site, payload: map<string, Json>, mappings: seq<Mapping>, timestamp: string, sourceLabel: string)
    ensures var r := Build(site, payload, mappings, timestamp, sourceLabel);
            && (mappings == [] ==> r == Err(NoMappings))
            && (mappings != [] && (forall groups :: !GroupsAre(payload, groups)) ==> r == Err(GroupsUnavailable))
            && (r.Ok? ==> exists groups, tv, movies ::
                  GroupsAre(payload, groups) && ListIs(groups, "tv", tv) && ListIs(groups, "movies", movies))
  {
    hide ObserveItems;
    hide GroupItems;
    hide ManifestOf;
    var cargo := if "cargo_bay" in payload && payload["cargo_bay"].Obj? then payload["cargo_bay"].m else payload;
    if "groups" in cargo && cargo["groups"].Obj? {
      var groups := cargo["groups"].m;
      assert GroupsAre(payload, groups);
      if Build(site, payload, mappings, timestamp, sourceLabel).Ok? {
        var tv := if "tv" in groups && groups["tv"].Arr? then groups["tv"].a else [];
        var movies := if "movies" in groups && groups["movies"].Arr? then groups["movies"].a else [];
        assert ListIs(groups, "tv", tv) && ListIs(groups, "movies", movies);
      }
    }
  }

  /** Which error: the shows are looked at before the movies, and only then observed. */
  lemma BuildFailsFirst(
      site: Site, payload: map<string, Json>, mappings: seq<Mapping>, timestamp: string, sourceLabel: string,
      groups: map<string, Json>)
    requires mappings != [] && GroupsAre(payload, groups)
    ensures var r := Build(site, payload, mappings, timestamp, sourceLabel);
            && (NotAList(groups, "tv") ==> r == Err(GroupInvalid("tv")))
            && (forall tv :: ListIs(groups, "tv", tv) ==>
                  && (!AllObjects(tv) ==> r == Err(ItemInvalid("tv")))
                  && (AllObjects(tv) && NotAList(groups, "movies") ==> r == Err(GroupInvalid("movies")))
                  && (forall movies :: ListIs(groups, "movies", movies) ==>
                        (AllObjects(tv) && !AllObjects(movies) ==> r == Err(ItemInvalid("movies")))))
  {
    hide Group;
    hide ObserveItems;
    if NotAList(groups, "tv") { NoList(groups, "tv"); }
    if NotAList(groups, "movies") { NoList(groups, "movies"); }
    forall items | ListIs(groups, "tv", items)
      ensures Group(groups, "tv").Ok? <==> AllObjects(items)
      ensures Group(groups, "tv").Err? ==> Group(groups, "tv").error == ItemInvalid("tv")
    {
      GroupIs(groups, "tv", items);
    }
    forall items | ListIs(groups, "movies", items)
      ensures Group(groups, "movies").Ok? <==> AllObjects(items)
      ensures Group(groups, "movies").Err? ==> Group(groups, "movies").error == ItemInvalid("movies")
    {
      GroupIs(groups, "movies", items);
    }
    hide ListIs;
    hide AllObjects;
  }

  // ---- One row ----

  /** An item whose path and size can be read is observed as its destination is found. */
  lemma ItemIsObserved(site: Site, mappings: seq<Mapping>, item: Item, mapped: Option<Path>)
    requires "size_bytes" in item && item["size_bytes"].Int? && item["size_bytes"].i >= 0
    requires var text := Text(Get(item, "current_path"), site.printer);
             text != "" && text[0] == '/' && MapPath(Parse(text), mappings) == Ok(mapped)
    ensures var source := Render(Parse(Text(Get(item, "current_path"), site.printer)));
            var size := item["size_bytes"].i;
            ObserveItem(site, mappings, item)
            == match mapped
               case None => Ok(Row(source, None, Unmapped, size, None))
               case Some(at) =>
                 match site.files(at)
                 case Absent => Ok(Row(source, Some(Render(at)), Missing, size, None))
                 case Regular(n) =>
                   Ok(Row(source, Some(Render(at)), if n == size then Verified else Mismatch, size, Some(n)))
                 case Failing => Err(Unreadable)
                 case Link => Err(IsSymlink)
                 case Special => Err(NotRegular)
  {
    var text := Text(Get(item, "current_path"), site.printer);
    AbsoluteExactlyWhen(text);
    hide Text;
    hide Parse;
    hide Render;
    hide MapPath;
  }

  lemma AbsoluteExactlyWhen(text: string)
    ensures Absolute(Parse(text)) <==> text != "" && text[0] == '/'
  {
    hide Split;
    hide Keep;
  }

  /** And an item is observed only if they can be. */
  lemma ObservedExactlyWhen(site: Site, mappings: seq<Mapping>, item: Item)
    requires MappingsOk(mappings)
    ensures var text := Text(Get(item, "current_path"), site.printer);
            var sized := "size_bytes" in item && item["size_bytes"].Int? && item["size_bytes"].i >= 0;
            var r := ObserveItem(site, mappings, item);
            if text == "" then r == Err(NoCurrentPath)
            else if text[0] != '/' then r == Err(NotAbsolute)
            else if !sized then r == Err(SizeInvalid)
            else MapPath(Parse(text), mappings).Ok? && (r.Err? ==> r.error in {Unreadable, IsSymlink, NotRegular})
  {
    var text := Text(Get(item, "current_path"), site.printer);
    MappingSucceeds(text, mappings);
    AbsoluteExactlyWhen(text);
    hide MappingsOk;
    hide Text;
    hide Parse;
    hide MapPath;
    hide Absolute;
    if "size_bytes" in item && item["size_bytes"].Int? {
      ObservedHasNoSuchError(site, Parse(text), item["size_bytes"].i, MapPath(Parse(text), mappings).value);
    }
    hide ObserveMapped;
  }

  lemma ObservedHasNoSuchError(site: Site, source: Path, size: int, mapped: Option<Path>)
    ensures var r := ObserveMapped(site, source, size, mapped);
            r.Err? ==> r.error in {Unreadable, IsSymlink, NotRegular}
  {
  }

  lemma MappingSucceeds(text: string, mappings: seq<Mapping>)
    requires MappingsOk(mappings)
    ensures MapPath(Parse(text), mappings).Ok?
  {
    ParseIsWellFormed(text);
    MapsByLongestPrefix(Parse(text), mappings);
  }

  // ---- The manifest and the report ----

  /** The rows ahead of a position whose copy exists. */
  function Seen(rows: seq<Row>, n: nat): set<nat>
    requires n <= |rows|
  {
    set i: nat | i < n && rows[i].observed.Some?
  }

  lemma {:induction false} EvidencePlaces(rows: seq<Row>, timestamp: string)
    ensures |EvidenceOf(rows, timestamp)| == |Seen(rows, |rows|)|
    ensures forall i :: 0 <= i < |rows| && rows[i].observed.Some? ==>
              && |Seen(rows, i)| < |EvidenceOf(rows, timestamp)|
              && EvidenceOf(rows, timestamp)[|Seen(rows, i)|] == Evidence(rows[i], timestamp)
  {
    hide Evidence;
    if rows == [] {
      assert Seen(rows, 0) == {};
    } else {
      var last := |rows| - 1;
      var init := rows[..last];
      EvidencePlaces(init, timestamp);
      SeenSnoc(init, rows[last]);
      assert rows == init + [rows[last]];
      hide Seen;
      var before := EvidenceOf(init, timestamp);
      assert EvidenceOf(rows, timestamp)
          == before + if rows[last].observed.Some? then [Evidence(rows[last], timestamp)] else [];
      hide EvidenceOf;
      forall i | 0 <= i < |rows| && rows[i].observed.Some?
        ensures |Seen(rows, i)| < |EvidenceOf(rows, timestamp)|
        ensures EvidenceOf(rows, timestamp)[|Seen(rows, i)|] == Evidence(rows[i], timestamp)
      {
        if i < last {
          assert init[i] == rows[i] && Seen(init, i) == Seen(rows, i);
        }
      }
    }
  }

  /** The manifest has one entry for each row whose copy exists, in the order of the rows. */
  lemma EvidenceExactly(rows: seq<Row>, timestamp: string)
    ensures |EvidenceOf(rows, timestamp)| == |Seen(rows, |rows|)|
    ensures forall i :: 0 <= i < |rows| && rows[i].observed.Some? ==>
              && |Seen(rows, i)| < |EvidenceOf(rows, timestamp)|
              && EvidenceOf(rows, timestamp)[|Seen(rows, i)|]
                 == Obj(map["path" := Str(rows[i].source), "size_bytes" := Int(rows[i].observed.value),
                            "backed_up_at" := Str(timestamp)])
  {
    EvidencePlaces(rows, timestamp);
    hide EvidenceOf;
    hide Seen;
  }

  lemma SeenSnoc(rows: seq<Row>, row: Row)
    ensures var more := rows + [row];
            && (forall n: nat :: n <= |rows| ==> Seen(more, n) == Seen(rows, n))
            && |Seen(more, |more|)| == |Seen(rows, |rows|)| + (if row.observed.Some? then 1 else 0)
  {
    var more := rows + [row];
    forall n: nat | n <= |rows|
      ensures Seen(more, n) == Seen(rows, n)
    {
      assert forall i: nat :: i < n ==> more[i] == rows[i];
    }
    assert Seen(more, |more|) == Seen(more, |rows|) + if row.observed.Some? then {|rows|} else {};
  }

  function InRowState(rows: seq<Row>, state: RowState): set<nat> {
    set i: nat | i < |rows| && rows[i].state == state
  }

  lemma {:induction false} CountExactly(rows: seq<Row>, state: RowState)
    ensures CountOf(rows, state) == |InRowState(rows, state)|
  {
    if rows == [] {
      assert InRowState(rows, state) == {};
    } else {
      var last := |rows| - 1;
      CountExactly(rows[..last], state);
      assert InRowState(rows, state) == InRowState(rows[..last], state) + if rows[last].state == state then {last} else {};
    }
  }

  /** What a successful build writes, field by field. */
  lemma BuildWrites(
      site: Site, payload: map<string, Json>, mappings: seq<Mapping>, timestamp: string, sourceLabel: string)
    requires Build(site, payload, mappings, timestamp, sourceLabel).Ok?
    ensures var (m, report) := Build(site, payload, mappings, timestamp, sourceLabel).value;
            var rows := report.items;
            && m == map["schema_version" := Int(1), "kind" := Str("truepanel.cargo_backup_manifest"),
                        "created_at" := Str(timestamp), "source" := Str(sourceLabel),
                        "items" := Arr(EvidenceOf(rows, timestamp))]
            && report.observedAt == timestamp && report.source == sourceLabel
            && report.total == |rows| && report.evidenceItems == |Seen(rows, |rows|)|
            && report.verified == |InRowState(rows, Verified)| && report.mismatch == |InRowState(rows, Mismatch)|
            && report.missing == |InRowState(rows, Missing)| && report.unmapped == |InRowState(rows, Unmapped)|
  {
    hide ObserveItems;
    hide CargoItems;
    hide EvidenceOf;
    hide CountOf;
    var rows := Build(site, payload, mappings, timestamp, sourceLabel).value.1.items;
    EvidenceExactly(rows, timestamp);
    CountExactly(rows, Verified);
    CountExactly(rows, Mismatch);
    CountExactly(rows, Missing);
    CountExactly(rows, Unmapped);
  }
}
