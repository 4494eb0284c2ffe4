/** Validation of a backup manifest: one pass that stops at the first bad field. */
module BackupManifest {
  import opened Core
  import opened JsonValues
  import opened BackupProducer

  /** Reading a timestamp once a trailing `Z` has been written as an offset: the
      instant, with no zone read as UTC, or nothing. */
  type Clock = string -> Option<real>

  datatype Invalid =
    | BadSchema
    | BadKind
    | BadCreatedAt
    | BadSource
    | BadItems
    | NotAnObject(index: nat)
    | BadPath(index: nat)
    | BadSize(index: nat)
    | BadBackedUpAt(index: nat)
    | BadDigest(index: nat)

  predicate IsHex(c: char) {
    '0' <= c <= '9' || 'a' <= c <= 'f' || 'A' <= c <= 'F'
  }

  predicate IsDigest(s: string) {
    |s| == 64 && forall i :: 0 <= i < 64 ==> IsHex(s[i])
  }

  function LowerHex(s: string): (r: string)
    ensures |r| == |s|
    ensures forall i :: 0 <= i < |s| && IsHex(s[i]) ==> IsHex(r[i]) && !('A' <= r[i] <= 'F')
  {
    if s == "" then "" else [if 'A' <= s[0] <= 'F' then s[0] - 'A' + 'a' else s[0]] + LowerHex(s[1..])
  }

  predicate IsTime(clock: Clock, v: Json) {
    v.Str? && Strip(v.s) != "" && clock(v.s).Some?
  }

  function NormalItem(clock: Clock, item: Json, index: nat): Result<Json, Invalid> {
    if !item.Obj? then Err(NotAnObject(index))
    else
      var path, size, at, sha :=
        Get(item.m, "path"), Get(item.m, "size_bytes"), Get(item.m, "backed_up_at"), Get(item.m, "sha256");
      var normal := map["path" := path, "size_bytes" := size, "backed_up_at" := at];
      if !(path.Str? && StartsWith(path.s, "/")) then Err(BadPath(index))
      else if !size.Int? || size.i < 0 then Err(BadSize(index))
      else if !IsTime(clock, at) then Err(BadBackedUpAt(index))
      else if sha.Null? then Ok(Obj(normal))
      else if !(sha.Str? && IsDigest(sha.s)) then Err(BadDigest(index))
      else Ok(Obj(normal["sha256" := Str(LowerHex(sha.s))]))
  }

  function NormalItems(clock: Clock, items: seq<Json>): Result<seq<Json>, Invalid> {
    if items == [] then Ok([])
    else
      var last := |items| - 1;
      var before := NormalItems(clock, items[..last]);
      if before.Err? then before
      else
        var item := NormalItem(clock, items[last], last);
        if item.Err? then Err(item.error) else Ok(before.value + [item.value])
  }

  function Validate(clock: Clock, m: Manifest): Result<Manifest, Invalid> {
    var items := Get(m, "items");
    if !PyEq(Get(m, "schema_version"), Int(1)) then Err(BadSchema)
    else if Get(m, "kind") != Str(KIND) then Err(BadKind)
    else if !IsTime(clock, Get(m, "created_at")) then Err(BadCreatedAt)
    else if !(Get(m, "source").Str? && Strip(Get(m, "source").s) != "") then Err(BadSource)
    else if !items.Arr? then Err(BadItems)
    else
      var normal := NormalItems(clock, items.a);
      if normal.Err? then Err(normal.error)
      else Ok(map["schema_version" := Int(1), "kind" := Str(KIND), "created_at" := Get(m, "created_at"),
                  "source" := Get(m, "source"), "items" := Arr(normal.value)])
  }

  lemma {:induction false} ItemErrorStays(clock: Clock, items: seq<Json>, k: nat)
    requires k <= |items| && NormalItems(clock, items[..k]).Err?
    ensures NormalItems(clock, items) == NormalItems(clock, items[..k])
    decreases |items|
  {
    hide NormalItem;
    if k < |items| {
      var last := |items| - 1;
      assert items[..last][..k] == items[..k];
      ItemErrorStays(clock, items[..last], k);
    } else {
      assert items[..k] == items;
    }
  }

  method ValidateBackupManifest(clock: Clock, m: Manifest) returns (r: Result<Manifest, Invalid>)
    ensures r == Validate(clock, m)
  {
    hide NormalItem;
    if !PyEq(Get(m, "schema_version"), Int(1)) { return Err(BadSchema); }
    if Get(m, "kind") != Str(KIND) { return Err(BadKind); }
    var createdAt := Get(m, "created_at");
    if !IsTime(clock, createdAt) { return Err(BadCreatedAt); }
    var source := Get(m, "source");
    if !source.Str? || Strip(source.s) == "" { return Err(BadSource); }
    var items := Get(m, "items");
    if !items.Arr? { return Err(BadItems); }
    var normal: seq<Json> := [];
    for i := 0 to |items.a|
      invariant NormalItems(clock, items.a[..i]) == Ok(normal)
    {
      assert items.a[..i + 1][..i] == items.a[..i];
      var item := NormalItem(clock, items.a[i], i);
      if item.Err? {
        ItemErrorStays(clock, items.a, i + 1);
        return Err(item.error);
      }
      normal := normal + [item.value];
    }
    assert items.a[..|items.a|] == items.a;
    return Ok(map["schema_version" := Int(1), "kind" := Str(KIND), "created_at" := createdAt, "source" := source,
                  "items" := Arr(normal)]);
  }

  /** What validation returns is valid, and validating it again changes nothing. */
  lemma ValidatedStaysValid(clock: Clock, m: Manifest)
    requires Validate(clock, m).Ok?
    ensures Validate(clock, Validate(clock, m).value) == Validate(clock, m)
  {
    hide NormalItem;
    NormalItemsTwice(clock, Get(m, "items").a);
  }

  lemma NormalItemTwice(clock: Clock, item: Json, index: nat)
    requires NormalItem(clock, item, index).Ok?
    ensures NormalItem(clock, NormalItem(clock, item, index).value, index) == NormalItem(clock, item, index)
  {
    var sha := Get(item.m, "sha256");
    if sha.Str? {
      LowerHexTwice(sha.s);
    }
  }

  lemma {:induction false} LowerHexTwice(s: string)
    ensures LowerHex(LowerHex(s)) == LowerHex(s)
  {
    if s != "" {
      assert LowerHex(s)[1..] == LowerHex(s[1..]);
      LowerHexTwice(s[1..]);
    }
  }

  lemma {:induction false} NormalItemsTwice(clock: Clock, items: seq<Json>)
    requires NormalItems(clock, items).Ok?
    ensures |NormalItems(clock, items).value| == |items|
    ensures NormalItems(clock, NormalItems(clock, items).value) == NormalItems(clock, items)
  {
    hide NormalItem;
    if items != [] {
      var last := |items| - 1;
      NormalItemsTwice(clock, items[..last]);
      NormalItemTwice(clock, items[last], last);
      var normal := NormalItems(clock, items).value;
      assert normal[..last] == NormalItems(clock, items[..last]).value;
    }
  }

  // ---- What a valid manifest says ----

  predicate SaysTime(clock: Clock, m: map<string, Json>, key: string) {
    key in m && m[key].Str? && Strip(m[key].s) != "" && clock(m[key].s).Some?
  }

  predicate IsOne(v: Json) {
    v == Int(1) || v == Bool(true) || (v.Real? && v.r == 1.0)
  }

  predicate SaysDigest(m: map<string, Json>)
    requires "sha256" in m
  {
    && m["sha256"].Str? && |m["sha256"].s| == 64
    && forall i :: 0 <= i < 64 ==> m["sha256"].s[i] in "0123456789abcdefABCDEF"
  }

  predicate ValidItem(clock: Clock, item: Json) {
    && item.Obj?
    && "path" in item.m && item.m["path"].Str? && item.m["path"].s != "" && item.m["path"].s[0] == '/'
    && "size_bytes" in item.m && item.m["size_bytes"].Int? && item.m["size_bytes"].i >= 0
    && SaysTime(clock, item.m, "backed_up_at")
    && ("sha256" in item.m && item.m["sha256"] != Null ==> SaysDigest(item.m))
  }

  /** The same letters and digits, the letters in lower case. */
  predicate Lowered(s: string, low: string) {
    && |low| == |s|
    && forall i :: 0 <= i < |s| ==> low[i] == if 'A' <= s[i] <= 'F' then (s[i] as int + 32) as char else s[i]
  }

  /** An entry as validation keeps it: its three fields, the digest in lower case, nothing else. */
  predicate Kept(item: Json, normal: Json)
    requires item.Obj? && {"path", "size_bytes", "backed_up_at"} <= item.m.Keys
  {
    var fields := map["path" := item.m["path"], "size_bytes" := item.m["size_bytes"],
                      "backed_up_at" := item.m["backed_up_at"]];
    if "sha256" !in item.m || item.m["sha256"] == Null then normal == Obj(fields)
    else
      && normal.Obj? && normal.m.Keys == fields.Keys + {"sha256"} && normal.m["sha256"].Str? && item.m["sha256"].Str?
      && normal == Obj(fields["sha256" := normal.m["sha256"]])
      && Lowered(item.m["sha256"].s, normal.m["sha256"].s)
  }

  lemma {:induction false} LowerHexIs(s: string)
    ensures Lowered(s, LowerHex(s))
  {
    if s != "" {
      LowerHexIs(s[1..]);
      var low := LowerHex(s);
      assert low[1..] == LowerHex(s[1..]);
      forall i | 0 <= i < |s|
        ensures low[i] == if 'A' <= s[i] <= 'F' then (s[i] as int + 32) as char else s[i]
      {
        if i > 0 {
          assert low[i] == low[1..][i - 1] && s[i] == s[1..][i - 1];
        }
      }
    }
  }

  lemma HexDigits(c: char)
    ensures IsHex(c) <==> c in "0123456789abcdefABCDEF"
  {
  }

  lemma DigestExactlyWhen(m: map<string, Json>)
    requires "sha256" in m
    ensures m["sha256"].Str? && IsDigest(m["sha256"].s) <==> SaysDigest(m)
  {
    hide IsHex;
    forall c: char
      ensures IsHex(c) <==> c in "0123456789abcdefABCDEF"
    {
      HexDigits(c);
    }
  }

  lemma TimeExactlyWhen(clock: Clock, m: map<string, Json>, key: string)
    ensures IsTime(clock, Get(m, key)) <==> SaysTime(clock, m, key)
  {
    hide Strip;
  }

  lemma ItemExactlyWhen(clock: Clock, item: Json, index: nat)
    ensures NormalItem(clock, item, index).Ok? <==> ValidItem(clock, item)
    ensures ValidItem(clock, item) ==> {"path", "size_bytes", "backed_up_at"} <= item.m.Keys
                                       && Kept(item, NormalItem(clock, item, index).value)
  {
    if item.Obj? {
      TimeExactlyWhen(clock, item.m, "backed_up_at");
      if "sha256" in item.m {
        DigestExactlyWhen(item.m);
        if item.m["sha256"].Str? { LowerHexIs(item.m["sha256"].s); }
      }
    }
    hide IsTime;
    hide SaysTime;
    hide IsDigest;
    hide SaysDigest;
    hide LowerHex;
    hide Lowered;
  }

  predicate AllValid(clock: Clock, items: seq<Json>) {
    forall i :: 0 <= i < |items| ==> ValidItem(clock, items[i])
  }

  lemma {:induction false} ItemsExactlyWhen(clock: Clock, items: seq<Json>)
    ensures NormalItems(clock, items).Ok? <==> AllValid(clock, items)
    ensures NormalItems(clock, items).Ok? ==>
              var normal := NormalItems(clock, items).value;
              && |normal| == |items|
              && forall i :: 0 <= i < |items| ==> NormalItem(clock, items[i], i) == Ok(normal[i])
  {
    hide NormalItem;
    hide ValidItem;
    if items != [] {
      var last := |items| - 1;
      ItemsExactlyWhen(clock, items[..last]);
      ItemExactlyWhen(clock, items[last], last);
      hide Kept;
      assert AllValid(clock, items) <==> AllValid(clock, items[..last]) && ValidItem(clock, items[last]) by {
        assert forall i :: 0 <= i < last ==> items[..last][i] == items[i];
      }
    }
  }

  /** A manifest is valid exactly when its fields and each of its entries say what they
      should; what is kept is those fields and entries. */
  lemma ValidExactlyWhen(clock: Clock, m: Manifest)
    ensures Validate(clock, m).Ok? <==>
            && "schema_version" in m && IsOne(m["schema_version"])
            && "kind" in m && m["kind"] == Str("truepanel.cargo_backup_manifest")
            && SaysTime(clock, m, "created_at")
            && "source" in m && m["source"].Str? && Strip(m["source"].s) != ""
            && "items" in m && m["items"].Arr? && AllValid(clock, m["items"].a)
    ensures Validate(clock, m).Ok? ==>
              var kept := Validate(clock, m).value;
              && kept.Keys == {"schema_version", "kind", "created_at", "source", "items"}
              && kept["schema_version"] == Int(1) && kept["kind"] == m["kind"]
              && kept["created_at"] == m["created_at"] && kept["source"] == m["source"]
              && kept["items"].Arr? && |kept["items"].a| == |m["items"].a|
              && forall i :: 0 <= i < |m["items"].a| ==>
                   && ValidItem(clock, m["items"].a[i])
                   && Kept(m["items"].a[i], kept["items"].a[i])
  {
    SchemaIsOne(m);
    TimeExactlyWhen(clock, m, "created_at");
    if Get(m, "items").Arr? {
      var items := Get(m, "items").a;
      ItemsExactlyWhen(clock, items);
      forall i | 0 <= i < |items|
        ensures NormalItem(clock, items[i], i).Ok? <==> ValidItem(clock, items[i])
        ensures ValidItem(clock, items[i]) ==> {"path", "size_bytes", "backed_up_at"} <= items[i].m.Keys
                                               && Kept(items[i], NormalItem(clock, items[i], i).value)
      {
        ItemExactlyWhen(clock, items[i], i);
      }
    }
    hide PyEq;
    hide IsOne;
    hide IsTime;
    hide SaysTime;
    hide Strip;
    hide NormalItem;
    hide NormalItems;
    hide Kept;
  }

  lemma SchemaIsOne(m: Manifest)
    ensures PyEq(Get(m, "schema_version"), Int(1)) <==>
            "schema_version" in m && IsOne(m["schema_version"])
  {
  }
}
