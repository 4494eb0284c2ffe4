/** Configuration by recursive merging: defaults, the user's file, and a theme pack
    under the theme section. */
module ConfigMerge {
  import opened Core
  import opened JsonValues

  type Tree = map<string, Json>

  /** Merging at one place of the tree: two mappings key by key, anything else replaced. */
  function MergeValue(a: Json, b: Json): (r: Json)
    ensures a.Obj? && b.Obj? ==> r.Obj?
    decreases b
  {
    if a.Obj? && b.Obj? then
      Obj(map k | k in a.m.Keys + b.m.Keys ::
        if k !in b.m then a.m[k] else if k in a.m then MergeValue(a.m[k], b.m[k]) else b.m[k])
    else b
  }

  datatype Error = NotAMapping | CannotAssign

  /** `deep_merge` on any two values: empty overrides change nothing, overrides that
      are not a mapping fail, and so does setting a key on what is not a mapping. */
  function DeepMerge(defaults: Json, overrides: Json): Result<Json, Error> {
    var o := if Truthy(overrides) then overrides else Obj(map[]);
    if !o.Obj? then Err(NotAMapping)
    else if o.m == map[] then Ok(defaults)
    else if !defaults.Obj? then Err(CannotAssign)
    else Ok(MergeValue(defaults, o))
  }

  /** The recursion and its loop over the overriding keys, whatever their order. */
  method MergeTrees(defaults: Tree, overrides: Tree) returns (result: Tree)
    ensures Obj(result) == MergeValue(Obj(defaults), Obj(overrides))
    decreases Obj(overrides)
  {
    result := defaults;
    var todo := overrides.Keys;
    ghost var target := MergeValue(Obj(defaults), Obj(overrides)).m;
    while todo != {}
      invariant todo <= overrides.Keys
      invariant result.Keys == defaults.Keys + (overrides.Keys - todo)
      invariant forall k :: k in result ==> result[k] == if k in todo then defaults[k] else target[k]
    {
      var key :| key in todo;
      var value := overrides[key];
      assert target[key] == if key in defaults then MergeValue(defaults[key], value) else value;
      if key in result && result[key].Obj? && value.Obj? {
        var merged := MergeTrees(result[key].m, value.m);
        result := result[key := Obj(merged)];
      } else {
        result := result[key := value];
      }
      todo := todo - {key};
    }
    assert result == target;
  }

  predicate IsLeaf(v: Option<Json>) {
    v.Some? && !v.value.Obj?
  }

  // ---- Leaves ----

  function At(v: Json, path: seq<string>): Option<Json> {
    if path == [] then Some(v)
    else if v.Obj? && path[0] in v.m then At(v.m[path[0]], path[1..])
    else None
  }

  /** The tree has something at the path, or something other than a mapping on the way. */
  predicate Shadows(v: Json, path: seq<string>) {
    path == [] || !v.Obj? || (path[0] in v.m && Shadows(v.m[path[0]], path[1..]))
  }

  /** A leaf shows in the merge exactly when it is the override's leaf there, or the
      default's and no override shadows its path. */
  lemma {:induction false} LeafShowsExactlyWhen(a: Json, b: Json, path: seq<string>, leaf: Json)
    requires !leaf.Obj?
    ensures At(MergeValue(a, b), path) == Some(leaf)
      <==> At(b, path) == Some(leaf) || (At(a, path) == Some(leaf) && !Shadows(b, path))
    decreases |path|
  {
    if path != [] && a.Obj? && b.Obj? && path[0] in a.m && path[0] in b.m {
      LeafShowsExactlyWhen(a.m[path[0]], b.m[path[0]], path[1..], leaf);
    }
  }

  /** So every leaf of the overrides shows at its path. */
  lemma OverrideLeafShows(a: Json, b: Json, path: seq<string>, leaf: Json)
    requires !leaf.Obj? && At(b, path) == Some(leaf)
    ensures At(MergeValue(a, b), path) == Some(leaf)
  {
    LeafShowsExactlyWhen(a, b, path, leaf);
  }

  /** The merge has a path exactly when one of the trees has it and it is not the
      override that cuts it off. */
  lemma {:induction false} PathExistsExactlyWhen(a: Json, b: Json, path: seq<string>)
    ensures At(MergeValue(a, b), path).Some?
      <==> At(b, path).Some? || (At(a, path).Some? && !Shadows(b, path))
    decreases |path|
  {
    if path != [] && a.Obj? && b.Obj? && path[0] in a.m && path[0] in b.m {
      PathExistsExactlyWhen(a.m[path[0]], b.m[path[0]], path[1..]);
    }
  }

  /** `deep_merge` on any two values: the overrides' leaves are in what it returns. */
  method DeepMergeValues(defaults: Json, overrides: Json) returns (r: Result<Json, Error>)
    ensures r == DeepMerge(defaults, overrides)
    ensures r.Ok? ==> forall path :: path != [] && IsLeaf(At(overrides, path)) ==> At(r.value, path) == At(overrides, path)
  {
    forall path | path != [] && IsLeaf(At(overrides, path))
      ensures At(MergeValue(defaults, overrides), path) == At(overrides, path)
    {
      OverrideLeafShows(defaults, overrides, path, At(overrides, path).value);
    }
    var o := if Truthy(overrides) then overrides else Obj(map[]);
    if !o.Obj? { return Err(NotAMapping); }
    if o.m == map[] { return Ok(defaults); }
    if !defaults.Obj? { return Err(CannotAssign); }
    var merged := MergeTrees(defaults.m, o.m);
    return Ok(Obj(merged));
  }

  // ---- Laws ----

  lemma {:induction false} MergeSelf(x: Json)
    ensures MergeValue(x, x) == x
    decreases x
  {
    if x.Obj? {
      forall k | k in x.m
        ensures MergeValue(x.m[k], x.m[k]) == x.m[k]
      {
        MergeSelf(x.m[k]);
      }
      assert MergeValue(x, x).m == x.m;
    }
  }

  lemma {:induction false} MergeAgain(a: Json, b: Json)
    ensures MergeValue(MergeValue(a, b), b) == MergeValue(a, b)
    decreases b
  {
    var once := MergeValue(a, b);
    if a.Obj? && b.Obj? {
      forall k | k in b.m
        ensures MergeValue(once.m[k], b.m[k]) == once.m[k]
      {
        if k in a.m { MergeAgain(a.m[k], b.m[k]); } else { MergeSelf(b.m[k]); }
      }
      assert MergeValue(once, b).m == once.m;
    } else {
      MergeSelf(b);
    }
  }

  /** Wherever the middle tree puts something other than a mapping between mappings of
      the outer two, the last one already covers the first. */
  predicate Associates(a: Json, b: Json, c: Json)
    decreases c
  {
    a.Obj? && c.Obj? ==>
      if b.Obj? then forall k :: k in a.m && k in b.m && k in c.m ==> Associates(a.m[k], b.m[k], c.m[k])
      else MergeValue(a, c) == c
  }

  /** Merging is not associative in general; it is exactly under that condition. */
  lemma {:induction false} AssociativeExactlyWhen(a: Json, b: Json, c: Json)
    ensures MergeValue(MergeValue(a, b), c) == MergeValue(a, MergeValue(b, c)) <==> Associates(a, b, c)
    decreases c
  {
    if a.Obj? && b.Obj? && c.Obj? {
      var left, right := MergeValue(MergeValue(a, b), c).m, MergeValue(a, MergeValue(b, c)).m;
      assert left.Keys == right.Keys;
      forall k | k in left
        ensures left[k] == right[k]
          <==> !(k in a.m && k in b.m && k in c.m) || Associates(a.m[k], b.m[k], c.m[k])
      {
        if k in a.m && k in b.m && k in c.m {
          AssociativeExactlyWhen(a.m[k], b.m[k], c.m[k]);
        }
      }
      if Associates(a, b, c) {
        assert left == right;
      } else {
        var k :| k in a.m && k in b.m && k in c.m && !Associates(a.m[k], b.m[k], c.m[k]);
        assert left[k] != right[k];
      }
    }
  }

  lemma NotAssociative()
    ensures var a := Obj(map["k" := Obj(map["x" := Int(1)])]);
            var b := Obj(map["k" := Int(0)]);
            var c := Obj(map["k" := Obj(map["y" := Int(2)])]);
            MergeValue(MergeValue(a, b), c) != MergeValue(a, MergeValue(b, c))
  {
    var inner, outer := Obj(map["x" := Int(1)]), Obj(map["y" := Int(2)]);
    var a, b, c := Obj(map["k" := inner]), Obj(map["k" := Int(0)]), Obj(map["k" := outer]);
    assert "x" in MergeValue(inner, outer).m && "x" !in outer.m;
    assert !Associates(inner, Int(0), outer);
    assert a.m["k"] == inner && b.m["k"] == Int(0) && c.m["k"] == outer;
    AssociativeExactlyWhen(a, b, c);
  }

  // ---- Theme packs ----

  /** What loading a theme pack by its name gives. */
  type Packs = Json -> Json

  function LoadPack(packs: Packs, name: Json): Json {
    if !Truthy(name) then Obj(map[]) else packs(name)
  }

  function GetOr(t: Tree, key: string, fallback: Json): Json {
    if key in t then t[key] else fallback
  }

  function ApplyThemePack(config: Tree, packs: Packs): Result<Tree, Error> {
    var pack := LoadPack(packs, GetOr(config, "theme_pack", Str("default")));
    if !Truthy(pack) then Ok(config)
    else
      var packed := DeepMerge(Obj(config), pack);
      if packed.Err? then Err(packed.error)
      else if !packed.value.Obj? then Err(CannotAssign)
      else
        var theme := DeepMerge(GetOr(packed.value.m, "theme", Obj(map[])), GetOr(config, "theme", Obj(map[])));
        if theme.Err? then Err(theme.error) else Ok(packed.value.m["theme" := theme.value])
  }

  function LoadConfig(defaults: Tree, loaded: Json, packs: Packs): Result<Tree, Error> {
    var config := DeepMerge(Obj(defaults), loaded);
    if config.Err? then Err(config.error)
    else if !config.value.Obj? then Err(CannotAssign)
    else ApplyThemePack(config.value.m, packs)
  }

  /** Applying a pack succeeds exactly when there is no pack, or it is a mapping, and
      then a theme section that says anything is a mapping and the pack's is none or one too. */
  lemma PackAppliesExactlyWhen(config: Tree, packs: Packs)
    ensures ApplyThemePack(config, packs).Ok? <==>
            var pack := LoadPack(packs, GetOr(config, "theme_pack", Str("default")));
            var user := GetOr(config, "theme", Obj(map[]));
            !Truthy(pack) || (pack.Obj?
              && (Truthy(user) ==> user.Obj? && ("theme" in pack.m ==> pack.m["theme"].Obj?)))
  {
    var pack := LoadPack(packs, GetOr(config, "theme_pack", Str("default")));
    var user := GetOr(config, "theme", Obj(map[]));
    if Truthy(pack) && pack.Obj? {
      var packed := MergeValue(Obj(config), pack);
      assert DeepMerge(Obj(config), pack) == Ok(packed);
      if Truthy(user) {
        assert packed.m["theme"] == if "theme" in pack.m then MergeValue(user, pack.m["theme"]) else user;
      }
    }
  }

  /** Every leaf of the theme section that the configuration came with survives every
      pack that applies. */
  lemma UserThemeSurvives(config: Tree, packs: Packs, path: seq<string>, leaf: Json)
    requires ApplyThemePack(config, packs).Ok?
    requires !leaf.Obj? && path != [] && At(GetOr(config, "theme", Obj(map[])), path) == Some(leaf)
    ensures At(Obj(ApplyThemePack(config, packs).value), ["theme"] + path) == Some(leaf)
  {
    var result := ApplyThemePack(config, packs).value;
    assert (["theme"] + path)[1..] == path;
    var user := GetOr(config, "theme", Obj(map[]));
    var pack := LoadPack(packs, GetOr(config, "theme_pack", Str("default")));
    if Truthy(pack) {
      var theme := GetOr(DeepMerge(Obj(config), pack).value.m, "theme", Obj(map[]));
      OverrideLeafShows(theme, user, path, leaf);
    }
  }

  /** `apply_theme_pack`: every leaf of the configuration's own theme is in what it returns. */
  method ApplyPack(config: Tree, packs: Packs) returns (r: Result<Tree, Error>)
    ensures r == ApplyThemePack(config, packs)
    ensures r.Ok? ==>
              var user := GetOr(config, "theme", Obj(map[]));
              forall path :: path != [] && IsLeaf(At(user, path)) ==> At(Obj(r.value), ["theme"] + path) == At(user, path)
  {
    if ApplyThemePack(config, packs).Ok? {
      ghost var user := GetOr(config, "theme", Obj(map[]));
      forall path | path != [] && IsLeaf(At(user, path))
        ensures At(Obj(ApplyThemePack(config, packs).value), ["theme"] + path) == At(user, path)
      {
        UserThemeSurvives(config, packs, path, At(user, path).value);
      }
    }
    var pack := LoadPack(packs, GetOr(config, "theme_pack", Str("default")));
    if !Truthy(pack) { return Ok(config); }
    var userTheme := GetOr(config, "theme", Obj(map[]));
    var packed := DeepMergeValues(Obj(config), pack);
    if packed.Err? { return Err(packed.error); }
    if !packed.value.Obj? { return Err(CannotAssign); }
    var result := packed.value.m;
    var theme := DeepMergeValues(GetOr(result, "theme", Obj(map[])), userTheme);
    if theme.Err? { return Err(theme.error); }
    result := result["theme" := theme.value];
    return Ok(result);
  }

  /** A leaf of the pack's theme shows exactly when the configuration's theme section,
      the built-in defaults included, says nothing, leaves its path free or says the same. */
  lemma PackLeafShowsExactlyWhen(config: Tree, packs: Packs, path: seq<string>, leaf: Json)
    requires ApplyThemePack(config, packs).Ok? && !leaf.Obj? && path != []
    requires var pack := LoadPack(packs, GetOr(config, "theme_pack", Str("default")));
             pack.Obj? && "theme" in pack.m && At(pack.m["theme"], path) == Some(leaf)
    ensures var user := GetOr(config, "theme", Obj(map[]));
            At(Obj(ApplyThemePack(config, packs).value), ["theme"] + path) == Some(leaf)
            <==> (!Truthy(user) || At(user, path) == Some(leaf) || !Shadows(user, path))
  {
    var result := ApplyThemePack(config, packs).value;
    assert (["theme"] + path)[1..] == path;
    var user := GetOr(config, "theme", Obj(map[]));
    var pack := LoadPack(packs, GetOr(config, "theme_pack", Str("default")));
    var theme := GetOr(DeepMerge(Obj(config), pack).value.m, "theme", Obj(map[]));
    if "theme" in config {
      OverrideLeafShows(user, pack.m["theme"], path, leaf);
    }
    assert At(theme, path) == Some(leaf);
    LeafShowsExactlyWhen(theme, user, path, leaf);
  }

  /** The theme section after the defaults and the file have been merged. */
  function ThemeOf(defaults: Tree, loaded: Json): Json {
    if loaded.Obj? && "theme" in loaded.m then
      if "theme" in defaults then MergeValue(defaults["theme"], loaded.m["theme"]) else loaded.m["theme"]
    else GetOr(defaults, "theme", Obj(map[]))
  }

  lemma ThemeAfterMerge(defaults: Tree, loaded: Json)
    requires DeepMerge(Obj(defaults), loaded).Ok? && DeepMerge(Obj(defaults), loaded).value.Obj?
    ensures GetOr(DeepMerge(Obj(defaults), loaded).value.m, "theme", Obj(map[])) == ThemeOf(defaults, loaded)
  {
  }

  /** The pack that a load uses. */
  function PackOf(defaults: Tree, loaded: Json, packs: Packs): Json {
    var name := if loaded.Obj? && "theme_pack" in loaded.m then
                  (if "theme_pack" in defaults then MergeValue(defaults["theme_pack"], loaded.m["theme_pack"])
                   else loaded.m["theme_pack"])
                else GetOr(defaults, "theme_pack", Str("default"));
    LoadPack(packs, name)
  }

  /** Loading, end to end, from the defaults, the file and the pack: a leaf of the pack's
      theme shows exactly when the merged theme section says nothing, leaves its path
      free or says the same. */
  lemma LoadedPackLeafShowsExactlyWhen(defaults: Tree, loaded: Json, packs: Packs, path: seq<string>, leaf: Json)
    requires LoadConfig(defaults, loaded, packs).Ok? && !leaf.Obj? && path != []
    requires var pack := PackOf(defaults, loaded, packs);
             pack.Obj? && "theme" in pack.m && At(pack.m["theme"], path) == Some(leaf)
    ensures var theme := ThemeOf(defaults, loaded);
            At(Obj(LoadConfig(defaults, loaded, packs).value), ["theme"] + path) == Some(leaf)
            <==> (!Truthy(theme) || At(theme, path) == Some(leaf) || !Shadows(theme, path))
  {
    hide ApplyThemePack;
    var config := DeepMerge(Obj(defaults), loaded).value.m;
    ThemeAfterMerge(defaults, loaded);
    assert GetOr(config, "theme_pack", Str("default"))
        == if loaded.Obj? && "theme_pack" in loaded.m then
             (if "theme_pack" in defaults then MergeValue(defaults["theme_pack"], loaded.m["theme_pack"])
              else loaded.m["theme_pack"])
           else GetOr(defaults, "theme_pack", Str("default"));
    PackLeafShowsExactlyWhen(config, packs, path, leaf);
  }

  const MESSAGE := "healthy_message"
  const BUILT_IN: Tree := map["theme" := Obj(map[MESSAGE := Str("Mission Ready")])]
  const LOUD_PACK := Obj(map["theme" := Obj(map[MESSAGE := Str("LOUD")])])

  /** With the built-in message, a file that says nothing about themes and a pack with a
      message of its own, the pack loses; a file with an empty theme entry lets it win. */
  lemma BuiltInMessageBeatsPack(packs: Packs)
    requires packs(Str("default")) == LOUD_PACK
    ensures var quiet := LoadConfig(BUILT_IN, Obj(map[]), packs);
            quiet.Ok? && At(Obj(quiet.value), ["theme", MESSAGE]) == Some(Str("Mission Ready"))
    ensures var emptied := LoadConfig(BUILT_IN, Obj(map["theme" := Null]), packs);
            emptied.Ok? && At(Obj(emptied.value), ["theme", MESSAGE]) == Some(Str("LOUD"))
  {
    assert ["theme"] + [MESSAGE] == ["theme", MESSAGE] && [MESSAGE][1..] == [];
    assert ["theme", MESSAGE][1..] == [MESSAGE];
    QuietFile(packs);
    EmptiedTheme(packs);
  }

  lemma QuietFile(packs: Packs)
    requires packs(Str("default")) == LOUD_PACK
    ensures var quiet := LoadConfig(BUILT_IN, Obj(map[]), packs);
            quiet.Ok? && At(Obj(quiet.value), ["theme"] + [MESSAGE]) == Some(Str("Mission Ready"))
  {
    hide ApplyThemePack;
    assert [MESSAGE][1..] == [];
    assert DeepMerge(Obj(BUILT_IN), Obj(map[])) == Ok(Obj(BUILT_IN));
    PackAppliesExactlyWhen(BUILT_IN, packs);
    assert At(BUILT_IN["theme"], [MESSAGE]) == Some(Str("Mission Ready"));
    UserThemeSurvives(BUILT_IN, packs, [MESSAGE], Str("Mission Ready"));
  }

  lemma EmptiedTheme(packs: Packs)
    requires packs(Str("default")) == LOUD_PACK
    ensures var emptied := LoadConfig(BUILT_IN, Obj(map["theme" := Null]), packs);
            emptied.Ok? && At(Obj(emptied.value), ["theme"] + [MESSAGE]) == Some(Str("LOUD"))
  {
    hide ApplyThemePack;
    var loaded: Tree := map["theme" := Null];
    var config: Tree := map["theme" := Null];
    assert [MESSAGE][1..] == [];
    assert MergeValue(Obj(BUILT_IN), Obj(loaded)).m == config;
    assert DeepMerge(Obj(BUILT_IN), Obj(loaded)) == Ok(Obj(config));
    PackAppliesExactlyWhen(config, packs);
    assert At(LOUD_PACK.m["theme"], [MESSAGE]) == Some(Str("LOUD"));
    PackLeafShowsExactlyWhen(config, packs, [MESSAGE], Str("LOUD"));
  }

  /** Loading, end to end: a theme leaf of the user's file always shows, and a built-in
      theme leaf that the file does not shadow shows as well, whatever the pack says.
      The pack is applied before the file, but not before the defaults. */
  lemma LoadedThemeLeavesShow(defaults: Tree, loaded: Tree, packs: Packs, path: seq<string>, leaf: Json)
    requires LoadConfig(defaults, Obj(loaded), packs).Ok? && !leaf.Obj? && path != []
    requires var p := ["theme"] + path;
             || At(Obj(loaded), p) == Some(leaf)
             || (At(Obj(defaults), p) == Some(leaf) && !Shadows(Obj(loaded), p))
    ensures At(Obj(LoadConfig(defaults, Obj(loaded), packs).value), ["theme"] + path) == Some(leaf)
  {
    var p := ["theme"] + path;
    assert p[1..] == path;
    var config := DeepMerge(Obj(defaults), Obj(loaded)).value;
    if loaded == map[] {
      assert At(Obj(loaded), p) == None;
    } else {
      LeafShowsExactlyWhen(Obj(defaults), Obj(loaded), p, leaf);
    }
    assert At(config, p) == Some(leaf);
    hide ApplyThemePack;
    UserThemeSurvives(config.m, packs, path, leaf);
  }

  // ---- The rest of the configuration ----

  lemma DeepMergeExactly(defaults: Json, overrides: Json)
    ensures DeepMerge(defaults, overrides)
         == if !Truthy(overrides) then Ok(defaults)
            else if !overrides.Obj? then Err(NotAMapping)
            else if !defaults.Obj? then Err(CannotAssign)
            else Ok(MergeValue(defaults, overrides))
  {
  }

  /** The pack in use: the default one where none is named, none where the name is empty. */
  lemma PackUsed(config: Tree, packs: Packs)
    ensures LoadPack(packs, GetOr(config, "theme_pack", Str("default")))
         == if "theme_pack" !in config then packs(Str("default"))
            else if !Truthy(config["theme_pack"]) then Obj(map[])
            else packs(config["theme_pack"])
  {
  }

  /** Outside the theme section the pack comes last: its leaves show, and the
      configuration's where the pack leaves their path free. */
  lemma OutsideThemeExactly(config: Tree, packs: Packs, path: seq<string>, leaf: Json)
    requires ApplyThemePack(config, packs).Ok? && !leaf.Obj? && path != [] && path[0] != "theme"
    ensures var pack := LoadPack(packs, GetOr(config, "theme_pack", Str("default")));
            At(Obj(ApplyThemePack(config, packs).value), path) == Some(leaf)
            <==> if Truthy(pack) then At(pack, path) == Some(leaf) || (At(Obj(config), path) == Some(leaf) && !Shadows(pack, path))
                 else At(Obj(config), path) == Some(leaf)
  {
    var pack := LoadPack(packs, GetOr(config, "theme_pack", Str("default")));
    if Truthy(pack) {
      var packed := DeepMerge(Obj(config), pack).value;
      DeepMergeExactly(Obj(config), pack);
      LeafShowsExactlyWhen(Obj(config), pack, path, leaf);
      hide MergeValue;
      hide DeepMerge;
      assert At(Obj(ApplyThemePack(config, packs).value), path) == At(packed, path);
    }
  }

  /** And inside it the configuration's own theme comes last. */
  lemma InsideThemeExactly(config: Tree, packs: Packs, path: seq<string>, leaf: Json)
    requires ApplyThemePack(config, packs).Ok? && !leaf.Obj? && path != []
    requires Truthy(LoadPack(packs, GetOr(config, "theme_pack", Str("default"))))
    ensures var pack := LoadPack(packs, GetOr(config, "theme_pack", Str("default")));
            var user := GetOr(config, "theme", Obj(map[]));
            At(Obj(ApplyThemePack(config, packs).value), ["theme"] + path) == Some(leaf)
            <==> || (Truthy(user) && At(user, path) == Some(leaf))
                 || (pack.Obj? && "theme" in pack.m && At(pack.m["theme"], path) == Some(leaf)
                     && (!Truthy(user) || !Shadows(user, path)))
  {
    var pack := LoadPack(packs, GetOr(config, "theme_pack", Str("default")));
    var user := GetOr(config, "theme", Obj(map[]));
    assert (["theme"] + path)[1..] == path;
    DeepMergeExactly(Obj(config), pack);
    var packed := MergeValue(Obj(config), pack).m;
    var theme := GetOr(packed, "theme", Obj(map[]));
    DeepMergeExactly(theme, user);
    LeafShowsExactlyWhen(theme, user, path, leaf);
    if "theme" in pack.m {
      LeafShowsExactlyWhen(user, pack.m["theme"], path, leaf);
    }
    ShadowsLeaf(user, path, leaf);
    hide MergeValue;
    hide DeepMerge;
    hide Shadows;
  }

  lemma {:induction false} ShadowsLeaf(v: Json, path: seq<string>, leaf: Json)
    requires !leaf.Obj?
    ensures At(v, path) == Some(leaf) ==> Shadows(v, path)
  {
    if path != [] && v.Obj? && path[0] in v.m {
      ShadowsLeaf(v.m[path[0]], path[1..], leaf);
    }
  }
}
