/** The older editor utilities: a classifier with fixed name markers
    ("button_" and "label_"), and an asset saver that keeps one atlas entry
    per name. The pixel decoding they share with the newer utilities is
    `EditorUtil.LayerToColors`. */
module LegacyEditorUtil {
  import opened Wrappers
  import opened Seqs
  import opened Psd
  import EditorUtil
  import Converter

  // ---------------------------------------------------------------------
  // Classification
  // ---------------------------------------------------------------------

  /** The components the older classifier creates, with the fields its
      constructor calls pass. */
  datatype LegacyComponent =
    | Text(name: string, path: string, layer: Layer)
    | Image(name: string, path: string, rect: Rect, sprite: Option<Sprite>)
    | Button(name: string, path: string, rect: Rect, sprites: seq<Sprite>)

  /** The group name: the last "/" segment when the path has at least two
      segments, the empty string otherwise. */
  function GroupName(path: string): string
  {
    var parts := Split(path, '/');
    if |parts| > 1 then parts[|parts| - 1] else ""
  }

  /** The group name is empty when the path has no "/"; otherwise the path
      is some prefix, a "/", and the group name, which holds no "/". */
  lemma GroupNameShape(path: string)
    ensures '/' !in path ==> GroupName(path) == ""
    ensures '/' in path ==>
      var g := GroupName(path);
      && |g| + 1 <= |path| && '/' !in g
      && path == path[..|path| - (|g| + 1)] + "/" + g
  {
    SplitLast(path, '/');
    var g := GroupName(path);
    if '/' in path {
      var p := path[..|path| - (|g| + 1)];
      assert path == p + [path[|path| - |g| - 1]] + path[|path| - |g|..];
    }
  }

  /** The unanchored pattern "button_.*" (and ".*button_.*") on the
      lower-cased name: it holds "button_" somewhere. */
  predicate IsButtonLayer(env: Env, l: Layer)
  {
    Contains(env.toLower(l.name), "button_")
  }

  function ButtonLayer(env: Env): Layer -> bool
  {
    (l: Layer) => IsButtonLayer(env, l)
  }

  /** The sprite's name equals the name of some button layer, ignoring
      case. */
  function NamedLike(env: Env, buttons: seq<Layer>): Sprite -> bool
  {
    (s: Sprite) => exists y :: y in buttons && env.equalsIgnoreCase(s.name, y.name)
  }

  /** The button test fires: a non-empty group name holding "button_" once
      lower-cased, and some layer holding it too. */
  predicate ButtonFires(env: Env, path: string, layers: seq<Layer>)
  {
    var g := GroupName(path);
    g != "" && Contains(env.toLower(g), "button_") && Filter(ButtonLayer(env), layers) != []
  }

  /** The component of a layer left over: a text when its lower-cased name
      holds "label_", otherwise an image with the first sprite of its name,
      ignoring case. */
  function LegacyLeftover(env: Env, sprites: seq<Sprite>, path: string, l: Layer): LegacyComponent
  {
    if Contains(env.toLower(l.name), "label_") then Text(l.name, path, l)
    else Image(l.name, path, l.rect, FirstSprite(env, sprites, l.name, 0))
  }

  function LegacyLeftovers(env: Env, sprites: seq<Sprite>, path: string, layers: seq<Layer>): (r: seq<LegacyComponent>)
    ensures |r| == |layers|
  {
    seq(|layers|, i requires 0 <= i < |layers| => LegacyLeftover(env, sprites, path, layers[i]))
  }

  /** The button of a group whose test fires: named after the group, with
      the path cut before "/group", the first button layer's rect and the
      sprites named like a button layer, in sprite order. */
  function LegacyButton(env: Env, sprites: seq<Sprite>, path: string, layers: seq<Layer>): LegacyComponent
    requires ButtonFires(env, path, layers)
  {
    var g := GroupName(path);
    var buttons := Filter(ButtonLayer(env), layers);
    SplitLast(path, '/');
    Button(g, path[..|path| - (|g| + 1)], buttons[0].rect, Filter(NamedLike(env, buttons), sprites))
  }

  /** `ConvertLayers` of the older utilities: the button, if the test
      fires, then one component per layer that is not a button layer. */
  function LegacyClassify(env: Env, sprites: seq<Sprite>, path: string, layers: seq<Layer>): seq<LegacyComponent>
  {
    if ButtonFires(env, path, layers) then
      [LegacyButton(env, sprites, path, layers)]
        + LegacyLeftovers(env, sprites, path, Filter(Not(ButtonLayer(env)), layers))
    else LegacyLeftovers(env, sprites, path, layers)
  }

  /** A button comes first exactly when the test fires, and then it is
      the group's button: its path and group name put back together give
      the group's path, its rect is the first button layer's, and a
      sprite is in it exactly when its name equals some button layer's,
      ignoring case. */
  lemma LegacyButtonFirst(env: Env, sprites: seq<Sprite>, path: string, layers: seq<Layer>)
    ensures var r := LegacyClassify(env, sprites, path, layers);
      && (ButtonFires(env, path, layers) <==> |r| > 0 && r[0].Button?)
      && (ButtonFires(env, path, layers) ==>
            var g := GroupName(path);
            var buttons := Filter(ButtonLayer(env), layers);
            && r[0].name == g && r[0].path + "/" + g == path
            && r[0].rect == buttons[0].rect && IsButtonLayer(env, buttons[0])
            && (forall s :: s in r[0].sprites <==>
                  s in sprites && exists y :: y in layers && IsButtonLayer(env, y) && env.equalsIgnoreCase(s.name, y.name)))
  {
    var r := LegacyClassify(env, sprites, path, layers);
    if ButtonFires(env, path, layers) {
      var g := GroupName(path);
      var buttons := Filter(ButtonLayer(env), layers);
      GroupNameShape(path);
      SplitLast(path, '/');
      FilterIn(ButtonLayer(env), layers);
      FilterIn(NamedLike(env, buttons), sprites);
      assert buttons[0] in buttons;
    } else if |r| > 0 {
      assert r[0] == LegacyLeftover(env, sprites, path, layers[0]);
    }
  }

  /** After the button, one component per remaining layer, in order: named
      after it, with the group's full path; a text exactly when its
      lower-cased name holds "label_". The remaining layers are the
      non-button layers when the test fires, all layers otherwise. */
  lemma LegacyClassifyRest(env: Env, sprites: seq<Sprite>, path: string, layers: seq<Layer>)
    ensures var fires := ButtonFires(env, path, layers);
      var rest := if fires then Filter(Not(ButtonLayer(env)), layers) else layers;
      var r := LegacyClassify(env, sprites, path, layers);
      var h := if fires then 1 else 0;
      && |r| == h + |rest|
      && var t := r[h..];
         forall i :: 0 <= i < |rest| ==> LeftoverOf(env, sprites, path, rest[i], t[i])
  {
    var fires := ButtonFires(env, path, layers);
    var rest := if fires then Filter(Not(ButtonLayer(env)), layers) else layers;
    var r := LegacyClassify(env, sprites, path, layers);
    var h := if fires then 1 else 0;
    var tail := LegacyLeftovers(env, sprites, path, rest);
    if fires {
      assert r == [LegacyButton(env, sprites, path, layers)] + tail;
    } else {
      assert r == tail;
    }
    assert r[h..] == tail;
    LeftoversAre(env, sprites, path, rest);
  }

  /** Component `c` is what layer `l` becomes when left over: named after
      it, with the group's full path; a text exactly when its lower-cased
      name holds "label_", keeping the layer; otherwise an image with the
      layer's rect and the first sprite of its name. */
  predicate LeftoverOf(env: Env, sprites: seq<Sprite>, path: string, l: Layer, c: LegacyComponent)
  {
    && c.name == l.name && c.path == path
    && (c.Text? <==> Contains(env.toLower(l.name), "label_"))
    && (c.Text? ==> c.layer == l)
    && (c.Image? ==> c.rect == l.rect && c.sprite == FirstSprite(env, sprites, l.name, 0))
  }

  lemma LeftoversAre(env: Env, sprites: seq<Sprite>, path: string, rest: seq<Layer>)
    ensures var t := LegacyLeftovers(env, sprites, path, rest);
      forall i :: 0 <= i < |rest| ==> LeftoverOf(env, sprites, path, rest[i], t[i])
  {
  }

  /** With the test firing, no button layer is left over. */
  lemma LegacyNoButtonLeftover(env: Env, sprites: seq<Sprite>, path: string, layers: seq<Layer>)
    requires ButtonFires(env, path, layers)
    ensures forall l :: l in Filter(Not(ButtonLayer(env)), layers) <==> l in layers && !IsButtonLayer(env, l)
  {
    FilterIn(Not(ButtonLayer(env)), layers);
  }

  /** The group name of a path without "/" is empty, so such a group never
      yields a button. */
  lemma LegacyTopLevelNoButton(env: Env, sprites: seq<Sprite>, path: string, layers: seq<Layer>)
    requires '/' !in path
    ensures LegacyClassify(env, sprites, path, layers) == LegacyLeftovers(env, sprites, path, layers)
  {
    GroupNameShape(path);
  }

  /** The components of all groups, in group order. */
  function LegacyAll(env: Env, sprites: seq<Sprite>, groups: seq<(string, seq<Layer>)>): seq<LegacyComponent>
  {
    if groups == [] then []
    else LegacyAll(env, sprites, groups[..|groups| - 1])
         + LegacyClassify(env, sprites, groups[|groups| - 1].0, groups[|groups| - 1].1)
  }

  /** The components of two runs of groups are those of the first run
      followed by those of the second. */
  lemma {:induction false} LegacyAllAppend(env: Env, sprites: seq<Sprite>, a: seq<(string, seq<Layer>)>, b: seq<(string, seq<Layer>)>)
    ensures LegacyAll(env, sprites, a + b) == LegacyAll(env, sprites, a) + LegacyAll(env, sprites, b)
  {
    if b != [] {
      var n := |b| - 1;
      assert (a + b)[..|a + b| - 1] == a + b[..n];
      LegacyAllAppend(env, sprites, a, b[..n]);
      AppendAssoc(LegacyAll(env, sprites, a), LegacyAll(env, sprites, b[..n]),
                  LegacyClassify(env, sprites, b[n].0, b[n].1));
    } else {
      assert a + b == a;
    }
  }

  /** `ConvertLayers`: appends the button, takes the button layers out of
      the copy of the group, then appends one component per layer. */
  method ConvertLayers(env: Env, path: string, group: seq<Layer>, sprites: seq<Sprite>)
    returns (components: seq<LegacyComponent>)
    ensures components == LegacyClassify(env, sprites, path, group)
  {
    components := [];
    var layers := group;
    var parts := Split(path, '/');
    var groupName := if |parts| > 1 then parts[|parts| - 1] else "";
    if groupName != "" {
      if Contains(env.toLower(groupName), "button_") {
        var buttons := Filter(ButtonLayer(env), layers);
        if buttons != [] {
          var buttonSprites := Filter(NamedLike(env, buttons), sprites);
          SplitLast(path, '/');
          components := components + [Button(groupName, path[..|path| - (|groupName| + 1)], buttons[0].rect, buttonSprites)];
          layers := Converter.Converter.RemoveAll(ButtonLayer(env), layers);
        }
      }
    }
    assert groupName == GroupName(path);
    assert ButtonFires(env, path, group) ==> components == [LegacyButton(env, sprites, path, group)];
    assert layers == (if ButtonFires(env, path, group) then Filter(Not(ButtonLayer(env)), group) else group);
    components := AddLeftovers(env, sprites, path, components, layers);
  }

  /** The last loop of `ConvertLayers`: a text or an image per layer,
      appended to `head`. */
  method AddLeftovers(env: Env, sprites: seq<Sprite>, path: string, head: seq<LegacyComponent>, layers: seq<Layer>)
    returns (components: seq<LegacyComponent>)
    ensures components == head + LegacyLeftovers(env, sprites, path, layers)
  {
    components := head;
    for i := 0 to |layers|
      invariant components == head + LegacyLeftovers(env, sprites, path, layers[..i])
    {
      var layer := layers[i];
      if Contains(env.toLower(layer.name), "label_") {
        components := components + [Text(layer.name, path, layer)];
      } else {
        var sprite := FirstSprite(env, sprites, layer.name, 0);
        components := components + [Image(layer.name, path, layer.rect, sprite)];
      }
      assert LegacyLeftovers(env, sprites, path, layers[..i + 1])
          == LegacyLeftovers(env, sprites, path, layers[..i]) + [LegacyLeftover(env, sprites, path, layer)];
    }
    assert layers[..|layers|] == layers;
  }

  /** `ConvertLayerComponents`: the groups, in dictionary order, each
      converted from a copy of its list, concatenated. */
  method ConvertLayerComponents(env: Env, groups: seq<(string, seq<Layer>)>, sprites: seq<Sprite>)
    returns (components: seq<LegacyComponent>)
    ensures components == LegacyAll(env, sprites, groups)
  {
    components := [];
    for n := 0 to |groups|
      invariant components == LegacyAll(env, sprites, groups[..n])
    {
      var more := ConvertLayers(env, groups[n].0, groups[n].1, sprites);
      assert groups[..n + 1][..n] == groups[..n];
      components := components + more;
    }
    assert groups[..|groups|] == groups;
  }

  // ---------------------------------------------------------------------
  // Saving
  // ---------------------------------------------------------------------

  /** The sprite saving layer `l` produces: the layer's name, size and
      decoded pixels, with the border the asset at its path already had. */
  function SavedSprite(l: Layer, bordered: bool): (s: Sprite)
    requires ChannelsCover(l)
    ensures s.name == l.name && s.width == l.rect.width && s.height == l.rect.height
    ensures s.bordered == bordered && s.pixels == EditorUtil.Decoded(l)
  {
    SpriteOf(l.name, Texture(l.rect.width, l.rect.height, EditorUtil.Decoded(l)), bordered)
  }

  /** The store after layer `l` is saved to its path. */
  function SaveLayer(folder: string, store: AssetStore, l: Layer): AssetStore
    requires ChannelsCover(l)
  {
    var p := AssetPath(folder, l.name);
    store[p := SavedSprite(l, KeptBorder(store, p))]
  }

  /** The atlas holds references to sprite assets. All entries of one name
      are the one asset at that name's path, and entries of different
      names are different assets, so the model keeps the name of each
      entry and reads the sprite from the store.

      `atlas.FirstOrDefault(x => x.name == layer.Name)` finds the entry of
      the layer's name; it is removed when the asset at that path, as last
      saved, is strictly smaller in width or height than the layer. */
  predicate Replaces(folder: string, atlas: seq<string>, store: AssetStore, l: Layer)
  {
    var p := AssetPath(folder, l.name);
    l.name in atlas && p in store && (store[p].width < l.rect.width || store[p].height < l.rect.height)
  }

  /** One round of the atlas: the replaced entry taken out (`Remove` takes
      the first reference to that asset), the layer's asset appended. */
  function AtlasAdd(folder: string, atlas: seq<string>, store: AssetStore, l: Layer): (r: seq<string>)
    ensures |r| == |atlas| + 1 - (if Replaces(folder, atlas, store, l) then 1 else 0)
    ensures Replaces(folder, atlas, store, l) ==>
      exists i :: && 0 <= i < |atlas| && atlas[i] == l.name
                  && (forall j :: 0 <= j < i ==> atlas[j] != l.name)
                  && r == atlas[..i] + atlas[i + 1..] + [l.name]
    ensures !Replaces(folder, atlas, store, l) ==> r == atlas + [l.name]
  {
    if Replaces(folder, atlas, store, l) then
      RemoveFirstAt(atlas, l.name);
      RemoveFirst(atlas, l.name) + [l.name]
    else atlas + [l.name]
  }

  /** A layer that can be saved: visible and non-empty. */
  predicate Savable(l: Layer)
  {
    l.visible && NonEmpty(l)
  }

  /** `SaveAssets` of the older utilities from the layers `layers` on,
      with the atlas and store so far: every layer is saved to its path,
      and the first layer without a texture aborts the run. */
  function LegacySaveFrom(folder: string, layers: seq<Layer>, atlas: seq<string>, store: AssetStore)
    : Result<(seq<string>, AssetStore), EditorUtil.SaveError>
    requires forall i :: 0 <= i < |layers| ==> Decodable(layers[i])
    decreases |layers|
  {
    if layers == [] then Ok((atlas, store))
    else
      var l := layers[0];
      if !Savable(l) then Err(EditorUtil.NoTexture(l.name))
      else
        assert Decodable(l);
        assert forall i :: 0 <= i < |layers[1..]| ==> layers[1..][i] == layers[i + 1];
        LegacySaveFrom(folder, layers[1..], AtlasAdd(folder, atlas, store, l), SaveLayer(folder, store, l))
  }

  /** The names of `s`. */
  function NameSet(s: seq<string>): set<string>
  {
    set x | x in s
  }

  /** The array returned: each entry read from the store at its path. */
  function ResolveNames(folder: string, atlas: seq<string>, store: AssetStore): (r: seq<Sprite>)
    requires forall n :: n in atlas ==> AssetPath(folder, n) in store
    ensures |r| == |atlas|
  {
    seq(|atlas|, i requires 0 <= i < |atlas| => store[AssetPath(folder, atlas[i])])
  }

  /** `SaveAssets` of the older utilities from an empty atlas: the sprites
      of the atlas and the store, or the exception. */
  function LegacySave(folder: string, layers: seq<Layer>, store: AssetStore)
    : (r: Result<(seq<Sprite>, AssetStore), EditorUtil.SaveError>)
    requires forall i :: 0 <= i < |layers| ==> Decodable(layers[i])
    ensures r.Err? <==> LegacySaveFrom(folder, layers, [], store).Err?
  {
    match LegacySaveFrom(folder, layers, [], store)
    case Err(e) => Err(e)
    case Ok((atlas, st)) =>
      LegacyAtlasStored(folder, layers, store);
      Ok((ResolveNames(folder, atlas, st), st))
  }

  /** The atlas alone, for layers that can all be saved. */
  function Atlas(folder: string, layers: seq<Layer>, atlas: seq<string>, store: AssetStore): seq<string>
    requires forall i :: 0 <= i < |layers| ==> Savable(layers[i]) && ChannelsCover(layers[i])
    decreases |layers|
  {
    if layers == [] then atlas
    else
      assert forall i :: 0 <= i < |layers[1..]| ==> layers[1..][i] == layers[i + 1];
      Atlas(folder, layers[1..], AtlasAdd(folder, atlas, store, layers[0]), SaveLayer(folder, store, layers[0]))
  }

  /** The number of rounds that removed an entry. */
  function Removals(folder: string, layers: seq<Layer>, atlas: seq<string>, store: AssetStore): nat
    requires forall i :: 0 <= i < |layers| ==> Savable(layers[i]) && ChannelsCover(layers[i])
    decreases |layers|
  {
    if layers == [] then 0
    else
      assert forall i :: 0 <= i < |layers[1..]| ==> layers[1..][i] == layers[i + 1];
      (if Replaces(folder, atlas, store, layers[0]) then 1 else 0)
        + Removals(folder, layers[1..], AtlasAdd(folder, atlas, store, layers[0]), SaveLayer(folder, store, layers[0]))
  }

  /** The run fails exactly when some layer cannot be saved, and then with
      the first such layer's name; otherwise its atlas is `Atlas`. */
  lemma {:induction false} LegacySaveOutcome(folder: string, layers: seq<Layer>, atlas: seq<string>, store: AssetStore)
    requires forall i :: 0 <= i < |layers| ==> Decodable(layers[i])
    ensures var r := LegacySaveFrom(folder, layers, atlas, store);
      && (r.Err? <==> exists i :: 0 <= i < |layers| && !Savable(layers[i]))
      && (r.Err? ==> exists i :: 0 <= i < |layers| && !Savable(layers[i])
                       && (forall j :: 0 <= j < i ==> Savable(layers[j]))
                       && r.error == EditorUtil.NoTexture(layers[i].name))
      && (r.Ok? ==> (forall i :: 0 <= i < |layers| ==> Savable(layers[i]) && ChannelsCover(layers[i]))
                    && r.value.0 == Atlas(folder, layers, atlas, store))
    decreases |layers|
  {
    if layers != [] && Savable(layers[0]) {
      var l := layers[0];
      var tail := layers[1..];
      assert forall i :: 0 <= i < |tail| ==> tail[i] == layers[i + 1];
      LegacySaveOutcome(folder, tail, AtlasAdd(folder, atlas, store, l), SaveLayer(folder, store, l));
      var r := LegacySaveFrom(folder, layers, atlas, store);
      if r.Err? {
        var i :| 0 <= i < |tail| && !Savable(tail[i])
                 && (forall j :: 0 <= j < i ==> Savable(tail[j]))
                 && r.error == EditorUtil.NoTexture(tail[i].name);
        assert layers[i + 1] == tail[i];
      } else {
        forall i | 0 <= i < |layers|
          ensures Savable(layers[i]) && ChannelsCover(layers[i])
        {
          if i > 0 {
            assert layers[i] == tail[i - 1];
          }
        }
      }
    }
  }

  /** Each round adds one entry and removes at most one: the atlas length
      is the number of inputs minus the number of removals. */
  lemma {:induction false} AtlasLength(folder: string, layers: seq<Layer>, atlas: seq<string>, store: AssetStore)
    requires forall i :: 0 <= i < |layers| ==> Savable(layers[i]) && ChannelsCover(layers[i])
    ensures |Atlas(folder, layers, atlas, store)| + Removals(folder, layers, atlas, store) == |atlas| + |layers|
    decreases |layers|
  {
    if layers != [] {
      var tail := layers[1..];
      assert forall i :: 0 <= i < |tail| ==> tail[i] == layers[i + 1];
      AtlasLength(folder, tail, AtlasAdd(folder, atlas, store, layers[0]), SaveLayer(folder, store, layers[0]));
    }
  }

  /** The names of the layers in `s`. */
  function LayerNames(s: seq<Layer>): set<string>
  {
    set x | x in s :: x.name
  }

  /** A round keeps every name and adds the layer's. */
  lemma AtlasAddNames(folder: string, atlas: seq<string>, store: AssetStore, l: Layer)
    ensures NameSet(AtlasAdd(folder, atlas, store, l)) == NameSet(atlas) + {l.name}
  {
    if Replaces(folder, atlas, store, l) {
      var rest := RemoveFirst(atlas, l.name);
      RemoveFirstIn(atlas, l.name);
      assert NameSet(rest) <= NameSet(atlas);
      assert NameSet(atlas) <= NameSet(rest) + {l.name};
      assert NameSet(rest + [l.name]) == NameSet(rest) + {l.name};
    } else {
      assert NameSet(atlas + [l.name]) == NameSet(atlas) + {l.name};
    }
  }

  /** Every name of the input, and every name the atlas had, has an entry
      in the result, and no other name does. */
  lemma {:induction false} AtlasNames(folder: string, layers: seq<Layer>, atlas: seq<string>, store: AssetStore)
    requires forall i :: 0 <= i < |layers| ==> Savable(layers[i]) && ChannelsCover(layers[i])
    ensures NameSet(Atlas(folder, layers, atlas, store)) == NameSet(atlas) + LayerNames(layers)
    decreases |layers|
  {
    if layers != [] {
      var tail := layers[1..];
      assert forall i :: 0 <= i < |tail| ==> tail[i] == layers[i + 1];
      AtlasNames(folder, tail, AtlasAdd(folder, atlas, store, layers[0]), SaveLayer(folder, store, layers[0]));
      AtlasAddNames(folder, atlas, store, layers[0]);
      LayerNamesCons(layers);
    }
  }

  lemma LayerNamesCons(layers: seq<Layer>)
    requires layers != []
    ensures LayerNames(layers) == {layers[0].name} + LayerNames(layers[1..])
  {
    assert layers == [layers[0]] + layers[1..];
  }

  /** A successful run writes every layer's path and no other: the rest
      of the store is unchanged. */
  lemma {:induction false} LegacySaveKeys(folder: string, layers: seq<Layer>, atlas: seq<string>, store: AssetStore)
    requires forall i :: 0 <= i < |layers| ==> Decodable(layers[i])
    requires LegacySaveFrom(folder, layers, atlas, store).Ok?
    ensures var st := LegacySaveFrom(folder, layers, atlas, store).value.1;
      && st.Keys == store.Keys + LayerPaths(folder, layers)
      && (forall p :: p in store && (forall l :: l in layers ==> AssetPath(folder, l.name) != p) ==> st[p] == store[p])
    decreases |layers|
  {
    if layers != [] {
      var l := layers[0];
      var tail := layers[1..];
      assert forall i :: 0 <= i < |tail| ==> tail[i] == layers[i + 1];
      var st1 := SaveLayer(folder, store, l);
      assert LegacySaveFrom(folder, layers, atlas, store) == LegacySaveFrom(folder, tail, AtlasAdd(folder, atlas, store, l), st1);
      LegacySaveKeys(folder, tail, AtlasAdd(folder, atlas, store, l), st1);
      LayerPathsCons(folder, layers);
      assert st1.Keys == store.Keys + {AssetPath(folder, l.name)};
    }
  }

  /** The asset paths of the layers in `s`. */
  function LayerPaths(folder: string, s: seq<Layer>): set<string>
  {
    set x | x in s :: AssetPath(folder, x.name)
  }

  lemma LayerPathsCons(folder: string, layers: seq<Layer>)
    requires layers != []
    ensures LayerPaths(folder, layers) == {AssetPath(folder, layers[0].name)} + LayerPaths(folder, layers[1..])
  {
    assert layers == [layers[0]] + layers[1..];
  }

  /** Every entry of a successful run's atlas has its asset in the store. */
  lemma LegacyAtlasStored(folder: string, layers: seq<Layer>, store: AssetStore)
    requires forall i :: 0 <= i < |layers| ==> Decodable(layers[i])
    requires LegacySaveFrom(folder, layers, [], store).Ok?
    ensures var (atlas, st) := LegacySaveFrom(folder, layers, [], store).value;
      forall n :: n in atlas ==> AssetPath(folder, n) in st
  {
    LegacySaveOutcome(folder, layers, [], store);
    LegacySaveKeys(folder, layers, [], store);
    AtlasNames(folder, layers, [], store);
    var (atlas, st) := LegacySaveFrom(folder, layers, [], store).value;
    forall n | n in atlas
      ensures AssetPath(folder, n) in st
    {
      assert n in NameSet(atlas);
      var x :| x in layers && x.name == n;
    }
  }

  /** After a successful run, each layer's path holds the sprite of the
      last layer with that name, with the border the store had there. */
  lemma {:induction false} LegacySaveLast(folder: string, layers: seq<Layer>, atlas: seq<string>, store: AssetStore, k: nat)
    requires forall i :: 0 <= i < |layers| ==> Decodable(layers[i])
    requires LegacySaveFrom(folder, layers, atlas, store).Ok?
    requires k < |layers|
    requires forall j :: k < j < |layers| ==> layers[j].name != layers[k].name
    ensures Savable(layers[k]) && ChannelsCover(layers[k])
    ensures AssetPath(folder, layers[k].name) in LegacySaveFrom(folder, layers, atlas, store).value.1
    ensures LegacySaveFrom(folder, layers, atlas, store).value.1[AssetPath(folder, layers[k].name)]
            == SavedSprite(layers[k], KeptBorder(store, AssetPath(folder, layers[k].name)))
    decreases |layers|
  {
    LegacySaveOutcome(folder, layers, atlas, store);
    LegacySaveKeys(folder, layers, atlas, store);
    assert layers[k] in layers;
    var l := layers[0];
    var tail := layers[1..];
    assert forall i :: 0 <= i < |tail| ==> tail[i] == layers[i + 1];
    var next := AtlasAdd(folder, atlas, store, l);
    var st1 := SaveLayer(folder, store, l);
    if k == 0 {
      LegacySaveKeys(folder, tail, next, st1);
      forall x | x in tail
        ensures AssetPath(folder, x.name) != AssetPath(folder, l.name)
      {
        var j :| 0 <= j < |tail| && tail[j] == x;
        assert layers[j + 1] == x;
        AssetPathInjective(folder, x.name, l.name);
      }
    } else {
      assert layers[k] == tail[k - 1];
      LegacySaveLast(folder, tail, next, st1, k - 1);
      var p := AssetPath(folder, layers[k].name);
      assert KeptBorder(st1, p) == KeptBorder(store, p);
    }
  }

  /** Some layer of a name is the last one with that name. */
  lemma LastOfName(layers: seq<Layer>, n: string)
    requires n in LayerNames(layers)
    ensures exists k :: && 0 <= k < |layers| && layers[k].name == n
                        && forall j :: k < j < |layers| ==> layers[j].name != n
  {
    var x :| x in layers && x.name == n;
    var k :| 0 <= k < |layers| && layers[k] == x;
    while exists j :: k < j < |layers| && layers[j].name == n
      invariant 0 <= k < |layers| && layers[k].name == n
      decreases |layers| - k
    {
      var j :| k < j < |layers| && layers[j].name == n;
      k := j;
    }
  }

  /** Every sprite of a successful run's array is the sprite saved for the
      last layer with its name: same-named entries share the asset, which
      shows its latest save. */
  lemma LegacyAtlasLast(folder: string, layers: seq<Layer>, store: AssetStore)
    requires forall i :: 0 <= i < |layers| ==> Decodable(layers[i])
    requires LegacySave(folder, layers, store).Ok?
    ensures var sprites := LegacySave(folder, layers, store).value.0;
      forall i :: 0 <= i < |sprites| ==>
        exists k :: && 0 <= k < |layers|
                    && (forall j :: k < j < |layers| ==> layers[j].name != layers[k].name)
                    && ChannelsCover(layers[k])
                    && sprites[i] == SavedSprite(layers[k], KeptBorder(store, AssetPath(folder, layers[k].name)))
  {
    LegacySaveOutcome(folder, layers, [], store);
    AtlasNames(folder, layers, [], store);
    var (atlas, st) := LegacySaveFrom(folder, layers, [], store).value;
    var sprites := LegacySave(folder, layers, store).value.0;
    forall i | 0 <= i < |sprites|
      ensures exists k :: && 0 <= k < |layers|
                          && (forall j :: k < j < |layers| ==> layers[j].name != layers[k].name)
                          && ChannelsCover(layers[k])
                          && sprites[i] == SavedSprite(layers[k], KeptBorder(store, AssetPath(folder, layers[k].name)))
    {
      assert atlas[i] in NameSet(atlas);
      LastOfName(layers, atlas[i]);
      var k :| 0 <= k < |layers| && layers[k].name == atlas[i]
        && forall j :: k < j < |layers| ==> layers[j].name != atlas[i];
      LegacySaveLast(folder, layers, [], store, k);
    }
  }

  /** Three layers of one name, the second no larger than the first and
      smaller than the third: the third round compares against the
      second's save, which is the asset every entry of the name now
      shows, so it removes an entry and the atlas ends with two. */
  lemma LegacyShrinkThenGrow(folder: string, a: Layer, b: Layer, c: Layer, store: AssetStore)
    requires a.name == b.name == c.name
    requires Savable(a) && Savable(b) && Savable(c)
    requires ChannelsCover(a) && ChannelsCover(b) && ChannelsCover(c)
    requires b.rect.width <= a.rect.width && b.rect.height <= a.rect.height
    requires b.rect.width < c.rect.width || b.rect.height < c.rect.height
    ensures Atlas(folder, [a, b, c], [], store) == [a.name, a.name]
    ensures Removals(folder, [a, b, c], [], store) == 1
  {
    var n := a.name;
    var p := AssetPath(folder, n);
    var st1 := SaveLayer(folder, store, a);
    var st2 := SaveLayer(folder, st1, b);
    var st3 := SaveLayer(folder, st2, c);
    assert AtlasAdd(folder, [], store, a) == [n];
    assert st1[p] == SavedSprite(a, KeptBorder(store, p));
    assert AtlasAdd(folder, [n], st1, b) == [n, n] by {
      assert !Replaces(folder, [n], st1, b);
    }
    assert st2[p] == SavedSprite(b, KeptBorder(st1, p));
    assert AtlasAdd(folder, [n, n], st2, c) == [n, n] by {
      assert Replaces(folder, [n, n], st2, c);
      assert RemoveFirst([n, n], n) == [n];
    }
    AtlasCons(folder, [a, b, c], [], store);
    assert [a, b, c][1..] == [b, c];
    AtlasCons(folder, [b, c], [n], st1);
    assert [b, c][1..] == [c];
    AtlasCons(folder, [c], [n, n], st2);
    assert [c][1..] == [];
  }

  /** One round of `Atlas` and `Removals`. */
  lemma AtlasCons(folder: string, layers: seq<Layer>, atlas: seq<string>, store: AssetStore)
    requires layers != []
    requires forall i :: 0 <= i < |layers| ==> Savable(layers[i]) && ChannelsCover(layers[i])
    ensures forall i :: 0 <= i < |layers[1..]| ==> Savable(layers[1..][i]) && ChannelsCover(layers[1..][i])
    ensures Atlas(folder, layers, atlas, store)
            == Atlas(folder, layers[1..], AtlasAdd(folder, atlas, store, layers[0]), SaveLayer(folder, store, layers[0]))
    ensures Removals(folder, layers, atlas, store)
            == (if Replaces(folder, atlas, store, layers[0]) then 1 else 0)
               + Removals(folder, layers[1..], AtlasAdd(folder, atlas, store, layers[0]), SaveLayer(folder, store, layers[0]))
  {
    assert forall i :: 0 <= i < |layers[1..]| ==> layers[1..][i] == layers[i + 1];
  }

  /** `SaveAssets` of the older utilities. The loop keeps each atlas
      entry's name, and the array returned reads the sprites from the
      store. */
  method SaveAssets(folder: string, layers: seq<Layer>, store: AssetStore)
    returns (r: Result<(seq<Sprite>, AssetStore), EditorUtil.SaveError>)
    requires forall i :: 0 <= i < |layers| ==> Decodable(layers[i])
    ensures r == LegacySave(folder, layers, store)
  {
    var atlas: seq<string> := [];
    var assets := store;
    assert layers[0..] == layers;
    for i := 0 to |layers|
      invariant LegacySaveFrom(folder, layers, [], store) == LegacySaveFrom(folder, layers[i..], atlas, assets)
      invariant forall n :: n in atlas ==> AssetPath(folder, n) in assets
    {
      var layer := layers[i];
      assert layers[i..][0] == layer && layers[i..][1..] == layers[i + 1..];
      var path := AssetPath(folder, layer.name);
      if layer.name in atlas {
        var sprite := assets[path];
        if sprite.width < layer.rect.width || sprite.height < layer.rect.height {
          RemoveFirstIn(atlas, layer.name);
          atlas := RemoveFirst(atlas, layer.name);
        }
      }
      var tex := EditorUtil.CreateTexture(layer);
      if tex.None? {
        return Err(EditorUtil.NoTexture(layer.name));
      }
      var bordered := path in assets && assets[path].bordered;
      assets := assets[path := SpriteOf(layer.name, tex.value, bordered)];
      atlas := atlas + [layer.name];
    }
    assert layers[|layers|..] == [];
    var sprites := seq(|atlas|, j requires 0 <= j < |atlas| => assets[AssetPath(folder, atlas[j])]);
    assert sprites == ResolveNames(folder, atlas, assets);
    r := Ok((sprites, assets));
  }
}
