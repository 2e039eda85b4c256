/** `Converter`: groups the hierarchy result by path and turns each group
    into components. */
module Converter {
  import opened Wrappers
  import opened Seqs
  import opened Psd
  import opened Hierarchy
  import opened LayerComponents

  /** The patterns the converter reads from its parameter asset. */
  datatype Parameter = Parameter(button: ButtonParameter, toggle: ToggleParameter)

  // ---------------------------------------------------------------------
  // Grouping by path
  // ---------------------------------------------------------------------

  /** The keys of `layerGroups` in insertion order: each path once, at
      its first appearance. */
  function GroupKeys(entries: seq<PathEntry>): seq<string>
  {
    if entries == [] then []
    else
      var keys := GroupKeys(entries[..|entries| - 1]);
      var key := entries[|entries| - 1].path;
      if key in keys then keys else keys + [key]
  }

  /** The layers whose path is `key`, in input order. */
  function Members(entries: seq<PathEntry>, key: string): seq<Layer>
  {
    if entries == [] then []
    else (if entries[0].path == key then [entries[0].layer] else []) + Members(entries[1..], key)
  }

  lemma {:induction false} MembersSnoc(entries: seq<PathEntry>, x: PathEntry, key: string)
    ensures Members(entries + [x], key) == Members(entries, key) + (if x.path == key then [x.layer] else [])
  {
    if entries == [] {
      assert [] + [x] == [x];
      assert [x][1..] == [];
    } else {
      assert (entries + [x])[0] == entries[0];
      assert (entries + [x])[1..] == entries[1..] + [x];
      MembersSnoc(entries[1..], x, key);
    }
  }

  /** The dictionary `layerGroups` after the entries `entries`. */
  function GroupMap(entries: seq<PathEntry>): map<string, seq<Layer>>
  {
    if entries == [] then map[]
    else
      var m := GroupMap(entries[..|entries| - 1]);
      var x := entries[|entries| - 1];
      m[x.path := (if x.path in m then m[x.path] else []) + [x.layer]]
  }

  /** The dictionary has one entry per group key, holding its members. */
  lemma {:induction false} GroupMapMembers(entries: seq<PathEntry>)
    ensures forall k :: k in GroupMap(entries) <==> k in GroupKeys(entries)
    ensures forall k :: k in GroupMap(entries) ==> GroupMap(entries)[k] == Members(entries, k)
  {
    if entries == [] {
    } else {
      var front := entries[..|entries| - 1];
      var x := entries[|entries| - 1];
      GroupMapMembers(front);
      GroupKeysCover(front);
      assert entries == front + [x];
      forall k | k in GroupMap(entries)
        ensures GroupMap(entries)[k] == Members(entries, k)
      {
        MembersSnoc(front, x, k);
        if k !in GroupMap(front) {
          MembersAbsent(front, k);
        }
      }
    }
  }

  /** A path no entry carries has no members. */
  lemma {:induction false} MembersAbsent(entries: seq<PathEntry>, key: string)
    requires !Seen(entries, key)
    ensures Members(entries, key) == []
  {
    if entries != [] {
      MembersAbsent(entries[1..], key);
    }
  }

  /** Whether an entry carries the path `key`. */
  function HasPath(key: string): PathEntry -> bool
  {
    (e: PathEntry) => e.path == key
  }

  /** Some entry carries the path `key`. */
  predicate Seen(entries: seq<PathEntry>, key: string)
  {
    exists j :: 0 <= j < |entries| && entries[j].path == key
  }

  /** A key is a group exactly when some entry carries that path. */
  lemma {:induction false} GroupKeysCover(entries: seq<PathEntry>)
    ensures forall k :: k in GroupKeys(entries) <==> Seen(entries, k)
  {
    if entries != [] {
      var front := entries[..|entries| - 1];
      GroupKeysCover(front);
      forall k | Seen(entries, k)
        ensures k in GroupKeys(entries)
      {
        var j :| 0 <= j < |entries| && entries[j].path == k;
        if j < |front| {
          assert front[j].path == k;
        }
      }
      forall k | k in GroupKeys(entries)
        ensures Seen(entries, k)
      {
        if k in GroupKeys(front) {
          var j :| 0 <= j < |front| && front[j].path == k;
          assert entries[j].path == k;
        } else {
          assert entries[|front|].path == k;
        }
      }
    }
  }

  /** No path forms two groups. */
  lemma {:induction false} GroupKeysDistinct(entries: seq<PathEntry>)
    ensures forall i, j :: 0 <= i < j < |GroupKeys(entries)| ==> GroupKeys(entries)[i] != GroupKeys(entries)[j]
  {
    if entries != [] {
      var front := entries[..|entries| - 1];
      GroupKeysDistinct(front);
      var ks := GroupKeys(front);
      var key := entries[|entries| - 1].path;
      if key !in ks {
        var keys := ks + [key];
        assert GroupKeys(entries) == keys;
        forall i, j | 0 <= i < j < |keys|
          ensures keys[i] != keys[j]
        {
          assert keys[i] == ks[i];
          if j == |ks| {
            assert ks[i] in ks;
          } else {
            assert keys[j] == ks[j];
          }
        }
      }
    }
  }

  /** Every group key has a first entry. */
  lemma GroupKeysFound(entries: seq<PathEntry>)
    ensures forall i :: 0 <= i < |GroupKeys(entries)| ==> FirstIndex(HasPath(GroupKeys(entries)[i]), entries).Some?
  {
    GroupKeysCover(entries);
    var keys := GroupKeys(entries);
    forall i | 0 <= i < |keys|
      ensures FirstIndex(HasPath(keys[i]), entries).Some?
    {
      assert keys[i] in keys;
      var j :| 0 <= j < |entries| && entries[j].path == keys[i];
      assert HasPath(keys[i])(entries[j]);
    }
  }

  /** The groups come in the order in which their paths first appear in
      the input (the dictionary enumerates in insertion order). */
  lemma {:induction false} GroupKeysOrdered(entries: seq<PathEntry>)
    ensures forall i :: 0 <= i < |GroupKeys(entries)| ==> FirstIndex(HasPath(GroupKeys(entries)[i]), entries).Some?
    ensures forall i, j :: 0 <= i < j < |GroupKeys(entries)| ==>
      FirstIndex(HasPath(GroupKeys(entries)[i]), entries).value < FirstIndex(HasPath(GroupKeys(entries)[j]), entries).value
  {
    GroupKeysFound(entries);
    if entries != [] {
      var front, x := entries[..|entries| - 1], entries[|entries| - 1];
      assert entries == front + [x];
      GroupKeysOrdered(front);
      var ks := GroupKeys(front);
      var keys := GroupKeys(entries);
      forall i | 0 <= i < |ks|
        ensures FirstIndex(HasPath(ks[i]), entries) == FirstIndex(HasPath(ks[i]), front)
      {
        FirstIndexAppendFound(HasPath(ks[i]), front, [x]);
      }
      if x.path !in ks {
        GroupKeysCover(front);
        assert !Seen(front, x.path);
        FirstIndexAppendNew(HasPath(x.path), front, x);
        assert keys == ks + [x.path];
        forall i, j | 0 <= i < j < |keys|
          ensures FirstIndex(HasPath(keys[i]), entries).value < FirstIndex(HasPath(keys[j]), entries).value
        {
          assert keys[i] == ks[i];
          if j < |ks| {
            assert keys[j] == ks[j];
          }
        }
      }
    }
  }

  /** The total number of members of the groups `keys`. */
  function SumSizes(entries: seq<PathEntry>, keys: seq<string>): nat
  {
    if keys == [] then 0 else |Members(entries, keys[0])| + SumSizes(entries, keys[1..])
  }

  lemma {:induction false} SumSizesCons(x: PathEntry, rest: seq<PathEntry>, keys: seq<string>)
    requires forall i, j :: 0 <= i < j < |keys| ==> keys[i] != keys[j]
    ensures SumSizes([x] + rest, keys) == SumSizes(rest, keys) + (if x.path in keys then 1 else 0)
  {
    assert ([x] + rest)[1..] == rest;
    if keys != [] {
      SumSizesCons(x, rest, keys[1..]);
      if x.path == keys[0] {
        assert x.path !in keys[1..];
      }
    }
  }

  lemma {:induction false} MembersPartition(entries: seq<PathEntry>, keys: seq<string>)
    requires forall i, j :: 0 <= i < j < |keys| ==> keys[i] != keys[j]
    requires forall j :: 0 <= j < |entries| ==> entries[j].path in keys
    ensures SumSizes(entries, keys) == |entries|
    decreases |entries|
  {
    if entries != [] {
      var x, rest := entries[0], entries[1..];
      assert entries == [x] + rest;
      assert x.path in keys;
      assert forall j :: 0 <= j < |rest| ==> rest[j] == entries[j + 1];
      MembersPartition(rest, keys);
      SumSizesCons(x, rest, keys);
      assert SumSizes(entries, keys) == SumSizes([x] + rest, keys);
    } else {
      NoMembers(keys);
    }
  }

  lemma {:induction false} NoMembers(keys: seq<string>)
    ensures SumSizes([], keys) == 0
  {
    if keys != [] {
      NoMembers(keys[1..]);
    }
  }

  /** Every input layer lands in exactly one group: the sizes of the groups
      add up to the number of inputs. */
  lemma GroupsPartition(entries: seq<PathEntry>)
    ensures SumSizes(entries, GroupKeys(entries)) == |entries|
  {
    GroupKeysCover(entries);
    GroupKeysDistinct(entries);
    var keys := GroupKeys(entries);
    forall j | 0 <= j < |entries|
      ensures entries[j].path in keys
    {
      assert Seen(entries, entries[j].path);
    }
    MembersPartition(entries, keys);
  }

  // ---------------------------------------------------------------------
  // Classification of one group
  // ---------------------------------------------------------------------

  /** The last "/" segment of a path, or the whole path without one. */
  function GroupName(path: string): string
  {
    if '/' in path then var parts := Split(path, '/'); parts[|parts| - 1] else path
  }

  /** The path with the group name cut off (the trailing "/" stays). */
  function GroupPath(path: string): string
  {
    SplitLast(path, '/');
    path[..|path| - |GroupName(path)|]
  }

  /** The group name is the last segment and holds no "/"; the group path
      is what comes before it, ends in "/" when the path holds one, and is
      empty otherwise. */
  lemma GroupNameAndPath(path: string)
    ensures GroupPath(path) + GroupName(path) == path
    ensures '/' !in GroupName(path)
    ensures '/' in path ==> |GroupPath(path)| > 0 && GroupPath(path)[|GroupPath(path)| - 1] == '/'
    ensures '/' !in path ==> GroupPath(path) == ""
    ensures GroupName(path) == "" <==> path == "" || path[|path| - 1] == '/'
  {
    SplitLast(path, '/');
    var g := GroupName(path);
    assert path[..|path| - |g|] + path[|path| - |g|..] == path;
    if g != "" {
      assert path[|path| - 1] == g[|g| - 1];
    }
  }

  /** `path.Remove(path.Length - groupName.Length)` throws: the start index
      is not inside the non-empty path, which happens when the group name
      is empty. */
  predicate RemoveThrows(path: string)
  {
    path != "" && |path| - |GroupName(path)| >= |path|
  }

  /** A stage fires on a group: the path is not empty, the lowercased group
      name matches the pattern and some layer's lowercased name does too. */
  predicate Fires(env: Env, pattern: string, path: string, layers: seq<Layer>)
  {
    && path != ""
    && env.isMatch(env.toLower(GroupName(path)), pattern)
    && exists j :: 0 <= j < |layers| && Matches(env, pattern)(layers[j])
  }

  /** The result of one classification stage: the component it emitted,
      if any, and the layers left for the next stage. */
  datatype Stage = Stage(emitted: seq<Component>, rest: seq<Layer>)

  /** The button stage: when it fires, a button is built from the matching
      layers and they are taken out of the group. */
  function ButtonStage(env: Env, sprites: seq<Sprite>, param: ButtonParameter, path: string, layers: seq<Layer>)
    : (r: Result<Stage, ComponentError>)
    ensures r.Err? ==> r.error == NoNormalLayer(GroupName(path))
    ensures r.Ok? ==> |r.value.emitted| <= 1
    ensures r.Ok? && r.value.emitted != [] ==>
      r.value.emitted[0].ButtonComponent? && r.value.emitted[0].name == GroupName(path) && r.value.emitted[0].path == GroupPath(path)
    ensures r.Ok? && r.value.emitted == [] ==> r.value.rest == layers
    ensures r.Ok? && r.value.emitted != [] ==> r.value.rest == Filter(Not(Matches(env, param.pattern)), layers)
  {
    var list := Filter(Matches(env, param.pattern), layers);
    if path != "" && env.isMatch(env.toLower(GroupName(path)), param.pattern) && list != [] then
      match NewButton(env, sprites, GroupName(path), GroupPath(path), list, param)
      case Err(e) => Err(e)
      case Ok(b) => Ok(Stage([b], Filter(Not(Matches(env, param.pattern)), layers)))
    else Ok(Stage([], layers))
  }

  /** The toggle stage, the same on the toggle pattern. */
  function ToggleStage(env: Env, sprites: seq<Sprite>, param: ToggleParameter, path: string, layers: seq<Layer>)
    : (r: Result<Stage, ComponentError>)
    ensures r.Err? ==> r.error == NoBackgroundLayer(GroupName(path))
    ensures r.Ok? ==> |r.value.emitted| <= 1
    ensures r.Ok? && r.value.emitted != [] ==>
      r.value.emitted[0].ToggleComponent? && r.value.emitted[0].name == GroupName(path) && r.value.emitted[0].path == GroupPath(path)
    ensures r.Ok? && r.value.emitted == [] ==> r.value.rest == layers
    ensures r.Ok? && r.value.emitted != [] ==> r.value.rest == Filter(Not(Matches(env, param.pattern)), layers)
  {
    var list := Filter(Matches(env, param.pattern), layers);
    if path != "" && env.isMatch(env.toLower(GroupName(path)), param.pattern) && list != [] then
      match NewToggle(env, sprites, GroupName(path), GroupPath(path), list, param)
      case Err(e) => Err(e)
      case Ok(t) => Ok(Stage([t], Filter(Not(Matches(env, param.pattern)), layers)))
    else Ok(Stage([], layers))
  }

  /** A stage does something (emits or throws) exactly when it fires. */
  lemma StagesFire(env: Env, sprites: seq<Sprite>, param: Parameter, path: string, layers: seq<Layer>)
    ensures var r := ButtonStage(env, sprites, param.button, path, layers);
      (r.Err? || r.value.emitted != []) <==> Fires(env, param.button.pattern, path, layers)
    ensures var r := ToggleStage(env, sprites, param.toggle, path, layers);
      (r.Err? || r.value.emitted != []) <==> Fires(env, param.toggle.pattern, path, layers)
  {
    FilterEmpty(Matches(env, param.button.pattern), layers);
    FilterEmpty(Matches(env, param.toggle.pattern), layers);
  }

  /** The component of a layer left over: a text if it has a text record,
      an image with its sprite otherwise; named after the layer, with the
      group's full path. */
  function Leftover(env: Env, sprites: seq<Sprite>, font: Font, path: string, l: Layer): (c: Component)
    ensures c.name == l.name && c.path == path && c.rect == l.rect
    ensures c.TextComponent? <==> HasText(l)
    ensures c.ImageComponent? <==> !HasText(l)
    ensures c.TextComponent? ==> c.textInfo == l.text && c.font == font
    ensures c.ImageComponent? ==> c.sprite == GetOrDefaultSprite(env, sprites, Some(l))
  {
    if HasText(l) then NewText(l.name, path, l, font)
    else NewImage(l.name, path, l.rect, GetOrDefaultSprite(env, sprites, Some(l)))
  }

  /** One leftover component per layer, in order. */
  function Leftovers(env: Env, sprites: seq<Sprite>, font: Font, path: string, layers: seq<Layer>): (r: seq<Component>)
    ensures |r| == |layers|
  {
    seq(|layers|, i requires 0 <= i < |layers| => Leftover(env, sprites, font, path, layers[i]))
  }

  /** `ConvertLayers`: the components of one group, the button first, then
      the toggle, then one per remaining layer. */
  function Classify(env: Env, sprites: seq<Sprite>, font: Font, param: Parameter, path: string, layers: seq<Layer>)
    : Result<seq<Component>, ComponentError>
  {
    if RemoveThrows(path) then Err(GroupPathOutOfRange(path))
    else
      match ButtonStage(env, sprites, param.button, path, layers)
      case Err(e) => Err(e)
      case Ok(b) =>
        match ToggleStage(env, sprites, param.toggle, path, b.rest)
        case Err(e) => Err(e)
        case Ok(t) => Ok(b.emitted + t.emitted + Leftovers(env, sprites, font, path, t.rest))
  }

  /** A group throws before either stage exactly when its path is not empty
      and ends in "/", so that its group name is empty. */
  lemma ClassifyRemoveThrows(env: Env, sprites: seq<Sprite>, font: Font, param: Parameter, path: string, layers: seq<Layer>)
    ensures Classify(env, sprites, font, param, path, layers) == Err(GroupPathOutOfRange(path)) <==>
      path != "" && path[|path| - 1] == '/'
  {
    GroupNameAndPath(path);
  }

  /** The layers left after the button stage (all of them if it failed). */
  function AfterButton(env: Env, sprites: seq<Sprite>, param: Parameter, path: string, layers: seq<Layer>): seq<Layer>
  {
    match ButtonStage(env, sprites, param.button, path, layers)
    case Err(_) => layers
    case Ok(b) => b.rest
  }

  /** A group with an empty path only yields one text or image per layer. */
  lemma ClassifyEmptyPath(env: Env, sprites: seq<Sprite>, font: Font, param: Parameter, layers: seq<Layer>)
    ensures Classify(env, sprites, font, param, "", layers) == Ok(Leftovers(env, sprites, font, "", layers))
  {
    assert [] + [] + Leftovers(env, sprites, font, "", layers) == Leftovers(env, sprites, font, "", layers);
  }

  /** A group yields a button exactly when the button stage fires, and the
      button, named after the group, is then the first component. */
  lemma ClassifyButton(env: Env, sprites: seq<Sprite>, font: Font, param: Parameter, path: string, layers: seq<Layer>)
    requires Classify(env, sprites, font, param, path, layers).Ok?
    ensures var r := Classify(env, sprites, font, param, path, layers).value;
      && ((exists c :: c in r && c.ButtonComponent?) <==> Fires(env, param.button.pattern, path, layers))
      && (Fires(env, param.button.pattern, path, layers) ==>
            r[0].ButtonComponent? && r[0].name == GroupName(path) && r[0].path == GroupPath(path))
  {
    StagesFire(env, sprites, param, path, layers);
    var b := ButtonStage(env, sprites, param.button, path, layers).value;
    var t := ToggleStage(env, sprites, param.toggle, path, b.rest).value;
    var r := Classify(env, sprites, font, param, path, layers).value;
    assert r == b.emitted + t.emitted + Leftovers(env, sprites, font, path, t.rest);
    if b.emitted != [] {
      assert r[0] == b.emitted[0] && b.emitted[0] in b.emitted;
    }
  }

  /** The toggle check runs after the button stage, on the layers it left:
      a group yields a toggle exactly when the toggle stage fires on them,
      and the toggle comes right after the button, if any. */
  lemma ClassifyToggle(env: Env, sprites: seq<Sprite>, font: Font, param: Parameter, path: string, layers: seq<Layer>)
    requires Classify(env, sprites, font, param, path, layers).Ok?
    ensures var r := Classify(env, sprites, font, param, path, layers).value;
      var rest := AfterButton(env, sprites, param, path, layers);
      var k := if Fires(env, param.button.pattern, path, layers) then 1 else 0;
      && ((exists c :: c in r && c.ToggleComponent?) <==> Fires(env, param.toggle.pattern, path, rest))
      && (Fires(env, param.toggle.pattern, path, rest) ==>
            k < |r| && r[k].ToggleComponent? && r[k].name == GroupName(path) && r[k].path == GroupPath(path))
  {
    var b := ButtonStage(env, sprites, param.button, path, layers).value;
    var t := ToggleStage(env, sprites, param.toggle, path, b.rest).value;
    var left := Leftovers(env, sprites, font, path, t.rest);
    var r := Classify(env, sprites, font, param, path, layers).value;
    assert r == b.emitted + t.emitted + left;
    StagesFire(env, sprites, param, path, layers);
    StagesFire(env, sprites, param, path, b.rest);
    LeftoversKinds(env, sprites, font, path, t.rest);
    ToggleAt(b.emitted, t.emitted, left);
  }

  /** In a button list, a toggle list and a list of texts and images put
      together, there is a toggle exactly when the toggle list is not
      empty, and it comes right after the button list. */
  lemma ToggleAt(be: seq<Component>, te: seq<Component>, left: seq<Component>)
    requires |be| <= 1 && (be != [] ==> be[0].ButtonComponent?)
    requires |te| <= 1
    requires forall c :: c in left ==> c.TextComponent? || c.ImageComponent?
    ensures (exists c :: c in be + te + left && c.ToggleComponent?) <==> te != [] && te[0].ToggleComponent?
    ensures te != [] ==> (be + te + left)[|be|] == te[0]
  {
    var r := be + te + left;
    if te != [] {
      assert r[|be|] == te[0];
    }
    forall c | c in r && c.ToggleComponent?
      ensures te != [] && te[0].ToggleComponent?
    {
      if c in te {
        assert c == te[0];
      }
    }
  }

  /** Left-over layers only ever become texts and images. */
  lemma LeftoversKinds(env: Env, sprites: seq<Sprite>, font: Font, path: string, layers: seq<Layer>)
    ensures forall c :: c in Leftovers(env, sprites, font, path, layers) ==> c.TextComponent? || c.ImageComponent?
  {
    var r := Leftovers(env, sprites, font, path, layers);
    forall c | c in r
      ensures c.TextComponent? || c.ImageComponent?
    {
      var i :| 0 <= i < |r| && r[i] == c;
      assert c == Leftover(env, sprites, font, path, layers[i]);
    }
  }

  /** After the button and the toggle come the layers neither stage took,
      one component each, in their order. */
  lemma ClassifyLeftovers(env: Env, sprites: seq<Sprite>, font: Font, param: Parameter, path: string, layers: seq<Layer>)
    requires Classify(env, sprites, font, param, path, layers).Ok?
    ensures var r := Classify(env, sprites, font, param, path, layers).value;
      var rest := AfterButton(env, sprites, param, path, layers);
      var left := ToggleStage(env, sprites, param.toggle, path, rest).value.rest;
      var k := (if Fires(env, param.button.pattern, path, layers) then 1 else 0)
               + (if Fires(env, param.toggle.pattern, path, rest) then 1 else 0);
      k <= |r| && r[k..] == Leftovers(env, sprites, font, path, left)
  {
    var b := ButtonStage(env, sprites, param.button, path, layers).value;
    var t := ToggleStage(env, sprites, param.toggle, path, b.rest).value;
    var lo := Leftovers(env, sprites, font, path, t.rest);
    var r := Classify(env, sprites, font, param, path, layers).value;
    assert r == b.emitted + t.emitted + lo;
    StagesFire(env, sprites, param, path, layers);
    StagesFire(env, sprites, param, path, b.rest);
    assert r[|b.emitted| + |t.emitted|..] == lo;
  }

  /** The layers a stage leaves: all of them when it does not fire, those
      that do not match its pattern when it does. */
  lemma ButtonStageRest(env: Env, sprites: seq<Sprite>, param: ButtonParameter, path: string, layers: seq<Layer>)
    requires ButtonStage(env, sprites, param, path, layers).Ok?
    ensures forall l :: l in ButtonStage(env, sprites, param, path, layers).value.rest <==>
      l in layers && !(Fires(env, param.pattern, path, layers) && Matches(env, param.pattern)(l))
  {
    FilterEmpty(Matches(env, param.pattern), layers);
    FilterIn(Not(Matches(env, param.pattern)), layers);
  }

  lemma ToggleStageRest(env: Env, sprites: seq<Sprite>, param: ToggleParameter, path: string, layers: seq<Layer>)
    requires ToggleStage(env, sprites, param, path, layers).Ok?
    ensures forall l :: l in ToggleStage(env, sprites, param, path, layers).value.rest <==>
      l in layers && !(Fires(env, param.pattern, path, layers) && Matches(env, param.pattern)(l))
  {
    FilterEmpty(Matches(env, param.pattern), layers);
    FilterIn(Not(Matches(env, param.pattern)), layers);
  }

  /** A layer gives a component of its own exactly when no stage that
      fired took it. */
  lemma ClassifyKeeps(env: Env, sprites: seq<Sprite>, font: Font, param: Parameter, path: string, layers: seq<Layer>)
    requires Classify(env, sprites, font, param, path, layers).Ok?
    ensures var rest := AfterButton(env, sprites, param, path, layers);
      var left := ToggleStage(env, sprites, param.toggle, path, rest).value.rest;
      forall l :: l in left <==>
        && l in layers
        && !(Fires(env, param.button.pattern, path, layers) && Matches(env, param.button.pattern)(l))
        && !(Fires(env, param.toggle.pattern, path, rest) && Matches(env, param.toggle.pattern)(l))
  {
    var b := ButtonStage(env, sprites, param.button, path, layers).value;
    ButtonStageRest(env, sprites, param.button, path, layers);
    ToggleStageRest(env, sprites, param.toggle, path, b.rest);
  }

  /** The button stage throws exactly when it fires and none of the layers
      that match the button pattern matches the normal pattern. */
  lemma ButtonStageErr(env: Env, sprites: seq<Sprite>, param: Parameter, path: string, layers: seq<Layer>)
    ensures ButtonStage(env, sprites, param.button, path, layers).Err? <==>
      && Fires(env, param.button.pattern, path, layers)
      && forall l :: l in layers && Matches(env, param.button.pattern)(l) ==> !Matches(env, param.button.normalPattern)(l)
  {
    StagesFire(env, sprites, param, path, layers);
    var list := Filter(Matches(env, param.button.pattern), layers);
    FilterIn(Matches(env, param.button.pattern), layers);
    if forall j :: 0 <= j < |list| ==> !Matches(env, param.button.normalPattern)(list[j]) {
      forall l | l in layers && Matches(env, param.button.pattern)(l)
        ensures !Matches(env, param.button.normalPattern)(l)
      {
        assert l in list;
      }
    } else {
      var j :| 0 <= j < |list| && Matches(env, param.button.normalPattern)(list[j]);
      assert list[j] in list;
    }
  }

  /** A group fails with `NoNormalLayer` exactly when its path does not
      throw first, the button stage fires and none of the layers that match the button pattern matches
      the normal pattern; the toggle stage only ever fails otherwise. */
  lemma ClassifyNoNormal(env: Env, sprites: seq<Sprite>, font: Font, param: Parameter, path: string, layers: seq<Layer>)
    ensures Classify(env, sprites, font, param, path, layers) == Err(NoNormalLayer(GroupName(path))) <==>
      && !RemoveThrows(path)
      && Fires(env, param.button.pattern, path, layers)
      && forall l :: l in layers && Matches(env, param.button.pattern)(l) ==> !Matches(env, param.button.normalPattern)(l)
  {
    ButtonStageErr(env, sprites, param, path, layers);
  }

  // ---------------------------------------------------------------------
  // All groups
  // ---------------------------------------------------------------------

  /** The outcome of each group of `keys`, in order. */
  function GroupResults(env: Env, sprites: seq<Sprite>, font: Font, param: Parameter,
                        entries: seq<PathEntry>, keys: seq<string>): (rs: seq<Result<seq<Component>, ComponentError>>)
    ensures |rs| == |keys|
  {
    seq(|keys|, i requires 0 <= i < |keys| => Classify(env, sprites, font, param, keys[i], Members(entries, keys[i])))
  }

  /** The components of every group, in group order, or the first
      exception. */
  function ConvertKeys(env: Env, sprites: seq<Sprite>, font: Font, param: Parameter,
                       entries: seq<PathEntry>, keys: seq<string>): Result<seq<Component>, ComponentError>
  {
    Collect(GroupResults(env, sprites, font, param, entries, keys))
  }

  /** The conversion succeeds exactly when every group converts, and
      otherwise reports the exception of the first group that fails. */
  lemma ConvertKeysErrors(env: Env, sprites: seq<Sprite>, font: Font, param: Parameter,
                          entries: seq<PathEntry>, keys: seq<string>)
    ensures var r := ConvertKeys(env, sprites, font, param, entries, keys);
      var rs := GroupResults(env, sprites, font, param, entries, keys);
      && (r.Ok? <==> forall i :: 0 <= i < |keys| ==> rs[i].Ok?)
      && (r.Err? ==> exists i :: 0 <= i < |keys| && rs[i] == Err(r.error)
                                 && forall j :: 0 <= j < i ==> rs[j].Ok?)
  {
    CollectErrors(GroupResults(env, sprites, font, param, entries, keys));
  }

  /** What `ConvertLayers` does after the button stage: the toggle stage on
      the layers left, then one component per layer it leaves. */
  function Finish(env: Env, sprites: seq<Sprite>, font: Font, param: Parameter, path: string, rest: seq<Layer>)
    : Result<seq<Component>, ComponentError>
  {
    match ToggleStage(env, sprites, param.toggle, path, rest)
    case Err(e) => Err(e)
    case Ok(t) => Ok(t.emitted + Leftovers(env, sprites, font, path, t.rest))
  }

  /** `Classify` once the button stage succeeded. */
  lemma ClassifyByFinish(env: Env, sprites: seq<Sprite>, font: Font, param: Parameter, path: string, layers: seq<Layer>, b: Stage)
    requires !RemoveThrows(path)
    requires ButtonStage(env, sprites, param.button, path, layers) == Ok(b)
    ensures Classify(env, sprites, font, param, path, layers) == Prefixed(b.emitted, Finish(env, sprites, font, param, path, b.rest))
  {
    match ToggleStage(env, sprites, param.toggle, path, b.rest) {
      case Err(_) =>
      case Ok(t) =>
        var left := Leftovers(env, sprites, font, path, t.rest);
        assert b.emitted + t.emitted + left == b.emitted + (t.emitted + left);
    }
  }

  class Converter {
    const param: Parameter
    const env: Env
    const sprites: seq<Sprite>
    const fontData: Font
    var components: seq<Component>

    constructor(param: Parameter, env: Env, sprites: seq<Sprite>, fontData: Font)
      ensures this.param == param && this.env == env && this.sprites == sprites && this.fontData == fontData
      ensures components == []
    {
      this.param := param;
      this.env := env;
      this.sprites := sprites;
      this.fontData := fontData;
      components := [];
    }

    /** `list.ForEach(x => layers.Remove(x))` with `list` the layers that
        satisfy `p`: what is left is exactly the layers that do not. */
    static method RemoveAll(p: Layer -> bool, layers: seq<Layer>) returns (left: seq<Layer>)
      ensures left == Filter(Not(p), layers)
    {
      var list := Filter(p, layers);
      left := layers;
      DropNone(p, layers);
      for k := 0 to |list|
        invariant left == DropMatching(p, layers, k)
      {
        DropOneMore(p, layers, k);
        left := RemoveFirst(left, list[k]);
      }
      DropAll(p, layers);
    }

    /** The button half of `ConvertLayers`: adds the button and takes its
        layers out of the group when the stage fires. */
    method ButtonPass(path: string, layers: seq<Layer>) returns (r: Result<Stage, ComponentError>)
      modifies this
      ensures r == ButtonStage(env, sprites, param.button, path, layers)
      ensures r.Ok? ==> components == old(components) + r.value.emitted
    {
      r := Ok(Stage([], layers));
      if path != "" {
        var groupName := GroupName(path);
        if env.isMatch(env.toLower(groupName), param.button.pattern) {
          var list := Filter(Matches(env, param.button.pattern), layers);
          if list != [] {
            var b := NewButton(env, sprites, groupName, GroupPath(path), list, param.button);
            if b.Err? {
              return Err(b.error);
            }
            components := components + [b.value];
            var rest := RemoveAll(Matches(env, param.button.pattern), layers);
            r := Ok(Stage([b.value], rest));
          }
        }
      }
    }

    /** The toggle half of `ConvertLayers`, on what the button half left. */
    method TogglePass(path: string, layers: seq<Layer>) returns (r: Result<Stage, ComponentError>)
      modifies this
      ensures r == ToggleStage(env, sprites, param.toggle, path, layers)
      ensures r.Ok? ==> components == old(components) + r.value.emitted
    {
      r := Ok(Stage([], layers));
      if path != "" {
        var groupName := GroupName(path);
        if env.isMatch(env.toLower(groupName), param.toggle.pattern) {
          var list := Filter(Matches(env, param.toggle.pattern), layers);
          if list != [] {
            var t := NewToggle(env, sprites, groupName, GroupPath(path), list, param.toggle);
            if t.Err? {
              return Err(t.error);
            }
            components := components + [t.value];
            var rest := RemoveAll(Matches(env, param.toggle.pattern), layers);
            r := Ok(Stage([t.value], rest));
          }
        }
      }
    }

    /** The last loop of `ConvertLayers`: a text or an image per layer. */
    method AddLeftovers(path: string, rest: seq<Layer>)
      modifies this
      ensures components == old(components) + Leftovers(env, sprites, fontData, path, rest)
    {
      for i := 0 to |rest|
        invariant components == old(components) + Leftovers(env, sprites, fontData, path, rest[..i])
      {
        var layer := rest[i];
        if layer.text.Some? {
          components := components + [NewText(layer.name, path, layer, fontData)];
        } else {
          var sprite := GetOrDefaultSprite(env, sprites, Some(layer));
          components := components + [NewImage(layer.name, path, layer.rect, sprite)];
        }
        assert Leftovers(env, sprites, fontData, path, rest[..i + 1])
            == Leftovers(env, sprites, fontData, path, rest[..i]) + [Leftover(env, sprites, fontData, path, layer)];
      }
      assert rest[..|rest|] == rest;
    }

    /** `ConvertLayers`: appends the components of one group. */
    method ConvertLayers(path: string, layers: seq<Layer>) returns (err: Option<ComponentError>)
      modifies this
      ensures Classify(env, sprites, fontData, param, path, layers).Err? ==>
        err == Some(Classify(env, sprites, fontData, param, path, layers).error)
      ensures Classify(env, sprites, fontData, param, path, layers).Ok? ==>
        err.None? && components == old(components) + Classify(env, sprites, fontData, param, path, layers).value
    {
      if path != "" {
        var groupName := GroupName(path);
        var start := |path| - |groupName|;
        if start >= |path| {
          return Some(GroupPathOutOfRange(path));
        }
      }
      var b := ButtonPass(path, layers);
      if b.Err? {
        return Some(b.error);
      }
      ClassifyByFinish(env, sprites, fontData, param, path, layers, b.value);
      err := FinishLayers(path, b.value.rest);
      if err.None? {
        AppendAssoc(old(components), b.value.emitted, Finish(env, sprites, fontData, param, path, b.value.rest).value);
      }
    }

    /** The toggle half and the last loop of `ConvertLayers`. */
    method FinishLayers(path: string, rest: seq<Layer>) returns (err: Option<ComponentError>)
      modifies this
      ensures Finish(env, sprites, fontData, param, path, rest).Err? ==>
        err == Some(Finish(env, sprites, fontData, param, path, rest).error)
      ensures Finish(env, sprites, fontData, param, path, rest).Ok? ==>
        err.None? && components == old(components) + Finish(env, sprites, fontData, param, path, rest).value
    {
      var t := TogglePass(path, rest);
      if t.Err? {
        return Some(t.error);
      }
      AddLeftovers(path, t.value.rest);
      err := None;
      AppendAssoc(old(components), t.value.emitted, Leftovers(env, sprites, fontData, path, t.value.rest));
    }

    /** The first loop of `ConvertLayerComponents`: the dictionary from
        path to the layers with that path, with its keys in insertion
        order. */
    static method GroupByPath(entries: seq<PathEntry>) returns (keys: seq<string>, layerGroups: map<string, seq<Layer>>)
      ensures keys == GroupKeys(entries)
      ensures forall k :: k in layerGroups <==> k in keys
      ensures forall k :: k in layerGroups ==> layerGroups[k] == Members(entries, k)
    {
      keys := [];
      layerGroups := map[];
      for i := 0 to |entries|
        invariant keys == GroupKeys(entries[..i])
        invariant layerGroups == GroupMap(entries[..i])
      {
        var key := entries[i].path;
        assert entries[..i + 1][..i] == entries[..i];
        GroupMapMembers(entries[..i]);
        if key !in layerGroups {
          keys := keys + [key];
          layerGroups := layerGroups[key := []];
        }
        layerGroups := layerGroups[key := layerGroups[key] + [entries[i].layer]];
      }
      assert entries[..|entries|] == entries;
      GroupMapMembers(entries);
    }

    /** `ConvertLayerComponents`: groups the layers by path, in order of
        first appearance, and converts each group. */
    method ConvertLayerComponents(entries: seq<PathEntry>) returns (r: Result<seq<Component>, ComponentError>)
      modifies this
      ensures r == ConvertKeys(env, sprites, fontData, param, entries, GroupKeys(entries))
      ensures r.Ok? ==> components == r.value
    {
      components := [];
      var keys, layerGroups := GroupByPath(entries);
      ghost var rs := GroupResults(env, sprites, fontData, param, entries, keys);
      assert rs[0..] == rs;
      match Collect(rs) {
        case Err(_) =>
        case Ok(cs) => assert [] + cs == cs;
      }
      for n := 0 to |keys|
        invariant Collect(rs) == Prefixed(components, Collect(rs[n..]))
      {
        var key := keys[n];
        assert rs[n] == Classify(env, sprites, fontData, param, key, Members(entries, key));
        ghost var before := components;
        var err := ConvertLayers(key, layerGroups[key]);
        CollectStep(rs, n, before);
        if err.Some? {
          return Err(err.value);
        }
        assert components == before + rs[n].value;
      }
      assert rs[|keys|..] == [];
      assert components + [] == components;
      return Ok(components);
    }
  }
}
