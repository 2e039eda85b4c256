/** The widgets a group of layers becomes (`LayerComponent` and its four
    kinds): what each constructor selects, and what each `Create` sets on
    the node it is given. */
module LayerComponents {
  import opened Wrappers
  import opened Seqs
  import opened Psd
  import opened Scene

  /** The font handed to text components. */
  datatype Font = Font(name: string)

  /** The button patterns: the group pattern, then one pattern per role. */
  datatype ButtonParameter = ButtonParameter(
    pattern: string,
    normalPattern: string,
    pressedPattern: string,
    highlightedPattern: string,
    disabledPattern: string)

  /** The toggle patterns: the group pattern, then one pattern per role. */
  datatype ToggleParameter = ToggleParameter(
    pattern: string,
    backgroundPattern: string,
    checkmarkPattern: string)

  /** A component, with the name, path and rectangle every kind stores. */
  datatype Component =
    | TextComponent(name: string, path: string, rect: Rect, textInfo: Option<TextRecord>, font: Font)
    | ImageComponent(name: string, path: string, rect: Rect, sprite: Option<Sprite>)
    | ButtonComponent(name: string, path: string, rect: Rect,
                      normal: Option<Sprite>, highlighted: Option<Sprite>,
                      pressed: Option<Sprite>, disabled: Option<Sprite>)
    | ToggleComponent(name: string, path: string, rect: Rect,
                      background: Option<Sprite>, checkmark: Option<Sprite>)

  /** The exceptions of construction and creation: null dereferences, and
      the out-of-range `String.Remove` of a group path. */
  datatype ComponentError =
    | NoNormalLayer(group: string)       // `n.Rect` with no normal layer
    | NoBackgroundLayer(group: string)   // `b.Rect` with no background layer
    | NoCheckmarkSprite(group: string)   // `checkmark.name` with no checkmark sprite
    | NoTextRecord(name: string)         // `textInfo.Text` on a layer without a text record
    | GroupPathOutOfRange(path: string)  // `path.Remove(path.Length)` for a path ending in "/"

  /** `x => Regex.IsMatch(x.Name.ToLower(), pattern)`. */
  function Matches(env: Env, pattern: string): Layer -> bool
  {
    (x: Layer) => env.isMatch(env.toLower(x.name), pattern)
  }

  /** The layer that fills a role: the first one, in list order, whose
      lowercased name matches the role's pattern. */
  function Role(env: Env, layers: seq<Layer>, pattern: string): (r: Option<Layer>)
    ensures r.None? <==> forall j :: 0 <= j < |layers| ==> !Matches(env, pattern)(layers[j])
    ensures r.Some? ==> Matches(env, pattern)(r.value)
  {
    match FirstIndex(Matches(env, pattern), layers)
    case None => None
    case Some(i) => Some(layers[i])
  }

  /** The layer of a role is the first one, in list order, that matches the
      role's pattern. */
  lemma RoleIsFirst(env: Env, layers: seq<Layer>, pattern: string)
    requires Role(env, layers, pattern).Some?
    ensures exists j :: 0 <= j < |layers| && layers[j] == Role(env, layers, pattern).value
                        && forall k :: 0 <= k < j ==> !Matches(env, pattern)(layers[k])
  {
    var i := FirstIndex(Matches(env, pattern), layers).value;
    assert layers[i] == Role(env, layers, pattern).value;
  }

  /** The sprite of a role: when some layer matches the pattern, the first
      sprite, in list order, whose name equals the first matching layer's
      ignoring case; none when no layer matches or no sprite has that
      name. */
  lemma RoleSprite(env: Env, sprites: seq<Sprite>, layers: seq<Layer>, pattern: string)
    ensures var s := GetOrDefaultSprite(env, sprites, Role(env, layers, pattern));
      && (s.None? <==>
            || (forall j :: 0 <= j < |layers| ==> !Matches(env, pattern)(layers[j]))
            || (forall i :: 0 <= i < |sprites| ==>
                  !env.equalsIgnoreCase(sprites[i].name, Role(env, layers, pattern).value.name)))
      && (s.Some? ==>
            exists j, i :: && 0 <= j < |layers| && Matches(env, pattern)(layers[j])
                           && (forall k :: 0 <= k < j ==> !Matches(env, pattern)(layers[k]))
                           && 0 <= i < |sprites| && s.value == sprites[i]
                           && env.equalsIgnoreCase(sprites[i].name, layers[j].name)
                           && (forall k :: 0 <= k < i ==> !env.equalsIgnoreCase(sprites[k].name, layers[j].name)))
  {
    var r := Role(env, layers, pattern);
    GetOrDefaultSpriteIsFirst(env, sprites, r);
    if r.Some? {
      RoleIsFirst(env, layers, pattern);
    }
  }

  /** `TextLayerComponent`'s constructor: the layer's rectangle and text
      record. */
  function NewText(name: string, path: string, layer: Layer, font: Font): (c: Component)
    ensures c.TextComponent? && c.name == name && c.path == path && c.rect == layer.rect
    ensures c.textInfo == layer.text && c.font == font
  {
    TextComponent(name, path, layer.rect, layer.text, font)
  }

  /** `ImageLayerComponent`'s constructor. */
  function NewImage(name: string, path: string, rect: Rect, sprite: Option<Sprite>): (c: Component)
    ensures c.ImageComponent? && c.name == name && c.path == path && c.rect == rect && c.sprite == sprite
  {
    ImageComponent(name, path, rect, sprite)
  }

  /** `ButtonLayerComponent`'s constructor: each role independently takes
      the sprite of its first matching layer; the rectangle is the normal
      layer's, and there must be one. */
  function NewButton(env: Env, sprites: seq<Sprite>, name: string, path: string,
                     layers: seq<Layer>, param: ButtonParameter): (r: Result<Component, ComponentError>)
    ensures r.Err? <==> forall j :: 0 <= j < |layers| ==> !Matches(env, param.normalPattern)(layers[j])
    ensures r.Err? ==> r.error == NoNormalLayer(name)
    ensures r.Ok? ==>
      var n := Role(env, layers, param.normalPattern);
      && r.value.ButtonComponent? && r.value.name == name && r.value.path == path
      && n.Some? && r.value.rect == n.value.rect
      && r.value.normal == GetOrDefaultSprite(env, sprites, n)
      && r.value.pressed == GetOrDefaultSprite(env, sprites, Role(env, layers, param.pressedPattern))
      && r.value.highlighted == GetOrDefaultSprite(env, sprites, Role(env, layers, param.highlightedPattern))
      && r.value.disabled == GetOrDefaultSprite(env, sprites, Role(env, layers, param.disabledPattern))
  {
    var n := Role(env, layers, param.normalPattern);
    var p := Role(env, layers, param.pressedPattern);
    var h := Role(env, layers, param.highlightedPattern);
    var d := Role(env, layers, param.disabledPattern);
    if n.None? then Err(NoNormalLayer(name))
    else Ok(ButtonComponent(name, path, n.value.rect,
                            GetOrDefaultSprite(env, sprites, n), GetOrDefaultSprite(env, sprites, h),
                            GetOrDefaultSprite(env, sprites, p), GetOrDefaultSprite(env, sprites, d)))
  }

  /** `ToggleLayerComponent`'s constructor: background and checkmark are
      each the first match of their pattern; the rectangle is the
      background's, and there must be one. */
  function NewToggle(env: Env, sprites: seq<Sprite>, name: string, path: string,
                     layers: seq<Layer>, param: ToggleParameter): (r: Result<Component, ComponentError>)
    ensures r.Err? <==> forall j :: 0 <= j < |layers| ==> !Matches(env, param.backgroundPattern)(layers[j])
    ensures r.Err? ==> r.error == NoBackgroundLayer(name)
    ensures r.Ok? ==>
      var b := Role(env, layers, param.backgroundPattern);
      && r.value.ToggleComponent? && r.value.name == name && r.value.path == path
      && b.Some? && r.value.rect == b.value.rect
      && r.value.background == GetOrDefaultSprite(env, sprites, b)
      && r.value.checkmark == GetOrDefaultSprite(env, sprites, Role(env, layers, param.checkmarkPattern))
  {
    var b := Role(env, layers, param.backgroundPattern);
    var c := Role(env, layers, param.checkmarkPattern);
    if b.None? then Err(NoBackgroundLayer(name))
    else Ok(ToggleComponent(name, path, b.value.rect,
                            GetOrDefaultSprite(env, sprites, b), GetOrDefaultSprite(env, sprites, c)))
  }

  /** Roles do not exclude each other: a layer that comes first for two
      role patterns supplies the sprite of both roles. */
  lemma RolesShareLayer(env: Env, sprites: seq<Sprite>, name: string, path: string,
                        layers: seq<Layer>, param: ButtonParameter)
    requires |layers| > 0
    requires Matches(env, param.normalPattern)(layers[0]) && Matches(env, param.pressedPattern)(layers[0])
    ensures NewButton(env, sprites, name, path, layers, param).Ok?
    ensures var c := NewButton(env, sprites, name, path, layers, param).value;
      c.normal == c.pressed && c.rect == layers[0].rect
  {
    assert Role(env, layers, param.normalPattern) == Some(layers[0]);
    assert Role(env, layers, param.pressedPattern) == Some(layers[0]);
  }

  // ---------------------------------------------------------------------
  // What `Create` sets on the node
  // ---------------------------------------------------------------------

  /** An `Image` added to a node: its sprite and whether it takes raycasts. */
  datatype Graphic = Graphic(sprite: Option<Sprite>, raycast: bool)

  /** A button's transition: left at its default, or a sprite swap with the
      three state sprites. */
  datatype Transition =
    | DefaultTransition
    | SpriteSwap(highlighted: Option<Sprite>, pressed: Option<Sprite>, disabled: Option<Sprite>)

  /** The components and sizes `Create` leaves on the node. A text node's
      size comes from font layout and is not part of the model. */
  datatype Visual =
    | TextVisual(font: Font, text: string, fontSize: int, color: Color32, alignment: nat, raycast: bool)
    | ImageVisual(image: Graphic, sizeDelta: Vec2)
    | ButtonVisual(image: Graphic, transition: Transition, sizeDelta: Vec2)
    | ToggleVisual(background: Graphic, checkName: string, check: Graphic, checkSize: Vec2,
                   isOn: bool, target: Graphic, graphic: Graphic, sizeDelta: Vec2)

  /** The size of a rectangle as a node size. */
  function SizeOf(r: Rect): Vec2
  {
    Vec2(r.width as real, r.height as real)
  }

  /** `Create` of each kind. */
  function Create(c: Component): (r: Result<Visual, ComponentError>)
    ensures r.Err? <==> (c.TextComponent? && c.textInfo.None?) || (c.ToggleComponent? && c.checkmark.None?)
    ensures r.Ok? && c.TextComponent? ==>
      var t := c.textInfo.value;
      r.value == TextVisual(c.font, t.text, t.fontSize, t.fillColor, t.alignment, false)
    ensures r.Ok? && c.ImageComponent? ==>
      r.value.ImageVisual? && r.value.image == Graphic(c.sprite, false) && r.value.sizeDelta == SizeOf(c.rect)
    ensures r.Ok? && c.ButtonComponent? ==>
      && r.value.ButtonVisual? && r.value.image == Graphic(c.normal, true)
      && r.value.sizeDelta == SizeOf(c.rect)
      && (r.value.transition.SpriteSwap? <==> c.highlighted.Some? || c.pressed.Some? || c.disabled.Some?)
      && (r.value.transition.SpriteSwap? ==>
            r.value.transition == SpriteSwap(c.highlighted, c.pressed, c.disabled))
    ensures r.Ok? && c.ToggleComponent? ==>
      var check := c.checkmark.value;
      && r.value.ToggleVisual?
      && r.value.background == Graphic(c.background, true)
      && r.value.checkName == check.name
      && r.value.check == Graphic(c.checkmark, false)
      && r.value.checkSize == Vec2(check.width as real, check.height as real)
      && r.value.isOn
      && r.value.target == r.value.background && r.value.graphic == r.value.check
      && r.value.sizeDelta == SizeOf(c.rect)
  {
    match c
    case TextComponent(_, _, _, info, font) =>
      if info.None? then Err(NoTextRecord(c.name))
      else Ok(TextVisual(font, info.value.text, info.value.fontSize, info.value.fillColor, info.value.alignment, false))
    case ImageComponent(_, _, rect, sprite) =>
      Ok(ImageVisual(Graphic(sprite, false), SizeOf(rect)))
    case ButtonComponent(_, _, rect, normal, highlighted, pressed, disabled) =>
      var transition :=
        if highlighted.Some? || pressed.Some? || disabled.Some?
        then SpriteSwap(highlighted, pressed, disabled)
        else DefaultTransition;
      Ok(ButtonVisual(Graphic(normal, true), transition, SizeOf(rect)))
    case ToggleComponent(_, _, rect, background, checkmark) =>
      if checkmark.None? then Err(NoCheckmarkSprite(c.name))
      else
        var back := Graphic(background, true);
        var check := Graphic(checkmark, false);
        Ok(ToggleVisual(back, checkmark.value.name, check,
                        Vec2(checkmark.value.width as real, checkmark.value.height as real),
                        true, back, check, SizeOf(rect)))
  }
}
