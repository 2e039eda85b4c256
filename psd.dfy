/** The parsed Photoshop document as the converter sees it: layers with a
    rectangle, channel bytes and side records, plus the sprite assets that
    the asset store holds. */
module Psd {
  import opened Wrappers

  newtype byte = x: int | 0 <= x < 256

  /** The kinds of the "section divider setting" record that marks folder
      boundaries in the flat layer list. */
  datatype SectionKind = LayerSection | OpenFolder | ClosedFolder | SectionDivider

  /** An RGBA pixel (`Color32`). */
  datatype Color32 = Color32(r: byte, g: byte, b: byte, a: byte)

  /** The rich-text record of a text layer (`TextLayerInfo`), with its font
      size already truncated to an integer. */
  datatype TextRecord = TextRecord(text: string, fontSize: int, fillColor: Color32, alignment: nat)

  /** A layer rectangle in document pixels, origin top-left, y downwards.
      Photoshop stores layer bounds as integers, so the `(int)` truncation
      of the width and height is the identity here. */
  datatype Rect = Rect(x: int, y: int, width: nat, height: nat)

  /** One parsed layer. `sections` lists every section record found among
      its additional-information records (normally zero or one); `text` is
      its text record, if any. Channels are row-major, top row first. */
  datatype Layer = Layer(
    name: string,
    rect: Rect,
    visible: bool,
    sections: seq<SectionKind>,
    text: Option<TextRecord>,
    red: seq<byte>,
    green: seq<byte>,
    blue: seq<byte>,
    alpha: Option<seq<byte>>)

  predicate HasText(l: Layer)
  {
    l.text.Some?
  }

  predicate HasSection(l: Layer)
  {
    |l.sections| > 0
  }

  /** Neither truncated dimension is zero. */
  predicate NonEmpty(l: Layer)
  {
    l.rect.width != 0 && l.rect.height != 0
  }

  /** Every channel holds at least one byte per pixel of the rectangle. */
  predicate ChannelsCover(l: Layer)
  {
    var n := l.rect.width * l.rect.height;
    && |l.red| >= n && |l.green| >= n && |l.blue| >= n
    && (l.alpha.Some? ==> |l.alpha.value| >= n)
  }

  /** What the parser guarantees for every layer whose pixels are ever
      decoded: a visible, non-empty layer carries full channels. */
  predicate Decodable(l: Layer)
  {
    l.visible && NonEmpty(l) ==> ChannelsCover(l)
  }

  /** A decoded texture: width, height and bottom-row-first pixels. */
  datatype Texture = Texture(width: nat, height: nat, pixels: seq<Color32>)

  /** A sprite asset as the asset database returns it: its name (the file
      name without extension), the size of its rectangle, whether a
      nine-slice border is set, and its pixels. */
  datatype Sprite = Sprite(name: string, width: nat, height: nat, bordered: bool, pixels: seq<Color32>)

  /** The asset database, by asset path. */
  type AssetStore = map<string, Sprite>

  /** The asset path of a layer's sprite, `"{folder}/{name}.png"`. */
  function AssetPath(folder: string, name: string): string
  {
    folder + "/" + name + ".png"
  }

  /** The path depends on the name alone (for one folder), and two names
      never share a path: the name is a global key of the store. */
  lemma AssetPathInjective(folder: string, n1: string, n2: string)
    ensures AssetPath(folder, n1) == AssetPath(folder, n2) <==> n1 == n2
  {
    if AssetPath(folder, n1) == AssetPath(folder, n2) {
      var p := AssetPath(folder, n1);
      var k := |folder| + 1;
      assert p[k..k + |n1|] == n1;
      assert AssetPath(folder, n2)[k..k + |n2|] == n2;
    }
  }

  /** Whether the asset at `path` carries a border. The importer keeps its
      settings beside the asset, and saving never resets the border, so
      a rewritten asset keeps this. */
  predicate KeptBorder(store: AssetStore, path: string)
  {
    path in store && store[path].bordered
  }

  /** The sprite that saving a texture under a layer's name produces: an
      asset of the texture's size and pixels, with the border the
      importer already had for that path (none for a new asset). */
  function SpriteOf(name: string, tex: Texture, bordered: bool): (s: Sprite)
    ensures s.name == name && s.bordered == bordered
    ensures s.width == tex.width && s.height == tex.height && s.pixels == tex.pixels
  {
    Sprite(name, tex.width, tex.height, bordered, tex.pixels)
  }

  /** The host's string services, which the model does not interpret:
      `Regex.IsMatch(input, pattern)`, culture-sensitive `ToLower`, and
      culture-sensitive case-insensitive equality. */
  datatype Env = Env(
    isMatch: (string, string) -> bool,
    toLower: string -> string,
    equalsIgnoreCase: (string, string) -> bool)

  /** `GetOrDefaultSprite`: the sprite whose name equals the layer name
      ignoring case, first in list order; none for a missing layer. */
  function GetOrDefaultSprite(env: Env, sprites: seq<Sprite>, layer: Option<Layer>): (r: Option<Sprite>)
    ensures layer.None? ==> r.None?
    ensures r.Some? ==> env.equalsIgnoreCase(r.value.name, layer.value.name)
  {
    if layer.None? then None
    else FirstSprite(env, sprites, layer.value.name, 0)
  }

  /** The first sprite at or after index `from` whose name matches. */
  function FirstSprite(env: Env, sprites: seq<Sprite>, name: string, from: nat): (r: Option<Sprite>)
    requires from <= |sprites|
    ensures r.Some? ==> env.equalsIgnoreCase(r.value.name, name)
    decreases |sprites| - from
  {
    if from == |sprites| then None
    else if env.equalsIgnoreCase(sprites[from].name, name) then Some(sprites[from])
    else FirstSprite(env, sprites, name, from + 1)
  }

  /** The sprite found at or after `from` is the first matching one there,
      and none is found only when no sprite there matches. */
  lemma {:induction false} FirstSpriteIsFirst(env: Env, sprites: seq<Sprite>, name: string, from: nat)
    requires from <= |sprites|
    ensures var r := FirstSprite(env, sprites, name, from);
      && (r.Some? ==> exists i :: from <= i < |sprites| && sprites[i] == r.value
                        && forall j :: from <= j < i ==> !env.equalsIgnoreCase(sprites[j].name, name))
      && (r.None? ==> forall j :: from <= j < |sprites| ==> !env.equalsIgnoreCase(sprites[j].name, name))
    decreases |sprites| - from
  {
    if from < |sprites| && !env.equalsIgnoreCase(sprites[from].name, name) {
      FirstSpriteIsFirst(env, sprites, name, from + 1);
      var r := FirstSprite(env, sprites, name, from + 1);
      if r.Some? {
        var i :| from + 1 <= i < |sprites| && sprites[i] == r.value
                 && forall j :: from + 1 <= j < i ==> !env.equalsIgnoreCase(sprites[j].name, name);
        assert forall j :: from <= j < i ==> !env.equalsIgnoreCase(sprites[j].name, name);
      }
    }
  }

  /** The sprite lookup returns the first sprite, in list order, whose name
      equals the layer's ignoring case, and none exactly when the layer is
      missing or no sprite matches. */
  lemma GetOrDefaultSpriteIsFirst(env: Env, sprites: seq<Sprite>, layer: Option<Layer>)
    ensures var r := GetOrDefaultSprite(env, sprites, layer);
      && (r.None? <==> layer.None? || forall j :: 0 <= j < |sprites| ==> !env.equalsIgnoreCase(sprites[j].name, layer.value.name))
      && (r.Some? ==> exists i :: 0 <= i < |sprites| && sprites[i] == r.value
                        && env.equalsIgnoreCase(sprites[i].name, layer.value.name)
                        && forall j :: 0 <= j < i ==> !env.equalsIgnoreCase(sprites[j].name, layer.value.name))
  {
    if layer.Some? {
      FirstSpriteIsFirst(env, sprites, layer.value.name, 0);
    }
  }
}
