/** The newer editor utilities: decoding a layer's planar channels into a
    bottom-row-first RGBA buffer, building a texture from a layer, and
    saving one sprite per effective layer into the asset store. */
module EditorUtil {
  import opened Wrappers
  import opened Seqs
  import opened Psd

  // ---------------------------------------------------------------------
  // Pixel decoding
  // ---------------------------------------------------------------------

  /** Multiplying by a natural number keeps the order. */
  lemma MulMono(a: nat, b: nat, w: nat)
    requires a <= b
    ensures a * w <= b * w
  {
    assert b * w == a * w + (b - a) * w;
  }

  /** Row and column of a pixel index in a `w`-wide image with `h` rows. */
  lemma RowCol(i: nat, w: nat, h: nat)
    requires i < w * h
    ensures w > 0 && i / w < h && i % w < w && i == (i / w) * w + i % w
  {
  }

  /** Row `r`, column `c` is a pixel index of a `w` by `h` image. */
  lemma RowColBound(r: nat, c: nat, w: nat, h: nat)
    requires r < h && c < w
    ensures r * w + c < w * h
  {
    MulMono(r + 1, h, w);
    assert (r + 1) * w == r * w + w;
  }

  /** Division and remainder by `w` undo `q * w + c` for `0 <= c < w`. */
  lemma DivModUnique(q: nat, c: nat, w: nat)
    requires c < w
    ensures (q * w + c) / w == q && (q * w + c) % w == c
  {
    var n := q * w + c;
    var q', c' := n / w, n % w;
    assert n == q' * w + c';
    if q' > q {
      MulMono(q + 1, q', w);
    } else if q' < q {
      MulMono(q' + 1, q, w);
    }
  }

  /** The output index of input pixel `i` of a `w` by `h` layer: the row is
      mirrored, the column kept. */
  function FlipIndex(i: nat, w: nat, h: nat): (t: nat)
    requires i < w * h
    ensures t < w * h
  {
    RowCol(i, w, h);
    var r, c := i / w, i % w;
    RowColBound(h - 1 - r, c, w, h);
    (h - 1 - r) * w + c
  }

  /** Pixel (row `r`, column `c`) lands in row `h - 1 - r`, column `c`. */
  lemma FlipRowCol(r: nat, c: nat, w: nat, h: nat)
    requires r < h && c < w
    ensures r * w + c < w * h
    ensures FlipIndex(r * w + c, w, h) == (h - 1 - r) * w + c
  {
    RowColBound(r, c, w, h);
    DivModUnique(r, c, w);
  }

  /** Flipping twice gives the index back: the flip is its own inverse, so
      it is a bijection of `[0, w * h)` and every output slot is written
      by exactly one input pixel. */
  lemma FlipInvolution(i: nat, w: nat, h: nat)
    requires i < w * h
    ensures FlipIndex(FlipIndex(i, w, h), w, h) == i
  {
    RowCol(i, w, h);
    var r, c := i / w, i % w;
    FlipRowCol(r, c, w, h);
    FlipRowCol(h - 1 - r, c, w, h);
  }

  lemma FlipInjective(i: nat, j: nat, w: nat, h: nat)
    requires i < w * h && j < w * h
    ensures FlipIndex(i, w, h) == FlipIndex(j, w, h) <==> i == j
  {
    FlipInvolution(i, w, h);
    FlipInvolution(j, w, h);
  }

  /** The index arithmetic the decoder actually performs,
      `len - ((w - i % w - 1 + i) - i % w) - 1`, is the row flip. */
  lemma SourceIndexIsFlip(i: nat, w: nat, h: nat)
    requires i < w * h
    ensures w > 0
    ensures w * h - (((w - i % w - 1) + i) - i % w) - 1 == FlipIndex(i, w, h)
  {
    RowCol(i, w, h);
    var r, c := i / w, i % w;
    assert w * h - (((w - c - 1) + i) - c) - 1 == w * h - w + c - r * w;
    assert (h - 1 - r) * w == h * w - w - r * w;
  }

  /** The pixel made of the channel bytes at input index `i`; opaque when
      the layer has no alpha channel. */
  function PixelAt(l: Layer, i: nat): (p: Color32)
    requires i < |l.red| && i < |l.green| && i < |l.blue|
    requires l.alpha.Some? ==> i < |l.alpha.value|
    ensures p.r == l.red[i] && p.g == l.green[i] && p.b == l.blue[i]
    ensures p.a == if l.alpha.Some? then l.alpha.value[i] else 255
  {
    Color32(l.red[i], l.green[i], l.blue[i], if l.alpha.Some? then l.alpha.value[i] else 255)
  }

  /** The decoded buffer, stated per output slot: slot `k` holds the input
      pixel whose flipped index is `k`. */
  function Decoded(l: Layer): (px: seq<Color32>)
    requires ChannelsCover(l)
    ensures |px| == l.rect.width * l.rect.height
  {
    var w, h := l.rect.width, l.rect.height;
    seq(w * h, k requires 0 <= k < w * h => PixelAt(l, FlipIndex(k, w, h)))
  }

  /** Input pixel `i` appears in the decoded buffer at its flipped index
      (row `h - 1 - r`, column `c` by `FlipRowCol`), with its own channel
      bytes. */
  lemma DecodedAt(l: Layer, i: nat)
    requires ChannelsCover(l)
    requires i < l.rect.width * l.rect.height
    ensures FlipIndex(i, l.rect.width, l.rect.height) < |Decoded(l)|
    ensures Decoded(l)[FlipIndex(i, l.rect.width, l.rect.height)] == PixelAt(l, i)
  {
    FlipInvolution(i, l.rect.width, l.rect.height);
  }

  /** `LayerToColors`: one pass over the input pixels, each written to its
      flipped slot of a fresh buffer. */
  method LayerToColors(l: Layer) returns (pixels: array<Color32>)
    requires ChannelsCover(l)
    ensures pixels[..] == Decoded(l)
  {
    var w, h := l.rect.width, l.rect.height;
    pixels := new Color32[w * h];
    var i := 0;
    while i < pixels.Length
      invariant 0 <= i <= pixels.Length == w * h
      invariant forall j :: 0 <= j < i ==> pixels[FlipIndex(j, w, h)] == PixelAt(l, j)
    {
      var r, g, b := l.red[i], l.green[i], l.blue[i];
      var a: byte := 255;
      if l.alpha.Some? {
        a := l.alpha.value[i];
      }
      SourceIndexIsFlip(i, w, h);
      var mod := i % w;
      var n := ((w - mod - 1) + i) - mod;
      forall j | 0 <= j < i
        ensures FlipIndex(j, w, h) != FlipIndex(i, w, h)
      {
        FlipInjective(i, j, w, h);
      }
      pixels[pixels.Length - n - 1] := Color32(r, g, b, a);
      i := i + 1;
    }
    forall k | 0 <= k < pixels.Length
      ensures pixels[k] == Decoded(l)[k]
    {
      FlipInvolution(k, w, h);
    }
  }

  /** `CreateTexture`: no texture for an invisible layer or one with a zero
      truncated dimension; otherwise the decoded layer at its own size. */
  method CreateTexture(l: Layer) returns (tex: Option<Texture>)
    requires Decodable(l)
    ensures tex.None? <==> !l.visible || !NonEmpty(l)
    ensures tex.Some? ==> ChannelsCover(l) && tex.value == Texture(l.rect.width, l.rect.height, Decoded(l))
  {
    if !l.visible {
      return None;
    }
    if l.rect.width == 0 || l.rect.height == 0 {
      return None;
    }
    var pixels := LayerToColors(l);
    tex := Some(Texture(l.rect.width, l.rect.height, pixels[..]));
  }

  // ---------------------------------------------------------------------
  // Saving sprites
  // ---------------------------------------------------------------------

  /** `x => x.Name == name`, with ordinal string equality. */
  function SameName(name: string): Layer -> bool
  {
    (x: Layer) => x.name == name
  }

  /** The names of the layers in `s`. */
  function Names(s: seq<Layer>): set<string>
  {
    set x | x in s :: x.name
  }

  /** One round of the first loop of `SaveAssets`: when the first earlier
      entry with the same name is strictly smaller in width or height, that
      entry is removed and the layer added twice; otherwise the layer is
      added once. */
  function AddEffective(e: seq<Layer>, l: Layer): (r: seq<Layer>)
    ensures |r| == |e| + 1
    ensures forall x :: x in r ==> x in e || x == l
  {
    match FirstIndex(SameName(l.name), e)
    case Some(i) =>
      if e[i].rect.width < l.rect.width || e[i].rect.height < l.rect.height
      then RemoveFirstIn(e, e[i]); RemoveFirst(e, e[i]) + [l, l]
      else e + [l]
    case None => e + [l]
  }

  /** The `effectiveLayers` list built from `layers`. */
  function Effective(layers: seq<Layer>): (e: seq<Layer>)
    ensures |e| == |layers|
    ensures forall x :: x in e ==> x in layers
  {
    if layers == [] then []
    else AddEffective(Effective(layers[..|layers| - 1]), layers[|layers| - 1])
  }

  /** Extending the input by one layer runs one more round. */
  lemma EffectiveSnoc(layers: seq<Layer>, i: nat)
    requires i < |layers|
    ensures Effective(layers[..i + 1]) == AddEffective(Effective(layers[..i]), layers[i])
  {
    assert layers[..i + 1][..i] == layers[..i];
  }

  /** Every name of the input keeps at least one effective entry, and no
      other name appears. */
  lemma {:induction false} EffectiveNames(layers: seq<Layer>)
    ensures Names(Effective(layers)) == Names(layers)
  {
    if layers != [] {
      var front, l := layers[..|layers| - 1], layers[|layers| - 1];
      EffectiveNames(front);
      assert layers == front + [l];
      assert Names(layers) == Names(front) + {l.name};
      AddEffectiveNames(Effective(front), l);
    }
  }

  /** One round adds the layer's name and keeps all others. */
  lemma AddEffectiveNames(e: seq<Layer>, l: Layer)
    ensures Names(AddEffective(e, l)) == Names(e) + {l.name}
  {
    match FirstIndex(SameName(l.name), e)
    case Some(i) =>
      if e[i].rect.width < l.rect.width || e[i].rect.height < l.rect.height {
        var rest := RemoveFirst(e, e[i]);
        RemoveFirstIn(e, e[i]);
        assert Names(rest) <= Names(e);
        assert Names(e) <= Names(rest) + {l.name};
        assert Names(rest + [l, l]) == Names(rest) + {l.name};
      } else {
        assert Names(e + [l]) == Names(e) + {l.name};
      }
    case None =>
      assert Names(e + [l]) == Names(e) + {l.name};
  }

  /** The asset at `path` must be (re)written for layer `l`: there is none,
      or it has no border and is smaller than the layer in width or height. */
  predicate NeedsWrite(store: AssetStore, path: string, l: Layer)
  {
    path !in store
    || (!store[path].bordered
        && (store[path].width < l.rect.width || store[path].height < l.rect.height))
  }

  /** The exception of `SaveAsset` when it is handed no texture. */
  datatype SaveError = NoTexture(name: string)

  /** One round of the second loop of `SaveAssets` for layer `l`: the store
      afterwards. The sprite the round appends to the atlas is the asset at
      the layer's path. */
  function SaveOne(folder: string, l: Layer, store: AssetStore): (r: Result<AssetStore, SaveError>)
    requires Decodable(l)
    ensures var path := AssetPath(folder, l.name);
      && (r.Err? <==> NeedsWrite(store, path, l) && !(l.visible && NonEmpty(l)))
      && (r.Ok? ==>
            && path in r.value
            && r.value.Keys == store.Keys + {path}
            && (forall p :: p in store && p != path ==> r.value[p] == store[p])
            && (NeedsWrite(store, path, l) ==>
                  r.value[path] == SpriteOf(l.name, Texture(l.rect.width, l.rect.height, Decoded(l)), false))
            && (!NeedsWrite(store, path, l) ==> r.value == store)
            && (!r.value[path].bordered ==> r.value[path].width >= l.rect.width && r.value[path].height >= l.rect.height))
  {
    var path := AssetPath(folder, l.name);
    if NeedsWrite(store, path, l) then
      if l.visible && NonEmpty(l) then
        Ok(store[path := SpriteOf(l.name, Texture(l.rect.width, l.rect.height, Decoded(l)), KeptBorder(store, path))])
      else Err(NoTexture(l.name))
    else Ok(store)
  }

  /** A round that writes stores the layer's sprite at its path, with the
      border the asset there had. */
  lemma SaveOneWrites(folder: string, l: Layer, store: AssetStore)
    requires Decodable(l) && l.visible && NonEmpty(l)
    requires NeedsWrite(store, AssetPath(folder, l.name), l)
    ensures var path := AssetPath(folder, l.name);
      SaveOne(folder, l, store)
      == Ok(store[path := SpriteOf(l.name, Texture(l.rect.width, l.rect.height, Decoded(l)), KeptBorder(store, path))])
  {
  }

  /** The second loop of `SaveAssets` over the effective layers `eff`: the
      final store; the first failing entry aborts the run. */
  function SaveFrom(folder: string, eff: seq<Layer>, store: AssetStore): (r: Result<AssetStore, SaveError>)
    requires forall l :: l in eff ==> Decodable(l)
    ensures r.Ok? ==> store.Keys <= r.value.Keys
    ensures r.Ok? ==> forall l :: l in eff ==> AssetPath(folder, l.name) in r.value
    decreases |eff|
  {
    if eff == [] then Ok(store)
    else match SaveOne(folder, eff[0], store)
      case Err(e) => Err(e)
      case Ok(st) => SaveFrom(folder, eff[1..], st)
  }

  /** The atlas as the array returned reads it: entry `i` is the sprite
      asset at the path of `eff[i]`. The asset database updates that one
      object in place whenever the path is re-imported, so every entry
      shows the store's final sprite at its path. */
  function Resolve(folder: string, eff: seq<Layer>, store: AssetStore): (atlas: seq<Sprite>)
    requires forall l :: l in eff ==> AssetPath(folder, l.name) in store
    ensures |atlas| == |eff|
  {
    seq(|eff|, i requires 0 <= i < |eff| => store[AssetPath(folder, eff[i].name)])
  }

  /** The asset paths of `eff`, in order: what the atlas loop records. */
  function Paths(folder: string, eff: seq<Layer>): (ps: seq<string>)
    ensures |ps| == |eff|
    ensures forall j :: 0 <= j < |eff| ==> ps[j] == AssetPath(folder, eff[j].name)
  {
    if eff == [] then []
    else Paths(folder, eff[..|eff| - 1]) + [AssetPath(folder, eff[|eff| - 1].name)]
  }

  /** `SaveAssets` over the effective list: the atlas and the final store,
      or the exception of the first failing entry. */
  function SaveAll(folder: string, eff: seq<Layer>, store: AssetStore): (r: Result<(seq<Sprite>, AssetStore), SaveError>)
    requires forall l :: l in eff ==> Decodable(l)
    ensures r.Err? <==> SaveFrom(folder, eff, store).Err?
    ensures r.Ok? ==> |r.value.0| == |eff| && r.value.1 == SaveFrom(folder, eff, store).value
  {
    match SaveFrom(folder, eff, store)
    case Err(e) => Err(e)
    case Ok(st) => Ok((Resolve(folder, eff, st), st))
  }

  /** Same-named entries of the atlas are one sprite, and it is the one
      stored at their path after the run. */
  lemma AtlasShared(folder: string, eff: seq<Layer>, store: AssetStore)
    requires forall l :: l in eff ==> Decodable(l)
    requires SaveAll(folder, eff, store).Ok?
    ensures var (atlas, st) := SaveAll(folder, eff, store).value;
      && (forall i :: 0 <= i < |eff| ==> AssetPath(folder, eff[i].name) in st && atlas[i] == st[AssetPath(folder, eff[i].name)])
      && (forall i, j :: 0 <= i < |eff| && 0 <= j < |eff| && eff[i].name == eff[j].name ==> atlas[i] == atlas[j])
  {
    var st := SaveFrom(folder, eff, store).value;
    assert forall i :: 0 <= i < |eff| ==> eff[i] in eff;
  }

  /** One round of the atlas loop: a failing entry ends the run with its
      error, a successful one goes on from the store it leaves. */
  lemma SaveStep(folder: string, eff: seq<Layer>, i: nat, assets: AssetStore)
    requires forall l :: l in eff ==> Decodable(l)
    requires i < |eff|
    ensures var one := SaveOne(folder, eff[i], assets);
      && (one.Err? ==> SaveFrom(folder, eff[i..], assets) == Err(one.error))
      && (one.Ok? ==> SaveFrom(folder, eff[i..], assets) == SaveFrom(folder, eff[i + 1..], one.value))
  {
    assert eff[i..][0] == eff[i] && eff[i..][1..] == eff[i + 1..];
  }

  /** A bordered asset is never overwritten, and no asset is ever deleted. */
  lemma {:induction false} SaveKeepsBordered(folder: string, eff: seq<Layer>, store: AssetStore)
    requires forall l :: l in eff ==> Decodable(l)
    requires SaveFrom(folder, eff, store).Ok?
    ensures var st := SaveFrom(folder, eff, store).value;
      && store.Keys <= st.Keys
      && forall p :: p in store && store[p].bordered ==> st[p] == store[p]
  {
    if eff != [] {
      var st1 := SaveOne(folder, eff[0], store).value;
      SaveKeepsBordered(folder, eff[1..], st1);
    }
  }

  /** Only the paths of the saved layers' names are touched: every other
      asset of the store stays as it was, and the new keys are exactly those
      paths. */
  lemma {:induction false} SaveTouchesOnlyLayerPaths(folder: string, eff: seq<Layer>, store: AssetStore)
    requires forall l :: l in eff ==> Decodable(l)
    requires SaveFrom(folder, eff, store).Ok?
    ensures var st := SaveFrom(folder, eff, store).value;
      && st.Keys == store.Keys + (set l | l in eff :: AssetPath(folder, l.name))
      && forall p :: p in store && (forall l :: l in eff ==> AssetPath(folder, l.name) != p) ==> st[p] == store[p]
  {
    if eff != [] {
      var st1 := SaveOne(folder, eff[0], store).value;
      SaveTouchesOnlyLayerPaths(folder, eff[1..], st1);
      assert (set l | l in eff :: AssetPath(folder, l.name))
          == {AssetPath(folder, eff[0].name)} + (set l | l in eff[1..] :: AssetPath(folder, l.name));
    }
  }

  /** After saving, the asset of the last entry with a given name is at
      least as large as that entry in both dimensions, unless it carries a
      border. */
  lemma {:induction false} SaveCoversLastOfName(folder: string, eff: seq<Layer>, store: AssetStore, k: nat)
    requires forall l :: l in eff ==> Decodable(l)
    requires SaveFrom(folder, eff, store).Ok?
    requires k < |eff|
    requires forall j :: k < j < |eff| ==> eff[j].name != eff[k].name
    ensures var a := SaveFrom(folder, eff, store).value[AssetPath(folder, eff[k].name)];
      a.bordered || (a.width >= eff[k].rect.width && a.height >= eff[k].rect.height)
  {
    var st1 := SaveOne(folder, eff[0], store).value;
    var path := AssetPath(folder, eff[k].name);
    if k == 0 {
      SaveTouchesOnlyLayerPaths(folder, eff[1..], st1);
      forall l | l in eff[1..]
        ensures AssetPath(folder, l.name) != path
      {
        var j :| 0 <= j < |eff[1..]| && eff[1..][j] == l;
        assert eff[j + 1] == l;
        AssetPathInjective(folder, l.name, eff[0].name);
      }
    } else {
      SaveCoversLastOfName(folder, eff[1..], st1, k - 1);
    }
  }

  /** Two same-named entries, the first the larger and not yet in the
      store: the first writes its sprite, the second reuses it. */
  lemma SavePair(folder: string, big: Layer, other: Layer, store: AssetStore)
    requires other.name == big.name
    requires other.rect.width <= big.rect.width && other.rect.height <= big.rect.height
    requires big.visible && NonEmpty(big) && ChannelsCover(big) && Decodable(other)
    requires AssetPath(folder, big.name) !in store
    ensures var s := SpriteOf(big.name, Texture(big.rect.width, big.rect.height, Decoded(big)), false);
      SaveAll(folder, [big, other], store) == Ok(([s, s], store[AssetPath(folder, big.name) := s]))
  {
    var s := SpriteOf(big.name, Texture(big.rect.width, big.rect.height, Decoded(big)), false);
    var path := AssetPath(folder, big.name);
    var st := store[path := s];
    assert SaveOne(folder, big, store) == Ok(st);
    assert SaveOne(folder, other, st) == Ok(st);
    assert [big, other][1..] == [other];
    assert [other][1..] == [];
    assert SaveFrom(folder, [other], st) == SaveFrom(folder, [], st) == Ok(st);
    assert SaveFrom(folder, [big, other], store) == Ok(st);
    assert Resolve(folder, [big, other], st) == [s, s];
  }

  /** `AddEffective` as the two appends the loop body performs. */
  lemma AddEffectiveSteps(e: seq<Layer>, l: Layer)
    ensures var prev := FirstIndex(SameName(l.name), e);
      if prev.Some? && (e[prev.value].rect.width < l.rect.width || e[prev.value].rect.height < l.rect.height)
      then AddEffective(e, l) == RemoveFirst(e, e[prev.value]) + [l] + [l]
      else AddEffective(e, l) == e + [l]
  {
    var prev := FirstIndex(SameName(l.name), e);
    if prev.Some? {
      AppendAssoc(RemoveFirst(e, e[prev.value]), [l], [l]);
      assert [l] + [l] == [l, l];
    }
  }

  /** A round in terms of positions: with `i` the first entry named like
      `l`, a narrower or shorter entry there is taken out of its place and
      `l` appended twice; otherwise, or when no entry has the name, `l` is
      appended once. */
  lemma AddEffectiveAt(e: seq<Layer>, l: Layer)
    ensures (forall j :: 0 <= j < |e| ==> e[j].name != l.name) ==> AddEffective(e, l) == e + [l]
    ensures forall i :: && 0 <= i < |e| && e[i].name == l.name
                        && (forall j :: 0 <= j < i ==> e[j].name != l.name)
                        ==> AddEffective(e, l)
                            == if e[i].rect.width < l.rect.width || e[i].rect.height < l.rect.height
                               then e[..i] + e[i + 1..] + [l, l]
                               else e + [l]
  {
    match FirstIndex(SameName(l.name), e)
    case None =>
    case Some(k) =>
      RemoveAt(e, k);
      forall i | && 0 <= i < |e| && e[i].name == l.name
                 && (forall j :: 0 <= j < i ==> e[j].name != l.name)
        ensures i == k
      {
        assert SameName(l.name)(e[i]);
        assert e[k].name == l.name;
      }
  }

  /** The effective list of two layers is one round on the first. */
  lemma EffectivePair(a: Layer, b: Layer)
    ensures Effective([a, b]) == AddEffective([a], b)
  {
    assert [a, b][..1] == [a];
    assert [a][..0] == [];
  }

  /** A larger same-named layer after a smaller one replaces it: one asset
      at the larger size, shared by both atlas entries. */
  lemma UpgradeToLarger(folder: string, small: Layer, big: Layer, store: AssetStore)
    requires small.name == big.name
    requires small.rect.width <= big.rect.width && small.rect.height <= big.rect.height
    requires small.rect.width < big.rect.width || small.rect.height < big.rect.height
    requires big.visible && NonEmpty(big) && ChannelsCover(big) && Decodable(small)
    requires AssetPath(folder, big.name) !in store
    ensures Effective([small, big]) == [big, big]
    ensures var s := SpriteOf(big.name, Texture(big.rect.width, big.rect.height, Decoded(big)), false);
      SaveAll(folder, Effective([small, big]), store) == Ok(([s, s], store[AssetPath(folder, big.name) := s]))
  {
    EffectivePair(small, big);
    assert FirstIndex(SameName(big.name), [small]) == Some(0);
    assert RemoveFirst([small], small) == [];
    assert [] + [big, big] == [big, big];
    SavePair(folder, big, big, store);
  }

  /** A smaller same-named layer after a larger one does not shrink the
      asset: both atlas entries get the larger sprite. */
  lemma KeepLarger(folder: string, big: Layer, small: Layer, store: AssetStore)
    requires small.name == big.name
    requires small.rect.width <= big.rect.width && small.rect.height <= big.rect.height
    requires big.visible && NonEmpty(big) && ChannelsCover(big) && Decodable(small)
    requires AssetPath(folder, big.name) !in store
    ensures Effective([big, small]) == [big, small]
    ensures var s := SpriteOf(big.name, Texture(big.rect.width, big.rect.height, Decoded(big)), false);
      SaveAll(folder, Effective([big, small]), store) == Ok(([s, s], store[AssetPath(folder, big.name) := s]))
  {
    EffectivePair(big, small);
    assert FirstIndex(SameName(small.name), [big]) == Some(0);
    assert [big] + [small] == [big, small];
    SavePair(folder, big, small, store);
  }

  /** The first loop of `SaveAssets`: the effective-layer list. */
  method CollectEffective(layers: seq<Layer>) returns (effectiveLayers: seq<Layer>)
    ensures effectiveLayers == Effective(layers)
  {
    effectiveLayers := [];
    for i := 0 to |layers|
      invariant effectiveLayers == Effective(layers[..i])
    {
      var layer := layers[i];
      EffectiveSnoc(layers, i);
      AddEffectiveSteps(effectiveLayers, layer);
      var prev := FirstIndex(SameName(layer.name), effectiveLayers);
      if prev.Some? && (effectiveLayers[prev.value].rect.width < layer.rect.width
                        || effectiveLayers[prev.value].rect.height < layer.rect.height) {
        effectiveLayers := RemoveFirst(effectiveLayers, effectiveLayers[prev.value]);
        effectiveLayers := effectiveLayers + [layer];
      }
      effectiveLayers := effectiveLayers + [layer];
    }
    assert layers[..|layers|] == layers;
  }

  /** The second loop of `SaveAssets`: writes or reuses one sprite per
      effective entry. An atlas entry is a reference to the sprite asset at
      a path, so the loop records the path. */
  method SaveRounds(folder: string, eff: seq<Layer>, store: AssetStore)
    returns (r: Result<(seq<string>, AssetStore), SaveError>)
    requires forall l :: l in eff ==> Decodable(l)
    ensures r.Err? <==> SaveFrom(folder, eff, store).Err?
    ensures r.Err? ==> r.error == SaveFrom(folder, eff, store).error
    ensures r.Ok? ==> r.value == (Paths(folder, eff), SaveFrom(folder, eff, store).value)
  {
    var atlas: seq<string> := [];
    var assets := store;
    assert eff[0..] == eff;
    for i := 0 to |eff|
      invariant SaveFrom(folder, eff, store) == SaveFrom(folder, eff[i..], assets)
      invariant atlas == Paths(folder, eff[..i])
    {
      var layer := eff[i];
      var path := AssetPath(folder, layer.name);
      SaveStep(folder, eff, i, assets);
      ghost var before := assets;
      if path !in assets
         || (!assets[path].bordered
             && (assets[path].width < layer.rect.width || assets[path].height < layer.rect.height)) {
        var tex := CreateTexture(layer);
        if tex.None? {
          assert SaveOne(folder, layer, assets) == Err(NoTexture(layer.name));
          return Err(NoTexture(layer.name));
        }
        var bordered := path in assets && assets[path].bordered;
        SaveOneWrites(folder, layer, assets);
        assets := assets[path := SpriteOf(layer.name, tex.value, bordered)];
      } else {
        assert SaveOne(folder, layer, before) == Ok(assets);
      }
      assert eff[..i + 1][..i] == eff[..i];
      atlas := atlas + [path];
    }
    assert eff[|eff|..] == [];
    assert eff[..|eff|] == eff;
    r := Ok((atlas, assets));
  }

  /** `SaveAssets`: builds the effective-layer list, saves it, and returns
      the atlas read from the final store. */
  method SaveAssets(folder: string, layers: seq<Layer>, store: AssetStore)
    returns (r: Result<(seq<Sprite>, AssetStore), SaveError>)
    requires forall l :: l in layers ==> Decodable(l)
    ensures r == SaveAll(folder, Effective(layers), store)
  {
    var effectiveLayers := CollectEffective(layers);
    var rounds := SaveRounds(folder, effectiveLayers, store);
    if rounds.Err? {
      return Err(rounds.error);
    }
    var (atlas, assets) := rounds.value;
    var sprites := seq(|atlas|, j requires 0 <= j < |atlas| && atlas[j] in assets => assets[atlas[j]]);
    assert sprites == Resolve(folder, effectiveLayers, assets);
    r := Ok((sprites, assets));
  }
}
