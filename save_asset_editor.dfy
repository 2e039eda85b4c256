/** The asset-saving window (`SaveAssetEditor`): it lists one row per
    distinct content layer, sorted by name, lets the user untick rows whose
    sprite already exists, and writes the ticked rows to the asset store. */
module SaveAssetEditor {
  import opened Wrappers
  import opened Seqs
  import opened Psd
  import EditorUtil

  /** One row of the window (`TempLayer`): the layer, the texture built
      from it, the sprite already stored under its name, and whether the
      row is to be written. */
  datatype TempLayer = TempLayer(layer: Layer, origin: Texture, exist: Option<Sprite>, overWrite: bool)

  /** A layer the window offers: no section record, no text record, both
      sizes positive, and visible, so that a texture can be built. */
  predicate Offered(l: Layer)
  {
    !HasSection(l) && !HasText(l) && NonEmpty(l) && l.visible
  }

  /** Layer `i` of `psd` gets a row: it is offered and no earlier offered
      layer has its name. */
  predicate Wins(psd: seq<Layer>, i: int)
  {
    && 0 <= i < |psd| && Offered(psd[i])
    && forall j :: 0 <= j < i && Offered(psd[j]) ==> psd[j].name != psd[i].name
  }

  /** The row made for an offered layer: its decoded texture, the stored
      sprite at its path if any, and ticked exactly when there is none. */
  function Row(folder: string, store: AssetStore, l: Layer): (e: TempLayer)
    requires ChannelsCover(l)
    ensures e.layer == l && e.origin == Texture(l.rect.width, l.rect.height, EditorUtil.Decoded(l))
    ensures e.exist.Some? <==> AssetPath(folder, l.name) in store
    ensures e.exist.Some? ==> e.exist.value == store[AssetPath(folder, l.name)]
    ensures e.overWrite <==> e.exist.None?
  {
    var path := AssetPath(folder, l.name);
    var sprite := if path in store then Some(store[path]) else None;
    TempLayer(l, Texture(l.rect.width, l.rect.height, EditorUtil.Decoded(l)), sprite, sprite.None?)
  }

  /** `x => x.layer.Name == name`. */
  function NameIs(name: string): TempLayer -> bool
  {
    (e: TempLayer) => e.layer.name == name
  }

  /** The rows collected from `psd` in document order, before sorting. */
  function Rows(folder: string, store: AssetStore, psd: seq<Layer>): seq<TempLayer>
    requires forall i :: 0 <= i < |psd| ==> Decodable(psd[i])
  {
    if psd == [] then []
    else
      var prev := Rows(folder, store, psd[..|psd| - 1]);
      var l := psd[|psd| - 1];
      if !Offered(l) || FirstIndex(NameIs(l.name), prev).Some? then prev
      else assert Decodable(l); prev + [Row(folder, store, l)]
  }

  /** Extending the document by one layer runs one more round. */
  lemma RowsSnoc(folder: string, store: AssetStore, psd: seq<Layer>, i: nat)
    requires forall j :: 0 <= j < |psd| ==> Decodable(psd[j])
    requires i < |psd|
    ensures var prev := Rows(folder, store, psd[..i]);
      Rows(folder, store, psd[..i + 1])
        == if !Offered(psd[i]) || FirstIndex(NameIs(psd[i].name), prev).Some? then prev
           else prev + [Row(folder, store, psd[i])]
  {
    assert psd[..i + 1][..i] == psd[..i];
  }

  /** The last round: the last layer gets a row exactly when it is offered
      and no row has its name yet. */
  lemma RowsLast(folder: string, store: AssetStore, psd: seq<Layer>)
    requires forall i :: 0 <= i < |psd| ==> Decodable(psd[i])
    requires psd != []
    ensures var n := |psd| - 1; var prev := Rows(folder, store, psd[..n]);
      if Offered(psd[n]) && FirstIndex(NameIs(psd[n].name), prev).None?
      then ChannelsCover(psd[n]) && Rows(folder, store, psd) == prev + [Row(folder, store, psd[n])]
      else Rows(folder, store, psd) == prev
  {
  }

  /** Every row is the row of an offered layer of the document. */
  predicate RowsFrom(folder: string, store: AssetStore, psd: seq<Layer>, s: seq<TempLayer>)
  {
    forall k :: 0 <= k < |s| ==>
      s[k].layer in psd && Offered(s[k].layer) && ChannelsCover(s[k].layer) && s[k] == Row(folder, store, s[k].layer)
  }

  /** Every offered layer's name has a row. */
  predicate NamesCovered(psd: seq<Layer>, s: seq<TempLayer>)
  {
    forall i :: 0 <= i < |psd| && Offered(psd[i]) ==> exists k :: 0 <= k < |s| && s[k].layer.name == psd[i].name
  }

  /** The row with the name of a winning layer holds that layer: the first
      offered layer with a name wins. */
  predicate FirstOfName(psd: seq<Layer>, s: seq<TempLayer>)
  {
    forall j, k :: 0 <= j < |psd| && Wins(psd, j) && 0 <= k < |s| && s[k].layer.name == psd[j].name ==> s[k].layer == psd[j]
  }

  lemma {:induction false} RowsShape(folder: string, store: AssetStore, psd: seq<Layer>)
    requires forall i :: 0 <= i < |psd| ==> Decodable(psd[i])
    ensures RowsFrom(folder, store, psd, Rows(folder, store, psd))
  {
    if psd != [] {
      var n := |psd| - 1;
      var front := psd[..n];
      RowsShape(folder, store, front);
      RowsLast(folder, store, psd);
      var r := Rows(folder, store, psd);
      forall k | 0 <= k < |r|
        ensures r[k].layer in psd
      {
        if k < |Rows(folder, store, front)| {
          assert r[k].layer in front;
        }
      }
    }
  }

  /** No two rows share a name. */
  predicate Distinct(s: seq<TempLayer>)
  {
    forall i, j :: 0 <= i < j < |s| ==> s[i].layer.name != s[j].layer.name
  }

  lemma {:induction false} RowsDistinct(folder: string, store: AssetStore, psd: seq<Layer>)
    requires forall i :: 0 <= i < |psd| ==> Decodable(psd[i])
    ensures Distinct(Rows(folder, store, psd))
  {
    if psd != [] {
      var n := |psd| - 1;
      var prev := Rows(folder, store, psd[..n]);
      RowsDistinct(folder, store, psd[..n]);
      RowsLast(folder, store, psd);
      var l := psd[n];
      if Offered(l) && FirstIndex(NameIs(l.name), prev).None? {
        var r := prev + [Row(folder, store, l)];
        forall i, j | 0 <= i < j < |r|
          ensures r[i].layer.name != r[j].layer.name
        {
          if j == |prev| {
            assert !NameIs(l.name)(prev[i]);
          }
        }
      }
    }
  }

  lemma {:induction false} RowsCoverNames(folder: string, store: AssetStore, psd: seq<Layer>)
    requires forall i :: 0 <= i < |psd| ==> Decodable(psd[i])
    ensures NamesCovered(psd, Rows(folder, store, psd))
  {
    if psd != [] {
      var n := |psd| - 1;
      var front := psd[..n];
      var prev := Rows(folder, store, front);
      var r := Rows(folder, store, psd);
      RowsCoverNames(folder, store, front);
      RowsLast(folder, store, psd);
      assert prev <= r;
      forall i | 0 <= i < |psd| && Offered(psd[i])
        ensures exists k :: 0 <= k < |r| && r[k].layer.name == psd[i].name
      {
        if i < n {
          assert front[i] == psd[i];
          var k :| 0 <= k < |prev| && prev[k].layer.name == front[i].name;
          assert r[k] == prev[k];
        } else {
          match FirstIndex(NameIs(psd[n].name), prev)
          case Some(k) => assert r[k] == prev[k];
          case None => assert r[|prev|].layer == psd[n];
        }
      }
    }
  }

  lemma {:induction false} RowsFirstOfName(folder: string, store: AssetStore, psd: seq<Layer>)
    requires forall i :: 0 <= i < |psd| ==> Decodable(psd[i])
    ensures FirstOfName(psd, Rows(folder, store, psd))
  {
    if psd != [] {
      var n := |psd| - 1;
      var front, l := psd[..n], psd[n];
      var prev := Rows(folder, store, front);
      var r := Rows(folder, store, psd);
      RowsLast(folder, store, psd);
      assert psd == front + [l];
      var extra := r[|prev|..];
      assert r == prev + extra;
      // The two halves are proved apart: the facts each needs about the
      // shorter document would feed each other without end.
      assert forall j, k :: 0 <= j < n && Wins(psd, j) && 0 <= k < |r| && r[k].layer.name == psd[j].name
                            ==> r[k].layer == psd[j] by {
        RowsFirstOfName(folder, store, front);
        RowsCoverNames(folder, store, front);
        forall j, k | 0 <= j < n && Wins(psd, j) && 0 <= k < |r| && r[k].layer.name == psd[j].name
          ensures r[k].layer == psd[j]
        {
          assert psd[j] == front[j];
          EarlierWinner(front, l, prev, extra, j, k);
        }
      }
      assert Wins(psd, n) ==> forall k :: 0 <= k < |r| && r[k].layer.name == l.name ==> r[k].layer == l by {
        RowsShape(folder, store, front);
        if Wins(psd, n) {
          forall k | 0 <= k < |r| && r[k].layer.name == l.name
            ensures r[k].layer == l
          {
            LastWinner(front, l, prev, extra, k);
          }
        }
      }
    }
  }

  /** A row with the name of a winning layer of the shorter document still
      holds that layer after the last round. */
  lemma EarlierWinner(front: seq<Layer>, l: Layer, prev: seq<TempLayer>, extra: seq<TempLayer>, j: int, k: int)
    requires |extra| <= 1
    requires extra != [] ==> extra[0].layer == l && FirstIndex(NameIs(l.name), prev).None?
    requires FirstOfName(front, prev) && NamesCovered(front, prev)
    requires 0 <= j < |front| && Wins(front + [l], j)
    requires 0 <= k < |prev + extra| && (prev + extra)[k].layer.name == front[j].name
    ensures (prev + extra)[k].layer == front[j]
  {
    var psd, r := front + [l], prev + extra;
    WinsFront(psd, j);
    assert psd[..|front|] == front;
    if extra != [] {
      var k' :| 0 <= k' < |prev| && prev[k'].layer.name == front[j].name;
      assert !NameIs(l.name)(prev[k']);
    }
    if k < |prev| {
      assert r[k] == prev[k];
    }
  }

  /** A row with the name of the last layer, when that layer wins, holds
      it: no earlier row can carry a winning name that is new. */
  lemma LastWinner(front: seq<Layer>, l: Layer, prev: seq<TempLayer>, extra: seq<TempLayer>, k: int)
    requires |extra| <= 1
    requires extra != [] ==> extra[0].layer == l
    requires forall k' :: 0 <= k' < |prev| ==> prev[k'].layer in front && Offered(prev[k'].layer)
    requires Wins(front + [l], |front|)
    requires 0 <= k < |prev + extra| && (prev + extra)[k].layer.name == l.name
    ensures (prev + extra)[k].layer == l
  {
    var psd, r := front + [l], prev + extra;
    forall k' | 0 <= k' < |prev|
      ensures prev[k'].layer.name != l.name
    {
      var j' :| 0 <= j' < |front| && front[j'] == prev[k'].layer;
      assert psd[j'] == front[j'];
    }
  }

  /** A layer that wins in the document wins in every longer document. */
  lemma WinsFront(psd: seq<Layer>, j: int)
    requires Wins(psd, j) && j < |psd| - 1
    ensures Wins(psd[..|psd| - 1], j)
  {
    var front := psd[..|psd| - 1];
    assert forall i :: 0 <= i <= j ==> front[i] == psd[i];
  }

  // ---------------------------------------------------------------------
  // Ordering by name
  // ---------------------------------------------------------------------

  /** Ordinal string order: `a` is a proper prefix of `b`, or the first
      character where they differ is smaller in `a`. */
  predicate Below(a: string, b: string)
    decreases |a|
  {
    if a == [] then b != []
    else if b == [] then false
    else if a[0] != b[0] then a[0] < b[0]
    else Below(a[1..], b[1..])
  }

  lemma {:induction false} BelowIrreflexive(a: string)
    ensures !Below(a, a)
  {
    if a != [] {
      BelowIrreflexive(a[1..]);
    }
  }

  lemma {:induction false} BelowTransitive(a: string, b: string, c: string)
    requires Below(a, b) && Below(b, c)
    ensures Below(a, c)
    decreases |a|
  {
    if a != [] && a[0] == b[0] && b[0] == c[0] {
      BelowTransitive(a[1..], b[1..], c[1..]);
    }
  }

  /** Two different names are ordered one way or the other. */
  lemma {:induction false} BelowTotal(a: string, b: string)
    requires a != b
    ensures Below(a, b) || Below(b, a)
    decreases |a|
  {
    if a != [] && b != [] && a[0] == b[0] {
      assert a == [a[0]] + a[1..] && b == [b[0]] + b[1..];
      BelowTotal(a[1..], b[1..]);
    }
  }

  /** Names strictly increase along the rows, so they are also distinct. */
  predicate SortedByName(s: seq<TempLayer>)
  {
    forall i, j :: 0 <= i < j < |s| ==> Below(s[i].layer.name, s[j].layer.name)
  }

  /** `x` placed before the first row whose name is above its own. */
  function Insert(x: TempLayer, s: seq<TempLayer>): (r: seq<TempLayer>)
    ensures |r| == |s| + 1
  {
    if s == [] then [x]
    else if Below(x.layer.name, s[0].layer.name) then [x] + s
    else [s[0]] + Insert(x, s[1..])
  }

  lemma {:induction false} InsertPermutes(x: TempLayer, s: seq<TempLayer>)
    ensures multiset(Insert(x, s)) == multiset(s) + multiset{x}
  {
    if s != [] {
      assert s == [s[0]] + s[1..];
      if !Below(x.layer.name, s[0].layer.name) {
        InsertPermutes(x, s[1..]);
      }
    }
  }

  lemma {:induction false} InsertSorted(x: TempLayer, s: seq<TempLayer>)
    requires SortedByName(s)
    requires forall k :: 0 <= k < |s| ==> s[k].layer.name != x.layer.name
    ensures SortedByName(Insert(x, s))
  {
    if s != [] {
      var r := Insert(x, s);
      if Below(x.layer.name, s[0].layer.name) {
        forall j | 0 < j < |r|
          ensures Below(x.layer.name, r[j].layer.name)
        {
          if j > 1 {
            BelowTransitive(x.layer.name, s[0].layer.name, s[j - 1].layer.name);
          }
        }
      } else {
        BelowTotal(x.layer.name, s[0].layer.name);
        var t := Insert(x, s[1..]);
        InsertSorted(x, s[1..]);
        InsertPermutes(x, s[1..]);
        forall j | 0 <= j < |t|
          ensures Below(s[0].layer.name, t[j].layer.name)
        {
          assert t[j] in multiset(t);
          if t[j] != x {
            assert t[j] in s[1..];
          }
        }
      }
    }
  }

  /** `OrderBy(x => x.layer.Name)`: insertion of each row, last first,
      into the sorted rest. */
  function SortByName(s: seq<TempLayer>): (r: seq<TempLayer>)
    ensures |r| == |s|
  {
    if s == [] then [] else Insert(s[0], SortByName(s[1..]))
  }

  /** Sorting rows with distinct names gives them strictly increasing
      names and keeps every row, each as often as before. */
  lemma {:induction false} SortByNameSorts(s: seq<TempLayer>)
    requires Distinct(s)
    ensures SortedByName(SortByName(s))
    ensures multiset(SortByName(s)) == multiset(s)
  {
    if s != [] {
      var t := SortByName(s[1..]);
      SortByNameSorts(s[1..]);
      InsertPermutes(s[0], t);
      assert s == [s[0]] + s[1..];
      forall k | 0 <= k < |t|
        ensures t[k].layer.name != s[0].layer.name
      {
        assert t[k] in multiset(s[1..]);
        var j :| 0 <= j < |s[1..]| && s[1..][j] == t[k];
        assert s[j + 1] == t[k];
      }
      InsertSorted(s[0], t);
    }
  }

  /** The rows the window shows after construction: strictly increasing
      names, each the row of an offered layer of the document, every
      offered name present, and under each name the first offered layer
      with it. */
  lemma WindowRows(folder: string, store: AssetStore, psd: seq<Layer>)
    requires forall i :: 0 <= i < |psd| ==> Decodable(psd[i])
    ensures var s := SortByName(Rows(folder, store, psd));
      && SortedByName(s) && RowsFrom(folder, store, psd, s)
      && NamesCovered(psd, s) && FirstOfName(psd, s)
  {
    var r := Rows(folder, store, psd);
    RowsDistinct(folder, store, psd);
    SortByNameSorts(r);
    RowsShape(folder, store, psd);
    RowsCoverNames(folder, store, psd);
    RowsFirstOfName(folder, store, psd);
    Rearranged(folder, store, psd, r, SortByName(r));
  }

  /** The three row properties depend on the rows only as a multiset. */
  lemma Rearranged(folder: string, store: AssetStore, psd: seq<Layer>, r: seq<TempLayer>, s: seq<TempLayer>)
    requires multiset(r) == multiset(s)
    requires RowsFrom(folder, store, psd, r) && NamesCovered(psd, r) && FirstOfName(psd, r)
    ensures RowsFrom(folder, store, psd, s) && NamesCovered(psd, s) && FirstOfName(psd, s)
  {
    RearrangedFrom(folder, store, psd, r, s);
    RearrangedCovered(psd, r, s);
    RearrangedFirst(psd, r, s);
  }

  lemma RearrangedFrom(folder: string, store: AssetStore, psd: seq<Layer>, r: seq<TempLayer>, s: seq<TempLayer>)
    requires multiset(r) == multiset(s)
    requires RowsFrom(folder, store, psd, r)
    ensures RowsFrom(folder, store, psd, s)
  {
    forall k | 0 <= k < |s|
      ensures s[k] in r
    {
      assert s[k] in multiset(r);
    }
  }

  lemma RearrangedCovered(psd: seq<Layer>, r: seq<TempLayer>, s: seq<TempLayer>)
    requires multiset(r) == multiset(s)
    requires NamesCovered(psd, r)
    ensures NamesCovered(psd, s)
  {
    forall i | 0 <= i < |psd| && Offered(psd[i])
      ensures exists k :: 0 <= k < |s| && s[k].layer.name == psd[i].name
    {
      var j :| 0 <= j < |r| && r[j].layer.name == psd[i].name;
      assert r[j] in multiset(s);
    }
  }

  lemma RearrangedFirst(psd: seq<Layer>, r: seq<TempLayer>, s: seq<TempLayer>)
    requires multiset(r) == multiset(s)
    requires FirstOfName(psd, r)
    ensures FirstOfName(psd, s)
  {
    forall j, k | 0 <= j < |psd| && Wins(psd, j) && 0 <= k < |s| && s[k].layer.name == psd[j].name
      ensures s[k].layer == psd[j]
    {
      assert s[k] in multiset(r);
    }
  }

  // ---------------------------------------------------------------------
  // The rows after user edits, and saving
  // ---------------------------------------------------------------------

  /** A row without a stored sprite is ticked. */
  predicate AllMarked(s: seq<TempLayer>)
  {
    forall k :: 0 <= k < |s| ==> s[k].exist.None? ==> s[k].overWrite
  }

  /** One pass of `Draw`: the check box of a row with a stored sprite takes
      the user's answer; the box of any other row is disabled. */
  function Toggled(s: seq<TempLayer>, answers: seq<bool>): (r: seq<TempLayer>)
    requires |answers| == |s|
    ensures |r| == |s|
  {
    seq(|s|, k requires 0 <= k < |s| => if s[k].exist.Some? then s[k].(overWrite := answers[k]) else s[k])
  }

  /** A pass changes nothing but ticks, only rows with a stored sprite
      change, it keeps the name order, and every row without a stored
      sprite stays ticked. */
  lemma ToggledKeeps(s: seq<TempLayer>, answers: seq<bool>)
    requires |answers| == |s|
    requires AllMarked(s) && SortedByName(s)
    ensures var r := Toggled(s, answers);
      && AllMarked(r) && SortedByName(r)
      && (forall k :: 0 <= k < |s| ==>
            r[k].layer == s[k].layer && r[k].origin == s[k].origin && r[k].exist == s[k].exist
            && (r[k].overWrite != s[k].overWrite ==> s[k].exist.Some?))
  {
    var r := Toggled(s, answers);
    assert forall k :: 0 <= k < |s| ==> r[k].layer == s[k].layer;
  }

  /** The store after row `e` is written: its texture at its path, with
      the border the asset at that path already had. */
  function Written(folder: string, e: TempLayer, store: AssetStore): AssetStore
  {
    var path := AssetPath(folder, e.layer.name);
    store[path := SpriteOf(e.layer.name, e.origin, KeptBorder(store, path))]
  }

  /** The store after `Save` wrote every ticked row, in order. */
  function Saved(folder: string, s: seq<TempLayer>, store: AssetStore): AssetStore
  {
    if s == [] then store
    else
      var e := s[0];
      Saved(folder, s[1..],
            if e.overWrite then Written(folder, e, store) else store)
  }

  /** The paths of the ticked rows. */
  function TickedPaths(folder: string, s: seq<TempLayer>): set<string>
  {
    set e | e in s && e.overWrite :: AssetPath(folder, e.layer.name)
  }

  /** Saving adds exactly the paths of the ticked rows and leaves every
      other stored sprite as it was. */
  lemma {:induction false} SavedTouchesOnlyTicked(folder: string, s: seq<TempLayer>, store: AssetStore)
    ensures var st := Saved(folder, s, store);
      && st.Keys == store.Keys + TickedPaths(folder, s)
      && forall p :: p in store && p !in TickedPaths(folder, s) ==> st[p] == store[p]
  {
    if s != [] {
      var e := s[0];
      var st1 := if e.overWrite then Written(folder, e, store) else store;
      SavedTouchesOnlyTicked(folder, s[1..], st1);
      assert s == [e] + s[1..];
      assert TickedPaths(folder, s)
          == (if e.overWrite then {AssetPath(folder, e.layer.name)} else {}) + TickedPaths(folder, s[1..]);
    }
  }

  /** With distinct names, every ticked row's path ends up holding that
      row's texture, with the border the store had at that path before. */
  lemma {:induction false} SavedWritesTicked(folder: string, s: seq<TempLayer>, store: AssetStore)
    requires Distinct(s)
    ensures var st := Saved(folder, s, store);
      forall k :: 0 <= k < |s| && s[k].overWrite ==>
        AssetPath(folder, s[k].layer.name) in st
        && st[AssetPath(folder, s[k].layer.name)]
           == SpriteOf(s[k].layer.name, s[k].origin, KeptBorder(store, AssetPath(folder, s[k].layer.name)))
  {
    if s != [] {
      var e := s[0];
      var st1 := if e.overWrite then Written(folder, e, store) else store;
      SavedWritesTicked(folder, s[1..], st1);
      if e.overWrite {
        var path := AssetPath(folder, e.layer.name);
        SavedTouchesOnlyTicked(folder, s[1..], st1);
        if path in TickedPaths(folder, s[1..]) {
          var e' :| e' in s[1..] && e'.overWrite && AssetPath(folder, e'.layer.name) == path;
          var j :| 0 <= j < |s[1..]| && s[1..][j] == e';
          assert s[j + 1] == e';
          AssetPathInjective(folder, e.layer.name, e'.layer.name);
          assert false;
        }
      }
      forall k | 0 < k < |s| && s[k].overWrite
        ensures AssetPath(folder, s[k].layer.name) in Saved(folder, s, store)
      {
        assert s[1..][k - 1] == s[k];
      }
    }
  }

  // ---------------------------------------------------------------------
  // The window
  // ---------------------------------------------------------------------

  class SaveAssetWindow {
    const assetSavePath: string
    var layers: seq<TempLayer>

    /** Rows are sorted by name and every row without a stored sprite is
        ticked. */
    predicate Valid()
      reads this
    {
      SortedByName(layers) && AllMarked(layers)
    }

    /** The constructor: one row per offered layer whose name is new,
        then `OrderBy` name. */
    constructor(psd: seq<Layer>, assetSavePath: string, store: AssetStore)
      requires forall i :: 0 <= i < |psd| ==> Decodable(psd[i])
      ensures this.assetSavePath == assetSavePath
      ensures layers == SortByName(Rows(assetSavePath, store, psd))
      ensures Valid()
    {
      this.assetSavePath := assetSavePath;
      var rows: seq<TempLayer> := [];
      for i := 0 to |psd|
        invariant rows == Rows(assetSavePath, store, psd[..i])
      {
        var layer := psd[i];
        RowsSnoc(assetSavePath, store, psd, i);
        if HasSection(layer) {
          continue;
        }
        if HasText(layer) {
          continue;
        }
        if layer.rect.width == 0 || layer.rect.height == 0 {
          continue;
        }
        if FirstIndex(NameIs(layer.name), rows).Some? {
          continue;
        }
        var origin := EditorUtil.CreateTexture(layer);
        if origin.None? {
          continue;
        }
        var path := AssetPath(assetSavePath, layer.name);
        var sprite := if path in store then Some(store[path]) else None;
        rows := rows + [TempLayer(layer, origin.value, sprite, sprite == None)];
      }
      assert psd[..|psd|] == psd;
      layers := SortByName(rows);
      WindowRows(assetSavePath, store, psd);
    }

    /** `Dispose`: the textures are released and the rows cleared. */
    method Dispose()
      modifies this
      ensures layers == [] && Valid()
    {
      layers := [];
    }

    /** `Draw`, with the user's answer for each row's check box. */
    method Draw(answers: seq<bool>)
      requires Valid() && |answers| == |layers|
      modifies this
      ensures layers == Toggled(old(layers), answers)
      ensures Valid()
    {
      ghost var before := layers;
      var i := 0;
      while i < |layers|
        invariant |layers| == |before| && 0 <= i <= |layers|
        invariant forall k :: 0 <= k < i ==> layers[k] == Toggled(before, answers)[k]
        invariant forall k :: i <= k < |layers| ==> layers[k] == before[k]
      {
        var tmp := layers[i];
        var exist := tmp.exist.Some?;
        var ticked := if exist then answers[i] else tmp.overWrite;
        layers := layers[i := tmp.(overWrite := ticked)];
        i := i + 1;
      }
      ToggledKeeps(before, answers);
    }

    /** `Save`: writes the texture of every ticked row to its path. */
    method Save(store: AssetStore) returns (r: AssetStore)
      ensures r == Saved(assetSavePath, layers, store)
    {
      r := store;
      assert layers[0..] == layers;
      for i := 0 to |layers|
        invariant Saved(assetSavePath, layers, store) == Saved(assetSavePath, layers[i..], r)
      {
        var tmp := layers[i];
        assert layers[i..][1..] == layers[i + 1..];
        if tmp.overWrite {
          var path := AssetPath(assetSavePath, tmp.layer.name);
          var bordered := path in r && r[path].bordered;
          r := r[path := SpriteOf(tmp.layer.name, tmp.origin, bordered)];
        }
      }
      assert layers[|layers|..] == [];
    }
  }
}
