/** The reconstruction of the folder hierarchy from the flat layer list of
    a document (`ConvertEditor.GetHierarchyPath`), and the filter that picks
    the layers handed to asset saving. */
module Hierarchy {
  import opened Wrappers
  import opened Seqs
  import opened Psd

  /** The two exceptions of the walk. */
  datatype HierarchyError =
    | SeveralSectionRecords(name: string)   // `SingleOrDefault` finds more than one section record
    | DividerWithoutFolder(name: string)    // `Stack.Pop` on an empty stack

  /** A recorded leaf with the folder names on the stack when it was met,
      first-pushed (outermost) first. */
  datatype Visit = Visit(layer: Layer, folders: seq<string>)

  /** An entry of the result dictionary: a leaf and its hierarchy path. */
  datatype PathEntry = PathEntry(layer: Layer, path: string)

  /** The folder stack, pushed at the end, and the leaves recorded so far
      in the order they were met. */
  datatype State = State(stack: seq<string>, visits: seq<Visit>)

  const Init := State([], [])

  /** A content layer that is recorded: no section record and neither
      truncated dimension zero. */
  predicate IsLeaf(l: Layer)
  {
    |l.sections| == 0 && NonEmpty(l)
  }

  /** A folder marker (`Layer`, `OpenFolder` or `ClosedFolder`). */
  predicate Pushes(l: Layer)
  {
    |l.sections| == 1 && l.sections[0] != SectionDivider
  }

  /** The end-of-folder marker. */
  predicate Pops(l: Layer)
  {
    |l.sections| == 1 && l.sections[0] == SectionDivider
  }

  /** One iteration of the walk. */
  function Step(st: State, l: Layer): Result<State, HierarchyError>
  {
    if |l.sections| > 1 then Err(SeveralSectionRecords(l.name))
    else if |l.sections| == 0 then
      if NonEmpty(l) then Ok(State(st.stack, st.visits + [Visit(l, st.stack)])) else Ok(st)
    else if l.sections[0] == SectionDivider then
      if st.stack == [] then Err(DividerWithoutFolder(l.name))
      else Ok(State(st.stack[..|st.stack| - 1], st.visits))
    else Ok(State(st.stack + [l.name], st.visits))
  }

  /** The walk over `s` from its last element (the top of the document)
      down to its first, starting in `st`. */
  function Run(st: State, s: seq<Layer>): Result<State, HierarchyError>
  {
    if s == [] then Ok(st)
    else match Run(st, s[1..])
      case Err(e) => Err(e)
      case Ok(mid) => Step(mid, s[0])
  }

  /** Continue a walk that has not failed with the layers `s`. */
  function Then(r: Result<State, HierarchyError>, s: seq<Layer>): Result<State, HierarchyError>
  {
    match r
    case Err(e) => Err(e)
    case Ok(st) => Run(st, s)
  }

  /** The dictionary entries for recorded leaves, path joined with "/". */
  function Entries(v: seq<Visit>): (r: seq<PathEntry>)
    ensures |r| == |v|
    ensures forall i :: 0 <= i < |v| ==> r[i] == PathEntry(v[i].layer, Join(v[i].folders, '/'))
  {
    seq(|v|, i requires 0 <= i < |v| => PathEntry(v[i].layer, Join(v[i].folders, '/')))
  }

  /** The result of `GetHierarchyPath`: the recorded entries put back in
      document order, or the exception of the walk. */
  function Paths(psd: seq<Layer>): Result<seq<PathEntry>, HierarchyError>
  {
    match Run(Init, psd)
    case Err(e) => Err(e)
    case Ok(st) => Ok(Reverse(Entries(st.visits)))
  }

  /** The walk over a concatenation walks the upper part first. */
  lemma {:induction false} RunAppend(st: State, a: seq<Layer>, b: seq<Layer>)
    ensures Run(st, a + b) == Then(Run(st, b), a)
  {
    if a == [] {
      assert a + b == b;
    } else {
      assert (a + b)[1..] == a[1..] + b;
      RunAppend(st, a[1..], b);
    }
  }

  /** A failure anywhere above position `i` is the failure of the whole walk. */
  lemma RunFails(st: State, s: seq<Layer>, i: nat, e: HierarchyError)
    requires i <= |s|
    requires Run(st, s[i..]) == Err(e)
    ensures Run(st, s) == Err(e)
  {
    assert s == s[..i] + s[i..];
    RunAppend(st, s[..i], s[i..]);
  }

  /** `GetHierarchyPath`: walks the layers top-down with a stack of folder
      names, records each non-empty leaf with the joined stack, and returns
      the records in document order. */
  method GetHierarchyPath(psd: seq<Layer>) returns (r: Result<seq<PathEntry>, HierarchyError>)
    ensures r == Paths(psd)
  {
    var dic: seq<PathEntry> := [];
    var stack: seq<string> := [];
    ghost var visits: seq<Visit> := [];
    var i := |psd|;
    while i > 0
      invariant 0 <= i <= |psd|
      invariant Run(Init, psd[i..]) == Ok(State(stack, visits))
      invariant dic == Entries(visits)
    {
      i := i - 1;
      var layer := psd[i];
      assert psd[i..][1..] == psd[i + 1..] && psd[i..][0] == layer;
      if |layer.sections| > 1 {
        RunFails(Init, psd, i, SeveralSectionRecords(layer.name));
        return Err(SeveralSectionRecords(layer.name));
      }
      if |layer.sections| == 0 {
        if layer.rect.width == 0 || layer.rect.height == 0 {
          continue;
        }
        dic := dic + [PathEntry(layer, Join(stack, '/'))];
        visits := visits + [Visit(layer, stack)];
      } else if layer.sections[0] == SectionDivider {
        if stack == [] {
          RunFails(Init, psd, i, DividerWithoutFolder(layer.name));
          return Err(DividerWithoutFolder(layer.name));
        }
        stack := stack[..|stack| - 1];
      } else {
        stack := stack + [layer.name];
      }
    }
    r := Ok(Reverse(dic));
  }

  // ---------------------------------------------------------------------
  // When the walk succeeds
  // ---------------------------------------------------------------------

  /** The change of the stack height caused by one layer. */
  function Delta(l: Layer): int
  {
    if Pushes(l) then 1 else if Pops(l) then -1 else 0
  }

  /** The change of the stack height caused by the layers of `s`. */
  function Depth(s: seq<Layer>): int
  {
    if s == [] then 0 else Delta(s[0]) + Depth(s[1..])
  }

  /** Every layer carries at most one section record. */
  predicate SingleSections(s: seq<Layer>)
  {
    forall i :: 0 <= i < |s| ==> |s[i].sections| <= 1
  }

  /** Starting from a stack of height `base`, the stack never goes below
      empty during the walk over `s`. */
  predicate NeverUnderflows(base: int, s: seq<Layer>)
  {
    forall i :: 0 <= i < |s| ==> base + Depth(s[i..]) >= 0
  }

  /** The walk succeeds exactly when no layer carries two section records
      and no divider is met with an empty stack; the final stack height is
      the number of folder markers minus the number of dividers. */
  lemma {:induction false} RunOkIff(st: State, s: seq<Layer>)
    ensures Run(st, s).Ok? <==> SingleSections(s) && NeverUnderflows(|st.stack|, s)
    ensures Run(st, s).Ok? ==> |Run(st, s).value.stack| == |st.stack| + Depth(s)
  {
    if s != [] {
      var t := s[1..];
      RunOkIff(st, t);
      assert forall i :: 1 <= i < |s| ==> s[i..] == t[i - 1..];
      assert SingleSections(s) <==> |s[0].sections| <= 1 && SingleSections(t) by {
        if |s[0].sections| <= 1 && SingleSections(t) {
          forall i | 0 <= i < |s|
            ensures |s[i].sections| <= 1
          {
            if i > 0 {
              assert s[i] == t[i - 1];
            }
          }
        }
      }
      assert NeverUnderflows(|st.stack|, s)
        <==> |st.stack| + Depth(s) >= 0 && NeverUnderflows(|st.stack|, t) by {
        if |st.stack| + Depth(s) >= 0 && NeverUnderflows(|st.stack|, t) {
          forall i | 0 <= i < |s|
            ensures |st.stack| + Depth(s[i..]) >= 0
          {
            if i == 0 {
              assert s[0..] == s;
            } else {
              assert s[i..] == t[i - 1..];
            }
          }
        }
        if NeverUnderflows(|st.stack|, s) {
          assert s[0..] == s;
          forall i | 0 <= i < |t|
            ensures |st.stack| + Depth(t[i..]) >= 0
          {
            assert t[i..] == s[i + 1..];
          }
        }
      }
    }
  }

  /** The layers of recorded leaves. */
  function LayersOf(v: seq<Visit>): (r: seq<Layer>)
    ensures |r| == |v|
    ensures forall i :: 0 <= i < |v| ==> r[i] == v[i].layer
  {
    seq(|v|, i requires 0 <= i < |v| => v[i].layer)
  }

  /** The walk records exactly the leaves, top-down. */
  lemma {:induction false} RunRecordsLeaves(st: State, s: seq<Layer>)
    requires Run(st, s).Ok?
    ensures LayersOf(Run(st, s).value.visits) == LayersOf(st.visits) + Reverse(Filter(IsLeaf, s))
  {
    if s != [] {
      var mid := Run(st, s[1..]).value;
      RunRecordsLeaves(st, s[1..]);
      var leaf := if IsLeaf(s[0]) then [s[0]] else [];
      assert Filter(IsLeaf, s) == leaf + Filter(IsLeaf, s[1..]);
      ReverseConcat(leaf, Filter(IsLeaf, s[1..]));
      assert Reverse(leaf) == leaf;
      var v := Run(st, s).value.visits;
      if IsLeaf(s[0]) {
        assert v == mid.visits + [Visit(s[0], mid.stack)];
        assert LayersOf(v) == LayersOf(mid.visits) + [s[0]];
      } else {
        assert v == mid.visits;
      }
    }
  }

  /** The result lists exactly the leaves, in document order: section
      markers and empty layers never appear, and leaves keep their order. */
  lemma PathsListLeaves(psd: seq<Layer>)
    requires Paths(psd).Ok?
    ensures var r := Paths(psd).value;
      |r| == |Filter(IsLeaf, psd)|
      && forall i :: 0 <= i < |r| ==> r[i].layer == Filter(IsLeaf, psd)[i]
  {
    var st := Run(Init, psd).value;
    assert Paths(psd).value == Reverse(Entries(st.visits));
    RunRecordsLeaves(Init, psd);
    assert LayersOf(Init.visits) == [];
    EntriesInOrder(st.visits, Filter(IsLeaf, psd));
  }

  lemma EntriesInOrder(v: seq<Visit>, leaves: seq<Layer>)
    requires LayersOf(v) == [] + Reverse(leaves)
    ensures var r := Reverse(Entries(v));
      |r| == |leaves| && forall i :: 0 <= i < |r| ==> r[i].layer == leaves[i]
  {
    assert LayersOf(v) == Reverse(leaves);
    forall i | 0 <= i < |v|
      ensures Reverse(Entries(v))[i].layer == leaves[i]
    {
      EntryInOrder(v, leaves, i);
    }
  }

  lemma EntryInOrder(v: seq<Visit>, leaves: seq<Layer>, i: nat)
    requires LayersOf(v) == Reverse(leaves)
    requires i < |v|
    ensures Reverse(Entries(v))[i].layer == leaves[i]
  {
    var j := |v| - 1 - i;
    assert Reverse(Entries(v))[i] == Entries(v)[j];
    assert LayersOf(v)[j] == Reverse(leaves)[j];
  }

  // ---------------------------------------------------------------------
  // Well-nested documents
  // ---------------------------------------------------------------------

  /** A document as a tree of folders. A folder is stored bottom-to-top as
      its divider, its children, then its marker layer, which names it. */
  datatype Node =
    | Leaf(layer: Layer)
    | Folder(marker: Layer, divider: Layer, children: seq<Node>)

  /** The bottom-to-top layer list of a node. */
  function FlattenNode(n: Node): seq<Layer>
    decreases n
  {
    match n
    case Leaf(l) => [l]
    case Folder(m, d, ch) => [d] + Flatten(ch) + [m]
  }

  /** The bottom-to-top layer list of a forest. */
  function Flatten(forest: seq<Node>): seq<Layer>
    decreases forest
  {
    if forest == [] then [] else FlattenNode(forest[0]) + Flatten(forest[1..])
  }

  /** A leaf carries no section record; a folder is delimited by one
      marker and one divider around well-nested children. */
  predicate WellNestedNode(n: Node)
    decreases n
  {
    match n
    case Leaf(l) => |l.sections| == 0
    case Folder(m, d, ch) => Pushes(m) && Pops(d) && WellNested(ch)
  }

  predicate WellNested(forest: seq<Node>)
    decreases forest
  {
    forest != [] ==> WellNestedNode(forest[0]) && WellNested(forest[1..])
  }

  /** The non-empty leaves of a node bottom-to-top, each with the names of
      its enclosing folders after `outer`, outermost first. */
  function ExpectedNode(outer: seq<string>, n: Node): seq<Visit>
    decreases n
  {
    match n
    case Leaf(l) => if NonEmpty(l) then [Visit(l, outer)] else []
    case Folder(m, d, ch) => Expected(outer + [m.name], ch)
  }

  function Expected(outer: seq<string>, forest: seq<Node>): seq<Visit>
    decreases forest
  {
    if forest == [] then [] else ExpectedNode(outer, forest[0]) + Expected(outer, forest[1..])
  }

  /** Walking a well-nested node from any stack leaves the stack as it was
      and records its leaves top-down with their enclosing folders. */
  lemma {:induction false} RunWellNestedNode(st: State, n: Node)
    requires WellNestedNode(n)
    ensures Run(st, FlattenNode(n)) == Ok(State(st.stack, st.visits + Reverse(ExpectedNode(st.stack, n))))
    decreases n
  {
    match n {
      case Leaf(l) =>
        assert [l][1..] == [];
        if NonEmpty(l) {
          assert Reverse([Visit(l, st.stack)]) == [Visit(l, st.stack)];
        } else {
          assert st.visits + [] == st.visits;
        }
      case Folder(m, d, ch) =>
        var inner := State(st.stack + [m.name], st.visits);
        assert [m][1..] == [];
        assert Run(st, [m]) == Ok(inner);
        RunWellNested(inner, ch);
        RunAppend(st, Flatten(ch), [m]);
        RunAppend(st, [d], Flatten(ch) + [m]);
        assert [d] + Flatten(ch) + [m] == [d] + (Flatten(ch) + [m]);
        assert (st.stack + [m.name])[..|st.stack|] == st.stack;
        assert [d][1..] == [];
    }
  }

  /** The same for a forest. */
  lemma {:induction false} RunWellNested(st: State, forest: seq<Node>)
    requires WellNested(forest)
    ensures Run(st, Flatten(forest)) == Ok(State(st.stack, st.visits + Reverse(Expected(st.stack, forest))))
    decreases forest
  {
    if forest == [] {
      assert st.visits + [] == st.visits;
    } else {
      var rest := forest[1..];
      var first := ExpectedNode(st.stack, forest[0]);
      var others := Expected(st.stack, rest);
      RunWellNested(st, rest);
      var mid := State(st.stack, st.visits + Reverse(others));
      RunWellNestedNode(mid, forest[0]);
      assert Flatten(forest) == FlattenNode(forest[0]) + Flatten(rest);
      RunAppend(st, FlattenNode(forest[0]), Flatten(rest));
      assert Expected(st.stack, forest) == first + others;
      ReverseConcat(first, others);
      AppendAssoc(st.visits, Reverse(others), Reverse(first));
    }
  }

  /** For a well-nested document the result gives every non-empty leaf, in
      document order, the names of its enclosing folders, outermost first,
      joined by "/". */
  lemma PathsOfWellNested(forest: seq<Node>)
    requires WellNested(forest)
    ensures Paths(Flatten(forest)) == Ok(Entries(Expected([], forest)))
  {
    RunWellNested(Init, forest);
    var v := Expected([], forest);
    assert [] + Reverse(v) == Reverse(v);
    EntriesOfReverse(v);
  }

  /** Recording the leaves in reverse and reversing the entries gives the
      entries in the order the layers were listed in `v`. */
  lemma EntriesOfReverse(v: seq<Visit>)
    ensures Reverse(Entries(Reverse(v))) == Entries(v)
  {
    var w := Reverse(v);
    var e := Entries(w);
    var r := Reverse(e);
    forall k | 0 <= k < |v|
      ensures r[k] == Entries(v)[k]
    {
      assert r[k] == e[|v| - 1 - k];
      assert w[|v| - 1 - k] == v[k];
    }
  }

  /** A panel folder over a leaf "bg", with a leaf "icon" below it: "bg"
      gets the path "panel" and "icon" the empty path. */
  lemma PanelExample(icon: Layer, divider: Layer, bg: Layer, panel: Layer)
    requires icon.name == "icon" && bg.name == "bg" && panel.name == "panel"
    requires IsLeaf(icon) && IsLeaf(bg)
    requires panel.sections == [OpenFolder] && divider.sections == [SectionDivider]
    ensures Paths([icon, divider, bg, panel]) == Ok([PathEntry(icon, ""), PathEntry(bg, "panel")])
  {
    var inner := [Leaf(bg)];
    var folder := Folder(panel, divider, inner);
    var forest := [Leaf(icon), folder];
    assert WellNested([]);
    assert WellNestedNode(Leaf(bg));
    assert inner[1..] == [];
    assert WellNested(inner);
    assert WellNestedNode(folder);
    assert forest[1..] == [folder] && [folder][1..] == [];
    assert WellNested([folder]);
    assert WellNestedNode(Leaf(icon));
    assert WellNested(forest);
    assert Flatten([Leaf(bg)]) == [bg];
    assert Flatten(forest[1..]) == [divider, bg, panel];
    assert Flatten(forest) == [icon, divider, bg, panel];
    PathsOfWellNested(forest);
    assert [Leaf(bg)][1..] == [];
    assert Expected(["panel"], [Leaf(bg)]) == [Visit(bg, ["panel"])];
    assert [] + [panel.name] == ["panel"];
    assert forest[1..][1..] == [];
    assert Expected([], forest[1..]) == [Visit(bg, ["panel"])];
    assert Expected([], forest) == [Visit(icon, []), Visit(bg, ["panel"])];
    assert Join([], '/') == "" && Join(["panel"], '/') == "panel";
    assert Entries(Expected([], forest)) == [PathEntry(icon, ""), PathEntry(bg, "panel")];
  }

  // ---------------------------------------------------------------------
  // The layers handed to asset saving
  // ---------------------------------------------------------------------

  /** The `Where` filter of the convert button: non-empty layers without a
      text record. */
  predicate SaveCandidate(l: Layer)
  {
    NonEmpty(l) && !HasText(l)
  }

  /** The layers of the hierarchy result passed to `SaveAssets`, in order. */
  function ConvertCandidates(entries: seq<PathEntry>): (r: seq<Layer>)
    ensures forall l :: l in r ==> SaveCandidate(l) && exists e :: e in entries && e.layer == l
    ensures forall e :: e in entries && SaveCandidate(e.layer) ==> e.layer in r
  {
    if entries == [] then []
    else (if SaveCandidate(entries[0].layer) then [entries[0].layer] else [])
         + ConvertCandidates(entries[1..])
  }
}
