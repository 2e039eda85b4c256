# Psd2uGui core, modelled in Dafny

Psd2uGui is a Unity editor extension. It turns a layered Photoshop document
into a uGUI hierarchy. It reads the document's flat layer list and rebuilds
the folder hierarchy from the section markers. It saves one sprite asset per
content layer and groups the layers by folder. From the folder names and the
layer names it decides what each group becomes: a button, a toggle, text or
images. It then creates the scene objects under the canvas and places each
widget at its position in the document.

This project models that core and proves properties of it:

- `Hierarchy` (hierarchy.dfy): the walk of `ConvertEditor.GetHierarchyPath`
  with its folder stack and its two exceptions. It is proved against a
  declarative account of well-nested documents. It also holds the filter
  that picks the layers handed to asset saving.
- `EditorUtil` (editor_util.dfy): the newer utilities.
  - Pixel decoding: `LayerToColors` and its flip arithmetic, on an array.
  - `CreateTexture`.
  - `SaveAssets`: its effective-layer list, and the asset store it reads
    and writes.
- `SaveAssetEditor` (save_asset_editor.dfy): the asset-saving window, as a
  class whose row list the methods update. It covers row collection, the
  sort by name, the check boxes and saving.
- `LayerComponents` (components.dfy): the four component kinds. For each it
  models the role selection of the constructor and what `Create` sets on the
  node.
- `Converter` (converter.dfy): the newer converter, as a class. It covers
  grouping by hierarchy path in insertion order, the button and toggle stages
  and the leftover layers.
- `Scene` (scene.dfy): where a component is placed, and the walk that finds
  or creates the nodes of its path. The scene is a class holding a list of
  nodes.
- `LegacyEditorUtil` (legacy_editor_util.dfy): the older utilities in
  `Editor/EditorUtil.cs`.
  - The classifier with its fixed "button_" and "label_" markers.
  - The atlas-keeping `SaveAssets`.
  - The older file's `CreateTexture` and `LayerToColors` are, line for line,
    the newer ones. `EditorUtil.CreateTexture` and `EditorUtil.LayerToColors`
    model both.
- `Psd`, `Seqs` and `Wrappers` (psd.dfy, seqs.dfy, wrappers.dfy): shared
  parts.
  - The layer, sprite and asset-store data model.
  - The host's string services as parameters.
  - The LINQ, `List<T>` and `String` operations the source uses: `Where`,
    `FirstOrDefault`, `Remove`, `Reverse`, `Split`, `Join` and `Contains`.

Four points of the code are easy to misread:

- **Placement.** A component is placed at its rectangle's centre x, and at
  the document height minus its centre y. The position is not relative to
  the document's centre. `Scene.Placement` states this, and
  `Scene.PlacementNotCentred` works it out on one input.
- **Button roles.** Each role takes the first layer that matches its own
  pattern, independently of the other roles (`LayerComponents.RoleIsFirst`,
  `LayerComponents.RoleSprite`). `LayerComponents.RolesShareLayer` shows
  that one layer can fill two roles.
- **Older component constructors.** In `Editor/LayerComponent.cs` the image
  constructor takes a layer (line 76) and the button constructor a layer
  array (line 91). `Editor/EditorUtil.cs` calls them with a rectangle and a
  sprite (line 57) and with a rectangle and a sprite array (line 38). The
  text constructor matches its call. `LegacyEditorUtil.LegacyComponent`
  records the fields the calls pass.
- **Converter construction.** `Scripts/ConvertEditor.cs` (line 188) calls
  `new Converter(parameter, sprites)` with two arguments, but the only
  constructor (`Scripts/Converter.cs`, lines 18-23) also takes the font.
  `Converter.Converter.constructor` takes the font as a parameter, a value
  the call site does not pass.

## Model

| member | source | states |
|---|---|---|
| Psd.AssetPathInjective | Unity/Assets/Psd2uGui/Editor/Scripts/EditorUtil.cs:32 | the asset path `"{folder}/{name}.png"` of two names is the same exactly when the names are the same, so a name is a key of the store |
| Psd.SpriteOf | Unity/Assets/Psd2uGui/Editor/Scripts/EditorUtil.cs:45-67 | a saved texture becomes a sprite with the layer's name and the texture's size and pixels; its border is the one the importer already had for the path, since saving never resets it, and none for a new asset |
| Psd.FirstSprite | Unity/Assets/Psd2uGui/Editor/Scripts/Converter.cs:31 | any sprite found has the looked-up name, ignoring case |
| Psd.FirstSpriteIsFirst | Unity/Assets/Psd2uGui/Editor/Scripts/Converter.cs:31 | the sprite found is the first one, in list order, whose name matches ignoring case; none is found only when no sprite matches |
| Psd.GetOrDefaultSprite | Unity/Assets/Psd2uGui/Editor/Scripts/Converter.cs:25-32 | a missing layer gives no sprite; a sprite given has the layer's name, ignoring case |
| Psd.GetOrDefaultSpriteIsFirst | Unity/Assets/Psd2uGui/Editor/Scripts/Converter.cs:25-32 | none exactly when the layer is missing or no sprite matches; otherwise the first matching sprite in list order |
| Seqs.FilterIn | Unity/Assets/Psd2uGui/Editor/Scripts/Converter.cs:66 | `Where` keeps exactly the elements that satisfy the predicate |
| Seqs.FilterAppend | Unity/Assets/Psd2uGui/Editor/Scripts/Converter.cs:66 | filtering a concatenation filters each part |
| Seqs.FilterEmpty | Unity/Assets/Psd2uGui/Editor/Scripts/Converter.cs:67 | `list.Any()` is false exactly when no element satisfies the predicate |
| Seqs.FilterPartition | Unity/Assets/Psd2uGui/Editor/Scripts/Converter.cs:66-70 | the elements taken and the elements left add up to the whole list |
| Seqs.FirstIndex | Unity/Assets/Psd2uGui/Editor/Scripts/EditorUtil.cs:21 | `FirstOrDefault` finds the first element that satisfies the predicate, and finds none only when no element does |
| Seqs.FirstIndexAppendFound | Unity/Assets/Psd2uGui/Editor/Scripts/SaveAssetEditor.cs:43 | appending keeps an existing first match |
| Seqs.FirstIndexAppendNew | Unity/Assets/Psd2uGui/Editor/Scripts/SaveAssetEditor.cs:43 | appending the first match puts it at the end |
| Seqs.RemoveFirst | Unity/Assets/Psd2uGui/Editor/Scripts/EditorUtil.cs:24 | `List.Remove` shortens the list by one when the value is present and leaves it as it was otherwise |
| Seqs.RemoveFirstIn | Unity/Assets/Psd2uGui/Editor/Scripts/EditorUtil.cs:24 | `List.Remove` adds no value and loses no value other than the one removed |
| Seqs.DropNone | Unity/Assets/Psd2uGui/Editor/Scripts/Converter.cs:70 | before any removal the list is unchanged |
| Seqs.DropOneMore | Unity/Assets/Psd2uGui/Editor/Scripts/Converter.cs:70 | each `layers.Remove(x)` of the `ForEach` takes out exactly the next matching layer |
| Seqs.DropAll | Unity/Assets/Psd2uGui/Editor/Scripts/Converter.cs:70 | after removing every matching layer one by one, what remains is the non-matching layers, in their order |
| Seqs.Reverse | Unity/Assets/Psd2uGui/Editor/Scripts/ConvertEditor.cs:171 | `Reverse` puts element `k` at position `n - 1 - k` |
| Seqs.ReverseConcat | Unity/Assets/Psd2uGui/Editor/Scripts/ConvertEditor.cs:143 | reversing a concatenation reverses and swaps the parts |
| Seqs.Split | Unity/Assets/Psd2uGui/Editor/Scripts/ConvertEditor.cs:203 | `Split` yields at least one segment, even for the empty string |
| Seqs.SplitPrefix | Unity/Assets/Psd2uGui/Editor/Scripts/ConvertEditor.cs:203 | a string without the separator put in front of another string joins that string's first segment, and the other segments stay |
| Seqs.SplitJoin | Unity/Assets/Psd2uGui/Editor/Scripts/ConvertEditor.cs:152 | joining segments that do not hold the separator and splitting the result gives the segments back, so a hierarchy path splits into its folder names |
| Seqs.SplitLast | Unity/Assets/Psd2uGui/Editor/Scripts/Converter.cs:61 | the last segment is a suffix without the separator; there is one segment exactly when the separator is absent; otherwise the separator sits just before the last segment |
| Seqs.SplitLastSuffix | Unity/Assets/Psd2uGui/Editor/Scripts/Converter.cs:61 | the last segment is a suffix of the string that does not hold the separator, preceded by the separator when there are several segments |
| Seqs.SplitSingle | Unity/Assets/Psd2uGui/Editor/Scripts/Converter.cs:61 | there is exactly one segment when the separator is absent, and then it is the whole string |
| Seqs.ContainsIff | Unity/Assets/Psd2uGui/Editor/Scripts/Converter.cs:61 | `Contains` holds exactly when the substring occurs at some position |
| Seqs.CollectErrors | Unity/Assets/Psd2uGui/Editor/Scripts/Converter.cs:49-52 | a run over the groups succeeds exactly when every group does, and otherwise stops with the first group's exception |
| Seqs.CollectStep | Unity/Assets/Psd2uGui/Editor/Scripts/Converter.cs:49-52 | one round of that run: a failing group ends it with its error; a successful group appends its components |
| Hierarchy.Entries | Unity/Assets/Psd2uGui/Editor/Scripts/ConvertEditor.cs:152 | one entry per recorded leaf, its path the folder names joined with "/" |
| Hierarchy.GetHierarchyPath | Unity/Assets/Psd2uGui/Editor/Scripts/ConvertEditor.cs:138-172 | the method's loop over the layers from top to bottom, with its folder stack, computes `Paths`: either the exception or the entries in document order |
| Hierarchy.RunAppend | Unity/Assets/Psd2uGui/Editor/Scripts/ConvertEditor.cs:143 | the walk over a concatenation walks the upper part first, then the lower |
| Hierarchy.RunFails | Unity/Assets/Psd2uGui/Editor/Scripts/ConvertEditor.cs:145-165 | an exception raised above some layer is the exception of the whole walk |
| Hierarchy.RunOkIff | Unity/Assets/Psd2uGui/Editor/Scripts/ConvertEditor.cs:145-167 | the walk succeeds exactly when no layer has two section records and no divider meets an empty stack; the final stack height is the number of folder markers minus the number of dividers |
| Hierarchy.RunRecordsLeaves | Unity/Assets/Psd2uGui/Editor/Scripts/ConvertEditor.cs:146-153 | the walk records exactly the leaves (no section record, both truncated sizes non-zero), top-down |
| Hierarchy.PathsListLeaves | Unity/Assets/Psd2uGui/Editor/Scripts/ConvertEditor.cs:138-172 | a successful result lists exactly the leaves, in document order |
| Hierarchy.EntriesInOrder | Unity/Assets/Psd2uGui/Editor/Scripts/ConvertEditor.cs:171 | `dic.Reverse()` puts the top-down records back in document order |
| Hierarchy.EntryInOrder | Unity/Assets/Psd2uGui/Editor/Scripts/ConvertEditor.cs:171 | the same, for one entry |
| Hierarchy.RunWellNestedNode | Unity/Assets/Psd2uGui/Editor/Scripts/ConvertEditor.cs:156-166 | walking a well-nested folder leaves the stack as it was, and records its leaves with the names of their enclosing folders |
| Hierarchy.RunWellNested | Unity/Assets/Psd2uGui/Editor/Scripts/ConvertEditor.cs:143-169 | the same for a sequence of folders and leaves |
| Hierarchy.PathsOfWellNested | Unity/Assets/Psd2uGui/Editor/Scripts/ConvertEditor.cs:138-172 | for a well-nested document, every non-empty leaf gets, in document order, its enclosing folders' names, outermost first, joined by "/" |
| Hierarchy.EntriesOfReverse | Unity/Assets/Psd2uGui/Editor/Scripts/ConvertEditor.cs:171 | recording in reverse and reversing the entries gives the entries in order |
| Hierarchy.PanelExample | Unity/Assets/Psd2uGui/Editor/Scripts/ConvertEditor.cs:138-172 | example: a folder "panel" over a leaf "bg", with a leaf "icon" below: "bg" gets the path "panel" and "icon" the empty path |
| Hierarchy.ConvertCandidates | Unity/Assets/Psd2uGui/Editor/Scripts/ConvertEditor.cs:121-133 | the layers handed to `SaveAssets` are exactly the hierarchy's layers that are non-empty and carry no text record |
| EditorUtil.FlipIndex | Unity/Assets/Psd2uGui/Editor/Scripts/EditorUtil.cs:106-108 | the output index of a pixel lies inside the buffer |
| EditorUtil.FlipRowCol | Unity/Assets/Psd2uGui/Editor/Scripts/EditorUtil.cs:106-108 | pixel (row r, column c) lands in row h - 1 - r, column c |
| EditorUtil.FlipInvolution | Unity/Assets/Psd2uGui/Editor/EditorUtil.cs:147-149 | flipping twice gives the index back, so every output slot is written by exactly one input pixel |
| EditorUtil.FlipInjective | Unity/Assets/Psd2uGui/Editor/Scripts/EditorUtil.cs:108 | two input pixels never land on the same slot |
| EditorUtil.SourceIndexIsFlip | Unity/Assets/Psd2uGui/Editor/Scripts/EditorUtil.cs:106-108 | the index the decoder writes, `len - ((w - i % w - 1 + i) - i % w) - 1`, is the row flip of `i` |
| EditorUtil.PixelAt | Unity/Assets/Psd2uGui/Editor/Scripts/EditorUtil.cs:98-105 | a pixel takes the red, green and blue bytes at its index, and alpha 255 when the layer has no alpha channel |
| EditorUtil.Decoded | Unity/Assets/Psd2uGui/Editor/Scripts/EditorUtil.cs:87-111 | the decoded buffer has one pixel per pixel of the truncated rectangle |
| EditorUtil.DecodedAt | Unity/Assets/Psd2uGui/Editor/EditorUtil.cs:137-149 | input pixel `i` appears at its flipped index with its own channel bytes |
| EditorUtil.LayerToColors | Unity/Assets/Psd2uGui/Editor/Scripts/EditorUtil.cs:87-111 | the array the loop fills is the decoded buffer |
| EditorUtil.CreateTexture | Unity/Assets/Psd2uGui/Editor/Scripts/EditorUtil.cs:69-85 | no texture exactly when the layer is invisible or a truncated dimension is zero; otherwise the decoded pixels at the layer's size |
| EditorUtil.AddEffective | Unity/Assets/Psd2uGui/Editor/Scripts/EditorUtil.cs:21-27 | each round grows the effective list by one and adds only the new layer |
| EditorUtil.Effective | Unity/Assets/Psd2uGui/Editor/Scripts/EditorUtil.cs:17-28 | the effective list has one entry per input layer, each an input layer |
| EditorUtil.EffectiveSnoc | Unity/Assets/Psd2uGui/Editor/Scripts/EditorUtil.cs:19-28 | one more input layer runs one more round |
| EditorUtil.EffectiveNames | Unity/Assets/Psd2uGui/Editor/Scripts/EditorUtil.cs:17-28 | every input name keeps an effective entry, and no other name appears |
| EditorUtil.AddEffectiveNames | Unity/Assets/Psd2uGui/Editor/Scripts/EditorUtil.cs:21-27 | a round adds the layer's name and keeps every other name |
| EditorUtil.AddEffectiveAt | Unity/Assets/Psd2uGui/Editor/Scripts/EditorUtil.cs:21-27 | with `i` the first entry of the layer's name, a narrower or shorter entry there is taken out of exactly position `i` and the layer appended twice; otherwise, and when no entry has the name, the layer is appended once |
| EditorUtil.SaveOne | Unity/Assets/Psd2uGui/Editor/Scripts/EditorUtil.cs:32-39 | an asset is written exactly when there is none, or it has no border and is smaller; it fails exactly when a write is needed and no texture can be built; only the layer's path changes, and an unbordered result covers the layer |
| EditorUtil.SaveFrom | Unity/Assets/Psd2uGui/Editor/Scripts/EditorUtil.cs:30-40 | a successful run keeps every stored path and stores every effective layer's path |
| EditorUtil.SaveAll | Unity/Assets/Psd2uGui/Editor/Scripts/EditorUtil.cs:30-42 | the run fails exactly when a round fails; otherwise it returns one sprite per effective layer and the final store |
| EditorUtil.AtlasShared | Unity/Assets/Psd2uGui/Editor/Scripts/EditorUtil.cs:30-42 | each atlas entry is the sprite stored at its layer's path after the run, so same-named entries are one sprite showing the last save |
| EditorUtil.SaveStep | Unity/Assets/Psd2uGui/Editor/Scripts/EditorUtil.cs:30-40 | one round of the atlas loop: a failing entry ends the run; a successful one goes on from the store it leaves |
| EditorUtil.SaveKeepsBordered | Unity/Assets/Psd2uGui/Editor/Scripts/EditorUtil.cs:34-35 | a bordered asset is never overwritten, and no asset is deleted |
| EditorUtil.SaveTouchesOnlyLayerPaths | Unity/Assets/Psd2uGui/Editor/Scripts/EditorUtil.cs:30-40 | the store gains exactly the layers' paths, and every other asset stays as it was |
| EditorUtil.SaveCoversLastOfName | Unity/Assets/Psd2uGui/Editor/Scripts/EditorUtil.cs:30-40 | the asset of the last entry with a name is bordered or at least as large as that entry |
| EditorUtil.SavePair | Unity/Assets/Psd2uGui/Editor/Scripts/EditorUtil.cs:30-40 | with a larger entry first and no stored asset, the first entry writes its sprite and the second reuses it |
| EditorUtil.EffectivePair | Unity/Assets/Psd2uGui/Editor/Scripts/EditorUtil.cs:19-28 | the effective list of two layers is one round on the first |
| EditorUtil.UpgradeToLarger | Unity/Assets/Psd2uGui/Editor/Scripts/EditorUtil.cs:14-43 | a larger same-named layer after a smaller one replaces it: both atlas entries get one sprite at the larger size |
| EditorUtil.KeepLarger | Unity/Assets/Psd2uGui/Editor/Scripts/EditorUtil.cs:14-43 | a smaller same-named layer after a larger one does not shrink the asset |
| EditorUtil.CollectEffective | Unity/Assets/Psd2uGui/Editor/Scripts/EditorUtil.cs:17-28 | the first loop builds the effective list |
| EditorUtil.SaveRounds | Unity/Assets/Psd2uGui/Editor/Scripts/EditorUtil.cs:30-40 | the second loop fails exactly as `SaveFrom` does, with its exception; otherwise it records each effective layer's asset path, in order, and leaves `SaveFrom`'s store |
| EditorUtil.SaveAssets | Unity/Assets/Psd2uGui/Editor/Scripts/EditorUtil.cs:14-43 | the method computes `SaveAll` over the effective list: the atlas as read from the final store, that store, or the exception |
| SaveAssetEditor.Row | Unity/Assets/Psd2uGui/Editor/Scripts/SaveAssetEditor.cs:48-62 | a row holds the layer and its decoded texture, and the stored sprite exactly when its path is in the store; it is ticked exactly when there is no stored sprite |
| SaveAssetEditor.RowsSnoc | Unity/Assets/Psd2uGui/Editor/Scripts/SaveAssetEditor.cs:29-63 | one more layer adds its row exactly when it is offered and its name is new |
| SaveAssetEditor.RowsLast | Unity/Assets/Psd2uGui/Editor/Scripts/SaveAssetEditor.cs:29-63 | the same, seen from the last layer of the document |
| SaveAssetEditor.RowsShape | Unity/Assets/Psd2uGui/Editor/Scripts/SaveAssetEditor.cs:31-62 | every row is the row of an offered layer of the document |
| SaveAssetEditor.RowsDistinct | Unity/Assets/Psd2uGui/Editor/Scripts/SaveAssetEditor.cs:43-46 | no two rows share a name |
| SaveAssetEditor.RowsCoverNames | Unity/Assets/Psd2uGui/Editor/Scripts/SaveAssetEditor.cs:29-63 | every offered name has a row |
| SaveAssetEditor.RowsFirstOfName | Unity/Assets/Psd2uGui/Editor/Scripts/SaveAssetEditor.cs:43-46 | under each name the row is that of the first offered layer with that name |
| SaveAssetEditor.EarlierWinner | Unity/Assets/Psd2uGui/Editor/Scripts/SaveAssetEditor.cs:43-46 | a layer whose name is already taken is not the first with its name |
| SaveAssetEditor.LastWinner | Unity/Assets/Psd2uGui/Editor/Scripts/SaveAssetEditor.cs:43-46 | the last layer is the first with its name exactly when it is offered and no earlier offered layer has its name |
| SaveAssetEditor.WinsFront | Unity/Assets/Psd2uGui/Editor/Scripts/SaveAssetEditor.cs:43-46 | whether an earlier layer is the first with its name does not depend on later layers |
| SaveAssetEditor.BelowIrreflexive | Unity/Assets/Psd2uGui/Editor/Scripts/SaveAssetEditor.cs:65 | no name sorts before itself |
| SaveAssetEditor.BelowTransitive | Unity/Assets/Psd2uGui/Editor/Scripts/SaveAssetEditor.cs:65 | the name order is transitive |
| SaveAssetEditor.BelowTotal | Unity/Assets/Psd2uGui/Editor/Scripts/SaveAssetEditor.cs:65 | of two different names one sorts first |
| SaveAssetEditor.Insert | Unity/Assets/Psd2uGui/Editor/Scripts/SaveAssetEditor.cs:65 | inserting a row grows the list by one |
| SaveAssetEditor.InsertPermutes | Unity/Assets/Psd2uGui/Editor/Scripts/SaveAssetEditor.cs:65 | inserting adds exactly that row |
| SaveAssetEditor.InsertSorted | Unity/Assets/Psd2uGui/Editor/Scripts/SaveAssetEditor.cs:65 | inserting a row with a new name into a sorted list keeps it sorted |
| SaveAssetEditor.SortByName | Unity/Assets/Psd2uGui/Editor/Scripts/SaveAssetEditor.cs:65 | sorting keeps the number of rows |
| SaveAssetEditor.SortByNameSorts | Unity/Assets/Psd2uGui/Editor/Scripts/SaveAssetEditor.cs:65 | `OrderBy` name on rows with distinct names gives a strictly sorted permutation |
| SaveAssetEditor.WindowRows | Unity/Assets/Psd2uGui/Editor/Scripts/SaveAssetEditor.cs:25-66 | the rows after construction are sorted by name, each the row of an offered layer; every offered name is present, under each name the first offered layer with it |
| SaveAssetEditor.Rearranged | Unity/Assets/Psd2uGui/Editor/Scripts/SaveAssetEditor.cs:65 | sorting keeps those row properties |
| SaveAssetEditor.RearrangedFrom | Unity/Assets/Psd2uGui/Editor/Scripts/SaveAssetEditor.cs:65 | sorting keeps every row the row of an offered layer |
| SaveAssetEditor.RearrangedCovered | Unity/Assets/Psd2uGui/Editor/Scripts/SaveAssetEditor.cs:65 | sorting keeps every offered name present |
| SaveAssetEditor.RearrangedFirst | Unity/Assets/Psd2uGui/Editor/Scripts/SaveAssetEditor.cs:65 | sorting keeps each name's row that of its first offered layer |
| SaveAssetEditor.Toggled | Unity/Assets/Psd2uGui/Editor/Scripts/SaveAssetEditor.cs:81-96 | one pass of the check boxes keeps the number of rows |
| SaveAssetEditor.ToggledKeeps | Unity/Assets/Psd2uGui/Editor/Scripts/SaveAssetEditor.cs:83-89 | a pass changes only ticks, and only of rows with a stored sprite; it keeps the name order, and a row without a stored sprite stays ticked |
| SaveAssetEditor.SavedTouchesOnlyTicked | Unity/Assets/Psd2uGui/Editor/Scripts/SaveAssetEditor.cs:102-112 | saving adds exactly the paths of the ticked rows and leaves every other stored sprite as it was |
| SaveAssetEditor.SavedWritesTicked | Unity/Assets/Psd2uGui/Editor/Scripts/SaveAssetEditor.cs:102-112 | with distinct names, each ticked row's path ends up holding that row's texture, with the border the asset at that path had before |
| SaveAssetEditor.SaveAssetWindow.constructor | Unity/Assets/Psd2uGui/Editor/Scripts/SaveAssetEditor.cs:25-66 | the loop with its four skips and the texture check, then the sort, gives the sorted rows, sorted with unticked rows only where a sprite exists |
| SaveAssetEditor.SaveAssetWindow.Dispose | Unity/Assets/Psd2uGui/Editor/Scripts/SaveAssetEditor.cs:68-75 | the rows are cleared |
| SaveAssetEditor.SaveAssetWindow.Draw | Unity/Assets/Psd2uGui/Editor/Scripts/SaveAssetEditor.cs:77-100 | the loop applies the user's answers to the enabled boxes only, and keeps the window's invariant |
| SaveAssetEditor.SaveAssetWindow.Save | Unity/Assets/Psd2uGui/Editor/Scripts/SaveAssetEditor.cs:102-112 | the loop writes every ticked row's texture to its path, in row order |
| LayerComponents.Role | Unity/Assets/Psd2uGui/Editor/Scripts/LayerComponent.cs:100-103 | a role finds no layer exactly when no layer's lower-cased name matches its pattern; a layer found matches |
| LayerComponents.RoleIsFirst | Unity/Assets/Psd2uGui/Editor/Scripts/LayerComponent.cs:100-103 | the layer found is the first match in the group's order |
| LayerComponents.RoleSprite | Unity/Assets/Psd2uGui/Editor/Scripts/LayerComponent.cs:100-108 | a role's sprite is the first sprite, in list order, whose name equals the first matching layer's ignoring case; there is none exactly when no layer matches or no sprite has that name |
| LayerComponents.NewText | Unity/Assets/Psd2uGui/Editor/Scripts/LayerComponent.cs:43-49 | a text component keeps the name, the path, the layer's rectangle, its text record and the font |
| LayerComponents.NewImage | Unity/Assets/Psd2uGui/Editor/Scripts/LayerComponent.cs:73-77 | an image component keeps the name, path, rectangle and sprite |
| LayerComponents.NewButton | Unity/Assets/Psd2uGui/Editor/Scripts/LayerComponent.cs:98-111 | construction fails exactly when no layer matches the normal pattern; otherwise a button with the normal layer's rectangle, whose normal, pressed, highlighted and disabled sprites are the sprites found for each role's first matching layer |
| LayerComponents.NewToggle | Unity/Assets/Psd2uGui/Editor/Scripts/LayerComponent.cs:140-149 | construction fails exactly when no layer matches the background pattern; otherwise a toggle with the background layer's rectangle, whose background and checkmark sprites are the sprites found for each role's first matching layer |
| LayerComponents.RolesShareLayer | Unity/Assets/Psd2uGui/Editor/Scripts/LayerComponent.cs:100-108 | roles are chosen independently: a layer first for two patterns supplies both sprites |
| LayerComponents.Create | Unity/Assets/Psd2uGui/Editor/Scripts/LayerComponent.cs:51-169 | creation fails exactly for a text without a text record or a toggle without a checkmark sprite. Otherwise: an image or button takes the rectangle's size, and a button is raycast; a sprite swap happens exactly when some state sprite exists; a toggle is on, with the background as target and the checkmark as graphic |
| Converter.MembersSnoc | Unity/Assets/Psd2uGui/Editor/Scripts/Converter.cs:39-47 | one more entry joins exactly its own path's group, at the end |
| Converter.GroupMapMembers | Unity/Assets/Psd2uGui/Editor/Scripts/Converter.cs:38-47 | the dictionary has exactly the keys seen, each mapped to its members in order |
| Converter.MembersAbsent | Unity/Assets/Psd2uGui/Editor/Scripts/Converter.cs:38-47 | an unseen path has no members |
| Converter.GroupKeysCover | Unity/Assets/Psd2uGui/Editor/Scripts/Converter.cs:42-45 | the keys are exactly the paths that occur |
| Converter.GroupKeysDistinct | Unity/Assets/Psd2uGui/Editor/Scripts/Converter.cs:42-45 | no key is added twice |
| Converter.GroupKeysFound | Unity/Assets/Psd2uGui/Editor/Scripts/Converter.cs:42-45 | every key occurs among the entries |
| Converter.GroupKeysOrdered | Unity/Assets/Psd2uGui/Editor/Scripts/Converter.cs:38-49 | keys are enumerated in the order of their first appearance |
| Converter.SumSizesCons | Unity/Assets/Psd2uGui/Editor/Scripts/Converter.cs:38-47 | a leading entry adds one member to the total exactly when its path is a key |
| Converter.MembersPartition | Unity/Assets/Psd2uGui/Editor/Scripts/Converter.cs:38-47 | when every path is a key, the group sizes add up to the number of entries |
| Converter.NoMembers | Unity/Assets/Psd2uGui/Editor/Scripts/Converter.cs:38-47 | with no entries the groups are empty |
| Converter.GroupsPartition | Unity/Assets/Psd2uGui/Editor/Scripts/Converter.cs:38-47 | the groups partition the layers: every layer lands in exactly one group |
| Converter.GroupNameAndPath | Unity/Assets/Psd2uGui/Editor/Scripts/Converter.cs:61-62 | group path plus group name give the path back; the name has no "/"; the group path ends in "/" when the path has one, and is empty otherwise; the name is empty exactly when the path is empty or ends in "/" |
| Converter.ButtonStage | Unity/Assets/Psd2uGui/Editor/Scripts/Converter.cs:64-72 | at most one button, named after the group and placed at the group path, and then the matching layers are taken out; otherwise the layers are kept; an exception only for a missing normal layer |
| Converter.ToggleStage | Unity/Assets/Psd2uGui/Editor/Scripts/Converter.cs:73-81 | the same for the toggle, with a missing background layer as the exception |
| Converter.StagesFire | Unity/Assets/Psd2uGui/Editor/Scripts/Converter.cs:64-81 | a stage acts exactly when the group name matches its pattern and some layer does too |
| Converter.Leftover | Unity/Assets/Psd2uGui/Editor/Scripts/Converter.cs:84-96 | a leftover layer becomes a text exactly when it has a text record, otherwise an image with its own sprite; it keeps its name, the group's path and its rectangle |
| Converter.ClassifyRemoveThrows | Unity/Assets/Psd2uGui/Editor/Scripts/Converter.cs:59-62 | a group fails with the out-of-range `String.Remove` before either stage exactly when its path is not empty and ends in "/" |
| Converter.ClassifyEmptyPath | Unity/Assets/Psd2uGui/Editor/Scripts/Converter.cs:59 | the top-level group never makes a button or toggle |
| Converter.ClassifyButton | Unity/Assets/Psd2uGui/Editor/Scripts/Converter.cs:64-72 | a group yields a button exactly when the button stage fires, and the button comes first |
| Converter.ClassifyToggle | Unity/Assets/Psd2uGui/Editor/Scripts/Converter.cs:73-81 | a group yields a toggle exactly when the toggle stage fires on the layers the button left, and the toggle comes right after the button |
| Converter.ToggleAt | Unity/Assets/Psd2uGui/Editor/Scripts/Converter.cs:64-96 | the toggle's position among the emitted components |
| Converter.LeftoversKinds | Unity/Assets/Psd2uGui/Editor/Scripts/Converter.cs:84-96 | leftovers are only texts and images |
| Converter.ClassifyLeftovers | Unity/Assets/Psd2uGui/Editor/Scripts/Converter.cs:84-96 | after the button and toggle come the layers neither stage took, one component each, in order |
| Converter.ButtonStageRest | Unity/Assets/Psd2uGui/Editor/Scripts/Converter.cs:66-70 | a layer survives the button stage exactly when the stage did not fire or the layer does not match |
| Converter.ToggleStageRest | Unity/Assets/Psd2uGui/Editor/Scripts/Converter.cs:75-79 | the same for the toggle stage |
| Converter.ClassifyKeeps | Unity/Assets/Psd2uGui/Editor/Scripts/Converter.cs:57-97 | a layer gets a component of its own exactly when no stage that fired took it |
| Converter.ButtonStageErr | Unity/Assets/Psd2uGui/Editor/Scripts/LayerComponent.cs:100-110 | the button stage throws exactly when it fires and no taken layer matches the normal pattern |
| Converter.ClassifyNoNormal | Unity/Assets/Psd2uGui/Editor/Scripts/Converter.cs:64-72 | the group fails with a missing normal layer exactly in that case, when its path did not throw first |
| Converter.GroupResults | Unity/Assets/Psd2uGui/Editor/Scripts/Converter.cs:49-52 | one outcome per group |
| Converter.ConvertKeysErrors | Unity/Assets/Psd2uGui/Editor/Scripts/Converter.cs:49-52 | the conversion succeeds exactly when every group does, and otherwise reports the first failing group's exception |
| Converter.ClassifyByFinish | Unity/Assets/Psd2uGui/Editor/Scripts/Converter.cs:57-97 | the group's outcome is the button followed by what the rest of the method yields |
| Converter.Converter.constructor | Unity/Assets/Psd2uGui/Editor/Scripts/Converter.cs:18-23 | the converter keeps its parameter, sprites and font |
| Converter.Converter.RemoveAll | Unity/Assets/Psd2uGui/Editor/Scripts/Converter.cs:70 | removing each matching layer in turn leaves the non-matching layers in order |
| Converter.Converter.ButtonPass | Unity/Assets/Psd2uGui/Editor/Scripts/Converter.cs:64-72 | the method's button block computes the button stage and appends what it emits |
| Converter.Converter.TogglePass | Unity/Assets/Psd2uGui/Editor/Scripts/Converter.cs:73-81 | the same for the toggle block |
| Converter.Converter.AddLeftovers | Unity/Assets/Psd2uGui/Editor/Scripts/Converter.cs:84-96 | the last loop appends the leftovers |
| Converter.Converter.ConvertLayers | Unity/Assets/Psd2uGui/Editor/Scripts/Converter.cs:57-97 | `ConvertLayers` appends the group's components, or reports its exception, including the out-of-range `Remove` of a path ending in "/" |
| Converter.Converter.FinishLayers | Unity/Assets/Psd2uGui/Editor/Scripts/Converter.cs:73-96 | the part after the button block, on the layers left |
| Converter.Converter.GroupByPath | Unity/Assets/Psd2uGui/Editor/Scripts/Converter.cs:38-47 | the grouping loop builds the keys in insertion order and each key's members |
| Converter.Converter.ConvertLayerComponents | Unity/Assets/Psd2uGui/Editor/Scripts/Converter.cs:34-55 | the components of every group in key order, or the first exception |
| Scene.Placement | Unity/Assets/Psd2uGui/Editor/Scripts/ConvertEditor.cs:192-193 | x is the rectangle's centre x; y plus the centre y is the document height |
| Scene.PlacementInjective | Unity/Assets/Psd2uGui/Editor/Scripts/ConvertEditor.cs:192-193 | two components share a position exactly when their rectangles share a centre |
| Scene.PlacementOrder | Unity/Assets/Psd2uGui/Editor/Scripts/ConvertEditor.cs:192-193 | the vertical order is flipped and the horizontal order kept |
| Scene.PlacementNotCentred | Unity/Assets/Psd2uGui/Editor/Scripts/ConvertEditor.cs:192-193 | example: a 20 by 20 rectangle at (90, 40) in a document 100 high is placed at (100, 50), not relative to the document's centre |
| Scene.Find | Unity/Assets/Psd2uGui/Editor/Scripts/ConvertEditor.cs:207 | `Find` gives the first child with the name, and none only when there is none |
| Scene.Walk | Unity/Assets/Psd2uGui/Editor/Scripts/ConvertEditor.cs:203-213 | a walk ends at its start or at an existing node |
| Scene.FindStable | Unity/Assets/Psd2uGui/Editor/Scripts/ConvertEditor.cs:207-211 | a child found stays found when nodes are added |
| Scene.FindAdded | Unity/Assets/Psd2uGui/Editor/Scripts/ConvertEditor.cs:207-211 | a child created because it was missing is then found |
| Scene.WalkStable | Unity/Assets/Psd2uGui/Editor/Scripts/ConvertEditor.cs:205-213 | a successful walk keeps its target when nodes are added |
| Scene.WalkAppend | Unity/Assets/Psd2uGui/Editor/Scripts/ConvertEditor.cs:205-213 | walking two parts of a path is walking the first, then the second from there |
| Scene.WalkSnoc | Unity/Assets/Psd2uGui/Editor/Scripts/ConvertEditor.cs:205-213 | one more segment is one more lookup |
| Scene.WalkFailsEarly | Unity/Assets/Psd2uGui/Editor/Scripts/ConvertEditor.cs:205-213 | a walk that fails on a prefix fails |
| Scene.SceneTree.constructor | Unity/Assets/Psd2uGui/Editor/Scripts/ConvertEditor.cs:184-186 | the root object, named after the document, at the document's size |
| Scene.SceneTree.CreateTransform | Unity/Assets/Psd2uGui/Editor/Scripts/ConvertEditor.cs:225-236 | one new child, with centred anchors and pivot, no offset, no size and unit scale |
| Scene.SceneTree.FindOrCreatePath | Unity/Assets/Psd2uGui/Editor/Scripts/ConvertEditor.cs:203-213 | the walk along the path then succeeds and ends at the node returned; nothing is created when the path existed; otherwise the last segment is the newest node |
| Scene.SceneTree.GetOrCreateTransform | Unity/Assets/Psd2uGui/Editor/Scripts/ConvertEditor.cs:200-223 | the node returned has the name and position and hangs under the path's last segment; an existing child is reused only when it sits at the position; otherwise a new one is made and any old one stays |
| LegacyEditorUtil.GroupNameShape | Unity/Assets/Psd2uGui/Editor/EditorUtil.cs:29 | without "/" the group name is empty; otherwise it is the part after the last "/" |
| LegacyEditorUtil.LegacyButtonFirst | Unity/Assets/Psd2uGui/Editor/EditorUtil.cs:29-45 | a button comes first exactly when the group name is non-empty and holds "button_" and some layer's name does too. The button's path followed by "/" and the group name gives the group's path. Its rectangle is the first button layer's. A sprite is in it exactly when its name equals a button layer's, ignoring case |
| LegacyEditorUtil.LegacyClassifyRest | Unity/Assets/Psd2uGui/Editor/EditorUtil.cs:41-60 | after the button, one component per remaining layer in order; the remaining layers are the non-button layers when the button fired, and all layers otherwise |
| LegacyEditorUtil.LeftoversAre | Unity/Assets/Psd2uGui/Editor/EditorUtil.cs:49-60 | a leftover layer becomes a text exactly when its lower-cased name holds "label_", otherwise an image with its rectangle and the first sprite of its name |
| LegacyEditorUtil.LegacyNoButtonLeftover | Unity/Assets/Psd2uGui/Editor/EditorUtil.cs:41-44 | once the button fired, exactly the non-button layers are left |
| LegacyEditorUtil.LegacyTopLevelNoButton | Unity/Assets/Psd2uGui/Editor/EditorUtil.cs:29-31 | a path without "/" never yields a button |
| LegacyEditorUtil.LegacyAllAppend | Unity/Assets/Psd2uGui/Editor/EditorUtil.cs:15-23 | the components of two runs of groups are those of the first followed by those of the second |
| LegacyEditorUtil.ConvertLayers | Unity/Assets/Psd2uGui/Editor/EditorUtil.cs:25-63 | the method computes the classification of its group |
| LegacyEditorUtil.AddLeftovers | Unity/Assets/Psd2uGui/Editor/EditorUtil.cs:49-60 | the last loop appends one component per layer left |
| LegacyEditorUtil.ConvertLayerComponents | Unity/Assets/Psd2uGui/Editor/EditorUtil.cs:15-23 | the loop concatenates the groups' components in dictionary order |
| LegacyEditorUtil.SavedSprite | Unity/Assets/Psd2uGui/Editor/EditorUtil.cs:79 | the saved sprite has the layer's name, size and decoded pixels, and keeps the border the asset at its path had |
| LegacyEditorUtil.AtlasAdd | Unity/Assets/Psd2uGui/Editor/EditorUtil.cs:71-80 | a round appends the layer's entry; when the asset of that name, as last saved, is strictly smaller than the layer, it first takes out the first entry with the name, so the atlas keeps its size |
| Seqs.RemoveFirstAt | Unity/Assets/Psd2uGui/Editor/EditorUtil.cs:76 | `List.Remove` of a present value takes out its first occurrence |
| LegacyEditorUtil.LegacySaveOutcome | Unity/Assets/Psd2uGui/Editor/EditorUtil.cs:65-84 | the run fails exactly when some layer is invisible or empty, then with the first such layer; otherwise its atlas is the atlas of the rounds |
| LegacyEditorUtil.AtlasLength | Unity/Assets/Psd2uGui/Editor/EditorUtil.cs:65-84 | the atlas size plus the number of replacements is the number of layers |
| LegacyEditorUtil.AtlasAddNames | Unity/Assets/Psd2uGui/Editor/EditorUtil.cs:71-80 | a round adds the layer's name and loses none |
| LegacyEditorUtil.AtlasNames | Unity/Assets/Psd2uGui/Editor/EditorUtil.cs:65-84 | the atlas holds exactly the layers' names |
| LegacyEditorUtil.LegacySaveKeys | Unity/Assets/Psd2uGui/Editor/EditorUtil.cs:79 | the store gains exactly the layers' paths and every other asset stays |
| LegacyEditorUtil.LegacySaveLast | Unity/Assets/Psd2uGui/Editor/EditorUtil.cs:79 | each path holds the sprite of the last layer with that name, with the border the store had there |
| LegacyEditorUtil.LegacySave | Unity/Assets/Psd2uGui/Editor/EditorUtil.cs:65-84 | the run fails exactly when its rounds do; otherwise the atlas is read from the final store |
| LegacyEditorUtil.LegacyAtlasStored | Unity/Assets/Psd2uGui/Editor/EditorUtil.cs:65-84 | every atlas entry's asset is in the store after a successful run |
| LegacyEditorUtil.LegacyAtlasLast | Unity/Assets/Psd2uGui/Editor/EditorUtil.cs:65-84 | every returned sprite is the one saved for the last layer with its name: same-named entries share one asset, which shows its latest save |
| LegacyEditorUtil.LegacyShrinkThenGrow | Unity/Assets/Psd2uGui/Editor/EditorUtil.cs:71-80 | example: three layers of one name, the second no larger than the first and smaller than the third, leave two atlas entries after one removal |
| LegacyEditorUtil.SaveAssets | Unity/Assets/Psd2uGui/Editor/EditorUtil.cs:65-84 | the loop computes `LegacySave`: the atlas read from the final store, that store, or the exception of the first layer without a texture |

## Left out

- The editor windows' drawing, scrolling, layout and menu entries are left out. `Draw` is modelled only through the user's answers to the check boxes.
- File and asset-database I/O is modelled as a map from asset path to sprite. PNG encoding and directory creation are left out. So are the importer settings that `SaveAsset` sets (sprite type, single mode, no mipmaps, not readable). The model tracks only the sprite border, which saving leaves as it was.
- The PSD parser is not part of this model. A layer is a datatype carrying the parser's guarantee: a visible, non-empty layer has full channels.
- Regular-expression matching, culture-sensitive `ToLower` and culture-sensitive case-insensitive equality are parameters, because their semantics are the host's.
  - The older classifier's fixed patterns `button_.*`, `.*button_.*` and `label_.*` are unanchored, so they are modelled as "holds the marker".
- Floating-point rectangles: sizes are whole numbers, so the `(int)` truncations are the identity, and positions are reals. Text sizing from font layout is left out.
- `Transform.Find` is modelled as an exact-name lookup among direct children. Unity's own path syntax inside names is left out.
- Object identity: layers are values. `List.Remove` of a layer removes the first equal value. That is the intended entry wherever the code relies on it: `EditorUtil.AddEffectiveAt` and `Seqs.RemoveFirstAt` prove it removes the first entry of the name.
- A sprite asset is one object per asset path, and re-importing the path updates it in place. Both atlases therefore keep each entry as its path or name, and read the sprites from the final store. Paths are compared exactly: two layer names that differ only in case are two assets in the model, even on a file system that would merge them.
- Text font size: `TextRecord.fontSize` is an integer. The `(int)` truncation of the parser's floating-point font size (Scripts/LayerComponent.cs:56) is not modelled.
- `OrderBy` name uses culture-sensitive collation; the model sorts by ordinal character order. The proofs rely only on the order being a strict total order.
- `EditorUtil.GetAssetPath` is called by the asset-saving window but is not part of this model. It is modelled as the `"{folder}/{name}.png"` path that `SaveAssets` formats.
- `SaveAssetEditor.SaveAssetWindow.Dispose`: the destruction of the textures (`DestroyImmediate`) is left out; only the clearing of the rows is modelled.
- When `SaveAssets` throws halfway, the assets it already wrote stay in the real database. The model returns only the exception and drops the partial store.
- `ConvertEditor.CreateGUI` is not modelled as a whole. It looks up the canvas, makes the root, converts, then places and creates each component, and each of those steps is modelled. Its "canvas not found" log message is left out.
