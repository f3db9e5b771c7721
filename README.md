# Mesh Combine Studio inspector logic

A Dafny model of the logic in Mesh Combine Studio's combiner inspector, with
proofs about it. The inspector file is `MeshCombinerEditor.cs`. Most of it
draws Unity GUI; this model covers the decisions inside the GUI handlers.

- **Search parents** (`search_parents.dfy`, `search_parents_lemmas.dfy`,
  `search_conditions.dfy`).
  - The combiner keeps a serialized array of GameObject references, and some
    of them may be null. These are the objects under which meshes are
    searched.
  - The class `SearchConditionsEditor.SearchConditions` holds the array as a
    `seq<Option<Node>>` field.
  - Its methods model Unity's in-place array edits for "+", "-",
    "Add Selected" and "Clear". One more method models the validation pass
    `CheckValidSearchParents`.
  - That pass removes entries under the combiner's own object. It also removes
    entries that lie under another entry, or duplicate one.
  - Each method is tied by loop invariants to recursive functions over the
    array: `CheckOuter`/`CheckInner` as written, `FixedOuter`/`FixedInner`
    corrected. The lemmas are proved about those functions.
  - `Transform.IsChildOf` is a parameter `under`. Lemmas that need it to be a
    hierarchy (reflexive and transitive) say so.
- **Settings** (`settings.dfy`): the clamps the inspector applies while
  fields are edited.
  - cell size, cell offset and its "H"/"R" buttons
  - meshes per frame, custom thread count
  - vertex input and output limits
  - max bounds factor
  - the copy-baked versus rebake lighting toggles
- **Combine conditions** (`combine_conditions.dfy`): the `BatchingStatic` bit
  is cleared from the static-editor-flags override. The flags are a 32-bit
  integer, modelled as `bv32`.
- **Saving** (`save_paths.dfy`): `SaveCombinedMeshes`.
  - It decides which folder is accepted and derives the asset path with C#'s
    `string.Replace`.
  - Each combined mesh is written to `name_i.asset`.
  - The folder panel's answer, the data path, the mesh filters and the index
    at which the progress bar is cancelled are inputs. The asset writes are
    returned as a list.

All line numbers below refer to `Assets/MeshCombineStudio/Editor/MeshCombinerEditor.cs`.
Where the code does something other than what its log messages announce, the
model follows the code. For example, "Add Selected" runs the validation pass
as written, flaw included.

## Model

| member | source | states |
|---|---|---|
| SearchParents.DeleteArrayElementAtIndex | Assets/MeshCombineStudio/Editor/MeshCombinerEditor.cs:126 | removing the element at a valid index shortens the array by one; elements before it stay in place and later ones shift down by one |
| SearchParents.InsertArrayElementAtIndex | Assets/MeshCombineStudio/Editor/MeshCombinerEditor.cs:76 | inserting at `k` keeps the prefix and the shifted suffix; the new element copies the old element at `k`, or is null at the end |
| SearchParents.SetArraySize | Assets/MeshCombineStudio/Editor/MeshCombinerEditor.cs:98 | the array gets exactly the new size and every element below both sizes is kept |
| SearchParents.AppendIndex | Assets/MeshCombineStudio/Editor/MeshCombinerEditor.cs:76 | `Mathf.Max(arraySize - 1, 0)`: the last index of a non-empty array, 0 for an empty one; always a valid insertion index |
| SearchParents.InsertThenSetLastAppends | Assets/MeshCombineStudio/Editor/MeshCombinerEditor.cs:76-77 | inserting at that index and then overwriting the last element appends exactly the new value |
| SearchParents.AsSlots | Assets/MeshCombineStudio/Editor/MeshCombinerEditor.cs:86-91 | the selection becomes non-null references of the same length, in the same order |
| SearchParents.CheckOuter | Assets/MeshCombineStudio/Editor/MeshCombinerEditor.cs:117-128 | the outer loop as written, at index `i` of the current list; either something is deleted or the list comes back unchanged (see `SearchParentsLemmas.CheckOuterValid`) |
| SearchParents.CheckInner | Assets/MeshCombineStudio/Editor/MeshCombinerEditor.cs:131-143 | the inner loop as written, still comparing `t1` after it has deleted it, and stopping with `BadIndex` at index -1; either something is deleted or the list comes back unchanged (see `SearchParentsLemmas.CheckInnerValid`) |
| SearchParents.CheckedParents | Assets/MeshCombineStudio/Editor/MeshCombinerEditor.cs:113-145 | the whole pass as written from index 0; either something is deleted or the list comes back unchanged (see `SearchParentsLemmas.CheckedParentsValid` and `CheckedParentsUnchangedIff`) |
| SearchParents.FixedOuter | Assets/MeshCombineStudio/Editor/MeshCombinerEditor.cs:117-128 | the outer loop with the inner loop stopping after its deletion; either something is deleted or the list comes back unchanged (see `SearchParentsLemmas.FixedParentsCorrect`) |
| SearchParents.FixedInner | Assets/MeshCombineStudio/Editor/MeshCombinerEditor.cs:131-143 | the inner loop stopping at the first entry that contains `t1`, after deleting `t1`; either something is deleted or the list comes back unchanged |
| SearchParents.FixedParents | Assets/MeshCombineStudio/Editor/MeshCombinerEditor.cs:113-145 | the corrected pass from index 0; either something is deleted or the list comes back unchanged (see `SearchParentsLemmas.FixedParentsCorrect` and `FixedParentsIdempotent`) |
| SearchConditionsEditor.SearchConditions.Plus | Assets/MeshCombineStudio/Editor/MeshCombinerEditor.cs:74-78 | "+" appends exactly one null entry and leaves every existing entry unchanged |
| SearchConditionsEditor.SearchConditions.Minus | Assets/MeshCombineStudio/Editor/MeshCombinerEditor.cs:79-83 | "-" drops the last entry when there are several, and nulls entry 0 when there is one; the size never falls below 1; an empty array fails and is left unchanged |
| SearchConditionsEditor.SearchConditions.Clear | Assets/MeshCombineStudio/Editor/MeshCombinerEditor.cs:96-100 | "Clear" leaves exactly one null entry |
| SearchConditionsEditor.SearchConditions.AddSelected | Assets/MeshCombineStudio/Editor/MeshCombinerEditor.cs:84-95 | the selection is appended in order, then the validation pass runs as written; the result holds only entries of the extended list, and it is valid when the pass completes |
| SearchConditionsEditor.SearchConditions.CheckValidSearchParents | Assets/MeshCombineStudio/Editor/MeshCombinerEditor.cs:113-145 | the in-place nested loops compute `CheckedParents` of the old array; they only delete; when they complete, no entry is under the combiner or under another entry |
| SearchConditionsEditor.SearchConditions.CheckValidSearchParentsFixed | Assets/MeshCombineStudio/Editor/MeshCombinerEditor.cs:113-145 | with the inner loop stopping after its deletion, the loops compute `FixedParents`; the result is valid, it only deletes, and in a hierarchy every object searched before is still searched |
| SearchParentsLemmas.DeleteIsSubseq | Assets/MeshCombineStudio/Editor/MeshCombinerEditor.cs:126 | a deletion leaves a subsequence of the array |
| SearchParentsLemmas.CheckOuterValid | Assets/MeshCombineStudio/Editor/MeshCombinerEditor.cs:117-128 | from any outer index whose prefix is already validated, the pass yields a subsequence, and it is valid when the pass completes |
| SearchParentsLemmas.CheckInnerValid | Assets/MeshCombineStudio/Editor/MeshCombinerEditor.cs:131-143 | the same holds for the inner loop, both before and after it has deleted `t1` |
| SearchParentsLemmas.CheckInnerDeleteValid | Assets/MeshCombineStudio/Editor/MeshCombinerEditor.cs:139-141 | the inner loop's deletion step keeps both guarantees: the outcome only deletes from the list, and a finished pass is accepted |
| SearchParentsLemmas.CheckedParentsValid | Assets/MeshCombineStudio/Editor/MeshCombinerEditor.cs:113-145 | the pass as written only deletes, and a completed pass leaves no entry under the combiner and none under or equal to another entry |
| SearchParentsLemmas.CheckedParentsUnchangedIff | Assets/MeshCombineStudio/Editor/MeshCombinerEditor.cs:113-145 | the pass completes with the array unchanged if and only if the array is already valid |
| SearchParentsLemmas.FixedParentsCorrect | Assets/MeshCombineStudio/Editor/MeshCombinerEditor.cs:113-145 | in a transform hierarchy, the corrected pass yields a valid subsequence, and every object the old list searched lies under some surviving entry |
| SearchParentsLemmas.FixedParentsIdempotent | Assets/MeshCombineStudio/Editor/MeshCombinerEditor.cs:113-145 | running the corrected pass twice gives the same result as running it once |
| SearchParentsLemmas.AcceptedHasNoDuplicates | Assets/MeshCombineStudio/Editor/MeshCombinerEditor.cs:131-143 | since `IsChildOf` is reflexive, a valid list holds no object twice |
| SearchParentsLemmas.InnocentEntryDeleted | Assets/MeshCombineStudio/Editor/MeshCombinerEditor.cs:137-141 | as written, in a legal hierarchy where distinct objects are unrelated, [0, 1, 1, 2, 1] becomes [2, 1]: object 0 is deleted and is no longer searched |
| SearchParentsLemmas.DeleteAtMinusOne | Assets/MeshCombineStudio/Editor/MeshCombinerEditor.cs:141 | as written, in a legal hierarchy where distinct objects are unrelated, [1, 1, 0, 1] reaches a deletion at index -1 |
| SearchParentsLemmas.FixedOnCounterexamples | Assets/MeshCombineStudio/Editor/MeshCombinerEditor.cs:141 | the corrected pass turns the same two lists into [0, 2, 1] and [0, 1] |
| Settings.ClampCellSize | Assets/MeshCombineStudio/Editor/MeshCombinerEditor.cs:758 | the cell size is at least 4: a size below 4 becomes exactly 4 and a size of 4 or more is kept |
| Settings.HalfCellSize | Assets/MeshCombineStudio/Editor/MeshCombinerEditor.cs:774 | C# `/ 2` truncates toward zero: for a non-negative size, `2h` is the size or one less; for a negative size, `2h` is the size or one more |
| Settings.ClampOffsetAxis | Assets/MeshCombineStudio/Editor/MeshCombinerEditor.cs:778-779 | an axis lands in [0, half]: an axis above the half becomes the half (the upper bound is compared first), a negative axis becomes 0, and an axis already inside is kept |
| Settings.ClampCellOffset | Assets/MeshCombineStudio/Editor/MeshCombinerEditor.cs:776-783 | each axis of the result is that axis of the edit clamped to [0, half]; so the result lies in the cell, and an offset already in the cell is unchanged |
| Settings.CellOffsetField | Assets/MeshCombineStudio/Editor/MeshCombinerEditor.cs:770-786 | an edit without a button gives exactly the per-axis clamp of the edit; "H" gives half the cell size on all axes; "R" gives zero; after an edit or a button the offset lies in the cell; without either nothing changes |
| Settings.OffsetButtonsStayInCell | Assets/MeshCombineStudio/Editor/MeshCombinerEditor.cs:784-785 | for any allowed cell size, the offsets that "H" and "R" produce are fixed points of the clamp |
| Settings.ClampLowThenHigh | Assets/MeshCombineStudio/Editor/MeshCombinerEditor.cs:1017-1018 | lower bound first, then upper: the result lies in range when the range is non-empty; an in-range value is kept; a value below the range becomes the low end |
| Settings.ClampMeshesPerFrame | Assets/MeshCombineStudio/Editor/MeshCombinerEditor.cs:993-994 | meshes per frame lies in [1, 128]: below 1 gives 1, above 128 gives 128, a value inside is kept |
| Settings.ClampCustomThreadAmount | Assets/MeshCombineStudio/Editor/MeshCombinerEditor.cs:1017-1018 | the thread amount lies in [1, cores] when there is at least one core: below 1 gives 1, above `cores` gives `cores`, a value inside is kept |
| Settings.ClampVertexLimit | Assets/MeshCombineStudio/Editor/MeshCombinerEditor.cs:210 | the vertex input limit (and the output limit at line 904) is at least 1: a limit below 1 becomes exactly 1 and a positive limit is kept |
| Settings.ClampMaxBoundsFactor | Assets/MeshCombineStudio/Editor/MeshCombinerEditor.cs:196 | the max bounds factor is at least 1: a factor below 1 becomes exactly 1 and a factor of 1 or more is kept |
| Settings.ClampScaleInLightmap | Assets/MeshCombineStudio/Editor/MeshCombinerEditor.cs:933 | the scale in lightmap is not negative: a negative scale becomes exactly 0 and a non-negative scale is kept |
| Settings.DrawSearchLimits | Assets/MeshCombineStudio/Editor/MeshCombinerEditor.cs:185-211 | the vertex input limit is the clamp of the input on every draw; in static-objects mode, with the toggle on and the field edited, the bounds factor is its clamp (below 1 gives exactly 1); otherwise the factor is unchanged |
| Settings.DrawJobSettings | Assets/MeshCombineStudio/Editor/MeshCombinerEditor.cs:987-1019 | in per-frame mode meshes per frame is the clamp of the input to [1, 128]; a WebGL runtime build turns multi-threading off; a custom thread amount in use is the clamp of the input to [1, cores]; every other field is unchanged, and settings already valid are left alone |
| Settings.DrawJobSettingsIdempotent | Assets/MeshCombineStudio/Editor/MeshCombinerEditor.cs:987-1019 | drawing the job panel a second time changes nothing |
| Settings.DrawLighting | Assets/MeshCombineStudio/Editor/MeshCombinerEditor.cs:908-935 | each field's new value: rebake becomes its click, or stays on only when copy-baked is not also drawn and on; copy-baked becomes its click or old value and is cleared when rebake is drawn and on; `validCopyBakedLighting` takes the drawn copy value; the scale is clamped exactly when rebake is drawn and on. Hence, whenever either toggle is drawn, the two are never both on, and with neither drawn nothing changes |
| Settings.DrawLightingStable | Assets/MeshCombineStudio/Editor/MeshCombinerEditor.cs:908-935 | a redraw without clicks changes only `validCopyBakedLighting`, which catches up with `copyBakedLighting` one draw late |
| CombineConditions.ClearBatchingStatic | Assets/MeshCombineStudio/Editor/MeshCombinerEditor.cs:381-385 | the result is the input with the `BatchingStatic` bit masked off (`flags & ~BatchingStatic`): it lacks the bit, and flags without the bit are untouched |
| CombineConditions.ClearBatchingStaticOnlyThatBit | Assets/MeshCombineStudio/Editor/MeshCombinerEditor.cs:384 | apart from `BatchingStatic`, the result equals the input flags |
| CombineConditions.ClearBatchingStaticKeepsOtherBits | Assets/MeshCombineStudio/Editor/MeshCombinerEditor.cs:384 | through any mask, every bit other than `BatchingStatic` survives |
| CombineConditions.ClearBatchingStaticIdempotent | Assets/MeshCombineStudio/Editor/MeshCombinerEditor.cs:381-385 | clearing twice gives the same result as clearing once |
| SavePaths.Contains | Assets/MeshCombineStudio/Editor/MeshCombinerEditor.cs:1469 | C#'s ordinal `string.Contains`: true for the empty string (stated by its own ensures), and a string contains only strings no longer than itself |
| SavePaths.Replace | Assets/MeshCombineStudio/Editor/MeshCombinerEditor.cs:1489 | C#'s `string.Replace`, left to right and without overlap; no contract of its own, see `SavePaths.ReplaceAbsent` and `ReplaceAtStart` |
| SavePaths.ReplaceAbsent | Assets/MeshCombineStudio/Editor/MeshCombinerEditor.cs:1489 | `Replace` leaves a string without an occurrence unchanged |
| SavePaths.ReplaceAtStart | Assets/MeshCombineStudio/Editor/MeshCombinerEditor.cs:1489 | a leading occurrence is replaced and the rest is handled independently |
| SavePaths.NatToString | Assets/MeshCombineStudio/Editor/MeshCombinerEditor.cs:1506 | `i.ToString()` is a non-empty run of decimal digits with no leading zero, and 0 prints as "0" |
| SavePaths.ParseNatToString | Assets/MeshCombineStudio/Editor/MeshCombinerEditor.cs:1506 | the decimal text reads back as the same index |
| SavePaths.NatToStringInjective | Assets/MeshCombineStudio/Editor/MeshCombinerEditor.cs:1506 | different indices give different texts |
| SavePaths.MeshFileName | Assets/MeshCombineStudio/Editor/MeshCombinerEditor.cs:1506 | `mesh.name + "_" + i + ".asset"`; no contract of its own, see `SavePaths.MeshFilePathsDistinct` |
| SavePaths.MeshFilePath | Assets/MeshCombineStudio/Editor/MeshCombinerEditor.cs:1507 | `assetPath + "/" + fileName`; no contract of its own, see `SavePaths.MeshFilePathsDistinct` |
| SavePaths.DigitSuffixAfterUnderscore | Assets/MeshCombineStudio/Editor/MeshCombinerEditor.cs:1506 | in the base name `name + "_" + digits`, the trailing digit run is exactly the index text |
| SavePaths.SameDigitsAfterUnderscore | Assets/MeshCombineStudio/Editor/MeshCombinerEditor.cs:1506 | two equal base names carry the same index text, whatever the mesh names are |
| SavePaths.MeshFilePathsDistinct | Assets/MeshCombineStudio/Editor/MeshCombinerEditor.cs:1506-1507 | meshes at different indices never get the same file path, even when their names collide |
| SavePaths.StopsAt | Assets/MeshCombineStudio/Editor/MeshCombinerEditor.cs:1500-1510 | the loop stops at a filter whose mesh is already an asset, or where the progress bar is cancelled; no contract of its own, see `SavePaths.StopIndex` |
| SavePaths.PlannedWrites | Assets/MeshCombineStudio/Editor/MeshCombinerEditor.cs:1491-1523 | the writes of the first `n` filters, at most one per filter (see `SavePaths.PlannedWritesPaths`, `Ordered`, `Complete` and `Consecutive`) |
| SavePaths.StopIndex | Assets/MeshCombineStudio/Editor/MeshCombinerEditor.cs:1491-1511 | the loop passes every filter before the stop index; at that index it meets an existing asset or a cancel, unless it reached the end |
| SavePaths.PlannedWritesPaths | Assets/MeshCombineStudio/Editor/MeshCombinerEditor.cs:1494-1507 | each write belongs to a non-null mesh below the stop index, at `assetPath + "/" + name + "_" + i + ".asset"` |
| SavePaths.PlannedWritesOrdered | Assets/MeshCombineStudio/Editor/MeshCombinerEditor.cs:1491-1523 | writes follow filter order, and no two share an index or a file |
| SavePaths.PlannedWritesComplete | Assets/MeshCombineStudio/Editor/MeshCombinerEditor.cs:1491-1523 | every non-null mesh before the stop index is written |
| SavePaths.PlannedWritesConsecutive | Assets/MeshCombineStudio/Editor/MeshCombinerEditor.cs:1491-1523 | with no null mesh, the written indices are exactly 0, 1, ..., n - 1 |
| SavePaths.SaveCombinedMeshes | Assets/MeshCombineStudio/Editor/MeshCombinerEditor.cs:1463-1532 | an empty panel answer or a folder without the data path writes nothing; an accepted folder is remembered; with no filters nothing is written; otherwise the writes are the planned ones up to the first existing asset or cancel, and the status names which of these stopped the loop |
| SavePaths.InProjectFolder | Assets/MeshCombineStudio/Editor/MeshCombinerEditor.cs:1469 | the corrected folder test: the data path itself or a folder below it; no contract of its own, see `SavePaths.ProjectAssetPath` and `InProjectFolderAgrees` |
| SavePaths.ProjectAssetPath | Assets/MeshCombineStudio/Editor/MeshCombinerEditor.cs:1489 | for a folder that is the data path or lies inside it, the asset path is "Assets" or starts with "Assets/", and it maps back to the folder |
| SavePaths.InProjectFolderStartsWith | Assets/MeshCombineStudio/Editor/MeshCombinerEditor.cs:1469 | a folder inside the project starts with the data path |
| SavePaths.InProjectFolderAgrees | Assets/MeshCombineStudio/Editor/MeshCombinerEditor.cs:1469-1489 | for any folder the prefix test accepts (its only precondition), the source accepts it too; when the data path is non-empty and does not occur again after the leading copy, both derive the same asset path |
| SavePaths.ContainsAcceptsOutsideFolder | Assets/MeshCombineStudio/Editor/MeshCombinerEditor.cs:1469 | the source accepts "/x/p/Assets" for data path "/p/Assets" and derives "/xAssets", although the folder is outside the project |
| SavePaths.ContainsAcceptsSiblingFolder | Assets/MeshCombineStudio/Editor/MeshCombinerEditor.cs:1469 | the source accepts the sibling folder "/p/Assets2" and derives "Assets2", outside "Assets" |

## Left out

- GUI drawing (foldouts, headers, labels, help boxes, colours) and the binding of `SerializedProperty`: these are presentation and host API. Each clamp takes the value as the user left it.
- Changes to the search-parent array made through the `GUIDraw.PropertyArray` editor (lines 104-107): `GUIDraw` is not part of this model. Only the validation pass that follows such a change is modelled.
- Scene-view handles in `OnSceneGUI` (lines 538-618): these are interactive Unity handles.
- The cell-offset rescale by `ratio` when the cell size changes (lines 759-762): this is float arithmetic. `CellOffsetField` takes the offset as it is after that rescale.
- Float minimums and statistics: the search box minimum of 0.01, the bounds minimum of 0.001, the saved and boost percentages, and combine time.
- Float fields as real: the cell offset, the max bounds factor and the scale in lightmap are exact reals. The code only compares them with small integers and assigns those integers.
- Reflection into Unity's private batching settings and the `QualitySettings` vSync change: these are foreign calls.
- AssetDatabase and importer I/O: `MakeMeshesReadableInImportSettings`, `File.Exists`, `DeleteAsset`, `SaveAssets`, `Refresh`, destroying `GarbageCollectMesh` and the prefab path lookup. `SaveCombinedMeshes` returns its writes as a list.
- Combine, Cancel, Search and Reset dispatch, and the job and thread statistics: they only call into `MeshCombiner` and `MeshCombineJobManager`, whose code is not part of this model.
- Mesh identity in `SaveCombinedMeshes`: `isAsset` is given per filter as `AssetDatabase.Contains` answers when the loop reaches it. That two filters share one mesh, which makes the second already an asset, is not derived.
- Prefab unpacking and the transform lock: these are engine lifecycle.
- The shift-click reset of the remembered save folder (line 1264).
- SearchParents.DeleteArrayElementAtIndex: modelled as removal. Some Unity versions first null a non-null object reference and remove it only on a second call; that behaviour is not modelled.
- SearchConditionsEditor.SearchConditions.CheckValidSearchParents: at index -1 it stops with outcome `BadIndex` and the array as it stood. It does not model what Unity does with a negative index.
- SearchConditionsEditor.SearchConditions.Minus: on an empty array, Unity's `GetArrayElementAtIndex(0)` yields no element and the handler fails. It is modelled as returning `false` with no change.
- SavePaths.SaveCombinedMeshes: the only exception modelled is the one `Replace` throws for an empty data path, as `ReplaceFailed`. Exceptions from `CreateAsset` are not modelled. The progress bar's cancel is an input index, `cancelAt`.

## Findings

| source | as written | input that shows it | evidently intended | confidence | as-written member | corrected member |
|---|---|---|---|---|---|---|
| Assets/MeshCombineStudio/Editor/MeshCombinerEditor.cs:137-141 | after deleting `t1` at `i` and decrementing `i`, the inner loop goes on comparing `t1` with later entries; a second match deletes the still-valid entry at the lower index, or reaches index -1 | [0, 1, 1, 2, 1] loses the unrelated object 0; [1, 1, 0, 1] deletes at index -1 | stop the inner loop (`break`) after the deletion, so only the nested or duplicate entry goes | high (not executed) | SearchParentsLemmas.InnocentEntryDeleted | SearchParentsLemmas.FixedParentsCorrect |
| Assets/MeshCombineStudio/Editor/MeshCombinerEditor.cs:1469 | a folder is accepted when it merely contains the data path anywhere, and `Replace` then rewrites every occurrence | data path "/p/Assets" with folder "/x/p/Assets" gives "/xAssets"; folder "/p/Assets2" gives "Assets2" | accept only the data path itself or a folder below it, and replace only that leading part | medium (not executed) | SavePaths.ContainsAcceptsOutsideFolder | SavePaths.ProjectAssetPath |

The as-written behaviour stays in the button handlers. `SearchConditionsEditor.SearchConditions.CheckValidSearchParentsFixed` is the corrected pass. `SavePaths.ProjectAssetPath`, with `SavePaths.InProjectFolderAgrees`, is the corrected folder test.
