# LibreLancer format dispatch and resource selection, modelled in Dafny

This project models the part of LibreLancer that picks which kind of asset a UTF container
file holds, and which resource libraries it provides. LibreLancer is a reimplementation of
the Freelancer engine and its editing tools. The model starts from the already-parsed
top-level children of the container's root node.

- `Utf` (`utf_loader.dfy`) models `UtfLoader`.
  - `LoadDrawable` scans the children once, in stored order, and compares lower-cased names.
    `sphere`, `vmeshpart` and `skeleton` return at once. `cmpnd` and `multilevel` only set
    flags. After the scan, compound is checked before multilevel, and if neither is set the
    file is rejected. The error is the fixed text "Not a drawable file" and does not name
    the file; it is modelled as `NotDrawable`.
  - The scan appears twice: as the recursive function `Scan`/`Classify`, and as the method
    `LoadDrawable`, which keeps UtfLoader's early-return loop. They are proved to agree.
    Both are characterised by the first immediate marker and the two flags.
  - `LoadResourceFile` fills three optional slots: material, texture and VMesh library.
    Each slot holds the child its library would be built from. Each slot is proved to hold
    the last child with the slot's name, compared case-insensitively, or nothing.
    A later child with the same library name overwrites the earlier slot
    (`Utf.LaterLibraryOverwrites`).
- `LancerEdit` (`ale_viewer.dfy`) models `AleViewer.DetectResources`.
  - This is the particle-effect viewer's pass that collects missing resources.
  - The resolver queries `FindTexture` and `TryGetFrameAnimation` are parameters. So are the
    membership helpers `ResourceDetection.HasTexture` and `HasMissing`.
  - The pass is proved to only append. It never touches `matrefs`.
  - Every added texture and missing entry is proved to come from a basic appearance among
    the references.
  - `DetectResources` itself is `DetectFrom` applied to the effect's name and its reference
    list, so every property stated about `DetectFrom` is a property of `DetectResources`.
  - Under the natural readings of the two helpers, the pass is proved to list every texture
    and the description of every unresolved texture. When the lists handed in have no
    repeats, it is proved never to repeat a texture name or a missing description.
- `GameData` (`base_room.dfy`) models `BaseRoom`.
  - `OpenScripts` gives its scripts in a fixed order, with optional tail entries.
  - `InitForDisplay` runs a pending action and clears it only after the action returns
    normally. An action that throws stays pending and runs again on the next call. What the
    action does is represented by a log entry and its outcome (returns or throws).
- `Common` (`common.dfy`) holds `Option`, which stands for a nullable reference, and the
  lower-casing used by every name comparison.

## Model

| member | source | states |
|---|---|---|
| Utf.LoadDrawable | src/LibreLancer/Utf/UtfLoader.cs:24-43 | The early-return loop gives the same result as the recursive classification. If some child is the first with an immediate marker, the result is that marker's variant. With no immediate marker, the result is decided by whether a `cmpnd` child and a `multilevel` child exist. |
| Utf.ScanFirstImmediate | src/LibreLancer/Utf/UtfLoader.cs:29-37 | From any flag state, the first child in the remaining list that carries `sphere`, `vmeshpart` or `skeleton` ends the scan with that marker's variant. |
| Utf.ScanNoImmediate | src/LibreLancer/Utf/UtfLoader.cs:29-42 | With no immediate marker left, the scan reaches the end. Each flag ends up set when it was set before or some remaining child has its name. |
| Utf.ImmediateMarkerDecides | src/LibreLancer/Utf/UtfLoader.cs:29-37 | The first child (in any case) named `sphere`, `vmeshpart` or `skeleton` decides the variant. `cmpnd` and `multilevel` children have no effect, wherever they stand. |
| Utf.MarkerOrderDecides | src/LibreLancer/Utf/UtfLoader.cs:32-36 | Among immediate markers, list order decides, not marker kind. `[Skeleton, sphere]` gives the deformable model and `[SPHERE, skeleton]` gives the sphere. |
| Utf.CompoundBeforeMultilevel | src/LibreLancer/Utf/UtfLoader.cs:38-39 | With no immediate marker, a `cmpnd` child gives the compound model, even if `multilevel` is present. |
| Utf.MultilevelFallback | src/LibreLancer/Utf/UtfLoader.cs:40-41 | With no immediate marker and no `cmpnd`, a `multilevel` child gives the single-level model, the same variant `vmeshpart` selects. |
| Utf.NotDrawableIff | src/LibreLancer/Utf/UtfLoader.cs:38-42 | Classification fails if and only if none of the five marker names occurs among the top-level children. |
| Utf.ClassifyIgnoresCase | src/LibreLancer/Utf/UtfLoader.cs:31 | Two child lists whose names agree once lower-cased classify identically. |
| Utf.LoadResourceFile | src/LibreLancer/Utf/UtfLoader.cs:44-68 | All slots start empty. Each slot ends up holding the last child named `material library`, `texture library` or `vmeshlibrary` respectively (any case). A slot is empty exactly when no child has its name. |
| Utf.UnrelatedChildIgnored | src/LibreLancer/Utf/UtfLoader.cs:52-66 | Inserting a child with any other name, at any position, changes none of the three slots. |
| Utf.LibraryChildSetsOwnSlot | src/LibreLancer/Utf/UtfLoader.cs:54-65 | A library child sets exactly its own slot and leaves the other two as the earlier children left them. |
| Utf.LaterLibraryOverwrites | src/LibreLancer/Utf/UtfLoader.cs:50-57 | A material library followed by no other material library is the one kept, whatever came before it. |
| LancerEdit.DetectFrom | src/Editor/LancerEdit/AleViewer.cs:244-263 | Append-only: `missing` and `texrefs` are extensions of their inputs and `matrefs` is unchanged. Each added texture is the texture of some basic appearance. Each added missing entry is `"Texture: " + t` with context `"<effect>: <NodeName> (<Name>)"`, for some basic appearance whose texture `t` is neither a texture nor a frame animation. |
| LancerEdit.NonAppearanceIgnored | src/Editor/LancerEdit/AleViewer.cs:246-248 | Removing a reference whose node is not a basic appearance, from any position, changes no output. |
| LancerEdit.DetectReferenceCases | src/Editor/LancerEdit/AleViewer.cs:252-259 | For one basic appearance with texture `t`: `t` is appended exactly when `HasTexture` reports it absent. A missing entry is appended exactly when `t` is unresolved and `HasMissing` reports no entry with its description. |
| LancerEdit.TexturesStayDistinct | src/Editor/LancerEdit/AleViewer.cs:252 | If `HasTexture` finds every listed name, a `texrefs` list without repeats stays without repeats. |
| LancerEdit.DescriptionsStayDistinct | src/Editor/LancerEdit/AleViewer.cs:257-258 | If `HasMissing` finds every listed description, missing descriptions without repeats stay without repeats. |
| LancerEdit.EveryTextureListed | src/Editor/LancerEdit/AleViewer.cs:252 | If `HasTexture` only finds listed names, every texture of a basic appearance is in `texrefs` afterwards. |
| LancerEdit.EveryUnresolvedReported | src/Editor/LancerEdit/AleViewer.cs:254-258 | If `HasMissing` only finds listed descriptions, every unresolved texture of a basic appearance has a missing entry with its description afterwards. |
| GameData.OpenScripts | src/LibreLancer/GameData/BaseRoom.cs:24-30 | The output length is the number of `ThnPaths` entries, plus one when `GoodscartScript` is set, plus one when `LandScript` is set and requested. The `ThnPaths` scripts come first, in order. The goods-cart script comes right after them, and the landing script comes last. |
| GameData.OpenScriptsPaths | src/LibreLancer/GameData/BaseRoom.cs:24-30 | The paths of the scripts opened are `ThnPaths`, then the goods-cart path if set, then the landing path if set and requested. |
| GameData.StartScriptNeverOpened | src/LibreLancer/GameData/BaseRoom.cs:27 | `StartScript` has no influence on the scripts opened. |
| GameData.LandScriptOnlyOnRequest | src/LibreLancer/GameData/BaseRoom.cs:29 | The list without the landing script is a prefix of the list with it. The two differ in length by one exactly when `LandScript` is set. |
| GameData.InitForDisplay | src/LibreLancer/GameData/BaseRoom.cs:32-39 | A pending action runs. It is cleared when it returns normally. When it throws, the exception leaves the call and the room is unchanged, with the action still pending. With no pending action, nothing runs and nothing is thrown. No other field changes. |
| GameData.InitRunsUntilReturn | src/LibreLancer/GameData/BaseRoom.cs:32-39 | Over repeated calls, a pending action runs on every call up to and including the first one where it returns normally, and never after that. After a normal return it is cleared. When every run threw, the original action is still pending and the room is exactly as it was. A room without a pending action is left unchanged. No other field changes. |
| GameData.InitRunsOnceIfItReturns | src/LibreLancer/GameData/BaseRoom.cs:34-38 | If the action returns normally, repeated calls run it exactly once and leave it cleared. |

## Left out

- Reading the container: `parseFile`, `UtfFile` and the building of nodes are not modelled. The model starts from the root's children as a `seq<Node>`.
- The drawable and library constructors (`SphFile`, `ModelFile`, `CmpFile`, `DfmFile`, `MatFile`, `TxmFile`, `VmsFile`) are not modelled. Their source is not part of this model. `LoadDrawable` returns a kind tag, and each library slot holds the child the library would be built from.
- The file name is only read by `parseFile` and passed to the drawable constructors. The `ILibFile` argument is only passed to the constructors; `TxmFile` does not take it. Both are dropped along with the constructors.
- A library child that is a leaf makes the `as IntermediateNode` cast yield null, and that null goes to a constructor whose behaviour is not part of this model. The model stores the child whatever its payload.
- `ToLowerInvariant` is modelled as ASCII lower-casing. Unicode case folding is left out.
- `ResourceDetection.HasTexture` and `HasMissing`, `FindTexture` and `TryGetFrameAnimation` are not part of this model. They are total functions supplied by the caller. The frame animation that `TryGetFrameAnimation` outputs is not used by the pass, so only its success is modelled.
- EveryTextureListed, TexturesStayDistinct, EveryUnresolvedReported and DescriptionsStayDistinct each hold only under a stated assumption. The assumption is that the membership helper is sound or complete with respect to plain list membership. The helpers' bodies are not part of this model.
- `string.Format` with null arguments prints an empty string. The model assumes the effect and node names are present.
- In `AleViewer`, everything besides `DetectResources` is left out: ImGui panels, viewport, camera, GL drawing, the particle pool, update and dispose. All of it is UI or floating-point graphics.
- `BaseRoom`: `Nickname`, `LaunchScript`, hotspots, NPCs, music and the other plain data fields are omitted. Neither operation reads them.
- The file dialogs, the interface editor window, the game main loop, the matrix camera and render user data are left out. They are platform I/O, UI, threading or floating-point code.
- Compound part trees, bone hierarchies and bone binding are left out. No code for them is in the modelled files.
- GameData.OpenScripts: `ThnPaths` has no initializer, so for a room whose `ThnPaths` was never set, enumerating the scripts throws `NullReferenceException`. The model's `seq<string>` is always present, so it does not express that failure.
- GameData.OpenScripts: the C# method is an iterator (`yield return`), so its body runs on each enumeration. It reads `ThnPaths`, `GoodscartScript` and `LandScript` as they are at that moment, and builds new `ThnScript` objects each time. Changing `ThnPaths` during an enumeration throws `InvalidOperationException`. The model gives what one enumeration yields, reading the room's fields once. Deferred, repeatable evaluation is not modelled.
- GameData.OpenScripts: `new ThnScript(p)` calls a constructor that is not part of this model. It is reduced to a record of the path.
- GameData.InitForDisplay: an action that calls `InitForDisplay` on the same room again, before returning, finds itself still pending and runs again, recursing without bound. The model assumes the action does not re-enter. An action's outcome (returns or throws) is modelled; its other effects are not.
- GameData.InitRunsUntilReturn: holds for actions that do not re-enter `InitForDisplay`, for the reason given in the line above.
- GameData.InitRunsOnceIfItReturns: holds for actions that do not re-enter `InitForDisplay`, for the same reason.
