# Photo selector: frame slot detection and the photo-editor store

This project models, in Dafny, the two pieces of the photo-selector app that hold real logic.

**Frame-template analysis.** When the server starts, a plugin analyses each built-in frame image. It takes the image's alpha channel, a row-major buffer of bytes. It scans the pixels row by row. At every unvisited pixel whose alpha is below 10 it runs an explicit-stack flood fill over 4-neighbours. The fill marks pixels in a shared `visited` buffer and returns the bounding box of the transparent pixels it reaches. Boxes strictly larger than 20 by 20 become photo slots. The slots are then sorted with a banded comparator: slots whose tops are less than 10 pixels apart are ordered by x, all others by y. The plugin records the slots, their count and the image size on each template. A template whose analysis throws gets zero slots instead, and the loop carries on. The repository has two copies of this plugin:

- `plugins/analyze-frames.ts`, split into `detectSlots` and `floodFill`;
- `server/plugins/analyze-frames.ts`, with the scan inlined in `analyzeFrame` and without the image size.

The two copies share one engine here (modules `Raster`, `RegionFill`, `SlotOrder`, `SlotDetection`). Each copy has its own module for its `analyzeFrame` and template loop (`FramePlugin`, `ServerFramePlugin`).

The engine is proved against a characterisation of its result, `SlotDetection.DetectedFrom`. It does not mention the scan loop or the fill: it speaks of components, the size filter `KeepLarge` and the sort `InsertionSort`. The statement that names no step of the algorithm at all is the membership part of `DetectSlots`' contract together with `Sorted`:

- each slot is the bounding box of one 4-connected transparent component and passes the size filter;
- every component box that passes the filter is a slot;
- each slot lies inside the image;
- the slots are a permutation of the kept boxes, in the comparator's order;
- the result is a function of the image alone, so the two plugin copies agree.

**Photo-editor store** (`stores/photoEditorStore.ts`, module `PhotoEditor`). This is a Pinia store with four pieces of state:

- the selected template;
- the list of selected photos;
- a table of per-photo adjustments keyed by photo id;
- an id counter.

It is modelled as a class whose methods update those fields. Every method keeps the invariant that photo ids are distinct, every id is below the counter, and every photo has an adjustment. The `removePhoto` action reads the photo list after splicing it. This makes it misbehave in two ways, recorded under Findings; the class implements the intended removal.

Modules: `Wrappers` (Option, Result), `Raster` (mask, points, slots, 4-connectivity, the marked-pixel view of `visited`), `RegionFill`, `SlotOrder`, `SlotDetection`, `FramePlugin`, `ServerFramePlugin`, `PhotoEditor`.

Two behaviours of the code that the model follows as written:

- The code never checks that the alpha buffer holds width times height samples; it relies on the image decoder. The model takes this as a precondition (`AlphaMask.Valid`).
- A failed write of the debug image throws out of `analyzeFrame`, so the template gets the zero fallback. The model does the same (`FrameFiles.debugWriteFails`).

## Model

| member | source | states |
|---|---|---|
| Raster.IndexInRange | plugins/analyze-frames.ts:102 | the offset `y * width + x` of an in-bounds pixel lies inside the buffer |
| Raster.IndexInjective | plugins/analyze-frames.ts:47 | distinct in-bounds pixels have distinct offsets, so one `visited` flag belongs to one pixel |
| Raster.NeighboursAreAdjacent | plugins/analyze-frames.ts:113-116 | the four guarded pushes put on the stack exactly the in-bounds 4-neighbours of the pixel |
| Raster.MarkedUpdate | plugins/analyze-frames.ts:104 | setting one pixel's flag in `visited` marks that pixel and no other |
| Raster.ComponentShared | plugins/analyze-frames.ts:113-116 | two connected pixels have the same 4-connected transparent component |
| Raster.ClosedConnected | plugins/analyze-frames.ts:113-116 | a marking that holds every neighbour of its transparent pixels holds everything connected to any of its pixels |
| RegionFill.Visit | plugins/analyze-frames.ts:102-106 | a popped pixel is marked before it is examined; it reports whether it was already marked and, if not, whether it is transparent |
| RegionFill.WidenBoundingBox | plugins/analyze-frames.ts:108-111 | the running min/max update keeps the exact bounding box of the pixels taken so far |
| RegionFill.FillStep | plugins/analyze-frames.ts:100-117 | one pass of the fill loop keeps the fill invariant and either marks a new pixel or shrinks the stack |
| RegionFill.FloodFill | plugins/analyze-frames.ts:96-125 | the fill newly marks a set of transparent pixels connected to the start, plus the start and the in-bounds neighbours of that set, and nothing else; the box is the exact bounding box of those pixels and the start, and lies inside the image with width and height at least 1 |
| RegionFill.FillKeepsClosed | plugins/analyze-frames.ts:106-116 | only transparent pixels push neighbours, and all of them: a closed marking stays closed after a fill |
| RegionFill.FillFindsComponent | plugins/analyze-frames.ts:96-125 | a fill started on an unmarked transparent pixel of a closed marking takes exactly that pixel's 4-connected transparent component |
| SlotOrder.CompareAntisymmetric | plugins/analyze-frames.ts:57-62 | the comparator is antisymmetric, so of any two slots one may stand before the other |
| SlotOrder.SortPermutes | plugins/analyze-frames.ts:57 | the sort's output is a permutation of its input |
| SlotOrder.SortSorted | plugins/analyze-frames.ts:57-62 | every neighbouring pair of the output is in the comparator's order, and no slot is lost |
| SlotOrder.Compare | plugins/analyze-frames.ts:57-62 | the sort callback: the x difference for slots whose tops are less than 10 apart, the y difference otherwise; `CompareAntisymmetric` states its property |
| SlotOrder.Insert | plugins/analyze-frames.ts:57-62 | one insertion pass of the sort; `InsertPermutes` and `InsertKeepsSorted` state its properties |
| SlotOrder.InsertionSort | plugins/analyze-frames.ts:57-62 | the model of `slots.sort(...)`; `SortPermutes`, `SortSorted`, `SortStable` and `SortedUnchanged` state its properties |
| SlotOrder.SortedUnchanged | plugins/analyze-frames.ts:57-62 | input already in the comparator's order is left as it is |
| SlotOrder.SortStable | plugins/analyze-frames.ts:57-62 | the sort is stable: of two distinct slots the comparator ties, the one that came first in the input comes first in the output |
| SlotOrder.SortReadingOrder | plugins/analyze-frames.ts:58-61 | when "same row band" is transitive on the slots, every earlier slot of the output is in the same band and not to the right, or in a higher band |
| SlotOrder.SameRowExample | plugins/analyze-frames.ts:58-59 | two slots whose tops are 5 pixels apart are ordered left to right |
| SlotOrder.EarlierRowExample | plugins/analyze-frames.ts:61 | a slot 45 pixels higher goes in front of a row of two |
| SlotOrder.RowBandExample | plugins/analyze-frames.ts:57-62 | three slots come out as the higher one, then the row of two from left to right |
| SlotOrder.InsertAt | plugins/analyze-frames.ts:57-62 | one in-place pass of the sort inserts `a[i]` into the sorted prefix and leaves the rest of the array alone |
| SlotOrder.SortSlots | plugins/analyze-frames.ts:57-62 | sorting the array in place leaves in it the stable insertion sort of its old contents |
| SlotOrder.SortedSlots | plugins/analyze-frames.ts:57-64 | the sorted slots are in the comparator's order and are a permutation of the input |
| SlotDetection.SizeFilterBoundary | plugins/analyze-frames.ts:50 | both size comparisons are strict: 20 by 21 is dropped, 21 by 21 is kept |
| SlotDetection.KeepLarge | plugins/analyze-frames.ts:50-52 | the size filter applied to the boxes in the order found; `KeepLargeMember` and `KeepLargeAllLarge` state its properties |
| SlotDetection.KeepLargeMember | plugins/analyze-frames.ts:50-52 | a box is kept if and only if it was found and is larger than 20 both ways |
| SlotDetection.KeepLargeAllLarge | plugins/analyze-frames.ts:50-52 | every kept box is large, every large box found is kept, and nothing is added |
| SlotDetection.PixelTest | plugins/analyze-frames.ts:47-48 | the scan's test at `(x, y)` asks whether the pixel is transparent and unmarked |
| SlotDetection.SeedIsFirst | plugins/analyze-frames.ts:45-49 | a fill is started only at the first pixel, in row-major order, of its component |
| SlotDetection.FillSeed | plugins/analyze-frames.ts:49 | a fill from an unvisited transparent pixel records it as the seed of its component, with the component's box |
| SlotDetection.ScanPixel | plugins/analyze-frames.ts:47-53 | one pixel of the scan keeps the scan invariant and keeps the found list equal to the large boxes so far |
| SlotDetection.ScanRow | plugins/analyze-frames.ts:46-54 | one row of the scan keeps the scan invariant |
| SlotDetection.DetectSlots | plugins/analyze-frames.ts:40-65 | the result is the sorted large boxes of the image's transparent components: exactly the large component boxes, in the comparator's order |
| SlotDetection.ScanSeeds | plugins/analyze-frames.ts:45-55 | the scan's seeds are exactly the first pixels of the transparent components |
| SlotDetection.ScanDisjoint | plugins/analyze-frames.ts:45-55 | no pixel belongs to the components of two seeds, so no region is reported twice |
| SlotDetection.ScanUnique | plugins/analyze-frames.ts:45-55 | the seeds and boxes of a scan are determined by the image |
| SlotDetection.BoxInImage | plugins/analyze-frames.ts:119-124 | a component's box lies inside the image and has positive width and height |
| SlotDetection.RecordedBox | plugins/analyze-frames.ts:45-55 | a box is recorded by the scan if and only if it is the box of some component |
| SlotDetection.DetectedSlots | plugins/analyze-frames.ts:40-65 | the returned slots are sorted and a permutation of the kept boxes; each is a large component box inside the image, and every large component box is among them |
| SlotDetection.DetectedFromUnique | plugins/analyze-frames.ts:40-65 | two runs on the same mask return the same slots |
| FramePlugin.AnalyzeFrame | plugins/analyze-frames.ts:11-31 | an undecodable frame or a failed debug write throws; otherwise the result has the detected slots, their count and the image size |
| FramePlugin.Recorded | plugins/analyze-frames.ts:162-173 | the `try`/`catch` body: the analysis copied onto the template, or zero slots and zero size; `RecordedPrepared` states its property |
| FramePlugin.RecordedPrepared | plugins/analyze-frames.ts:162-173 | the `try`/`catch` body records the analysis on the template, or zero slots and zero size when it throws |
| FramePlugin.PrepareTemplates | plugins/analyze-frames.ts:160-175 | every template is prepared from its own frame alone, so one failure does not stop the others |
| FramePlugin.PrepareBuiltIns | plugins/analyze-frames.ts:137-177 | the four built-in templates are all prepared and stored; each keeps its id and frame, has its slots recorded, and counts as many photo slots as it has slots |
| FramePlugin.PreparedUnique | plugins/analyze-frames.ts:161-175 | what a template ends up with depends only on its frame |
| ServerFramePlugin.AnalyzeFrame | server/plugins/analyze-frames.ts:11-91 | the server copy: the same throws; otherwise the detected slots and their count |
| ServerFramePlugin.ServerRecorded | server/plugins/analyze-frames.ts:160-169 | the server `try`/`catch` body: the slots and their count, or zero slots; `ServerRecordedPrepared` states its property |
| ServerFramePlugin.ServerRecordedPrepared | server/plugins/analyze-frames.ts:160-169 | the server loop records the analysis, or zero slots when it throws |
| ServerFramePlugin.PrepareServerTemplates | server/plugins/analyze-frames.ts:155-170 | every server template is prepared from its own frame alone |
| ServerFramePlugin.PrepareServerBuiltIns | server/plugins/analyze-frames.ts:132-172 | the four built-in server templates are all prepared and stored; each keeps its id and frame and counts as many photo slots as it has slots |
| ServerFramePlugin.ServerPreparedUnique | server/plugins/analyze-frames.ts:158-170 | what a server template ends up with depends only on its frame |
| ServerFramePlugin.CopiesAgree | server/plugins/analyze-frames.ts:29-51 | for the same frame the two plugin copies record the same slots and the same count |
| PhotoEditor.AddKeepsInvariant | stores/photoEditorStore.ts:42-46 | adding a photo under the counter's id keeps ids distinct and below the counter, and the new id is not in use |
| PhotoEditor.FindIndex | stores/photoEditorStore.ts:51 | the result is -1 exactly when no photo has the id, and otherwise the first index holding it |
| PhotoEditor.RemoveAsWritten | stores/photoEditorStore.ts:50-63 | `removePhoto` as written: splice, then read the photo now at the index; the lemmas below state its behaviour |
| PhotoEditor.RemoveIntended | stores/photoEditorStore.ts:50-63 | `removePhoto` as evidently intended: the removed photo's own URL and adjustment; `RemoveIntendedSpec` states its behaviour |
| PhotoEditor.AsWrittenLastPhotoThrows | stores/photoEditorStore.ts:54-60 | as written, removing the last photo throws after the splice, and its adjustment stays in the table |
| PhotoEditor.AsWrittenRevokesSuccessor | stores/photoEditorStore.ts:54-62 | as written, removing any other photo splices it out of the list and deletes its adjustment, but revokes the next photo's blob URL |
| PhotoEditor.AsWrittenKeepsInvariant | stores/photoEditorStore.ts:50-63 | as written, removal still keeps the store invariant and leaves the same photo list as the intended removal; when it does not throw, the same adjustment table too |
| PhotoEditor.RemoveUnknownId | stores/photoEditorStore.ts:50-52 | removing an id no photo has changes nothing, as written and as intended |
| PhotoEditor.RemoveOnlyPhotoExample | stores/photoEditorStore.ts:56 | removing the only photo throws as written and leaves its adjustment; the intended removal deletes it and revokes that photo's URL |
| PhotoEditor.RemoveFirstOfTwoExample | stores/photoEditorStore.ts:57 | removing the first of two photos revokes the second photo's URL as written, the first's as intended |
| PhotoEditor.RemoveIntendedSpec | stores/photoEditorStore.ts:50-63 | the intended removal takes out the first photo with the id, deletes its adjustment, and revokes its own blob URL; an unknown id changes nothing |
| PhotoEditor.RemoveKeepsInvariant | stores/photoEditorStore.ts:50-63 | the intended removal keeps the store invariant and leaves no photo with that id |
| PhotoEditor.Patched | stores/photoEditorStore.ts:110 | the spread `{ ...old, ...patch }`; `PatchedFields` states its properties |
| PhotoEditor.UpdatedAdjustments | stores/photoEditorStore.ts:108-112 | the table after `updatePhotoAdjustment`; `UpdateSpec` states its properties |
| PhotoEditor.ResetAdjustments | stores/photoEditorStore.ts:114-118 | the table after `resetPhotoAdjustment`; `ResetSpec` states its properties |
| PhotoEditor.PatchedFields | stores/photoEditorStore.ts:110 | a patch overwrites the fields it gives and keeps the others; applying it twice is applying it once; an empty patch changes nothing |
| PhotoEditor.UpdateSpec | stores/photoEditorStore.ts:108-112 | an update patches an existing entry only, adds no id, and leaves every other id's adjustment alone |
| PhotoEditor.ResetSpec | stores/photoEditorStore.ts:114-118 | a reset sets an existing entry to the neutral adjustment, adds no id, leaves the others alone, and is idempotent |
| PhotoEditor.SameKeysKeepInvariant | stores/photoEditorStore.ts:108-118 | changing adjustment values without adding or removing ids keeps the store invariant |
| PhotoEditor.PhotoEditorStore.constructor | stores/photoEditorStore.ts:28-35 | the initial state: no template, no photos, no adjustments, not loading, no error, counter 1; there is no frame to show and the project is not complete |
| PhotoEditor.PhotoEditorStore.SetTemplate | stores/photoEditorStore.ts:38-40 | the template is selected and nothing else changes; the frame shown is the template's non-empty frame source, and the project is complete exactly when the photos already chosen fill its slots |
| PhotoEditor.PhotoEditorStore.AddPhoto | stores/photoEditorStore.ts:42-46 | the new photo gets the counter's id and goes at the end, gets the neutral adjustment, the counter goes up by one, and the invariant holds; the frame shown is unchanged, and a complete project is no longer complete |
| PhotoEditor.PhotoEditorStore.RemovePhoto | stores/photoEditorStore.ts:50-63 | the intended removal, with the invariant kept and no photo left with the id; the frame shown is unchanged, and a complete project that loses a photo is no longer complete |
| PhotoEditor.PhotoEditorStore.UpdatePhotoAdjustment | stores/photoEditorStore.ts:108-112 | the adjustment table is updated as `UpdatedAdjustments` says, and nothing else changes |
| PhotoEditor.PhotoEditorStore.ResetPhotoAdjustment | stores/photoEditorStore.ts:114-118 | the adjustment table is reset as `ResetAdjustments` says, and nothing else changes |
| PhotoEditor.PhotoEditorStore.ApplyAdjustment | stores/photoEditorStore.ts:120-122 | exactly the effect of `UpdatePhotoAdjustment` |
| PhotoEditor.PhotoEditorStore.SetLoading | stores/photoEditorStore.ts:124-126 | the loading flag is set to the argument and nothing else changes |
| PhotoEditor.PhotoEditorStore.SetError | stores/photoEditorStore.ts:128-130 | the error message is set to the argument, or cleared, and nothing else changes |
| PhotoEditor.PhotoEditorStore.ResetSession | stores/photoEditorStore.ts:159-164 | no template, no photos, no adjustments, counter 1, and the invariant holds; there is no frame to show and the project is not complete |
| PhotoEditor.PhotoEditorStore.FrameImageSrc | stores/photoEditorStore.ts:170-172 | the frame source when a template is selected and its frame source is not empty, null otherwise; the constructor, `SetTemplate`, `AddPhoto`, `RemovePhoto` and `ResetSession` state what each does to it |
| PhotoEditor.PhotoEditorStore.IsProjectComplete | stores/photoEditorStore.ts:173-176 | true exactly when a template is selected and there is one photo per slot; the same operations state what each does to it (adding a photo always breaks completeness) |

## Left out

- Image decoding and writing through `sharp` are not modelled: `image.metadata()`, `extractAlphaChannel` and the debug image (`generateDebugImage`, and the composite at server/plugins/analyze-frames.ts:55-81). They are replaced by `FramePlugin.FrameFiles`. This gives, for each frame path, the decoded alpha mask (absent when decoding throws) and whether writing its debug image fails.
- The decoded buffer is assumed to hold width times height samples (`AlphaMask.Valid`), because the code relies on the decoder for this.
- The cache-directory creation at module load (lines 6-9 of both plugins) is filesystem I/O and is not modelled. `plugins/analyze-frames.ts:4` imports `fs/promises`, which has no `existsSync`, so line 7 of that copy would throw when the module loads.
- Template persistence through `useStorage()` and the console logging are key-value store and console I/O.
- The template loop mutates each template object in place. The model keeps the templates in an array and replaces each element with an updated value, so aliasing of template objects is not modelled.
- The server's `floodFill` (server/plugins/analyze-frames.ts:93-122) and its inlined scan are the same statements as in the other copy. Both copies use `RegionFill.FloodFill` and `SlotDetection.DetectSlots`.
- SlotOrder.SortSlots: the JavaScript engine's `Array.prototype.sort` is modelled as a stable insertion sort with the same comparator. Engines may use other stable algorithms. Since the comparator is not transitive for some layouts (three slots with staggered tops), the order the engine produces can then differ. The permutation and neighbour-order properties hold unconditionally. Reading order (`SortReadingOrder`) is proved only when "same row band" is transitive on the slots.
- The bound on the fill's marking work (each pixel is marked at most once, so at most width times height passes do any work) appears only as the fill loop's termination measure, not as a stated count.
- `loadPhotoUrl`, `loadPhotoUrls`, `clearPhotoUrls`, `saveToLocalStorage` and `loadFromLocalStorage` are not modelled. They use browser APIs: fetch, Blob, object URLs and local storage. `loadFromLocalStorage` also installs arbitrary parsed JSON.
- PhotoEditor.PhotoEditorStore.AddPhoto models only the part before its `await`.
- PhotoEditor.PhotoEditorStore.ResetSession leaves out the revoking of blob URLs (`clearPhotoUrls`) and the `localStorage.removeItem` call.
- PhotoEditor.PhotoEditorStore.RemovePhoto reports the blob URL it releases rather than calling `URL.revokeObjectURL`.
- PhotoEditor.Patched treats a patch field as either given or absent. A field given explicitly as `undefined`, which the spread would copy over the old value, is not modelled.
- Adjustment values are plain reals, because the store only copies them.
- composables/usePhotoOperations.ts (floating-point rotation and scale arithmetic) is not part of this model.
- Lemmas whose bodies are empty (for example `SizeFilterBoundary`, `RemoveUnknownId`, `UpdateSpec`, `ResetSpec`) state facts that follow directly from the definitions. They are there to name those facts.

## Findings

| source | as written | input that shows it | evidently intended | confidence | as-written member | corrected member |
|---|---|---|---|---|---|---|
| stores/photoEditorStore.ts:56 | after the splice at line 54, `selectedPhotos[index]` is past the end when the removed photo was last, so reading `.blobUrl` throws before the adjustment is deleted at line 60 | one photo with id 1; `removePhoto(1)` | the removed photo's adjustment is always deleted | not executed | PhotoEditor.AsWrittenLastPhotoThrows | PhotoEditor.RemoveIntendedSpec |
| stores/photoEditorStore.ts:57 | the blob URL revoked is that of the photo now at `index`, the successor of the removed one | photos 1 and 2, both with blob URLs; `removePhoto(1)` revokes photo 2's URL | the removed photo's own blob URL is revoked | not executed | PhotoEditor.RemoveFirstOfTwoExample | PhotoEditor.PhotoEditorStore.RemovePhoto |
