# PhotoCleaner triage session, modelled in Dafny

PhotoCleaner lets a user swipe through the photo library one asset at a
time, sending each to the bin ("delete") or to the keep set, and then
delete the bin from the library in one batch. This project models the
state behind that flow, held by `PhotoManager`: the ordered list of loaded
assets, the review cursor `currentPhotoIndex`, the authorization flag and
the two identifier sets `photosToDelete` (the bin) and `photosToKeep`. It
also models the selection state of the bin screen, `TrashView`.

Layout:

- `constants.dfy` — module `Constants`: the two capacity limits
  (1000 in the bin, 10000 kept), the fetch cap (10000) and the
  identifier-length bound (1000) used by lookups.
- `media.dfy` — module `Media`: `Asset` (identifier and creation date),
  `Option`, and the order-preserving filters the manager applies to its
  list (`filter` by identifier, `removeAll` of a batch), with lemmas that
  they partition the list and keep it newest first.
- `triage.dfy` — module `Triage`: the session as a value `Session`, its
  invariant `Valid`, and every mutator and lookup of `PhotoManager` as a
  function from the session before to the session after, followed by
  lemmas relating them: saturation of the cursor, what a delete request
  followed by its completion removes, and that every run of events from a
  valid session stays valid and newest first.
- `photo_manager.dfy` — module `Manager`: class `PhotoManager`, whose
  fields are updated in place by methods with the source's guards and
  assignments; each is proved to leave `Model()` equal to its `Triage`
  function and to keep `Valid()`.
- `trash_view.dfy` — module `Trash`: toggling a cell, the size-based
  select-all button, the grid's cell set, the photo/video counts over the
  bin, and class `TrashView`, whose buttons clear the selection.

The photo library is not modelled. Its authorization status, the result of
a fetch and the success of each delete are parameters. Each delete is two
steps. The request step only reads the state and returns the batch it
snapshots. The completion step takes that batch and the success flag and
reconciles with whatever the state is by then. Between the two, any other
event may run. `Triage.Event` and `Triage.Run` describe such interleavings.

## Behaviour worth knowing

- A classification whose target set is full does nothing at all; the
  cursor does not advance (PhotoManager.swift:109-111, 130-132).
- `deleteSelectedPhotos` does not intersect the selection with the bin.
  On success it removes the selected identifiers from the bin only, not
  from the keep set (PhotoManager.swift:187, 203-205).
- `deleteMarkedPhotos` still asks the library to delete when no binned
  identifier is loaded. On success it empties both sets
  (PhotoManager.swift:146-163).
- Binning only deletes what is in the bin. Take three loaded assets
  `[p1, p2, p3]`: bin p1, keep p2, then delete the bin. Only p1 is
  deleted. The list becomes `[p2, p3]`, both sets are empty and the
  cursor, which was past the end, is at index 1
  (`Triage.ThreeAssetWalkthrough`).
- No guard rejects a second delete while one is in flight. Completions
  are applied in whatever order they arrive.

## Model

| member | source | states |
|---|---|---|
| `Media.InSet` | PhotoCleaner/PhotoManager.swift:146 | the batch holds exactly the listed assets whose identifier is in the given set, and is no longer than the list |
| `Media.Without` | PhotoCleaner/PhotoManager.swift:159 | after `removeAll`, an asset is listed exactly when it was listed and is not in the batch |
| `Media.WithoutSorted` | PhotoCleaner/PhotoManager.swift:159 | removing a batch keeps a newest-first list newest first |
| `Triage.Clamp` | PhotoCleaner/PhotoManager.swift:166-168 | only the cursor changes; an in-range cursor stays; a cursor past the end becomes the last index, or 0 on an empty list |
| `Triage.CurrentPhoto` | PhotoCleaner/PhotoManager.swift:63-68 | returns the asset under the cursor exactly when the list is non-empty and the cursor in range, else none; in a valid session, exactly when the list is non-empty |
| `Triage.FirstWithId` | PhotoCleaner/PhotoManager.swift:224 | none exactly when no listed asset has the identifier; otherwise the asset at the first index carrying it |
| `Triage.PhotoById` | PhotoCleaner/PhotoManager.swift:221-225 | resolves exactly when the identifier is non-empty, at most 1000 characters and carried by a listed asset; the result is that listed asset |
| `Triage.MoveToNext` | PhotoCleaner/PhotoManager.swift:70-76 | only the cursor changes, by at most one; it advances exactly when it is not yet on the last index; validity is kept |
| `Triage.KeepCurrent` | PhotoCleaner/PhotoManager.swift:100-119 | no change at all when the cursor is out of range, the identifier is empty or 10000 are kept; otherwise the identifier is kept and not binned, every other identifier stays put, the list is unchanged and the cursor advances; validity is kept |
| `Triage.MarkCurrent` | PhotoCleaner/PhotoManager.swift:121-140 | the mirror image of `KeepCurrent`, with the bin and its limit of 1000 |
| `Triage.ClearTrash` | PhotoCleaner/PhotoManager.swift:227-230 | both sets become empty, list and cursor unchanged; validity is kept |
| `Triage.LoadPhotos` | PhotoCleaner/PhotoManager.swift:37-61 | unauthorized: only the flag drops; authorized: the list is the first min(n, 10000) fetched assets in fetch order and the cursor is 0; the sets never change; validity and newest-first order are kept |
| `Triage.AccessGranted` | PhotoCleaner/PhotoManager.swift:26-35 | the flag records the answer; when granted, the library is then loaded |
| `Triage.RequestDeleteMarked` | PhotoCleaner/PhotoManager.swift:142-151 | a batch exactly when the bin is non-empty and access is granted; it holds exactly the listed assets whose identifier is binned |
| `Triage.DeleteMarkedCompleted` | PhotoCleaner/PhotoManager.swift:156-176 | failure changes nothing; success removes the batch from the list, empties both sets and pulls the cursor back onto the list; validity is kept |
| `Triage.RequestDeleteSelected` | PhotoCleaner/PhotoManager.swift:179-192 | a batch exactly when a non-empty identifier is selected and access is granted; it records the non-empty selected identifiers and exactly the listed assets carrying one |
| `Triage.DeleteSelectedCompleted` | PhotoCleaner/PhotoManager.swift:197-218 | failure changes nothing; success removes the batch from the list, its identifiers from the bin (the keep set untouched) and pulls the cursor back; validity is kept |
| `Triage.RequestDeleteCurrent` | PhotoCleaner/PhotoManager.swift:78-81 | requests the asset under the cursor, exactly when there is one |
| `Triage.DeleteCurrentCompleted` | PhotoCleaner/PhotoManager.swift:85-97 | as written: success removes the entry under the cursor at completion time and traps when the cursor is past the end; otherwise the cursor stays, or becomes max(0, count-1) when it equals the new count; sets unchanged; validity is kept |
| `Triage.DeleteCurrentCompletedFixed` | PhotoCleaner/PhotoManager.swift:81-94 | corrected: success removes exactly the deleted asset from the list, sets unchanged; the asset under review, unless it is the deleted one, stays under review; when the deleted asset is not listed before the cursor, the cursor keeps its index or is pulled back to the last index (0 on an empty list), as at :91-94; validity is kept |
| `Triage.MoveToNextSaturates` | PhotoCleaner/PhotoManager.swift:70-76 | n advances put the cursor at min(cursor + n, last index), 0 on an empty list, with no wraparound |
| `Triage.DeleteMarkedRemovesBin` | PhotoCleaner/PhotoManager.swift:142-177 | a request followed by a successful completion leaves exactly the listed assets whose identifier was not binned, in order, and shrinks the list by the number of binned listed assets |
| `Triage.DeleteSelectedRemovesSelection` | PhotoCleaner/PhotoManager.swift:179-219 | a request followed by a successful completion leaves exactly the assets whose identifier was not selected, and removes the non-empty selected identifiers from the bin |
| `Triage.DeleteCurrentRemovesWrongAsset` | PhotoCleaner/PhotoManager.swift:89 | keeping an asset while its deletion is pending makes the completion drop the next asset, leaving the deleted one listed |
| `Triage.DeleteCurrentTrapsAfterEmptyReload` | PhotoCleaner/PhotoManager.swift:89 | a reload to an empty list while a deletion is pending makes the completion trap |
| `Triage.FixedAgreesWhenUninterrupted` | PhotoCleaner/PhotoManager.swift:79-94 | with nothing between request and completion and no asset listed twice, the corrected completion gives exactly the session the code as written gives |
| `Triage.DeleteCurrentFixedRemovesDeleted` | PhotoCleaner/PhotoManager.swift:81-89 | after any run of events between the request and the completion (reloads included), the corrected completion drops the deleted asset, keeps every other listed asset, keeps the session valid and leaves the asset under review in place |
| `Triage.RunPreservesValid` | PhotoCleaner/PhotoManager.swift:37-230 | from a valid session, every interleaving of gestures, loads and delete completions that does not trap ends valid: sets disjoint and within 1000/10000, no empty identifier, cursor on the list |
| `Triage.RunPreservesOrder` | PhotoCleaner/PhotoManager.swift:46-57 | if every fetch is newest first, every run keeps the list newest first |
| `Triage.ThreeAssetWalkthrough` | PhotoCleaner/PhotoManager.swift:100-177 | binning p1, keeping p2 and deleting the bin leaves `[p2, p3]`, empty sets and the cursor on p3 |
| `Manager.PhotoManager.constructor` | PhotoCleaner/PhotoManager.swift:5-14 | a new manager holds the initial session (nothing loaded, unauthorized, empty sets), which is valid |
| `Manager.PhotoManager.PhotoLibraryAccessCompleted` | PhotoCleaner/PhotoManager.swift:27-33 | the fields become `AccessGranted` of the old session; validity is kept |
| `Manager.PhotoManager.LoadPhotos` | PhotoCleaner/PhotoManager.swift:37-61 | the fields become `Triage.LoadPhotos` of the old session; validity is kept |
| `Manager.PhotoManager.MoveToNextPhoto` | PhotoCleaner/PhotoManager.swift:70-76 | the fields become `MoveToNext` of the old session; validity is kept |
| `Manager.PhotoManager.KeepCurrentPhoto` | PhotoCleaner/PhotoManager.swift:100-119 | the fields become `KeepCurrent` of the old session; validity is kept |
| `Manager.PhotoManager.MarkPhotoForDeletion` | PhotoCleaner/PhotoManager.swift:121-140 | the fields become `MarkCurrent` of the old session; validity is kept |
| `Manager.PhotoManager.ClearTrash` | PhotoCleaner/PhotoManager.swift:227-230 | the fields become `Triage.ClearTrash` of the old session; validity is kept |
| `Manager.PhotoManager.DeleteCurrentPhoto` | PhotoCleaner/PhotoManager.swift:78-84 | returns the asset under the cursor exactly when the cursor is in range; changes nothing |
| `Manager.PhotoManager.DeleteCurrentPhotoCompleted` | PhotoCleaner/PhotoManager.swift:85-97 | reports a trap exactly when `DeleteCurrentCompleted` does; otherwise the fields become its session and stay valid |
| `Manager.PhotoManager.DeleteMarkedPhotos` | PhotoCleaner/PhotoManager.swift:142-154 | returns the listed binned assets exactly when the bin is non-empty and access is granted; changes nothing |
| `Manager.PhotoManager.DeleteMarkedPhotosCompleted` | PhotoCleaner/PhotoManager.swift:155-176 | the fields become `DeleteMarkedCompleted` of the old session; validity is kept |
| `Manager.PhotoManager.DeleteSelectedPhotos` | PhotoCleaner/PhotoManager.swift:179-195 | returns the non-empty selected identifiers and the listed assets carrying them, exactly when one is selected and access is granted; changes nothing |
| `Manager.PhotoManager.RemoveFromBin` | PhotoCleaner/PhotoManager.swift:203-205 | the identifier-by-identifier loop removes exactly the given identifiers from the bin and changes no other field |
| `Manager.PhotoManager.DeleteSelectedPhotosCompleted` | PhotoCleaner/PhotoManager.swift:196-218 | the fields become `DeleteSelectedCompleted` of the old session; validity is kept |
| `Trash.Toggled` | PhotoCleaner/TrashView.swift:94-100 | the tapped identifier's membership flips; every other identifier keeps its membership |
| `Trash.ToggleTwice` | PhotoCleaner/TrashView.swift:94-100 | tapping a cell twice restores the selection |
| `Trash.SelectAllToggled` | PhotoCleaner/TrashView.swift:112-117 | the selection becomes empty when its size equals the bin's, and the whole bin otherwise |
| `Trash.SelectAllWithinBin` | PhotoCleaner/TrashView.swift:112-117 | for a selection drawn from the bin, the size test equals the content test: a full selection is cleared, any other completed |
| `Trash.SelectAllStaleSelection` | PhotoCleaner/TrashView.swift:113-114 | a selection of the bin's size holding none of its identifiers is cleared, not replaced by the bin |
| `Trash.CellIds` | PhotoCleaner/TrashView.swift:88-89 | a cell is shown exactly for the bin identifiers that are non-empty, at most 1000 characters and carried by a listed asset |
| `Trash.OfKind` | PhotoCleaner/TrashView.swift:51-52 | keeps exactly the listed assets whose video test gives the requested answer |
| `Trash.PhotoCount` | PhotoCleaner/TrashView.swift:51 | equals the number of binned assets among the listed non-videos; at most the number of listed binned assets |
| `Trash.VideoCount` | PhotoCleaner/TrashView.swift:52 | equals the number of binned assets among the listed videos; at most the number of listed binned assets |
| `Trash.CountsPartitionBin` | PhotoCleaner/TrashView.swift:50-52 | photo count plus video count equals the number of listed assets whose identifier is binned |
| `Trash.TrashView.constructor` | PhotoCleaner/TrashView.swift:5-7 | the screen starts with an empty selection over the given manager |
| `Trash.TrashView.OnToggle` | PhotoCleaner/TrashView.swift:94-100 | the selection becomes `Toggled` of the old one |
| `Trash.TrashView.SelectAllPressed` | PhotoCleaner/TrashView.swift:112-117 | the selection becomes `SelectAllToggled` of the old one and the current bin |
| `Trash.TrashView.RestoreSelectedPressed` | PhotoCleaner/TrashView.swift:133-135 | the selection is empty afterwards |
| `Trash.TrashView.RestoreAllPressed` | PhotoCleaner/TrashView.swift:229-231 | the selection is empty afterwards |
| `Trash.TrashView.DeleteSelectedPressed` | PhotoCleaner/TrashView.swift:155-157 | requests deletion of the selection as it was, then the selection is empty |
| `Trash.TrashView.DeleteAllPressed` | PhotoCleaner/TrashView.swift:237-239 | requests deletion of the bin, then the selection is empty |
| `Trash.TrashView.VisibleCells` | PhotoCleaner/TrashView.swift:88-89 | the grid's cells are bin identifiers that resolve to a listed asset |

## Findings

| source | as written | input that shows it | evidently intended | confidence | as-written member | corrected member |
|---|---|---|---|---|---|---|
| PhotoCleaner/PhotoManager.swift:89 | on success, `photos.remove(at: currentPhotoIndex)` removes the entry under the cursor when the library answers, not the asset that was deleted, and traps when the list has become empty | list `[a, b]`, cursor 0; request deletion of `a`; keep `a` (cursor moves to 1); success removes `b` and leaves `a` listed. Or list `[a]`; request; reload an empty library; success traps | remove the asset captured at line 81 (`photoToDelete`) from the list | medium, not executed | `Triage.DeleteCurrentCompleted` (`Triage.DeleteCurrentRemovesWrongAsset`, `Triage.DeleteCurrentTrapsAfterEmptyReload`) | `Triage.DeleteCurrentCompletedFixed` (`Triage.DeleteCurrentFixedRemovesDeleted`) |

`deleteCurrentPhoto` has no caller in these files (TrashView,
PhotoViewer, PhotoSelectionView, MainMenuView, ContentView and
VideoPlayerView), so the class keeps the as-written completion. The
corrected function is proved valid-preserving and is the one to use in its
place.

## Left out

- Threads: `DispatchQueue` hops, `[weak self]` captures and `deinit`. Each completion is an ordinary sequential call. A completion arriving after the manager is gone is not modelled.
- The photo library: authorization requests and status, fetching, `performChanges`/`deleteAssets` and image requests (`getPhotoImage`, the cells' retry loop). These appear only as parameters. The library's newest-first sort is an assumption stated in `Triage.RunPreservesOrder`.
- `restoreFromTrash`, `restoreMultipleFromTrash`, `restoreAllFromTrash`, `isVideo`, `getVideoDuration` and `getVideoPlayerItem` are called but have no body in these files. The restore buttons are modelled only for what they do to the selection. `isVideo` is the parameter `isVideo`.
- Trash.TrashView.RestoreSelectedPressed: does not state the effect on the manager's sets, because `restoreMultipleFromTrash` is not part of this model.
- Trash.TrashView.RestoreAllPressed: does not state the effect on the manager's sets, because `restoreAllFromTrash` is not part of this model.
- The long-press restore on a cell (TrashView.swift:315-322) calls `restoreFromTrash`, which is not part of this model.
- Triage.PhotoById: identifiers are compared and measured as Dafny character sequences. Swift's `String` counts grapheme clusters in `photoId.count <= 1000` (PhotoManager.swift:223) and compares by canonical equivalence in `==` and `Set.contains`. An identifier of 600 `e` + U+0301 pairs has 600 Swift characters and 1200 Dafny ones, so the source resolves it and the model does not. Library identifiers are ASCII, where the two agree. The same exact comparison is used for every identifier set in the model.
- `Asset.creationDate` is an `int`. The library's creation date is an optional floating-point time; a missing date and sub-unit precision are not modelled.
- PHAsset equality is modelled as equality of the `Asset` value (identifier and creation date).
- The grid iterates `Array(photosToDelete)`, whose order is unspecified. The model gives the set of identifiers that get a cell, not their order.
- `currentPhotoIndex` is a `nat`. Nothing in the manager makes it negative, and the only assignment outside it (PhotoSelectionView.swift:80) stores an in-range index; that assignment is not modelled. Swift's 64-bit `Int` cannot overflow here, since at most 10000 assets are loaded.
- The error branches of the delete completions only hold comments (no logging is done). They are modelled as "nothing changes".
- All rendering, navigation, animation and the floating-point gesture logic (zoom clamp, swipe thresholds, duration formatting).
