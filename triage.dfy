/** The triage session of PhotoManager as a value: the loaded assets, the
    review cursor, the authorization flag and the two identifier sets (the
    bin and the keep set). Each mutator of PhotoManager is specified here as
    a function from the session before to the session after; the class in
    module Manager is proved to compute exactly these functions. The library
    is not modelled: its authorization status, its fetch result and the
    success of each delete are parameters. */
module Triage {
  import opened Constants
  import opened Media

  datatype Session = Session(
    photos: seq<Asset>,
    currentPhotoIndex: nat,
    isAuthorized: bool,
    photosToDelete: set<string>,
    photosToKeep: set<string>)

  /** The state a new PhotoManager starts in. */
  const Initial := Session([], 0, false, {}, {})

  /** What every reachable session satisfies: the two sets are disjoint,
      within their capacities and free of the empty identifier; at most the
      fetch cap is loaded; the cursor is a valid index, or 0 on an empty list. */
  predicate Valid(s: Session)
  {
    && s.photosToDelete !! s.photosToKeep
    && |s.photosToDelete| <= MaxPhotosInTrash
    && |s.photosToKeep| <= MaxPhotosToKeep
    && "" !in s.photosToDelete && "" !in s.photosToKeep
    && |s.photos| <= MaxLoadedPhotos
    && (if |s.photos| == 0 then s.currentPhotoIndex == 0 else s.currentPhotoIndex < |s.photos|)
  }

  /** The cursor after a batch removal: pulled back to the last index (or 0)
      when it fell off the end. */
  function Clamp(s: Session): (r: Session)
    ensures r == s.(currentPhotoIndex := r.currentPhotoIndex)
    ensures s.currentPhotoIndex < |s.photos| ==> r == s
    ensures |s.photos| == 0 ==> r.currentPhotoIndex == 0
    ensures s.currentPhotoIndex >= |s.photos| > 0 ==> r.currentPhotoIndex == |s.photos| - 1
    ensures r.currentPhotoIndex <= s.currentPhotoIndex
  {
    if s.currentPhotoIndex >= |s.photos| then
      s.(currentPhotoIndex := if |s.photos| == 0 then 0 else |s.photos| - 1)
    else s
  }

  // ---------------------------------------------------------------------
  // Lookups

  /** getCurrentPhoto. */
  function CurrentPhoto(s: Session): (r: Option<Asset>)
    ensures r.Some? <==> 0 < |s.photos| && s.currentPhotoIndex < |s.photos|
    ensures r.Some? ==> r.value == s.photos[s.currentPhotoIndex]
    ensures Valid(s) ==> (r.Some? <==> s.photos != [])
  {
    if 0 < |s.photos| && s.currentPhotoIndex < |s.photos| then Some(s.photos[s.currentPhotoIndex])
    else None
  }

  /** The first asset of `photos` with identifier `id`, if any. */
  function FirstWithId(photos: seq<Asset>, id: string): (r: Option<Asset>)
    ensures r.None? <==> forall a :: a in photos ==> a.localIdentifier != id
    ensures r.Some? ==> exists k :: 0 <= k < |photos| && photos[k] == r.value
                                    && r.value.localIdentifier == id
                                    && forall j :: 0 <= j < k ==> photos[j].localIdentifier != id
    decreases |photos|
  {
    if photos == [] then None
    else if photos[0].localIdentifier == id then Some(photos[0])
    else
      var r := FirstWithId(photos[1..], id);
      if r.Some? then
        ghost var k :| 0 <= k < |photos[1..]| && photos[1..][k] == r.value
                       && forall j :: 0 <= j < k ==> photos[1..][j].localIdentifier != id;
        assert photos[k + 1] == r.value;
        assert forall j :: 0 <= j < k + 1 ==> photos[j].localIdentifier != id by {
          forall j | 0 <= j < k + 1 ensures photos[j].localIdentifier != id {
            if j > 0 { assert photos[j] == photos[1..][j - 1]; }
          }
        }
        r
      else r
  }

  /** getPhotoById: empty and over-long identifiers never resolve; otherwise
      the first loaded asset carrying the identifier. */
  function PhotoById(photos: seq<Asset>, id: string): (r: Option<Asset>)
    ensures r.Some? <==> id != "" && |id| <= MaxIdLength
                         && exists a :: a in photos && a.localIdentifier == id
    ensures r.Some? ==> r.value in photos && r.value.localIdentifier == id
  {
    if id == "" then None
    else if |id| > MaxIdLength then None
    else FirstWithId(photos, id)
  }

  // ---------------------------------------------------------------------
  // Cursor and classification

  /** moveToNextPhoto: one step forward, saturating at the last index. */
  function MoveToNext(s: Session): (r: Session)
    ensures r == s.(currentPhotoIndex := r.currentPhotoIndex)
    ensures s.currentPhotoIndex <= r.currentPhotoIndex <= s.currentPhotoIndex + 1
    ensures r.currentPhotoIndex == s.currentPhotoIndex + 1 <==> s.currentPhotoIndex + 1 < |s.photos|
    ensures Valid(s) ==> Valid(r)
  {
    if |s.photos| == 0 then s
    else if s.currentPhotoIndex < |s.photos| - 1 then s.(currentPhotoIndex := s.currentPhotoIndex + 1)
    else s
  }

  /** The identifier under the cursor, when there is one. */
  function CurrentId(s: Session): (id: string)
    requires s.currentPhotoIndex < |s.photos|
    ensures id == s.photos[s.currentPhotoIndex].localIdentifier
    ensures CurrentPhoto(s).Some? && CurrentPhoto(s).value.localIdentifier == id
  {
    s.photos[s.currentPhotoIndex].localIdentifier
  }

  /** The guards of keepCurrentPhoto. */
  predicate CanKeep(s: Session)
  {
    s.currentPhotoIndex < |s.photos| && CurrentId(s) != "" && |s.photosToKeep| < MaxPhotosToKeep
  }

  /** The guards of markPhotoForDeletion. */
  predicate CanMark(s: Session)
  {
    s.currentPhotoIndex < |s.photos| && CurrentId(s) != "" && |s.photosToDelete| < MaxPhotosInTrash
  }

  /** keepCurrentPhoto: when a guard fails nothing changes and the cursor
      stays put; otherwise the current identifier moves from the bin to the
      keep set, every other identifier stays where it was, and the cursor
      advances. */
  function KeepCurrent(s: Session): (r: Session)
    ensures !CanKeep(s) ==> r == s
    ensures CanKeep(s) ==>
      && r.photos == s.photos && r.isAuthorized == s.isAuthorized
      && r.currentPhotoIndex == MoveToNext(s).currentPhotoIndex
      && CurrentId(s) in r.photosToKeep && CurrentId(s) !in r.photosToDelete
      && (forall x :: x != CurrentId(s) ==> (x in r.photosToKeep <==> x in s.photosToKeep))
      && (forall x :: x != CurrentId(s) ==> (x in r.photosToDelete <==> x in s.photosToDelete))
    ensures Valid(s) ==> Valid(r)
  {
    if !CanKeep(s) then s
    else
      var id := CurrentId(s);
      MoveToNext(s.(photosToDelete := s.photosToDelete - {id}, photosToKeep := s.photosToKeep + {id}))
  }

  /** markPhotoForDeletion: the mirror image of KeepCurrent, with the bin
      capacity as its limit. */
  function MarkCurrent(s: Session): (r: Session)
    ensures !CanMark(s) ==> r == s
    ensures CanMark(s) ==>
      && r.photos == s.photos && r.isAuthorized == s.isAuthorized
      && r.currentPhotoIndex == MoveToNext(s).currentPhotoIndex
      && CurrentId(s) in r.photosToDelete && CurrentId(s) !in r.photosToKeep
      && (forall x :: x != CurrentId(s) ==> (x in r.photosToKeep <==> x in s.photosToKeep))
      && (forall x :: x != CurrentId(s) ==> (x in r.photosToDelete <==> x in s.photosToDelete))
    ensures Valid(s) ==> Valid(r)
  {
    if !CanMark(s) then s
    else
      var id := CurrentId(s);
      MoveToNext(s.(photosToKeep := s.photosToKeep - {id}, photosToDelete := s.photosToDelete + {id}))
  }

  /** clearTrash: both sets emptied, nothing else touched. */
  function ClearTrash(s: Session): (r: Session)
    ensures r.photosToDelete == {} && r.photosToKeep == {}
    ensures r.photos == s.photos && r.currentPhotoIndex == s.currentPhotoIndex
    ensures r.isAuthorized == s.isAuthorized
    ensures Valid(s) ==> Valid(r)
  {
    s.(photosToDelete := {}, photosToKeep := {})
  }

  // ---------------------------------------------------------------------
  // Loading

  /** loadPhotos with the given authorization status and fetch result: when
      not authorized only the flag drops; otherwise the list becomes the
      first (at most 10000) fetched assets in fetch order and the cursor
      returns to the start. The two sets are never touched. */
  function LoadPhotos(s: Session, authorized: bool, fetched: seq<Asset>): (r: Session)
    ensures !authorized ==> r == s.(isAuthorized := false)
    ensures authorized ==>
      && |r.photos| == Min(|fetched|, MaxLoadedPhotos)
      && (forall i :: 0 <= i < |r.photos| ==> r.photos[i] == fetched[i])
      && r.currentPhotoIndex == 0 && r.isAuthorized == s.isAuthorized
    ensures r.photosToDelete == s.photosToDelete && r.photosToKeep == s.photosToKeep
    ensures Valid(s) ==> Valid(r)
    ensures authorized && SortedByDate(fetched) ==> SortedByDate(r.photos)
  {
    if !authorized then s.(isAuthorized := false)
    else s.(photos := fetched[..Min(|fetched|, MaxLoadedPhotos)], currentPhotoIndex := 0)
  }

  /** The completion of requestPhotoLibraryAccess: the flag records the
      answer and, when granted, the library is loaded. */
  function AccessGranted(s: Session, authorized: bool, fetched: seq<Asset>): (r: Session)
    ensures r.isAuthorized == authorized
    ensures !authorized ==> r == s.(isAuthorized := false)
    ensures authorized ==> r == LoadPhotos(s, true, fetched).(isAuthorized := true)
    ensures Valid(s) ==> Valid(r)
  {
    if authorized then LoadPhotos(s.(isAuthorized := true), true, fetched)
    else s.(isAuthorized := false)
  }

  // ---------------------------------------------------------------------
  // Deletion: a request that snapshots the batch, and a completion that
  // reconciles with the session as it is when the library answers.

  /** The request half of deleteMarkedPhotos: nothing to do on an empty bin
      or without authorization; otherwise the loaded assets whose identifier
      is in the bin. */
  function RequestDeleteMarked(s: Session, authorized: bool): (r: Option<seq<Asset>>)
    ensures r.Some? <==> s.photosToDelete != {} && authorized
    ensures r.Some? ==> forall a :: a in r.value <==> a in s.photos && a.localIdentifier in s.photosToDelete
  {
    if s.photosToDelete == {} then None
    else
      var batch := InSet(s.photos, s.photosToDelete);
      if !authorized then None else Some(batch)
  }

  /** The completion half of deleteMarkedPhotos: on failure nothing changes;
      on success the snapshotted assets leave the list, both sets are
      emptied and the cursor is pulled back onto the list. */
  function DeleteMarkedCompleted(s: Session, batch: seq<Asset>, success: bool): (r: Session)
    ensures !success ==> r == s
    ensures success ==>
      && (forall a :: a in r.photos <==> a in s.photos && a !in batch)
      && r.photosToDelete == {} && r.photosToKeep == {}
      && r.isAuthorized == s.isAuthorized
      && r.currentPhotoIndex == (if s.currentPhotoIndex < |r.photos| then s.currentPhotoIndex
                                 else if |r.photos| == 0 then 0 else |r.photos| - 1)
    ensures Valid(s) ==> Valid(r)
  {
    if !success then s
    else
      Clamp(s.(photos := Without(s.photos, batch), photosToDelete := {}, photosToKeep := {}))
  }

  /** What the request half of deleteSelectedPhotos captures: the non-empty
      selected identifiers and the loaded assets carrying one of them. */
  datatype SelectedBatch = SelectedBatch(validIds: set<string>, assets: seq<Asset>)

  /** The request half of deleteSelectedPhotos. The selection is not
      intersected with the bin: any loaded asset whose identifier is
      selected is part of the batch. */
  function RequestDeleteSelected(s: Session, selectedIds: set<string>, authorized: bool): (r: Option<SelectedBatch>)
    ensures r.Some? <==> (selectedIds - {""}) != {} && authorized
    ensures r.Some? ==> r.value.validIds == selectedIds - {""}
    ensures r.Some? ==> forall a :: a in r.value.assets <==> a in s.photos && a.localIdentifier in r.value.validIds
  {
    if selectedIds == {} then None
    else
      var validIds := set id | id in selectedIds && id != "";
      if validIds == {} then None
      else
        var assets := InSet(s.photos, validIds);
        if !authorized then None else Some(SelectedBatch(validIds, assets))
  }

  /** The completion half of deleteSelectedPhotos: on success the batch
      leaves the list, its identifiers leave the bin (the keep set is not
      touched) and the cursor is pulled back onto the list. */
  function DeleteSelectedCompleted(s: Session, batch: SelectedBatch, success: bool): (r: Session)
    ensures !success ==> r == s
    ensures success ==>
      && (forall a :: a in r.photos <==> a in s.photos && a !in batch.assets)
      && r.photosToDelete == s.photosToDelete - batch.validIds
      && r.photosToKeep == s.photosToKeep
      && r.isAuthorized == s.isAuthorized
      && r.currentPhotoIndex == (if s.currentPhotoIndex < |r.photos| then s.currentPhotoIndex
                                 else if |r.photos| == 0 then 0 else |r.photos| - 1)
    ensures Valid(s) ==> Valid(r)
  {
    if !success then s
    else
      Clamp(s.(photos := Without(s.photos, batch.assets), photosToDelete := s.photosToDelete - batch.validIds))
  }

  /** The request half of deleteCurrentPhoto: the asset under the cursor. */
  function RequestDeleteCurrent(s: Session): (r: Option<Asset>)
    ensures r == CurrentPhoto(s)
  {
    if s.currentPhotoIndex < |s.photos| then Some(s.photos[s.currentPhotoIndex]) else None
  }

  /** The completion half of deleteCurrentPhoto, as written: on success it
      removes whatever is under the cursor NOW, not the asset that was
      deleted, and it traps (None) when the list has become empty. */
  function DeleteCurrentCompleted(s: Session, success: bool): (r: Option<Session>)
    ensures !success ==> r == Some(s)
    ensures success ==> (r.None? <==> s.currentPhotoIndex >= |s.photos|)
    ensures success && r.Some? ==>
      && r.value.photos == s.photos[..s.currentPhotoIndex] + s.photos[s.currentPhotoIndex + 1..]
      && r.value.photosToDelete == s.photosToDelete && r.value.photosToKeep == s.photosToKeep
      && r.value.isAuthorized == s.isAuthorized
      && r.value.currentPhotoIndex == (if s.currentPhotoIndex == |r.value.photos|
                                       then (if |r.value.photos| == 0 then 0 else |r.value.photos| - 1)
                                       else s.currentPhotoIndex)
    ensures Valid(s) && r.Some? ==> Valid(r.value)
  {
    if !success then Some(s)
    else if s.currentPhotoIndex >= |s.photos| then None
    else
      var i := s.currentPhotoIndex;
      var photos := s.photos[..i] + s.photos[i + 1..];
      Some(s.(photos := photos,
              currentPhotoIndex := if i == |photos| then (if |photos| == 0 then 0 else |photos| - 1) else i))
  }

  /** deleteCurrentPhoto's completion as evidently intended: the deleted
      asset leaves the list, whatever the cursor points at by then. The
      cursor moves back by the number of removed entries before it, so the
      asset under review stays under review; it is clamped onto the list.
      When the deleted asset is not listed before the cursor (as when it is
      the one under review), the cursor keeps its index or is pulled back
      onto the end, as in the code as written. */
  function DeleteCurrentCompletedFixed(s: Session, deleted: Asset, success: bool): (r: Session)
    ensures !success ==> r == s
    ensures success ==>
      && (forall a :: a in r.photos <==> a in s.photos && a != deleted)
      && r.photosToDelete == s.photosToDelete && r.photosToKeep == s.photosToKeep
      && r.isAuthorized == s.isAuthorized
    ensures success && s.currentPhotoIndex < |s.photos| && s.photos[s.currentPhotoIndex] != deleted ==>
      r.currentPhotoIndex < |r.photos| && r.photos[r.currentPhotoIndex] == s.photos[s.currentPhotoIndex]
    ensures success && s.currentPhotoIndex < |s.photos| && deleted !in s.photos[..s.currentPhotoIndex] ==>
      r.currentPhotoIndex ==
        (if s.currentPhotoIndex < |r.photos| then s.currentPhotoIndex
         else if |r.photos| == 0 then 0 else |r.photos| - 1)
    ensures Valid(s) ==> Valid(r)
  {
    if !success then s
    else
      var i := Min(s.currentPhotoIndex, |s.photos|);
      var before, after := s.photos[..i], s.photos[i..];
      assert s.photos == before + after;
      WithoutAppend(before, after, [deleted]);
      assert deleted !in before ==> Without(before, [deleted]) == before by {
        if deleted !in before { WithoutAbsent(before, deleted); }
      }
      Clamp(s.(photos := Without(s.photos, [deleted]), currentPhotoIndex := |Without(before, [deleted])|))
  }

  /** With nothing between request and completion and no asset listed
      twice, the corrected completion is the completion as written: the fix
      changes only the interleaved and emptied cases. */
  lemma {:induction false} FixedAgreesWhenUninterrupted(s: Session)
    requires s.currentPhotoIndex < |s.photos|
    requires forall i, j :: 0 <= i < j < |s.photos| ==> s.photos[i] != s.photos[j]
    ensures DeleteCurrentCompleted(s, true) == Some(DeleteCurrentCompletedFixed(s, RequestDeleteCurrent(s).value, true))
  {
    WithoutAtIndex(s.photos, s.currentPhotoIndex);
  }

  // ---------------------------------------------------------------------
  // Properties relating several operations

  /** n calls of moveToNextPhoto. */
  function MoveToNextTimes(s: Session, n: nat): (r: Session)
    decreases n
  {
    if n == 0 then s else MoveToNextTimes(MoveToNext(s), n - 1)
  }

  /** Repeated advancing saturates at the last index and never wraps. */
  lemma {:induction false} MoveToNextSaturates(s: Session, n: nat)
    requires Valid(s)
    ensures MoveToNextTimes(s, n) == s.(currentPhotoIndex :=
      if |s.photos| == 0 then 0 else Min(s.currentPhotoIndex + n, |s.photos| - 1))
    decreases n
  {
    if n > 0 {
      MoveToNextSaturates(MoveToNext(s), n - 1);
    }
  }

  /** Deleting the bin right after requesting it removes exactly the loaded
      assets whose identifier is in the bin, keeps the others in order, and
      shrinks the list by the number of binned assets that were loaded. */
  lemma DeleteMarkedRemovesBin(s: Session, authorized: bool)
    requires RequestDeleteMarked(s, authorized).Some?
    ensures var r := DeleteMarkedCompleted(s, RequestDeleteMarked(s, authorized).value, true);
      && r.photos == NotInSet(s.photos, s.photosToDelete)
      && |r.photos| == |s.photos| - |InSet(s.photos, s.photosToDelete)|
  {
    var batch := RequestDeleteMarked(s, authorized).value;
    WithoutSnapshot(s.photos, batch, s.photosToDelete);
    InSetNotInSetPartition(s.photos, s.photosToDelete);
  }

  /** The same for deleteSelectedPhotos, and the bin loses exactly the
      selected identifiers. */
  lemma DeleteSelectedRemovesSelection(s: Session, selectedIds: set<string>, authorized: bool)
    requires RequestDeleteSelected(s, selectedIds, authorized).Some?
    ensures var r := DeleteSelectedCompleted(s, RequestDeleteSelected(s, selectedIds, authorized).value, true);
      && r.photos == NotInSet(s.photos, selectedIds - {""})
      && r.photosToDelete == s.photosToDelete - (selectedIds - {""})
  {
    var batch := RequestDeleteSelected(s, selectedIds, authorized).value;
    assert batch.validIds == selectedIds - {""};
    WithoutSnapshot(s.photos, batch.assets, batch.validIds);
  }

  /** Counterexample for the as-written deleteCurrentPhoto completion: the
      user keeps the first of two assets while its deletion is pending; on
      success the SECOND asset leaves the list and the deleted one stays. */
  lemma DeleteCurrentRemovesWrongAsset()
    ensures var a, b := Asset("a", 2), Asset("b", 1);
      var s := Session([a, b], 0, true, {}, {});
      && RequestDeleteCurrent(s) == Some(a)
      && DeleteCurrentCompleted(KeepCurrent(s), true) == Some(Session([a], 0, true, {}, {"a"}))
  {
    var a, b := Asset("a", 2), Asset("b", 1);
    var s := Session([a, b], 0, true, {}, {});
    assert KeepCurrent(s) == Session([a, b], 1, true, {}, {"a"});
    assert [a, b][..1] + [a, b][2..] == [a];
  }

  /** Counterexample, second half: a reload that empties the list while the
      deletion is pending makes the completion trap. */
  lemma DeleteCurrentTrapsAfterEmptyReload()
    ensures var a := Asset("a", 1);
      var s := Session([a], 0, true, {}, {});
      && RequestDeleteCurrent(s) == Some(a)
      && DeleteCurrentCompleted(LoadPhotos(s, true, []), true).None?
  {
  }

  // ---------------------------------------------------------------------
  // Reachable states

  /** Everything that can happen to a session: the UI's gestures and
      buttons, and the library's answers. */
  datatype Event =
    | Advance
    | Keep
    | Mark
    | Clear
    | Load(authorized: bool, fetched: seq<Asset>)
    | Access(granted: bool, fetched: seq<Asset>)
    | DeleteCurrentDone(success: bool)
    | DeleteMarkedDone(batch: seq<Asset>, success: bool)
    | DeleteSelectedDone(selected: SelectedBatch, success: bool)

  /** One event; None when the event traps. */
  function Step(s: Session, e: Event): Option<Session>
  {
    match e
    case Advance => Some(MoveToNext(s))
    case Keep => Some(KeepCurrent(s))
    case Mark => Some(MarkCurrent(s))
    case Clear => Some(ClearTrash(s))
    case Load(authorized, fetched) => Some(LoadPhotos(s, authorized, fetched))
    case Access(granted, fetched) => Some(AccessGranted(s, granted, fetched))
    case DeleteCurrentDone(success) => DeleteCurrentCompleted(s, success)
    case DeleteMarkedDone(batch, success) => Some(DeleteMarkedCompleted(s, batch, success))
    case DeleteSelectedDone(batch, success) => Some(DeleteSelectedCompleted(s, batch, success))
  }

  /** A run of events from `s`; None once an event traps. */
  function Run(s: Session, events: seq<Event>): Option<Session>
    decreases |events|
  {
    if events == [] then Some(s)
    else
      match Step(s, events[0])
      case None => None
      case Some(t) => Run(t, events[1..])
  }

  /** Every session reachable from a valid one is valid: the sets stay
      disjoint and within capacity, and the cursor stays on the list,
      whichever completions arrive in whichever order. */
  lemma {:induction false} RunPreservesValid(s: Session, events: seq<Event>)
    requires Valid(s)
    ensures Run(s, events).Some? ==> Valid(Run(s, events).value)
    decreases |events|
  {
    if events != [] {
      match Step(s, events[0])
      case None =>
      case Some(t) =>
        assert Valid(t);
        RunPreservesValid(t, events[1..]);
    }
  }

  /** Whatever happens between the request and the completion (advancing,
      classifying, reloading, other deletes), the corrected completion of
      deleteCurrentPhoto drops the deleted asset, keeps every other listed
      asset, keeps the session valid and, unless the deleted asset is the
      one under review, leaves the same asset under review. */
  lemma DeleteCurrentFixedRemovesDeleted(s: Session, events: seq<Event>)
    requires Valid(s) && RequestDeleteCurrent(s).Some?
    requires Run(s, events).Some?
    ensures var deleted, t := RequestDeleteCurrent(s).value, Run(s, events).value;
      var r := DeleteCurrentCompletedFixed(t, deleted, true);
      && deleted !in r.photos
      && (forall a :: a in t.photos && a != deleted ==> a in r.photos)
      && Valid(r)
      && (t.currentPhotoIndex < |t.photos| && t.photos[t.currentPhotoIndex] != deleted ==>
            r.photos[r.currentPhotoIndex] == t.photos[t.currentPhotoIndex])
  {
    RunPreservesValid(s, events);
  }

  /** On the list a library fetch produced, any run keeps the assets newest first. */
  lemma {:induction false} RunPreservesOrder(s: Session, events: seq<Event>)
    requires SortedByDate(s.photos)
    requires forall e :: e in events && (e.Load? || e.Access?) ==> SortedByDate(e.fetched)
    ensures Run(s, events).Some? ==> SortedByDate(Run(s, events).value.photos)
    decreases |events|
  {
    if events != [] {
      match Step(s, events[0])
      case None =>
      case Some(t) =>
        assert SortedByDate(t.photos) by {
          match events[0]
          case DeleteCurrentDone(success) =>
            if success {
              var i := s.currentPhotoIndex;
              var p := s.photos[..i] + s.photos[i + 1..];
              assert t.photos == p;
              forall x, y | 0 <= x < y < |p| ensures p[x].creationDate >= p[y].creationDate {
                var x' := if x < i then x else x + 1;
                var y' := if y < i then y else y + 1;
                assert p[x] == s.photos[x'] && p[y] == s.photos[y'];
              }
            }
          case DeleteMarkedDone(batch, success) =>
            WithoutSorted(s.photos, batch);
          case DeleteSelectedDone(batch, success) =>
            WithoutSorted(s.photos, batch.assets);
          case _ =>
        }
        RunPreservesOrder(t, events[1..]);
    }
  }

  /** Three loaded assets p1, p2, p3: binning p1 and keeping p2, then
      deleting the bin, removes only p1. The kept p2 stays listed, both sets
      are emptied, and the cursor, which was on p3, is pulled back to the
      last index of `[p2, p3]`, still p3. */
  lemma ThreeAssetWalkthrough()
    ensures var p1, p2, p3 := Asset("p1", 3), Asset("p2", 2), Asset("p3", 1);
      var s0 := Session([p1, p2, p3], 0, true, {}, {});
      var s2 := KeepCurrent(MarkCurrent(s0));
      && s2 == Session([p1, p2, p3], 2, true, {"p1"}, {"p2"})
      && RequestDeleteMarked(s2, true) == Some([p1])
      && DeleteMarkedCompleted(s2, [p1], true) == Session([p2, p3], 1, true, {}, {})
  {
    var p1, p2, p3 := Asset("p1", 3), Asset("p2", 2), Asset("p3", 1);
    var s0 := Session([p1, p2, p3], 0, true, {}, {});
    var s1 := MarkCurrent(s0);
    assert s1 == Session([p1, p2, p3], 1, true, {"p1"}, {});
    var s2 := KeepCurrent(s1);
    assert s2.photosToKeep == {"p2"};
    assert s2 == Session([p1, p2, p3], 2, true, {"p1"}, {"p2"});
    assert InSet([p3], {"p1"}) == [];
    assert InSet([p2, p3], {"p1"}) == [];
    assert InSet([p1, p2, p3], {"p1"}) == [p1];
    assert Without([p3], [p1]) == [p3];
    assert Without([p2, p3], [p1]) == [p2, p3];
  }
}
