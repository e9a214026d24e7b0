/** The bin screen (TrashView): its local selection of identifiers, the
    buttons that change it, the grid of cells it shows and the per-kind
    counts over the bin. Whether an asset is a video is decided by a
    PhotoManager member not modelled here, so it is a parameter `isVideo`. */
module Trash {
  import opened Constants
  import opened Media
  import opened Triage
  import opened Manager

  /** A cell's toggle: the tapped identifier flips, nothing else changes. */
  function Toggled(selected: set<string>, photoId: string): (r: set<string>)
    ensures photoId in r <==> photoId !in selected
    ensures forall x :: x != photoId ==> (x in r <==> x in selected)
  {
    if photoId in selected then selected - {photoId} else selected + {photoId}
  }

  /** Tapping the same cell twice restores the selection. */
  lemma ToggleTwice(selected: set<string>, photoId: string)
    ensures Toggled(Toggled(selected, photoId), photoId) == selected
  {
  }

  /** The select-all button. It compares sizes, not contents: equal sizes
      clear the selection, otherwise the selection becomes the whole bin. */
  function SelectAllToggled(selected: set<string>, bin: set<string>): (r: set<string>)
    ensures r == {} || r == bin
    ensures |selected| == |bin| ==> r == {}
    ensures |selected| != |bin| ==> r == bin
  {
    if |selected| == |bin| then {} else bin
  }

  /** While the selection is drawn from the bin, comparing sizes is the same
      as comparing contents: the button clears a full selection and
      completes any other. */
  lemma SelectAllWithinBin(selected: set<string>, bin: set<string>)
    requires selected <= bin
    ensures SelectAllToggled(selected, bin) == if selected == bin then {} else bin
  {
    if selected != bin {
      var x :| x in bin && x !in selected;
      SubsetSize(selected, bin - {x});
    }
  }

  lemma {:induction false} SubsetSize(a: set<string>, b: set<string>)
    requires a <= b
    ensures |a| <= |b|
    decreases a
  {
    if a != {} {
      var y :| y in a;
      SubsetSize(a - {y}, b - {y});
    }
  }

  /** A stale selection of the bin's size is cleared even though it holds
      none of the bin's identifiers. */
  lemma SelectAllStaleSelection()
    ensures SelectAllToggled({"x"}, {"y"}) == {}
  {
  }

  /** The identifiers the grid shows a cell for: bin entries that
      getPhotoById resolves to a loaded asset. */
  function CellIds(photos: seq<Asset>, bin: set<string>): (r: set<string>)
    ensures r <= bin
    ensures forall id :: id in r ==> id != "" && |id| <= MaxIdLength
    ensures forall id :: id in r <==> id in bin && exists a :: a in photos && a.localIdentifier == id && |id| <= MaxIdLength && id != ""
  {
    set id | id in bin && PhotoById(photos, id).Some?
  }

  /** The assets of `photos` of the given kind (video or not), in list order. */
  function OfKind(photos: seq<Asset>, isVideo: Asset -> bool, video: bool): (r: seq<Asset>)
    ensures |r| <= |photos|
    ensures forall a :: a in r <==> a in photos && isVideo(a) == video
    decreases |photos|
  {
    if photos == [] then []
    else if isVideo(photos[0]) == video then [photos[0]] + OfKind(photos[1..], isVideo, video)
    else OfKind(photos[1..], isVideo, video)
  }

  /** Loaded still images in the bin (photoCount): as many as the
      non-videos among the loaded assets have identifiers in the bin. */
  function PhotoCount(photos: seq<Asset>, bin: set<string>, isVideo: Asset -> bool): (n: nat)
    ensures n <= |InSet(photos, bin)|
    ensures n == |InSet(OfKind(photos, isVideo, false), bin)|
    decreases |photos|
  {
    if photos == [] then 0
    else (if photos[0].localIdentifier in bin && !isVideo(photos[0]) then 1 else 0)
         + PhotoCount(photos[1..], bin, isVideo)
  }

  /** Loaded videos in the bin (videoCount): as many as the videos among
      the loaded assets have identifiers in the bin. */
  function VideoCount(photos: seq<Asset>, bin: set<string>, isVideo: Asset -> bool): (n: nat)
    ensures n <= |InSet(photos, bin)|
    ensures n == |InSet(OfKind(photos, isVideo, true), bin)|
    decreases |photos|
  {
    if photos == [] then 0
    else (if photos[0].localIdentifier in bin && isVideo(photos[0]) then 1 else 0)
         + VideoCount(photos[1..], bin, isVideo)
  }

  /** Each loaded asset in the bin is counted once, as a photo or as a video. */
  lemma {:induction false} CountsPartitionBin(photos: seq<Asset>, bin: set<string>, isVideo: Asset -> bool)
    ensures PhotoCount(photos, bin, isVideo) + VideoCount(photos, bin, isVideo) == |InSet(photos, bin)|
    decreases |photos|
  {
    if photos != [] {
      CountsPartitionBin(photos[1..], bin, isVideo);
    }
  }

  /** The state of the bin screen: the manager it shows and its selection. */
  class TrashView {
    const photoManager: PhotoManager
    var selectedPhotos: set<string>

    constructor (photoManager: PhotoManager)
      ensures this.photoManager == photoManager && selectedPhotos == {}
    {
      this.photoManager := photoManager;
      selectedPhotos := {};
    }

    /** A cell's onToggle. */
    method OnToggle(photoId: string)
      modifies this
      ensures selectedPhotos == Toggled(old(selectedPhotos), photoId)
    {
      if photoId in selectedPhotos {
        selectedPhotos := selectedPhotos - {photoId};
      } else {
        selectedPhotos := selectedPhotos + {photoId};
      }
    }

    /** The select-all / remove-selection button. */
    method SelectAllPressed()
      modifies this
      ensures selectedPhotos == SelectAllToggled(old(selectedPhotos), photoManager.photosToDelete)
    {
      if |selectedPhotos| == |photoManager.photosToDelete| {
        selectedPhotos := {};
      } else {
        selectedPhotos := photoManager.photosToDelete;
      }
    }

    /** The restore-selected button. The call it makes into the manager
        (restoreMultipleFromTrash) is not part of this model. */
    method RestoreSelectedPressed()
      modifies this
      ensures selectedPhotos == {}
    {
      selectedPhotos := {};
    }

    /** The restore-all buttons (screen and toolbar). The call into the
        manager (restoreAllFromTrash) is not part of this model. */
    method RestoreAllPressed()
      modifies this
      ensures selectedPhotos == {}
    {
      selectedPhotos := {};
    }

    /** The delete-selected button: requests deletion of the selection, then
        clears it. The returned batch is what the completion later gets. */
    method DeleteSelectedPressed(authorized: bool) returns (request: Option<SelectedBatch>)
      modifies this
      ensures request == RequestDeleteSelected(photoManager.Model(), old(selectedPhotos), authorized)
      ensures selectedPhotos == {}
    {
      request := photoManager.DeleteSelectedPhotos(selectedPhotos, authorized);
      selectedPhotos := {};
    }

    /** The delete-all and clean buttons: requests deletion of the bin, then
        clears the selection. */
    method DeleteAllPressed(authorized: bool) returns (request: Option<seq<Asset>>)
      modifies this
      ensures request == RequestDeleteMarked(photoManager.Model(), authorized)
      ensures selectedPhotos == {}
    {
      request := photoManager.DeleteMarkedPhotos(authorized);
      selectedPhotos := {};
    }

    /** The identifiers the grid currently shows a cell for. */
    function VisibleCells(): (r: set<string>)
      reads this, photoManager
      ensures r <= photoManager.photosToDelete
      ensures forall id :: id in r ==> PhotoById(photoManager.photos, id).Some?
    {
      CellIds(photoManager.photos, photoManager.photosToDelete)
    }
  }
}
