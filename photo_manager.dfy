/** PhotoManager as an object whose fields the UI's gestures and the
    library's answers update in place. Each method is proved to leave the
    object in exactly the session its Triage function describes, and to
    keep the object invariant Triage.Valid. */
module Manager {
  import opened Constants
  import opened Media
  import opened Triage

  class PhotoManager {
    var photos: seq<Asset>
    var currentPhotoIndex: nat
    var isAuthorized: bool
    /** The bin: identifiers marked for deletion. */
    var photosToDelete: set<string>
    /** Identifiers the user decided to keep. */
    var photosToKeep: set<string>

    /** The fields, as a session value. */
    function Model(): Session
      reads this
    {
      Session(photos, currentPhotoIndex, isAuthorized, photosToDelete, photosToKeep)
    }

    predicate Valid()
      reads this
    {
      Triage.Valid(Model())
    }

    /** A new manager: nothing loaded, not yet authorized. The access request
        the source starts here is PhotoLibraryAccessCompleted. */
    constructor ()
      ensures Valid() && Model() == Initial
    {
      photos := [];
      currentPhotoIndex := 0;
      isAuthorized := false;
      photosToDelete := {};
      photosToKeep := {};
    }

    /** The main-thread part of requestPhotoLibraryAccess, given the
        library's answer and what a subsequent fetch returns. */
    method PhotoLibraryAccessCompleted(granted: bool, fetched: seq<Asset>)
      requires Valid()
      modifies this
      ensures Valid() && Model() == AccessGranted(old(Model()), granted, fetched)
    {
      isAuthorized := granted;
      if isAuthorized {
        LoadPhotos(granted, fetched);
      }
    }

    /** loadPhotos, given the authorization status and the fetch result. */
    method LoadPhotos(authorized: bool, fetched: seq<Asset>)
      requires Valid()
      modifies this
      ensures Valid() && Model() == Triage.LoadPhotos(old(Model()), authorized, fetched)
    {
      if !authorized {
        isAuthorized := false;
        return;
      }
      var maxPhotos := Min(|fetched|, MaxLoadedPhotos);
      photos := fetched[..maxPhotos];
      currentPhotoIndex := 0;
    }

    /** moveToNextPhoto. */
    method MoveToNextPhoto()
      requires Valid()
      modifies this
      ensures Valid() && Model() == MoveToNext(old(Model()))
    {
      if |photos| == 0 {
        return;
      }
      if currentPhotoIndex < |photos| - 1 {
        currentPhotoIndex := currentPhotoIndex + 1;
      }
    }

    /** keepCurrentPhoto. */
    method KeepCurrentPhoto()
      requires Valid()
      modifies this
      ensures Valid() && Model() == KeepCurrent(old(Model()))
    {
      if currentPhotoIndex >= |photos| {
        return;
      }
      var photoId := photos[currentPhotoIndex].localIdentifier;
      if photoId == "" {
        return;
      }
      if |photosToKeep| >= MaxPhotosToKeep {
        return;
      }
      photosToDelete := photosToDelete - {photoId};
      photosToKeep := photosToKeep + {photoId};
      MoveToNextPhoto();
    }

    /** markPhotoForDeletion. */
    method MarkPhotoForDeletion()
      requires Valid()
      modifies this
      ensures Valid() && Model() == MarkCurrent(old(Model()))
    {
      if currentPhotoIndex >= |photos| {
        return;
      }
      var photoId := photos[currentPhotoIndex].localIdentifier;
      if photoId == "" {
        return;
      }
      if |photosToDelete| >= MaxPhotosInTrash {
        return;
      }
      photosToKeep := photosToKeep - {photoId};
      photosToDelete := photosToDelete + {photoId};
      MoveToNextPhoto();
    }

    /** clearTrash. */
    method ClearTrash()
      requires Valid()
      modifies this
      ensures Valid() && Model() == Triage.ClearTrash(old(Model()))
    {
      photosToDelete := {};
      photosToKeep := {};
    }

    /** The request half of deleteCurrentPhoto: the asset to hand to the
        library, or None when nothing is under the cursor. */
    method DeleteCurrentPhoto() returns (request: Option<Asset>)
      ensures request.Some? <==> currentPhotoIndex < |photos|
      ensures request.Some? ==> request.value == photos[currentPhotoIndex]
      ensures request == RequestDeleteCurrent(Model())
    {
      if currentPhotoIndex >= |photos| {
        return None;
      }
      request := Some(photos[currentPhotoIndex]);
    }

    /** The completion half of deleteCurrentPhoto, as written. `trapped`
        reports that `remove(at:)` was asked for an index past the end, which
        stops the program; the fields are then left as they were. */
    method DeleteCurrentPhotoCompleted(success: bool) returns (trapped: bool)
      requires Valid()
      modifies this
      ensures trapped <==> DeleteCurrentCompleted(old(Model()), success).None?
      ensures trapped ==> Model() == old(Model())
      ensures !trapped ==> Valid() && Model() == DeleteCurrentCompleted(old(Model()), success).value
    {
      trapped := false;
      if success {
        if currentPhotoIndex >= |photos| {
          return true;
        }
        photos := photos[..currentPhotoIndex] + photos[currentPhotoIndex + 1..];
        if currentPhotoIndex == |photos| {
          currentPhotoIndex := if |photos| == 0 then 0 else |photos| - 1;
        }
      }
    }

    /** The request half of deleteMarkedPhotos: the batch to hand to the
        library, or None when the bin is empty or access is not granted. */
    method DeleteMarkedPhotos(authorized: bool) returns (request: Option<seq<Asset>>)
      ensures request.Some? <==> photosToDelete != {} && authorized
      ensures request.Some? ==> request.value == InSet(photos, photosToDelete)
      ensures request == RequestDeleteMarked(Model(), authorized)
    {
      if photosToDelete == {} {
        return None;
      }
      var batch := InSet(photos, photosToDelete);
      if !authorized {
        return None;
      }
      request := Some(batch);
    }

    /** The completion half of deleteMarkedPhotos, run against the fields as
        they are when the library answers. */
    method DeleteMarkedPhotosCompleted(batch: seq<Asset>, success: bool)
      requires Valid()
      modifies this
      ensures Valid() && Model() == DeleteMarkedCompleted(old(Model()), batch, success)
    {
      if success {
        photos := Without(photos, batch);
        photosToDelete := {};
        photosToKeep := {};
        if currentPhotoIndex >= |photos| {
          currentPhotoIndex := if |photos| == 0 then 0 else |photos| - 1;
        }
      }
    }

    /** The request half of deleteSelectedPhotos. */
    method DeleteSelectedPhotos(selectedIds: set<string>, authorized: bool) returns (request: Option<SelectedBatch>)
      ensures request.Some? <==> selectedIds - {""} != {} && authorized
      ensures request.Some? ==> request.value == SelectedBatch(selectedIds - {""}, InSet(photos, selectedIds - {""}))
      ensures request == RequestDeleteSelected(Model(), selectedIds, authorized)
    {
      if selectedIds == {} {
        return None;
      }
      var validIds := set id | id in selectedIds && id != "";
      assert validIds == selectedIds - {""};
      if validIds == {} {
        return None;
      }
      var assets := InSet(photos, validIds);
      if !authorized {
        return None;
      }
      request := Some(SelectedBatch(validIds, assets));
    }

    /** The loop `for photoId in validIds { photosToDelete.remove(photoId) }`. */
    method RemoveFromBin(ids: set<string>)
      modifies this`photosToDelete
      ensures photosToDelete == old(photosToDelete) - ids
    {
      var remaining := ids;
      while remaining != {}
        invariant remaining <= ids
        invariant photosToDelete == old(photosToDelete) - (ids - remaining)
        decreases |remaining|
      {
        var photoId :| photoId in remaining;
        assert ids - (remaining - {photoId}) == (ids - remaining) + {photoId};
        photosToDelete := photosToDelete - {photoId};
        remaining := remaining - {photoId};
      }
    }

    /** The completion half of deleteSelectedPhotos; the bin loses the
        selected identifiers one at a time. */
    method DeleteSelectedPhotosCompleted(batch: SelectedBatch, success: bool)
      requires Valid()
      modifies this
      ensures Valid() && Model() == DeleteSelectedCompleted(old(Model()), batch, success)
    {
      if !success {
        return;
      }
      photos := Without(photos, batch.assets);
      RemoveFromBin(batch.validIds);
      assert photosToDelete == old(photosToDelete) - batch.validIds;
      ghost var cleared := old(Model()).(photos := photos, photosToDelete := photosToDelete);
      assert Model() == cleared;
      if currentPhotoIndex >= |photos| {
        currentPhotoIndex := if |photos| == 0 then 0 else |photos| - 1;
      }
      assert Model() == Clamp(cleared);
    }
  }
}
