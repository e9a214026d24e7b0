/** Limits of the triage session. The first two are Constants.Limits; the
    other two are written inline in PhotoManager (the fetch cap in
    loadPhotos, the identifier-length guard in getPhotoById). */
module Constants {
  /** Constants.Limits.maxPhotosInTrash: capacity of the bin. */
  const MaxPhotosInTrash: nat := 1000
  /** Constants.Limits.maxPhotosToKeep: capacity of the keep set. */
  const MaxPhotosToKeep: nat := 10000
  /** At most this many fetched assets are loaded. */
  const MaxLoadedPhotos: nat := 10000
  /** Longer identifiers are never resolved to a loaded asset. */
  const MaxIdLength: nat := 1000

  function Min(a: nat, b: nat): (m: nat)
    ensures m <= a && m <= b && (m == a || m == b)
  {
    if a <= b then a else b
  }
}
