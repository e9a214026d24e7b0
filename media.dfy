/** Library assets as the triage session sees them, and the order-preserving
    filters the session applies to its list of loaded assets. */
module Media {
  import opened Constants

  datatype Option<T> = None | Some(value: T)

  /** A photo-library asset. Its identity for the session is the whole value;
      the session classifies assets by `localIdentifier`. The library fetch
      orders assets by `creationDate`, newest first. */
  datatype Asset = Asset(localIdentifier: string, creationDate: int)

  /** Newest first: the order of the library fetch. */
  predicate SortedByDate(s: seq<Asset>)
  {
    forall i, j :: 0 <= i < j < |s| ==> s[i].creationDate >= s[j].creationDate
  }

  /** The assets of `photos` whose identifier is in `ids`, in list order
      (`photos.filter { ids.contains($0.localIdentifier) }`). */
  function InSet(photos: seq<Asset>, ids: set<string>): (r: seq<Asset>)
    ensures |r| <= |photos|
    ensures forall a :: a in r <==> a in photos && a.localIdentifier in ids
    decreases |photos|
  {
    if photos == [] then []
    else if photos[0].localIdentifier in ids then [photos[0]] + InSet(photos[1..], ids)
    else InSet(photos[1..], ids)
  }

  /** The assets of `photos` whose identifier is not in `ids`, in list order. */
  function NotInSet(photos: seq<Asset>, ids: set<string>): (r: seq<Asset>)
    ensures |r| <= |photos|
    ensures forall a :: a in r <==> a in photos && a.localIdentifier !in ids
    decreases |photos|
  {
    if photos == [] then []
    else if photos[0].localIdentifier in ids then NotInSet(photos[1..], ids)
    else [photos[0]] + NotInSet(photos[1..], ids)
  }

  /** `photos` after `removeAll { doomed.contains($0) }`. */
  function Without(photos: seq<Asset>, doomed: seq<Asset>): (r: seq<Asset>)
    ensures |r| <= |photos|
    ensures forall a :: a in r <==> a in photos && a !in doomed
    decreases |photos|
  {
    if photos == [] then []
    else if photos[0] in doomed then Without(photos[1..], doomed)
    else [photos[0]] + Without(photos[1..], doomed)
  }

  /** Removing a batch from a concatenation removes it from each part. */
  lemma {:induction false} WithoutAppend(a: seq<Asset>, b: seq<Asset>, doomed: seq<Asset>)
    ensures Without(a + b, doomed) == Without(a, doomed) + Without(b, doomed)
    decreases |a|
  {
    if a == [] {
      assert a + b == b;
    } else {
      assert (a + b)[0] == a[0] && (a + b)[1..] == a[1..] + b;
      WithoutAppend(a[1..], b, doomed);
    }
  }

  /** Removing an asset that is not listed leaves the list as it was. */
  lemma {:induction false} WithoutAbsent(photos: seq<Asset>, d: Asset)
    requires d !in photos
    ensures Without(photos, [d]) == photos
    decreases |photos|
  {
    if photos != [] {
      assert photos[0] != d;
      WithoutAbsent(photos[1..], d);
      assert [photos[0]] + photos[1..] == photos;
    }
  }

  /** In a list with no asset twice, removing the asset at `i` is removing
      the entry at `i`. */
  lemma {:induction false} WithoutAtIndex(photos: seq<Asset>, i: nat)
    requires i < |photos|
    requires forall j, k :: 0 <= j < k < |photos| ==> photos[j] != photos[k]
    ensures photos[i] !in photos[..i]
    ensures Without(photos, [photos[i]]) == photos[..i] + photos[i + 1..]
  {
    var d := photos[i];
    var before, after := photos[..i], photos[i + 1..];
    assert photos == before + ([d] + after);
    assert d !in before by {
      forall k | 0 <= k < |before| ensures before[k] != d { assert before[k] == photos[k]; }
    }
    assert d !in after by {
      forall k | 0 <= k < |after| ensures after[k] != d { assert after[k] == photos[i + 1 + k]; }
    }
    WithoutAppend(before, [d] + after, [d]);
    WithoutAppend([d], after, [d]);
    assert Without([d], [d]) == [];
    WithoutAbsent(before, d);
    WithoutAbsent(after, d);
  }

  /** Every asset lands in exactly one of the two filters. */
  lemma {:induction false} InSetNotInSetPartition(photos: seq<Asset>, ids: set<string>)
    ensures |InSet(photos, ids)| + |NotInSet(photos, ids)| == |photos|
    decreases |photos|
  {
    if photos != [] {
      InSetNotInSetPartition(photos[1..], ids);
    }
  }

  /** Removing a snapshot that was taken by identifier from this very list
      is the same as dropping the identifiers. */
  lemma {:induction false} WithoutSnapshot(photos: seq<Asset>, doomed: seq<Asset>, ids: set<string>)
    requires forall a :: a in photos ==> (a in doomed <==> a.localIdentifier in ids)
    ensures Without(photos, doomed) == NotInSet(photos, ids)
    decreases |photos|
  {
    if photos != [] {
      WithoutSnapshot(photos[1..], doomed, ids);
    }
  }

  lemma SortedTail(s: seq<Asset>)
    requires SortedByDate(s) && s != []
    ensures SortedByDate(s[1..])
    ensures forall a :: a in s[1..] ==> s[0].creationDate >= a.creationDate
  {
    forall i, j | 0 <= i < j < |s[1..]| ensures s[1..][i].creationDate >= s[1..][j].creationDate {
      assert s[1..][i] == s[i + 1] && s[1..][j] == s[j + 1];
    }
    forall a | a in s[1..] ensures s[0].creationDate >= a.creationDate {
      var k :| 0 <= k < |s[1..]| && s[1..][k] == a;
      assert s[k + 1] == a;
    }
  }

  lemma SortedCons(x: Asset, rest: seq<Asset>)
    requires SortedByDate(rest)
    requires forall a :: a in rest ==> x.creationDate >= a.creationDate
    ensures SortedByDate([x] + rest)
  {
    var r := [x] + rest;
    forall i, j | 0 <= i < j < |r| ensures r[i].creationDate >= r[j].creationDate {
      assert r[j] == rest[j - 1] && r[j] in rest;
      if i > 0 {
        assert r[i] == rest[i - 1];
      }
    }
  }

  /** Removing assets keeps the newest-first order. */
  lemma {:induction false} WithoutSorted(photos: seq<Asset>, doomed: seq<Asset>)
    requires SortedByDate(photos)
    ensures SortedByDate(Without(photos, doomed))
    decreases |photos|
  {
    if photos != [] {
      SortedTail(photos);
      WithoutSorted(photos[1..], doomed);
      if photos[0] !in doomed {
        SortedCons(photos[0], Without(photos[1..], doomed));
      }
    }
  }
}
