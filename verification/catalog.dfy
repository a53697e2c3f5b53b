/**
 * The release catalog filter of `geoip_until_date`: every release the
 * registry lists is kept when it was published at or after the date floor
 * and carries an asset with the configured file name; the kept entry holds
 * the download URL of the FIRST such asset and the release date.
 *
 * Dates are plain integers (for instance seconds since an epoch); the
 * registry's page order is kept, it is never sorted here.
 */
module Catalog {
  import opened Wrappers

  datatype Asset = Asset(name: string, url: string)

  datatype Release = Release(date: int, assets: seq<Asset>)

  /** One database snapshot that may be sampled: where to fetch it, and when it was published. */
  datatype Snapshot = Snapshot(url: string, date: int)

  /** Index of the first asset called `filename`, if any. */
  function FindAsset(assets: seq<Asset>, filename: string): (r: Option<nat>)
    ensures r.Some? ==> r.value < |assets| && assets[r.value].name == filename
    ensures r.Some? ==> forall j :: 0 <= j < r.value ==> assets[j].name != filename
    ensures r.None? <==> forall j :: 0 <= j < |assets| ==> assets[j].name != filename
  {
    if |assets| == 0 then None
    else if assets[0].name == filename then Some(0)
    else
      match FindAsset(assets[1..], filename)
      case None => None
      case Some(j) => Some(j + 1)
  }

  /** Whether `release` contributes an entry to the catalog. */
  predicate Kept(release: Release, floor: int, filename: string) {
    release.date >= floor && FindAsset(release.assets, filename).Some?
  }

  /** The entry a kept release contributes. */
  function EntryOf(release: Release, floor: int, filename: string): Snapshot
    requires Kept(release, floor, filename)
  {
    Snapshot(release.assets[FindAsset(release.assets, filename).value].url, release.date)
  }

  /**
   * The filter as the source runs it: skip a release older than the floor,
   * otherwise scan its assets and stop at the first one with the wanted name.
   */
  function CatalogFilter(releases: seq<Release>, floor: int, filename: string): (r: seq<Snapshot>)
    ensures |r| <= |releases|
    ensures forall k :: 0 <= k < |r| ==> r[k].date >= floor
  {
    if |releases| == 0 then []
    else
      var rel := releases[0];
      var head :=
        if rel.date < floor then []
        else match FindAsset(rel.assets, filename)
          case None => []
          case Some(i) => [Snapshot(rel.assets[i].url, rel.date)];
      head + CatalogFilter(releases[1..], floor, filename)
  }

  /**
   * The catalog is exactly the kept releases, in registry order, one entry
   * each: `picked` lists the indices of the releases the entries come from.
   */
  lemma {:induction false} CatalogFilterSpec(releases: seq<Release>, floor: int, filename: string)
    returns (picked: seq<nat>)
    ensures |picked| == |CatalogFilter(releases, floor, filename)|
    ensures forall k :: 0 <= k < |picked| ==>
      picked[k] < |releases| && Kept(releases[picked[k]], floor, filename) &&
      CatalogFilter(releases, floor, filename)[k] == EntryOf(releases[picked[k]], floor, filename)
    ensures forall k, l :: 0 <= k < l < |picked| ==> picked[k] < picked[l]
    ensures forall i :: 0 <= i < |releases| && Kept(releases[i], floor, filename) ==> i in picked
  {
    picked := KeptIndices(releases, floor, filename);
    KeptIndicesLength(releases, floor, filename);
    forall k | 0 <= k < |picked|
      ensures picked[k] < |releases| && Kept(releases[picked[k]], floor, filename)
      ensures CatalogFilter(releases, floor, filename)[k] == EntryOf(releases[picked[k]], floor, filename)
    {
      KeptIndexSound(releases, floor, filename, k);
    }
    KeptIndicesIncreasing(releases, floor, filename);
    KeptIndicesComplete(releases, floor, filename);
  }

  /** Indices of the kept releases, in order. */
  function KeptIndices(releases: seq<Release>, floor: int, filename: string): seq<nat>
  {
    if |releases| == 0 then []
    else (if Kept(releases[0], floor, filename) then [0] else []) + Shift(KeptIndices(releases[1..], floor, filename))
  }

  lemma {:induction false} KeptIndicesLength(releases: seq<Release>, floor: int, filename: string)
    ensures |KeptIndices(releases, floor, filename)| == |CatalogFilter(releases, floor, filename)|
  {
    if |releases| > 0 {
      KeptIndicesLength(releases[1..], floor, filename);
    }
  }

  /** The `k`-th kept index names a kept release, and the `k`-th entry is that release's. */
  lemma {:induction false} KeptIndexSound(releases: seq<Release>, floor: int, filename: string, k: nat)
    requires k < |KeptIndices(releases, floor, filename)|
    ensures var i := KeptIndices(releases, floor, filename)[k];
      && i < |releases| && Kept(releases[i], floor, filename)
      && k < |CatalogFilter(releases, floor, filename)|
      && CatalogFilter(releases, floor, filename)[k] == EntryOf(releases[i], floor, filename)
  {
    KeptIndicesLength(releases, floor, filename);
    FilterCons(releases, floor, filename);
    var h := if Kept(releases[0], floor, filename) then 1 else 0;
    if k >= h {
      var tail := KeptIndices(releases[1..], floor, filename);
      KeptIndexSound(releases[1..], floor, filename, k - h);
      assert KeptIndices(releases, floor, filename)[k] == tail[k - h] + 1;
      assert releases[tail[k - h] + 1] == releases[1..][tail[k - h]];
    }
  }

  /** One step of the filter and of the kept indices, side by side. */
  lemma FilterCons(releases: seq<Release>, floor: int, filename: string)
    requires |releases| > 0
    ensures Kept(releases[0], floor, filename) ==>
      && KeptIndices(releases, floor, filename) == [0] + Shift(KeptIndices(releases[1..], floor, filename))
      && CatalogFilter(releases, floor, filename)
         == [EntryOf(releases[0], floor, filename)] + CatalogFilter(releases[1..], floor, filename)
    ensures !Kept(releases[0], floor, filename) ==>
      && KeptIndices(releases, floor, filename) == Shift(KeptIndices(releases[1..], floor, filename))
      && CatalogFilter(releases, floor, filename) == CatalogFilter(releases[1..], floor, filename)
  {
    if !Kept(releases[0], floor, filename) {
      assert [] + Shift(KeptIndices(releases[1..], floor, filename)) == Shift(KeptIndices(releases[1..], floor, filename));
    }
  }

  lemma {:induction false} KeptIndicesIncreasing(releases: seq<Release>, floor: int, filename: string)
    ensures forall k, l :: 0 <= k < l < |KeptIndices(releases, floor, filename)| ==>
      KeptIndices(releases, floor, filename)[k] < KeptIndices(releases, floor, filename)[l]
  {
    if |releases| > 0 {
      KeptIndicesIncreasing(releases[1..], floor, filename);
    }
  }

  lemma {:induction false} KeptIndicesComplete(releases: seq<Release>, floor: int, filename: string)
    ensures forall i :: 0 <= i < |releases| && Kept(releases[i], floor, filename) ==>
      i in KeptIndices(releases, floor, filename)
  {
    if |releases| > 0 {
      KeptIndicesComplete(releases[1..], floor, filename);
      var tail := KeptIndices(releases[1..], floor, filename);
      var picked := KeptIndices(releases, floor, filename);
      var h := if Kept(releases[0], floor, filename) then 1 else 0;
      forall i | 0 <= i < |releases| && Kept(releases[i], floor, filename)
        ensures i in picked
      {
        if i > 0 {
          assert releases[1..][i - 1] == releases[i];
          var t :| 0 <= t < |tail| && tail[t] == i - 1;
          assert picked[h + t] == i;
        } else {
          assert picked[0] == 0;
        }
      }
    }
  }

  /** Every index moved one place to the right. */
  function Shift(indices: seq<nat>): seq<nat> {
    seq(|indices|, k requires 0 <= k < |indices| => indices[k] + 1)
  }

  /**
   * Filtering page by page and concatenating the results is the same as
   * filtering the concatenated listing, so the per-page loop of the source
   * may be modelled on the whole release list.
   */
  lemma {:induction false} CatalogFilterConcat(page: seq<Release>, rest: seq<Release>, floor: int, filename: string)
    ensures CatalogFilter(page + rest, floor, filename)
         == CatalogFilter(page, floor, filename) + CatalogFilter(rest, floor, filename)
  {
    if |page| == 0 {
      assert page + rest == rest;
    } else {
      assert (page + rest)[1..] == page[1..] + rest;
      CatalogFilterConcat(page[1..], rest, floor, filename);
    }
  }
}
