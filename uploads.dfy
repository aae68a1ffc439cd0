/** The records that a single or a batch upload builds from what the image picker returned. */
module Uploads {
  import opened Text
  import opened Catalog

  /** The image picker's answer: canceled, or the picked assets' uris in pick order. */
  datatype PickerResult = Canceled | Picked(uris: seq<string>)

  /** The record a single upload builds: the caller's name and category, the uri for both images. */
  function UploadedWallpaper(name: string, category: string, uri: string, now: nat): (w: Wallpaper)
    ensures w.id == "local_" + NatToString(now)
    ensures w.name == name && w.category == category
    ensures w.imageUrl == uri && w.thumbnailUrl == uri
  {
    Wallpaper("local_" + NatToString(now), name, category, uri, uri)
  }

  /** The id of the batch's record at `index`; `stamp` is the clock reading taken while it is built. */
  function BatchId(stamp: nat, index: nat): string {
    "local_batch_" + NatToString(stamp) + "_" + NatToString(index)
  }

  /** `${category} ${index + 1}`: the batch's items are numbered from 1. */
  function BatchName(category: string, index: nat): string {
    category + " " + NatToString(index + 1)
  }

  /**
   * The records a batch upload builds, one per picked uri, in pick order; `clock(k)` is the clock
   * reading taken while the `k`-th record is built.
   */
  function BatchWallpapers(category: string, uris: seq<string>, clock: nat -> nat): (r: seq<Wallpaper>)
    ensures |r| == |uris|
    ensures forall k :: 0 <= k < |r| ==>
              && r[k].category == category
              && r[k].name == BatchName(category, k)
              && r[k].imageUrl == uris[k] && r[k].thumbnailUrl == uris[k]
              && r[k].id == BatchId(clock(k), k)
  {
    seq(|uris|, k requires 0 <= k < |uris| =>
      Wallpaper(BatchId(clock(k), k), BatchName(category, k), category, uris[k], uris[k]))
  }

  /** The records of one batch have pairwise different ids. */
  lemma BatchIdsDistinct(category: string, uris: seq<string>, clock: nat -> nat, i: nat, j: nat)
    requires i < j < |uris|
    ensures BatchWallpapers(category, uris, clock)[i].id != BatchWallpapers(category, uris, clock)[j].id
  {
    if BatchId(clock(i), i) == BatchId(clock(j), j) {
      TwoNumbersInjective("local_batch_", clock(i), i, clock(j), j);
    }
  }

  /** The records of one batch have pairwise different names. */
  lemma BatchNamesDistinct(category: string, uris: seq<string>, clock: nat -> nat, i: nat, j: nat)
    requires i < j < |uris|
    ensures BatchWallpapers(category, uris, clock)[i].name != BatchWallpapers(category, uris, clock)[j].name
  {
    var p := category + " ";
    assert BatchName(category, i) == p + NatToString(i + 1);
    assert BatchName(category, j) == p + NatToString(j + 1);
    if BatchName(category, i) == BatchName(category, j) {
      NumberedInjective(p, i + 1, j + 1);
    }
  }
}
