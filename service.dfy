/**
 * The wallpaper catalog service: the single in-memory catalog (`wallpapers`) and the two store
 * keys it persists to, with the operations that load, save, append to and query them.
 *
 * Everything `wallpaperService.ts` obtains from the platform is a parameter here: whether a store read or
 * write succeeds, whether the media-library permission is granted, what a picker returned and
 * the readings of `Date.now()`: one reading for a single upload, and `clock(k)` for the `k`-th
 * record of a batch, or for the `k`-th valid element of an import that needs a generated id.
 */
module Service {
  import opened Wrappers
  import opened Store
  import opened Catalog
  import opened Importer
  import opened Uploads
  import opened Favorites

  class WallpaperService {
    /** The in-memory catalog. */
    var catalog: seq<Wallpaper>
    /** The store entry under '@wallpaper_app/wallpapers'. */
    var catalogSlot: Option<Blob<seq<Wallpaper>>>
    /** The store entry under 'favorites'. */
    var favoritesSlot: Option<Blob<seq<string>>>

    /** Module load: the catalog starts as a copy of the defaults; the store holds what it holds. */
    constructor (storedCatalog: Option<Blob<seq<Wallpaper>>>, storedFavorites: Option<Blob<seq<string>>>)
      ensures catalog == Defaults
      ensures catalogSlot == storedCatalog && favoritesSlot == storedFavorites
    {
      catalog := Defaults;
      catalogSlot := storedCatalog;
      favoritesSlot := storedFavorites;
    }

    /**
     * `initializeWallpapers`: a stored catalog replaces the in-memory one, a missing (or empty)
     * entry resets it to the defaults; a failed read or unparseable text returns the defaults and
     * leaves the in-memory catalog as it was.
     */
    method InitializeWallpapers(readOk: bool) returns (r: seq<Wallpaper>)
      modifies this`catalog
      ensures readOk && catalogSlot.Some? && catalogSlot.value.Encoded? ==>
                catalog == catalogSlot.value.value && r == catalog
      ensures readOk && (catalogSlot.None? || catalogSlot.value.EmptyText?) ==>
                catalog == Defaults && r == Defaults
      ensures !readOk || catalogSlot == Some(Unparseable) ==>
                catalog == old(catalog) && r == Defaults
    {
      if !readOk {
        return Defaults;
      }
      var loaded := Read(catalogSlot, Defaults);
      if loaded.None? {
        return Defaults;
      }
      catalog := loaded.value;
      r := catalog;
    }

    /**
     * `saveWallpapers`: a successful write stores the list and makes it the catalog; a failed
     * write reports false and changes nothing.
     */
    method SaveWallpapers(list: seq<Wallpaper>, writeOk: bool) returns (ok: bool)
      modifies this`catalog, this`catalogSlot
      ensures ok == writeOk
      ensures ok ==> catalogSlot == Some(Encoded(list)) && catalog == list
      ensures !ok ==> catalogSlot == old(catalogSlot) && catalog == old(catalog)
    {
      if !writeOk {
        return false;
      }
      catalogSlot := Some(Encoded(list));
      catalog := list;
      ok := true;
    }

    /** `getAllWallpapers`: the in-memory catalog itself. */
    method GetAllWallpapers() returns (r: seq<Wallpaper>)
      ensures r == catalog
    {
      r := catalog;
    }

    /**
     * `addWallpaperFromGallery`: permission denied and an empty pick throw, a canceled pick
     * returns no record; otherwise one record is built and the appended catalog is saved, with
     * the save's outcome ignored.
     */
    method AddWallpaperFromGallery(name: string, category: string, permitted: bool,
                                   pick: PickerResult, now: nat, writeOk: bool)
      returns (r: Result<Option<Wallpaper>, Failure>)
      modifies this`catalog, this`catalogSlot
      ensures !permitted ==> r == Failure(PermissionDenied)
      ensures permitted && pick.Canceled? ==> r == Success(None)
      ensures permitted && pick.Picked? && pick.uris == [] ==> r == Failure(NoAsset)
      ensures r.Failure? || r == Success(None) ==>
                catalog == old(catalog) && catalogSlot == old(catalogSlot)
      ensures permitted && pick.Picked? && pick.uris != [] ==>
                var w := UploadedWallpaper(name, category, pick.uris[0], now);
                && r == Success(Some(w))
                && (writeOk ==> catalog == old(catalog) + [w] && catalogSlot == Some(Encoded(catalog)))
                && (!writeOk ==> catalog == old(catalog) && catalogSlot == old(catalogSlot))
    {
      if !permitted {
        return Failure(PermissionDenied);
      }
      match pick
      case Canceled =>
        r := Success(None);
      case Picked(uris) =>
        if uris == [] {
          return Failure(NoAsset);
        }
        var w := UploadedWallpaper(name, category, uris[0], now);
        var updated := catalog + [w];
        var _ := SaveWallpapers(updated, writeOk);
        r := Success(Some(w));
    }

    /**
     * `addMultipleWallpapersFromGallery`: permission denied throws; a canceled or empty pick
     * returns no records and saves nothing; otherwise one record per picked uri is appended in
     * pick order in a single save, whose outcome is ignored.
     */
    method AddMultipleWallpapersFromGallery(category: string, permitted: bool,
                                            pick: PickerResult, clock: nat -> nat, writeOk: bool)
      returns (r: Result<seq<Wallpaper>, Failure>)
      modifies this`catalog, this`catalogSlot
      ensures !permitted ==> r == Failure(PermissionDenied)
      ensures permitted && (pick.Canceled? || pick.uris == []) ==> r == Success([])
      ensures r.Failure? || r == Success([]) ==>
                catalog == old(catalog) && catalogSlot == old(catalogSlot)
      ensures permitted && pick.Picked? && pick.uris != [] ==>
                var added := BatchWallpapers(category, pick.uris, clock);
                && r == Success(added)
                && (writeOk ==> catalog == old(catalog) + added && catalogSlot == Some(Encoded(catalog)))
                && (!writeOk ==> catalog == old(catalog) && catalogSlot == old(catalogSlot))
    {
      if !permitted {
        return Failure(PermissionDenied);
      }
      if pick.Canceled? || pick.uris == [] {
        return Success([]);
      }
      var added := BatchWallpapers(category, pick.uris, clock);
      var updated := catalog + added;
      var _ := SaveWallpapers(updated, writeOk);
      r := Success(added);
    }

    /**
     * `importWallpapersFromJson`: a dismissed picker returns false; an unreadable file, text that
     * is not JSON, a non-array payload and a payload without a valid element throw; otherwise the
     * merged catalog is saved, with the save's outcome ignored, and true is returned.
     */
    method ImportWallpapersFromJson(pick: ImportPick, clock: nat -> nat, writeOk: bool)
      returns (r: Result<bool, Failure>)
      modifies this`catalog, this`catalogSlot
      ensures pick.Dismissed? ==> r == Success(false)
      ensures pick.Unreadable? ==> r == Failure(FileUnreadable)
      ensures pick.Malformed? ==> r == Failure(InvalidJson)
      ensures pick.Parsed? && Imported(old(catalog), pick.payload, clock).Failure? ==>
                r == Failure(Imported(old(catalog), pick.payload, clock).error)
      ensures pick.Parsed? && Imported(old(catalog), pick.payload, clock).Success? ==>
                && r == Success(true)
                && (writeOk ==> catalog == Imported(old(catalog), pick.payload, clock).value &&
                                catalogSlot == Some(Encoded(catalog)))
      ensures r != Success(true) || !writeOk ==>
                catalog == old(catalog) && catalogSlot == old(catalogSlot)
    {
      match pick
      case Dismissed =>
        r := Success(false);
      case Unreadable =>
        r := Failure(FileUnreadable);
      case Malformed =>
        r := Failure(InvalidJson);
      case Parsed(payload) =>
        var merged := Imported(catalog, payload, clock);
        if merged.Failure? {
          return Failure(merged.error);
        }
        var _ := SaveWallpapers(merged.value, writeOk);
        r := Success(true);
    }

    /**
     * `toggleFavorite`: a failed read, unparseable text or a failed write throws and changes
     * nothing; otherwise the toggled list is written back and the new membership returned.
     */
    method ToggleFavorite(id: string, readOk: bool, writeOk: bool) returns (r: Result<bool, Failure>)
      modifies this`favoritesSlot
      ensures !readOk ==> r == Failure(StoreReadFailed)
      ensures readOk && Ledger(old(favoritesSlot)).None? ==> r == Failure(StoredValueInvalid)
      ensures readOk && Ledger(old(favoritesSlot)).Some? && !writeOk ==> r == Failure(StoreWriteFailed)
      ensures r.Failure? ==> favoritesSlot == old(favoritesSlot)
      ensures readOk && writeOk && Ledger(old(favoritesSlot)).Some? ==>
                var before := Ledger(old(favoritesSlot)).value;
                && r == Success(id !in before)
                && favoritesSlot == Some(Encoded(Toggled(before, id)))
      ensures r.Success? ==> r.value == !IsFavoriteIn(old(favoritesSlot), id)
      ensures r.Success? ==> IsFavoriteIn(favoritesSlot, id) == r.value
      ensures r.Success? ==> forall x :: x != id ==>
                IsFavoriteIn(favoritesSlot, x) == IsFavoriteIn(old(favoritesSlot), x)
    {
      if !readOk {
        return Failure(StoreReadFailed);
      }
      var stored := Ledger(favoritesSlot);
      if stored.None? {
        return Failure(StoredValueInvalid);
      }
      var favorites := stored.value;
      var isCurrentlyFavorite := id in favorites;
      if isCurrentlyFavorite {
        favorites := Without(favorites, id);
      } else {
        favorites := favorites + [id];
      }
      if !writeOk {
        return Failure(StoreWriteFailed);
      }
      favoritesSlot := Some(Encoded(favorites));
      r := Success(!isCurrentlyFavorite);
    }

    /** `isFavorite`: membership in the stored list; false when the read or the parse fails. */
    method IsFavorite(id: string, readOk: bool) returns (b: bool)
      ensures b <==> readOk && Ledger(favoritesSlot).Some? && id in Ledger(favoritesSlot).value
    {
      if !readOk {
        return false;
      }
      var stored := Ledger(favoritesSlot);
      if stored.None? {
        return false;
      }
      b := id in stored.value;
    }
  }

  /** Saving a list and loading it back yields that list (the persist/read round trip). */
  method SaveThenInitialize(s: WallpaperService, list: seq<Wallpaper>) returns (loaded: seq<Wallpaper>)
    modifies s
    ensures loaded == list && s.catalog == list
  {
    var ok := s.SaveWallpapers(list, true);
    loaded := s.InitializeWallpapers(true);
  }

  /** Two toggles of one id in a row report opposite answers and restore its membership. */
  method ToggleTwice(s: WallpaperService, id: string) returns (first: Result<bool, Failure>, second: Result<bool, Failure>)
    modifies s
    ensures first.Success? && second.Success? ==> second.value == !first.value
    ensures first.Success? && second.Success? ==>
              forall x :: IsFavoriteIn(s.favoritesSlot, x) == IsFavoriteIn(old(s.favoritesSlot), x)
  {
    first := s.ToggleFavorite(id, true, true);
    second := s.ToggleFavorite(id, true, true);
  }
}
