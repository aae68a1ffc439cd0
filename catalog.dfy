/**
 * The catalog's records and the read-only queries over the in-memory list: search, exact
 * category filter, first match by id, and the sorted list of distinct categories. It also
 * declares `Failure`, the errors that the service's operations throw.
 */
module Catalog {
  import opened Wrappers
  import opened Lists
  import opened Text

  /** One catalog record (`WallpaperItem`). */
  datatype Wallpaper = Wallpaper(
    id: string,
    name: string,
    category: string,
    imageUrl: string,
    thumbnailUrl: string)

  /** The errors the service's operations throw, one per distinct failure `wallpaperService.ts` raises. */
  datatype Failure =
    | PermissionDenied    // media-library permission not granted
    | NoAsset             // a pick that was not canceled but holds no asset
    | FileUnreadable      // the chosen import file could not be read
    | InvalidJson         // the import file's text is not JSON
    | NotAnArray          // the parsed import payload is not an array
    | NoValidWallpapers   // no element of the import array passed validation
    | StoreReadFailed     // the key-value store's read threw
    | StoreWriteFailed    // the key-value store's write threw
    | StoredValueInvalid  // a stored blob is not JSON

  /** The bundled default catalog, in its declared order. */
  const Defaults: seq<Wallpaper> :=
    [
      Wallpaper("1", "Demon Slayer", "Anime",
        "https://images.pexels.com/photos/7809123/pexels-photo-7809123.jpeg",
        "https://images.pexels.com/photos/7809123/pexels-photo-7809123.jpeg?auto=compress&cs=tinysrgb&w=400"),
      Wallpaper("2", "One Piece", "Anime",
        "https://images.pexels.com/photos/5490778/pexels-photo-5490778.jpeg",
        "https://images.pexels.com/photos/5490778/pexels-photo-5490778.jpeg?auto=compress&cs=tinysrgb&w=400"),
      Wallpaper("3", "Anime Girl", "Aesthetic",
        "https://images.pexels.com/photos/5011647/pexels-photo-5011647.jpeg",
        "https://images.pexels.com/photos/5011647/pexels-photo-5011647.jpeg?auto=compress&cs=tinysrgb&w=400"),
      Wallpaper("4", "Night Cityscape", "Aesthetic",
        "https://images.pexels.com/photos/1252890/pexels-photo-1252890.jpeg",
        "https://images.pexels.com/photos/1252890/pexels-photo-1252890.jpeg?auto=compress&cs=tinysrgb&w=400"),
      Wallpaper("5", "Studio Ghibli", "Anime",
        "https://images.pexels.com/photos/1714208/pexels-photo-1714208.jpeg",
        "https://images.pexels.com/photos/1714208/pexels-photo-1714208.jpeg?auto=compress&cs=tinysrgb&w=400"),
      Wallpaper("6", "Neo Tokyo", "Cyberpunk",
        "https://images.pexels.com/photos/2129796/pexels-photo-2129796.png",
        "https://images.pexels.com/photos/2129796/pexels-photo-2129796.png?auto=compress&cs=tinysrgb&w=400"),
      Wallpaper("7", "Sakura Season", "Anime",
        "https://images.pexels.com/photos/1287075/pexels-photo-1287075.jpeg",
        "https://images.pexels.com/photos/1287075/pexels-photo-1287075.jpeg?auto=compress&cs=tinysrgb&w=400"),
      Wallpaper("8", "Neon Anime", "Cyberpunk",
        "https://images.pexels.com/photos/924824/pexels-photo-924824.jpeg",
        "https://images.pexels.com/photos/924824/pexels-photo-924824.jpeg?auto=compress&cs=tinysrgb&w=400"),
      Wallpaper("9", "Anime Beach", "Summer",
        "https://images.pexels.com/photos/1032650/pexels-photo-1032650.jpeg",
        "https://images.pexels.com/photos/1032650/pexels-photo-1032650.jpeg?auto=compress&cs=tinysrgb&w=400"),
      Wallpaper("10", "Fantasy Aurora", "Fantasy",
        "https://images.pexels.com/photos/1693095/pexels-photo-1693095.jpeg",
        "https://images.pexels.com/photos/1693095/pexels-photo-1693095.jpeg?auto=compress&cs=tinysrgb&w=400"),
      Wallpaper("11", "Attack on Titan", "Anime",
        "https://images.pexels.com/photos/3493777/pexels-photo-3493777.jpeg",
        "https://images.pexels.com/photos/3493777/pexels-photo-3493777.jpeg?auto=compress&cs=tinysrgb&w=400"),
      Wallpaper("12", "Naruto", "Anime",
        "https://images.pexels.com/photos/6507483/pexels-photo-6507483.jpeg",
        "https://images.pexels.com/photos/6507483/pexels-photo-6507483.jpeg?auto=compress&cs=tinysrgb&w=400")
    ]

  /** The ids present in a catalog (`new Set(wallpapers.map(w => w.id))`). */
  function Ids(catalog: seq<Wallpaper>): (r: set<string>)
    ensures forall id :: id in r <==> exists w :: w in catalog && w.id == id
  {
    set w | w in catalog :: w.id
  }

  // ---------------------------------------------------------------------------------------
  // searchWallpapers

  /** The record's lower-cased name or category contains the lower-cased query. */
  predicate Matches(w: Wallpaper, query: string) {
    Includes(Lower(w.name), Lower(query)) || Includes(Lower(w.category), Lower(query))
  }

  function Search(catalog: seq<Wallpaper>, query: string): (r: seq<Wallpaper>)
    ensures forall w :: w in r <==> w in catalog && Matches(w, query)
  {
    Filter(catalog, w => Matches(w, query))
  }

  /** Search keeps catalog order: the results for a concatenation are the results for each part. */
  lemma SearchInOrder(a: seq<Wallpaper>, b: seq<Wallpaper>, query: string)
    ensures Search(a + b, query) == Search(a, query) + Search(b, query)
    ensures Search([], query) == []
  {
    FilterAppend(a, b, w => Matches(w, query));
  }

  /** A single record is returned exactly when its name or category contains the query. */
  lemma SearchOne(w: Wallpaper, query: string)
    ensures Search([w], query) == if Matches(w, query) then [w] else []
  {
    FilterSingleton(w, w => Matches(w, query));
  }

  /** The empty query returns the whole catalog. */
  lemma SearchEmptyQuery(catalog: seq<Wallpaper>)
    ensures Search(catalog, "") == catalog
  {
    forall w | w in catalog ensures Matches(w, "") {
      IncludesEmpty(Lower(w.name));
    }
    FilterKeepsAll(catalog, w => Matches(w, ""));
  }

  /** The query's letter case does not matter. */
  lemma SearchIgnoresCase(catalog: seq<Wallpaper>, query: string)
    ensures Search(catalog, query) == Search(catalog, Lower(query))
  {
    LowerIdempotent(query);
    FilterSame(catalog, w => Matches(w, query), w => Matches(w, Lower(query)));
  }

  // ---------------------------------------------------------------------------------------
  // getWallpapersByCategory

  function ByCategory(catalog: seq<Wallpaper>, category: string): (r: seq<Wallpaper>)
    ensures forall w :: w in r <==> w in catalog && w.category == category
  {
    Filter(catalog, (w: Wallpaper) => w.category == category)
  }

  /** The category filter keeps catalog order. */
  lemma ByCategoryInOrder(a: seq<Wallpaper>, b: seq<Wallpaper>, category: string)
    ensures ByCategory(a + b, category) == ByCategory(a, category) + ByCategory(b, category)
    ensures ByCategory([], category) == []
  {
    FilterAppend(a, b, (w: Wallpaper) => w.category == category);
  }

  /** A single record is returned exactly when its category is the argument. */
  lemma ByCategoryOne(w: Wallpaper, category: string)
    ensures ByCategory([w], category) == if w.category == category then [w] else []
  {
    FilterSingleton(w, (w: Wallpaper) => w.category == category);
  }

  /**
   * The category filter is exact while search ignores case: a record in "Anime" is found by
   * `ByCategory(_, "Anime")` and by `Search(_, "anime")` but not by `ByCategory(_, "anime")`.
   */
  lemma CategoryIsCaseSensitive(w: Wallpaper)
    requires w.category == "Anime"
    ensures ByCategory([w], "Anime") == [w]
    ensures ByCategory([w], "anime") == []
    ensures Search([w], "anime") == [w]
  {
    ByCategoryOne(w, "Anime");
    ByCategoryOne(w, "anime");
    assert Lower("Anime") == "anime";
    assert OccursAt(Lower(w.category), Lower("anime"), 0);
    SearchOne(w, "anime");
  }

  // ---------------------------------------------------------------------------------------
  // getWallpaperById

  /** `wallpapers.find(w => w.id === id)`: the first record carrying `id`, if any. */
  function FindById(catalog: seq<Wallpaper>, id: string): (r: Option<Wallpaper>)
    ensures r.None? <==> forall w :: w in catalog ==> w.id != id
    ensures r.Some? ==> exists i :: 0 <= i < |catalog| && catalog[i] == r.value && r.value.id == id &&
                                  forall j :: 0 <= j < i ==> catalog[j].id != id
  {
    if catalog == [] then
      None
    else if catalog[0].id == id then
      Some(catalog[0])
    else
      var r := FindById(catalog[1..], id);
      assert r.Some? ==> exists i :: 0 < i < |catalog| && catalog[i] == r.value && r.value.id == id &&
                                    forall j :: 0 <= j < i ==> catalog[j].id != id by {
        if r.Some? {
          var i :| 0 <= i < |catalog[1..]| && catalog[1..][i] == r.value && r.value.id == id &&
                   forall j :: 0 <= j < i ==> catalog[1..][j].id != id;
          assert forall j :: 0 < j < i + 1 ==> catalog[j] == catalog[1..][j - 1];
          assert catalog[i + 1] == r.value;
        }
      }
      r
  }

  // ---------------------------------------------------------------------------------------
  // getAllCategories

  /** `Array.from(new Set(wallpapers.map(w => w.category))).sort()`. */
  function Categories(catalog: seq<Wallpaper>): (r: seq<string>)
    ensures StrictlySorted(r)
    ensures forall c :: c in r <==> exists w :: w in catalog && w.category == c
  {
    if catalog == [] then
      []
    else
      var rest := Categories(catalog[1..]);
      assert forall w :: w in catalog <==> w == catalog[0] || w in catalog[1..];
      Insert(rest, catalog[0].category)
  }

  /** Any strictly sorted list of exactly the catalog's categories is `Categories(catalog)`. */
  lemma CategoriesUnique(catalog: seq<Wallpaper>, s: seq<string>)
    requires StrictlySorted(s)
    requires forall c :: c in s <==> exists w :: w in catalog && w.category == c
    ensures s == Categories(catalog)
  {
    StrictlySortedUnique(s, Categories(catalog));
  }

  /** No category is listed twice. */
  lemma CategoriesDistinct(catalog: seq<Wallpaper>, i: nat, j: nat)
    requires i < j < |Categories(catalog)|
    ensures Categories(catalog)[i] != Categories(catalog)[j]
  {
    StrictlySortedDistinct(Categories(catalog), i, j);
  }

  // ---------------------------------------------------------------------------------------
  // The bundled defaults

  /** The first nine default records have the one-digit ids "1" to "9". */
  lemma DefaultIdOneDigit(k: nat)
    requires k < 9
    ensures Defaults[k].id == NatToString(k + 1)
  {
    assert Defaults[k].id == [Digit(k + 1)];
  }

  /** The last three default records have the two-digit ids "10" to "12". */
  lemma DefaultIdTwoDigits()
    ensures Defaults[9].id == NatToString(10)
    ensures Defaults[10].id == NatToString(11)
    ensures Defaults[11].id == NatToString(12)
  {
    assert NatToString(1) == ['1'] && Digit(0) == '0' && Digit(1) == '1' && Digit(2) == '2';
    assert NatToString(10) == NatToString(1) + [Digit(0)] == "10";
    assert NatToString(11) == NatToString(1) + [Digit(1)] == "11";
    assert NatToString(12) == NatToString(1) + [Digit(2)] == "12";
  }

  /** The twelve default records carry the ids "1" to "12", in order, so no id repeats. */
  lemma DefaultIds()
    ensures |Defaults| == 12
    ensures forall k :: 0 <= k < |Defaults| ==> Defaults[k].id == NatToString(k + 1)
    ensures forall i, j :: 0 <= i < j < |Defaults| ==> Defaults[i].id != Defaults[j].id
  {
    DefaultIdTwoDigits();
    forall k | 0 <= k < 9 ensures Defaults[k].id == NatToString(k + 1) {
      DefaultIdOneDigit(k);
    }
  }

  /** The category of every default record is one of the five the defaults use. */
  lemma DefaultCategory(k: nat)
    requires k < |Defaults|
    ensures Defaults[k].category in ["Aesthetic", "Anime", "Cyberpunk", "Fantasy", "Summer"]
  {
  }

  /** The default catalog's categories, as the category list shows them. */
  lemma DefaultCategories()
    ensures Categories(Defaults) == ["Aesthetic", "Anime", "Cyberpunk", "Fantasy", "Summer"]
  {
    var cats := ["Aesthetic", "Anime", "Cyberpunk", "Fantasy", "Summer"];
    assert Less(cats[0], cats[1]) && Less(cats[1], cats[2]) && Less(cats[2], cats[3]) && Less(cats[3], cats[4]);
    forall i, j | 0 <= i < j < |cats| ensures Less(cats[i], cats[j]) {
      LessChain(cats, i, j);
    }
    forall c | c in cats ensures exists w :: w in Defaults && w.category == c {
      if c == cats[0] { assert Defaults[2] in Defaults; }
      else if c == cats[1] { assert Defaults[0] in Defaults; }
      else if c == cats[2] { assert Defaults[5] in Defaults; }
      else if c == cats[3] { assert Defaults[9] in Defaults; }
      else { assert Defaults[8] in Defaults; }
    }
    forall c | exists w :: w in Defaults && w.category == c ensures c in cats {
      var w :| w in Defaults && w.category == c;
      var k :| 0 <= k < |Defaults| && Defaults[k] == w;
      DefaultCategory(k);
    }
    CategoriesUnique(Defaults, cats);
  }
}
