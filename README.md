# Wallpaper catalog service — a Dafny model

This project models the catalog service of a mobile wallpaper browser (`services/wallpaperService.ts`)
and the bounded log buffer of its debug console (`components/DebugConsole.tsx`).

The service has one in-memory catalog of wallpaper records, the module-level `wallpapers` list. It
persists that catalog and a favorites id list under two keys of a key-value store. It offers:

- queries over the catalog: search, exact-category filter, lookup by id, sorted distinct categories;
- a load that falls back to the bundled defaults, and a save that replaces the whole list;
- three mutations that append: single upload, batch upload and JSON import;
- a favorites ledger with toggle and membership.

The model is a class, `Service.WallpaperService`. It holds the catalog as a `seq` field and the two
store entries as `Option` fields. The store entries are
`Blob<T> = Encoded(T) | EmptyText | Unparseable`: the JSON text is abstracted to the value it
decodes to. The queries are functions of the catalog, because the source writes them as
`filter`/`find`/`map`/`sort` expressions over it. Things the source gets from the platform come in
as method parameters:

- a store read or write succeeding: a `bool`;
- the permission answer: a `bool`;
- the picker outcome: `PickerResult` or `ImportPick`;
- the parsed import file: `Payload`, an array of `Element`s with optional string fields;
- `Date.now()`: a `nat` for the single upload. A batch upload reads the clock once per record.
  An import reads it once for each valid element that needs a generated id, because
  `item.id || ...` short-circuits. Both take a function `clock: nat -> nat`. `clock(k)` is the
  reading for the `k`-th record, and an import does not use it when that element has its own id.

Modules, one per concern: `Wrappers` (Option, Result), `Lists` (filter), `Text` (ASCII lower-casing,
`includes`, the default string sort order, decimal rendering), `Store`, `Catalog`, `Importer`,
`Uploads`, `Favorites`, `Service`, `DebugLog`.

The model follows the code as written:

- A single upload names the record with the caller's `name`. It does not derive a name from the
  file name (services/wallpaperService.ts:198).
- Batch records are named `"<category> <k>"`, counting k from 1 (services/wallpaperService.ts:245).
- `saveWallpapers` returns false on a failed write. It does not throw (services/wallpaperService.ts:156-158).
- A single upload whose pick is not canceled but holds no asset throws: `result.assets[0]` is undefined, so reading its `uri` fails (services/wallpaperService.ts:186-187). The model names this error `NoAsset`.
- Uploads and import ignore what the save returns. They report success even when the write failed,
  and in that case the catalog is unchanged (services/wallpaperService.ts:206, 253, 324).
- A read or parse failure during `initializeWallpapers` returns the defaults. It leaves the
  in-memory catalog as it was (services/wallpaperService.ts:143-146).
- Import de-duplicates only against the existing catalog. It does not de-duplicate within the batch
  (services/wallpaperService.ts:320-321).
- `WallpaperItem` has no `isLocal`/`localImage` fields (services/wallpaperService.ts:26-32), so the
  record has none.

## Model

| member | source | states |
|---|---|---|
| Lists.Filter | services/wallpaperService.ts:369-372 | the result is at most as long as the input and holds exactly the input elements satisfying the predicate |
| Lists.FilterAppend | services/wallpaperService.ts:369-372 | filtering distributes over concatenation, so results keep input order |
| Lists.FilterKeepsAll | services/wallpaperService.ts:369-372 | when every element passes, the filter returns its input unchanged |
| Lists.FilterSame | services/wallpaperService.ts:369-372 | predicates that agree on the input filter it identically |
| Text.Lower | services/wallpaperService.ts:368 | lower-casing keeps the length and maps each character through ASCII lower-casing |
| Text.LowerChar | services/wallpaperService.ts:368 | a capital becomes its own lower-case letter (code + 32), so the result is never an ASCII capital; non-capitals are unchanged |
| Text.Includes | services/wallpaperService.ts:370-371 | `includes` holds iff the substring occurs at some position |
| Text.IncludesEmpty | services/wallpaperService.ts:370-371 | the empty string is included in every string |
| Text.LessIrreflexive | services/wallpaperService.ts:266 | the sort order never puts a string before itself |
| Text.LessTransitive | services/wallpaperService.ts:266 | the sort order is transitive |
| Text.LessTotal | services/wallpaperService.ts:266 | any two different strings are ordered one way or the other |
| Text.Insert | services/wallpaperService.ts:265-266 | adding a string to a strictly ascending list keeps it strictly ascending and adds only that string |
| Text.StrictlySortedUnique | services/wallpaperService.ts:265-266 | two strictly ascending lists with the same elements are equal |
| Text.NatToString | services/wallpaperService.ts:244-245 | the rendering is a non-empty digit string whose base-ten value (`DecimalValue`) is n, with no leading zero, one digit exactly below 10 |
| Text.NatToStringInjective | services/wallpaperService.ts:244-245 | different numbers render differently |
| Text.TwoNumbersInjective | services/wallpaperService.ts:306 | a text `p<a>_<b>` determines both numbers, so the clock reading and the index are recovered from an id |
| Catalog.DefaultIds | services/wallpaperService.ts:41-126 | the default catalog `Defaults` has twelve records, the k-th with id `k + 1`, so no id repeats |
| Catalog.DefaultCategories | services/wallpaperService.ts:41-126 | the category list of the defaults is Aesthetic, Anime, Cyberpunk, Fantasy, Summer |
| Catalog.Ids | services/wallpaperService.ts:320 | the id set holds exactly the ids of the catalog's records |
| Catalog.Search | services/wallpaperService.ts:366-375 | the results are exactly the catalog records whose lower-cased name or category contains the lower-cased query |
| Catalog.SearchInOrder | services/wallpaperService.ts:369-372 | search results come in catalog order: results for a concatenation are the concatenated results |
| Catalog.SearchOne | services/wallpaperService.ts:369-372 | a single record is returned exactly when it matches |
| Catalog.SearchEmptyQuery | services/wallpaperService.ts:368-372 | the empty query returns the whole catalog |
| Catalog.SearchIgnoresCase | services/wallpaperService.ts:368-371 | a query and its lower-cased form give the same results |
| Catalog.ByCategory | services/wallpaperService.ts:388-393 | the results are exactly the catalog records whose category equals the argument |
| Catalog.ByCategoryInOrder | services/wallpaperService.ts:390 | category results come in catalog order, empty for the empty catalog |
| Catalog.ByCategoryOne | services/wallpaperService.ts:390 | a single record is returned exactly when its category is the argument |
| Catalog.CategoryIsCaseSensitive | services/wallpaperService.ts:366-393 | an "Anime" record is found by category "Anime" and by search "anime", but not by category "anime" |
| Catalog.FindById | services/wallpaperService.ts:377-386 | absent iff no record has the id; otherwise the record at the first index carrying the id |
| Catalog.Categories | services/wallpaperService.ts:264-267 | the list is strictly ascending (sorted, no duplicates) and its elements are exactly the catalog's categories |
| Catalog.CategoriesUnique | services/wallpaperService.ts:264-267 | any strictly ascending list of exactly the catalog's categories equals `Categories` |
| Catalog.CategoriesDistinct | services/wallpaperService.ts:265 | no category is listed twice |
| Store.Read | services/wallpaperService.ts:134-136 | reading a slot fails exactly on unparseable text; an absent or empty entry reads as the fallback |
| Importer.GeneratedIdInjective | services/wallpaperService.ts:306 | a generated id determines its clock reading and its position, so ids generated at different positions differ whatever the readings |
| Importer.AssignedId | services/wallpaperService.ts:306 | the assigned id is never empty; a non-empty own id is kept, otherwise `imported_<now>_<index>` |
| Importer.ValidElements | services/wallpaperService.ts:297-304 | exactly the elements that are objects with string name, category, imageUrl and thumbnailUrl |
| Importer.ToWallpaper | services/wallpaperService.ts:305-311 | the record carries the element's assigned id and its name, category, imageUrl and thumbnailUrl |
| Importer.Validated | services/wallpaperService.ts:297-311 | record k is valid element k with the id assigned at position k and clock reading k; one record per valid element, none with an empty id; empty iff no element is valid |
| Importer.ValidatedGeneratedIdsDistinct | services/wallpaperService.ts:305-306 | two records of one import whose ids were generated have different ids |
| Importer.ValidatedTimeIndependent | services/wallpaperService.ts:306 | when every valid element carries its own id, the clock readings do not affect the records |
| Importer.Merge | services/wallpaperService.ts:319-323 | the old catalog is an unchanged prefix; the appended part is the incoming records whose id the old catalog lacks, in incoming order and with their copies; afterwards every incoming id is present |
| Importer.MergeIdempotent | services/wallpaperService.ts:319-323 | merging the same records again adds nothing |
| Importer.MergeKeepsBatchDuplicates | services/wallpaperService.ts:320-321 | two incoming copies of a record with a new id are both appended |
| Importer.Imported | services/wallpaperService.ts:290-323 | a non-array payload fails with NotAnArray, no valid element fails with NoValidWallpapers; an array with a valid element succeeds with the old catalog merged with the validated records; success keeps the old catalog as prefix and adds the import's ids |
| Importer.ReimportAddsNothing | services/wallpaperService.ts:297-323 | re-importing a file whose valid elements carry ids leaves the catalog as the first import left it |
| Importer.OneValidOneInvalid | services/wallpaperService.ts:297-323 | one valid element beside one without a category adds exactly one record |
| Uploads.UploadedWallpaper | services/wallpaperService.ts:196-202 | the single-upload record has the id `local_<now>`, the caller's name and category and the picked uri as image and thumbnail |
| Uploads.BatchWallpapers | services/wallpaperService.ts:243-249 | one record per picked uri in pick order: id `local_batch_<clock(k)>_<k>`, the given category, name `"<category> <k+1>"`, the uri as image and thumbnail |
| Uploads.BatchIdsDistinct | services/wallpaperService.ts:244 | records of one batch have pairwise different ids, whatever the clock reads for each |
| Uploads.BatchNamesDistinct | services/wallpaperService.ts:245 | records of one batch have pairwise different names |
| Favorites.Ledger | services/wallpaperService.ts:398-399 | the favorites read fails exactly on unparseable text; an absent or empty entry is the empty list; an encoded list is that list |
| Favorites.Without | services/wallpaperService.ts:405 | removes every copy of the id and keeps every other id's membership |
| Favorites.Toggled | services/wallpaperService.ts:401-411 | afterwards the id is a member iff it was not; other ids keep their membership |
| Favorites.ToggleTwiceAbsent | services/wallpaperService.ts:401-411 | two toggles of a non-favorite give back the same list |
| Favorites.ToggleTwicePresent | services/wallpaperService.ts:401-411 | two toggles of a favorite keep every id's membership; the id moves to the end |
| Service.WallpaperService.constructor | services/wallpaperService.ts:129 | the catalog starts as the defaults |
| Service.WallpaperService.InitializeWallpapers | services/wallpaperService.ts:132-147 | a stored catalog replaces the in-memory one; an absent or empty entry resets it to the defaults; a read or parse failure returns the defaults and leaves the catalog untouched |
| Service.WallpaperService.SaveWallpapers | services/wallpaperService.ts:150-160 | returns whether the write succeeded; on success the entry encodes the list and the catalog equals it; on failure nothing changes |
| Service.WallpaperService.GetAllWallpapers | services/wallpaperService.ts:361-364 | returns the current catalog |
| Service.WallpaperService.AddWallpaperFromGallery | services/wallpaperService.ts:163-214 | denial throws PermissionDenied, a pick without an asset throws NoAsset, cancel returns null, all three without change; otherwise the record is returned, and appended when the write succeeds |
| Service.WallpaperService.AddMultipleWallpapersFromGallery | services/wallpaperService.ts:217-261 | denial throws PermissionDenied; cancel or an empty pick returns [] with no save; otherwise the batch records are returned, and appended in pick order in one save when the write succeeds |
| Service.WallpaperService.ImportWallpapersFromJson | services/wallpaperService.ts:270-332 | dismissal returns false; read, parse, format and empty-import errors throw without change; otherwise true is returned, and the merged catalog is saved when the write succeeds |
| Service.WallpaperService.ToggleFavorite | services/wallpaperService.ts:396-419 | returns the negation of prior membership; membership afterwards equals it; other ids unchanged; store errors throw without change |
| Service.WallpaperService.IsFavorite | services/wallpaperService.ts:421-430 | answers membership in the stored list; false on a read or parse error |
| Service.SaveThenInitialize | services/wallpaperService.ts:132-160 | saving a list and loading it back yields that list |
| Service.ToggleTwice | services/wallpaperService.ts:396-419 | two successful toggles in a row report opposite answers and restore every id's membership |
| DebugLog.LastN | components/DebugConsole.tsx:114-118 | the result is the suffix of length min(n, length) |
| DebugLog.LastNAppend | components/DebugConsole.tsx:114-118 | keeping the last n after each append equals keeping the last n of the whole history |
| DebugLog.LogBuffer.constructor | components/DebugConsole.tsx:97-99 | the buffer and the rendered list start empty |
| DebugLog.LogBuffer.AddLogEntry | components/DebugConsole.tsx:112-121 | the buffer becomes the last min(100, n+1) entries of old + [e], so e is last and the length is at most 100; the rendered list is a copy; the buffer stays the last 100 of its history |
| DebugLog.LogBuffer.ClearLogs | components/DebugConsole.tsx:139-142 | the buffer and the rendered list become empty |

## Left out

- `exportWallpapersToJson`, `saveToGallery` and `setAsWallpaper` (services/wallpaperService.ts:335-530) are left out. They are file-system writes, the share sheet, network downloads, the media library and Android intents: all platform calls.
- JSON parsing and stringifying are abstract. A stored entry is the value it decodes to, `EmptyText` or `Unparseable`. A stored catalog or favorites text that parses to a non-array value is not represented.
- Text.Lower: lower-cases ASCII letters only. JavaScript's `toLowerCase` also maps non-ASCII letters.
- Text.Less: compares strings by Unicode code point. `Array.prototype.sort` compares UTF-16 code units, and the two orders differ only for characters above U+FFFF.
- Importer.Element: a truthy `id` that is not a string (a number, `true`, an object) is read as `None`. The source keeps that non-string value as the record's id; the model replaces it with a generated id.
- A failed store write is assumed to leave the stored entry unchanged.
- Permission prompts, pickers, file reads and `Date.now()` are method parameters. The `logger` calls are left out.
- Async interleaving is not modelled: each exported function is one sequential step. So lost updates between concurrent toggles or imports are not modelled.
- Of the picker's assets a single upload uses the first uri (`result.assets[0]`); the remaining ones are not used, as in the source.
- The rest of `components/DebugConsole.tsx` is left out: console capture, the `setTimeout` deferrals, message formatting and rendering. React's asynchronous state update is modelled as an immediate copy into `shown`.
- The screens and components that call the service are not part of this model. This includes the trimmed, non-empty name and category checks and the default name "New Wallpaper".
