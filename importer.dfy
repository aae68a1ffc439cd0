/**
 * The validation and merge steps of the JSON import: which elements of the parsed array become
 * records, which ids they get, and how they join the catalog.
 */
module Importer {
  import opened Wrappers
  import opened Lists
  import opened Text
  import opened Catalog

  /**
   * One element of the parsed array. A field is `None` when the element has no such property or
   * its value is not a string; for `id`, `None` also covers every falsy value.
   */
  datatype Element =
    | Object(
        id: Option<string>,
        name: Option<string>,
        category: Option<string>,
        imageUrl: Option<string>,
        thumbnailUrl: Option<string>)
    | NotObject

  /** The parsed file: an array of elements, or any other JSON value. */
  datatype Payload = Array(elements: seq<Element>) | NotArray

  /** The outcome of picking and reading the import file. */
  datatype ImportPick = Dismissed | Unreadable | Malformed | Parsed(payload: Payload)

  /** An element survives validation when it is an object with the four string fields. */
  predicate IsValid(e: Element) {
    e.Object? && e.name.Some? && e.category.Some? && e.imageUrl.Some? && e.thumbnailUrl.Some?
  }

  /**
   * The id given to the element at `index` of the valid list when it has none of its own;
   * `stamp` is the clock reading taken while that element is mapped.
   */
  function GeneratedId(stamp: nat, index: nat): string {
    "imported_" + NatToString(stamp) + "_" + NatToString(index)
  }

  /** A generated id determines both its clock reading and its position. */
  lemma GeneratedIdInjective(s1: nat, a: nat, s2: nat, b: nat)
    requires GeneratedId(s1, a) == GeneratedId(s2, b)
    ensures s1 == s2 && a == b
  {
    TwoNumbersInjective("imported_", s1, a, s2, b);
  }

  /** The element brings an id of its own: a non-empty string. */
  predicate HasOwnId(e: Element) {
    e.Object? && e.id.Some? && e.id.value != ""
  }

  /** `item.id || generated`: a non-empty string id is kept, anything else is replaced. */
  function AssignedId(e: Element, stamp: nat, index: nat): (id: string)
    requires e.Object?
    ensures id != ""
    ensures HasOwnId(e) ==> id == e.id.value
    ensures !HasOwnId(e) ==> id == GeneratedId(stamp, index)
  {
    if HasOwnId(e) then e.id.value else GeneratedId(stamp, index)
  }

  /** The record a valid element becomes: its assigned id and its four string fields. */
  function ToWallpaper(e: Element, stamp: nat, index: nat): (w: Wallpaper)
    requires IsValid(e)
    ensures w.id == AssignedId(e, stamp, index) && w.id != ""
    ensures w.name == e.name.value && w.category == e.category.value
    ensures w.imageUrl == e.imageUrl.value && w.thumbnailUrl == e.thumbnailUrl.value
  {
    Wallpaper(AssignedId(e, stamp, index), e.name.value, e.category.value,
              e.imageUrl.value, e.thumbnailUrl.value)
  }

  /** The elements that pass validation, in array order. */
  function ValidElements(elements: seq<Element>): (r: seq<Element>)
    ensures forall e :: e in r <==> e in elements && IsValid(e)
  {
    Filter(elements, IsValid)
  }

  /**
   * The validated records: the valid elements in order, each carrying its own fields and the id
   * `AssignedId` gives it at its position in the valid list. `clock(k)` is the clock reading
   * taken, if any, while the `k`-th valid element is mapped: `item.id || ...` reads the clock only
   * for an element without an id of its own.
   */
  function Validated(elements: seq<Element>, clock: nat -> nat): (r: seq<Wallpaper>)
    ensures |r| == |ValidElements(elements)|
    ensures forall k :: 0 <= k < |r| ==> r[k] == ToWallpaper(ValidElements(elements)[k], clock(k), k)
    ensures |r| == 0 <==> forall e :: e in elements ==> !IsValid(e)
    ensures forall w :: w in r ==> w.id != ""
  {
    var valid := ValidElements(elements);
    var r := seq(|valid|, k requires 0 <= k < |valid| => ToWallpaper(valid[k], clock(k), k));
    assert |valid| > 0 ==> valid[0] in valid;
    r
  }

  /** Two ids generated in one import never coincide. */
  lemma ValidatedGeneratedIdsDistinct(elements: seq<Element>, clock: nat -> nat, i: nat, j: nat)
    requires i < j < |Validated(elements, clock)|
    requires !HasOwnId(ValidElements(elements)[i]) && !HasOwnId(ValidElements(elements)[j])
    ensures Validated(elements, clock)[i].id != Validated(elements, clock)[j].id
  {
    if Validated(elements, clock)[i].id == Validated(elements, clock)[j].id {
      GeneratedIdInjective(clock(i), i, clock(j), j);
    }
  }

  /** Every valid element carries a non-empty id of its own. */
  ghost predicate AllCarryIds(elements: seq<Element>) {
    forall e :: e in elements && IsValid(e) ==> HasOwnId(e)
  }

  /** When every valid element carries its id, the clock readings do not matter. */
  lemma ValidatedTimeIndependent(elements: seq<Element>, c1: nat -> nat, c2: nat -> nat)
    requires AllCarryIds(elements)
    ensures Validated(elements, c1) == Validated(elements, c2)
  {
    var valid := ValidElements(elements);
    assert forall k :: 0 <= k < |valid| ==> valid[k] in valid;
  }

  // ---------------------------------------------------------------------------------------
  // The merge: drop what the catalog already has by id, append the rest.

  function Merge(catalog: seq<Wallpaper>, incoming: seq<Wallpaper>): (r: seq<Wallpaper>)
    ensures |catalog| <= |r| <= |catalog| + |incoming|
    ensures r[..|catalog|] == catalog
    ensures r[|catalog|..] == Filter(incoming, (w: Wallpaper) => w.id !in Ids(catalog))
    ensures forall w :: w in r[|catalog|..] <==> w in incoming && w.id !in Ids(catalog)
    ensures Ids(r) == Ids(catalog) + Ids(incoming)
  {
    var added := Filter(incoming, (w: Wallpaper) => w.id !in Ids(catalog));
    var r := catalog + added;
    assert r[..|catalog|] == catalog && r[|catalog|..] == added;
    assert Ids(r) == Ids(catalog) + Ids(incoming) by {
      forall id | id in Ids(incoming) ensures id in Ids(r) {
        var w :| w in incoming && w.id == id;
        if id !in Ids(catalog) {
          assert w in added;
        }
      }
      forall id | id in Ids(r) ensures id in Ids(catalog) + Ids(incoming) {
        var w :| w in r && w.id == id;
        if w !in catalog {
          assert w in added;
        }
      }
    }
    r
  }

  /** Merging the same records a second time adds nothing. */
  lemma MergeIdempotent(catalog: seq<Wallpaper>, incoming: seq<Wallpaper>)
    ensures Merge(Merge(catalog, incoming), incoming) == Merge(catalog, incoming)
  {
    var once := Merge(catalog, incoming);
    FilterDropsAll(incoming, (w: Wallpaper) => w.id !in Ids(once));
  }

  /** Ids are checked against the catalog only: two incoming copies of a new record both join. */
  lemma MergeKeepsBatchDuplicates(catalog: seq<Wallpaper>, w: Wallpaper)
    requires w.id !in Ids(catalog)
    ensures Merge(catalog, [w, w]) == catalog + [w, w]
  {
    var p := (x: Wallpaper) => x.id !in Ids(catalog);
    FilterAppend([w], [w], p);
    FilterSingleton(w, p);
    assert [w, w] == [w] + [w];
  }

  /**
   * The catalog an import leaves behind, or the error it throws: a non-array payload and a
   * payload without one valid element are rejected; otherwise the validated records are merged.
   */
  function Imported(catalog: seq<Wallpaper>, payload: Payload, clock: nat -> nat): (r: Result<seq<Wallpaper>, Failure>)
    ensures payload.NotArray? ==> r == Failure(NotAnArray)
    ensures payload.Array? && (forall e :: e in payload.elements ==> !IsValid(e)) ==>
              r == Failure(NoValidWallpapers)
    ensures payload.Array? && |ValidElements(payload.elements)| > 0 ==>
              r == Success(Merge(catalog, Validated(payload.elements, clock)))
    ensures r.Success? ==>
              && payload.Array? && |ValidElements(payload.elements)| > 0
              && |catalog| <= |r.value| <= |catalog| + |ValidElements(payload.elements)|
              && r.value[..|catalog|] == catalog
              && Ids(r.value) == Ids(catalog) + Ids(Validated(payload.elements, clock))
  {
    match payload
    case NotArray => Failure(NotAnArray)
    case Array(elements) =>
      var valid := Validated(elements, clock);
      if |valid| == 0 then Failure(NoValidWallpapers) else Success(Merge(catalog, valid))
  }

  /** Importing a file whose valid elements all carry ids a second time changes nothing. */
  lemma ReimportAddsNothing(catalog: seq<Wallpaper>, payload: Payload, c1: nat -> nat, c2: nat -> nat)
    requires Imported(catalog, payload, c1).Success?
    requires AllCarryIds(payload.elements)
    ensures Imported(Imported(catalog, payload, c1).value, payload, c2) ==
            Imported(catalog, payload, c1)
  {
    ValidatedTimeIndependent(payload.elements, c1, c2);
    MergeIdempotent(catalog, Validated(payload.elements, c1));
  }

  /** One valid element beside one without a category: exactly one record is added. */
  lemma OneValidOneInvalid(catalog: seq<Wallpaper>, good: Element, bad: Element, clock: nat -> nat)
    requires IsValid(good) && bad.Object? && bad.category.None?
    requires AssignedId(good, clock(0), 0) !in Ids(catalog)
    ensures Imported(catalog, Array([good, bad]), clock) ==
            Success(catalog + [ToWallpaper(good, clock(0), 0)])
  {
    FilterAppend([good], [bad], IsValid);
    FilterSingleton(good, IsValid);
    FilterSingleton(bad, IsValid);
    assert [good, bad] == [good] + [bad];
    assert ValidElements([good, bad]) == [good];
    var w := ToWallpaper(good, clock(0), 0);
    assert Validated([good, bad], clock) == [w];
    FilterSingleton(w, (x: Wallpaper) => x.id !in Ids(catalog));
  }
}
