/**
 * The persistent key-value store as the service sees one key of it. The JSON text a key holds is
 * abstracted to what it decodes to; `EmptyText` is the empty string, which the TypeScript service's
 * `stored ? JSON.parse(stored) : fallback` reads like a missing key.
 */
module Store {
  import opened Wrappers

  datatype Blob<T> = Encoded(value: T) | EmptyText | Unparseable

  /** What reading a slot yields: `None` when the stored text does not parse. */
  function Read<T>(slot: Option<Blob<T>>, fallback: T): (r: Option<T>)
    ensures r.None? <==> slot.Some? && slot.value.Unparseable?
    ensures slot.Some? && slot.value.Encoded? ==> r == Some(slot.value.value)
    ensures slot.None? || slot.value.EmptyText? ==> r == Some(fallback)
  {
    match slot
    case None => Some(fallback)
    case Some(Encoded(v)) => Some(v)
    case Some(EmptyText) => Some(fallback)
    case Some(Unparseable) => None
  }
}
