/** The availability check for one release (check.js:86-116): whether the
    marketplace lists it for sale, and the notification text when it does.
    The HTTP request itself is an input: the outcome of the lookup. */
module Availability {
  import opened Wrappers

  /** The fields of a release document that the check reads; a field the
      document does not have is `None`. */
  datatype Release = Release(numForSale: Option<int>, title: Option<string>, uri: Option<string>)

  /** The outcome of one lookup: the parsed release document, or a failure
      of any kind that the check catches (a transport error, a body that is
      not JSON, a JSON `null` whose field access throws). A reply that is a
      JSON number, string, boolean or array has no `num_for_sale` field and
      is a `Fetched` release with `numForSale == None`. */
  datatype Lookup = Fetched(release: Release) | Failed

  /** The check's answer; a found release carries the notification text. */
  datatype Availability = Found(message: string) | NotFound

  /** How a template literal renders a field: its text, or "undefined"
      for a field the document does not have. */
  function Show(field: Option<string>): (s: string)
    ensures field.Some? ==> s == field.value
    ensures field.None? ==> s == "undefined"
  {
    match field
    case Some(s) => s
    case None => "undefined"
  }

  /** `data.num_for_sale && data.num_for_sale > 0`: the quantity is truthy
      (present and non-zero) and positive. */
  function IsForSale(numForSale: Option<int>): (r: bool)
    ensures r <==> numForSale.Some? && numForSale.value > 0
  {
    match numForSale
    case None => false
    case Some(n) => n != 0 && n > 0
  }

  const MessageHead: string := "\U{1F4BF} Знайшли альбом: *"
  const MessageLink: string := "*\n[Посилання на Discogs]("
  const MessageTail: string := ")"

  /** `part` is the stretch of `s` that starts at offset `k`. */
  predicate OccursAt(part: string, s: string, k: int) {
    0 <= k <= |s| - |part| && s[k..k + |part|] == part
  }

  ghost predicate Occurs(part: string, s: string) {
    exists k :: OccursAt(part, s, k)
  }

  /** The Markdown notification for a found release: the title in bold,
      then a link to the release page. */
  function FoundMessage(title: string, link: string): (m: string)
    ensures Occurs(title, m) && Occurs(link, m)
    ensures |m| == |MessageHead| + |title| + |MessageLink| + |link| + |MessageTail|
  {
    var m := MessageHead + title + MessageLink + link + MessageTail;
    var t, l := |MessageHead|, |MessageHead| + |title| + |MessageLink|;
    assert OccursAt(title, m, t);
    assert OccursAt(link, m, l);
    m
  }

  /** `checkAlbumAvailability`: found exactly when the lookup succeeded and
      the quantity for sale is present and positive; the message then
      names the release's title and link. Every failure reads as not found. */
  function CheckAlbumAvailability(lookup: Lookup): (a: Availability)
    ensures a.Found? <==> lookup.Fetched? && lookup.release.numForSale.Some?
                          && lookup.release.numForSale.value > 0
    ensures a.Found? ==> Occurs(Show(lookup.release.title), a.message)
                         && Occurs(Show(lookup.release.uri), a.message)
  {
    match lookup
    case Failed => NotFound
    case Fetched(data) =>
      if IsForSale(data.numForSale) then Found(FoundMessage(Show(data.title), Show(data.uri)))
      else NotFound
  }
}
