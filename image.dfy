/** image.py: the wrapper around one upstream result object, and the choice of
    the URL that is shown for it. */
module Image {
  import opened Wrappers
  import opened Errors
  import opened Strings

  /** Image.MAX_IMAGE_SIZE: 2 MiB, i.e. 2097152 bytes. */
  const MAX_IMAGE_SIZE: int := 2 * 1024 * 1024

  /** One entry of a media dictionary: its key (the format name, such as
      "tinygif") and the `size` and `url` of its value. */
  datatype Variant = Variant(format: string, size: int, url: string)

  /** The parts of an upstream result object that the code reads. `media` is
      the JSON list of media dictionaries; each dictionary is the sequence of
      its entries in insertion order, which is the order Python iterates. The
      object is an immutable value: nothing in the code writes to it. */
  datatype GifObject = GifObject(id: string, contentDescription: string, media: seq<seq<Variant>>)

  /** The filter of the dictionary comprehension: strictly below the ceiling,
      and a key that ends with "gif" (case-sensitive). */
  predicate Qualifies(v: Variant) {
    v.size < MAX_IMAGE_SIZE && EndsWith(v.format, "gif")
  }

  /** `vs[k]` is what index 0 of the qualifying variants sorted by descending
      size holds: it qualifies, no qualifying variant is larger, and, the sort
      being stable, every qualifying variant before it is strictly smaller. */
  ghost predicate IsChoice(vs: seq<Variant>, k: nat) {
    && k < |vs|
    && Qualifies(vs[k])
    && (forall j | 0 <= j < |vs| && Qualifies(vs[j]) :: vs[j].size <= vs[k].size)
    && (forall j | 0 <= j < k && Qualifies(vs[j]) :: vs[j].size < vs[k].size)
  }

  /** The comprehension and the sort together: the index of the first variant
      of largest size among those that qualify, or None when none does. */
  function Largest(vs: seq<Variant>): (r: Option<nat>)
    ensures r.None? <==> forall j | 0 <= j < |vs| :: !Qualifies(vs[j])
    ensures r.Some? ==> IsChoice(vs, r.value)
  {
    if vs == [] then None
    else
      var rest := Largest(vs[1..]);
      if !Qualifies(vs[0]) then
        (if rest.Some? then Some(rest.value + 1) else None)
      else if rest.Some? && vs[0].size < vs[rest.value + 1].size then
        Some(rest.value + 1)
      else
        Some(0)
  }

  /** At most one index satisfies the choice conditions, so they fix the
      selected variant. */
  lemma ChoiceIsUnique(vs: seq<Variant>, a: nat, b: nat)
    requires IsChoice(vs, a) && IsChoice(vs, b)
    ensures a == b
  {
  }

  /** Image.get_url: only the first media dictionary is consulted; an empty
      media list or an empty selection is an IndexError, never a fallback to a
      variant that does not qualify. */
  function GetUrl(g: GifObject): (r: Result<string, Error>)
    ensures g.media == [] ==> r == Failure(NoMedia)
    ensures g.media != [] && r.Failure? ==> r.error == NoQualifyingVariant
    ensures g.media != [] ==>
      (r.Failure? <==> forall j | 0 <= j < |g.media[0]| :: !Qualifies(g.media[0][j]))
    ensures r.Success? ==> exists k: nat :: IsChoice(g.media[0], k) && r.value == g.media[0][k].url
  {
    if g.media == [] then Failure(NoMedia)
    else
      match Largest(g.media[0])
      case None => Failure(NoQualifyingVariant)
      case Some(k) => Success(g.media[0][k].url)
  }
}
