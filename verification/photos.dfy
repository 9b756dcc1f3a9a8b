/**
 The photo record and the page's filter (the `filteredPhotos` memo): a search and
 category pass over the whole list, then an optional event pass over its result.
 */
module Photos {
  import opened Wrappers
  import opened Text
  import opened Seqs

  /** One photo of the externally supplied list; immutable once loaded. */
  datatype Photo = Photo(
    id: string,
    title: string,
    description: string,
    tags: seq<string>,
    category: string,
    date: string,
    imageUrl: string)

  /** The category value that lets every category through. */
  const AllCategories: string := "all"

  /** `tags.some(tag => tag.toLowerCase().includes(needle))`, with `needle` already lower-cased. */
  predicate SomeTagContains(tags: seq<string>, needle: string) {
    exists i :: 0 <= i < |tags| && Contains(Lower(tags[i]), needle)
  }

  /** Case-insensitive search: the term occurs in the title, the description or some tag. */
  predicate MatchesSearch(p: Photo, term: string) {
    var t := Lower(term);
    Contains(Lower(p.title), t) || Contains(Lower(p.description), t) || SomeTagContains(p.tags, t)
  }

  /** The category test: `'all'` or an exact match of the category key. */
  predicate MatchesCategory(p: Photo, category: string) {
    category == AllCategories || p.category == category
  }

  /** The event test: the event name occurs, ignoring case, in the title or some tag. */
  predicate MatchesEvent(p: Photo, event: string) {
    var e := Lower(event);
    Contains(Lower(p.title), e) || SomeTagContains(p.tags, e)
  }

  /** JavaScript truthiness of `selectedEvent`: `null` and `""` are both falsy. */
  predicate EventActive(event: Option<string>) {
    event.Some? && event.value != ""
  }

  /** The first pass: search and category together. */
  function QueryTest(term: string, category: string): Photo -> bool {
    p => MatchesSearch(p, term) && MatchesCategory(p, category)
  }

  /** The second pass. */
  function EventTest(event: string): Photo -> bool {
    p => MatchesEvent(p, event)
  }

  /** Everything a photo must pass to be shown. */
  predicate Shown(p: Photo, term: string, category: string, event: Option<string>) {
    MatchesSearch(p, term) && MatchesCategory(p, category) && (EventActive(event) ==> MatchesEvent(p, event.value))
  }

  /** The `filteredPhotos` memo. */
  function FilterPhotos(photos: seq<Photo>, term: string, category: string, event: Option<string>): (r: seq<Photo>)
    ensures forall i :: 0 <= i < |r| ==> r[i] in photos && Shown(r[i], term, category, event)
    ensures forall i :: 0 <= i < |photos| && Shown(photos[i], term, category, event) ==> photos[i] in r
  {
    var first := Filter(QueryTest(term, category), photos);
    if EventActive(event) then
      var r := Filter(EventTest(event.value), first);
      assert forall i :: 0 <= i < |photos| && Shown(photos[i], term, category, event) ==> photos[i] in first;
      r
    else
      first
  }

  /** The two passes are one pass with all tests combined. */
  lemma FilterPhotosOnePass(photos: seq<Photo>, term: string, category: string, event: Option<string>)
    ensures FilterPhotos(photos, term, category, event)
         == Filter((p: Photo) => Shown(p, term, category, event), photos)
  {
    var shown := (p: Photo) => Shown(p, term, category, event);
    if EventActive(event) {
      FilterFuse(QueryTest(term, category), EventTest(event.value), photos);
      FilterCongruent(Both(QueryTest(term, category), EventTest(event.value)), shown, photos);
    } else {
      FilterCongruent(QueryTest(term, category), shown, photos);
    }
  }

  /** The result keeps a selection of the photos in dataset order. */
  lemma FilterPhotosIsSubsequence(photos: seq<Photo>, term: string, category: string, event: Option<string>)
    ensures IsSubsequence(FilterPhotos(photos, term, category, event), photos)
  {
    FilterPhotosOnePass(photos, term, category, event);
    FilterIsSubsequence((p: Photo) => Shown(p, term, category, event), photos);
  }

  /** The event pass only narrows: with an event the result is a subsequence of the result without one. */
  lemma EventPassNarrows(photos: seq<Photo>, term: string, category: string, event: Option<string>)
    ensures IsSubsequence(FilterPhotos(photos, term, category, event), FilterPhotos(photos, term, category, None))
  {
    var first := FilterPhotos(photos, term, category, None);
    if EventActive(event) {
      FilterIsSubsequence(EventTest(event.value), first);
    } else {
      SubsequenceReflexive(first);
    }
  }

  /** The empty search term matches every photo. */
  lemma EmptySearchMatches(p: Photo)
    ensures MatchesSearch(p, "")
  {
    assert Lower("") == "";
    ContainsEmpty(Lower(p.title));
  }

  /** With search `''`, category `'all'` and no (or an empty) event every photo is shown, in order. */
  lemma UnfilteredIsIdentity(photos: seq<Photo>, event: Option<string>)
    requires !EventActive(event)
    ensures FilterPhotos(photos, "", AllCategories, event) == photos
  {
    forall i | 0 <= i < |photos|
      ensures QueryTest("", AllCategories)(photos[i])
    {
      EmptySearchMatches(photos[i]);
    }
    FilterKeepsAll(QueryTest("", AllCategories), photos);
  }

  /** Filtering an already filtered list again with the same state changes nothing. */
  lemma FilterPhotosIdempotent(photos: seq<Photo>, term: string, category: string, event: Option<string>)
    ensures var r := FilterPhotos(photos, term, category, event);
            FilterPhotos(r, term, category, event) == r
  {
    var r := FilterPhotos(photos, term, category, event);
    FilterPhotosOnePass(r, term, category, event);
    FilterKeepsAll((p: Photo) => Shown(p, term, category, event), r);
  }

  /** A category key no photo carries (other than `'all'`) yields an empty result, not an error. */
  lemma UnknownCategoryIsEmpty(photos: seq<Photo>, term: string, category: string, event: Option<string>)
    requires category != AllCategories
    requires forall i :: 0 <= i < |photos| ==> photos[i].category != category
    ensures FilterPhotos(photos, term, category, event) == []
  {
    FilterPhotosOnePass(photos, term, category, event);
    FilterDropsAll((p: Photo) => Shown(p, term, category, event), photos);
  }

  /** Search ignores the case of the term: lower-casing it first changes nothing. */
  lemma SearchIgnoresTermCase(photos: seq<Photo>, term: string, category: string, event: Option<string>)
    ensures FilterPhotos(photos, Lower(term), category, event) == FilterPhotos(photos, term, category, event)
  {
    LowerIdempotent(term);
    FilterCongruent(QueryTest(Lower(term), category), QueryTest(term, category), photos);
  }
}
