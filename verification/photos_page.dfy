/**
 The page's state as one record and its event handlers as pure transitions:
 the lightbox (`openLightbox`, `closeLightbox`, `navigatePhoto`), the like
 toggle, and the filter handlers (`selectEvent`, `clearEventFilter`, "Reset Filters").
 */
module PhotosPage {
  import opened Wrappers
  import opened Text
  import opened Seqs
  import opened Photos
  import opened Events

  /** The page's `useState` variables that carry behaviour (the view mode is presentational). */
  datatype PageState = PageState(
    searchTerm: string,
    category: string,
    event: Option<string>,
    selected: Option<Photo>,
    index: int,
    liked: set<string>)

  /** The state on first render. */
  const Initial: PageState := PageState("", AllCategories, None, None, 0, {})

  /** The `filteredPhotos` memo for the current state. */
  function Visible(photos: seq<Photo>, s: PageState): seq<Photo> {
    FilterPhotos(photos, s.searchTerm, s.category, s.event)
  }

  /** `findIndex(p => p.id === id)`: the first position holding `id`, or -1. */
  function FindIndex(ps: seq<Photo>, id: string): (r: int)
    ensures -1 <= r < |ps|
    ensures r >= 0 ==> ps[r].id == id && forall j :: 0 <= j < r ==> ps[j].id != id
    ensures r == -1 <==> forall j :: 0 <= j < |ps| ==> ps[j].id != id
    decreases |ps|
  {
    if |ps| == 0 then -1
    else if ps[0].id == id then 0
    else
      var k := FindIndex(ps[1..], id);
      assert forall j :: 1 <= j < |ps| ==> ps[j] == ps[1..][j - 1];
      if k == -1 then -1 else k + 1
  }

  /** `openLightbox(photo)`: show `p` and remember where its id first appears among the visible photos. */
  function OpenLightbox(photos: seq<Photo>, s: PageState, p: Photo): (r: PageState)
    ensures r.selected == Some(p)
    ensures var vis := Visible(photos, s);
            && -1 <= r.index < |vis|
            && (r.index >= 0 ==> vis[r.index].id == p.id && forall j :: 0 <= j < r.index ==> vis[j].id != p.id)
            && (r.index == -1 <==> forall j :: 0 <= j < |vis| ==> vis[j].id != p.id)
    ensures r.(selected := s.selected, index := s.index) == s
  {
    s.(selected := Some(p), index := FindIndex(Visible(photos, s), p.id))
  }

  /** `closeLightbox()`: hide the photo; the index and everything else stay as they were. */
  function CloseLightbox(s: PageState): (r: PageState)
    ensures r.selected == None
    ensures r.index == s.index
    ensures r.(selected := s.selected) == s
  {
    s.(selected := None)
  }

  /** JavaScript `a % n` for a positive `n`: the remainder truncated toward zero, carrying the sign of `a`. */
  function JsRem(a: int, n: int): (r: int)
    requires n > 0
    ensures -n < r < n
    ensures a >= 0 ==> r >= 0
    ensures a <= 0 ==> r <= 0
    ensures a >= 0 ==> r == a % n
    ensures -n < a <= 0 ==> r == a
  {
    if a >= 0 then a % n else -((-a) % n)
  }

  /** The two navigation buttons. */
  datatype Direction = Prev | Next

  /**
   `navigatePhoto(direction)` over the visible photos (it needs at least one;
   the buttons are only rendered when there are two or more). Reading past the
   list gives `undefined`, modelled as no selected photo.
   */
  function Navigate(photos: seq<Photo>, s: PageState, dir: Direction): (r: PageState)
    requires |Visible(photos, s)| > 0
    ensures var vis := Visible(photos, s);
            s.index >= -1 ==> 0 <= r.index < |vis| && r.selected == Some(vis[r.index])
    ensures var n := |Visible(photos, s)|;
            0 <= s.index < n && dir == Next ==> r.index == (if s.index == n - 1 then 0 else s.index + 1)
    ensures var n := |Visible(photos, s)|;
            0 <= s.index < n && dir == Prev ==> r.index == (if s.index == 0 then n - 1 else s.index - 1)
    ensures r.(selected := s.selected, index := s.index) == s
  {
    var vis := Visible(photos, s);
    var n := |vis|;
    var next := if dir == Prev then JsRem(s.index - 1 + n, n) else JsRem(s.index + 1, n);
    CyclicStep(s.index, n);
    s.(index := next, selected := if 0 <= next < n then Some(vis[next]) else None)
  }

  /** The two remainders `navigatePhoto` computes, on a valid position, step cyclically by one. */
  lemma CyclicStep(i: int, n: int)
    requires n > 0
    ensures 0 <= i < n ==> (i + 1) % n == (if i == n - 1 then 0 else i + 1)
    ensures 0 <= i < n ==> (i - 1 + n) % n == (if i == 0 then n - 1 else i - 1)
    ensures i == -1 && n > 1 ==> (i - 1 + n) % n == n - 2
  {
    if 0 <= i < n {
      if i == n - 1 { ModOnce(i + 1, n); } else { ModSmall(i + 1, n); }
      if i == 0 { ModSmall(i - 1 + n, n); } else { ModOnce(i - 1 + n, n); }
    }
    if i == -1 && n > 1 {
      ModSmall(n - 2, n);
    }
  }

  /** Euclidean remainder of a value already below the modulus. */
  lemma ModSmall(x: int, n: int)
    requires 0 <= x < n
    ensures x % n == x
  {
  }

  /** Euclidean remainder of a value between one and two moduli. */
  lemma ModOnce(x: int, n: int)
    requires 0 < n <= x < 2 * n
    ensures x % n == x - n
  {
    ModSmall(x - n, n);
    assert (x - n) % n == x % n;
  }

  /** Flip the membership of `id`. */
  function Toggle(liked: set<string>, id: string): (r: set<string>)
    ensures id in r <==> id !in liked
    ensures r - {id} == liked - {id}
  {
    if id in liked then liked - {id} else liked + {id}
  }

  /** `toggleLike(id)`: flip whether `id` is liked; nothing else changes. */
  function ToggleLike(s: PageState, id: string): (r: PageState)
    ensures id in r.liked <==> id !in s.liked
    ensures forall x :: x != id ==> (x in r.liked <==> x in s.liked)
    ensures r.(liked := s.liked) == s
  {
    s.(liked := Toggle(s.liked, id))
  }

  /** `selectEvent(name)`: show one event, clearing the search and the category. */
  function SelectEvent(s: PageState, name: string): (r: PageState)
    ensures r.event == Some(name) && r.searchTerm == "" && r.category == AllCategories
    ensures r.(event := s.event, searchTerm := s.searchTerm, category := s.category) == s
  {
    s.(event := Some(name), searchTerm := "", category := AllCategories)
  }

  /** `clearEventFilter()`: drop the event filter only. */
  function ClearEventFilter(s: PageState): (r: PageState)
    ensures r.event == None
    ensures r.(event := s.event) == s
  {
    s.(event := None)
  }

  /** The "Reset Filters" button: clear the search, the category and the event. */
  function ResetFilters(s: PageState): (r: PageState)
    ensures r.searchTerm == "" && r.category == AllCategories && r.event == None
    ensures r.(event := s.event, searchTerm := s.searchTerm, category := s.category) == s
  {
    s.(searchTerm := "", category := AllCategories, event := None)
  }

  // ---- Lightbox navigation ----

  /** From a valid position, `next` then `prev` comes back to the same photo, and so does `prev` then `next`. */
  lemma NavigateRoundTrip(photos: seq<Photo>, s: PageState)
    requires 0 <= s.index < |Visible(photos, s)|
    ensures var vis := Visible(photos, s);
            var back := Navigate(photos, Navigate(photos, s, Next), Prev);
            back.index == s.index && back.selected == Some(vis[s.index])
    ensures var vis := Visible(photos, s);
            var back := Navigate(photos, Navigate(photos, s, Prev), Next);
            back.index == s.index && back.selected == Some(vis[s.index])
  {
    assert Visible(photos, Navigate(photos, s, Next)) == Visible(photos, s);
    assert Visible(photos, Navigate(photos, s, Prev)) == Visible(photos, s);
  }

  /** `prev` from the first photo wraps to the last; `next` from the last wraps to the first. */
  lemma NavigateWraps(photos: seq<Photo>, s: PageState)
    requires |Visible(photos, s)| > 0
    ensures s.index == 0 ==> Navigate(photos, s, Prev).index == |Visible(photos, s)| - 1
    ensures s.index == |Visible(photos, s)| - 1 ==> Navigate(photos, s, Next).index == 0
  {
  }

  /**
   After opening a photo that is not among the visible ones the index is -1:
   `next` then shows the first photo and `prev` the second-to-last, not the last.
   */
  lemma NavigateFromMissing(photos: seq<Photo>, s: PageState)
    requires |Visible(photos, s)| > 1
    requires s.index == -1
    ensures Navigate(photos, s, Next).index == 0
    ensures Navigate(photos, s, Prev).index == |Visible(photos, s)| - 2
  {
    CyclicStep(s.index, |Visible(photos, s)|);
  }

  // ---- State invariant ----

  /**
   The lightbox invariant: the index never falls below -1, and an open
   lightbox points at a visible photo with the selected photo's id.
   */
  predicate Consistent(photos: seq<Photo>, s: PageState) {
    var vis := Visible(photos, s);
    && s.index >= -1
    && (s.selected.Some? ==> 0 <= s.index < |vis| && vis[s.index].id == s.selected.value.id)
  }

  /** The page starts consistent, with every photo visible. */
  lemma InitialState(photos: seq<Photo>)
    ensures Consistent(photos, Initial)
    ensures Visible(photos, Initial) == photos
  {
    UnfilteredIsIdentity(photos, None);
  }

  /** Opening a photo from the grid (one whose id is visible) keeps the invariant. */
  lemma OpenLightboxConsistent(photos: seq<Photo>, s: PageState, p: Photo)
    requires Consistent(photos, s)
    requires exists j :: 0 <= j < |Visible(photos, s)| && Visible(photos, s)[j].id == p.id
    ensures Consistent(photos, OpenLightbox(photos, s, p))
  {
    var r := OpenLightbox(photos, s, p);
    assert Visible(photos, r) == Visible(photos, s);
  }

  /** Navigation keeps the invariant and always lands on a visible photo. */
  lemma NavigateConsistent(photos: seq<Photo>, s: PageState, dir: Direction)
    requires Consistent(photos, s)
    requires |Visible(photos, s)| > 0
    ensures Consistent(photos, Navigate(photos, s, dir))
    ensures Navigate(photos, s, dir).selected.Some?
  {
    var r := Navigate(photos, s, dir);
    assert Visible(photos, r) == Visible(photos, s);
  }

  /** Closing the lightbox and liking a photo keep the invariant. */
  lemma CloseAndLikeConsistent(photos: seq<Photo>, s: PageState, id: string)
    requires Consistent(photos, s)
    ensures Consistent(photos, CloseLightbox(s))
    ensures Consistent(photos, ToggleLike(s, id))
  {
    assert Visible(photos, ToggleLike(s, id)) == Visible(photos, s);
  }

  /** With the lightbox closed the filter handlers keep the invariant (the code has no policy for an open one). */
  lemma FilterHandlersConsistent(photos: seq<Photo>, s: PageState, name: string)
    requires Consistent(photos, s)
    requires s.selected == None
    ensures Consistent(photos, SelectEvent(s, name))
    ensures Consistent(photos, ClearEventFilter(s))
    ensures Consistent(photos, ResetFilters(s))
  {
  }

  // ---- Likes ----

  /** Toggling the same id twice restores the state. */
  lemma ToggleLikeInvolution(s: PageState, id: string)
    ensures ToggleLike(ToggleLike(s, id), id) == s
  {
    var once := ToggleLike(s, id);
    var twice := ToggleLike(once, id);
    assert forall x :: x in twice.liked <==> x in s.liked;
  }

  /** Toggles of two ids commute. */
  lemma ToggleLikeCommutes(s: PageState, a: string, b: string)
    ensures ToggleLike(ToggleLike(s, a), b) == ToggleLike(ToggleLike(s, b), a)
  {
    var ab := ToggleLike(ToggleLike(s, a), b);
    var ba := ToggleLike(ToggleLike(s, b), a);
    assert forall x :: x in ab.liked <==> x in ba.liked;
  }

  // ---- Filter handlers ----

  /**
   After `selectEvent(name)` every photo of the event group `name` is visible,
   because the name is a prefix of each of its titles.
   */
  lemma SelectEventShowsGroup(photos: seq<Photo>, s: PageState, name: string)
    ensures var groups := GroupByEvent(photos);
            var vis := Visible(photos, SelectEvent(s, name));
            forall i, k :: 0 <= i < |groups| && groups[i].name == name && 0 <= k < |groups[i].photos| ==>
              groups[i].photos[k] in vis
  {
    var groups := GroupByEvent(photos);
    var t := SelectEvent(s, name);
    GroupsAreEventFilters(photos);
    forall i, k | 0 <= i < |groups| && groups[i].name == name && 0 <= k < |groups[i].photos|
      ensures groups[i].photos[k] in Visible(photos, t)
    {
      var p := groups[i].photos[k];
      assert p in photos && InEvent(name)(p);
      EmptySearchMatches(p);
      LowerPrefix(name, p.title);
      ContainsPrefix(Lower(p.title), Lower(name));
      assert Shown(p, t.searchTerm, t.category, t.event);
      var j :| 0 <= j < |photos| && photos[j] == p;
    }
  }

  /**
   After `selectEvent(name)` the visible photos are exactly those whose title
   or some tag contains the name, in dataset order (all photos for the empty name).
   */
  lemma SelectEventVisible(photos: seq<Photo>, s: PageState, name: string)
    ensures Visible(photos, SelectEvent(s, name))
         == if name == "" then photos else Filter(EventTest(name), photos)
  {
    UnfilteredIsIdentity(photos, None);
  }

  /** Clearing the event filter only widens: what was visible stays visible, in order. */
  lemma ClearEventWidens(photos: seq<Photo>, s: PageState)
    ensures IsSubsequence(Visible(photos, s), Visible(photos, ClearEventFilter(s)))
  {
    EventPassNarrows(photos, s.searchTerm, s.category, s.event);
  }

  /** After "Reset Filters" every photo is visible, in dataset order. */
  lemma ResetShowsAll(photos: seq<Photo>, s: PageState)
    ensures Visible(photos, ResetFilters(s)) == photos
  {
    UnfilteredIsIdentity(photos, None);
  }
}
