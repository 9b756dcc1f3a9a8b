/**
 The `eventGroups` memo: the full photo list split into named groups, one per
 event name, kept as an association list in the order the names are first met.
 */
module Events {
  import opened Text
  import opened Seqs
  import opened Photos

  /** The separator between the event name and the rest of a title. */
  const Separator: string := " - "

  /** The first occurrence of the separator in `title` starts at position `k`. */
  predicate FirstSeparatorAt(title: string, k: int) {
    OccursAt(title, Separator, k) && forall i :: 0 <= i < k ==> !OccursAt(title, Separator, i)
  }

  /**
   `title.split(' - ')[0] || title`: the text before the first separator, or the
   whole title when that text is empty.
   */
  function EventName(title: string): (r: string)
    ensures r <= title
    ensures r == "" ==> title == ""
    ensures r != title ==> OccursAt(title, Separator, |r|)
    ensures r != title ==> forall i :: 0 <= i < |r| ==> !OccursAt(title, Separator, i)
    ensures (forall i :: !OccursAt(title, Separator, i)) ==> r == title
    ensures OccursAt(title, Separator, 0) ==> r == title
    ensures forall k :: 0 < k && FirstSeparatorAt(title, k) ==> r == title[..k]
  {
    var first := FirstSegment(title, Separator);
    assert forall k :: 0 < k && FirstSeparatorAt(title, k) ==> first == title[..k] by {
      forall k | 0 < k && FirstSeparatorAt(title, k)
        ensures first == title[..k]
      {
        FirstSegmentUnique(title, Separator, title[..k]);
      }
    }
    if first == "" then title else first
  }

  /** One event group: its name and its photos. */
  datatype Group = Group(name: string, photos: seq<Photo>)

  /** The group names, in list order. */
  function Names(groups: seq<Group>): (r: seq<string>)
    ensures |r| == |groups|
    ensures forall i :: 0 <= i < |groups| ==> r[i] == groups[i].name
  {
    seq(|groups|, i requires 0 <= i < |groups| => groups[i].name)
  }

  /** The event name of each photo, in dataset order. */
  function EventNames(photos: seq<Photo>): (r: seq<string>)
    ensures |r| == |photos|
    ensures forall i :: 0 <= i < |photos| ==> r[i] == EventName(photos[i].title)
  {
    seq(|photos|, i requires 0 <= i < |photos| => EventName(photos[i].title))
  }

  /** The photos that belong to event `name`. */
  function InEvent(name: string): Photo -> bool {
    (p: Photo) => EventName(p.title) == name
  }

  /** One step of the `forEach`: append `p` to the group `name`, creating that group at the end if absent. */
  function AddPhoto(groups: seq<Group>, name: string, p: Photo): seq<Group> {
    if name in Names(groups) then
      seq(|groups|, i requires 0 <= i < |groups| =>
        if groups[i].name == name then Group(name, groups[i].photos + [p]) else groups[i])
    else
      groups + [Group(name, [p])]
  }

  /** The `eventGroups` memo. */
  function GroupByEvent(photos: seq<Photo>): seq<Group>
    decreases |photos|
  {
    if |photos| == 0 then []
    else
      var last := photos[|photos| - 1];
      AddPhoto(GroupByEvent(photos[..|photos| - 1]), EventName(last.title), last)
  }

  /** The total number of photos over all groups. */
  function TotalSize(groups: seq<Group>): nat
    decreases |groups|
  {
    if |groups| == 0 then 0 else TotalSize(groups[..|groups| - 1]) + |groups[|groups| - 1].photos|
  }

  /** One step of the `forEach` adds the name at the end when it is new, and otherwise keeps the names. */
  lemma AddPhotoNames(groups: seq<Group>, name: string, p: Photo)
    ensures Names(AddPhoto(groups, name, p))
         == if name in Names(groups) then Names(groups) else Names(groups) + [name]
  {
  }

  /** The event names of a list with one more photo. */
  lemma EventNamesSnoc(photos: seq<Photo>)
    requires |photos| > 0
    ensures EventNames(photos)
         == EventNames(photos[..|photos| - 1]) + [EventName(photos[|photos| - 1].title)]
  {
  }

  /** The group names are the photos' event names, each once, in the order first met. */
  lemma {:induction false} GroupNamesFirstSeen(photos: seq<Photo>)
    ensures Names(GroupByEvent(photos)) == FirstOccurrences(EventNames(photos))
    decreases |photos|
  {
    if |photos| > 0 {
      var init := photos[..|photos| - 1];
      var last := photos[|photos| - 1];
      var name := EventName(last.title);
      GroupNamesFirstSeen(init);
      EventNamesSnoc(photos);
      var names := EventNames(photos);
      assert names[..|names| - 1] == EventNames(init);
      var gs := GroupByEvent(init);
      AddPhotoNames(gs, name, last);
      assert name in Names(gs) <==> name in EventNames(init);
    }
  }

  /**
   Groups appear in the order their names are first met: every photo of a
   later group comes after some photo of each earlier group.
   */
  lemma GroupNamesInFirstSeenOrder(photos: seq<Photo>)
    ensures InFirstSeenOrder(Names(GroupByEvent(photos)), EventNames(photos))
  {
    GroupNamesFirstSeen(photos);
    FirstOccurrencesOrder(EventNames(photos));
  }

  /**
   Each group holds exactly the photos of its event, in dataset order, and is
   never empty.
   */
  lemma {:induction false} GroupsAreEventFilters(photos: seq<Photo>)
    ensures var groups := GroupByEvent(photos);
            forall i :: 0 <= i < |groups| ==>
              groups[i].photos == Filter(InEvent(groups[i].name), photos) && |groups[i].photos| > 0
    decreases |photos|
  {
    if |photos| > 0 {
      var init := photos[..|photos| - 1];
      var last := photos[|photos| - 1];
      assert photos == init + [last];
      GroupsAreEventFilters(init);
      GroupNamesFirstSeen(init);
      AddPhotoKeepsFilters(GroupByEvent(init), init, last);
    }
  }

  /** One step of the `forEach` keeps every group equal to the event filter of the photos seen so far. */
  lemma AddPhotoKeepsFilters(gs: seq<Group>, init: seq<Photo>, last: Photo)
    requires forall i :: 0 <= i < |gs| ==>
               gs[i].photos == Filter(InEvent(gs[i].name), init) && |gs[i].photos| > 0
    requires Names(gs) == FirstOccurrences(EventNames(init))
    ensures var groups := AddPhoto(gs, EventName(last.title), last);
            forall i :: 0 <= i < |groups| ==>
              groups[i].photos == Filter(InEvent(groups[i].name), init + [last]) && |groups[i].photos| > 0
  {
    var name := EventName(last.title);
    var groups := AddPhoto(gs, name, last);
    forall i | 0 <= i < |groups|
      ensures groups[i].photos == Filter(InEvent(groups[i].name), init + [last]) && |groups[i].photos| > 0
    {
      FilterSnoc(InEvent(groups[i].name), init, last);
      if i == |gs| {
        assert name !in Names(gs);
        assert groups[i] == Group(name, [last]);
        NotSeenDropsAll(init, name);
      }
    }
  }

  /** An event name no photo carries filters the photos down to nothing. */
  lemma NotSeenDropsAll(photos: seq<Photo>, name: string)
    requires name !in FirstOccurrences(EventNames(photos))
    ensures Filter(InEvent(name), photos) == []
  {
    forall j | 0 <= j < |photos|
      ensures !InEvent(name)(photos[j])
    {
      assert EventNames(photos)[j] == EventName(photos[j].title);
    }
    FilterDropsAll(InEvent(name), photos);
  }

  /** The groups form a partition: each photo lands in the group of its event name and in no other. */
  lemma PhotoInExactlyOneGroup(photos: seq<Photo>, j: int)
    requires 0 <= j < |photos|
    ensures var groups := GroupByEvent(photos);
            && Distinct(Names(groups))
            && (exists i :: 0 <= i < |groups| && groups[i].name == EventName(photos[j].title))
            && forall i :: 0 <= i < |groups| ==>
                 (photos[j] in groups[i].photos <==> groups[i].name == EventName(photos[j].title))
  {
    var groups := GroupByEvent(photos);
    var name := EventName(photos[j].title);
    GroupNamesFirstSeen(photos);
    assert EventNames(photos)[j] == name;
    assert name in Names(groups);
    forall i | 0 <= i < |groups|
      ensures photos[j] in groups[i].photos <==> groups[i].name == name
    {
      GroupIsEventFilter(photos, i);
      assert InEvent(groups[i].name)(photos[j]) <==> groups[i].name == name;
    }
  }

  /** One group of `GroupByEvent(photos)` is the event filter of its name. */
  lemma GroupIsEventFilter(photos: seq<Photo>, i: int)
    requires 0 <= i < |GroupByEvent(photos)|
    ensures var g := GroupByEvent(photos)[i];
            g.photos == Filter(InEvent(g.name), photos)
  {
    GroupsAreEventFilters(photos);
  }

  /** Appending a photo to one existing group adds one to the total size. */
  lemma {:induction false} TotalSizeGrowOne(gs: seq<Group>, hs: seq<Group>, k: int)
    requires |gs| == |hs| && 0 <= k < |gs|
    requires |hs[k].photos| == |gs[k].photos| + 1
    requires forall i :: 0 <= i < |gs| && i != k ==> |hs[i].photos| == |gs[i].photos|
    ensures TotalSize(hs) == TotalSize(gs) + 1
    decreases |gs|
  {
    if k < |gs| - 1 {
      TotalSizeGrowOne(gs[..|gs| - 1], hs[..|hs| - 1], k);
    } else {
      TotalSizeSameSizes(gs[..|gs| - 1], hs[..|hs| - 1]);
    }
  }

  /** Groups of equal sizes have equal totals. */
  lemma {:induction false} TotalSizeSameSizes(gs: seq<Group>, hs: seq<Group>)
    requires |gs| == |hs|
    requires forall i :: 0 <= i < |gs| ==> |hs[i].photos| == |gs[i].photos|
    ensures TotalSize(hs) == TotalSize(gs)
    decreases |gs|
  {
    if |gs| > 0 {
      TotalSizeSameSizes(gs[..|gs| - 1], hs[..|hs| - 1]);
    }
  }

  /** One step of the `forEach` adds exactly one photo to the total. */
  lemma AddPhotoTotalSize(gs: seq<Group>, name: string, p: Photo)
    requires Distinct(Names(gs))
    ensures TotalSize(AddPhoto(gs, name, p)) == TotalSize(gs) + 1
  {
    var groups := AddPhoto(gs, name, p);
    if name in Names(gs) {
      var k :| 0 <= k < |gs| && Names(gs)[k] == name;
      assert forall i :: 0 <= i < |gs| && i != k ==> Names(gs)[i] != name;
      TotalSizeGrowOne(gs, groups, k);
    } else {
      assert groups[..|groups| - 1] == gs;
    }
  }

  /** The group sizes sum to the number of photos. */
  lemma {:induction false} GroupSizesSum(photos: seq<Photo>)
    ensures TotalSize(GroupByEvent(photos)) == |photos|
    decreases |photos|
  {
    if |photos| > 0 {
      var init := photos[..|photos| - 1];
      var last := photos[|photos| - 1];
      GroupSizesSum(init);
      GroupNamesFirstSeen(init);
      AddPhotoTotalSize(GroupByEvent(init), EventName(last.title), last);
    }
  }

  /**
   When every title is unique and none contains the separator, every photo
   gets a group of its own, named by its title, in dataset order.
   */
  lemma UniqueTitlesGiveSingletons(photos: seq<Photo>)
    requires forall i, j :: 0 <= i < j < |photos| ==> photos[i].title != photos[j].title
    requires forall i, k :: 0 <= i < |photos| ==> !OccursAt(photos[i].title, Separator, k)
    ensures var groups := GroupByEvent(photos);
            && |groups| == |photos|
            && forall i :: 0 <= i < |photos| ==> groups[i] == Group(photos[i].title, [photos[i]])
  {
    var groups := GroupByEvent(photos);
    var names := EventNames(photos);
    assert forall i :: 0 <= i < |photos| ==> names[i] == photos[i].title;
    FirstOccurrencesOfDistinct(names);
    GroupNamesFirstSeen(photos);
    GroupsAreEventFilters(photos);
    forall i | 0 <= i < |photos|
      ensures groups[i] == Group(photos[i].title, [photos[i]])
    {
      var f := InEvent(photos[i].title);
      assert forall j :: 0 <= j < |photos| ==> (f(photos[j]) <==> j == i);
      FilterSingle(f, photos, i);
    }
  }
}
