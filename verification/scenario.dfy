/** The worked example of three photos from two events. */
module Scenario {
  import opened Wrappers
  import opened Text
  import opened Seqs
  import opened Photos
  import opened Events

  const A: Photo := Photo("a", "Hackathon - Day 1", "", ["ai", "ml"], "events", "", "")
  const B: Photo := Photo("b", "Hackathon - Day 2", "", ["ai"], "events", "", "")
  const C: Photo := Photo("c", "Workshop - Intro", "", ["react"], "workshops", "", "")

  /** A title of the form `<name> - <rest>` with no blank in `<name>` belongs to event `<name>`. */
  lemma EventNameOfTitle(name: string, rest: string)
    requires name != ""
    requires forall i :: 0 <= i < |name| ==> name[i] != ' '
    ensures EventName(name + Separator + rest) == name
  {
    var t := name + Separator + rest;
    assert t[..|name|] == name;
    assert t[|name|..|name| + |Separator|] == Separator;
    NoOccurrenceBefore(t, Separator, |name|);
    FirstSegmentUnique(t, Separator, name);
  }

  /** `a`, `b` and `c` belong to the events `Hackathon`, `Hackathon` and `Workshop`. */
  lemma NameOfA()
    ensures EventName(A.title) == "Hackathon"
  {
    assert A.title == "Hackathon" + Separator + "Day 1";
    EventNameOfTitle("Hackathon", "Day 1");
  }

  lemma NameOfB()
    ensures EventName(B.title) == "Hackathon"
  {
    assert B.title == "Hackathon" + Separator + "Day 2";
    EventNameOfTitle("Hackathon", "Day 2");
  }

  lemma NameOfC()
    ensures EventName(C.title) == "Workshop"
  {
    assert C.title == "Workshop" + Separator + "Intro";
    EventNameOfTitle("Workshop", "Intro");
  }

  /** Two photos of one event followed by one of another make two groups, in that order. */
  lemma GroupsOfThree(x: Photo, y: Photo, z: Photo)
    requires EventName(x.title) == EventName(y.title) != EventName(z.title)
    ensures GroupByEvent([x, y, z])
         == [Group(EventName(x.title), [x, y]), Group(EventName(z.title), [z])]
  {
    var kx, kz := EventName(x.title), EventName(z.title);
    var ps := [x, y, z];
    assert ps[..2] == [x, y] && [x, y][..1] == [x] && [x][..0] == [];
    var g1 := GroupByEvent([x]);
    assert GroupByEvent([]) == [];
    assert g1 == AddPhoto(GroupByEvent([x][..0]), kx, x);
    assert Names([]) == [];
    assert g1 == [Group(kx, [x])];
    var g2 := GroupByEvent([x, y]);
    assert g2 == AddPhoto(g1, kx, y);
    assert Names(g1) == [kx];
    assert |g2| == 1 && g2[0] == Group(kx, [x] + [y]);
    assert [x] + [y] == [x, y];
    assert g2 == [Group(kx, [x, y])];
    assert GroupByEvent(ps) == AddPhoto(g2, kz, z);
    assert Names(g2) == [kx];
  }

  /** Grouping the example gives `Hackathon: [a, b]` and `Workshop: [c]`. */
  lemma ScenarioGroups()
    ensures GroupByEvent([A, B, C]) == [Group("Hackathon", [A, B]), Group("Workshop", [C])]
  {
    NameOfA();
    NameOfB();
    NameOfC();
    GroupsOfThree(A, B, C);
  }

  /** A needle whose first two characters never stand side by side in `hay` does not occur in it. */
  lemma AbsentPair(hay: string, needle: string)
    requires |needle| >= 2
    requires forall i :: 0 <= i < |hay| - 1 ==> !(hay[i] == needle[0] && hay[i + 1] == needle[1])
    ensures !Contains(hay, needle)
  {
    forall i
      ensures !OccursAt(hay, needle, i)
    {
      if 0 <= i && i + |needle| <= |hay| {
        assert hay[i..i + |needle|][0] == hay[i];
        assert hay[i..i + |needle|][1] == hay[i + 1];
      }
    }
  }

  /** Photo `a` matches the search `ai` through its tag. */
  lemma SearchAiMatchesA()
    ensures MatchesSearch(A, "ai")
  {
    assert Lower("ai") == "ai";
    ContainsPrefix(Lower(A.tags[0]), "ai");
  }

  /** Photo `b` matches the search `ai` through its tag. */
  lemma SearchAiMatchesB()
    ensures MatchesSearch(B, "ai")
  {
    assert Lower("ai") == "ai";
    ContainsPrefix(Lower(B.tags[0]), "ai");
  }

  /** Photo `c` has `ai` in neither its title, its description nor its tag. */
  lemma SearchAiMissesC()
    ensures !MatchesSearch(C, "ai")
  {
    assert Lower("ai") == "ai";
    AiNotInTitleOfC();
    AbsentPair(Lower(C.description), "ai");
    AiNotInTagOfC();
    NotInAnyTag(C.tags, "ai");
  }

  /** The lower-cased title of `c` has no `a` followed by `i`. */
  lemma AiNotInTitleOfC()
    ensures !Contains(Lower(C.title), "ai")
  {
    assert Lower(C.title) == "workshop - intro";
    AbsentPair("workshop - intro", "ai");
  }

  /** Nor does its tag. */
  lemma AiNotInTagOfC()
    ensures !Contains(Lower(C.tags[0]), "ai")
  {
    assert Lower(C.tags[0]) == "react";
    AbsentPair("react", "ai");
  }

  /** A one-tag list contains `needle` in some tag exactly when its tag does. */
  lemma NotInAnyTag(tags: seq<string>, needle: string)
    requires |tags| == 1 && !Contains(Lower(tags[0]), needle)
    ensures !SomeTagContains(tags, needle)
  {
  }

  /** Searching the example for `ai` in all categories gives `[a, b]`. */
  lemma ScenarioSearch()
    ensures FilterPhotos([A, B, C], "ai", AllCategories, None) == [A, B]
  {
    SearchAiMatchesA();
    SearchAiMatchesB();
    SearchAiMissesC();
    FilterOfThree(QueryTest("ai", AllCategories), A, B, C);
  }

  /** Keeping the first two of three elements. */
  lemma FilterOfThree<T>(f: T -> bool, x: T, y: T, z: T)
    requires f(x) && f(y) && !f(z)
    ensures Filter(f, [x, y, z]) == [x, y]
  {
    var ps := [x, y, z];
    assert ps[1..] == [y, z] && ps[1..][1..] == [z] && ps[1..][1..][1..] == [];
    assert Filter(f, [z]) == [] + Filter(f, [z][1..]);
    assert Filter(f, [y, z]) == [y] + Filter(f, [z]);
    assert Filter(f, ps) == [x] + Filter(f, [y, z]);
  }
}
