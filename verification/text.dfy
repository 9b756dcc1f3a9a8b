/**
 String primitives the page relies on: `toLowerCase`, `includes` and the first
 piece of `split(sep)`. Strings are sequences of characters.
 */
module Text {

  /** Upper-case letters this model lower-cases: ASCII A-Z and Latin-1 U+00C0-U+00DE except U+00D7. */
  predicate IsUpper(c: char) {
    ('A' <= c <= 'Z') || ('À' <= c <= 'Þ' && c != '×')
  }

  /** One character of `toLowerCase`: an upper-case letter moves 32 code points up, to its lower-case form; all else stays. */
  function LowerChar(c: char): (r: char)
    ensures IsUpper(c) ==> r as int == c as int + 32
    ensures !IsUpper(c) ==> r == c
    ensures !IsUpper(r)
  {
    if IsUpper(c) then (c as int + 32) as char else c
  }

  /** `toLowerCase`, applied character by character. */
  function Lower(s: string): (r: string)
    ensures |r| == |s|
    ensures forall i :: 0 <= i < |s| ==> r[i] == LowerChar(s[i])
  {
    seq(|s|, i requires 0 <= i < |s| => LowerChar(s[i]))
  }

  /** Lower-casing twice is lower-casing once. */
  lemma LowerIdempotent(s: string)
    ensures Lower(Lower(s)) == Lower(s)
  {
    assert forall i :: 0 <= i < |s| ==> LowerChar(LowerChar(s[i])) == LowerChar(s[i]);
  }

  /** Lower-casing keeps prefixes: a prefix of `s`, lower-cased, is a prefix of `s` lower-cased. */
  lemma LowerPrefix(p: string, s: string)
    requires p <= s
    ensures Lower(p) <= Lower(s)
  {
    assert forall i :: 0 <= i < |p| ==> Lower(p)[i] == Lower(s)[i];
  }

  /** `needle` sits in `hay` starting at position `i`. */
  predicate OccursAt(hay: string, needle: string, i: int) {
    0 <= i && i + |needle| <= |hay| && hay[i..i + |needle|] == needle
  }

  /** Shifting the haystack by one character shifts every occurrence by one. */
  lemma OccursAtTail(hay: string, needle: string)
    requires |hay| > 0
    ensures forall i :: 0 <= i ==> (OccursAt(hay[1..], needle, i) <==> OccursAt(hay, needle, i + 1))
  {
    forall i | 0 <= i
      ensures OccursAt(hay[1..], needle, i) <==> OccursAt(hay, needle, i + 1)
    {
      if 0 <= i && i + |needle| <= |hay| - 1 {
        assert hay[1..][i..i + |needle|] == hay[i + 1..i + 1 + |needle|];
      }
    }
  }

  /** String `includes`: true exactly when `needle` occurs somewhere in `hay`. */
  function Contains(hay: string, needle: string): (r: bool)
    ensures r <==> exists i :: OccursAt(hay, needle, i)
    decreases |hay|
  {
    if needle <= hay then
      assert OccursAt(hay, needle, 0);
      true
    else if |hay| == 0 then
      false
    else
      OccursAtTail(hay, needle);
      var r := Contains(hay[1..], needle);
      assert r ==> exists i :: OccursAt(hay, needle, i) by {
        if r {
          var i :| OccursAt(hay[1..], needle, i);
          assert OccursAt(hay, needle, i + 1);
        }
      }
      assert (exists i :: OccursAt(hay, needle, i)) ==> r by {
        if exists i :: OccursAt(hay, needle, i) {
          var i :| OccursAt(hay, needle, i);
          assert i != 0;
          assert OccursAt(hay[1..], needle, i - 1);
        }
      }
      r
  }

  /** Every string contains the empty string. */
  lemma ContainsEmpty(hay: string)
    ensures Contains(hay, "")
  {
    assert OccursAt(hay, "", 0);
  }

  /** A string contains each of its prefixes. */
  lemma ContainsPrefix(hay: string, p: string)
    requires p <= hay
    ensures Contains(hay, p)
  {
    assert OccursAt(hay, p, 0);
  }

  /**
   The first piece of `s.split(sep)` for a non-empty separator: the text before
   the first occurrence of `sep`, or all of `s` when `sep` does not occur.
   */
  function FirstSegment(s: string, sep: string): (r: string)
    requires |sep| > 0
    ensures r <= s
    ensures forall i :: 0 <= i < |r| ==> !OccursAt(s, sep, i)
    ensures |r| == |s| || OccursAt(s, sep, |r|)
    decreases |s|
  {
    if sep <= s then
      assert OccursAt(s, sep, 0);
      ""
    else if |s| == 0 then
      ""
    else
      OccursAtTail(s, sep);
      var rest := FirstSegment(s[1..], sep);
      assert forall i :: 1 <= i < |rest| + 1 ==> !OccursAt(s, sep, i) by {
        forall i | 1 <= i < |rest| + 1
          ensures !OccursAt(s, sep, i)
        {
          assert !OccursAt(s[1..], sep, i - 1);
        }
      }
      assert |rest| + 1 == |s| || OccursAt(s, sep, |rest| + 1) by {
        if |rest| != |s| - 1 {
          assert OccursAt(s[1..], sep, |rest|);
        }
      }
      [s[0]] + rest
  }

  /**
   The first segment is the only prefix that is followed by `sep` and holds no
   earlier occurrence of it.
   */
  lemma FirstSegmentUnique(s: string, sep: string, p: string)
    requires |sep| > 0
    requires p <= s
    requires forall i :: 0 <= i < |p| ==> !OccursAt(s, sep, i)
    requires |p| == |s| || OccursAt(s, sep, |p|)
    ensures FirstSegment(s, sep) == p
  {
    var r := FirstSegment(s, sep);
    assert |r| < |p| ==> !OccursAt(s, sep, |r|);
    assert |p| < |r| ==> !OccursAt(s, sep, |p|);
  }

  /** `sep` cannot start at a position whose character differs from its first one. */
  lemma NoOccurrenceBefore(s: string, sep: string, k: int)
    requires |sep| > 0 && 0 <= k <= |s|
    requires forall i :: 0 <= i < k ==> s[i] != sep[0]
    ensures forall i :: 0 <= i < k ==> !OccursAt(s, sep, i)
  {
    forall i | 0 <= i < k
      ensures !OccursAt(s, sep, i)
    {
      if i + |sep| <= |s| {
        assert s[i..i + |sep|][0] == s[i];
      }
    }
  }
}
