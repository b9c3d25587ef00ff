/** The string operations behind the `name_contains` filter. */
module Text {

  /** ASCII case folding, standing in for Python's `str.lower()`. */
  function LowerChar(c: char): char
  {
    if 'A' <= c <= 'Z' then (c as int + 32) as char else c
  }

  function Lower(s: string): (r: string)
    ensures |r| == |s|
  {
    seq(|s|, i requires 0 <= i < |s| => LowerChar(s[i]))
  }

  /** Folding case twice is folding it once. */
  lemma LowerIdempotent(s: string)
    ensures Lower(Lower(s)) == Lower(s)
  {
    var once := Lower(s);
    forall i | 0 <= i < |s| ensures Lower(once)[i] == once[i] {
      assert once[i] == LowerChar(s[i]);
    }
  }

  /** `needle` occurs in `hay` starting at position `i`. */
  ghost predicate OccursAt(hay: string, needle: string, i: int)
  {
    0 <= i && i + |needle| <= |hay| && hay[i .. i + |needle|] == needle
  }

  /** Python's `needle in hay` on strings: substring containment. */
  function Contains(hay: string, needle: string): (b: bool)
    ensures b <==> exists i :: OccursAt(hay, needle, i)
    decreases |hay|
  {
    if needle <= hay then
      assert OccursAt(hay, needle, 0);
      true
    else if hay == [] then
      assert forall i :: !OccursAt(hay, needle, i);
      false
    else
      ShiftOccurrence(hay, needle);
      Contains(hay[1..], needle)
  }

  /** Occurrences in `hay` other than at 0 are the occurrences in `hay[1..]`, shifted. */
  lemma ShiftOccurrence(hay: string, needle: string)
    requires hay != [] && !(needle <= hay)
    ensures (exists i :: OccursAt(hay, needle, i)) <==> (exists i :: OccursAt(hay[1..], needle, i))
  {
    if exists i :: OccursAt(hay, needle, i) {
      var i :| OccursAt(hay, needle, i);
      assert i != 0;
      assert hay[1..][i - 1 .. i - 1 + |needle|] == hay[i .. i + |needle|];
      assert OccursAt(hay[1..], needle, i - 1);
    }
    if exists i :: OccursAt(hay[1..], needle, i) {
      var i :| OccursAt(hay[1..], needle, i);
      assert hay[i + 1 .. i + 1 + |needle|] == hay[1..][i .. i + |needle|];
      assert OccursAt(hay, needle, i + 1);
    }
  }

  /** A needle whose first character appears nowhere in `hay` does not occur in it. */
  lemma AbsentFirstChar(hay: string, needle: string)
    requires needle != []
    requires forall i :: 0 <= i < |hay| ==> hay[i] != needle[0]
    ensures !Contains(hay, needle)
  {
    forall i | 0 <= i <= |hay| - |needle| ensures !OccursAt(hay, needle, i) {
      assert hay[i .. i + |needle|][0] == hay[i];
    }
  }
}
