/** The Python string operations the pipeline relies on: `str.strip()`,
    `str.lower()`, the `in` substring test, `str.join` and `str.rfind`. */
module Text {

  /** Python's `str.isspace()` on one character: the ASCII whitespace and
      separator controls together with the Unicode space characters. */
  const SpaceChars: set<char> := {' ', '\t', '\n', '\U{0B}', '\U{0C}', '\r', '\U{1C}', '\U{1D}', '\U{1E}', '\U{1F}', '\U{85}', '\U{A0}', '\U{1680}',
    '\U{2000}', '\U{2001}', '\U{2002}', '\U{2003}', '\U{2004}', '\U{2005}', '\U{2006}', '\U{2007}', '\U{2008}', '\U{2009}', '\U{200A}',
    '\U{2028}', '\U{2029}', '\U{202F}', '\U{205F}', '\U{3000}'}

  predicate IsSpace(c: char) {
    c in SpaceChars
  }

  /** Every character of `s` is whitespace (in particular, `s` may be empty). */
  predicate IsBlank(s: string) {
    forall i :: 0 <= i < |s| ==> IsSpace(s[i])
  }

  /** Length of the longest all-whitespace prefix of `s`. */
  function LeadingSpaces(s: string): (n: nat)
    ensures n <= |s|
    decreases |s|
  {
    if |s| == 0 || !IsSpace(s[0]) then 0 else 1 + LeadingSpaces(s[1..])
  }

  /** Length of the longest all-whitespace suffix of `s`. */
  function TrailingSpaces(s: string): (n: nat)
    ensures n <= |s|
    decreases |s|
  {
    if |s| == 0 || !IsSpace(s[|s| - 1]) then 0 else 1 + TrailingSpaces(s[..|s| - 1])
  }

  lemma {:induction false} LeadingSpacesSpec(s: string)
    ensures forall i :: 0 <= i < LeadingSpaces(s) ==> IsSpace(s[i])
    ensures LeadingSpaces(s) < |s| ==> !IsSpace(s[LeadingSpaces(s)])
    decreases |s|
  {
    if |s| > 0 && IsSpace(s[0]) {
      LeadingSpacesSpec(s[1..]);
    }
  }

  lemma {:induction false} TrailingSpacesSpec(s: string)
    ensures forall i :: |s| - TrailingSpaces(s) <= i < |s| ==> IsSpace(s[i])
    ensures TrailingSpaces(s) < |s| ==> !IsSpace(s[|s| - TrailingSpaces(s) - 1])
    decreases |s|
  {
    if |s| > 0 && IsSpace(s[|s| - 1]) {
      TrailingSpacesSpec(s[..|s| - 1]);
    }
  }

  /** Python's `str.strip()`: `s` without its leading and trailing
      whitespace. What it keeps and removes is stated in `StripSpec`. */
  function Strip(s: string): (r: string)
    ensures |r| <= |s|
  {
    var a := LeadingSpaces(s);
    if a == |s| then []
    else
      var b := |s| - TrailingSpaces(s);
      if a < b then s[a..b] else []
  }

  /** `Strip` keeps the slice that starts after the leading whitespace and
      ends before the trailing whitespace. */
  lemma StripSlice(s: string)
    ensures LeadingSpaces(s) + |Strip(s)| <= |s|
    ensures Strip(s) == s[LeadingSpaces(s)..LeadingSpaces(s) + |Strip(s)|]
    ensures LeadingSpaces(s) < |s| ==> |Strip(s)| == |s| - TrailingSpaces(s) - LeadingSpaces(s) > 0
  {
    var a := LeadingSpaces(s);
    if a < |s| {
      LeadingSpacesSpec(s);
      TrailingSpacesSpec(s);
      assert !IsSpace(s[a]);
    }
  }

  /** What `Strip` removes is whitespace. */
  lemma StripRemovesBlanks(s: string)
    ensures LeadingSpaces(s) + |Strip(s)| <= |s|
    ensures IsBlank(s[..LeadingSpaces(s)])
    ensures IsBlank(s[LeadingSpaces(s) + |Strip(s)|..])
  {
    var a := LeadingSpaces(s);
    StripSlice(s);
    LeadingSpacesSpec(s);
    forall i | 0 <= i < a ensures IsSpace(s[..a][i]) {
      assert s[..a][i] == s[i];
    }
    if a < |s| {
      TrailingSpacesSpec(s);
      var b := |s| - TrailingSpaces(s);
      forall i | 0 <= i < |s| - b ensures IsSpace(s[b..][i]) {
        assert s[b..][i] == s[b + i];
      }
    }
  }

  /** `Strip` gives the empty string exactly for a blank string, and
      otherwise a string that neither starts nor ends with whitespace. */
  lemma StripEnds(s: string)
    ensures Strip(s) == [] <==> IsBlank(s)
    ensures Strip(s) != [] ==> !IsSpace(Strip(s)[0]) && !IsSpace(Strip(s)[|Strip(s)| - 1])
  {
    var a := LeadingSpaces(s);
    LeadingSpacesSpec(s);
    StripSlice(s);
    if a < |s| {
      TrailingSpacesSpec(s);
      var b := |s| - TrailingSpaces(s);
      assert Strip(s)[0] == s[a];
      assert Strip(s)[|Strip(s)| - 1] == s[b - 1];
    }
  }

  /** `Strip` removes whitespace only, and all of it at both ends: the result
      is the slice of `s` that starts after the leading whitespace, what lies
      before and after it is whitespace, the result is empty exactly when `s`
      is blank, and otherwise it neither starts nor ends with whitespace. */
  lemma StripSpec(s: string)
    ensures LeadingSpaces(s) + |Strip(s)| <= |s|
    ensures Strip(s) == s[LeadingSpaces(s)..LeadingSpaces(s) + |Strip(s)|]
    ensures IsBlank(s[..LeadingSpaces(s)])
    ensures IsBlank(s[LeadingSpaces(s) + |Strip(s)|..])
    ensures Strip(s) == [] <==> IsBlank(s)
    ensures Strip(s) != [] ==> !IsSpace(Strip(s)[0]) && !IsSpace(Strip(s)[|Strip(s)| - 1])
  {
    StripSlice(s);
    StripRemovesBlanks(s);
    StripEnds(s);
  }

  /** A string that neither starts nor ends with whitespace is its own
      strip; in particular stripping twice is stripping once. */
  lemma StripTrimmed(s: string)
    requires s != [] ==> !IsSpace(s[0]) && !IsSpace(s[|s| - 1])
    ensures Strip(s) == s
    ensures Strip(Strip(s)) == Strip(s)
  {
    if s != [] {
      assert LeadingSpaces(s) == 0;
      assert TrailingSpaces(s) == 0;
    }
  }

  lemma StripIdempotent(s: string)
    ensures Strip(Strip(s)) == Strip(s)
  {
    StripSpec(s);
    StripTrimmed(Strip(s));
  }

  /** Lower-casing of one character as Python's `str.lower()` does it for the
      Latin and Cyrillic capitals; every other character is left as it is. */
  function LowerChar(c: char): (d: char)
  {
    if 'A' <= c <= 'Z' then (c as int + 32) as char
    else if '\U{0410}' <= c <= '\U{042F}' then (c as int + 32) as char  // А..Я
    else if '\U{0400}' <= c <= '\U{040F}' then (c as int + 80) as char  // Ѐ..Џ, Ё among them
    else c
  }

  /** The capitals `LowerChar` maps: Latin A..Z and Cyrillic U+0400..U+042F. */
  predicate IsUpper(c: char) {
    'A' <= c <= 'Z' || '\U{0400}' <= c <= '\U{042F}'
  }

  /** Python's `str.lower()` on a whole string, character by character: no
      capital survives, every other character stays where it was, and a
      capital becomes a lower-case letter. */
  function Lower(s: string): (r: string)
    ensures |r| == |s|
    ensures forall i :: 0 <= i < |r| ==> !IsUpper(r[i])
    ensures forall i :: 0 <= i < |s| && !IsUpper(s[i]) ==> r[i] == s[i]
    ensures forall i :: 0 <= i < |s| && IsUpper(s[i]) ==> r[i] != s[i]
    ensures forall i :: 0 <= i < |s| ==> r[i] == LowerChar(s[i])
  {
    seq(|s|, i requires 0 <= i < |s| => LowerChar(s[i]))
  }

  /** Lower-casing a lower-cased string changes nothing. */
  lemma LowerIdempotent(s: string)
    ensures Lower(Lower(s)) == Lower(s)
  {
    forall i | 0 <= i < |s| ensures LowerChar(LowerChar(s[i])) == LowerChar(s[i]) {
    }
  }

  /** Python's `needle in hay` for strings: `needle` occurs as a contiguous
      piece of `hay` (the empty string occurs in every string). */
  predicate Contains(hay: string, needle: string) {
    exists i :: 0 <= i <= |hay| - |needle| && OccursAt(hay, needle, i)
  }

  /** `needle` occurs in `hay` starting at index `i`. */
  predicate OccursAt(hay: string, needle: string, i: nat) {
    i + |needle| <= |hay| && hay[i..i + |needle|] == needle
  }

  lemma ContainsEmpty(hay: string)
    ensures Contains(hay, [])
  {
    assert OccursAt(hay, [], 0);
  }

  /** Only the empty string occurs in the empty string. */
  lemma ContainedInEmpty(needle: string)
    ensures Contains([], needle) <==> needle == []
  {
    if needle == [] {
      ContainsEmpty([]);
    }
  }

  /** The middle of a concatenation occurs in it. */
  lemma ContainsInfix(a: string, b: string, c: string)
    ensures Contains(a + b + c, b)
  {
    assert OccursAt(a + b + c, b, |a|);
  }

  /** Containment is transitive. */
  lemma ContainsTransitive(a: string, b: string, c: string)
    requires Contains(a, b) && Contains(b, c)
    ensures Contains(a, c)
  {
    var i :| 0 <= i <= |a| - |b| && OccursAt(a, b, i);
    var j :| 0 <= j <= |b| - |c| && OccursAt(b, c, j);
    forall k | 0 <= k < |c|
      ensures a[i + j + k] == c[k]
    {
      assert c[k] == b[j + k] == a[i + j + k];
    }
    assert a[i + j..i + j + |c|] == c;
    assert OccursAt(a, c, i + j);
  }

  /** Python's `sep.join(parts)`. */
  function Join(sep: string, parts: seq<string>): string
    decreases |parts|
  {
    if |parts| == 0 then []
    else if |parts| == 1 then parts[0]
    else parts[0] + sep + Join(sep, parts[1..])
  }

  /** Joining two or more parts puts the first part, the separator and the
      join of the rest one after another. */
  lemma JoinCons(sep: string, parts: seq<string>)
    requires |parts| >= 2
    ensures Join(sep, parts) == parts[0] + sep + Join(sep, parts[1..])
  {
  }

  /** The first part and the join of the rest occur in the joined string. */
  lemma JoinContainsFirstAndRest(sep: string, parts: seq<string>)
    requires |parts| >= 2
    ensures Contains(Join(sep, parts), parts[0])
    ensures Contains(Join(sep, parts), Join(sep, parts[1..]))
  {
    var rest := Join(sep, parts[1..]);
    JoinCons(sep, parts);
    assert OccursAt(Join(sep, parts), parts[0], 0);
    assert OccursAt(Join(sep, parts), rest, |parts[0]| + |sep|);
  }

  /** Every part occurs in the joined string. */
  lemma {:induction false} JoinContainsParts(sep: string, parts: seq<string>)
    ensures forall i :: 0 <= i < |parts| ==> Contains(Join(sep, parts), parts[i])
    decreases |parts|
  {
    if |parts| == 1 {
      assert OccursAt(Join(sep, parts), parts[0], 0);
    } else if |parts| >= 2 {
      var joined, rest := Join(sep, parts), Join(sep, parts[1..]);
      JoinContainsParts(sep, parts[1..]);
      JoinContainsFirstAndRest(sep, parts);
      forall i | 1 <= i < |parts|
        ensures Contains(joined, parts[i])
      {
        assert parts[i] == parts[1..][i - 1];
        ContainsTransitive(joined, rest, parts[i]);
      }
    }
  }

  /** Joining parts that are all non-empty gives the empty string exactly
      when there are no parts. */
  lemma {:induction false} JoinEmpty(sep: string, parts: seq<string>)
    requires forall i :: 0 <= i < |parts| ==> parts[i] != []
    ensures Join(sep, parts) == [] <==> parts == []
  {
    if |parts| >= 2 {
      assert |Join(sep, parts)| >= |parts[0]| > 0;
    } else if |parts| == 1 {
      assert Join(sep, parts) == parts[0];
    }
  }

  /** Python's `s.rfind(c)` for a single character: the last index holding
      `c`, or -1 when `c` does not occur. */
  function RFind(s: string, c: char): (r: int)
    ensures -1 <= r < |s|
    ensures r >= 0 ==> s[r] == c
    ensures forall k :: r < k < |s| ==> s[k] != c
    decreases |s|
  {
    if |s| == 0 then -1
    else if s[|s| - 1] == c then |s| - 1
    else RFind(s[..|s| - 1], c)
  }

  /** `rfind` finds the occurrence after which `c` does not occur again. */
  lemma RFindLast(s: string, c: char, k: nat)
    requires k < |s| && s[k] == c
    requires forall j :: k < j < |s| ==> s[j] != c
    ensures RFind(s, c) == k
  {
  }

}
