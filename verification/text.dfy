/** Python's `str.strip()` with no argument, on strings of Unicode code points. */
module Text {

  /** The characters for which Python's `str.isspace()` holds, which are the
      ones `str.strip()` removes when it is given no argument. */
  const Whitespace: set<char> := {
    '\t', '\n', '\U{000B}', '\U{000C}', '\r',
    '\U{001C}', '\U{001D}', '\U{001E}', '\U{001F}', ' ',
    '\U{0085}', '\U{00A0}', '\U{1680}',
    '\U{2000}', '\U{2001}', '\U{2002}', '\U{2003}', '\U{2004}', '\U{2005}',
    '\U{2006}', '\U{2007}', '\U{2008}', '\U{2009}', '\U{200A}',
    '\U{2028}', '\U{2029}', '\U{202F}', '\U{205F}', '\U{3000}'
  }

  predicate IsSpace(c: char) {
    c in Whitespace
  }

  /** How many whitespace characters `s` begins with. */
  function LeadingSpaces(s: string): (n: nat)
    ensures n <= |s|
  {
    if |s| > 0 && IsSpace(s[0]) then 1 + LeadingSpaces(s[1..]) else 0
  }

  /** `s.strip()`: whitespace is peeled off both ends until neither end is
      whitespace. */
  function Strip(s: string): (r: string)
    ensures |r| <= |s|
  {
    if |s| == 0 then s
    else if IsSpace(s[0]) then Strip(s[1..])
    else if IsSpace(s[|s| - 1]) then Strip(s[..|s| - 1])
    else s
  }

  /** What `strip()` leaves is the contiguous slice of `s` that begins after
      its leading whitespace, and everything it removes is whitespace. */
  lemma {:induction false} StripSlice(s: string)
    ensures LeadingSpaces(s) + |Strip(s)| <= |s|
    ensures Strip(s) == s[LeadingSpaces(s)..LeadingSpaces(s) + |Strip(s)|]
    ensures forall k :: 0 <= k < LeadingSpaces(s) ==> IsSpace(s[k])
    ensures forall k :: LeadingSpaces(s) + |Strip(s)| <= k < |s| ==> IsSpace(s[k])
  {
    var r := Strip(s);
    if |s| == 0 {
    } else if IsSpace(s[0]) {
      var tail := s[1..];
      StripSlice(tail);
      var lo := LeadingSpaces(tail);
      assert r == tail[lo..lo + |r|] == s[1 + lo..1 + lo + |r|];
      forall k | 0 < k < |s|
        ensures s[k] == tail[k - 1]
      {
      }
    } else if IsSpace(s[|s| - 1]) {
      var init := s[..|s| - 1];
      StripSlice(init);
      assert LeadingSpaces(init) == 0 && LeadingSpaces(s) == 0;
      assert r == init[..|r|] == s[..|r|];
      forall k | 0 <= k < |s| - 1
        ensures s[k] == init[k]
      {
      }
    }
  }

  /** What `strip()` leaves neither begins nor ends with whitespace; with
      StripSlice this determines the result uniquely. */
  lemma {:induction false} StripTrimmed(s: string)
    ensures Strip(s) == [] || (!IsSpace(Strip(s)[0]) && !IsSpace(Strip(s)[|Strip(s)| - 1]))
  {
    if |s| == 0 {
    } else if IsSpace(s[0]) {
      StripTrimmed(s[1..]);
    } else if IsSpace(s[|s| - 1]) {
      StripTrimmed(s[..|s| - 1]);
    }
  }

  /** Stripping twice is stripping once. */
  lemma StripIdempotent(s: string)
    ensures Strip(Strip(s)) == Strip(s)
  {
    StripTrimmed(s);
  }

  /** A window made only of whitespace strips to the empty string. */
  lemma StripAllSpace(s: string)
    requires forall k :: 0 <= k < |s| ==> IsSpace(s[k])
    ensures Strip(s) == []
  {
    StripSlice(s);
    StripTrimmed(s);
  }
}
