/** The .NET string primitives the core relies on, over Dafny strings (sequences of
    Unicode scalar values). Comparisons are ordinal and case mapping covers the ASCII
    letters only. */
module Text {

  /** Char.IsWhiteSpace: the Unicode space, line and paragraph separators, and the
      control characters U+0009..U+000D and U+0085. */
  predicate IsWhiteSpace(c: char) {
    || c == ' '
    || ('\t' <= c <= '\r')
    || c == '\U{85}' || c == '\U{A0}' || c == '\U{1680}'
    || ('\U{2000}' <= c <= '\U{200A}')
    || c == '\U{2028}' || c == '\U{2029}' || c == '\U{202F}' || c == '\U{205F}'
    || c == '\U{3000}'
  }

  /** string.IsNullOrWhiteSpace on a string that is not null. */
  predicate IsNullOrWhiteSpace(s: string) {
    forall i | 0 <= i < |s| :: IsWhiteSpace(s[i])
  }

  /** string.StartsWith, compared ordinally. */
  predicate StartsWith(s: string, prefix: string) {
    |prefix| <= |s| && s[..|prefix|] == prefix
  }

  predicate OccursAt(s: string, part: string, i: int) {
    0 <= i && i + |part| <= |s| && s[i..i + |part|] == part
  }

  /** string.Contains: an ordinal substring search from the left. */
  predicate Contains(s: string, part: string)
    ensures Contains(s, part) <==> exists i :: OccursAt(s, part, i)
    decreases |s|
  {
    if StartsWith(s, part) then
      assert OccursAt(s, part, 0);
      true
    else if |s| == 0 then
      false
    else
      ContainsShift(s, part);
      Contains(s[1..], part)
  }

  /** An occurrence not at the start of s is an occurrence in s[1..], one place earlier. */
  lemma ContainsShift(s: string, part: string)
    requires |s| > 0 && !StartsWith(s, part)
    ensures (exists i :: OccursAt(s, part, i)) <==> (exists j :: OccursAt(s[1..], part, j))
  {
    if i :| OccursAt(s, part, i) {
      assert i != 0;
      assert s[1..][i - 1..i - 1 + |part|] == s[i..i + |part|];
      assert OccursAt(s[1..], part, i - 1);
    }
    if j :| OccursAt(s[1..], part, j) {
      assert s[1..][j..j + |part|] == s[j + 1..j + 1 + |part|];
      assert OccursAt(s, part, j + 1);
    }
  }

  /** Length of the longest prefix of s whose characters all satisfy p. */
  function LeadingCount(s: string, p: char -> bool): (n: nat)
    ensures n <= |s|
    ensures forall k | 0 <= k < n :: p(s[k])
    ensures n < |s| ==> !p(s[n])
  {
    if |s| > 0 && p(s[0]) then 1 + LeadingCount(s[1..], p) else 0
  }

  /** Length of the longest suffix of s whose characters all satisfy p. */
  function TrailingCount(s: string, p: char -> bool): (n: nat)
    ensures n <= |s|
    ensures forall k | |s| - n <= k < |s| :: p(s[k])
    ensures n < |s| ==> !p(s[|s| - 1 - n])
  {
    if |s| > 0 && p(s[|s| - 1]) then 1 + TrailingCount(s[..|s| - 1], p) else 0
  }

  /** string.Trim(): drops the white space at both ends. The result is the part of s
      between a white-space prefix and a white-space suffix, and it neither starts nor
      ends with white space; those facts determine it. */
  function Trim(s: string): (r: string)
    ensures |r| <= |s|
    ensures r == "" <==> IsNullOrWhiteSpace(s)
    ensures r != "" ==> !IsWhiteSpace(r[0]) && !IsWhiteSpace(r[|r| - 1])
    ensures LeadingCount(s, IsWhiteSpace) + |r| <= |s|
    ensures s[LeadingCount(s, IsWhiteSpace)..LeadingCount(s, IsWhiteSpace) + |r|] == r
    ensures IsNullOrWhiteSpace(s[..LeadingCount(s, IsWhiteSpace)])
    ensures IsNullOrWhiteSpace(s[LeadingCount(s, IsWhiteSpace) + |r|..])
  {
    var lead := LeadingCount(s, IsWhiteSpace);
    var t := s[lead..];
    var r := t[..|t| - TrailingCount(t, IsWhiteSpace)];
    TrimPlaces(s, lead, t, r);
    TrimEnds(s, lead, t, r);
    r
  }

  /** The trimmed part sits between a white-space prefix and a white-space suffix. */
  lemma TrimPlaces(s: string, lead: nat, t: string, r: string)
    requires lead == LeadingCount(s, IsWhiteSpace) && t == s[lead..]
    requires r == t[..|t| - TrailingCount(t, IsWhiteSpace)]
    ensures lead + |r| <= |s| && s[lead..lead + |r|] == r
    ensures IsNullOrWhiteSpace(s[..lead]) && IsNullOrWhiteSpace(s[lead + |r|..])
  {
    assert s[lead + |r|..] == t[|t| - TrailingCount(t, IsWhiteSpace)..];
  }

  /** The trimmed part is empty exactly for a blank string, and otherwise starts and ends
      with something other than white space. */
  lemma TrimEnds(s: string, lead: nat, t: string, r: string)
    requires lead == LeadingCount(s, IsWhiteSpace) && t == s[lead..]
    requires r == t[..|t| - TrailingCount(t, IsWhiteSpace)]
    ensures r != "" ==> !IsWhiteSpace(r[0]) && !IsWhiteSpace(r[|r| - 1])
    ensures r == "" <==> IsNullOrWhiteSpace(s)
  {
    if r == "" {
      assert s == s[..lead];
    } else {
      assert r[0] == t[0] == s[lead];
      assert !IsWhiteSpace(s[lead]);
    }
  }

  /** Trimming a string that neither starts nor ends with white space changes nothing,
      so trimming twice is trimming once. */
  lemma TrimTrimmed(s: string)
    requires s != "" ==> !IsWhiteSpace(s[0]) && !IsWhiteSpace(s[|s| - 1])
    ensures Trim(s) == s
  {
    if s != "" {
      assert LeadingCount(s, IsWhiteSpace) == 0;
      assert TrailingCount(s, IsWhiteSpace) == 0;
    }
  }

  /** Index of the first occurrence of c in s, or |s| when there is none. */
  function IndexOf(s: string, c: char): (i: nat)
    ensures i <= |s|
    ensures c !in s[..i]
    ensures i < |s| ==> s[i] == c
  {
    if |s| == 0 || s[0] == c then 0 else 1 + IndexOf(s[1..], c)
  }

  /** string.Join(sep, parts). */
  function Join(parts: seq<string>, sep: char): string
  {
    if |parts| == 0 then ""
    else if |parts| == 1 then parts[0]
    else parts[0] + [sep] + Join(parts[1..], sep)
  }

  /** string.Split(sep): every piece between separators, empty pieces included. Joining
      the pieces with the separator gives back s. */
  function Split(s: string, sep: char): (parts: seq<string>)
    ensures |parts| >= 1
    ensures forall i | 0 <= i < |parts| :: sep !in parts[i]
    ensures Join(parts, sep) == s
    decreases |s|
  {
    var i := IndexOf(s, sep);
    if i == |s| then
      [s]
    else
      var rest := Split(s[i + 1..], sep);
      assert ([s[..i]] + rest)[1..] == rest;
      assert s == s[..i] + [sep] + s[i + 1..];
      [s[..i]] + rest
  }

  /** The other half of the round trip: splitting pieces joined by a separator they do
      not contain gives the pieces back. */
  lemma {:induction false} SplitJoin(parts: seq<string>, sep: char)
    requires |parts| >= 1
    requires forall i | 0 <= i < |parts| :: sep !in parts[i]
    ensures Split(Join(parts, sep), sep) == parts
    decreases |parts|
  {
    var s := Join(parts, sep);
    var p := parts[0];
    if |parts| == 1 {
      IndexOfAbsent(p, sep);
    } else {
      var tail := Join(parts[1..], sep);
      assert s == p + [sep] + tail;
      IndexOfAfter(p, sep, tail);
      assert s[..|p|] == p;
      assert s[|p| + 1..] == tail;
      SplitJoin(parts[1..], sep);
      assert parts == [p] + parts[1..];
    }
  }

  /** Splitting at a separator between a and b splits a and b on their own: the pieces
      of a come first, then those of b. */
  lemma {:induction false} SplitAppend(a: string, b: string, sep: char)
    ensures Split(a + [sep] + b, sep) == Split(a, sep) + Split(b, sep)
    decreases |a|
  {
    var i := IndexOf(a, sep);
    if i == |a| {
      SplitAt(a, b, sep);
      assert Split(a, sep) == [a];
    } else {
      var p, rest := a[..i], a[i + 1..];
      assert a == p + [sep] + rest;
      assert a + [sep] + b == p + [sep] + (rest + [sep] + b);
      SplitAt(p, rest + [sep] + b, sep);
      SplitAt(p, rest, sep);
      SplitAppend(rest, b, sep);
      Associative([p], Split(rest, sep), Split(b, sep));
    }
  }

  lemma Associative<T>(x: seq<T>, y: seq<T>, z: seq<T>)
    ensures x + (y + z) == (x + y) + z
  {
  }

  /** Splitting at the first separator: the text before it, then the pieces of the rest. */
  lemma SplitAt(p: string, tail: string, sep: char)
    requires sep !in p
    ensures Split(p + [sep] + tail, sep) == [p] + Split(tail, sep)
  {
    var s := p + [sep] + tail;
    IndexOfAfter(p, sep, tail);
    assert s[..|p|] == p;
    assert s[|p| + 1..] == tail;
  }

  lemma IndexOfAbsent(s: string, c: char)
    requires c !in s
    ensures IndexOf(s, c) == |s|
  {
  }

  lemma {:induction false} IndexOfAfter(p: string, c: char, tail: string)
    requires c !in p
    ensures IndexOf(p + [c] + tail, c) == |p|
    decreases |p|
  {
    if |p| > 0 {
      assert (p + [c] + tail)[1..] == p[1..] + [c] + tail;
      IndexOfAfter(p[1..], c, tail);
    }
  }

  /** string.Split(new[] { sep }, 2, StringSplitOptions.RemoveEmptyEntries): no piece when
      s holds only separators; otherwise the first non-empty piece, followed, when
      anything but separators comes after it, by the rest of s from the next
      non-separator character on (trailing separators included). */
  function SplitInTwo(s: string, sep: char): (parts: seq<string>)
    ensures |parts| <= 2
    ensures forall i | 0 <= i < |parts| :: parts[i] != ""
    ensures parts == [] <==> forall k | 0 <= k < |s| :: s[k] == sep
    ensures |parts| >= 1 ==> sep !in parts[0]
    ensures |parts| == 2 ==> parts[1][0] != sep
  {
    var t := s[LeadingCount(s, Is(sep))..];
    var i := IndexOf(t, sep);
    var after := t[i..];
    var rest := after[LeadingCount(after, Is(sep))..];
    if t == "" then [] else if rest == "" then [t[..i]] else [t[..i], rest]
  }

  /** The test for one given character. */
  function Is(sep: char): char -> bool {
    c => c == sep
  }

  /** Where the pieces of a split of s sit in s: the first runs up to the first separator;
      with one piece only separators follow it; with two, the second runs to the end of s
      and only separators lie between them. */
  predicate Placed(s: string, sep: char, parts: seq<string>) {
    && |parts| >= 1
    && |parts[0]| == IndexOf(s, sep)
    && s[..|parts[0]|] == parts[0]
    && (|parts| == 1 ==> forall k | |parts[0]| <= k < |s| :: s[k] == sep)
    && (|parts| == 2 ==> && |parts[0]| < |s| - |parts[1]|
                         && s[|s| - |parts[1]|..] == parts[1]
                         && forall k | |parts[0]| <= k < |s| - |parts[1]| :: s[k] == sep)
  }

  /** The pieces of a string that does not start with a separator are placed as Placed
      says: the first runs up to the first separator, the second is what follows the run
      of separators after it, and nothing but separators is dropped. */
  lemma SplitInTwoPlaces(s: string, sep: char)
    requires s != "" && s[0] != sep
    ensures Placed(s, sep, SplitInTwo(s, sep))
  {
    var i := IndexOf(s, sep);
    var gap := LeadingCount(s[i..], Is(sep));
    var rest := s[i..][gap..];
    var parts := if rest == "" then [s[..i]] else [s[..i], rest];
    assert SplitInTwo(s, sep) == parts by {
      assert LeadingCount(s, Is(sep)) == 0;
      assert s[LeadingCount(s, Is(sep))..] == s;
    }
    assert Placed(s, sep, parts) by {
      SeparatorRun(s, sep, i, gap);
      if rest != "" {
        assert s[|s| - |rest|..] == rest;
      }
    }
  }

  /** The run of gap separators from position i on. */
  lemma SeparatorRun(s: string, sep: char, i: nat, gap: nat)
    requires i <= |s| && gap == LeadingCount(s[i..], Is(sep))
    ensures i + gap <= |s| && s[i..][gap..] == s[i + gap..]
    ensures forall k | i <= k < i + gap :: s[k] == sep
    ensures i + gap < |s| ==> s[i + gap] != sep
  {
    var after := s[i..];
    forall k | i <= k < i + gap
      ensures s[k] == sep
    {
      assert after[k - i] == s[k];
      assert Is(sep)(after[k - i]);
    }
    if i + gap < |s| {
      assert after[gap] == s[i + gap];
    }
  }

  /** A word without separators splits to itself. */
  lemma SplitInTwoWord(w: string, sep: char)
    requires w != "" && sep !in w
    ensures SplitInTwo(w, sep) == [w]
  {
    IndexOfAbsent(w, sep);
    SplitInTwoPlaces(w, sep);
    var parts := SplitInTwo(w, sep);
    assert parts[0] == w[..|w|] == w;
  }

  /** A word, one separator and a remainder that does not start with a separator split
      back into the word and the remainder. */
  lemma SplitInTwoPair(w: string, sep: char, rest: string)
    requires w != "" && sep !in w
    requires rest != "" && rest[0] != sep
    ensures SplitInTwo(w + [sep] + rest, sep) == [w, rest]
  {
    var s := w + [sep] + rest;
    var parts := SplitInTwo(s, sep);
    SplitInTwoPlaces(s, sep);
    IndexOfAfter(w, sep, rest);
    assert s[..|w|] == w;
    assert s[|w| + 1] == rest[0];
    assert |s| - |parts[1]| == |w| + 1;
    assert s[|w| + 1..] == rest;
  }

  /** Char.ToLower for an ASCII letter: an upper-case letter becomes its lower-case form;
      every other character is kept. */
  function LowerChar(c: char): (r: char)
    ensures !('A' <= r <= 'Z')
    ensures 'A' <= c <= 'Z' ==> 'a' <= r <= 'z' && r as int - c as int == 'a' as int - 'A' as int
    ensures !('A' <= c <= 'Z') ==> r == c
  {
    if 'A' <= c <= 'Z' then (c as int + 32) as char else c
  }

  /** string.ToLower() for the ASCII letters. It is also the key under which the
      case-insensitive comparer files a name: two names are the same key exactly when
      their lower-case forms are equal. */
  function Lower(s: string): (r: string)
    ensures |r| == |s|
    ensures forall i | 0 <= i < |s| :: r[i] == LowerChar(s[i])
    ensures forall i | 0 <= i < |r| :: !('A' <= r[i] <= 'Z')
    ensures forall i | 0 <= i < |s| && !('A' <= s[i] <= 'Z') :: r[i] == s[i]
  {
    seq(|s|, i requires 0 <= i < |s| => LowerChar(s[i]))
  }

  /** Lower-casing twice is lower-casing once: a lower-cased name is its own key. */
  lemma LowerIdempotent(s: string)
    ensures Lower(Lower(s)) == Lower(s)
  {
  }

  /** Lower-casing commutes with concatenation. */
  lemma LowerAppend(a: string, b: string)
    ensures Lower(a + b) == Lower(a) + Lower(b)
  {
  }
}
