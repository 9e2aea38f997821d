/** The few Python `str` operations the two scripts rely on, written as Dafny
    functions over `seq<char>`: `strip`, `lstrip(chars)`, `in`, `startswith`,
    `endswith`, `split(sep)[0]`, `split(c)`, `join`, `replace(x, '')`,
    ASCII `lower()` and `str(n)` for a natural number. */
module PyStr {

  /** The characters `str.isspace()` accepts. */
  const WHITESPACE: set<char> := {
    ' ', '\t', '\n', '\r', '\U{B}', '\U{C}', '\U{1C}', '\U{1D}', '\U{1E}', '\U{1F}',
    '\U{85}', '\U{A0}', '\U{1680}', '\U{2000}', '\U{2001}', '\U{2002}', '\U{2003}',
    '\U{2004}', '\U{2005}', '\U{2006}', '\U{2007}', '\U{2008}', '\U{2009}', '\U{200A}',
    '\U{2028}', '\U{2029}', '\U{202F}', '\U{205F}', '\U{3000}'
  }

  // ---------------------------------------------------------------------------
  // Occurrence and containment (`pat in s`)
  // ---------------------------------------------------------------------------

  predicate OccursAt(s: string, pat: string, i: nat)
  {
    i + |pat| <= |s| && s[i..i + |pat|] == pat
  }

  /** Python's `pat in s`; also reads as "`pat` is a contiguous substring of `s`". */
  predicate Contains(s: string, pat: string)
  {
    exists i: nat :: i <= |s| - |pat| && OccursAt(s, pat, i)
  }

  lemma ContainsSelf(s: string)
    ensures Contains(s, s)
  {
    assert OccursAt(s, s, 0);
  }

  lemma SliceContained(s: string, lo: nat, hi: nat)
    requires lo <= hi <= |s|
    ensures Contains(s, s[lo..hi])
  {
    assert OccursAt(s, s[lo..hi], lo);
  }

  /** Containment is transitive: a substring of a substring is a substring. */
  lemma ContainsTrans(s: string, t: string, u: string)
    requires Contains(s, t) && Contains(t, u)
    ensures Contains(s, u)
  {
    var i: nat :| i <= |s| - |t| && OccursAt(s, t, i);
    var j: nat :| j <= |t| - |u| && OccursAt(t, u, j);
    forall k | 0 <= k < |u|
      ensures s[i + j + k] == u[k]
    {
      assert u[k] == t[j + k] == s[i + j + k];
    }
    assert OccursAt(s, u, i + j);
  }

  /** What `s` lacks, every substring of `s` lacks. */
  lemma NotContainsInherited(s: string, t: string, pat: string)
    requires Contains(s, t) && !Contains(s, pat)
    ensures !Contains(t, pat)
  {
    if Contains(t, pat) {
      ContainsTrans(s, t, pat);
    }
  }

  lemma CharContained(s: string, k: nat)
    requires k < |s|
    ensures Contains(s, [s[k]])
  {
    assert s[k..k + 1] == [s[k]];
    assert OccursAt(s, [s[k]], k);
  }

  /** A one-character pattern is contained exactly when the character occurs. */
  lemma CharContainedIff(s: string, c: char)
    ensures Contains(s, [c]) <==> c in s
  {
    if c in s {
      var k :| 0 <= k < |s| && s[k] == c;
      CharContained(s, k);
    }
    if Contains(s, [c]) {
      var i: nat :| i <= |s| - 1 && OccursAt(s, [c], i);
      assert s[i] == s[i..i + 1][0] == c;
    }
  }

  // ---------------------------------------------------------------------------
  // Prefixes and suffixes
  // ---------------------------------------------------------------------------

  /** `s.startswith(p)` */
  predicate StartsWith(s: string, p: string)
  {
    |p| <= |s| && s[..|p|] == p
  }

  /** `s.endswith(p)` */
  predicate EndsWith(s: string, p: string)
  {
    |p| <= |s| && s[|s| - |p|..] == p
  }

  /** Two prefixes of one string: the shorter is a prefix of the longer. */
  lemma PrefixesNest(s: string, p: string, q: string)
    requires StartsWith(s, p) && StartsWith(s, q) && |p| <= |q|
    ensures StartsWith(q, p)
  {
    assert q[..|p|] == s[..|q|][..|p|] == s[..|p|];
  }

  /** `s[n:]` with Python's clamping of an index past the end. */
  function Drop(s: string, n: nat): (r: string)
    ensures |r| == if n <= |s| then |s| - n else 0
    ensures Contains(s, r)
  {
    if n <= |s| then
      SliceContained(s, n, |s|);
      s[n..|s|]
    else
      SliceContained(s, 0, 0);
      []
  }

  // ---------------------------------------------------------------------------
  // Subsequences: what is left when characters are only dropped, never moved
  // ---------------------------------------------------------------------------

  /** `r` is `s` with some characters dropped and the rest kept in order. */
  predicate IsSubsequence(r: string, s: string)
    decreases |s|
  {
    r == [] || (s != [] && ((r[0] == s[0] && IsSubsequence(r[1..], s[1..])) || IsSubsequence(r, s[1..])))
  }

  lemma {:induction false} SubsequenceOfSuffix(r: string, s: string, k: nat)
    requires k <= |s| && IsSubsequence(r, s[k..])
    ensures IsSubsequence(r, s)
    decreases k
  {
    if k > 0 {
      assert s[1..][k - 1..] == s[k..];
      SubsequenceOfSuffix(r, s[1..], k - 1);
    }
  }

  lemma {:induction false} PrefixSubsequence(s: string, n: nat)
    requires n <= |s|
    ensures IsSubsequence(s[..n], s)
    decreases n
  {
    if n > 0 {
      assert s[..n][1..] == s[1..][..n - 1];
      PrefixSubsequence(s[1..], n - 1);
    }
  }

  /** A slice is a subsequence. */
  lemma SliceSubsequence(s: string, lo: nat, hi: nat)
    requires lo <= hi <= |s|
    ensures IsSubsequence(s[lo..hi], s)
  {
    assert s[lo..][..hi - lo] == s[lo..hi];
    PrefixSubsequence(s[lo..], hi - lo);
    SubsequenceOfSuffix(s[lo..hi], s, lo);
  }

  /** Dropping characters twice is dropping characters once. */
  lemma {:induction false} SubsequenceTrans(a: string, b: string, c: string)
    requires IsSubsequence(a, b) && IsSubsequence(b, c)
    ensures IsSubsequence(a, c)
    decreases |c|
  {
    if a != [] {
      if b[0] == c[0] && IsSubsequence(b[1..], c[1..]) {
        if a[0] == b[0] && IsSubsequence(a[1..], b[1..]) {
          SubsequenceTrans(a[1..], b[1..], c[1..]);
        } else {
          SubsequenceTrans(a, b[1..], c[1..]);
        }
      } else {
        SubsequenceTrans(a, b, c[1..]);
      }
    }
  }

  // ---------------------------------------------------------------------------
  // strip / lstrip / rstrip
  // ---------------------------------------------------------------------------

  /** `s.lstrip(chars)` with `chars` given as a set. */
  function LStrip(s: string, cs: set<char>): (r: string)
    ensures |r| <= |s| && r == s[|s| - |r|..]
    ensures r != [] ==> r[0] !in cs
    ensures forall i :: 0 <= i < |s| - |r| ==> s[i] in cs
  {
    if s != [] && s[0] in cs then LStrip(s[1..], cs) else s
  }

  lemma LStripContained(s: string, cs: set<char>)
    ensures Contains(s, LStrip(s, cs))
  {
    var r := LStrip(s, cs);
    assert OccursAt(s, r, |s| - |r|);
  }

  /** `s.rstrip(chars)` with `chars` given as a set. */
  function RStrip(s: string, cs: set<char>): (r: string)
    ensures |r| <= |s| && r == s[..|r|]
    ensures r != [] ==> r[|r| - 1] !in cs
    ensures forall i :: |r| <= i < |s| ==> s[i] in cs
  {
    if s != [] && s[|s| - 1] in cs then RStrip(s[..|s| - 1], cs) else s
  }

  /** `s.strip()`: a substring of `s` that neither starts nor ends with
      whitespace, obtained by removing only whitespace. */
  function Strip(s: string): (r: string)
    ensures Contains(s, r)
    ensures |r| <= |s|
    ensures r != [] ==> r[0] !in WHITESPACE && r[|r| - 1] !in WHITESPACE
  {
    var lo := SpaceEnd(s, 0);
    var t := s[lo..];
    var hi := SpaceStart(t, |t|);
    var r := t[..hi];
    assert s[lo..][..|r|] == s[lo..lo + |r|];
    assert OccursAt(s, r, lo);
    r
  }

  /** `strip()` removes only whitespace: what it returns sits at the returned
      index with nothing but whitespace before and after it. */
  lemma StripExact(s: string) returns (lo: nat)
    ensures WhitespaceAround(s, Strip(s), lo)
  {
    lo := SpaceEnd(s, 0);
    var t := s[lo..];
    var r := Strip(s);
    assert r == t[..SpaceStart(t, |t|)];
    assert s[lo..][..|r|] == s[lo..lo + |r|];
    assert forall i :: lo + |r| <= i < |s| ==> s[i] == t[i - lo];
  }

  /** `r` sits at `lo` in `s` with nothing but whitespace before and after it. */
  predicate WhitespaceAround(s: string, r: string, lo: nat)
  {
    lo + |r| <= |s| && r == s[lo..lo + |r|] &&
    (forall i :: 0 <= i < lo ==> s[i] in WHITESPACE) &&
    (forall i :: lo + |r| <= i < |s| ==> s[i] in WHITESPACE)
  }

  /** `strip()` keeps every occurrence of every non-whitespace character. */
  lemma StripKeepsText(s: string, c: char)
    requires c !in WHITESPACE
    ensures multiset(Strip(s))[c] == multiset(s)[c]
  {
    var r := Strip(s);
    var lo := StripExact(s);
    var before, after := s[..lo], s[lo + |r|..];
    assert multiset(s) == multiset(before) + multiset(r) + multiset(after) by {
      assert s == before + r + after;
    }
    assert c !in before && c !in after;
  }

  /** `strip()` keeps the order of what it keeps. */
  lemma StripSubsequence(s: string)
    ensures IsSubsequence(Strip(s), s)
  {
    var lo := StripExact(s);
    SliceSubsequence(s, lo, lo + |Strip(s)|);
  }

  /** Text that neither starts nor ends with whitespace is its own `strip()`;
      in particular `strip()` is idempotent. */
  lemma StripFixed(s: string)
    requires s != [] ==> s[0] !in WHITESPACE && s[|s| - 1] !in WHITESPACE
    ensures Strip(s) == s
  {
    assert SpaceEnd(s, 0) == 0;
    assert s[0..] == s;
    assert SpaceStart(s, |s|) == |s|;
  }

  /** The end of the run of whitespace that starts at `i`. */
  function SpaceEnd(s: string, i: nat): (n: nat)
    requires i <= |s|
    ensures i <= n <= |s|
    ensures n < |s| ==> s[n] !in WHITESPACE
    ensures forall k :: i <= k < n ==> s[k] in WHITESPACE
    decreases |s| - i
  {
    if i < |s| && s[i] in WHITESPACE then SpaceEnd(s, i + 1) else i
  }

  /** The start of the run of whitespace that ends at `j`. */
  function SpaceStart(s: string, j: nat): (n: nat)
    requires j <= |s|
    ensures n <= j
    ensures n > 0 ==> s[n - 1] !in WHITESPACE
    ensures forall k :: n <= k < j ==> s[k] in WHITESPACE
  {
    if j > 0 && s[j - 1] in WHITESPACE then SpaceStart(s, j - 1) else j
  }

  // ---------------------------------------------------------------------------
  // split / join / replace
  // ---------------------------------------------------------------------------

  /** `s.split(pat)[0]`: everything before the first occurrence of `pat`,
      or all of `s` when `pat` does not occur. */
  function Before(s: string, pat: string): (r: string)
    requires pat != []
    ensures |r| <= |s| && r == s[..|r|]
    ensures !Contains(r, pat)
    ensures Contains(s, pat) <==> OccursAt(s, pat, |r|)
    ensures forall i :: 0 <= i < |r| ==> !OccursAt(s, pat, i)
    ensures !Contains(s, pat) ==> r == s
    decreases |s|
  {
    if |s| < |pat| then
      NoRoom(s, pat);
      s
    else if s[..|pat|] == pat then
      assert OccursAt(s, pat, 0);
      []
    else
      var rest := Before(s[1..], pat);
      var r := [s[0]] + rest;
      BeforeStep(s, pat, rest);
      AbsentInTail(s, pat);
      r
  }

  /** A pattern absent from `s` is absent from its tail. */
  lemma AbsentInTail(s: string, pat: string)
    requires s != []
    ensures !Contains(s, pat) ==> !Contains(s[1..], pat)
  {
    if Contains(s[1..], pat) {
      var i: nat :| i <= |s| - 1 - |pat| && OccursAt(s[1..], pat, i);
      assert s[1..][i..i + |pat|] == s[i + 1..i + 1 + |pat|];
      assert OccursAt(s, pat, i + 1);
    }
  }

  lemma NoRoom(s: string, pat: string)
    requires |s| < |pat|
    ensures !Contains(s, pat)
  {
  }

  lemma BeforeStep(s: string, pat: string, rest: string)
    requires pat != [] && |pat| <= |s| && s[..|pat|] != pat
    requires |rest| <= |s| - 1 && rest == s[1..][..|rest|]
    requires !Contains(rest, pat)
    requires Contains(s[1..], pat) <==> OccursAt(s[1..], pat, |rest|)
    requires forall i :: 0 <= i < |rest| ==> !OccursAt(s[1..], pat, i)
    ensures [s[0]] + rest == s[..1 + |rest|]
    ensures !Contains([s[0]] + rest, pat)
    ensures Contains(s, pat) <==> OccursAt(s, pat, 1 + |rest|)
    ensures forall i :: 0 <= i < 1 + |rest| ==> !OccursAt(s, pat, i)
  {
    var r := [s[0]] + rest;
    assert r == s[..1 + |rest|];
    NoEarlierMatch(s, pat, |rest|);
    assert !Contains(r, pat) by {
      forall i: nat | i <= |r| - |pat|
        ensures !OccursAt(r, pat, i)
      {
        assert !OccursAt(s, pat, i);
        assert r[i..i + |pat|] == s[i..i + |pat|];
      }
    }
    assert Contains(s, pat) ==> OccursAt(s, pat, 1 + |rest|) by {
      if Contains(s, pat) {
        var i: nat :| i <= |s| - |pat| && OccursAt(s, pat, i);
        assert i != 0;
        assert s[1..][i - 1..i - 1 + |pat|] == s[i..i + |pat|];
        assert OccursAt(s[1..], pat, i - 1);
        assert s[1..][|rest|..|rest| + |pat|] == s[1 + |rest|..1 + |rest| + |pat|];
      }
    }
    assert OccursAt(s, pat, 1 + |rest|) ==> Contains(s, pat);
  }

  /** No match starting at 1..n of `s` when none starts at 0..n-1 of `s[1..]`. */
  lemma NoEarlierMatch(s: string, pat: string, n: nat)
    requires pat != [] && |pat| <= |s| && s[..|pat|] != pat
    requires forall i :: 0 <= i < n ==> !OccursAt(s[1..], pat, i)
    ensures forall i :: 0 <= i < 1 + n ==> !OccursAt(s, pat, i)
  {
    forall i | 0 < i < 1 + n
      ensures !OccursAt(s, pat, i)
    {
      assert !OccursAt(s[1..], pat, i - 1);
      if i + |pat| <= |s| {
        assert s[1..][i - 1..i - 1 + |pat|] == s[i..i + |pat|];
      }
    }
  }

  /** `s.split(c)` for a one-character separator: never empty, and no piece
      holds the separator. */
  function Split(s: string, c: char): (parts: seq<string>)
    ensures |parts| >= 1
    ensures forall k :: 0 <= k < |parts| ==> c !in parts[k]
  {
    if s == [] then [[]]
    else
      var rest := Split(s[1..], c);
      if s[0] == c then [[]] + rest
      else [[s[0]] + rest[0]] + rest[1..]
  }

  /** `sep.join(parts)` */
  function Join(parts: seq<string>, sep: string): string
  {
    if parts == [] then []
    else if |parts| == 1 then parts[0]
    else parts[0] + sep + Join(parts[1..], sep)
  }

  /** A join starts with its first piece and ends with its last. */
  lemma {:induction false} JoinEnds(parts: seq<string>, sep: string)
    requires parts != []
    ensures StartsWith(Join(parts, sep), parts[0])
    ensures EndsWith(Join(parts, sep), parts[|parts| - 1])
  {
    if |parts| > 1 {
      var first, tail, last := parts[0], parts[1..], parts[|parts| - 1];
      var rest := Join(tail, sep);
      var r := first + sep + rest;
      assert Join(parts, sep) == r;
      assert tail[|tail| - 1] == last;
      JoinEnds(tail, sep);
      assert r[..|first|] == first;
      assert r[|r| - |last|..] == rest[|rest| - |last|..];
    }
  }

  /** Splitting on `c` and joining again with `c` gives back the string. */
  lemma {:induction false} JoinSplit(s: string, c: char)
    ensures Join(Split(s, c), [c]) == s
  {
    if s != [] {
      var rest := Split(s[1..], c);
      JoinSplit(s[1..], c);
      if s[0] == c {
        assert Split(s, c) == [[]] + rest;
      } else {
        var parts := Split(s, c);
        assert parts == [[s[0]] + rest[0]] + rest[1..];
        if |rest| == 1 {
          assert Join(parts, [c]) == [s[0]] + rest[0];
        } else {
          assert rest == [rest[0]] + rest[1..];
          assert Join(rest, [c]) == rest[0] + [c] + Join(rest[1..], [c]);
          assert Join(parts, [c]) == [s[0]] + rest[0] + [c] + Join(rest[1..], [c]);
        }
      }
    }
  }

  /** A join of pieces is empty exactly when there are no pieces, provided
      every piece is non-empty. */
  lemma {:induction false} JoinEmptyIff(parts: seq<string>, sep: string)
    requires forall k :: 0 <= k < |parts| ==> parts[k] != []
    ensures Join(parts, sep) == [] <==> parts == []
  {
    if |parts| == 1 {
      assert Join(parts, sep) == parts[0];
    } else if |parts| > 1 {
      assert |Join(parts, sep)| >= |parts[0]| > 0;
    }
  }

  /** `s.replace(pat, '')`: occurrences are removed left to right and do not
      overlap, as Python's `replace` finds them. */
  function RemoveAll(s: string, pat: string): (r: string)
    requires pat != []
    ensures |r| <= |s|
    ensures |pat| == 1 ==> pat[0] !in r
    decreases |s|
  {
    if s == [] then []
    else if StartsWith(s, pat) then
      RemoveAll(s[|pat|..], pat)
    else
      assert |pat| == 1 ==> s[0] != pat[0];
      [s[0]] + RemoveAll(s[1..], pat)
  }

  /** `replace(pat, '')` keeps every occurrence of every character not in `pat`. */
  lemma {:induction false} RemoveAllKeeps(s: string, pat: string)
    requires pat != []
    ensures forall c :: c !in pat ==> multiset(RemoveAll(s, pat))[c] == multiset(s)[c]
    decreases |s|
  {
    if s != [] {
      if StartsWith(s, pat) {
        RemoveAllKeeps(s[|pat|..], pat);
        assert s == pat + s[|pat|..];
      } else {
        RemoveAllKeeps(s[1..], pat);
        assert s == [s[0]] + s[1..];
      }
    }
  }

  /** `replace(pat, '')` only drops characters: what it keeps stays in order. */
  lemma {:induction false} RemoveAllSubsequence(s: string, pat: string)
    requires pat != []
    ensures IsSubsequence(RemoveAll(s, pat), s)
    decreases |s|
  {
    if s != [] {
      var r := RemoveAll(s, pat);
      if StartsWith(s, pat) {
        RemoveAllSubsequence(s[|pat|..], pat);
        SubsequenceOfSuffix(r, s, |pat|);
      } else {
        RemoveAllSubsequence(s[1..], pat);
        assert r[1..] == RemoveAll(s[1..], pat);
      }
    }
  }

  /** Text without `pat` comes back unchanged. */
  lemma {:induction false} RemoveAllAbsent(s: string, pat: string)
    requires pat != [] && !Contains(s, pat)
    ensures RemoveAll(s, pat) == s
    decreases |s|
  {
    if s != [] {
      assert !StartsWith(s, pat) by {
        if StartsWith(s, pat) {
          assert OccursAt(s, pat, 0);
        }
      }
      AbsentInTail(s, pat);
      RemoveAllAbsent(s[1..], pat);
      assert s == [s[0]] + s[1..];
    }
  }

  /** `replace(pat, '')` is `''.join(s.split(pat))`: when the first occurrence
      of `pat` starts at `n`, the result is `s[..n]` followed by the removal
      applied to what comes after that occurrence. */
  lemma {:induction false} RemoveAllAt(s: string, pat: string, n: nat)
    requires pat != [] && OccursAt(s, pat, n)
    requires forall i :: 0 <= i < n ==> !OccursAt(s, pat, i)
    ensures RemoveAll(s, pat) == s[..n] + RemoveAll(s[n + |pat|..], pat)
    decreases n
  {
    var x := RemoveAll(s[n + |pat|..], pat);
    if n == 0 {
      assert RemoveAll(s, pat) == x by {
        assert StartsWith(s, pat);
      }
      SamePrefix(RemoveAll(s, pat), [], s[..n], x);
    } else {
      var t := s[1..];
      assert RemoveAll(s, pat) == [s[0]] + RemoveAll(t, pat) by {
        assert !OccursAt(s, pat, 0);
        RemoveAllCons(s, pat);
      }
      assert RemoveAll(t, pat) == t[..n - 1] + x by {
        FirstOccurrenceInTail(s, pat, n);
        RemoveAllAt(t, pat, n - 1);
      }
      assert s[..n] == [s[0]] + t[..n - 1];
      ConsAppend(s[0], t[..n - 1], x);
      SamePrefix(RemoveAll(s, pat), [s[0]] + t[..n - 1], s[..n], x);
    }
  }

  /** The first occurrence at `n > 0` in `s` is the first at `n - 1` in `s[1..]`. */
  lemma FirstOccurrenceInTail(s: string, pat: string, n: nat)
    requires 0 < n && OccursAt(s, pat, n)
    requires forall i :: 0 <= i < n ==> !OccursAt(s, pat, i)
    ensures OccursAt(s[1..], pat, n - 1)
    ensures forall i :: 0 <= i < n - 1 ==> !OccursAt(s[1..], pat, i)
    ensures s[1..][n - 1 + |pat|..] == s[n + |pat|..]
  {
    var t := s[1..];
    forall i | 0 <= i < n - 1
      ensures !OccursAt(t, pat, i)
    {
      assert !OccursAt(s, pat, i + 1);
      if i + |pat| <= |t| {
        assert t[i..i + |pat|] == s[i + 1..i + 1 + |pat|];
      }
    }
    assert t[n - 1..n - 1 + |pat|] == s[n..n + |pat|];
  }

  lemma ConsAppend(c: char, x: string, y: string)
    ensures [c] + (x + y) == ([c] + x) + y
  {
  }

  lemma SamePrefix(whole: string, pre: string, b: string, x: string)
    requires whole == pre + x && pre == b
    ensures whole == b + x
  {
  }

  lemma RemoveAllCons(s: string, pat: string)
    requires pat != [] && s != [] && !StartsWith(s, pat)
    ensures RemoveAll(s, pat) == [s[0]] + RemoveAll(s[1..], pat)
  {
  }

  // ---------------------------------------------------------------------------
  // lower() and str(n)
  // ---------------------------------------------------------------------------

  function LowerChar(c: char): char
  {
    if 'A' <= c <= 'Z' then (c as int + 32) as char else c
  }

  /** `s.lower()` restricted to ASCII letters: same length, character by
      character. */
  function Lower(s: string): (r: string)
    ensures |r| == |s|
    ensures forall i :: 0 <= i < |s| ==> r[i] == LowerChar(s[i])
  {
    if s == [] then [] else [LowerChar(s[0])] + Lower(s[1..])
  }

  function DigitChar(d: nat): char
    requires d < 10
  {
    ('0' as int + d) as char
  }

  /** `str(n)` for a natural number: decimal digits, no leading zero. */
  function NatToString(n: nat): (r: string)
    ensures r != []
    ensures forall k :: 0 <= k < |r| ==> '0' <= r[k] <= '9'
    ensures |r| > 1 ==> r[0] != '0'
  {
    if n < 10 then [DigitChar(n)] else NatToString(n / 10) + [DigitChar(n % 10)]
  }

  /** Reading decimal digits back, the inverse of `NatToString`. */
  function DecimalValue(s: string): nat
    requires forall k :: 0 <= k < |s| ==> '0' <= s[k] <= '9'
  {
    if s == [] then 0 else 10 * DecimalValue(s[..|s| - 1]) + (s[|s| - 1] as int - '0' as int)
  }

  lemma {:induction false} NatToStringRoundTrip(n: nat)
    ensures DecimalValue(NatToString(n)) == n
  {
    if n >= 10 {
      var r := NatToString(n);
      NatToStringRoundTrip(n / 10);
      assert r[..|r| - 1] == NatToString(n / 10);
    }
  }
}
