/** The shell-style matching `fnmatch.fnmatch` performs, reduced to its two
    wildcards: `*` matches any run of characters (including `/`) and `?`
    matches exactly one character; every other pattern character matches
    itself. The whole name must be matched. */
module Glob {
  import opened PyStr

  predicate HasWildcard(pat: string)
  {
    '*' in pat || '?' in pat
  }

  /** A pattern without `*` matches only names of its own length. */
  predicate Match(name: string, pat: string)
    ensures Match(name, pat) && '*' !in pat ==> |name| == |pat|
    decreases |name| + |pat|
  {
    if pat == [] then name == []
    else if pat[0] == '*' then
      Match(name, pat[1..]) || (name != [] && Match(name[1..], pat))
    else
      name != [] && (pat[0] == '?' || pat[0] == name[0]) && Match(name[1..], pat[1..])
  }

  /** A pattern without wildcards matches exactly the name equal to it. */
  lemma {:induction false} LiteralMatch(name: string, pat: string)
    requires !HasWildcard(pat)
    ensures Match(name, pat) <==> name == pat
    decreases |pat|
  {
    if pat != [] {
      assert !HasWildcard(pat[1..]) by {
        assert forall k :: 0 <= k < |pat[1..]| ==> pat[1..][k] == pat[k + 1];
      }
      if name != [] {
        LiteralMatch(name[1..], pat[1..]);
        if name == pat {
          assert name[1..] == pat[1..];
        }
        if Match(name, pat) {
          assert name == [name[0]] + name[1..];
          assert pat == [pat[0]] + pat[1..];
        }
      }
    }
  }

  /** `*` alone matches every name. */
  lemma {:induction false} StarMatchesAll(name: string)
    ensures Match(name, "*")
    decreases |name|
  {
    if name != [] {
      StarMatchesAll(name[1..]);
    }
  }

  /** `*` followed by a literal suffix matches exactly the names ending in
      that suffix (the form `*.log` of a `.gitignore` line). */
  lemma {:induction false} StarSuffixMatch(name: string, suffix: string)
    requires !HasWildcard(suffix)
    ensures Match(name, "*" + suffix) <==> EndsWith(name, suffix)
    decreases |name|
  {
    var pat := "*" + suffix;
    assert pat[0] == '*' && pat[1..] == suffix;
    LiteralMatch(name, suffix);
    if name != [] {
      StarSuffixMatch(name[1..], suffix);
      if |suffix| <= |name| - 1 {
        assert name[1..][|name| - 1 - |suffix|..] == name[|name| - |suffix|..];
      }
    } else {
      assert EndsWith(name, suffix) <==> suffix == [];
    }
  }
}
