/** What `generate_commit_message` does with the model's reply: trim it, cut
    it at the first "problem" character, strip one boilerplate prefix, cap it
    at 60 characters, check that it starts with a commit type followed by `(`
    or `:`, and otherwise pick a canned message from the `git status --short`
    text.

    The stages are methods that reassign `message` as the script does; each is
    proved equal to a specification function, and the promises of the script
    are lemmas about those functions. */
module CommitMessage {
  import opened PyStr

  /** Cut points, in the order they are tried. */
  const PROBLEM_CHARS: seq<string> := [". ", "!", "?", "\"", "'", "(", ")", "[", "]", "\n", "\r"]

  /** Boilerplate openings, compared against the lower-cased message. */
  const BAD_STARTS: seq<string> :=
    ["voici", "le message", "message", "commit", "here", "the commit", "- ", "* ", "> "]

  const MAX_LENGTH: nat := 60
  const MIN_LENGTH: nat := 8

  const VALID_TYPES: seq<string> := ["feat", "fix", "docs", "style", "refactor", "test", "chore", "perf"]

  // ---------------------------------------------------------------------------
  // Stage 1: cut at the first problem character
  // ---------------------------------------------------------------------------

  /** One round of the cut loop: keep what precedes `pat` and re-strip. */
  function CutAt(message: string, pat: string): string
    requires pat != []
  {
    if Contains(message, pat) then Strip(Before(message, pat)) else message
  }

  /** The message after the first `k` rounds of the cut loop. */
  function CutUpTo(message: string, k: nat): string
    requires k <= |PROBLEM_CHARS|
  {
    if k == 0 then message else CutAt(CutUpTo(message, k - 1), PROBLEM_CHARS[k - 1])
  }

  function Cut(message: string): string
  {
    CutUpTo(message, |PROBLEM_CHARS|)
  }

  lemma CutAtShrinks(message: string, pat: string)
    requires pat != []
    ensures Contains(message, CutAt(message, pat))
    ensures !Contains(CutAt(message, pat), pat)
  {
    if Contains(message, pat) {
      var b := Before(message, pat);
      SliceContained(message, 0, |b|);
      ContainsTrans(message, b, Strip(b));
      NotContainsInherited(b, Strip(b), pat);
    } else {
      ContainsSelf(message);
    }
  }

  /** One more round keeps both facts of `CutUpToShrinks`. */
  lemma CutStep(message: string, k: nat)
    requires 0 < k <= |PROBLEM_CHARS|
    requires Contains(message, CutUpTo(message, k - 1))
    requires forall j :: 0 <= j < k - 1 ==> !Contains(CutUpTo(message, k - 1), PROBLEM_CHARS[j])
    ensures Contains(message, CutUpTo(message, k))
    ensures forall j :: 0 <= j < k ==> !Contains(CutUpTo(message, k), PROBLEM_CHARS[j])
  {
    var prev := CutUpTo(message, k - 1);
    var pat := PROBLEM_CHARS[k - 1];
    var next := CutAt(prev, pat);
    CutAtShrinks(prev, pat);
    ContainsTrans(message, prev, next);
    forall j | 0 <= j < k - 1
      ensures !Contains(next, PROBLEM_CHARS[j])
    {
      NotContainsInherited(prev, next, PROBLEM_CHARS[j]);
    }
  }

  /** After `k` rounds the message is a substring of what went in and holds
      none of the first `k` problem characters: a later round only keeps a
      prefix and re-strips, so it cannot bring an earlier one back. */
  lemma {:induction false} CutUpToShrinks(message: string, k: nat)
    requires k <= |PROBLEM_CHARS|
    ensures Contains(message, CutUpTo(message, k))
    ensures forall j :: 0 <= j < k ==> !Contains(CutUpTo(message, k), PROBLEM_CHARS[j])
  {
    if k == 0 {
      ContainsSelf(message);
    } else {
      CutUpToShrinks(message, k - 1);
      CutStep(message, k);
    }
  }

  method CutAtProblemChars(message0: string) returns (message: string)
    ensures message == Cut(message0)
    ensures forall j :: 0 <= j < |PROBLEM_CHARS| ==> !Contains(message, PROBLEM_CHARS[j])
  {
    message := message0;
    for i := 0 to |PROBLEM_CHARS|
      invariant message == CutUpTo(message0, i)
    {
      var pat := PROBLEM_CHARS[i];
      assert CutUpTo(message0, i + 1) == CutAt(message, pat);
      if Contains(message, pat) {
        message := Strip(Before(message, pat));
      }
    }
    CutUpToShrinks(message0, |PROBLEM_CHARS|);
  }

  // ---------------------------------------------------------------------------
  // Stage 2: strip one boilerplate prefix
  // ---------------------------------------------------------------------------

  /** What is left of `message` once `prefix` is cut off its front: the rest,
      stripped, with leading `:`/space, then `-`, then `*` runs removed, and
      stripped again. */
  function AfterPrefix(message: string, prefix: string): (r: string)
    ensures Contains(message, r)
  {
    var a := Strip(Drop(message, |prefix|));
    var b1 := LStrip(a, {':', ' '});
    var b2 := LStrip(b1, {'-'});
    var b := LStrip(b2, {'*'});
    var r := Strip(b);
    LStripContained(a, {':', ' '});
    LStripContained(b1, {'-'});
    LStripContained(b2, {'*'});
    ContainsTrans(message, Drop(message, |prefix|), a);
    ContainsTrans(message, a, b1);
    ContainsTrans(message, b1, b2);
    ContainsTrans(message, b2, b);
    ContainsTrans(message, b, r);
    r
  }

  /** Index of the first boilerplate opening at or after `from` that `lower`
      starts with, or -1. */
  function FirstBadStart(lower: string, from: nat): (k: int)
    requires from <= |BAD_STARTS|
    ensures k == -1 || (from <= k < |BAD_STARTS| && StartsWith(lower, BAD_STARTS[k]))
    ensures forall j :: from <= j < |BAD_STARTS| && (k == -1 || j < k) ==> !StartsWith(lower, BAD_STARTS[j])
    decreases |BAD_STARTS| - from
  {
    if from == |BAD_STARTS| then -1
    else if StartsWith(lower, BAD_STARTS[from]) then from
    else FirstBadStart(lower, from + 1)
  }

  function StripBoilerplate(message: string): string
  {
    var k := FirstBadStart(Lower(message), 0);
    if k == -1 then message else AfterPrefix(message, BAD_STARTS[k])
  }

  /** No boilerplate opening is a prefix of another. */
  lemma BadStartsPrefixFree(i: nat, j: nat)
    requires i < |BAD_STARTS| && j < |BAD_STARTS| && i != j
    ensures !StartsWith(BAD_STARTS[j], BAD_STARTS[i])
  {
    var p, q := BAD_STARTS[i], BAD_STARTS[j];
    if |p| <= |q| {
      assert q[..|p|] != p by {
        if i == 2 && j == 1 {
          assert q[0] != p[0];
        } else if i == 3 && j == 5 {
          assert q[0] != p[0];
        } else {
          assert q[0] != p[0] || (|p| > 1 && q[1] != p[1]);
        }
      }
    }
  }

  /** Hence a message starts with at most one of them, and the loop, which
      tests every opening against the lower-cased message computed once
      before it, strips at most one. */
  lemma AtMostOneBadStart(lower: string, i: nat, j: nat)
    requires i < |BAD_STARTS| && j < |BAD_STARTS|
    requires StartsWith(lower, BAD_STARTS[i]) && StartsWith(lower, BAD_STARTS[j])
    ensures i == j
  {
    if i != j {
      if |BAD_STARTS[i]| <= |BAD_STARTS[j]| {
        PrefixesNest(lower, BAD_STARTS[i], BAD_STARTS[j]);
        BadStartsPrefixFree(i, j);
      } else {
        PrefixesNest(lower, BAD_STARTS[j], BAD_STARTS[i]);
        BadStartsPrefixFree(j, i);
      }
    }
  }

  method StripBoilerplatePrefix(message0: string) returns (message: string)
    ensures message == StripBoilerplate(message0)
    ensures Contains(message0, message)
  {
    message := message0;
    var lower := Lower(message);
    ghost var k := FirstBadStart(lower, 0);
    for i := 0 to |BAD_STARTS|
      invariant message == if 0 <= k < i then AfterPrefix(message0, BAD_STARTS[k]) else message0
    {
      var prefix := BAD_STARTS[i];
      if StartsWith(lower, prefix) {
        AtMostOneBadStart(lower, i, k);
        message := Strip(Drop(message, |prefix|));
        message := Strip(LStrip(LStrip(LStrip(message, {':', ' '}), {'-'}), {'*'}));
      }
    }
    ContainsSelf(message0);
  }

  // ---------------------------------------------------------------------------
  // Stage 3: cap the length
  // ---------------------------------------------------------------------------

  function Cap(message: string): (r: string)
    ensures |r| <= MAX_LENGTH
    ensures Contains(message, r)
    ensures |message| <= MAX_LENGTH ==> r == message
  {
    if |message| > MAX_LENGTH then
      SliceContained(message, 0, MAX_LENGTH);
      ContainsTrans(message, message[..MAX_LENGTH], Strip(message[..MAX_LENGTH]));
      Strip(message[..MAX_LENGTH])
    else
      ContainsSelf(message);
      message
  }

  /** The model's text after the three cleanup stages. */
  function Cleaned(response: string): string
  {
    Cap(StripBoilerplate(Cut(Strip(response))))
  }

  // ---------------------------------------------------------------------------
  // Stage 4: validate
  // ---------------------------------------------------------------------------

  /** Lower-cased, the message starts with an allowed type followed by `(` or `:`. */
  predicate HasTypePrefix(message: string)
    ensures HasTypePrefix(message) ==> 4 <= |message|
  {
    exists i :: 0 <= i < |VALID_TYPES| &&
      (StartsWith(Lower(message), VALID_TYPES[i] + "(") || StartsWith(Lower(message), VALID_TYPES[i] + ":"))
  }

  /** The test the cleaned text must pass to be kept. A text that passes it
      carries a `:` or a `(` right after its type, in its own case. */
  predicate Acceptable(message: string)
    ensures Acceptable(message) ==> ':' in message || '(' in message
  {
    if HasTypePrefix(message) then
      SeparatorKept(message);
      |message| >= MIN_LENGTH
    else
      false
  }

  /** The separator the type check sees in the lower-cased text is in the
      text itself: lower-casing changes only letters. */
  lemma SeparatorKept(message: string)
    requires HasTypePrefix(message)
    ensures ':' in message || '(' in message
  {
    var i :| 0 <= i < |VALID_TYPES| &&
      (StartsWith(Lower(message), VALID_TYPES[i] + "(") || StartsWith(Lower(message), VALID_TYPES[i] + ":"));
    var n := |VALID_TYPES[i]|;
    var low := Lower(message);
    assert n < |message|;
    assert low[n] == '(' || low[n] == ':' by {
      if StartsWith(low, VALID_TYPES[i] + "(") {
        assert low[..n + 1][n] == '(';
      } else {
        assert low[..n + 1][n] == ':';
      }
    }
    assert low[n] == LowerChar(message[n]);
  }

  // ---------------------------------------------------------------------------
  // Stage 5: fall back on the status text
  // ---------------------------------------------------------------------------

  /** The canned message chosen from `git status --short` text, first match wins. */
  function Fallback(status: string): (r: string)
    ensures MIN_LENGTH <= |r| <= MAX_LENGTH
  {
    if Contains(status, "index.html") then "fix(ui): update index"
    else if Contains(status, "style.css") || Contains(status, ". css") then "style:  update styles"
    else if Contains(status, "README") then "docs: update readme"
    else if Contains(status, ". js") || Contains(status, ". ts") then "refactor:  improve code"
    else if Contains(status, "A ") then "feat: add new files"
    else if Contains(status, "D ") then "chore: remove files"
    else "chore: update files"
  }

  /** The whole post-reply computation. */
  function Finalized(response: string, status: string): string
  {
    var c := Cleaned(response);
    if Acceptable(c) then c else Fallback(status)
  }

  method Finalize(response: string, status: string) returns (message: string)
    ensures message == Finalized(response, status)
    ensures MIN_LENGTH <= |message| <= MAX_LENGTH
    ensures HasTypePrefix(message)
  {
    message := Strip(response);
    message := CutAtProblemChars(message);
    message := StripBoilerplatePrefix(message);
    if |message| > MAX_LENGTH {
      message := Strip(message[..MAX_LENGTH]);
    }
    var isValid := HasTypePrefix(message);
    if !isValid || |message| < MIN_LENGTH {
      message := Fallback(status);
      FallbackAcceptable(status);
    }
  }

  // ---------------------------------------------------------------------------
  // The fallback as a first-match table
  // ---------------------------------------------------------------------------

  /** A fallback rule: when one of `triggers` occurs in the status text, use `message`. */
  datatype Rule = Rule(triggers: seq<string>, message: string)

  /** The fallback chain, in priority order. */
  const FALLBACK_RULES: seq<Rule> := [
    Rule(["index.html"], "fix(ui): update index"),
    Rule(["style.css", ". css"], "style:  update styles"),
    Rule(["README"], "docs: update readme"),
    Rule([". js", ". ts"], "refactor:  improve code"),
    Rule(["A "], "feat: add new files"),
    Rule(["D "], "chore: remove files")
  ]

  const DEFAULT_FALLBACK: string := "chore: update files"

  /** Some trigger of the list occurs in the status text. */
  predicate AnyOccurs(triggers: seq<string>, status: string)
  {
    triggers != [] && (Contains(status, triggers[0]) || AnyOccurs(triggers[1..], status))
  }

  predicate Fires(rule: Rule, status: string)
  {
    AnyOccurs(rule.triggers, status)
  }

  /** The message of the first rule that fires, or `default` when none does. */
  function FirstMatch(rules: seq<Rule>, status: string, default: string): (r: string)
    ensures (forall k :: 0 <= k < |rules| ==> !Fires(rules[k], status)) ==> r == default
    ensures forall k :: (0 <= k < |rules| && Fires(rules[k], status) &&
                          forall j :: 0 <= j < k ==> !Fires(rules[j], status)) ==> r == rules[k].message
    ensures r == default || exists k :: 0 <= k < |rules| && r == rules[k].message
  {
    if rules == [] then default
    else if Fires(rules[0], status) then rules[0].message
    else
      var r := FirstMatch(rules[1..], status, default);
      assert forall k :: 1 <= k < |rules| ==> rules[k] == rules[1..][k - 1];
      r
  }

  lemma FirstMatchStep(rules: seq<Rule>, k: nat, status: string, default: string)
    requires k < |rules|
    ensures FirstMatch(rules[k..], status, default) ==
      if Fires(rules[k], status) then rules[k].message else FirstMatch(rules[k + 1..], status, default)
  {
    assert rules[k..][0] == rules[k];
    assert rules[k..][1..] == rules[k + 1..];
  }

  /** First-match over a table of six rules, written as a chain. */
  lemma FirstMatchOfSix(rules: seq<Rule>, status: string, d: string)
    requires |rules| == 6
    ensures FirstMatch(rules, status, d) ==
      if Fires(rules[0], status) then rules[0].message
      else if Fires(rules[1], status) then rules[1].message
      else if Fires(rules[2], status) then rules[2].message
      else if Fires(rules[3], status) then rules[3].message
      else if Fires(rules[4], status) then rules[4].message
      else if Fires(rules[5], status) then rules[5].message
      else d
  {
    assert rules[0..] == rules && rules[6..] == [];
    FirstMatchStep(rules, 0, status, d);
    FirstMatchStep(rules, 1, status, d);
    FirstMatchStep(rules, 2, status, d);
    FirstMatchStep(rules, 3, status, d);
    FirstMatchStep(rules, 4, status, d);
    FirstMatchStep(rules, 5, status, d);
  }

  lemma AnyOccursOne(t: string, status: string)
    ensures AnyOccurs([t], status) <==> Contains(status, t)
  {
    assert [t][1..] == [];
  }

  lemma AnyOccursTwo(t: string, u: string, status: string)
    ensures AnyOccurs([t, u], status) <==> Contains(status, t) || Contains(status, u)
  {
    assert [t, u][1..] == [u];
    AnyOccursOne(u, status);
  }

  /** Each row of the table fires exactly when its branch of the chain is taken. */
  lemma RulesFireAsChain(status: string)
    ensures Fires(FALLBACK_RULES[0], status) <==> Contains(status, "index.html")
    ensures Fires(FALLBACK_RULES[1], status) <==> Contains(status, "style.css") || Contains(status, ". css")
    ensures Fires(FALLBACK_RULES[2], status) <==> Contains(status, "README")
    ensures Fires(FALLBACK_RULES[3], status) <==> Contains(status, ". js") || Contains(status, ". ts")
    ensures Fires(FALLBACK_RULES[4], status) <==> Contains(status, "A ")
    ensures Fires(FALLBACK_RULES[5], status) <==> Contains(status, "D ")
  {
    AnyOccursOne("index.html", status);
    AnyOccursTwo("style.css", ". css", status);
    AnyOccursOne("README", status);
    AnyOccursTwo(". js", ". ts", status);
    AnyOccursOne("A ", status);
    AnyOccursOne("D ", status);
  }

  /** The `if`/`elif` chain is exactly the first-match reading of the table. */
  lemma FallbackIsFirstMatch(status: string)
    ensures Fallback(status) == FirstMatch(FALLBACK_RULES, status, DEFAULT_FALLBACK)
  {
    RulesFireAsChain(status);
    FirstMatchOfSix(FALLBACK_RULES, status, DEFAULT_FALLBACK);
  }

  // ---------------------------------------------------------------------------
  // Properties
  // ---------------------------------------------------------------------------

  /** A message opening with an allowed type and `(` or `:`, written in
      lower case, passes the type check. */
  lemma HasTypePrefixBy(m: string, t: nat, sep: string)
    requires t < |VALID_TYPES| && (sep == "(" || sep == ":")
    requires StartsWith(m, VALID_TYPES[t] + sep)
    ensures HasTypePrefix(m)
  {
    var p := VALID_TYPES[t] + sep;
    assert forall k :: 0 <= k < |p| ==> !('A' <= p[k] <= 'Z');
    assert Lower(m)[..|p|] == p;
  }

  /** The canned messages: the table's, in priority order, then the default. */
  function Canned(k: nat): string
    requires k <= |FALLBACK_RULES|
  {
    if k < |FALLBACK_RULES| then FALLBACK_RULES[k].message else DEFAULT_FALLBACK
  }

  /** Every canned message passes the type check and fits the cap. */
  lemma CannedAcceptable(k: nat)
    requires k <= |FALLBACK_RULES|
    ensures Acceptable(Canned(k)) && |Canned(k)| <= MAX_LENGTH
  {
    var m := Canned(k);
    var t: nat, sep := if k == 0 then 1 else if k == 1 then 3 else if k == 2 then 2
      else if k == 3 then 4 else if k == 4 then 0 else 6, if k == 0 then "(" else ":";
    HasTypePrefixBy(m, t, sep);
  }

  /** Only the first canned message carries a `(`. */
  lemma CannedScope(k: nat)
    requires k <= |FALLBACK_RULES|
    ensures '(' in Canned(k) <==> k == 0
  {
    if k == 0 {
      assert Canned(0)[3] == '(';
    } else {
      UnscopedMessagesHaveNoParen();
      if k == 1 {
        assert Canned(k) == "style:  update styles";
      } else if k == 2 {
        assert Canned(k) == "docs: update readme";
      } else if k == 3 {
        assert Canned(k) == "refactor:  improve code";
      } else if k == 4 {
        assert Canned(k) == "feat: add new files";
      } else if k == 5 {
        assert Canned(k) == "chore: remove files";
      }
    }
  }

  lemma UnscopedMessagesHaveNoParen()
    ensures '(' !in "style:  update styles" && '(' !in "docs: update readme"
    ensures '(' !in "refactor:  improve code" && '(' !in "feat: add new files"
    ensures '(' !in "chore: remove files" && '(' !in "chore: update files"
  {
    NoParenIn("style:  update styles");
    NoParenIn("docs: update readme");
    NoParenIn("refactor:  improve code");
    NoParenIn("feat: add new files");
    NoParenIn("chore: remove files");
    NoParenIn("chore: update files");
  }

  /** A message made only of lower-case letters, `:` and spaces has no `(`. */
  lemma NoParenIn(m: string)
    requires forall i :: 0 <= i < |m| ==> 'a' <= m[i] <= 'z' || m[i] == ':' || m[i] == ' '
    ensures '(' !in m
  {
  }

  /** The fallback always yields one of the canned messages. */
  lemma FallbackIsCanned(status: string) returns (k: nat)
    ensures k <= |FALLBACK_RULES| && Fallback(status) == Canned(k)
  {
    FallbackIsFirstMatch(status);
    if Fallback(status) == DEFAULT_FALLBACK {
      k := |FALLBACK_RULES|;
    } else {
      k :| 0 <= k < |FALLBACK_RULES| && Fallback(status) == FALLBACK_RULES[k].message;
    }
  }

  /** Whatever the status text, the fallback passes the type check and fits the cap. */
  lemma FallbackAcceptable(status: string)
    ensures Acceptable(Fallback(status))
    ensures |Fallback(status)| <= MAX_LENGTH
  {
    var k := FallbackIsCanned(status);
    CannedAcceptable(k);
  }

  /** The cleaned text is a contiguous substring of the stripped reply. */
  lemma CleanedIsSubstring(response: string)
    ensures Contains(Strip(response), Cleaned(response))
  {
    var s := Strip(response);
    var c := Cut(s);
    var b := StripBoilerplate(c);
    CutUpToShrinks(s, |PROBLEM_CHARS|);
    if FirstBadStart(Lower(c), 0) == -1 {
      ContainsSelf(c);
    }
    ContainsTrans(s, c, b);
    ContainsTrans(s, b, Cap(b));
  }

  /** No problem character survives into the cleaned text. */
  lemma CleanedFreeOfProblemChars(response: string, j: nat)
    requires j < |PROBLEM_CHARS|
    ensures !Contains(Cleaned(response), PROBLEM_CHARS[j])
  {
    var c := Cut(Strip(response));
    var b := StripBoilerplate(c);
    CutUpToShrinks(Strip(response), |PROBLEM_CHARS|);
    if FirstBadStart(Lower(c), 0) == -1 {
      ContainsSelf(c);
    }
    ContainsTrans(c, b, Cap(b));
    NotContainsInherited(c, Cap(b), PROBLEM_CHARS[j]);
  }

  lemma NoParenWithoutProblemChar(c: string)
    requires !Contains(c, PROBLEM_CHARS[5])
    ensures '(' !in c
  {
    assert PROBLEM_CHARS[5] == ['('];
    CharContainedIff(c, '(');
  }

  /** Text kept from the model carries no `(`. */
  lemma CleanedHasNoParen(response: string)
    ensures '(' !in Cleaned(response)
  {
    CleanedFreeOfProblemChars(response, 5);
    NoParenWithoutProblemChar(Cleaned(response));
  }

  /** A message without `(` can pass the type check only through the `type:` form. */
  lemma NoParenNoScope(m: string)
    requires '(' !in m
    ensures forall i :: 0 <= i < |VALID_TYPES| ==> !StartsWith(Lower(m), VALID_TYPES[i] + "(")
  {
    forall i | 0 <= i < |VALID_TYPES|
      ensures !StartsWith(Lower(m), VALID_TYPES[i] + "(")
    {
      var p, k := VALID_TYPES[i] + "(", |VALID_TYPES[i]|;
      assert p[k] == '(';
      if k < |m| {
        assert m[k] != '(';
        assert Lower(m)[k] != p[k];
        assert Lower(m)[..|p|][k] != p[k];
      }
    }
  }

  /** Hence a message taken from the model matches only through `type:`. */
  lemma CleanedHasNoScope(response: string)
    ensures forall i :: 0 <= i < |VALID_TYPES| ==> !StartsWith(Lower(Cleaned(response)), VALID_TYPES[i] + "(")
  {
    CleanedHasNoParen(response);
    NoParenNoScope(Cleaned(response));
  }

  /** Of all results, only the canned `fix(ui): update index` carries a scope. */
  lemma ScopeOnlyFromFallback(response: string, status: string)
    ensures '(' in Finalized(response, status) ==> Finalized(response, status) == "fix(ui): update index"
  {
    CleanedHasNoParen(response);
    var k := FallbackIsCanned(status);
    CannedScope(k);
  }

  /** The result always has a valid type opening, between 8 and 60
      characters, so it is never empty. */
  lemma FinalizedWellFormed(response: string, status: string)
    ensures Acceptable(Finalized(response, status))
    ensures MIN_LENGTH <= |Finalized(response, status)| <= MAX_LENGTH
  {
    FallbackAcceptable(status);
  }

  /** An acceptable cleaned text is returned as is; otherwise the reply no
      longer matters and only the status text decides. */
  lemma FinalizedChoice(response: string, other: string, status: string)
    ensures Acceptable(Cleaned(response)) ==> Finalized(response, status) == Cleaned(response)
    ensures !Acceptable(Cleaned(response)) && !Acceptable(Cleaned(other)) ==>
      Finalized(response, status) == Finalized(other, status)
  {
  }
}
