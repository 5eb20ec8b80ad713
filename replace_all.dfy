/** The second pass of the patcher (add_theme.py): six literal
    find-and-replace-all rules, Python's `str.replace(old, new)`, applied to
    the whole text in their listed order, each to the previous one's output. */
module Replace {
  import opened Strings

  /** One `content = content.replace(search, replacement)` line. */
  datatype Rule = Rule(search: string, replacement: string)

  /** Python's `s.replace(old, new)` with a non-empty `old`: scanning left to
      right, every non-overlapping occurrence is replaced. */
  function ReplaceNonEmpty(s: string, pat: string, rep: string): string
    requires |pat| > 0
    decreases |s|
  {
    if |s| < |pat| then s
    else if s[..|pat|] == pat then rep + ReplaceNonEmpty(s[|pat|..], pat, rep)
    else [s[0]] + ReplaceNonEmpty(s[1..], pat, rep)
  }

  /** Python's `s.replace("", new)`: `new` before every character and at the end. */
  function Interleave(s: string, rep: string): string
  {
    if s == [] then rep else rep + [s[0]] + Interleave(s[1..], rep)
  }

  /** Python's `str.replace` with no count argument. */
  function ReplaceAll(s: string, pat: string, rep: string): string
  {
    if pat == [] then Interleave(s, rep) else ReplaceNonEmpty(s, pat, rep)
  }

  /** Python's `s.count(old)`: the number of non-overlapping occurrences found
      scanning left to right, which is the number of replacements made. */
  function Count(s: string, pat: string): nat
    decreases |s|
  {
    if pat == [] then |s| + 1
    else if |s| < |pat| then 0
    else if s[..|pat|] == pat then 1 + Count(s[|pat|..], pat)
    else Count(s[1..], pat)
  }

  function ApplyRule(s: string, r: Rule): string
  {
    ReplaceAll(s, r.search, r.replacement)
  }

  /** The rules applied strictly in list order, each to the previous output. */
  function ApplyRules(s: string, rules: seq<Rule>): string
    decreases |rules|
  {
    if rules == [] then s else ApplyRules(ApplyRule(s, rules[0]), rules[1..])
  }

  // The six rules of add_theme.py, in their order.
  const OpenSearch: string := "  return (\n    <div className=\"flex flex-col h-screen font-sans\">"
  const OpenReplacement: string := "  return (\n    <ThemeProvider>\n      <div className=\"flex flex-col h-screen font-sans bg-gray-50 dark:bg-gray-900 transition-colors duration-200\">"
  const CloseSearch: string := "    </div>\n  );\n};"
  const CloseReplacement: string := "      </div>\n    </ThemeProvider>\n  );\n};"
  const HeaderSearch: string := "<header className=\"bg-white shadow-md p-4 z-10\">"
  const HeaderReplacement: string := "<header className=\"bg-white dark:bg-gray-800 shadow-md p-4 z-10 transition-colors duration-200\">"
  const TitleSearch: string := "<h1 className=\"text-xl font-bold text-gray-800\">"
  const TitleReplacement: string := "<h1 className=\"text-xl font-bold text-gray-800 dark:text-gray-100\">"
  const SubtitleSearch: string := "<p className=\"text-sm text-gray-500\">"
  const SubtitleReplacement: string := "<p className=\"text-sm text-gray-500 dark:text-gray-300\">"
  const ToggleSearch: string := "          <div className=\"flex items-center gap-2\">\n            <button\n              onClick={() => setShowDatabaseDashboard(true)}"
  const ToggleReplacement: string := "          <div className=\"flex items-center gap-2\">\n            <ThemeToggle />\n            <button\n              onClick={() => setShowDatabaseDashboard(true)}"

  const ThemeRules: seq<Rule> := [
    Rule(OpenSearch, OpenReplacement),
    Rule(CloseSearch, CloseReplacement),
    Rule(HeaderSearch, HeaderReplacement),
    Rule(TitleSearch, TitleReplacement),
    Rule(SubtitleSearch, SubtitleReplacement),
    Rule(ToggleSearch, ToggleReplacement)
  ]

  function ThemeApplied(content: string): string
  {
    ApplyRules(content, ThemeRules)
  }

  /** No-op law: a rule whose search literal does not occur leaves the text as it is. */
  lemma {:induction false} AbsentIsNoOp(s: string, pat: string, rep: string)
    requires !Contains(s, pat)
    ensures ReplaceAll(s, pat, rep) == s
  {
    if pat == [] {
      assert OccursAt(s, pat, 0);
    } else if |s| >= |pat| {
      assert !OccursAt(s, pat, 0);
      if Contains(s[1..], pat) {
        var i :| 0 <= i <= |s[1..]| - |pat| && OccursAt(s[1..], pat, i);
        assert s[1..][i..i + |pat|] == s[i + 1..i + 1 + |pat|];
        assert OccursAt(s, pat, i + 1);
      }
      AbsentIsNoOp(s[1..], pat, rep);
    }
  }

  /** A literal that occurs is counted: no replacement happens only when the
      search literal is absent. */
  lemma {:induction false} CountPositiveWhenPresent(s: string, pat: string)
    requires Contains(s, pat)
    ensures Count(s, pat) > 0
  {
    if pat != [] {
      var i :| 0 <= i <= |s| - |pat| && OccursAt(s, pat, i);
      if s[..|pat|] != pat {
        assert i > 0;
        assert s[1..][i - 1..i - 1 + |pat|] == s[i..i + |pat|];
        assert OccursAt(s[1..], pat, i - 1);
        CountPositiveWhenPresent(s[1..], pat);
      }
    }
  }

  /** Length law: with `k` occurrences replaced, the text grows by
      `k * (|new| - |old|)`. */
  lemma {:induction false} LengthLaw(s: string, pat: string, rep: string)
    ensures |ReplaceAll(s, pat, rep)| == |s| + Count(s, pat) * (|rep| - |pat|)
    decreases |s|
  {
    if pat == [] {
      InterleaveLength(s, rep);
    } else if |s| >= |pat| {
      if s[..|pat|] == pat {
        var t := s[|pat|..];
        LengthLaw(t, pat, rep);
        assert ReplaceAll(s, pat, rep) == rep + ReplaceAll(t, pat, rep);
        assert Count(s, pat) == 1 + Count(t, pat);
        Distribute(Count(t, pat), |rep| - |pat|);
      } else {
        LengthLaw(s[1..], pat, rep);
        assert ReplaceAll(s, pat, rep) == [s[0]] + ReplaceAll(s[1..], pat, rep);
        assert Count(s, pat) == Count(s[1..], pat);
      }
    }
  }

  lemma Distribute(c: int, d: int)
    ensures (1 + c) * d == c * d + d
  {
  }

  lemma {:induction false} InterleaveLength(s: string, rep: string)
    ensures |Interleave(s, rep)| == |s| + (|s| + 1) * |rep|
  {
    if s != [] {
      InterleaveLength(s[1..], rep);
      assert (|s| + 1) * |rep| == |s| * |rep| + |rep|;
    }
  }

  /** Text outside a matched occurrence is kept: when no occurrence of `old`
      starts inside `p`, the result is `p`, then the replacement in place of the
      occurrence, then the same replace-all carried on through `q`. */
  lemma {:induction false} ReplacesOccurrence(p: string, pat: string, q: string, rep: string)
    requires |pat| > 0
    requires forall i :: 0 <= i < |p| ==> !OccursAt(p + pat + q, pat, i)
    ensures ReplaceAll(p + pat + q, pat, rep) == p + rep + ReplaceAll(q, pat, rep)
    decreases |p|
  {
    var s := p + pat + q;
    if p == [] {
      assert s[..|pat|] == pat && s[|pat|..] == q;
    } else {
      var t := p[1..] + pat + q;
      assert s[1..] == t && s[0] == p[0];
      forall i | 0 <= i < |p[1..]|
        ensures !OccursAt(t, pat, i)
      {
        assert !OccursAt(s, pat, i + 1);
        assert t[i..i + |pat|] == s[i + 1..i + 1 + |pat|];
      }
      ReplacesOccurrence(p[1..], pat, q, rep);
      var tail := ReplaceAll(q, pat, rep);
      assert ReplaceNonEmpty(s, pat, rep) == [p[0]] + ReplaceNonEmpty(t, pat, rep) by {
        assert !OccursAt(s, pat, 0);
      }
      assert [p[0]] + (p[1..] + rep + tail) == p + rep + tail by {
        assert [p[0]] + p[1..] == p;
      }
    }
  }

  /** Every occurrence is replaced, not only the first: `"abab".replace("ab", "x")`
      is `"xx"`. */
  lemma ReplacesEveryOccurrence()
    ensures ReplaceAll("abab", "ab", "x") == "xx"
    ensures Count("abab", "ab") == 2
  {
    assert "abab"[..2] == "ab" && "abab"[2..] == "ab";
    assert "ab"[..2] == "ab" && "ab"[2..] == [];
  }

  /** Matching is literal: characters that are special in a regular expression
      match only themselves, so `"."` matches a dot and nothing else. */
  lemma LiteralMatching()
    ensures ReplaceAll("abc", "a.c", "X") == "abc"
    ensures ReplaceAll("a.b", ".", "-") == "a-b"
  {
    assert "abc"[..3] != "a.c" by { assert "abc"[1] != "a.c"[1]; }
    assert "abc"[1..] == "bc";
    assert "a.b"[..1] != "." && "a.b"[1..] == ".b";
    assert ".b"[..1] == "." && ".b"[1..] == "b";
    assert "b"[..1] != ".";
  }

  /** Applying a list of rules is applying its first part, then the rest. */
  lemma {:induction false} ApplyRulesAppend(s: string, r1: seq<Rule>, r2: seq<Rule>)
    ensures ApplyRules(s, r1 + r2) == ApplyRules(ApplyRules(s, r1), r2)
    decreases |r1|
  {
    if r1 != [] {
      var x := ApplyRule(s, r1[0]);
      assert (r1 + r2)[0] == r1[0] && (r1 + r2)[1..] == r1[1..] + r2;
      assert ApplyRules(s, r1 + r2) == ApplyRules(x, r1[1..] + r2);
      ApplyRulesAppend(x, r1[1..], r2);
    } else {
      assert r1 + r2 == r2;
    }
  }

  /** A text holding none of the rules' search literals passes through the
      whole list unchanged. */
  lemma {:induction false} NoMatchLeavesText(s: string, rules: seq<Rule>)
    requires forall i :: 0 <= i < |rules| ==> !Contains(s, rules[i].search)
    ensures ApplyRules(s, rules) == s
    decreases |rules|
  {
    if rules != [] {
      AbsentIsNoOp(s, rules[0].search, rules[0].replacement);
      NoMatchLeavesText(s, rules[1..]);
    }
  }

  lemma ApplyTwo(s: string, a: Rule, b: Rule)
    ensures ApplyRules(s, [a, b]) == ApplyRule(ApplyRule(s, a), b)
    ensures ThemeRules[..2] == [ThemeRules[0], ThemeRules[1]]
  {
    var x := ApplyRule(s, a);
    assert [a, b][1..] == [b] && [b][1..] == [];
    assert ApplyRules(x, [b]) == ApplyRules(ApplyRule(x, b), []);
  }

  /** Order sensitivity: when one rule creates what the next one searches for,
      swapping them changes the result. */
  lemma OrderMatters()
    ensures ApplyRules("a", [Rule("a", "b"), Rule("b", "c")]) == "c"
    ensures ApplyRules("a", [Rule("b", "c"), Rule("a", "b")]) == "b"
  {
    assert "a"[..1] == "a" && "a"[1..] == [];
    assert "b"[..1] == "b" && "b"[1..] == [];
  }

  /** Re-running a rule is a no-op once its search literal is gone from its output. */
  lemma {:induction false} IdempotentWhenExhausted(s: string, r: Rule)
    requires !Contains(ApplyRule(s, r), r.search)
    ensures ApplyRule(ApplyRule(s, r), r) == ApplyRule(s, r)
  {
    AbsentIsNoOp(ApplyRule(s, r), r.search, r.replacement);
  }

  /** A replacement that does not contain its search literal still need not be
      idempotent: removing `"ab"` from `"aabb"` joins a new `"ab"`. */
  lemma NotIdempotentInGeneral()
    ensures !Contains("", "ab")
    ensures ReplaceAll("aabb", "ab", "") == "ab"
    ensures ReplaceAll("ab", "ab", "") == ""
  {
    var s := "aabb";
    assert s[..2] != "ab" by { assert s[1] != "ab"[1]; }
    assert s[1..] == "abb" && "abb"[..2] == "ab" && "abb"[2..] == "b";
    assert "ab"[..2] == "ab" && "ab"[2..] == [];
  }

  /** The header rule on content holding the original `<header>` line: that
      line becomes the dark-mode one and the text before it is kept. */
  lemma {:induction false} HeaderRuleRewrites(p: string, q: string)
    requires forall i :: 0 <= i < |p| ==> !OccursAt(p + HeaderSearch + q, HeaderSearch, i)
    requires !Contains(q, HeaderSearch)
    ensures ApplyRule(p + HeaderSearch + q, Rule(HeaderSearch, HeaderReplacement))
            == p + HeaderReplacement + q
  {
    ReplacesOccurrence(p, HeaderSearch, q, HeaderReplacement);
    AbsentIsNoOp(q, HeaderSearch, HeaderReplacement);
  }

  /** The opening and closing rules fire independently: without the opening
      literal, the first two rules amount to the closing rule alone. */
  lemma {:induction false} CloseWithoutOpen(s: string)
    requires !Contains(s, OpenSearch)
    ensures ApplyRules(s, ThemeRules[..2]) == ApplyRule(s, Rule(CloseSearch, CloseReplacement))
  {
    AbsentIsNoOp(s, OpenSearch, OpenReplacement);
    ApplyTwo(s, Rule(OpenSearch, OpenReplacement), Rule(CloseSearch, CloseReplacement));
  }

  /** ... and without the closing literal, they amount to the opening rule
      alone, provided the opening rule's output holds no closing literal. */
  lemma {:induction false} OpenWithoutClose(s: string)
    requires !Contains(ApplyRule(s, Rule(OpenSearch, OpenReplacement)), CloseSearch)
    ensures ApplyRules(s, ThemeRules[..2]) == ApplyRule(s, Rule(OpenSearch, OpenReplacement))
  {
    var t := ApplyRule(s, Rule(OpenSearch, OpenReplacement));
    AbsentIsNoOp(t, CloseSearch, CloseReplacement);
    ApplyTwo(s, Rule(OpenSearch, OpenReplacement), Rule(CloseSearch, CloseReplacement));
  }
}
