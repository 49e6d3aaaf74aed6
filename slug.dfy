/** `generateSlug` of `src/lib/projectUtils.js`: a title is lower-cased,
    stripped of every character outside `[a-z0-9\s-]`, each run of
    whitespace becomes one hyphen, each run of hyphens becomes one hyphen,
    and the ends are trimmed of whitespace. Characters are treated as ASCII:
    `\s` is space, tab, line feed, vertical tab, form feed and carriage
    return, and only `A`-`Z` have a lower-case form. */
module SlugGen {
  import opened ArrayOps

  predicate IsWhitespace(c: char)
  {
    c == ' ' || c == '\t' || c == '\n' || c == '\r' || c == '\U{000B}' || c == '\U{000C}'
  }

  predicate IsHyphen(c: char)
  {
    c == '-'
  }

  /** The characters a slug is made of: `a`-`z`, `0`-`9` and `-`. */
  predicate IsSlugChar(c: char)
  {
    'a' <= c <= 'z' || '0' <= c <= '9' || c == '-'
  }

  predicate NoDoubleHyphen(s: string)
  {
    forall i :: 0 <= i < |s| - 1 ==> !(s[i] == '-' && s[i + 1] == '-')
  }

  /** The shape every generated slug has. */
  predicate IsSlug(s: string)
  {
    (forall i :: 0 <= i < |s| ==> IsSlugChar(s[i])) && NoDoubleHyphen(s)
  }

  function LowerChar(c: char): char
  {
    if 'A' <= c <= 'Z' then (c as int + 32) as char else c
  }

  /** `.toLowerCase()`. */
  function ToLower(s: string): string
  {
    Map(s, LowerChar)
  }

  /** The character class `[a-z0-9\s-]`. */
  predicate IsKept(c: char)
  {
    'a' <= c <= 'z' || '0' <= c <= '9' || IsWhitespace(c) || c == '-'
  }

  /** `.replace(/[^a-z0-9\s-]/g, "")`. */
  function RemoveSpecial(s: string): string
  {
    Filter(s, IsKept)
  }

  /** `.replace(/X+/g, "-")` where `X` is the class `sep`: every maximal run
      of `sep` characters becomes a single hyphen. `inRun` says that the
      character before `s` was part of a run that has been replaced already. */
  function ReplaceRuns(s: string, sep: char -> bool, inRun: bool): (r: string)
    ensures |r| <= |s|
    ensures |s| > 0 && !inRun ==> |r| > 0
    ensures forall i :: 0 <= i < |r| ==> r[i] == '-' || (r[i] in s && !sep(r[i]))
    ensures sep('-') ==> NoDoubleHyphen(r) && (inRun ==> |r| == 0 || r[0] != '-')
  {
    if |s| == 0 then ""
    else if sep(s[0]) then
      (if inRun then "" else "-") + ReplaceRuns(s[1..], sep, true)
    else
      [s[0]] + ReplaceRuns(s[1..], sep, false)
  }

  /** `.trim()`, the leading half. */
  function TrimStart(s: string): (r: string)
    ensures |r| <= |s| && r == s[|s| - |r|..]
    ensures |r| > 0 ==> !IsWhitespace(r[0])
  {
    if |s| > 0 && IsWhitespace(s[0]) then TrimStart(s[1..]) else s
  }

  /** `.trim()`, the trailing half. */
  function TrimEnd(s: string): (r: string)
    ensures |r| <= |s| && r == s[..|r|]
    ensures |r| > 0 ==> !IsWhitespace(r[|r| - 1])
  {
    if |s| > 0 && IsWhitespace(s[|s| - 1]) then TrimEnd(s[..|s| - 1]) else s
  }

  /** `.trim()`. */
  function Trim(s: string): string
  {
    TrimEnd(TrimStart(s))
  }

  /** `generateSlug(title)`: the result is made of `a`-`z`, `0`-`9` and
      single hyphens only, and is never longer than the title. */
  function GenerateSlug(title: string): (r: string)
    ensures IsSlug(r)
    ensures |r| <= |title|
  {
    var lowered := ToLower(title);
    var kept := RemoveSpecial(lowered);
    var dashed := ReplaceRuns(kept, IsWhitespace, false);
    var collapsed := ReplaceRuns(dashed, IsHyphen, false);
    TrimOfNoWhitespace(collapsed);
    Trim(collapsed)
  }

  /** Trimming a string without whitespace changes nothing; in
      `generateSlug` the whitespace is gone before `.trim()` runs. */
  lemma TrimOfNoWhitespace(s: string)
    requires forall i :: 0 <= i < |s| ==> !IsWhitespace(s[i])
    ensures Trim(s) == s
  {
    assert TrimStart(s) == s;
    assert TrimEnd(s) == s;
  }

  /** A string without `sep` characters has no run to replace. */
  lemma {:induction false} ReplaceRunsWithoutSep(s: string, sep: char -> bool, inRun: bool)
    requires forall i :: 0 <= i < |s| ==> !sep(s[i])
    ensures ReplaceRuns(s, sep, inRun) == s
  {
    if |s| > 0 {
      ReplaceRunsWithoutSep(s[1..], sep, false);
    }
  }

  /** A string whose hyphens are all single keeps them all. */
  lemma {:induction false} CollapseSingleHyphens(s: string, inRun: bool)
    requires NoDoubleHyphen(s)
    requires inRun ==> |s| == 0 || s[0] != '-'
    ensures ReplaceRuns(s, IsHyphen, inRun) == s
  {
    if |s| > 0 {
      CollapseSingleHyphens(s[1..], s[0] == '-');
    }
  }

  /** Lower-casing changes no character of a slug. */
  lemma ToLowerOfSlug(s: string)
    requires IsSlug(s)
    ensures ToLower(s) == s
  {
    assert forall i :: 0 <= i < |s| ==> ToLower(s)[i] == s[i];
  }

  /** Filtering removes nothing when every element passes. */
  lemma {:induction false} RemoveSpecialOfKept(s: string)
    requires forall i :: 0 <= i < |s| ==> IsKept(s[i])
    ensures RemoveSpecial(s) == s
  {
    if |s| > 0 {
      RemoveSpecialOfKept(s[1..]);
      assert s == [s[0]] + s[1..];
    }
  }

  /** A string is its own slug exactly when it has the shape of a slug. */
  lemma {:induction false} SlugFixedPoints(s: string)
    ensures GenerateSlug(s) == s <==> IsSlug(s)
  {
    if IsSlug(s) {
      ToLowerOfSlug(s);
      RemoveSpecialOfKept(s);
      ReplaceRunsWithoutSep(s, IsWhitespace, false);
      CollapseSingleHyphens(s, false);
      TrimOfNoWhitespace(s);
    }
  }

  /** `generateSlug` is idempotent. */
  lemma GenerateSlugIdempotent(title: string)
    ensures GenerateSlug(GenerateSlug(title)) == GenerateSlug(title)
  {
    SlugFixedPoints(GenerateSlug(title));
  }

  /** A run at the end of the input ends the output with a hyphen. */
  lemma {:induction false} ReplaceRunsLast(s: string, sep: char -> bool, inRun: bool)
    requires |s| > 0 && sep(s[|s| - 1])
    ensures var r := ReplaceRuns(s, sep, inRun); |r| == 0 || r[|r| - 1] == '-'
  {
    if |s| > 1 {
      ReplaceRunsLast(s[1..], sep, sep(s[0]));
    }
  }

  /** Whitespace at the front of a title becomes a hyphen at the front of
      its slug: `.trim()` runs after the whitespace has been replaced, so
      it finds none to remove. */
  lemma LeadingWhitespaceHyphen(title: string)
    requires |title| > 0 && IsWhitespace(title[0])
    ensures |GenerateSlug(title)| > 0 && GenerateSlug(title)[0] == '-'
  {
    var lowered := ToLower(title);
    var kept := RemoveSpecial(lowered);
    assert IsKept(lowered[0]);
    assert kept == [lowered[0]] + RemoveSpecial(lowered[1..]);
    var dashed := ReplaceRuns(kept, IsWhitespace, false);
    assert dashed[0] == '-';
    var collapsed := ReplaceRuns(dashed, IsHyphen, false);
    assert collapsed[0] == '-';
    TrimOfNoWhitespace(collapsed);
  }

  /** A kept last character stays last. */
  lemma RemoveSpecialLast(s: string)
    requires |s| > 0 && IsKept(s[|s| - 1])
    ensures var r := RemoveSpecial(s); |r| > 0 && r[|r| - 1] == s[|s| - 1]
  {
    FilterLast(s, IsKept);
  }

  /** Whitespace at the end of a title becomes a hyphen at the end of its
      slug, for the same reason. */
  lemma TrailingWhitespaceHyphen(title: string)
    requires |title| > 0 && IsWhitespace(title[|title| - 1])
    ensures var r := GenerateSlug(title); |r| > 0 && r[|r| - 1] == '-'
  {
    var lowered := ToLower(title);
    var kept := RemoveSpecial(lowered);
    assert |kept| > 0 && IsWhitespace(kept[|kept| - 1]) by {
      assert IsWhitespace(lowered[|lowered| - 1]);
      RemoveSpecialLast(lowered);
    }
    var dashed := ReplaceRuns(kept, IsWhitespace, false);
    assert |dashed| > 0 && IsHyphen(dashed[|dashed| - 1]) by {
      ReplaceRunsLast(kept, IsWhitespace, false);
    }
    var collapsed := ReplaceRuns(dashed, IsHyphen, false);
    assert |collapsed| > 0 && collapsed[|collapsed| - 1] == '-' by {
      ReplaceRunsLast(dashed, IsHyphen, false);
    }
    assert GenerateSlug(title) == collapsed by {
      TrimOfNoWhitespace(collapsed);
    }
  }

  /** A lone space becomes a lone hyphen: `.trim()` finds no space left. */
  lemma LoneSpaceSlug()
    ensures GenerateSlug(" ") == "-"
  {
    assert ToLower(" ") == " ";
    assert RemoveSpecial(" ") == " ";
    assert ReplaceRuns(" ", IsWhitespace, false) == "-";
    assert ReplaceRuns("-", IsHyphen, false) == "-";
    TrimOfNoWhitespace("-");
  }

  /** A letter between two spaces keeps a hyphen on either side. */
  lemma SpacedLetterSlug()
    ensures GenerateSlug(" X ") == "-x-"
  {
    assert ToLower(" X ") == " x " by {
      assert " X "[1..] == "X " && " X "[1..][1..] == " ";
    }
    assert RemoveSpecial(" x ") == " x " by {
      assert " x "[1..] == "x " && " x "[1..][1..] == " ";
    }
    assert ReplaceRuns(" x ", IsWhitespace, false) == "-x-" by {
      assert " x "[1..] == "x " && " x "[1..][1..] == " ";
    }
    assert ReplaceRuns("-x-", IsHyphen, false) == "-x-" by {
      assert "-x-"[1..] == "x-" && "-x-"[1..][1..] == "-";
    }
    TrimOfNoWhitespace("-x-");
    assert GenerateSlug(" X ") == Trim("-x-");
  }

  // ---------------------------------------------------------------------
  // Titles made of words and gaps

  predicate IsAlnum(c: char)
  {
    'a' <= c <= 'z' || 'A' <= c <= 'Z' || '0' <= c <= '9'
  }

  /** A word: letters and digits, at least one. */
  predicate IsWord(u: string)
  {
    |u| > 0 && forall i :: 0 <= i < |u| ==> IsAlnum(u[i])
  }

  /** A lower-case word: `a`-`z` and `0`-`9`, at least one. */
  predicate IsLowerWord(u: string)
  {
    |u| > 0 && forall i :: 0 <= i < |u| ==> 'a' <= u[i] <= 'z' || '0' <= u[i] <= '9'
  }

  /** A gap: whitespace, at least one character of it. */
  predicate IsGap(g: string)
  {
    |g| > 0 && forall i :: 0 <= i < |g| ==> IsWhitespace(g[i])
  }

  /** `lower` is `s` with each character lower-cased. */
  predicate IsLowerOf(s: string, lower: string)
  {
    |lower| == |s| && forall i :: 0 <= i < |s| ==> lower[i] == LowerChar(s[i])
  }

  lemma LowerOf(s: string, lower: string)
    requires IsLowerOf(s, lower)
    ensures ToLower(s) == lower
  {
  }

  /** Lower-casing works character by character. */
  lemma ToLowerAppend(a: string, b: string)
    ensures ToLower(a + b) == ToLower(a) + ToLower(b)
  {
    var l, r := ToLower(a + b), ToLower(a) + ToLower(b);
    assert forall i :: 0 <= i < |a| ==> l[i] == LowerChar(a[i]) == r[i];
    assert forall i :: |a| <= i < |a + b| ==> l[i] == LowerChar(b[i - |a|]) == r[i];
  }

  lemma LowerGap(g: string)
    requires IsGap(g)
    ensures ToLower(g) == g
  {
  }

  lemma LowerWord(u: string)
    requires IsWord(u)
    ensures IsLowerWord(ToLower(u))
  {
  }

  /** Removing characters works piece by piece. */
  lemma RemoveSpecialAppend(a: string, b: string)
    ensures RemoveSpecial(a + b) == RemoveSpecial(a) + RemoveSpecial(b)
  {
    FilterAppend(a, b, IsKept);
  }

  /** A string of characters outside the class is removed entirely. */
  lemma {:induction false} RemoveSpecialOfNone(t: string)
    requires forall i :: 0 <= i < |t| ==> !IsKept(t[i])
    ensures RemoveSpecial(t) == ""
  {
    if |t| > 0 {
      RemoveSpecialOfNone(t[1..]);
    }
  }

  /** Replacing runs works piece by piece: the second piece starts inside a
      run exactly when the first one ends with a `sep` character. */
  lemma {:induction false} ReplaceRunsAppend(a: string, b: string, sep: char -> bool, inRun: bool)
    ensures ReplaceRuns(a + b, sep, inRun) ==
      ReplaceRuns(a, sep, inRun) + ReplaceRuns(b, sep, if |a| == 0 then inRun else sep(a[|a| - 1]))
  {
    if |a| == 0 {
      assert a + b == b;
    } else {
      assert (a + b)[1..] == a[1..] + b;
      ReplaceRunsAppend(a[1..], b, sep, sep(a[0]));
    }
  }

  /** A run on its own becomes one hyphen, or nothing when it continues a
      run already replaced. */
  lemma {:induction false} ReplaceRunsOfRun(s: string, sep: char -> bool, inRun: bool)
    requires |s| > 0 && forall i :: 0 <= i < |s| ==> sep(s[i])
    ensures ReplaceRuns(s, sep, inRun) == if inRun then "" else "-"
  {
    if |s| > 1 {
      ReplaceRunsOfRun(s[1..], sep, true);
    }
  }

  /** A run followed by more text: one hyphen, then the rest as if inside
      the run. */
  lemma ReplaceRunsAfterRun(g: string, rest: string, sep: char -> bool)
    requires |g| > 0 && forall i :: 0 <= i < |g| ==> sep(g[i])
    ensures ReplaceRuns(g + rest, sep, false) == "-" + ReplaceRuns(rest, sep, true)
  {
    ReplaceRunsAppend(g, rest, sep, false);
    ReplaceRunsOfRun(g, sep, false);
  }

  /** Text without `sep` followed by more: the text stays, and the rest
      starts outside any run. */
  lemma ReplaceRunsAfterWord(u: string, rest: string, sep: char -> bool, inRun: bool)
    requires |u| > 0 && forall i :: 0 <= i < |u| ==> !sep(u[i])
    ensures ReplaceRuns(u + rest, sep, inRun) == u + ReplaceRuns(rest, sep, false)
  {
    ReplaceRunsAppend(u, rest, sep, inRun);
    ReplaceRunsWithoutSep(u, sep, inRun);
  }

  /** A gap survives lower-casing and filtering unchanged. */
  lemma KeptAfterGap(g: string, rest: string)
    requires IsGap(g)
    ensures RemoveSpecial(ToLower(g + rest)) == g + RemoveSpecial(ToLower(rest))
  {
    ToLowerAppend(g, rest);
    LowerGap(g);
    RemoveSpecialAppend(g, ToLower(rest));
    RemoveSpecialOfKept(g);
  }

  /** A word survives lower-casing and filtering as its lower-case form. */
  lemma KeptAfterWord(u: string, rest: string)
    requires IsWord(u)
    ensures RemoveSpecial(ToLower(u + rest)) == ToLower(u) + RemoveSpecial(ToLower(rest))
  {
    ToLowerAppend(u, rest);
    RemoveSpecialAppend(ToLower(u), ToLower(rest));
    KeptWord(u);
  }

  lemma KeptWord(u: string)
    requires IsWord(u)
    ensures RemoveSpecial(ToLower(u)) == ToLower(u)
  {
    LowerWord(u);
    RemoveSpecialOfKept(ToLower(u));
  }

  /** Characters that are neither upper-case nor in the kept class do not
      affect the slug, wherever they stand. */
  lemma SpecialIgnored(a: string, junk: string, b: string)
    requires forall i :: 0 <= i < |junk| ==> !IsKept(junk[i]) && !('A' <= junk[i] <= 'Z')
    ensures GenerateSlug(a + (junk + b)) == GenerateSlug(a + b)
  {
    var A, B := ToLower(a), ToLower(b);
    assert ToLower(a + (junk + b)) == A + (junk + B) by {
      ToLowerAppend(a, junk + b);
      ToLowerAppend(junk, b);
      assert ToLower(junk) == junk;
    }
    assert ToLower(a + b) == A + B by {
      ToLowerAppend(a, b);
    }
    assert RemoveSpecial(A + (junk + B)) == RemoveSpecial(A + B) by {
      RemoveSpecialAppend(A, junk + B);
      RemoveSpecialAppend(junk, B);
      RemoveSpecialAppend(A, B);
      RemoveSpecialOfNone(junk);
    }
  }

  /** Two words between and inside gaps: each word is lower-cased, each gap
      becomes one hyphen, and the outer gaps stay as hyphens. */
  lemma SpacedWordsSlug(g0: string, u: string, g1: string, v: string, g2: string)
    requires IsGap(g0) && IsWord(u) && IsGap(g1) && IsWord(v) && IsGap(g2)
    ensures GenerateSlug(g0 + (u + (g1 + (v + g2)))) ==
      "-" + (ToLower(u) + ("-" + (ToLower(v) + "-")))
  {
    SpacedWordsKept(g0, u, g1, v, g2);
    LowerWord(u);
    LowerWord(v);
    SpacedWordsDashed(g0, ToLower(u), g1, ToLower(v), g2);
  }

  /** Lower-casing and filtering keep the gaps and lower-case the words. */
  lemma SpacedWordsKept(g0: string, u: string, g1: string, v: string, g2: string)
    requires IsGap(g0) && IsWord(u) && IsGap(g1) && IsWord(v) && IsGap(g2)
    ensures RemoveSpecial(ToLower(g0 + (u + (g1 + (v + g2))))) ==
      g0 + (ToLower(u) + (g1 + (ToLower(v) + g2)))
  {
    KeptAfterGap(g0, u + (g1 + (v + g2)));
    KeptAfterWord(u, g1 + (v + g2));
    KeptAfterGap(g1, v + g2);
    KeptAfterWord(v, g2);
    LowerGap(g2);
    RemoveSpecialOfKept(g2);
  }

  /** The gaps between and around lower-case words become single hyphens,
      and nothing is left for the hyphen step or `.trim()` to change. */
  lemma SpacedWordsDashed(g0: string, u: string, g1: string, v: string, g2: string)
    requires IsGap(g0) && IsLowerWord(u) && IsGap(g1) && IsLowerWord(v) && IsGap(g2)
    ensures var dashed := ReplaceRuns(g0 + (u + (g1 + (v + g2))), IsWhitespace, false);
      Trim(ReplaceRuns(dashed, IsHyphen, false)) == "-" + (u + ("-" + (v + "-")))
  {
    ReplaceRunsAfterRun(g0, u + (g1 + (v + g2)), IsWhitespace);
    ReplaceRunsAfterWord(u, g1 + (v + g2), IsWhitespace, true);
    ReplaceRunsAfterRun(g1, v + g2, IsWhitespace);
    ReplaceRunsAfterWord(v, g2, IsWhitespace, true);
    ReplaceRunsOfRun(g2, IsWhitespace, false);
    SpacedWordsCollapsed(u, v);
    TrimOfNoWhitespace("-" + (u + ("-" + (v + "-"))));
  }

  /** Single hyphens around and between lower-case words are kept. */
  lemma SpacedWordsCollapsed(u: string, v: string)
    requires IsLowerWord(u) && IsLowerWord(v)
    ensures var dashed := "-" + (u + ("-" + (v + "-")));
      ReplaceRuns(dashed, IsHyphen, false) == dashed
  {
    ReplaceRunsAfterRun("-", u + ("-" + (v + "-")), IsHyphen);
    ReplaceRunsAfterWord(u, "-" + (v + "-"), IsHyphen, true);
    ReplaceRunsAfterRun("-", v + "-", IsHyphen);
    ReplaceRunsAfterWord(v, "-", IsHyphen, true);
    ReplaceRunsOfRun("-", IsHyphen, false);
  }

  /** Three words separated by gaps: each word is lower-cased and each gap
      becomes one hyphen. */
  lemma ThreeWordsSlug(u: string, g1: string, v: string, g2: string, w: string)
    requires IsWord(u) && IsGap(g1) && IsWord(v) && IsGap(g2) && IsWord(w)
    ensures GenerateSlug(u + (g1 + (v + (g2 + w)))) ==
      ToLower(u) + ("-" + (ToLower(v) + ("-" + ToLower(w))))
  {
    ThreeWordsKept(u, g1, v, g2, w);
    LowerWord(u);
    LowerWord(v);
    LowerWord(w);
    ThreeWordsDashed(ToLower(u), g1, ToLower(v), g2, ToLower(w));
  }

  /** Lower-casing and filtering keep the gaps and lower-case the words. */
  lemma ThreeWordsKept(u: string, g1: string, v: string, g2: string, w: string)
    requires IsWord(u) && IsGap(g1) && IsWord(v) && IsGap(g2) && IsWord(w)
    ensures RemoveSpecial(ToLower(u + (g1 + (v + (g2 + w))))) ==
      ToLower(u) + (g1 + (ToLower(v) + (g2 + ToLower(w))))
  {
    KeptAfterWord(u, g1 + (v + (g2 + w)));
    KeptAfterGap(g1, v + (g2 + w));
    KeptAfterWord(v, g2 + w);
    KeptAfterGap(g2, w);
    KeptWord(w);
  }

  /** The gaps between lower-case words become single hyphens, and nothing
      is left for the hyphen step or `.trim()` to change. */
  lemma ThreeWordsDashed(u: string, g1: string, v: string, g2: string, w: string)
    requires IsLowerWord(u) && IsGap(g1) && IsLowerWord(v) && IsGap(g2) && IsLowerWord(w)
    ensures var dashed := ReplaceRuns(u + (g1 + (v + (g2 + w))), IsWhitespace, false);
      Trim(ReplaceRuns(dashed, IsHyphen, false)) == u + ("-" + (v + ("-" + w)))
  {
    ReplaceRunsAfterWord(u, g1 + (v + (g2 + w)), IsWhitespace, false);
    ReplaceRunsAfterRun(g1, v + (g2 + w), IsWhitespace);
    ReplaceRunsAfterWord(v, g2 + w, IsWhitespace, true);
    ReplaceRunsAfterRun(g2, w, IsWhitespace);
    ReplaceRunsWithoutSep(w, IsWhitespace, true);
    ThreeWordsCollapsed(u, v, w);
    TrimOfNoWhitespace(u + ("-" + (v + ("-" + w))));
  }

  /** Single hyphens between lower-case words are kept. */
  lemma ThreeWordsCollapsed(u: string, v: string, w: string)
    requires IsLowerWord(u) && IsLowerWord(v) && IsLowerWord(w)
    ensures var dashed := u + ("-" + (v + ("-" + w)));
      ReplaceRuns(dashed, IsHyphen, false) == dashed
  {
    ReplaceRunsAfterWord(u, "-" + (v + ("-" + w)), IsHyphen, false);
    ReplaceRunsAfterRun("-", v + ("-" + w), IsHyphen);
    ReplaceRunsAfterWord(v, "-" + w, IsHyphen, true);
    ReplaceRunsAfterRun("-", w, IsHyphen);
    ReplaceRunsWithoutSep(w, IsHyphen, true);
  }

  // ---------------------------------------------------------------------
  // Two titles worked through

  /** "  Multiple   Spaces  " as gaps and words, and its slug as hyphens
      and words. */
  lemma MultipleSpacesPieces()
    ensures "  Multiple   Spaces  " == "  " + ("Multiple" + ("   " + ("Spaces" + "  ")))
    ensures "-" + ("multiple" + ("-" + ("spaces" + "-"))) == "-multiple-spaces-"
  {
  }

  lemma MultipleSpacesWords()
    ensures IsGap("  ") && IsWord("Multiple") && IsGap("   ") && IsWord("Spaces")
    ensures IsLowerOf("Multiple", "multiple") && IsLowerOf("Spaces", "spaces")
  {
  }

  /** Runs of spaces become single hyphens, and the hyphens at the ends
      stay: `.trim()` runs last and finds no space. */
  lemma MultipleSpacesSlug()
    ensures GenerateSlug("  Multiple   Spaces  ") == "-multiple-spaces-"
  {
    MultipleSpacesPieces();
    MultipleSpacesWords();
    LowerOf("Multiple", "multiple");
    LowerOf("Spaces", "spaces");
    SpacedWordsSlug("  ", "Multiple", "   ", "Spaces", "  ");
  }

  /** "My Awesome Project!!" as words, gaps and marks, and its slug as
      words and hyphens. */
  lemma AwesomeProjectPieces()
    ensures var title := "My" + (" " + ("Awesome" + (" " + "Project")));
      "My Awesome Project!!" == title + ("!!" + "") && title + "" == title
    ensures "my" + ("-" + ("awesome" + ("-" + "project"))) == "my-awesome-project"
  {
  }

  lemma AwesomeProjectWords()
    ensures IsWord("My") && IsGap(" ") && IsWord("Awesome") && IsWord("Project")
    ensures forall i :: 0 <= i < |"!!"| ==> !IsKept("!!"[i]) && !('A' <= "!!"[i] <= 'Z')
    ensures IsLowerOf("My", "my") && IsLowerOf("Awesome", "awesome") && IsLowerOf("Project", "project")
  {
  }

  /** The marks are dropped and the single spaces become hyphens. */
  lemma AwesomeProjectSlug()
    ensures GenerateSlug("My Awesome Project!!") == "my-awesome-project"
  {
    AwesomeProjectPieces();
    AwesomeProjectWords();
    LowerOf("My", "my");
    LowerOf("Awesome", "awesome");
    LowerOf("Project", "project");
    SpecialIgnored("My" + (" " + ("Awesome" + (" " + "Project"))), "!!", "");
    ThreeWordsSlug("My", " ", "Awesome", " ", "Project");
  }
}
