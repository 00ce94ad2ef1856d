/** `sanitizeCategoryName`: the fixed chain of string rewrites that turns a
    category name into a folder-safe slug. Each regular-expression replacement
    of the chain is a function of its own. The expressions are case-sensitive,
    so `\w` is the ASCII class `[A-Za-z0-9_]`. */
module Slug {
  import opened JsStrings

  /** `toLowerCase` on one code point, as far as a slug can tell: every
      character other than these keeps or gets a lower-case form that is
      neither ASCII nor white space, and the deletion step removes it either
      way. The Kelvin sign and the dotted capital I lower-case into ASCII. */
  function LowerChar(c: char): string {
    if 'A' <= c <= 'Z' then [(c as int + 32) as char]
    else if c == '\U{212A}' then "k"
    else if c == '\U{130}' then ['i', '\U{307}']
    else [c]
  }

  predicate IsUpperAscii(c: char) {
    'A' <= c <= 'Z'
  }

  /** `s.toLowerCase()`. */
  function ToLowerCase(s: string): string {
    if s == [] then [] else LowerChar(s[0]) + ToLowerCase(s[1..])
  }

  /** The lowered text has no ASCII capital and brings in no character but
      small ASCII letters and the combining dot above. */
  lemma {:induction false} ToLowerCaseShape(s: string)
    ensures forall i :: 0 <= i < |ToLowerCase(s)| ==> !IsUpperAscii(ToLowerCase(s)[i])
    ensures forall i :: 0 <= i < |ToLowerCase(s)| ==>
              ToLowerCase(s)[i] in s || 'a' <= ToLowerCase(s)[i] <= 'z' || ToLowerCase(s)[i] == '\U{307}'
  {
    if s != [] {
      ToLowerCaseShape(s[1..]);
      var head, rest := LowerChar(s[0]), ToLowerCase(s[1..]);
      var r := ToLowerCase(s);
      assert r == head + rest;
      forall i | 0 <= i < |r|
        ensures !IsUpperAscii(r[i])
        ensures r[i] in s || 'a' <= r[i] <= 'z' || r[i] == '\U{307}'
      {
        if i < |head| {
          assert r[i] == head[i];
          if 'A' <= s[0] <= 'Z' {
            assert head == [(s[0] as int + 32) as char];
            assert 'a' <= head[0] <= 'z';
          } else if s[0] == '\U{212A}' {
            assert head == "k";
          } else if s[0] == '\U{130}' {
            assert head == ['i', '\U{307}'];
          } else {
            assert head == [s[0]];
          }
        } else {
          var j := i - |head|;
          assert r[i] == rest[j];
          assert !IsUpperAscii(rest[j]);
          assert rest[j] in s[1..] || 'a' <= rest[j] <= 'z' || rest[j] == '\U{307}';
          if rest[j] in s[1..] {
            var k :| 0 <= k < |s[1..]| && s[1..][k] == rest[j];
            assert s[k + 1] == rest[j];
          }
        }
      }
    }
  }

  /** Text without capitals is left as it is. */
  lemma {:induction false} ToLowerCaseIdentity(s: string)
    requires forall i :: 0 <= i < |s| ==> !IsUpperAscii(s[i]) && s[i] != '\U{212A}' && s[i] != '\U{130}'
    ensures ToLowerCase(s) == s
  {
    if s != [] {
      var t := s[1..];
      assert forall i :: 0 <= i < |t| ==> t[i] == s[i + 1];
      ToLowerCaseIdentity(t);
      assert s == [s[0]] + t;
    }
  }

  /** `s.replace(/X+/g, rep)` for the character class `inRun`: every maximal
      run of class characters becomes the single character `rep`. */
  function ReplaceRuns(s: string, inRun: char -> bool, rep: char): string
  {
    if s == [] then []
    else
      var rest := ReplaceRuns(s[1..], inRun, rep);
      if inRun(s[0]) then
        if |s| > 1 && inRun(s[1]) then rest else [rep] + rest
      else [s[0]] + rest
  }

  /** Replacing runs empties nothing, starts as the input does and brings
      in no character but the replacement. */
  lemma {:induction false} ReplaceRunsKeepsChars(s: string, inRun: char -> bool, rep: char)
    ensures var r := ReplaceRuns(s, inRun, rep);
            && (|r| == 0 <==> |s| == 0)
            && (s != [] ==> r[0] == (if inRun(s[0]) then rep else s[0]))
            && (forall i :: 0 <= i < |r| ==> r[i] in s || r[i] == rep)
    decreases s
  {
    if s != [] {
      ReplaceRunsKeepsChars(s[1..], inRun, rep);
      var rest := ReplaceRuns(s[1..], inRun, rep);
      assert forall i :: 0 <= i < |rest| ==> rest[i] in s[1..] ==> rest[i] in s;
    }
  }

  /** No class character is left, or, when the replacement is in the class,
      no two in a row. */
  lemma {:induction false} ReplaceRunsLeavesNoRun(s: string, inRun: char -> bool, rep: char)
    ensures var r := ReplaceRuns(s, inRun, rep);
            && (!inRun(rep) ==> forall i :: 0 <= i < |r| ==> !inRun(r[i]))
            && (inRun(rep) ==> forall i :: 0 <= i < |r| - 1 ==> !(inRun(r[i]) && inRun(r[i + 1])))
    decreases s
  {
    if s != [] {
      ReplaceRunsLeavesNoRun(s[1..], inRun, rep);
      ReplaceRunsKeepsChars(s[1..], inRun, rep);
    }
  }

  /** Text whose class characters are all the replacement, none next to
      another, is left as it is. */
  lemma {:induction false} ReplaceRunsIdentity(s: string, inRun: char -> bool, rep: char)
    requires forall i :: 0 <= i < |s| ==> inRun(s[i]) ==> s[i] == rep
    requires forall i :: 0 <= i < |s| - 1 ==> !(inRun(s[i]) && inRun(s[i + 1]))
    ensures ReplaceRuns(s, inRun, rep) == s
    decreases s
  {
    if s != [] {
      var t := s[1..];
      assert forall i :: 0 <= i < |t| ==> t[i] == s[i + 1];
      ReplaceRunsIdentity(t, inRun, rep);
      assert s == [s[0]] + t;
    }
  }

  /** The number of maximal runs of `inRun` characters in `s`, counted at
      the character that starts each run; `prev` says whether the character
      just before `s` belongs to the class. */
  function RunsFrom(prev: bool, s: string, inRun: char -> bool): nat
    decreases s
  {
    if s == [] then 0
    else (if inRun(s[0]) && !prev then 1 else 0) + RunsFrom(inRun(s[0]), s[1..], inRun)
  }

  /** `\w`: `[A-Za-z0-9_]`. */
  predicate IsWordChar(c: char) {
    'A' <= c <= 'Z' || 'a' <= c <= 'z' || '0' <= c <= '9' || c == '_'
  }

  predicate IsWordOrHyphen(c: char) {
    IsWordChar(c) || c == '-'
  }

  /** `s.replace(/[^\w\-]+/g, '')`: deletes every character outside
      `[A-Za-z0-9_-]`. */
  function DeleteNonWord(s: string): string {
    if s == [] then []
    else
      var rest := DeleteNonWord(s[1..]);
      if IsWordOrHyphen(s[0]) then [s[0]] + rest else rest
  }

  /** Only letters, digits, underscores and hyphens of the input remain, and
      text made of them only is left as it is. */
  lemma {:induction false} DeleteNonWordShape(s: string)
    ensures var r := DeleteNonWord(s);
            && (forall i :: 0 <= i < |r| ==> IsWordOrHyphen(r[i]) && r[i] in s)
            && ((forall i :: 0 <= i < |s| ==> IsWordOrHyphen(s[i])) ==> r == s)
  {
    if s != [] {
      DeleteNonWordShape(s[1..]);
      var rest := DeleteNonWord(s[1..]);
      assert forall i :: 0 <= i < |rest| ==> rest[i] in s[1..] ==> rest[i] in s;
    }
  }

  predicate IsHyphen(c: char) {
    c == '-'
  }

  predicate IsIdeographicSpace(c: char) {
    c == '\U{3000}'
  }

  /** `s.replace(/^-+/, '')`. */
  function TrimLeadingHyphens(s: string): (r: string)
    ensures |r| <= |s| && r == s[|s| - |r|..]
    ensures r == [] || r[0] != '-'
    ensures (s == [] || s[0] != '-') ==> r == s
  {
    if s != [] && s[0] == '-' then TrimLeadingHyphens(s[1..]) else s
  }

  /** `s.replace(/-+$/, '')`. */
  function TrimTrailingHyphens(s: string): (r: string)
    ensures |r| <= |s| && r == s[..|r|]
    ensures r == [] || r[|r| - 1] != '-'
    ensures (s == [] || s[|s| - 1] != '-') ==> r == s
  {
    if s != [] && s[|s| - 1] == '-' then TrimTrailingHyphens(s[..|s| - 1]) else s
  }

  /** The rewrites of `sanitizeCategoryName` before the `|| 'uncategorized'`
      fallback, in source order. */
  function SanitizeSteps(name: string): string {
    var lowered := ToLowerCase(name);
    var spaced := ReplaceRuns(lowered, IsJsWhitespace, '-');        // /\s+/g -> '-'
    var ideographic := ReplaceRuns(spaced, IsIdeographicSpace, '-'); // /　+/g -> '-'
    var word := DeleteNonWord(ideographic);                          // /[^\w\-]+/g -> ''
    var collapsed := ReplaceRuns(word, IsHyphen, '-');               // /\-\-+/g -> '-'
    TrimTrailingHyphens(TrimLeadingHyphens(collapsed))                // /^-+/, /-+$/
  }

  /** `sanitizeCategoryName(name)`. */
  function SanitizeCategoryName(name: string): string {
    Or(SanitizeSteps(name), "uncategorized")
  }

  predicate IsSlugChar(c: char) {
    'a' <= c <= 'z' || '0' <= c <= '9' || c == '_' || c == '-'
  }

  /** Non-empty, only lower-case ASCII letters, digits, `_` and `-`, no hyphen
      at either end and no two hyphens in a row. */
  predicate IsSlug(s: string) {
    && s != []
    && (forall i :: 0 <= i < |s| ==> IsSlugChar(s[i]))
    && s[0] != '-' && s[|s| - 1] != '-'
    && (forall i :: 0 <= i < |s| - 1 ==> !(s[i] == '-' && s[i + 1] == '-'))
  }

  predicate NoUpperAscii(s: string) {
    forall i :: 0 <= i < |s| ==> !IsUpperAscii(s[i])
  }

  predicate AllSlugChars(s: string) {
    forall i :: 0 <= i < |s| ==> IsSlugChar(s[i])
  }

  predicate NoDoubleHyphen(s: string) {
    forall i :: 0 <= i < |s| - 1 ==> !(s[i] == '-' && s[i + 1] == '-')
  }

  lemma ReplaceRunsByHyphenKeepsNoUpper(s: string, inRun: char -> bool)
    requires NoUpperAscii(s)
    ensures NoUpperAscii(ReplaceRuns(s, inRun, '-'))
  {
    var r := ReplaceRuns(s, inRun, '-');
    ReplaceRunsKeepsChars(s, inRun, '-');
    forall i | 0 <= i < |r| ensures !IsUpperAscii(r[i]) {
      if r[i] != '-' {
        var j :| 0 <= j < |s| && s[j] == r[i];
      }
    }
  }

  lemma DeleteNonWordGivesSlugChars(s: string)
    requires NoUpperAscii(s)
    ensures AllSlugChars(DeleteNonWord(s))
  {
    var r := DeleteNonWord(s);
    DeleteNonWordShape(s);
    forall i | 0 <= i < |r| ensures IsSlugChar(r[i]) {
      var j :| 0 <= j < |s| && s[j] == r[i];
    }
  }

  lemma CollapseGivesSlugChars(s: string)
    requires AllSlugChars(s)
    ensures AllSlugChars(ReplaceRuns(s, IsHyphen, '-')) && NoDoubleHyphen(ReplaceRuns(s, IsHyphen, '-'))
  {
    var r := ReplaceRuns(s, IsHyphen, '-');
    ReplaceRunsKeepsChars(s, IsHyphen, '-');
    ReplaceRunsLeavesNoRun(s, IsHyphen, '-');
    forall i | 0 <= i < |r| ensures IsSlugChar(r[i]) {
      if r[i] != '-' {
        var j :| 0 <= j < |s| && s[j] == r[i];
      }
    }
  }

  lemma TrimHyphensGivesSlug(s: string)
    requires AllSlugChars(s) && NoDoubleHyphen(s)
    ensures TrimTrailingHyphens(TrimLeadingHyphens(s)) == [] || IsSlug(TrimTrailingHyphens(TrimLeadingHyphens(s)))
  {
    var lead := TrimLeadingHyphens(s);
    var r := TrimTrailingHyphens(lead);
    SlugCharsDrop(s, |s| - |lead|);
    SlugCharsTake(lead, |r|);
    if r != [] {
      assert r[0] == lead[0];
      SlugFromParts(r);
    }
  }

  lemma SlugFromParts(r: string)
    requires AllSlugChars(r) && NoDoubleHyphen(r)
    requires r != [] && r[0] != '-' && r[|r| - 1] != '-'
    ensures IsSlug(r)
  {
  }

  lemma SlugCharsDrop(s: string, lo: nat)
    requires lo <= |s| && AllSlugChars(s) && NoDoubleHyphen(s)
    ensures AllSlugChars(s[lo..]) && NoDoubleHyphen(s[lo..])
  {
    var r := s[lo..];
    assert forall i :: 0 <= i < |r| ==> r[i] == s[lo + i];
  }

  lemma SlugCharsTake(s: string, hi: nat)
    requires hi <= |s| && AllSlugChars(s) && NoDoubleHyphen(s)
    ensures AllSlugChars(s[..hi]) && NoDoubleHyphen(s[..hi])
  {
  }

  /** The steps before the fallback yield either nothing or a slug. */
  lemma SanitizeStepsShape(name: string)
    ensures var r := SanitizeSteps(name); r == [] || IsSlug(r)
  {
    var lowered := ToLowerCase(name);
    ToLowerCaseShape(name);
    var spaced := ReplaceRuns(lowered, IsJsWhitespace, '-');
    ReplaceRunsByHyphenKeepsNoUpper(lowered, IsJsWhitespace);
    var ideographic := ReplaceRuns(spaced, IsIdeographicSpace, '-');
    ReplaceRunsByHyphenKeepsNoUpper(spaced, IsIdeographicSpace);
    var word := DeleteNonWord(ideographic);
    DeleteNonWordGivesSlugChars(ideographic);
    CollapseGivesSlugChars(word);
    TrimHyphensGivesSlug(ReplaceRuns(word, IsHyphen, '-'));
  }

  lemma UncategorizedIsSlug()
    ensures IsSlug("uncategorized")
  {
    var u := "uncategorized";
    forall i | 0 <= i < |u| ensures 'a' <= u[i] <= 'z' {
    }
  }

  /** `sanitizeCategoryName` never returns the empty string: its result is a
      slug (the fallback `uncategorized` is one too). */
  lemma SanitizeIsSlug(name: string)
    ensures IsSlug(SanitizeCategoryName(name))
  {
    SanitizeStepsShape(name);
    UncategorizedIsSlug();
  }

  lemma SlugHasNoSpace(s: string)
    requires AllSlugChars(s)
    ensures forall i :: 0 <= i < |s| ==> !IsJsWhitespace(s[i]) && !IsIdeographicSpace(s[i])
  {
    forall i | 0 <= i < |s| ensures !IsJsWhitespace(s[i]) && !IsIdeographicSpace(s[i]) {
      assert IsSlugChar(s[i]);
    }
  }

  lemma SlugLowerCaseFixed(s: string)
    requires AllSlugChars(s)
    ensures ToLowerCase(s) == s
  {
    forall i | 0 <= i < |s| ensures !IsUpperAscii(s[i]) && s[i] != '\U{212A}' && s[i] != '\U{130}' {
      assert IsSlugChar(s[i]);
    }
    ToLowerCaseIdentity(s);
  }

  lemma SlugHyphenRunsFixed(s: string)
    requires AllSlugChars(s) && NoDoubleHyphen(s)
    ensures ReplaceRuns(s, IsHyphen, '-') == s
  {
    assert forall i :: 0 <= i < |s| - 1 ==> !(IsHyphen(s[i]) && IsHyphen(s[i + 1]));
    ReplaceRunsIdentity(s, IsHyphen, '-');
  }

  lemma SlugWordFixed(s: string)
    requires AllSlugChars(s)
    ensures DeleteNonWord(s) == s
  {
    DeleteNonWordShape(s);
    forall i | 0 <= i < |s| ensures IsWordOrHyphen(s[i]) {
      assert IsSlugChar(s[i]);
    }
  }

  /** Every step leaves a slug unchanged. */
  lemma SlugIsFixedPoint(s: string)
    requires IsSlug(s)
    ensures SanitizeCategoryName(s) == s
  {
    SlugLowerCaseFixed(s);
    SlugHasNoSpace(s);
    ReplaceRunsIdentity(s, IsJsWhitespace, '-');
    ReplaceRunsIdentity(s, IsIdeographicSpace, '-');
    SlugWordFixed(s);
    SlugHyphenRunsFixed(s);
    assert SanitizeSteps(s) == s;
  }

  /** Sanitising twice is sanitising once. */
  lemma SanitizeIdempotent(name: string)
    ensures SanitizeCategoryName(SanitizeCategoryName(name)) == SanitizeCategoryName(name)
  {
    SanitizeIsSlug(name);
    SlugIsFixedPoint(SanitizeCategoryName(name));
  }

  /** The characters of `s` in `[a-z0-9_]`, in order. */
  function LowerWordChars(s: string): string {
    if s == [] then [] else (if IsLowerWordChar(s[0]) then [s[0]] else []) + LowerWordChars(s[1..])
  }

  predicate IsLowerWordChar(c: char) {
    'a' <= c <= 'z' || '0' <= c <= '9' || c == '_'
  }

  /** Lower-casing changes only capitals: an ASCII capital becomes its small
      letter, the Kelvin sign becomes `k`, and every other character stays
      where it is (for text without U+0130, whose lower case is two
      characters long). */
  lemma {:induction false} ToLowerCaseMapsEach(s: string)
    requires '\U{130}' !in s
    ensures var r := ToLowerCase(s);
            && |r| == |s|
            && forall i :: 0 <= i < |s| ==>
                 && (IsUpperAscii(s[i]) ==> r[i] as int == s[i] as int - 'A' as int + 'a' as int)
                 && (s[i] == '\U{212A}' ==> r[i] == 'k')
                 && (!IsUpperAscii(s[i]) && s[i] != '\U{212A}' ==> r[i] == s[i])
  {
    if s != [] {
      assert '\U{130}' !in s[1..] by {
        assert forall c :: c in s[1..] ==> c in s;
      }
      ToLowerCaseMapsEach(s[1..]);
      var r, rest := ToLowerCase(s), ToLowerCase(s[1..]);
      assert r == LowerChar(s[0]) + rest;
      assert |LowerChar(s[0])| == 1;
      forall i | 0 < i < |s| ensures r[i] == rest[i - 1] && s[i] == s[1..][i - 1] {
      }
    }
  }

  /** Replacing runs keeps every character `c` outside the class other than
      the replacement, as many times as it occurs. */
  lemma {:induction false} ReplaceRunsKeepsOthers(s: string, inRun: char -> bool, rep: char, c: char)
    requires !inRun(c) && c != rep
    ensures multiset(ReplaceRuns(s, inRun, rep))[c] == multiset(s)[c]
    decreases s
  {
    if s != [] {
      var rest := ReplaceRuns(s[1..], inRun, rep);
      ReplaceRunsKeepsOthers(s[1..], inRun, rep, c);
      assert s == [s[0]] + s[1..];
      assert multiset(s)[c] == (if s[0] == c then 1 else 0) + multiset(s[1..])[c];
      assert multiset([rep] + rest)[c] == multiset(rest)[c];
      assert multiset([s[0]] + rest)[c] == (if s[0] == c then 1 else 0) + multiset(rest)[c];
    }
  }

  /** Replacing runs writes the replacement once per run of the class, besides
      the replacement characters outside the class that were already there. */
  lemma {:induction false} ReplaceRunsCountsRuns(s: string, inRun: char -> bool, rep: char)
    ensures multiset(ReplaceRuns(s, inRun, rep))[rep]
         == (if inRun(rep) then 0 else multiset(s)[rep]) + RunsFrom(false, s, inRun)
    decreases s
  {
    if s != [] {
      var r, rest := ReplaceRuns(s, inRun, rep), ReplaceRuns(s[1..], inRun, rep);
      ReplaceRunsCountsRuns(s[1..], inRun, rep);
      assert s == [s[0]] + s[1..];
      assert multiset(s)[rep] == (if s[0] == rep then 1 else 0) + multiset(s[1..])[rep];
      assert RunsFrom(false, s, inRun) == (if inRun(s[0]) then 1 else 0) + RunsFrom(inRun(s[0]), s[1..], inRun);
      if inRun(s[0]) {
        if |s| > 1 && inRun(s[1]) {
          assert r == rest;
          assert s[1..][0] == s[1] && s[1..][1..] == s[2..];
          assert RunsFrom(true, s[1..], inRun) == RunsFrom(true, s[2..], inRun);
          assert RunsFrom(false, s[1..], inRun) == 1 + RunsFrom(true, s[2..], inRun);
        } else {
          assert r == [rep] + rest;
          assert multiset(r)[rep] == 1 + multiset(rest)[rep];
          assert RunsFrom(true, s[1..], inRun) == RunsFrom(false, s[1..], inRun);
        }
      } else {
        assert r == [s[0]] + rest;
        assert multiset(r)[rep] == (if s[0] == rep then 1 else 0) + multiset(rest)[rep];
      }
    }
  }

  /** The deletion keeps every letter, digit, underscore and hyphen as many
      times as it occurs. */
  lemma {:induction false} DeleteNonWordContents(s: string)
    ensures forall c :: IsWordOrHyphen(c) ==> multiset(DeleteNonWord(s))[c] == multiset(s)[c]
  {
    if s != [] {
      DeleteNonWordContents(s[1..]);
      assert s == [s[0]] + s[1..];
      var rest := DeleteNonWord(s[1..]);
      assert multiset([s[0]] + rest) == multiset{s[0]} + multiset(rest);
    }
  }

  /** What `TrimLeadingHyphens` drops is hyphens only. */
  lemma {:induction false} TrimLeadingHyphensDropsHyphens(s: string)
    ensures var r := TrimLeadingHyphens(s); forall i :: 0 <= i < |s| - |r| ==> s[i] == '-'
  {
    if s != [] && s[0] == '-' {
      TrimLeadingHyphensDropsHyphens(s[1..]);
    }
  }

  /** What `TrimTrailingHyphens` drops is hyphens only. */
  lemma {:induction false} TrimTrailingHyphensDropsHyphens(s: string)
    ensures var r := TrimTrailingHyphens(s); forall i :: |r| <= i < |s| ==> s[i] == '-'
  {
    if s != [] && s[|s| - 1] == '-' {
      TrimTrailingHyphensDropsHyphens(s[..|s| - 1]);
    }
  }

  lemma {:induction false} LowerWordCharsConcat(a: string, b: string)
    ensures LowerWordChars(a + b) == LowerWordChars(a) + LowerWordChars(b)
  {
    if a != [] {
      assert (a + b)[0] == a[0] && (a + b)[1..] == a[1..] + b;
      LowerWordCharsConcat(a[1..], b);
      var head := if IsLowerWordChar(a[0]) then [a[0]] else [];
      calc {
        LowerWordChars(a + b);
        head + LowerWordChars(a[1..] + b);
        head + (LowerWordChars(a[1..]) + LowerWordChars(b));
        (head + LowerWordChars(a[1..])) + LowerWordChars(b);
      }
    } else {
      assert a + b == b;
    }
  }

  lemma {:induction false} NoLowerWordChars(s: string)
    requires forall i :: 0 <= i < |s| ==> !IsLowerWordChar(s[i])
    ensures LowerWordChars(s) == []
  {
    if s != [] {
      NoLowerWordChars(s[1..]);
    }
  }

  lemma {:induction false} ReplaceRunsKeepsWordChars(s: string, inRun: char -> bool)
    requires forall c :: inRun(c) ==> !IsLowerWordChar(c)
    ensures LowerWordChars(ReplaceRuns(s, inRun, '-')) == LowerWordChars(s)
    decreases s
  {
    if s != [] {
      var rest := ReplaceRuns(s[1..], inRun, '-');
      ReplaceRunsKeepsWordChars(s[1..], inRun);
      if inRun(s[0]) && !(|s| > 1 && inRun(s[1])) {
        LowerWordCharsConcat(['-'], rest);
      } else if !inRun(s[0]) {
        LowerWordCharsConcat([s[0]], rest);
      }
    }
  }

  lemma {:induction false} DeleteNonWordKeepsWordChars(s: string)
    ensures LowerWordChars(DeleteNonWord(s)) == LowerWordChars(s)
  {
    if s != [] {
      var rest := DeleteNonWord(s[1..]);
      DeleteNonWordKeepsWordChars(s[1..]);
      if IsWordOrHyphen(s[0]) {
        LowerWordCharsConcat([s[0]], rest);
      }
    }
  }

  lemma TrimLeadingKeepsWordChars(s: string)
    ensures LowerWordChars(TrimLeadingHyphens(s)) == LowerWordChars(s)
  {
    var lead := TrimLeadingHyphens(s);
    var dropped := s[..|s| - |lead|];
    assert s == dropped + lead;
    assert forall i :: 0 <= i < |dropped| ==> !IsLowerWordChar(dropped[i]) by {
      TrimLeadingHyphensDropsHyphens(s);
    }
    NoLowerWordChars(dropped);
    LowerWordCharsConcat(dropped, lead);
  }

  lemma TrimTrailingKeepsWordChars(s: string)
    ensures LowerWordChars(TrimTrailingHyphens(s)) == LowerWordChars(s)
  {
    var r := TrimTrailingHyphens(s);
    var dropped := s[|r|..];
    assert s == r + dropped;
    assert forall i :: 0 <= i < |dropped| ==> !IsLowerWordChar(dropped[i]) by {
      TrimTrailingHyphensDropsHyphens(s);
    }
    NoLowerWordChars(dropped);
    LowerWordCharsConcat(r, dropped);
  }

  lemma SpacesAreNotWordChars()
    ensures forall c :: IsJsWhitespace(c) ==> !IsLowerWordChar(c)
    ensures forall c :: IsIdeographicSpace(c) ==> !IsLowerWordChar(c)
    ensures forall c :: IsHyphen(c) ==> !IsLowerWordChar(c)
  {
  }

  /** The steps before the fallback keep the letters, digits and underscores
      of the lower-cased name, in order. */
  lemma SanitizeStepsKeepWordChars(name: string)
    ensures LowerWordChars(SanitizeSteps(name)) == LowerWordChars(ToLowerCase(name))
  {
    var lowered := ToLowerCase(name);
    var spaced := ReplaceRuns(lowered, IsJsWhitespace, '-');
    var ideographic := ReplaceRuns(spaced, IsIdeographicSpace, '-');
    var word := DeleteNonWord(ideographic);
    var collapsed := ReplaceRuns(word, IsHyphen, '-');
    SpacesAreNotWordChars();
    ReplaceRunsKeepsWordChars(lowered, IsJsWhitespace);
    ReplaceRunsKeepsWordChars(spaced, IsIdeographicSpace);
    DeleteNonWordKeepsWordChars(ideographic);
    ReplaceRunsKeepsWordChars(word, IsHyphen);
    TrimLeadingKeepsWordChars(collapsed);
    TrimTrailingKeepsWordChars(TrimLeadingHyphens(collapsed));
  }

  lemma SlugHasWordChar(s: string)
    requires IsSlug(s)
    ensures LowerWordChars(s) != []
  {
    assert IsSlugChar(s[0]);
  }

  /** The letters, digits and underscores of the slug are those of the
      lower-cased name, in the same order; a name whose lower case has none
      falls back to `uncategorized`. */
  lemma SanitizeKeepsWordChars(name: string)
    ensures var w := LowerWordChars(ToLowerCase(name));
            && (w != [] ==> LowerWordChars(SanitizeCategoryName(name)) == w)
            && (w == [] ==> SanitizeCategoryName(name) == "uncategorized")
  {
    var steps := SanitizeSteps(name);
    SanitizeStepsKeepWordChars(name);
    SanitizeStepsShape(name);
    if steps != [] {
      SlugHasWordChar(steps);
    }
  }

  lemma {:induction false} ToLowerCaseConcat(x: string, y: string)
    ensures ToLowerCase(x + y) == ToLowerCase(x) + ToLowerCase(y)
  {
    if x == [] {
      assert x + y == y;
    } else {
      assert (x + y)[0] == x[0] && (x + y)[1..] == x[1..] + y;
      ToLowerCaseConcat(x[1..], y);
    }
  }

  /** Replacing runs works piecewise when no run spans the cut. */
  lemma {:induction false} ReplaceRunsConcat(x: string, y: string, inRun: char -> bool, rep: char)
    requires x != [] && y != [] ==> !(inRun(x[|x| - 1]) && inRun(y[0]))
    ensures ReplaceRuns(x + y, inRun, rep) == ReplaceRuns(x, inRun, rep) + ReplaceRuns(y, inRun, rep)
    decreases x
  {
    if x == [] {
      assert x + y == y;
    } else {
      ReplaceRunsConcat(x[1..], y, inRun, rep);
      ReplaceRunsConcatStep(x, y, inRun, rep);
    }
  }

  /** One step of `ReplaceRunsConcat`: the first character of `x` is handled
      the same way in `x + y` as in `x`. */
  lemma ReplaceRunsConcatStep(x: string, y: string, inRun: char -> bool, rep: char)
    requires x != []
    requires x != [] && y != [] ==> !(inRun(x[|x| - 1]) && inRun(y[0]))
    requires ReplaceRuns(x[1..] + y, inRun, rep) == ReplaceRuns(x[1..], inRun, rep) + ReplaceRuns(y, inRun, rep)
    ensures ReplaceRuns(x + y, inRun, rep) == ReplaceRuns(x, inRun, rep) + ReplaceRuns(y, inRun, rep)
  {
    var xy := x + y;
    ConcatHead(x, y, inRun);
    ReplaceRunsUnfold(xy, inRun, rep);
    ReplaceRunsUnfold(x, inRun, rep);
    var rx, ry := ReplaceRuns(x[1..], inRun, rep), ReplaceRuns(y, inRun, rep);
    if !inRun(x[0]) {
      PrependAssoc(x[0], rx, ry);
    } else if !(|x| > 1 && inRun(x[1])) {
      PrependAssoc(rep, rx, ry);
    }
  }

  /** `x + y` starts as `x` does, and when no run spans the cut its first
      character merges with the next one exactly when it does in `x`. */
  lemma ConcatHead(x: string, y: string, inRun: char -> bool)
    requires x != []
    requires y != [] ==> !(inRun(x[|x| - 1]) && inRun(y[0]))
    ensures (x + y)[0] == x[0] && (x + y)[1..] == x[1..] + y
    ensures inRun(x[0]) ==> ((|x + y| > 1 && inRun((x + y)[1])) <==> (|x| > 1 && inRun(x[1])))
  {
    var xy := x + y;
    if |x| > 1 {
      assert xy[1] == x[1];
    } else if y != [] {
      assert xy[1] == y[0] && x[|x| - 1] == x[0];
    }
  }

  /** One step of `ReplaceRuns`. */
  lemma ReplaceRunsUnfold(s: string, inRun: char -> bool, rep: char)
    requires s != []
    ensures ReplaceRuns(s, inRun, rep)
         == if !inRun(s[0]) then [s[0]] + ReplaceRuns(s[1..], inRun, rep)
            else if |s| > 1 && inRun(s[1]) then ReplaceRuns(s[1..], inRun, rep)
            else [rep] + ReplaceRuns(s[1..], inRun, rep)
  {
  }

  lemma PrependAssoc(c: char, a: string, b: string)
    ensures [c] + (a + b) == ([c] + a) + b
  {
  }

  /** A whole run becomes one replacement character. */
  lemma {:induction false} ReplaceRunsOfRun(sp: string, inRun: char -> bool, rep: char)
    requires sp != [] && forall i :: 0 <= i < |sp| ==> inRun(sp[i])
    ensures ReplaceRuns(sp, inRun, rep) == [rep]
  {
    if |sp| > 1 {
      ReplaceRunsOfRun(sp[1..], inRun, rep);
    }
  }

  lemma SlugJoin(a: string, b: string)
    requires IsSlug(a) && IsSlug(b)
    ensures IsSlug(a + "-" + b)
  {
    var j := a + "-" + b;
    forall i | 0 <= i < |j| ensures IsSlugChar(j[i]) {
      if i < |a| {
        assert j[i] == a[i];
      } else if i > |a| {
        assert j[i] == b[i - |a| - 1];
      }
    }
    forall i | 0 <= i < |j| - 1 ensures !(j[i] == '-' && j[i + 1] == '-') {
      if i + 1 < |a| {
        assert j[i] == a[i] && j[i + 1] == a[i + 1];
      } else if i > |a| {
        assert j[i] == b[i - |a| - 1] && j[i + 1] == b[i - |a|];
      } else if i + 1 == |a| {
        assert j[i] == a[|a| - 1];
      } else {
        assert j[i + 1] == b[0];
      }
    }
  }

  lemma LowerCaseAroundSpace(a: string, sp: string, b: string)
    requires forall i :: 0 <= i < |sp| ==> IsJsWhitespace(sp[i])
    ensures ToLowerCase(a + sp + b) == ToLowerCase(a) + sp + ToLowerCase(b)
  {
    ToLowerCaseConcat(a + sp, b);
    ToLowerCaseConcat(a, sp);
    forall i | 0 <= i < |sp| ensures !IsUpperAscii(sp[i]) && sp[i] != '\U{212A}' && sp[i] != '\U{130}' {
      WhitespaceHasNoCapital(sp[i]);
    }
    ToLowerCaseIdentity(sp);
  }

  lemma WhitespaceHasNoCapital(c: char)
    requires IsJsWhitespace(c)
    ensures !IsUpperAscii(c) && c != '\U{212A}' && c != '\U{130}'
  {
  }

  lemma SpaceBetweenSlugs(la: string, sp: string, lb: string)
    requires IsSlug(la) && IsSlug(lb)
    requires sp != [] && forall i :: 0 <= i < |sp| ==> IsJsWhitespace(sp[i])
    ensures ReplaceRuns(la + sp + lb, IsJsWhitespace, '-') == la + "-" + lb
  {
    SlugHasNoSpace(la);
    SlugHasNoSpace(lb);
    ReplaceRunsConcat(la + sp, lb, IsJsWhitespace, '-');
    ReplaceRunsConcat(la, sp, IsJsWhitespace, '-');
    ReplaceRunsOfRun(sp, IsJsWhitespace, '-');
    ReplaceRunsIdentity(la, IsJsWhitespace, '-');
    ReplaceRunsIdentity(lb, IsJsWhitespace, '-');
  }

  /** The steps after white space is replaced depend only on what that
      replacement gives. */
  lemma SanitizeStepsFromSpaced(x: string, y: string)
    requires ReplaceRuns(ToLowerCase(x), IsJsWhitespace, '-') == ReplaceRuns(ToLowerCase(y), IsJsWhitespace, '-')
    ensures SanitizeSteps(x) == SanitizeSteps(y)
  {
  }

  /** Two words whose lower case is a slug, separated by white space, are
      joined by a single hyphen. */
  lemma WordsJoinedByHyphen(a: string, sp: string, b: string)
    requires IsSlug(ToLowerCase(a)) && IsSlug(ToLowerCase(b))
    requires sp != [] && forall i :: 0 <= i < |sp| ==> IsJsWhitespace(sp[i])
    ensures SanitizeCategoryName(a + sp + b) == ToLowerCase(a) + "-" + ToLowerCase(b)
  {
    var la, lb := ToLowerCase(a), ToLowerCase(b);
    var joined := la + "-" + lb;
    LowerCaseAroundSpace(a, sp, b);
    SpaceBetweenSlugs(la, sp, lb);
    SlugJoin(la, lb);
    SlugLowerCaseFixed(joined);
    SlugHasNoSpace(joined);
    ReplaceRunsIdentity(joined, IsJsWhitespace, '-');
    SanitizeStepsFromSpaced(a + sp + b, joined);
    SlugIsFixedPoint(joined);
  }

  /** A word of small ASCII letters is a slug. */
  lemma LettersAreSlug(s: string)
    requires s != [] && forall i :: 0 <= i < |s| ==> 'a' <= s[i] <= 'z'
    ensures IsSlug(s)
  {
  }

  lemma HelloLowered(a: string)
    requires a == "Hello"
    ensures ToLowerCase(a) == "hello" && IsSlug(ToLowerCase(a))
  {
    assert ToLowerCase("Hello") == "hello";
    LettersAreSlug("hello");
  }

  lemma WorldLowered(b: string)
    requires b == "World"
    ensures ToLowerCase(b) == "world" && IsSlug(ToLowerCase(b))
  {
    assert ToLowerCase("World") == "world";
    LettersAreSlug("world");
  }

  /** A category name as an editor would type it: `Hello World`. */
  lemma SanitizeExample(a: string, b: string)
    requires a == "Hello" && b == "World"
    ensures SanitizeCategoryName(a + " " + b) == "hello-world"
  {
    HelloLowered(a);
    WorldLowered(b);
    WordsJoinedByHyphen(a, " ", b);
    HelloWorldJoined(ToLowerCase(a), ToLowerCase(b));
  }

  lemma HelloWorldJoined(x: string, y: string)
    requires x == "hello" && y == "world"
    ensures x + "-" + y == "hello-world"
  {
  }

  /** A name with no ASCII letter, digit or underscore (a Japanese category
      name, say, even with hyphens in it) falls back to `uncategorized`; the
      Kelvin sign and the dotted capital I are the exceptions, as they
      lower-case into ASCII letters. */
  lemma NameWithoutWordCharsIsUncategorized(name: string)
    requires forall i :: 0 <= i < |name| ==>
               !IsWordChar(name[i]) && name[i] != '\U{212A}' && name[i] != '\U{130}'
    ensures SanitizeCategoryName(name) == "uncategorized"
  {
    ToLowerCaseIdentity(name);
    NoLowerWordChars(name);
    SanitizeKeepsWordChars(name);
  }
}
