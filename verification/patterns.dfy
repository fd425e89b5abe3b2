/** The regular expressions the job form tests its fields against, each
    written as a left-to-right recognizer. Where the regular expression has
    more structure than one character class, a second, declarative reading of
    it is given and the two are proved to agree on every input. */
module Patterns {
  import opened JsText

  /** Where the run of digits that starts at `from` ends. */
  function DigitRun(s: JsString, from: nat): (k: nat)
    requires from <= |s|
    ensures from <= k <= |s|
    ensures AllDigits(s[from..k])
    ensures k == |s| || !IsDigit(s[k])
    decreases |s| - from
  {
    if from < |s| && IsDigit(s[from]) then
      var k := DigitRun(s, from + 1);
      assert s[from..k] == [s[from]] + s[from + 1..k];
      k
    else from
  }

  /** A run of digits followed by a non-digit (or the end) is the run
      `DigitRun` finds. */
  lemma {:induction false} DigitRunUnique(s: JsString, from: nat, k: nat)
    requires from <= k <= |s|
    requires AllDigits(s[from..k])
    requires k == |s| || !IsDigit(s[k])
    ensures DigitRun(s, from) == k
    decreases k - from
  {
    if from < k {
      assert s[from] == s[from..k][0];
      assert s[from + 1..k] == s[from..k][1..];
      DigitRunUnique(s, from + 1, k);
    }
  }

  /** `\d+`, and `/^\d+$/`: one or more ASCII digits and nothing else. */
  predicate IsDigits(s: JsString) {
    |s| > 0 && AllDigits(s)
  }

  // ---------------------------------------------------------------------
  // Slug: /^[a-z0-9]+(?:-[a-z0-9]+)*$/

  /** Where the run of `[a-z0-9]` that starts at `from` ends. */
  function AlnumRun(s: JsString, from: nat): (k: nat)
    requires from <= |s|
    ensures from <= k <= |s|
    ensures forall i :: from <= i < k ==> IsLowerAlnum(s[i])
    ensures k == |s| || !IsLowerAlnum(s[k])
    decreases |s| - from
  {
    if from < |s| && IsLowerAlnum(s[from]) then AlnumRun(s, from + 1) else from
  }

  /** The slug pattern read left to right: a maximal run of `[a-z0-9]`, then
      either the end or a hyphen and, again, a slug. (A shorter run cannot
      help: the pattern needs a hyphen or the end right after it.) */
  predicate MatchSlug(s: JsString)
    decreases |s|
  {
    var k := AlnumRun(s, 0);
    0 < k && (k == |s| || (s[k] == Hyphen && MatchSlug(s[k + 1..])))
  }

  /** What a slug looks like character by character: non-empty, only
      lower-case letters, digits and hyphens, no hyphen at either end, and no
      two hyphens in a row. */
  predicate SlugShape(s: JsString) {
    && |s| > 0
    && (forall i :: 0 <= i < |s| ==> IsLowerAlnum(s[i]) || s[i] == Hyphen)
    && s[0] != Hyphen
    && s[|s| - 1] != Hyphen
    && (forall i :: 0 <= i < |s| - 1 ==> !(s[i] == Hyphen && s[i + 1] == Hyphen))
  }

  /** The slug pattern accepts exactly the strings of slug shape: so any
      upper-case letter, white space, leading or trailing hyphen or doubled
      hyphen is rejected. */
  lemma {:induction false} SlugMatchesShape(s: JsString)
    ensures MatchSlug(s) <==> SlugShape(s)
    decreases |s|
  {
    var k := AlnumRun(s, 0);
    if k == 0 || k == |s| {
      // Either the first character is not `[a-z0-9]` or all of them are.
    } else {
      var rest := s[k + 1..];
      assert forall i :: 0 <= i < |rest| ==> rest[i] == s[k + 1 + i];
      if k + 1 < |s| {
        SlugMatchesShape(rest);
        if SlugShape(s) {
          assert !IsLowerAlnum(s[k]) && s[k] == Hyphen;
          assert SlugShape(rest);
        }
        if MatchSlug(s) {
          assert SlugShape(rest);
          forall i | 0 <= i < |s| - 1
            ensures !(s[i] == Hyphen && s[i + 1] == Hyphen)
          {
            if i >= k + 1 {
              assert s[i] == rest[i - k - 1] && s[i + 1] == rest[i - k];
            }
          }
          forall i | 0 <= i < |s|
            ensures IsLowerAlnum(s[i]) || s[i] == Hyphen
          {
            if i > k {
              assert s[i] == rest[i - k - 1];
            }
          }
          assert s[|s| - 1] == rest[|rest| - 1];
        }
      } else {
        assert !MatchSlug(rest);
      }
    }
  }

  /** Lower-case words joined by single hyphens always form a slug. */
  lemma {:induction false} HyphenatedWordsAreSlug(words: seq<JsString>)
    requires |words| > 0
    requires forall w :: w in words ==> |w| > 0 && (forall i :: 0 <= i < |w| ==> IsLowerAlnum(w[i]))
    ensures MatchSlug(Join(words, [Hyphen]))
  {
    var w := words[0];
    if |words| == 1 {
      assert AlnumRun(w, 0) == |w| by { AlnumRunAll(w, 0); }
    } else {
      var rest := Join(words[1..], [Hyphen]);
      var s := Join(words, [Hyphen]);
      assert s == w + [Hyphen] + rest;
      assert forall i :: 0 <= i < |w| ==> s[i] == w[i];
      AlnumRunAll(s[..|w|], 0);
      AlnumRunPrefix(s, |w|);
      assert s[|w| + 1..] == rest;
      HyphenatedWordsAreSlug(words[1..]);
    }
  }

  /** `AlnumRun` runs to the end of a string of `[a-z0-9]` only. */
  lemma {:induction false} AlnumRunAll(s: JsString, from: nat)
    requires from <= |s|
    requires forall i :: from <= i < |s| ==> IsLowerAlnum(s[i])
    ensures AlnumRun(s, from) == |s|
    decreases |s| - from
  {
    if from < |s| {
      AlnumRunAll(s, from + 1);
    }
  }

  /** `AlnumRun` stops at the first character outside `[a-z0-9]`. */
  lemma AlnumRunPrefix(s: JsString, k: nat)
    requires k < |s| && !IsLowerAlnum(s[k])
    requires forall i :: 0 <= i < k ==> IsLowerAlnum(s[i])
    ensures AlnumRun(s, 0) == k
  {
  }

  // ---------------------------------------------------------------------
  // Salary: /^[0-9]+(\.[0-9]+)?\s*[A-Z]{3}$/

  /** The salary pattern read left to right: the last three code units are
      `[A-Z]`; before them come a maximal run of digits, an optional `.`
      followed by a maximal run of at least one digit, and white space. */
  predicate MatchSalary(s: JsString) {
    && |s| >= 3
    && AllUpper(s[|s| - 3..])
    && var body := s[..|s| - 3];
       var i := DigitRun(body, 0);
       && 0 < i
       && var j := if i < |body| && body[i] == Dot then DigitRun(body, i + 1) else i;
          && (j == i || i + 1 < j)
          && AllSpace(body[j..])
  }

  /** One way of cutting `s` along the salary pattern: the integer part is
      `s[..i]`, the optional fraction `s[i..j]`, the white space
      `s[j..|s| - 3]` and the currency code the last three code units. */
  predicate SalarySplit(s: JsString, i: int, j: int) {
    && 0 < i <= j <= |s| - 3
    && AllDigits(s[..i])
    && (j == i || (s[i] == Dot && i + 1 < j && AllDigits(s[i + 1..j])))
    && AllSpace(s[j..|s| - 3])
    && AllUpper(s[|s| - 3..])
  }

  /** The language of the salary pattern. */
  ghost predicate SalaryLang(s: JsString) {
    exists i, j :: SalarySplit(s, i, j)
  }

  /** The recognizer accepts exactly the language of the salary pattern. */
  lemma SalaryMatchesLang(s: JsString)
    ensures MatchSalary(s) <==> SalaryLang(s)
  {
    if MatchSalary(s) {
      var body := s[..|s| - 3];
      var i := DigitRun(body, 0);
      var j := if i < |body| && body[i] == Dot then DigitRun(body, i + 1) else i;
      assert body[..i] == s[..i] && body[j..] == s[j..|s| - 3];
      if j != i {
        assert body[i + 1..j] == s[i + 1..j];
      }
      assert SalarySplit(s, i, j);
    }
    if SalaryLang(s) {
      var i, j :| SalarySplit(s, i, j);
      var body := s[..|s| - 3];
      assert body[..i] == s[..i] && body[j..] == s[j..|s| - 3];
      if i < |body| {
        assert body[i] == s[i];
        if j == i {
          assert IsSpace(s[j..|s| - 3][0]);
        }
      }
      DigitRunUnique(body, 0, i);
      if j != i {
        assert body[i + 1..j] == s[i + 1..j];
        if j < |body| {
          assert IsSpace(s[j..|s| - 3][0]);
        }
        DigitRunUnique(body, i + 1, j);
      }
    }
  }

  /** Digits, an optional fraction, any white space and a three-letter
      upper-case code always make a valid salary, such as "50000 USD" or
      "12.5INR". */
  lemma SalaryAccepts(whole: JsString, fraction: JsString, gap: JsString, code: JsString)
    requires IsDigits(whole)
    requires fraction == [] || (fraction[0] == Dot && IsDigits(fraction[1..]))
    requires AllSpace(gap)
    requires |code| == 3 && AllUpper(code)
    ensures MatchSalary(whole + fraction + gap + code)
  {
    var s := whole + fraction + gap + code;
    var i, j := |whole|, |whole| + |fraction|;
    assert s[..i] == whole && s[j..|s| - 3] == gap && s[|s| - 3..] == code;
    if fraction != [] {
      assert s[i] == fraction[0] && s[i + 1..j] == fraction[1..];
    }
    assert SalarySplit(s, i, j);
    SalaryMatchesLang(s);
  }

  /** A valid salary ends in exactly three upper-case letters, preceded by a
      digit or white space: a missing, lower-case, two-letter or four-letter
      currency code is rejected. */
  lemma SalaryCodeIsThreeLetters(s: JsString)
    requires MatchSalary(s)
    ensures |s| >= 4
    ensures AllUpper(s[|s| - 3..])
    ensures IsDigit(s[|s| - 4]) || IsSpace(s[|s| - 4])
  {
    SalaryMatchesLang(s);
    var i, j :| SalarySplit(s, i, j);
    if j < |s| - 3 {
      assert s[|s| - 4] == s[j..|s| - 3][|s| - 4 - j];
    } else if j == i {
      assert s[|s| - 4] == s[..i][i - 1];
    } else {
      assert s[|s| - 4] == s[i + 1..j][j - i - 2];
    }
  }

  // ---------------------------------------------------------------------
  // Age limit: /^\d+-\d+$/

  /** The age-limit pattern read left to right: a maximal run of digits, a
      hyphen, and then digits to the end. */
  predicate MatchAgeRange(s: JsString) {
    var i := DigitRun(s, 0);
    0 < i && i + 1 < |s| && s[i] == Hyphen && AllDigits(s[i + 1..])
  }

  /** One way of cutting `s` along the age-limit pattern: the minimum is
      `s[..i]`, the hyphen `s[i]` and the maximum the rest. */
  predicate AgeSplit(s: JsString, i: int) {
    0 < i && i + 1 < |s| && IsDigits(s[..i]) && s[i] == Hyphen && IsDigits(s[i + 1..])
  }

  /** The recognizer accepts exactly the strings "min-max" of two digit runs. */
  lemma AgeRangeMatchesLang(s: JsString)
    ensures MatchAgeRange(s) <==> exists i :: AgeSplit(s, i)
  {
    if MatchAgeRange(s) {
      assert AgeSplit(s, DigitRun(s, 0));
    }
    if i :| AgeSplit(s, i) {
      DigitRunUnique(s, 0, i);
    }
  }

  // ---------------------------------------------------------------------
  // URL: /^https?:\/\/.+/

  /** `s` starts with `prefix` and has at least one more code unit after it
      that is not a line terminator (the pattern has no `$`, so `.+` only
      needs one such code unit). */
  predicate SchemeThenText(s: JsString, prefix: JsString) {
    |s| > |prefix| && s[..|prefix|] == prefix && !IsLineTerminator(s[|prefix|])
  }

  /** The URL pattern: "http://" or "https://", then at least one code unit
      other than a line terminator. The optional `s` never needs
      backtracking, since after "http" the pattern wants ":" or "s". */
  predicate IsHttpUrl(s: JsString) {
    SchemeThenText(s, Http) || SchemeThenText(s, Https)
  }

  /** The scheme alone is not a URL; the scheme and any one code unit other
      than a line terminator is, whatever follows. */
  lemma SchemeNeedsText(c: CodeUnit, rest: JsString)
    ensures !IsHttpUrl(Http) && !IsHttpUrl(Https)
    ensures IsHttpUrl(Http + [c] + rest) <==> !IsLineTerminator(c)
    ensures IsHttpUrl(Https + [c] + rest) <==> !IsLineTerminator(c)
  {
    assert Https[..|Http|] != Http by { assert Https[4] != Http[4]; }
    var a := Http + [c] + rest;
    var b := Https + [c] + rest;
    assert a[..|Http|] == Http && a[|Http|] == c;
    assert b[..|Https|] == Https && b[|Https|] == c;
    assert b[..|Http|] != Http by { assert b[4] == Https[4] != Http[4]; }
    assert a[..|Https|] != Https by { assert a[4] == Http[4] != Https[4]; }
  }

  /** "http://" */
  const Http: JsString := ['h' as CodeUnit, 't' as CodeUnit, 't' as CodeUnit, 'p' as CodeUnit,
                           ':' as CodeUnit, '/' as CodeUnit, '/' as CodeUnit]

  /** "https://" */
  const Https: JsString := Http[..4] + ['s' as CodeUnit] + Http[4..]
}
