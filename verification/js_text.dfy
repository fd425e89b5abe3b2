/** JavaScript strings as the browser holds them: sequences of UTF-16 code
    units. `length`, indexing, `trim`, `split` and `join` all work on code
    units, so the model does too. */
module JsText {

  /** One UTF-16 code unit. */
  newtype CodeUnit = c: int | 0 <= c < 0x1_0000

  /** A JavaScript string value. */
  type JsString = seq<CodeUnit>

  const Comma: CodeUnit := ',' as CodeUnit
  const Hyphen: CodeUnit := '-' as CodeUnit
  const Dot: CodeUnit := '.' as CodeUnit
  const Space: CodeUnit := ' ' as CodeUnit

  /** `[0-9]`, and also `\d`, which is ASCII-only in JavaScript. */
  predicate IsDigit(c: CodeUnit) {
    '0' as CodeUnit <= c <= '9' as CodeUnit
  }

  /** `[a-z0-9]` */
  predicate IsLowerAlnum(c: CodeUnit) {
    ('a' as CodeUnit <= c <= 'z' as CodeUnit) || IsDigit(c)
  }

  /** `[A-Z]` */
  predicate IsUpper(c: CodeUnit) {
    'A' as CodeUnit <= c <= 'Z' as CodeUnit
  }

  /** The LineTerminator code points of ECMAScript: the ones the regular
      expression `.` does not match. */
  predicate IsLineTerminator(c: CodeUnit) {
    c == 0x0A || c == 0x0D || c == 0x2028 || c == 0x2029
  }

  /** WhiteSpace or LineTerminator of ECMAScript: the class `\s` and the code
      units `String.prototype.trim` strips (tab, vertical tab, form feed,
      no-break space, byte-order mark and the space separators). */
  predicate IsSpace(c: CodeUnit) {
    || c == 0x09 || c == 0x0B || c == 0x0C || c == 0x20 || c == 0xA0
    || c == 0x1680 || (0x2000 <= c <= 0x200A) || c == 0x202F || c == 0x205F
    || c == 0x3000 || c == 0xFEFF
    || IsLineTerminator(c)
  }

  predicate AllDigits(s: JsString) {
    forall i :: 0 <= i < |s| ==> IsDigit(s[i])
  }

  predicate AllSpace(s: JsString) {
    forall i :: 0 <= i < |s| ==> IsSpace(s[i])
  }

  predicate AllUpper(s: JsString) {
    forall i :: 0 <= i < |s| ==> IsUpper(s[i])
  }

  /** Neither end of `s` is white space: what `trim` leaves behind. */
  predicate IsTrimmed(s: JsString) {
    s == [] || (!IsSpace(s[0]) && !IsSpace(s[|s| - 1]))
  }

  /** `s.trimEnd()`: the longest prefix of `s` not ending in white space. */
  function TrimEnd(s: JsString): (r: JsString)
    ensures |r| <= |s| && r == s[..|r|]
    ensures AllSpace(s[|r|..])
    ensures r == [] || !IsSpace(r[|r| - 1])
  {
    if |s| > 0 && IsSpace(s[|s| - 1]) then
      var r := TrimEnd(s[..|s| - 1]);
      assert s[|r|..] == s[..|s| - 1][|r|..] + [s[|s| - 1]];
      r
    else s
  }

  /** The number of white-space code units `s` starts with. */
  function LeadingSpace(s: JsString): (i: nat)
    ensures i <= |s| && AllSpace(s[..i])
    ensures i < |s| ==> !IsSpace(s[i])
  {
    if |s| > 0 && IsSpace(s[0]) then
      var i := 1 + LeadingSpace(s[1..]);
      assert s[..i] == [s[0]] + s[1..][..i - 1];
      i
    else 0
  }

  /** `s.trim()`: white space stripped from the front, then from the back. */
  function Trim(s: JsString): (r: JsString)
    ensures IsTrimmed(r)
    ensures |r| <= |s|
  {
    if |s| > 0 && IsSpace(s[0]) then Trim(s[1..])
    else
      var r := TrimEnd(s);
      assert r != [] ==> r[0] == s[0];
      r
  }

  /** `trim` is `trimEnd` after the leading white space is dropped. */
  lemma {:induction false} TrimAfterLeadingSpace(s: JsString)
    ensures Trim(s) == TrimEnd(s[LeadingSpace(s)..])
  {
    if |s| > 0 && IsSpace(s[0]) {
      TrimAfterLeadingSpace(s[1..]);
      assert s[1..][LeadingSpace(s[1..])..] == s[LeadingSpace(s)..];
    }
  }

  /** `trim` removes only the white space at the two ends: `s` is some
      white space, then the result, then some white space. */
  lemma TrimStripsOnlyEnds(s: JsString)
    ensures var i := LeadingSpace(s);
            && i + |Trim(s)| <= |s|
            && s == s[..i] + Trim(s) + s[i + |Trim(s)|..]
            && AllSpace(s[..i]) && AllSpace(s[i + |Trim(s)|..])
  {
    TrimAfterLeadingSpace(s);
    var i := LeadingSpace(s);
    var t := s[i..];
    var r := TrimEnd(t);
    assert t[|r|..] == s[i + |r|..];
    assert s == s[..i] + t && t == r + t[|r|..];
  }

  /** What `trim` keeps is a piece of the text: a code unit the text does
      not hold, the trimmed text does not hold either. */
  lemma {:induction false} TrimKeepsOut(s: JsString, c: CodeUnit)
    requires c !in s
    ensures c !in Trim(s)
  {
    if |s| > 0 && IsSpace(s[0]) {
      assert c !in s[1..] by {
        assert forall k :: 0 <= k < |s| - 1 ==> s[1..][k] == s[k + 1];
      }
      TrimKeepsOut(s[1..], c);
    } else {
      var r := TrimEnd(s);
      assert forall k :: 0 <= k < |r| ==> r[k] == s[k];
    }
  }

  /** `trim` leaves nothing exactly when the text is all white space. */
  lemma {:induction false} TrimEmptyIffAllSpace(s: JsString)
    ensures Trim(s) == [] <==> AllSpace(s)
  {
    if |s| > 0 && IsSpace(s[0]) {
      TrimEmptyIffAllSpace(s[1..]);
      assert AllSpace(s) <==> AllSpace(s[1..]) by {
        assert forall k :: 0 <= k < |s| - 1 ==> s[1..][k] == s[k + 1];
      }
    } else {
      assert s[|TrimEnd(s)|..] == s ==> TrimEnd(s) == [];
    }
  }

  /** `parts.join(sep)` */
  function Join(parts: seq<JsString>, sep: JsString): JsString {
    if |parts| == 0 then []
    else if |parts| == 1 then parts[0]
    else parts[0] + sep + Join(parts[1..], sep)
  }

  /** `s.split(sep)` for a one-code-unit separator: the pieces between the
      occurrences of `sep`; the empty string splits into one empty piece. */
  function Split(s: JsString, sep: CodeUnit): (parts: seq<JsString>)
    ensures |parts| >= 1
    ensures forall i :: 0 <= i < |parts| ==> sep !in parts[i]
    ensures Join(parts, [sep]) == s
  {
    if |s| == 0 then [[]]
    else
      var rest := Split(s[1..], sep);
      if s[0] == sep then
        assert s == [sep] + s[1..];
        [[]] + rest
      else
        var parts := [[s[0]] + rest[0]] + rest[1..];
        assert forall i :: 1 <= i < |parts| ==> parts[i] == rest[i];
        assert s == [s[0]] + s[1..];
        if |rest| == 1 then parts
        else
          assert parts[1..] == rest[1..];
          parts
  }

  /** Splitting a piece that holds no separator, followed by anything,
      glues the piece onto the first part of the rest. */
  lemma {:induction false} SplitSeparatorFree(a: JsString, t: JsString, sep: CodeUnit)
    requires sep !in a
    ensures Split(a + t, sep) == [a + Split(t, sep)[0]] + Split(t, sep)[1..]
    decreases |a|
  {
    if |a| > 0 {
      assert (a + t)[1..] == a[1..] + t;
      assert (a + t)[0] == a[0] && a[0] != sep;
      SplitSeparatorFree(a[1..], t, sep);
      assert [a[0]] + (a[1..] + Split(t, sep)[0]) == a + Split(t, sep)[0];
    } else {
      var parts := Split(t, sep);
      assert a + t == t && a + parts[0] == parts[0];
      assert parts == [parts[0]] + parts[1..];
    }
  }

  /** Splitting undoes joining, provided no piece holds the separator. */
  lemma {:induction false} SplitJoin(parts: seq<JsString>, sep: CodeUnit)
    requires |parts| >= 1
    requires forall i :: 0 <= i < |parts| ==> sep !in parts[i]
    ensures Split(Join(parts, [sep]), sep) == parts
  {
    if |parts| == 1 {
      SplitSeparatorFree(parts[0], [], sep);
      assert parts[0] + [] == parts[0];
    } else {
      var tail := Join(parts[1..], [sep]);
      SplitJoin(parts[1..], sep);
      assert Join(parts, [sep]) == parts[0] + ([sep] + tail);
      SplitSeparatorFree(parts[0], [sep] + tail, sep);
      assert ([sep] + tail)[1..] == tail;
      assert Split([sep] + tail, sep) == [[]] + parts[1..];
      assert parts[0] + [] == parts[0];
      assert parts == [parts[0]] + parts[1..];
    }
  }
}
