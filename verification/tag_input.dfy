/** The tags input of the job form: a text box that shows the tag list
    joined with ", " and, on every change, stores the box's text split at
    commas, each piece trimmed, empty pieces dropped. */
module TagInput {
  import opened JsText

  /** A tag the box can produce: non-empty, trimmed, free of commas. */
  predicate WellFormedTag(t: JsString) {
    t != [] && IsTrimmed(t) && Comma !in t
  }

  predicate AllWellFormed(tags: seq<JsString>) {
    forall i :: 0 <= i < |tags| ==> WellFormedTag(tags[i])
  }

  /** `pieces.map(tag => tag.trim()).filter(Boolean)`: an empty string is
      falsy, so exactly the pieces that trim to nothing are dropped. */
  function Clean(pieces: seq<JsString>): seq<JsString> {
    if |pieces| == 0 then []
    else
      var t := Trim(pieces[0]);
      (if t == [] then [] else [t]) + Clean(pieces[1..])
  }

  /** Cleaning leaves trimmed, non-empty tags, each keeping out whatever
      every piece kept out. */
  lemma {:induction false} CleanWellFormed(pieces: seq<JsString>, c: CodeUnit)
    requires forall i :: 0 <= i < |pieces| ==> c !in pieces[i]
    ensures forall i :: 0 <= i < |Clean(pieces)| ==>
              Clean(pieces)[i] != [] && IsTrimmed(Clean(pieces)[i]) && c !in Clean(pieces)[i]
  {
    if |pieces| > 0 {
      TrimKeepsOut(pieces[0], c);
      CleanWellFormed(pieces[1..], c);
    }
  }

  /** A single trimmed, non-empty piece is kept as it is. */
  lemma CleanSingle(t: JsString)
    requires t != [] && IsTrimmed(t)
    ensures Clean([t]) == [t]
  {
    TrimTrimmed(t);
    assert [t][1..] == [];
  }

  /** The `onChange` handler: `value.split(',').map(trim).filter(Boolean)`. */
  function ParseTags(s: JsString): seq<JsString> {
    Clean(Split(s, Comma))
  }

  /** Whatever is typed, the stored tags are well formed. */
  lemma ParsedTagsWellFormed(s: JsString)
    ensures AllWellFormed(ParseTags(s))
  {
    CleanWellFormed(Split(s, Comma), Comma);
  }

  const CommaSpace: JsString := [Comma, Space]

  /** The box's `value`: `tags.join(', ')`. */
  function ShowTags(tags: seq<JsString>): JsString {
    Join(tags, CommaSpace)
  }

  // ---------------------------------------------------------------------
  // Reading back what the box shows

  /** A trimmed string is its own trim. */
  lemma TrimTrimmed(t: JsString)
    requires IsTrimmed(t)
    ensures Trim(t) == t
  {
    assert TrimEnd(t) == t;
  }

  /** The space after a separator is trimmed away again. */
  lemma TrimLeadingSpace(t: JsString)
    requires WellFormedTag(t)
    ensures Trim([Space] + t) == t
  {
    assert ([Space] + t)[1..] == t;
    assert Trim([Space] + t) == Trim(t);
    TrimTrimmed(t);
  }

  /** Each tag with a space in front of it. */
  function Spaced(ts: seq<JsString>): (r: seq<JsString>)
    ensures |r| == |ts|
    ensures forall i :: 0 <= i < |ts| ==> r[i] == [Space] + ts[i]
  {
    seq(|ts|, i requires 0 <= i < |ts| => [Space] + ts[i])
  }

  /** A ", " separator is a "," separator with the space moved into the
      following piece. */
  lemma {:induction false} JoinSpaced(ts: seq<JsString>)
    requires |ts| >= 1
    ensures [Space] + Join(ts, CommaSpace) == Join(Spaced(ts), [Comma])
  {
    if |ts| > 1 {
      JoinSpaced(ts[1..]);
      assert Spaced(ts)[1..] == Spaced(ts[1..]);
      calc {
        [Space] + Join(ts, CommaSpace);
        [Space] + (ts[0] + CommaSpace + Join(ts[1..], CommaSpace));
        ([Space] + ts[0]) + [Comma] + ([Space] + Join(ts[1..], CommaSpace));
        Join(Spaced(ts), [Comma]);
      }
    }
  }

  /** Cleaning spaced well-formed tags gives the tags back. */
  lemma {:induction false} CleanSpaced(ts: seq<JsString>)
    requires AllWellFormed(ts)
    ensures Clean(Spaced(ts)) == ts
  {
    if |ts| > 0 {
      TrimLeadingSpace(ts[0]);
      assert Spaced(ts)[1..] == Spaced(ts[1..]);
      CleanSpaced(ts[1..]);
    }
  }

  /** The tags the box shows are the tags it reads back: for tags the box
      could have produced, parsing `tags.join(', ')` is the identity. */
  lemma ParseShowRoundTrip(tags: seq<JsString>)
    requires AllWellFormed(tags)
    ensures ParseTags(ShowTags(tags)) == tags
  {
    if |tags| > 0 {
      var pieces := [tags[0]] + Spaced(tags[1..]);
      assert ShowTags(tags) == Join(pieces, [Comma]) by {
        if |tags| > 1 {
          JoinSpaced(tags[1..]);
          assert pieces[1..] == Spaced(tags[1..]);
          assert ShowTags(tags) == tags[0] + [Comma] + ([Space] + Join(tags[1..], CommaSpace));
        }
      }
      assert Split(ShowTags(tags), Comma) == pieces by {
        assert forall i :: 0 <= i < |pieces| ==> Comma !in pieces[i] by {
          forall i | 0 <= i < |pieces|
            ensures Comma !in pieces[i]
          {
            if i > 0 {
              assert pieces[i] == [Space] + tags[i];
            }
          }
        }
        SplitJoin(pieces, Comma);
      }
      assert Clean(pieces) == [tags[0]] + Clean(Spaced(tags[1..])) by {
        TrimTrimmed(tags[0]);
        assert pieces[0] == tags[0] && pieces[1..] == Spaced(tags[1..]);
      }
      CleanSpaced(tags[1..]);
      assert tags == [tags[0]] + tags[1..];
    } else {
      assert Split([], Comma) == [[]];
      assert Clean([[]]) == [] + Clean([[]][1..]);
    }
  }

  /** What the box shows is a normal form: showing and reading it back
      again changes nothing. */
  lemma ParseIsNormalizing(s: JsString)
    ensures ParseTags(ShowTags(ParseTags(s))) == ParseTags(s)
  {
    ParsedTagsWellFormed(s);
    ParseShowRoundTrip(ParseTags(s));
  }

  // ---------------------------------------------------------------------
  // Typing into the box

  /** Cleaning distributes over the concatenation of piece lists. */
  lemma {:induction false} CleanAppend(a: seq<JsString>, b: seq<JsString>)
    ensures Clean(a + b) == Clean(a) + Clean(b)
  {
    if |a| > 0 {
      var head := Trim(a[0]);
      var kept: seq<JsString> := if head == [] then [] else [head];
      var rest := a[1..] + b;
      assert Clean(a + b) == kept + Clean(rest) by {
        assert (a + b)[0] == a[0] && (a + b)[1..] == rest;
      }
      assert Clean(rest) == Clean(a[1..]) + Clean(b) by {
        CleanAppend(a[1..], b);
      }
      assert Clean(a) == kept + Clean(a[1..]);
    } else {
      assert a + b == b;
    }
  }

  /** A comma splits the text into the pieces before it and after it. */
  lemma {:induction false} SplitAtSeparator(a: JsString, b: JsString, sep: CodeUnit)
    ensures Split(a + [sep] + b, sep) == Split(a, sep) + Split(b, sep)
    decreases |a|
  {
    if |a| == 0 {
      assert a + [sep] + b == [sep] + b;
      assert ([sep] + b)[1..] == b;
    } else {
      assert (a + [sep] + b)[0] == a[0];
      assert (a + [sep] + b)[1..] == a[1..] + [sep] + b;
      SplitAtSeparator(a[1..], b, sep);
    }
  }

  /** A comma-free text is one piece. */
  lemma SplitSeparatorFreeWhole(a: JsString, sep: CodeUnit)
    requires sep !in a
    ensures Split(a, sep) == [a]
  {
    SplitSeparatorFree(a, [], sep);
    assert a + [] == a;
  }

  /** The box as the form renders it: the text is always regenerated from
      the stored tags, so each keystroke `c` at the end of the text stores
      `ParseTags(tags.join(', ') + c)`. */
  function TypeAsWritten(tags: seq<JsString>, keys: JsString): seq<JsString>
    decreases |keys|
  {
    if |keys| == 0 then tags
    else TypeAsWritten(ParseTags(ShowTags(tags) + [keys[0]]), keys[1..])
  }

  /** With the text regenerated from the tags, a typed comma is dropped at
      once: the stored tags, and so the text, stay as they were. */
  lemma TypedCommaIsDropped(tags: seq<JsString>)
    requires AllWellFormed(tags)
    ensures ParseTags(ShowTags(tags) + [Comma]) == tags
  {
    SplitAtSeparator(ShowTags(tags), [], Comma);
    assert ShowTags(tags) + [Comma] + [] == ShowTags(tags) + [Comma];
    CleanAppend(Split(ShowTags(tags), Comma), Split([], Comma));
    ParseShowRoundTrip(tags);
  }

  const LetterA: CodeUnit := 'a' as CodeUnit
  const LetterB: CodeUnit := 'b' as CodeUnit

  /** A letter typed into a box showing at most one comma-free tag joins
      that tag. */
  lemma LetterJoinsTag(text: JsString, c: CodeUnit)
    requires text == [] || WellFormedTag(text)
    requires c != Comma && !IsSpace(c)
    ensures ParseTags(text + [c]) == [text + [c]]
  {
    var r := text + [c];
    assert r[|r| - 1] == c;
    assert Comma !in r;
    assert IsTrimmed(r) by {
      assert r[0] == if text == [] then c else text[0];
    }
    SplitSeparatorFreeWhole(r, Comma);
    CleanSingle(r);
  }

  /** Typing "a,b" into the empty box stores the single tag "ab": the comma
      between them never reaches the tag list. */
  lemma TypingTwoTagsAsWritten()
    ensures TypeAsWritten([], [LetterA, Comma, LetterB]) == [[LetterA, LetterB]]
  {
    var a: JsString := [LetterA];
    var ab: JsString := [LetterA, LetterB];
    var keys: JsString := [LetterA, Comma, LetterB];
    assert ShowTags([a]) == a;
    assert ParseTags(ShowTags([]) + [LetterA]) == [a] by {
      LetterJoinsTag([], LetterA);
    }
    assert ParseTags(a + [Comma]) == [a] by {
      TypedCommaIsDropped([a]);
    }
    assert ParseTags(a + [LetterB]) == [ab] by {
      assert WellFormedTag(a) by {
        assert a[0] == a[|a| - 1] == LetterA;
      }
      LetterJoinsTag(a, LetterB);
      assert a + [LetterB] == ab;
    }
    assert keys[0] == LetterA && keys[1..] == [Comma, LetterB];
    assert TypeAsWritten([], keys) == TypeAsWritten([a], [Comma, LetterB]);
    assert TypeAsWritten([a], [Comma, LetterB]) == TypeAsWritten([a], [LetterB]);
    assert TypeAsWritten([a], [LetterB]) == TypeAsWritten([ab], []);
  }

  /** The corrected box: it keeps the text the user typed and stores the
      tags parsed from it, so the text is never regenerated under the
      cursor. Returns the new text and the tags to store. */
  function TypeIntoBox(text: JsString, keys: JsString): (JsString, seq<JsString>) {
    (text + keys, ParseTags(text + keys))
  }

  /** In the corrected box, typing ", " and a tag after any text adds that
      tag to the end of the list and changes nothing before it. */
  lemma TypingAddsTag(text: JsString, t: JsString)
    requires WellFormedTag(t)
    ensures TypeIntoBox(text, CommaSpace + t).1 == ParseTags(text) + [t]
  {
    var spaced: JsString := [Space] + t;
    var before := Split(text, Comma);
    assert Split(text + (CommaSpace + t), Comma) == before + [spaced] by {
      assert text + (CommaSpace + t) == text + [Comma] + spaced;
      SplitAtSeparator(text, spaced, Comma);
      assert Comma !in spaced;
      SplitSeparatorFreeWhole(spaced, Comma);
    }
    assert Clean(before + [spaced]) == Clean(before) + Clean([spaced]) by {
      CleanAppend(before, [spaced]);
    }
    assert Clean([spaced]) == [t] by {
      TrimLeadingSpace(t);
    }
  }

  /** In the corrected box, typing "a,b" into the empty box stores the tags
      "a" and "b". */
  lemma TypingTwoTagsCorrected()
    ensures TypeIntoBox([], [LetterA, Comma, LetterB]).1 == [[LetterA], [LetterB]]
  {
    var a: JsString := [LetterA];
    var b: JsString := [LetterB];
    assert Split([] + [LetterA, Comma, LetterB], Comma) == [a] + [b] by {
      assert [] + [LetterA, Comma, LetterB] == a + [Comma] + b;
      SplitAtSeparator(a, b, Comma);
      SplitSeparatorFreeWhole(a, Comma);
      SplitSeparatorFreeWhole(b, Comma);
    }
    CleanAppend([a], [b]);
    CleanSingle(a);
    CleanSingle(b);
  }
}
