/**
 * The text an option element reports back. Line 66 of visual.ts writes `option.text = item`,
 * and lines 72 and 76 read `option.text`; the HTML getter returns the written text with
 * ASCII whitespace stripped from both ends and every inner run of it collapsed to one space.
 * The slicer then remembers and filters on that text, not on the column value.
 */
module OptionText {
  import opened Wrappers
  import opened Selection

  /** ASCII whitespace as HTML defines it: tab, line feed, form feed, carriage return, space. */
  predicate IsAsciiWhitespace(c: char)
  {
    c == '\t' || c == '\n' || c == '\U{000C}' || c == '\r' || c == ' '
  }

  /** The non-whitespace characters of a text, in order. */
  function RemoveWs(s: string): (r: string)
    ensures forall i :: 0 <= i < |r| ==> !IsAsciiWhitespace(r[i])
  {
    if s == [] then []
    else if IsAsciiWhitespace(s[0]) then RemoveWs(s[1..])
    else [s[0]] + RemoveWs(s[1..])
  }

  /** The text with its leading ASCII whitespace removed. */
  function StripLeading(s: string): (r: string)
    ensures RemoveWs(r) == RemoveWs(s)
    ensures |r| <= |s|
    ensures r == [] || !IsAsciiWhitespace(r[0])
    ensures s != [] && IsAsciiWhitespace(s[0]) ==> |r| < |s|
    ensures s == [] || !IsAsciiWhitespace(s[0]) ==> r == s
  {
    if s != [] && IsAsciiWhitespace(s[0]) then StripLeading(s[1..]) else s
  }

  /** Every whitespace character is a single space with a non-whitespace character right after it. */
  predicate Spaced(s: string)
  {
    forall i :: 0 <= i < |s| && IsAsciiWhitespace(s[i]) ==>
      s[i] == ' ' && i + 1 < |s| && !IsAsciiWhitespace(s[i + 1])
  }

  /** A text the getter returns unchanged: no whitespace at either end, inner runs already single spaces. */
  predicate Normalised(s: string)
  {
    Spaced(s) && (s == [] || !IsAsciiWhitespace(s[0]))
  }

  /** Each run of whitespace becomes one space, except a run at the end, which is dropped. */
  function Collapse(s: string): (r: string)
    ensures RemoveWs(r) == RemoveWs(s)
    ensures Spaced(r)
    ensures s == [] ==> r == []
    ensures s != [] && !IsAsciiWhitespace(s[0]) ==> r != [] && r[0] == s[0]
    decreases |s|
  {
    if s == [] then []
    else if !IsAsciiWhitespace(s[0]) then [s[0]] + Collapse(s[1..])
    else
      var rest := StripLeading(s);
      if rest == [] then [] else [' '] + Collapse(rest)
  }

  /** `option.text` after `option.text = s`: strip and collapse ASCII whitespace. The
      non-whitespace characters are kept, in order; only whitespace is dropped or rewritten. */
  function TextOf(s: string): (r: string)
    ensures Normalised(r)
    ensures RemoveWs(r) == RemoveWs(s)
  {
    Collapse(StripLeading(s))
  }

  lemma {:induction false} CollapseSpaced(s: string)
    requires Spaced(s)
    ensures Collapse(s) == s
    decreases |s|
  {
    if s != [] {
      assert Spaced(s[1..]) by {
        forall i | 0 <= i < |s[1..]| && IsAsciiWhitespace(s[1..][i])
          ensures s[1..][i] == ' ' && i + 1 < |s[1..]| && !IsAsciiWhitespace(s[1..][i + 1])
        {
          assert s[1..][i] == s[i + 1];
        }
      }
      CollapseSpaced(s[1..]);
      if IsAsciiWhitespace(s[0]) {
        assert StripLeading(s) == StripLeading(s[1..]) == s[1..];
      }
    }
  }

  /** A value that is already normalised reads back as itself, so on such values the option
      text and the column value agree. */
  lemma NormalisedTextIsItself(s: string)
    requires Normalised(s)
    ensures TextOf(s) == s
  {
    CollapseSpaced(s);
  }

  /** Reading the text back a second time changes nothing. */
  lemma TextOfIdempotent(s: string)
    ensures TextOf(TextOf(s)) == TextOf(s)
  {
    NormalisedTextIsItself(TextOf(s));
  }

  /** Values ["Green", " Red"]: the user picks " Red" (index 1), the slicer remembers and filters
      on "Red", and the next update finds no value strictly equal to "Red" and selects "Green". */
  lemma PaddedValueLosesSelection()
    ensures TextOf(" Red") == "Red"
    ensures SelectIndex(["Green", " Red"], Some(TextOf(" Red"))) == 0
  {
  }

  /** As written, the slicer remembers `TextOf(values[i])` for a choice of option `i`; whenever
      that text is not itself one of the values, the next update selects option 0. */
  lemma RewrittenChoiceFallsBack(values: seq<string>, i: nat)
    requires i < |values| && TextOf(values[i]) !in values
    ensures SelectIndex(values, Some(TextOf(values[i]))) == 0
  {
  }

  /** As written, a choice survives the next update of the same values when the chosen value
      is normalised: the remembered text is then the value itself. */
  lemma RerenderKeepsNormalisedChoice(values: seq<string>, i: nat)
    requires i < |values| && Normalised(values[i])
    ensures values[SelectIndex(values, Some(TextOf(values[i])))] == values[i]
  {
    NormalisedTextIsItself(values[i]);
  }

  /** Stripping leading whitespace stops inside a text that ends in a non-whitespace character,
      so whatever follows that text is kept as it is. */
  lemma {:induction false} StripLeadingAppend(a: string, b: string)
    requires a != [] && !IsAsciiWhitespace(a[|a| - 1])
    ensures StripLeading(a + b) == StripLeading(a) + b
    ensures StripLeading(a) != [] && !IsAsciiWhitespace(StripLeading(a)[|StripLeading(a)| - 1])
    decreases |a|
  {
    if IsAsciiWhitespace(a[0]) {
      assert (a + b)[1..] == a[1..] + b;
      StripLeadingAppend(a[1..], b);
    }
  }

  /** A whitespace-only prefix is stripped entirely. */
  lemma {:induction false} StripLeadingWhitespace(w: string, b: string)
    requires forall k :: 0 <= k < |w| ==> IsAsciiWhitespace(w[k])
    ensures StripLeading(w + b) == StripLeading(b)
    decreases |w|
  {
    if w != [] {
      assert (w + b)[1..] == w[1..] + b;
      StripLeadingWhitespace(w[1..], b);
    } else {
      assert w + b == b;
    }
  }

  /** Collapsing works piecewise across a boundary that a non-whitespace character precedes. */
  lemma {:induction false} CollapseAppend(a: string, b: string)
    requires a != [] && !IsAsciiWhitespace(a[|a| - 1])
    ensures Collapse(a + b) == Collapse(a) + Collapse(b)
    decreases |a|
  {
    if !IsAsciiWhitespace(a[0]) {
      assert (a + b)[1..] == a[1..] + b;
      if |a| > 1 {
        CollapseAppend(a[1..], b);
      }
    } else {
      StripLeadingAppend(a, b);
      CollapseAppend(StripLeading(a), b);
    }
  }

  /** The spacing rule of the getter: a run of whitespace between two words becomes exactly one
      space, whatever the run holds, and each side reads back as it would on its own. */
  lemma JoinedTextOf(a: string, w: string, b: string)
    requires a != [] && !IsAsciiWhitespace(a[|a| - 1])
    requires w != [] && forall k :: 0 <= k < |w| ==> IsAsciiWhitespace(w[k])
    requires b != [] && !IsAsciiWhitespace(b[0])
    ensures TextOf(a + w + b) == TextOf(a) + " " + TextOf(b)
  {
    assert a + w + b == a + (w + b);
    StripLeadingAppend(a, w + b);
    StripLeadingAppend(a, []);
    assert StripLeading(a) + [] == StripLeading(a);
    CollapseAppend(StripLeading(a), w + b);
    StripLeadingWhitespace(w, b);
    assert Collapse(w + b) == [' '] + Collapse(b);
  }

  /** Whitespace appended to a text survives leading-strip only when the text holds something
      other than whitespace. */
  lemma {:induction false} StripLeadingTrailing(s: string, w: string)
    requires forall k :: 0 <= k < |w| ==> IsAsciiWhitespace(w[k])
    ensures StripLeading(s + w) == if StripLeading(s) == [] then [] else StripLeading(s) + w
    decreases |s|
  {
    if s == [] {
      assert s + w == w + [];
      StripLeadingWhitespace(w, []);
    } else if IsAsciiWhitespace(s[0]) {
      assert (s + w)[1..] == s[1..] + w;
      StripLeadingTrailing(s[1..], w);
    }
  }

  /** A whitespace run at the end is dropped by collapsing. */
  lemma {:induction false} CollapseTrailing(s: string, w: string)
    requires forall k :: 0 <= k < |w| ==> IsAsciiWhitespace(w[k])
    ensures Collapse(s + w) == Collapse(s)
    decreases |s|
  {
    if s == [] {
      assert s + w == w + [];
      StripLeadingWhitespace(w, []);
    } else if !IsAsciiWhitespace(s[0]) {
      assert (s + w)[1..] == s[1..] + w;
      CollapseTrailing(s[1..], w);
    } else {
      StripLeadingTrailing(s, w);
      if StripLeading(s) != [] {
        CollapseTrailing(StripLeading(s), w);
      }
    }
  }

  /** The ends rule of the getter: whitespace runs before and after a text are dropped entirely,
      whatever they hold, and nothing else about the text changes. */
  lemma TextOfEnds(w: string, s: string, w': string)
    requires forall k :: 0 <= k < |w| ==> IsAsciiWhitespace(w[k])
    requires forall k :: 0 <= k < |w'| ==> IsAsciiWhitespace(w'[k])
    ensures TextOf(w + s + w') == TextOf(s)
  {
    assert w + s + w' == w + (s + w');
    StripLeadingWhitespace(w, s + w');
    StripLeadingTrailing(s, w');
    if StripLeading(s) != [] {
      CollapseTrailing(StripLeading(s), w');
    }
  }
}
