/**
 * The `Topping:` / `Base:` line layout. The chat view writes a topping and a
 * base into prompt text as `<intro>\nTopping: <t>\nBase: <b><tail>`, and the
 * conversation store reads them back out of a log's first text with the
 * case-insensitive pattern `Label:\s*([^\n]+)`. This module states when the
 * reading gives back what was written, and what it reads when it does not.
 */
module PairLines {
  import opened Common
  import opened Strings

  const ToppingTag := "topping:"
  const BaseTag := "base:"

  /** `${intro}\nTopping: ${topping}\nBase: ${base}${tail}`. */
  function PairText(intro: string, topping: string, base: string, tail: string): string {
    intro + "\nTopping: " + topping + "\nBase: " + base + tail
  }

  /** The layout begins with the intro and the topping label. */
  lemma PairTextStart(intro: string, topping: string, base: string, tail: string)
    ensures StartsWith(PairText(intro, topping, base, tail), intro + "\nTopping: ")
  {
    var s := PairText(intro, topping, base, tail);
    assert s == (intro + "\nTopping: ") + (topping + "\nBase: " + base + tail);
  }

  /** No character of `s` folds to `c`, so no label starting with `c` begins inside `s`. */
  predicate NoneLowersTo(s: string, c: char) {
    forall i :: 0 <= i < |s| ==> Lower(s[i]) != c
  }

  lemma NoneLowersToAppend(a: string, b: string, c: char)
    requires NoneLowersTo(a, c) && NoneLowersTo(b, c)
    ensures NoneLowersTo(a + b, c)
  {
    forall i | 0 <= i < |a + b| ensures Lower((a + b)[i]) != c {
      if i >= |a| { assert (a + b)[i] == b[i - |a|]; }
    }
  }

  // ------------------------------------------------------------ the capture

  /**
   * After a label followed by ` <v><rest>`, the group trims to `trim(v)` when
   * `v` is one line and either ends the text or is not blank and ends at a
   * line break. For a blank `v` at the end of the text, the group is a single
   * whitespace character, which also trims to the empty string.
   */
  lemma {:induction false} CaptureReadsValue(s: string, a: nat, v: string, rest: string)
    requires a <= |s| && s[a..] == [' '] + v + rest
    requires !HasNewline(v)
    requires rest == [] || (rest[0] == '\n' && !Blank(v))
    ensures CaptureAfter(s, a).Some?
    ensures Trim(CaptureAfter(s, a).value) == Trim(v)
  {
    ValueInText(s, a, v, rest);
    if SpanSpace(v, 0) < |v| {
      CaptureIsRestOfValue(s, a, v);
      TrimAfterLeadingSpace(v);
    } else {
      CaptureOfBlank(s, a, v);
    }
  }

  /**
   * The text holds a space at `a`, then `v`, then either its end or a line
   * break.
   */
  ghost predicate ValueAt(s: string, a: nat, v: string) {
    && a + 1 + |v| <= |s| && s[a] == ' '
    && (forall i :: 0 <= i < |v| ==> s[a + 1 + i] == v[i])
    && (a + 1 + |v| == |s| || s[a + 1 + |v|] == '\n')
  }

  lemma ValueInText(s: string, a: nat, v: string, rest: string)
    requires a <= |s| && s[a..] == [' '] + v + rest
    requires rest == [] || rest[0] == '\n'
    ensures ValueAt(s, a, v)
    ensures rest == [] ==> |s| == a + 1 + |v|
  {
    forall i | 0 <= i < |v| ensures s[a + 1 + i] == v[i] {
      assert s[a + 1 + i] == s[a..][1 + i];
    }
    assert s[a] == s[a..][0];
    if rest != [] {
      assert s[a + 1 + |v|] == s[a..][1 + |v|];
    }
  }

  /** A value that is not blank is captured from its first non-space character to its end. */
  lemma CaptureIsRestOfValue(s: string, a: nat, v: string)
    requires ValueAt(s, a, v)
    requires !HasNewline(v) && SpanSpace(v, 0) < |v|
    ensures CaptureAfter(s, a) == Some(v[SpanSpace(v, 0)..])
  {
    var j := SpanSpace(v, 0);
    SpaceRunIntoValue(s, a, v);
    LineOfValue(s, a, v, a + 1 + j);
    CaptureOfLine(s, a);
    ValueSlice(s, a, v, j);
  }

  /** When text follows the whitespace run, the capture is the rest of its line. */
  lemma CaptureOfLine(s: string, a: nat)
    requires a <= |s| && SpanSpace(s, a) < |s|
    ensures CaptureAfter(s, a) == Some(s[SpanSpace(s, a)..LineEnd(s, SpanSpace(s, a))])
  {
  }

  lemma ValueSlice(s: string, a: nat, v: string, j: nat)
    requires ValueAt(s, a, v) && j <= |v|
    ensures s[a + 1 + j..a + 1 + |v|] == v[j..]
  {
    forall i | 0 <= i < |v| - j ensures s[a + 1 + j..a + 1 + |v|][i] == v[j..][i] {
      assert s[a + 1 + (j + i)] == v[j + i];
    }
  }

  /** The whitespace run after the label ends where the value's own leading run ends. */
  lemma SpaceRunIntoValue(s: string, a: nat, v: string)
    requires ValueAt(s, a, v)
    requires SpanSpace(v, 0) < |v|
    ensures SpanSpace(s, a) == a + 1 + SpanSpace(v, 0)
  {
    var j := SpanSpace(v, 0);
    var e := a + 1 + j;
    forall i | a <= i < e ensures IsSpace(s[i]) {
      if i > a { assert s[i] == v[i - a - 1]; }
    }
    assert s[e] == v[j];
    SpanSpaceUnique(s, a, e);
  }

  /** From inside the value, the line ends where the value ends. */
  lemma LineOfValue(s: string, a: nat, v: string, e: nat)
    requires ValueAt(s, a, v)
    requires !HasNewline(v) && a < e <= a + 1 + |v|
    ensures LineEnd(s, e) == a + 1 + |v|
  {
    var k := a + 1 + |v|;
    forall i | e <= i < k ensures s[i] != '\n' {
      assert s[i] == v[i - a - 1];
    }
    LineEndUnique(s, e, k);
  }

  /** A blank value that ends the text is captured as its last whitespace character. */
  lemma CaptureOfBlank(s: string, a: nat, v: string)
    requires ValueAt(s, a, v) && |s| == a + 1 + |v|
    requires !HasNewline(v) && SpanSpace(v, 0) == |v|
    ensures CaptureAfter(s, a).Some?
    ensures Trim(CaptureAfter(s, a).value) == Trim(v)
  {
    assert Blank(v);
    forall i | a <= i < |s| ensures IsSpace(s[i]) {
      if i > a { assert s[i] == v[i - a - 1]; }
    }
    SpanSpaceUnique(s, a, |s|);
    var last := s[|s| - 1];
    assert last != '\n' && IsSpace(last) by {
      if |v| > 0 { assert last == v[|v| - 1]; }
    }
    assert LastNonNewline(s, a, |s|) == Some(|s| - 1);
    TrimEmptyIffBlank([last]);
    TrimEmptyIffBlank(v);
  }

  /**
   * `text.match(/Label\s*([^\n]+)/i)?.[1]?.trim()` on a text whose first
   * occurrence of the label is at `p` and is followed by ` <v><rest>`.
   */
  lemma ReadBackField(s: string, tag: string, p: nat, v: string, rest: string)
    requires LabelAt(s, p, tag)
    requires forall q :: 0 <= q < p ==> !LabelAt(s, q, tag)
    requires s[p + |tag|..] == [' '] + v + rest
    requires !HasNewline(v)
    requires rest == [] || (rest[0] == '\n' && !Blank(v))
    ensures ExtractField(s, tag) == Some(Trim(v))
  {
    SkipNonMatches(s, tag, 0, p);
    CaptureReadsValue(s, p + |tag|, v, rest);
  }

  /** A match of a label without newlines covers no newline. */
  lemma LabelHasNoNewline(s: string, q: nat, tag: string)
    requires LabelAt(s, q, tag)
    requires forall j :: 0 <= j < |tag| ==> tag[j] != '\n'
    ensures forall i :: q <= i < q + |tag| ==> s[i] != '\n'
  {
    forall i | q <= i < q + |tag| ensures s[i] != '\n' {
      assert Lower(s[q + (i - q)]) == Lower(tag[i - q]);
    }
  }

  /** A label without newlines that matches at `q` inside a line `t` of `s` matches in `t`. */
  lemma LabelInsideLine(s: string, off: nat, t: string, tag: string, q: nat)
    requires off + |t| < |s| && s[off..off + |t|] == t && s[off + |t|] == '\n'
    requires forall j :: 0 <= j < |tag| ==> tag[j] != '\n'
    requires off <= q < off + |t|
    requires LabelAt(s, q, tag)
    ensures LabelAt(t, q - off, tag)
  {
    var d := q - off;
    LabelHasNoNewline(s, q, tag);
    assert s[off + |t|] == '\n';
    assert d + |tag| <= |t|;
    forall j | 0 <= j < |tag| ensures Lower(t[d + j]) == Lower(tag[j]) {
      assert t[d + j] == s[off..off + |t|][d + j] == s[q + j];
    }
  }

  // -------------------------------------------------------------- topping

  /** The first place the topping label matches in the layout is its `Topping:` line. */
  lemma ToppingLabelFirst(intro: string, t: string, b: string, tail: string)
    requires NoneLowersTo(intro, 't')
    ensures var s := PairText(intro, t, b, tail);
            FirstLabelMatch(s, ToppingTag, 0) == CaptureAfter(s, |intro| + 9)
  {
    var s := PairText(intro, t, b, tail);
    var p := |intro| + 1;
    assert s == intro + ("\nTopping:" + ([' '] + t + ("\nBase: " + b + tail)));
    assert LabelAt(s, p, ToppingTag) by {
      forall j | 0 <= j < 8 ensures Lower(s[p + j]) == Lower(ToppingTag[j]) {
        assert s[p + j] == "Topping:"[j];
      }
    }
    forall q | 0 <= q < p ensures !LabelAt(s, q, ToppingTag) {
      if q < |intro| {
        assert s[q] == intro[q];
      } else {
        assert s[q] == '\n';
      }
      assert Lower(s[q + 0]) != Lower(ToppingTag[0]);
    }
    SkipNonMatches(s, ToppingTag, 0, p);
  }

  /**
   * The topping written into the layout reads back trimmed, when the intro
   * has no character folding to `t` and the topping is one non-blank line.
   */
  lemma ToppingReadsBack(intro: string, t: string, b: string, tail: string)
    requires NoneLowersTo(intro, 't')
    requires !HasNewline(t) && !Blank(t)
    ensures ExtractField(PairText(intro, t, b, tail), ToppingTag) == Some(Trim(t))
  {
    var s := PairText(intro, t, b, tail);
    var a := |intro| + 9;
    assert s == (intro + "\nTopping:") + ([' '] + t + ("\nBase: " + b + tail));
    assert s[a..] == [' '] + t + ("\nBase: " + b + tail);
    ToppingLabelFirst(intro, t, b, tail);
    CaptureReadsValue(s, a, t, "\nBase: " + b + tail);
  }

  /**
   * After a label followed by ` <blank>\n<line>`, where the line starts with a
   * non-space character and ends the text, the greedy `\s*` crosses the line
   * break and the group is that whole next line.
   */
  lemma CaptureCrossesBlankLine(s: string, a: nat, w: string, line: string)
    requires a <= |s| && s[a..] == [' '] + w + ['\n'] + line
    requires Blank(w) && |line| > 0 && !IsSpace(line[0]) && !HasNewline(line)
    ensures CaptureAfter(s, a) == Some(line)
  {
    var e := a + 1 + |w| + 1;
    forall i | a <= i < e ensures IsSpace(s[i]) {
      assert s[i] == s[a..][i - a];
      if a < i < e - 1 { assert s[a..][i - a] == w[i - a - 1]; }
    }
    assert s[e] == s[a..][e - a] == line[0];
    SpanSpaceUnique(s, a, e);
    assert s[e..|s|] == line;
    forall i | e <= i < |s| ensures s[i] != '\n' {
      assert s[i] == line[i - e];
    }
    LineEndUnique(s, e, |s|);
  }

  /**
   * With a blank topping, the greedy `\s*` runs over the line break and the
   * topping read back is the whole `Base:` line.
   */
  lemma BlankToppingReadsBaseLine(intro: string, t: string, b: string)
    requires NoneLowersTo(intro, 't')
    requires Blank(t) && !HasNewline(b)
    ensures ExtractField(PairText(intro, t, b, ""), ToppingTag) == Some(Trim("Base: " + b))
  {
    var s := PairText(intro, t, b, "");
    var a := |intro| + 9;
    var line := "Base: " + b;
    assert s == (intro + "\nTopping:") + ([' '] + t + ['\n'] + line);
    assert s[a..] == [' '] + t + ['\n'] + line;
    forall i | 0 <= i < |line| ensures line[i] != '\n' {
      if i >= 6 { assert line[i] == b[i - 6]; }
    }
    ToppingLabelFirst(intro, t, b, "");
    CaptureCrossesBlankLine(s, a, t, line);
  }

  // ----------------------------------------------------------------- base

  /**
   * The base written into the layout reads back trimmed, when the intro has
   * no character folding to `b`, the topping is one line without the base
   * label, the base is one line, and either nothing follows it or a line
   * break follows a non-blank base.
   */
  lemma BaseReadsBack(intro: string, t: string, b: string, tail: string)
    requires NoneLowersTo(intro, 'b')
    requires !HasNewline(t) && !ContainsLabel(t, BaseTag)
    requires !HasNewline(b)
    requires tail == [] || (tail[0] == '\n' && !Blank(b))
    ensures ExtractField(PairText(intro, t, b, tail), BaseTag) == Some(Trim(b))
  {
    var s := PairText(intro, t, b, tail);
    var p := |intro| + 10 + |t| + 1;
    BaseLabelFirst(intro, t, b, tail);
    assert s == (intro + "\nTopping: " + t + "\nBase:") + ([' '] + b + tail);
    assert s[p + 5..] == [' '] + b + tail;
    ReadBackField(s, BaseTag, p, b, tail);
  }

  /** The first base label of the pair text is the one on the base line. */
  lemma BaseLabelFirst(intro: string, t: string, b: string, tail: string)
    requires NoneLowersTo(intro, 'b')
    requires !HasNewline(t) && !ContainsLabel(t, BaseTag)
    ensures var s := PairText(intro, t, b, tail);
            var p := |intro| + 10 + |t| + 1;
            p + 5 <= |s| && LabelAt(s, p, BaseTag) && forall q :: 0 <= q < p ==> !LabelAt(s, q, BaseTag)
  {
    var s := PairText(intro, t, b, tail);
    var off := |intro| + 10;
    var p := off + |t| + 1;
    assert s == (intro + "\nTopping: ") + t + ("\nBase:" + ([' '] + b + tail));
    assert LabelAt(s, p, BaseTag) by {
      forall j | 0 <= j < 5 ensures Lower(s[p + j]) == Lower(BaseTag[j]) {
        assert s[p + j] == "Base:"[j];
      }
    }
    assert s[off..off + |t|] == t;
    assert s[off + |t|] == '\n';
    forall q | 0 <= q < p ensures !LabelAt(s, q, BaseTag) {
      if q < |intro| {
        assert s[q] == intro[q];
      } else if q < off {
        assert s[q] == "\nTopping: "[q - |intro|];
      } else if q < off + |t| {
        if LabelAt(s, q, BaseTag) {
          LabelInsideLine(s, off, t, BaseTag, q);
          assert false;
        }
      } else {
        assert s[q] == '\n';
      }
      assert q >= off + |t| || q < off ==> Lower(s[q + 0]) != Lower(BaseTag[0]);
    }
  }
}
