/**
 * The JavaScript string semantics the application relies on: the `\s` class
 * and `trim()`, `startsWith`, `slice(0, n)`, `split` on one character, ASCII
 * case folding, and the case-insensitive pattern `Label:\s*([^\n]+)` used to
 * read topping and base lines back out of free text.
 */
module Strings {
  import opened Common

  /**
   * The characters JavaScript counts as `\s` and strips in `trim()`: the
   * WhiteSpace and LineTerminator productions of ECMAScript.
   */
  predicate IsSpace(c: char) {
    c == '\t' || c == '\n' || c == '\U{B}' || c == '\U{C}' || c == '\r' || c == ' '
    || c == '\U{A0}' || c == '\U{1680}' || ('\U{2000}' <= c <= '\U{200A}')
    || c == '\U{2028}' || c == '\U{2029}' || c == '\U{202F}' || c == '\U{205F}'
    || c == '\U{3000}' || c == '\U{FEFF}'
  }

  /** Every character is whitespace (the empty string included). */
  predicate Blank(s: string) {
    forall i :: 0 <= i < |s| ==> IsSpace(s[i])
  }

  predicate HasNewline(s: string) {
    exists i :: 0 <= i < |s| && s[i] == '\n'
  }

  /**
   * ASCII lower-casing. A regular expression with the `i` flag and without
   * the `u` flag never folds a non-ASCII character onto an ASCII one, so for
   * the ASCII labels matched here this is exactly its case-insensitivity.
   */
  function Lower(c: char): char {
    if 'A' <= c <= 'Z' then (c as int + 32) as char else c
  }

  function LowerString(s: string): (r: string)
    ensures |r| == |s|
    ensures forall i :: 0 <= i < |s| ==> r[i] == Lower(s[i])
  {
    if s == [] then [] else [Lower(s[0])] + LowerString(s[1..])
  }

  predicate StartsWith(s: string, prefix: string) {
    |prefix| <= |s| && s[..|prefix|] == prefix
  }

  /** `s.slice(0, n)`. */
  function Take(s: string, n: nat): (r: string)
    ensures |r| <= n
    ensures StartsWith(s, r)
    ensures |s| <= n ==> r == s
    ensures |s| > n ==> |r| == n
  {
    if |s| <= n then s else s[..n]
  }

  // ---------------------------------------------------------------- trim

  /** The end of the run of whitespace starting at `a`. */
  function SpanSpace(s: string, a: nat): (e: nat)
    requires a <= |s|
    ensures a <= e <= |s|
    ensures forall i :: a <= i < e ==> IsSpace(s[i])
    ensures e == |s| || !IsSpace(s[e])
    decreases |s| - a
  {
    if a < |s| && IsSpace(s[a]) then SpanSpace(s, a + 1) else a
  }

  /** The start of the run of whitespace ending at `k`. */
  function SpanSpaceBack(s: string, k: nat): (b: nat)
    requires k <= |s|
    ensures b <= k
    ensures forall i :: b <= i < k ==> IsSpace(s[i])
    ensures b == 0 || !IsSpace(s[b - 1])
  {
    if k > 0 && IsSpace(s[k - 1]) then SpanSpaceBack(s, k - 1) else k
  }

  function TrimStart(s: string): string {
    s[SpanSpace(s, 0)..]
  }

  function TrimEnd(s: string): string {
    s[..SpanSpaceBack(s, |s|)]
  }

  /**
   * `s.trim()`: the middle of `s` between a blank prefix and a blank suffix,
   * neither starting nor ending with whitespace.
   */
  function Trim(s: string): (r: string)
    ensures |r| <= |s|
    ensures exists a, b :: 0 <= a <= b <= |s| && r == s[a..b] && Blank(s[..a]) && Blank(s[b..])
    ensures r == [] || (!IsSpace(r[0]) && !IsSpace(r[|r| - 1]))
  {
    var e := SpanSpace(s, 0);
    var t := s[e..];
    var b := SpanSpaceBack(t, |t|);
    assert t[..b] == s[e..e + b];
    assert Blank(s[..e]);
    assert s[e + b..] == t[b..];
    assert b > 0 ==> t[..b][0] == s[e];
    TrimEnd(TrimStart(s))
  }

  /** `trim()` yields the empty string exactly for blank input. */
  lemma TrimEmptyIffBlank(s: string)
    ensures Trim(s) == [] <==> Blank(s)
  {
    var e := SpanSpace(s, 0);
    var t := s[e..];
    if e < |s| {
      assert t[0] == s[e];
      assert SpanSpaceBack(t, |t|) > 0;
    }
  }

  /** Dropping leading whitespace does not change the trimmed value. */
  lemma TrimAfterLeadingSpace(s: string)
    ensures Trim(s[SpanSpace(s, 0)..]) == Trim(s)
  {
    var t := s[SpanSpace(s, 0)..];
    assert SpanSpace(t, 0) == 0 by {
      if |t| > 0 { assert t[0] == s[SpanSpace(s, 0)]; }
    }
    assert t[0..] == t;
  }

  /** Trimming a string that ends in whitespace ignores that whitespace. */
  lemma TrimDropsTrailingSpace(s: string, w: string)
    requires Blank(w)
    ensures Trim(s + w) == Trim(s)
  {
    var e := SpanSpace(s, 0);
    var sw := s + w;
    if e < |s| {
      assert sw[e] == s[e];
      assert SpanSpace(sw, 0) == e by {
        forall i | 0 <= i < e ensures IsSpace(sw[i]) { assert sw[i] == s[i]; }
      }
      var t := s[e..];
      var tw := sw[e..];
      assert tw == t + w;
      var b := SpanSpaceBack(t, |t|);
      assert b > 0 by { assert t[0] == s[e]; }
      assert SpanSpaceBack(tw, |tw|) == b by {
        forall i | b <= i < |tw| ensures IsSpace(tw[i]) {
          if i < |t| { assert tw[i] == t[i]; } else { assert tw[i] == w[i - |t|]; }
        }
        assert tw[b - 1] == t[b - 1];
        SpanSpaceBackUnique(tw, |tw|, b);
      }
      assert tw[..b] == t[..b];
    } else {
      assert Blank(sw) by {
        forall i | 0 <= i < |sw| ensures IsSpace(sw[i]) {
          if i < |s| { assert sw[i] == s[i]; } else { assert sw[i] == w[i - |s|]; }
        }
      }
      TrimEmptyIffBlank(sw);
      TrimEmptyIffBlank(s);
    }
  }

  lemma SpanSpaceBackUnique(s: string, k: nat, b: nat)
    requires b <= k <= |s|
    requires forall i :: b <= i < k ==> IsSpace(s[i])
    requires b == 0 || !IsSpace(s[b - 1])
    ensures SpanSpaceBack(s, k) == b
  {
  }

  lemma SpanSpaceUnique(s: string, a: nat, e: nat)
    requires a <= e <= |s|
    requires forall i :: a <= i < e ==> IsSpace(s[i])
    requires e == |s| || !IsSpace(s[e])
    ensures SpanSpace(s, a) == e
  {
  }

  // ---------------------------------------------------------------- split

  /** `s.split(sep)` for a one-character separator; never an empty array. */
  function Split(s: string, sep: char): (r: seq<string>)
    ensures |r| >= 1
  {
    if s == [] then [[]]
    else
      var rest := Split(s[1..], sep);
      if s[0] == sep then [[]] + rest else [[s[0]] + rest[0]] + rest[1..]
  }

  /** `pieces.join(sep)`. */
  function Join(pieces: seq<string>, sep: char): string
    requires |pieces| >= 1
  {
    if |pieces| == 1 then pieces[0] else pieces[0] + [sep] + Join(pieces[1..], sep)
  }

  /** No piece of a split contains the separator. */
  lemma {:induction false} SplitPiecesHaveNoSeparator(s: string, sep: char)
    ensures forall k, i :: 0 <= k < |Split(s, sep)| && 0 <= i < |Split(s, sep)[k]| ==>
              Split(s, sep)[k][i] != sep
  {
    if s != [] {
      SplitPiecesHaveNoSeparator(s[1..], sep);
      var rest := Split(s[1..], sep);
      if s[0] != sep {
        var r := Split(s, sep);
        assert r[0] == [s[0]] + rest[0];
        forall k, i | 0 <= k < |r| && 0 <= i < |r[k]| ensures r[k][i] != sep {
          if k == 0 {
            if i > 0 { assert r[0][i] == rest[0][i - 1]; }
          } else {
            assert r[k] == rest[k];
          }
        }
      }
    }
  }

  /** Joining the pieces of a split with the same separator restores the string. */
  lemma {:induction false} JoinSplit(s: string, sep: char)
    ensures Join(Split(s, sep), sep) == s
  {
    if s != [] {
      var rest := Split(s[1..], sep);
      JoinSplit(s[1..], sep);
      if s[0] == sep {
        assert Split(s, sep)[1..] == rest;
        assert s == [sep] + s[1..];
      } else {
        var r := Split(s, sep);
        assert r[1..] == rest[1..];
        if |rest| == 1 {
          assert s == [s[0]] + rest[0];
        } else {
          assert Join(rest, sep) == rest[0] + [sep] + Join(rest[1..], sep);
          assert s == [s[0]] + s[1..];
        }
      }
    }
  }

  /** Splitting a separator-free piece followed by the separator. */
  lemma {:induction false} SplitAfterPiece(x: string, sep: char, y: string)
    requires forall i :: 0 <= i < |x| ==> x[i] != sep
    ensures Split(x + [sep] + y, sep) == [x] + Split(y, sep)
  {
    if x == [] {
      assert x + [sep] + y == [sep] + y;
      assert ([sep] + y)[1..] == y;
    } else {
      assert (x + [sep] + y)[1..] == x[1..] + [sep] + y;
      SplitAfterPiece(x[1..], sep, y);
      assert [x[0]] + x[1..] == x;
    }
  }

  /** A string without the separator splits into itself. */
  lemma {:induction false} SplitWithoutSeparator(x: string, sep: char)
    requires forall i :: 0 <= i < |x| ==> x[i] != sep
    ensures Split(x, sep) == [x]
  {
    if x != [] {
      SplitWithoutSeparator(x[1..], sep);
      assert [x[0]] + x[1..] == x;
    }
  }

  /** Splitting a join of separator-free pieces gives the pieces back. */
  lemma {:induction false} SplitJoin(pieces: seq<string>, sep: char)
    requires |pieces| >= 1
    requires forall k, i :: 0 <= k < |pieces| && 0 <= i < |pieces[k]| ==> pieces[k][i] != sep
    ensures Split(Join(pieces, sep), sep) == pieces
    decreases |pieces|
  {
    if |pieces| == 1 {
      SplitWithoutSeparator(pieces[0], sep);
    } else {
      SplitJoin(pieces[1..], sep);
      assert forall i :: 0 <= i < |pieces[0]| ==> pieces[0][i] != sep;
      SplitAfterPiece(pieces[0], sep, Join(pieces[1..], sep));
    }
  }

  // ------------------------------------------------- the tag pattern

  /** `tag` occurs at `p`, ignoring ASCII case. */
  predicate LabelAt(s: string, p: nat, tag: string) {
    p + |tag| <= |s| && forall j :: 0 <= j < |tag| ==> Lower(s[p + j]) == Lower(tag[j])
  }

  /** `s` contains `tag` somewhere, ignoring ASCII case. */
  predicate ContainsLabel(s: string, tag: string) {
    exists p :: 0 <= p <= |s| && LabelAt(s, p, tag)
  }

  /** The first position at or after `e` holding a newline, or the end. */
  function LineEnd(s: string, e: nat): (k: nat)
    requires e <= |s|
    ensures e <= k <= |s|
    ensures forall i :: e <= i < k ==> s[i] != '\n'
    ensures k == |s| || s[k] == '\n'
    decreases |s| - e
  {
    if e < |s| && s[e] != '\n' then LineEnd(s, e + 1) else e
  }

  lemma LineEndUnique(s: string, e: nat, k: nat)
    requires e <= k <= |s|
    requires forall i :: e <= i < k ==> s[i] != '\n'
    requires k == |s| || s[k] == '\n'
    ensures LineEnd(s, e) == k
    decreases k - e
  {
    if e < k {
      LineEndUnique(s, e + 1, k);
    }
  }

  /** The last position in `[a, e)` that is not a newline. */
  function LastNonNewline(s: string, a: nat, e: nat): (r: Option<nat>)
    requires a <= e <= |s|
    ensures r.None? ==> forall i :: a <= i < e ==> s[i] == '\n'
    ensures r.Some? ==> a <= r.value < e && s[r.value] != '\n'
                        && forall i :: r.value < i < e ==> s[i] == '\n'
    decreases e - a
  {
    if e == a then None
    else if s[e - 1] != '\n' then Some(e - 1)
    else LastNonNewline(s, a, e - 1)
  }

  /**
   * What `\s*([^\n]+)` captures when matched from `a`. The greedy `\s*` takes
   * the whole whitespace run, newlines included; if text follows, the group
   * is the rest of that line. If the run reaches the end of the text, `\s*`
   * backs off until `[^\n]+` can take one character: the group is then the
   * last non-newline whitespace character of the run.
   */
  function CaptureAfter(s: string, a: nat): (r: Option<string>)
    requires a <= |s|
    ensures r.Some? ==> |r.value| > 0 && !HasNewline(r.value)
  {
    var e := SpanSpace(s, a);
    if e < |s| then
      var k := LineEnd(s, e);
      assert forall i :: 0 <= i < k - e ==> s[e..k][i] == s[e + i];
      Some(s[e..k])
    else
      match LastNonNewline(s, a, e)
      case None => None
      case Some(q) => Some([s[q]])
  }

  /**
   * The capture group of the first match of `Label\s*([^\n]+)` (ignoring
   * case) that starts at or after `p`.
   */
  function FirstLabelMatch(s: string, tag: string, p: nat): (r: Option<string>)
    ensures r.Some? ==> |r.value| > 0 && !HasNewline(r.value)
    decreases |s| + 1 - p
  {
    if p + |tag| > |s| then None
    else if LabelAt(s, p, tag) && CaptureAfter(s, p + |tag|).Some? then
      CaptureAfter(s, p + |tag|)
    else FirstLabelMatch(s, tag, p + 1)
  }

  /** `text.match(/Label\s*([^\n]+)/i)?.[1]?.trim()`. */
  function ExtractField(text: string, tag: string): (r: Option<string>)
    ensures r.Some? ==> !HasNewline(r.value)
  {
    match FirstLabelMatch(text, tag, 0)
    case None => None
    case Some(g) =>
      assert forall i :: 0 <= i < |Trim(g)| ==> Trim(g)[i] in g;
      Some(Trim(g))
  }

  /** Positions before `k` cannot start the tag, so the search may begin at `k`. */
  lemma {:induction false} SkipNonMatches(s: string, tag: string, p: nat, k: nat)
    requires p <= k
    requires forall q :: p <= q < k ==> !LabelAt(s, q, tag)
    ensures FirstLabelMatch(s, tag, p) == FirstLabelMatch(s, tag, k)
    decreases k - p
  {
    if p < k {
      SkipNonMatches(s, tag, p + 1, k);
    }
  }

  // -------------------------------------------------------------- numbers

  function DigitChar(d: nat): (c: char)
    requires d < 10
    ensures '0' <= c <= '9'
  {
    ('0' as int + d) as char
  }

  /** `String(n)` for a natural number: decimal digits, no leading zeros. */
  function DecimalString(n: nat): (r: string)
    ensures |r| > 0
    ensures forall i :: 0 <= i < |r| ==> '0' <= r[i] <= '9'
    ensures |r| > 1 ==> r[0] != '0'
  {
    if n < 10 then [DigitChar(n)] else DecimalString(n / 10) + [DigitChar(n % 10)]
  }

  /** The value of a decimal digit. */
  function DigitValue(c: char): (d: nat)
    requires '0' <= c <= '9'
    ensures d < 10 && DigitChar(d) == c
  {
    c as int - '0' as int
  }

  /** A non-empty run of decimal digits read as a number; `None` otherwise. */
  function ParseDecimal(s: string): (r: Option<nat>)
    ensures r.Some? ==> s != [] && forall i :: 0 <= i < |s| ==> '0' <= s[i] <= '9'
  {
    if s == [] || !('0' <= s[|s| - 1] <= '9') then None
    else if |s| == 1 then Some(DigitValue(s[0]))
    else match ParseDecimal(s[..|s| - 1])
      case None => None
      case Some(v) => Some(10 * v + DigitValue(s[|s| - 1]))
  }

  /** `String(n)` reads back as `n`. */
  lemma {:induction false} ParseDecimalString(n: nat)
    ensures ParseDecimal(DecimalString(n)) == Some(n)
  {
    if n >= 10 {
      ParseDecimalString(n / 10);
      var s := DecimalString(n);
      assert s[..|s| - 1] == DecimalString(n / 10);
    }
  }
}
