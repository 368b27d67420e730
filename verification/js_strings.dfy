/**
 * The JavaScript string primitives the controllers rely on: the whitespace class
 * shared by `String.prototype.trim` and the regular-expression escape `\s`, trimming,
 * the controllers' `_hasText`, and `Array.prototype.join`.
 */
module JsStrings {
  import opened Wrappers

  /** ECMAScript WhiteSpace and LineTerminator code points: the set both `trim` and `\s`
      use. It contains U+FEFF, the byte-order mark. */
  predicate IsWhitespace(c: char) {
    || c == '\t' || c == '\n' || c == '\U{000B}' || c == '\U{000C}' || c == '\r'
    || c == ' ' || c == '\U{00A0}' || c == '\U{1680}'
    || ('\U{2000}' <= c <= '\U{200A}')
    || c == '\U{2028}' || c == '\U{2029}' || c == '\U{202F}' || c == '\U{205F}'
    || c == '\U{3000}' || c == '\U{FEFF}'
  }

  /** `\d` and `[0-9]`: the ASCII digits only. */
  predicate IsDigit(c: char) {
    '0' <= c <= '9'
  }

  predicate AllWhitespace(s: string) {
    forall i :: 0 <= i < |s| ==> IsWhitespace(s[i])
  }

  /** Neither the first nor the last character is whitespace: what `trim` leaves behind. */
  predicate Trimmed(s: string) {
    |s| == 0 || (!IsWhitespace(s[0]) && !IsWhitespace(s[|s| - 1]))
  }

  /** The number of whitespace characters `s` starts with. */
  function LeadingSpace(s: string): (n: nat)
    ensures n <= |s|
    ensures forall k :: 0 <= k < n ==> IsWhitespace(s[k])
    ensures n == |s| || !IsWhitespace(s[n])
  {
    if |s| > 0 && IsWhitespace(s[0]) then 1 + LeadingSpace(s[1..]) else 0
  }

  /** The number of whitespace characters `s` ends with. */
  function TrailingSpace(s: string): (n: nat)
    ensures n <= |s|
    ensures forall k :: |s| - n <= k < |s| ==> IsWhitespace(s[k])
    ensures n == |s| || !IsWhitespace(s[|s| - n - 1])
  {
    if |s| > 0 && IsWhitespace(s[|s| - 1]) then 1 + TrailingSpace(s[..|s| - 1]) else 0
  }

  /** `String.prototype.trim`: the slice of `s` between its leading and its trailing
      whitespace. */
  function Trim(s: string): (r: string)
    ensures Trimmed(r)
    ensures var i := LeadingSpace(s);
            i + |r| <= |s| && r == s[i..i + |r|]
            && (forall k :: 0 <= k < i ==> IsWhitespace(s[k]))
            && (forall k :: i + |r| <= k < |s| ==> IsWhitespace(s[k]))
  {
    var i := LeadingSpace(s);
    var n := TrailingSpace(s[i..]);
    assert n < |s| - i ==> s[i..][0] == s[i];
    s[i..|s| - n]
  }

  /** Trimming a text that has whitespace only around a trimmed core yields that core:
      the slice `Trim` returns is the unique one its contract describes. */
  lemma TrimAround(w1: string, core: string, w2: string)
    requires AllWhitespace(w1) && AllWhitespace(w2) && Trimmed(core)
    ensures Trim(w1 + core + w2) == core
  {
    var s := w1 + core + w2;
    var r := Trim(s);
    var i := LeadingSpace(s);
    if |core| > 0 {
      assert s[|w1|] == core[0];
      assert s[|w1| + |core| - 1] == core[|core| - 1];
      assert s[|w1|..|w1| + |core|] == core;
    } else {
      assert forall k :: 0 <= k < |s| ==> IsWhitespace(s[k]) by {
        forall k | 0 <= k < |s| ensures IsWhitespace(s[k]) {
          if k < |w1| { assert s[k] == w1[k]; } else { assert s[k] == w2[k - |w1|]; }
        }
      }
    }
  }

  lemma ConsAssoc(c: char, a: string, b: string, d: string)
    ensures [c] + (a + b + d) == ([c] + a) + b + d
  {
  }

  lemma SplitThree(s: string, a: nat, b: nat)
    requires a <= b <= |s|
    ensures s == s[..a] + s[a..b] + s[b..]
  {
  }

  /** Whitespace positions before `a` and from `b` on make whitespace slices. */
  lemma WhitespaceSlices(s: string, a: nat, b: nat)
    requires a <= b <= |s|
    requires forall k :: 0 <= k < a ==> IsWhitespace(s[k])
    requires forall k :: b <= k < |s| ==> IsWhitespace(s[k])
    ensures AllWhitespace(s[..a]) && AllWhitespace(s[b..])
  {
    var w := s[b..];
    forall k | 0 <= k < |w| ensures IsWhitespace(w[k]) {
      assert w[k] == s[b + k];
    }
  }

  /** A string is its trim with whitespace on either side. */
  lemma TrimDecompose(s: string)
    ensures var r, i := Trim(s), LeadingSpace(s);
            && s == s[..i] + r + s[i + |r|..]
            && AllWhitespace(s[..i]) && AllWhitespace(s[i + |r|..])
  {
    var r, i := Trim(s), LeadingSpace(s);
    SplitThree(s, i, i + |r|);
    WhitespaceSlices(s, i, i + |r|);
  }

  /** A leading whitespace character makes no difference to `trim`. */
  lemma TrimAfterSpace(c: char, t: string)
    requires IsWhitespace(c)
    ensures Trim([c] + t) == Trim(t)
  {
    var r, i := Trim(t), LeadingSpace(t);
    TrimDecompose(t);
    var w1, w2 := [c] + t[..i], t[i + |r|..];
    ConsAssoc(c, t[..i], r, w2);
    assert AllWhitespace(w1) by {
      forall k | 0 <= k < |w1| ensures IsWhitespace(w1[k]) {
        if k > 0 { assert w1[k] == t[..i][k - 1]; }
      }
    }
    TrimAround(w1, r, w2);
  }

  /** `trim` is idempotent, and a trimmed string is its own trim. */
  lemma TrimOfTrimmed(s: string)
    requires Trimmed(s)
    ensures Trim(s) == s
  {
    TrimAround([], s, []);
    assert [] + s + [] == s;
  }

  /** `_hasText` (identical in both form controllers): a string whose trim is non-empty. */
  function HasText(v: Option<string>): (r: bool)
    ensures r <==> v.Some? && exists i :: 0 <= i < |v.value| && !IsWhitespace(v.value[i])
  {
    match v
    case None => false
    case Some(s) =>
      var t := Trim(s);
      assert |t| > 0 ==> s[LeadingSpace(s)] == t[0];
      |t| > 0
  }

  /** `t` is what is left of `s` once whitespace, and only whitespace, is cut off at both
      ends, as far as it goes. */
  ghost predicate IsTrimOf(t: string, s: string) {
    Trimmed(t) && exists w1, w2 :: AllWhitespace(w1) && AllWhitespace(w2) && s == w1 + t + w2
  }

  /** `trim` returns such a core: `s` is its trim with whitespace on either side ... */
  lemma TrimIsTrimOf(s: string)
    ensures IsTrimOf(Trim(s), s)
  {
    var r, i := Trim(s), LeadingSpace(s);
    TrimDecompose(s);
    assert AllWhitespace(s[..i]) && AllWhitespace(s[i + |r|..]) && s == s[..i] + r + s[i + |r|..];
  }

  /** ... and it is the only one: whatever `IsTrimOf` admits is the trim. */
  lemma IsTrimOfIsTrim(t: string, s: string)
    requires IsTrimOf(t, s)
    ensures t == Trim(s)
  {
    var w1, w2 :| AllWhitespace(w1) && AllWhitespace(w2) && s == w1 + t + w2;
    TrimAround(w1, t, w2);
  }

  /** `trim` leaves nothing exactly when the string holds no text. */
  lemma TrimEmptyIffBlank(s: string)
    ensures Trim(s) == [] <==> !HasText(Some(s))
  {
  }

  /** `Array.prototype.join` of strings with a separator. */
  function Join(sep: string, parts: seq<string>): (r: string)
    ensures |parts| == 1 ==> r == parts[0]
    ensures |parts| == 0 ==> r == []
  {
    if |parts| == 0 then []
    else if |parts| == 1 then parts[0]
    else parts[0] + sep + Join(sep, parts[1..])
  }

  /** The separator stands between consecutive parts and nowhere else: read from the
      back, a join of several parts is the join of all but the last, the separator, and
      the last part. */
  lemma {:induction false} JoinLast(sep: string, parts: seq<string>)
    requires |parts| > 1
    ensures Join(sep, parts) == Join(sep, parts[..|parts| - 1]) + sep + parts[|parts| - 1]
    decreases |parts|
  {
    var n := |parts|;
    var init := parts[..n - 1];
    if n > 2 {
      JoinLast(sep, parts[1..]);
      assert parts[1..][..n - 2] == init[1..];
      assert parts[1..][n - 2] == parts[n - 1];
      calc {
        Join(sep, parts);
        parts[0] + sep + Join(sep, parts[1..]);
        parts[0] + sep + (Join(sep, init[1..]) + sep + parts[n - 1]);
        (init[0] + sep + Join(sep, init[1..])) + sep + parts[n - 1];
        Join(sep, init) + sep + parts[n - 1];
      }
    }
  }
}
