/**
 * The JavaScript string operations the handlers rely on: the truthiness of an
 * optional string, `a || b`, and `String.prototype.trim`, which removes the
 * ECMAScript WhiteSpace and LineTerminator code points from both ends.
 */
module JsStrings {
  import opened Wrappers

  /** ECMAScript WhiteSpace (TAB, VT, FF, SP, NBSP, ZWNBSP and category Zs) or LineTerminator. */
  predicate IsJsWhitespace(c: char) {
    || c == '\t' || c == '\n' || c == '\U{B}' || c == '\U{C}' || c == '\r' || c == ' '
    || c == '\U{A0}' || c == '\U{1680}' || ('\U{2000}' <= c <= '\U{200A}')
    || c == '\U{2028}' || c == '\U{2029}' || c == '\U{202F}' || c == '\U{205F}'
    || c == '\U{3000}' || c == '\U{FEFF}'
  }

  /** Every character of `s` is whitespace (vacuously so for ""). */
  ghost predicate AllWhitespace(s: string) {
    forall i :: 0 <= i < |s| ==> IsJsWhitespace(s[i])
  }

  /** A string is truthy exactly when it is present and not "". */
  predicate Truthy(s: Option<string>) {
    s.Some? && s.value != ""
  }

  /**
   * `s || fallback` for an optional string: the result is truthy exactly
   * when one of the operands is, and a second `|| fallback` changes nothing.
   */
  function OrElse(s: Option<string>, fallback: string): (r: string)
    ensures Truthy(s) ==> r == s.value
    ensures !Truthy(s) ==> r == fallback
    ensures Truthy(Some(r)) <==> Truthy(s) || fallback != ""
  {
    if Truthy(s) then s.value else fallback
  }

  /** With a truthy fallback, `(s || fallback) || fallback` is `s || fallback`. */
  lemma OrElseAbsorbs(s: Option<string>, fallback: string)
    requires fallback != ""
    ensures OrElse(Some(OrElse(s, fallback)), fallback) == OrElse(s, fallback)
  {
  }

  /** The number of whitespace characters at the front of `s`. */
  function LeadingSpace(s: string): (k: nat)
    ensures k <= |s|
    ensures forall i :: 0 <= i < k ==> IsJsWhitespace(s[i])
    ensures k < |s| ==> !IsJsWhitespace(s[k])
  {
    if |s| > 0 && IsJsWhitespace(s[0]) then
      var k' := LeadingSpace(s[1..]);
      assert forall i :: 1 <= i < k' + 1 ==> s[i] == s[1..][i - 1];
      k' + 1
    else 0
  }

  /** The number of whitespace characters at the back of `s`. */
  function TrailingSpace(s: string): (k: nat)
    ensures k <= |s|
    ensures forall i :: |s| - k <= i < |s| ==> IsJsWhitespace(s[i])
    ensures k < |s| ==> !IsJsWhitespace(s[|s| - 1 - k])
  {
    if |s| > 0 && IsJsWhitespace(s[|s| - 1]) then
      var k' := TrailingSpace(s[..|s| - 1]);
      assert forall i :: |s| - 1 - k' <= i < |s| - 1 ==> s[i] == s[..|s| - 1][i];
      k' + 1
    else 0
  }

  /** `s.trim()`. */
  function Trim(s: string): (r: string)
    ensures |r| <= |s|
    ensures r == [] <==> AllWhitespace(s)
    ensures r != [] ==> !IsJsWhitespace(r[0]) && !IsJsWhitespace(r[|r| - 1])
  {
    var front := LeadingSpace(s);
    var rest := s[front..];
    var back := TrailingSpace(rest);
    if rest == [] then
      []
    else
      assert !IsJsWhitespace(rest[0]);
      assert back < |rest|;
      assert !AllWhitespace(s) by { assert !IsJsWhitespace(s[front]); }
      rest[..|rest| - back]
  }

  /**
   * Trim only removes whitespace, and only from the ends: the result is the
   * slice `s[i..j]`, and every character outside it is whitespace.
   */
  lemma TrimIsSlice(s: string)
    ensures exists i, j :: 0 <= i <= j <= |s| && Trim(s) == s[i..j]
                           && (forall k :: 0 <= k < i ==> IsJsWhitespace(s[k]))
                           && (forall k :: j <= k < |s| ==> IsJsWhitespace(s[k]))
  {
    var front := LeadingSpace(s);
    var rest := s[front..];
    var back := TrailingSpace(rest);
    if rest == [] {
      assert Trim(s) == s[front..front];
    } else {
      var j := |s| - back;
      assert forall k :: j <= k < |s| ==> s[k] == rest[k - front];
      assert Trim(s) == s[front..j];
    }
  }

  /** A string with no whitespace at either end is its own trim. */
  lemma TrimOfTrimmed(s: string)
    requires s != [] ==> !IsJsWhitespace(s[0]) && !IsJsWhitespace(s[|s| - 1])
    ensures Trim(s) == s
  {
    if s != [] {
      assert LeadingSpace(s) == 0;
      assert s[0..] == s;
      assert TrailingSpace(s) == 0;
      assert s[..|s|] == s;
    }
  }

  /**
   * `x.trim()` is truthy exactly when `x` is not all whitespace, so it is
   * truthy only when `x` itself is; the strings on which the two differ are
   * the non-empty, whitespace-only ones.
   */
  lemma TrimmedTruthy(x: string)
    ensures Truthy(Some(Trim(x))) <==> !AllWhitespace(x)
    ensures Truthy(Some(Trim(x))) ==> Truthy(Some(x))
    ensures Truthy(Some(x)) && !Truthy(Some(Trim(x))) <==> x != "" && AllWhitespace(x)
  {
  }

  /** Trimming twice is trimming once. */
  lemma TrimIdempotent(s: string)
    ensures Trim(Trim(s)) == Trim(s)
  {
    TrimOfTrimmed(Trim(s));
  }
}
