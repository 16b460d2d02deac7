/**
 * The JavaScript string operations the app relies on: `trim`, the regular
 * expression class `\s`, `toLowerCase` and `includes`.
 */
module Strings {

  /**
   * The characters that `String.prototype.trim` removes and that `\s`
   * matches: the WhiteSpace and LineTerminator code points of section
   * 12.2 and 12.3 of ECMA-262 (tab, line feed, vertical tab, form feed,
   * carriage return, space, no-break space, the Unicode space separators,
   * line and paragraph separators, and the byte order mark).
   */
  predicate IsWhitespace(c: char)
  {
    c == '\t' || c == '\n' || c == '\U{000B}' || c == '\U{000C}' || c == '\r' || c == ' '
    || c == '\U{00A0}' || c == '\U{1680}' || ('\U{2000}' <= c <= '\U{200A}')
    || c == '\U{2028}' || c == '\U{2029}' || c == '\U{202F}' || c == '\U{205F}'
    || c == '\U{3000}' || c == '\U{FEFF}'
  }

  /** Every character of `s` is whitespace (this includes the empty string). */
  predicate AllWhitespace(s: string)
  {
    forall k :: 0 <= k < |s| ==> IsWhitespace(s[k])
  }

  /** `s` does not begin or end with whitespace. */
  predicate Trimmed(s: string)
  {
    s == [] || (!IsWhitespace(s[0]) && !IsWhitespace(s[|s| - 1]))
  }

  /** Drops the leading whitespace: the result is the suffix of `s` after its longest whitespace prefix. */
  function TrimStart(s: string): (r: string)
    ensures |r| <= |s| && r == s[|s| - |r|..]
    ensures AllWhitespace(s[..|s| - |r|])
    ensures r != [] ==> !IsWhitespace(r[0])
  {
    if s != [] && IsWhitespace(s[0]) then
      var r := TrimStart(s[1..]);
      WhitespaceBeforeSuffix(s, r);
      r
    else s
  }

  /** A whitespace character in front of a whitespace prefix of the tail makes a whitespace prefix of `s`. */
  lemma WhitespaceBeforeSuffix(s: string, r: string)
    requires s != [] && IsWhitespace(s[0])
    requires |r| <= |s| - 1 && r == s[1..][|s| - 1 - |r|..] && AllWhitespace(s[1..][..|s| - 1 - |r|])
    ensures r == s[|s| - |r|..] && AllWhitespace(s[..|s| - |r|])
  {
    var n := |s| - |r|;
    assert s[1..][n - 1..] == s[n..];
    forall k | 0 <= k < n ensures IsWhitespace(s[..n][k]) {
      if k > 0 { assert s[..n][k] == s[1..][..n - 1][k - 1]; }
    }
  }

  /** Drops the trailing whitespace: the result is the prefix of `s` before its longest whitespace suffix. */
  function TrimEnd(s: string): (r: string)
    ensures |r| <= |s| && r == s[..|r|]
    ensures AllWhitespace(s[|r|..])
    ensures r != [] ==> !IsWhitespace(r[|r| - 1])
  {
    if s != [] && IsWhitespace(s[|s| - 1]) then TrimEnd(s[..|s| - 1]) else s
  }

  /**
   * `String.prototype.trim`: `s` is whitespace, then the result, then
   * whitespace, and the result neither begins nor ends with whitespace.
   */
  function Trim(s: string): (r: string)
    ensures exists a, b :: 0 <= a <= b <= |s| && r == s[a..b] && AllWhitespace(s[..a]) && AllWhitespace(s[b..])
    ensures Trimmed(r)
    ensures r == [] <==> AllWhitespace(s)
  {
    TrimEndAfterStart(s);
    TrimEnd(TrimStart(s))
  }

  /** The facts about `TrimEnd(TrimStart(s))` that `Trim` promises. */
  lemma TrimEndAfterStart(s: string)
    ensures TrimSlice(s, TrimStart(s), TrimEnd(TrimStart(s)))
  {
    var t := TrimStart(s);
    SliceOfSlice(s, t, TrimEnd(t));
  }

  /** Cutting a whitespace prefix and then a whitespace suffix leaves a slice of `s` with whitespace around it. */
  lemma SliceOfSlice(s: string, t: string, r: string)
    requires |t| <= |s| && t == s[|s| - |t|..] && AllWhitespace(s[..|s| - |t|])
    requires t != [] ==> !IsWhitespace(t[0])
    requires |r| <= |t| && r == t[..|r|] && AllWhitespace(t[|r|..])
    ensures TrimSlice(s, t, r)
  {
    var a := |s| - |t|;
    assert s[a + |r|..] == t[|r|..];
    if r == [] {
      assert t == [];
      assert s[..a] == s;
    } else {
      assert s[a] == r[0];
    }
  }

  /** `r` is `t` without its whitespace suffix, where `t` is `s` without its whitespace prefix. */
  predicate TrimSlice(s: string, t: string, r: string)
  {
    var a := |s| - |t|;
    0 <= a && a + |r| <= |s| && r == s[a..a + |r|] && AllWhitespace(s[..a]) && AllWhitespace(s[a + |r|..])
    && (r == [] <==> AllWhitespace(s))
  }

  /** `s` is empty after trimming: the `!value || value.trim() === ''` test of the validators. */
  predicate Blank(s: string)
  {
    Trim(s) == []
  }

  /** `toLowerCase` on one character, for the ASCII letters only. */
  function LowerChar(c: char): char
  {
    if 'A' <= c <= 'Z' then (c as int - 'A' as int + 'a' as int) as char else c
  }

  /** `String.prototype.toLowerCase`, restricted to the ASCII letters. */
  function ToLower(s: string): string
  {
    seq(|s|, i requires 0 <= i < |s| => LowerChar(s[i]))
  }

  /**
   * Lower-casing keeps the length, leaves no upper-case ASCII letter, keeps
   * every other character, and maps each upper-case letter to its lower-case one.
   */
  lemma ToLowerLowers(s: string)
    ensures |ToLower(s)| == |s|
    ensures forall i :: 0 <= i < |s| ==> !('A' <= ToLower(s)[i] <= 'Z')
    ensures forall i :: 0 <= i < |s| && !('A' <= s[i] <= 'Z') ==> ToLower(s)[i] == s[i]
    ensures forall i :: 0 <= i < |s| && 'A' <= s[i] <= 'Z' ==> ToLower(s)[i] as int == s[i] as int + 32
    ensures ToLower(ToLower(s)) == ToLower(s)
  {
  }

  /** `q` occurs in `s` starting at index `i`. */
  predicate OccursAt(s: string, q: string, i: int)
  {
    0 <= i && i + |q| <= |s| && s[i..i + |q|] == q
  }

  /**
   * `String.prototype.includes`, written as the left-to-right scan that tries
   * every start position in turn. The empty string occurs everywhere.
   */
  function Includes(s: string, q: string): (r: bool)
    ensures r <==> exists i :: OccursAt(s, q, i)
  {
    if q <= s then
      assert OccursAt(s, q, 0);
      true
    else if s == [] then
      false
    else
      var r' := Includes(s[1..], q);
      assert r' ==> exists i :: OccursAt(s, q, i) by {
        if r' {
          var i :| OccursAt(s[1..], q, i);
          TailSlice(s, i, |q|);
          assert OccursAt(s, q, i + 1);
        }
      }
      assert (exists i :: OccursAt(s, q, i)) ==> r' by {
        if i :| OccursAt(s, q, i) {
          assert OccursAt(s, q, 0) ==> q <= s;
          TailSlice(s, i - 1, |q|);
          assert OccursAt(s[1..], q, i - 1);
        }
      }
      r'
  }

  /** A slice of the tail of `s` is the slice of `s` one position further on. */
  lemma TailSlice(s: string, i: int, n: int)
    requires s != [] && 0 <= i && 0 <= n && i + n <= |s| - 1
    ensures s[1..][i..i + n] == s[i + 1..i + 1 + n]
  {
  }

  /** The ASCII decimal digits, the class `\d` of a JavaScript regular expression. */
  predicate IsDigit(c: char)
  {
    '0' <= c <= '9'
  }

  /** The number a string of decimal digits denotes, most significant digit first. */
  function DecimalValue(s: string): nat
    requires forall k :: 0 <= k < |s| ==> IsDigit(s[k])
  {
    if s == [] then 0
    else
      var init := s[..|s| - 1];
      assert forall k :: 0 <= k < |init| ==> init[k] == s[k];
      assert IsDigit(s[|s| - 1]);
      10 * DecimalValue(init) + (s[|s| - 1] as int - '0' as int)
  }

  /**
   * How a template literal renders a non-negative whole number: its decimal
   * digits, without leading zeros.
   */
  function DecimalText(n: nat): (r: string)
    ensures |r| >= 1 && forall k :: 0 <= k < |r| ==> IsDigit(r[k])
    ensures DecimalValue(r) == n
    ensures r[0] == '0' ==> r == "0"
  {
    var last := ['0' + (n % 10) as char];
    if n < 10 then
      last
    else
      var r := DecimalText(n / 10) + last;
      assert r[..|r| - 1] == DecimalText(n / 10);
      r
  }
}
